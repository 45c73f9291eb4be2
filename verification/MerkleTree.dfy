/** Merkle trees over the transactions and certificates of a block, and their partial encodings. */
module MerkleTree {
  import opened Outcomes
  import opened Powers

  type Digest = nat

  const NULL_DIGEST: Digest := 0

  /** The pair hash; all that is assumed of it is that it has no collisions. */
  type PairHash = (Digest, Digest) -> Digest

  ghost predicate Injective(hash: PairHash) {
    forall a, b, c, d :: hash(a, b) == hash(c, d) ==> a == c && b == d
  }

  /** CalcTreeWidth: the number of nodes at a height. */
  function Width(n: nat, height: nat): nat {
    (n + Pow2(height) - 1) / Pow2(height)
  }

  /** A node exists exactly when it covers a leaf. */
  lemma WidthCovers(n: nat, height: nat, pos: nat)
    ensures pos < Width(n, height) <==> InTree(n, height, pos)
  {
    CeilCovers(n, Pow2(height), pos);
  }

  lemma CeilCovers(n: nat, p: nat, pos: nat)
    requires p >= 1
    ensures pos < (n + p - 1) / p <==> pos * p < n
  {
    var w := (n + p - 1) / p;
    assert n + p - 1 == p * w + (n + p - 1) % p;
    if pos < w {
      assert (pos + 1) * p <= w * p by {
        MulMono(pos + 1, w, p);
      }
    } else {
      assert w * p <= pos * p by {
        MulMono(w, pos, p);
      }
    }
  }

  /** The first leaf below a node, and the end of its leaves. */
  function Start(height: nat, pos: nat): nat {
    pos * Pow2(height)
  }

  function End(n: nat, height: nat, pos: nat): nat {
    if Start(height, pos + 1) < n then Start(height, pos + 1) else n
  }

  predicate InTree(n: nat, height: nat, pos: nat) {
    Start(height, pos) < n
  }

  predicate HasRight(n: nat, height: nat, pos: nat)
    requires height >= 1
  {
    2 * pos + 1 < Width(n, height - 1)
  }

  /** The leaves of a node are those of its left child followed by those of its right child, if it has one. */
  lemma Children(n: nat, height: nat, pos: nat)
    requires height >= 1 && InTree(n, height, pos)
    ensures InTree(n, height - 1, 2 * pos) && Start(height - 1, 2 * pos) == Start(height, pos)
    ensures Start(height, pos) < End(n, height - 1, 2 * pos) <= End(n, height, pos) <= n
    ensures HasRight(n, height, pos) ==>
      InTree(n, height - 1, 2 * pos + 1) && Start(height - 1, 2 * pos + 1) == End(n, height - 1, 2 * pos)
      && End(n, height - 1, 2 * pos + 1) == End(n, height, pos)
    ensures !HasRight(n, height, pos) ==> End(n, height - 1, 2 * pos) == End(n, height, pos)
  {
    WidthCovers(n, height - 1, 2 * pos + 1);
    var p := Pow2(height - 1);
    assert Pow2(height) == 2 * p;
    assert 2 * pos * p == pos * (2 * p);
    assert (2 * pos + 1) * p == 2 * pos * p + p;
    assert (2 * pos + 2) * p == 2 * pos * p + 2 * p;
    assert (pos + 1) * (2 * p) == pos * (2 * p) + 2 * p;
    assert 2 * pos + 1 + 1 == 2 * pos + 2;
  }

  /** CalcHash. */
  function CalcHash(hash: PairHash, leaves: seq<Digest>, height: nat, pos: nat): Digest
    requires InTree(|leaves|, height, pos)
  {
    if height == 0 then leaves[pos]
    else
      Children(|leaves|, height, pos);
      var left := CalcHash(hash, leaves, height - 1, 2 * pos);
      var right := if HasRight(|leaves|, height, pos) then CalcHash(hash, leaves, height - 1, 2 * pos + 1) else left;
      hash(left, right)
  }

  // ---------- Encoding ----------

  /** Whether a leaf below the node is matched. */
  predicate AnyMatch(mask: seq<bool>, height: nat, pos: nat) {
    exists p :: Start(height, pos) <= p < End(|mask|, height, pos) && mask[p]
  }

  datatype Encoding = Encoding(bits: seq<bool>, hashes: seq<Digest>)

  function Join(a: Encoding, b: Encoding): Encoding {
    Encoding(a.bits + b.bits, a.hashes + b.hashes)
  }

  /** What TraverseAndBuild appends for a node. */
  function Encode(hash: PairHash, leaves: seq<Digest>, mask: seq<bool>, height: nat, pos: nat): Encoding
    requires |mask| == |leaves| && InTree(|leaves|, height, pos)
  {
    if height == 0 || !AnyMatch(mask, height, pos)
      then Encoding([AnyMatch(mask, height, pos)], [CalcHash(hash, leaves, height, pos)])
    else
      Children(|leaves|, height, pos);
      var left := Encode(hash, leaves, mask, height - 1, 2 * pos);
      var below := if HasRight(|leaves|, height, pos)
        then Join(left, Encode(hash, leaves, mask, height - 1, 2 * pos + 1))
        else left;
      Join(Encoding([true], []), below)
  }

  /** The positions of matched leaves from `lo` up to `hi`. */
  ghost function Matched(mask: seq<bool>, lo: nat, hi: nat): (r: seq<nat>)
    requires lo <= hi <= |mask|
    decreases hi - lo
  {
    if lo == hi then [] else Matched(mask, lo, hi - 1) + (if mask[hi - 1] then [hi - 1] else [])
  }

  lemma {:induction false} MatchedSplit(mask: seq<bool>, lo: nat, mid: nat, hi: nat)
    requires lo <= mid <= hi <= |mask|
    ensures Matched(mask, lo, hi) == Matched(mask, lo, mid) + Matched(mask, mid, hi)
    decreases hi - mid
  {
    if mid < hi {
      MatchedSplit(mask, lo, mid, hi - 1);
    }
  }

  lemma {:induction false} MatchedNone(mask: seq<bool>, lo: nat, hi: nat)
    requires lo <= hi <= |mask| && forall p :: lo <= p < hi ==> !mask[p]
    ensures Matched(mask, lo, hi) == []
    decreases hi - lo
  {
    if lo < hi {
      MatchedNone(mask, lo, hi - 1);
    }
  }

  lemma {:induction false} MatchedSome(mask: seq<bool>, lo: nat, hi: nat, p: nat)
    requires lo <= p < hi <= |mask| && mask[p]
    ensures |Matched(mask, lo, hi)| >= 1
    decreases hi - lo
  {
    if p < hi - 1 {
      MatchedSome(mask, lo, hi - 1, p);
    }
  }

  /** Positions in order, and exactly the matched ones. */
  lemma {:induction false} MatchedExactly(mask: seq<bool>, lo: nat, hi: nat)
    requires lo <= hi <= |mask|
    ensures forall i :: 0 <= i < |Matched(mask, lo, hi)| ==> lo <= Matched(mask, lo, hi)[i] < hi
    ensures forall i, j :: 0 <= i < j < |Matched(mask, lo, hi)| ==> Matched(mask, lo, hi)[i] < Matched(mask, lo, hi)[j]
    ensures forall p :: lo <= p < hi ==> (p in Matched(mask, lo, hi) <==> mask[p])
    decreases hi - lo
  {
    if lo < hi {
      MatchedExactly(mask, lo, hi - 1);
    }
  }

  /** The matched positions below a node. */
  ghost function Below(mask: seq<bool>, height: nat, pos: nat): seq<nat>
    requires InTree(|mask|, height, pos)
  {
    StartBeforeEnd(|mask|, height, pos);
    Matched(mask, Start(height, pos), End(|mask|, height, pos))
  }

  lemma StartBeforeEnd(n: nat, height: nat, pos: nat)
    requires InTree(n, height, pos)
    ensures Start(height, pos) < End(n, height, pos) <= n
  {
    assert (pos + 1) * Pow2(height) == pos * Pow2(height) + Pow2(height);
  }

  /** The leaves at some positions. */
  function LeavesAt(leaves: seq<Digest>, at: seq<nat>): (r: seq<Digest>)
    ensures |r| == |at|
    ensures forall i :: 0 <= i < |at| && at[i] < |leaves| ==> r[i] == leaves[at[i]]
  {
    seq(|at|, i requires 0 <= i < |at| => if at[i] < |leaves| then leaves[at[i]] else NULL_DIGEST)
  }

  // ---------- Decoding ----------

  /** What TraverseAndExtract returns for a node: its hash, how far it read, and the matches with their positions. */
  datatype Node = Node(digest: Digest, bitsUsed: nat, hashUsed: nat, matches: seq<Digest>, at: seq<nat>)

  /** TraverseAndExtract; nothing is returned if it would set fBad. */
  function Decode(hash: PairHash, n: nat, tree: Encoding, height: nat, pos: nat, b: nat, k: nat): Option<Node>
    requires InTree(n, height, pos)
    decreases height
  {
    if b >= |tree.bits| then None
    else if height == 0 || !tree.bits[b] then
      if k >= |tree.hashes| then None
      else if height == 0 && tree.bits[b] then Some(Node(tree.hashes[k], b + 1, k + 1, [tree.hashes[k]], [pos]))
      else Some(Node(tree.hashes[k], b + 1, k + 1, [], []))
    else
      Children(n, height, pos);
      var l := Decode(hash, n, tree, height - 1, 2 * pos, b + 1, k);
      if l.None? then None
      else if HasRight(n, height, pos) then
        var r := Decode(hash, n, tree, height - 1, 2 * pos + 1, l.value.bitsUsed, l.value.hashUsed);
        if r.None? || r.value.digest == l.value.digest then None
        else
          Some(Node(hash(l.value.digest, r.value.digest), r.value.bitsUsed, r.value.hashUsed,
                    l.value.matches + r.value.matches, l.value.at + r.value.at))
      else Some(l.value.(digest := hash(l.value.digest, l.value.digest)))
  }

  ghost predicate Increasing(at: seq<nat>) {
    forall i, j :: 0 <= i < j < |at| ==> at[i] < at[j]
  }

  ghost predicate Within(at: seq<nat>, lo: nat, hi: nat) {
    forall i :: 0 <= i < |at| ==> lo <= at[i] < hi
  }

  /** The matches are leaves of the block, in leaf order. */
  ghost predicate Genuine(leaves: seq<Digest>, node: Node, lo: nat, hi: nat) {
    && hi <= |leaves| && Increasing(node.at) && Within(node.at, lo, hi)
    && node.matches == LeavesAt(leaves, node.at)
  }

  lemma JoinGenuine(leaves: seq<Digest>, l: Node, r: Node, lo: nat, mid: nat, hi: nat, node: Node)
    requires Genuine(leaves, l, lo, mid) && Genuine(leaves, r, mid, hi) && lo <= mid <= hi
    requires node.matches == l.matches + r.matches && node.at == l.at + r.at
    ensures Genuine(leaves, node, lo, hi)
  {
    forall i | 0 <= i < |node.at|
      ensures lo <= node.at[i] < hi && node.matches[i] == leaves[node.at[i]]
    {
      if i >= |l.at| {
        assert node.at[i] == r.at[i - |l.at|] && node.matches[i] == r.matches[i - |l.at|];
      }
    }
    forall i, j | 0 <= i < j < |node.at|
      ensures node.at[i] < node.at[j]
    {
      if i >= |l.at| {
        assert node.at[i] == r.at[i - |l.at|] && node.at[j] == r.at[j - |l.at|];
      } else if j >= |l.at| {
        assert node.at[j] == r.at[j - |l.at|];
      }
    }
  }

  /** One round of decoding at a node that is descended into. */
  lemma DescendDecoded(hash: PairHash, n: nat, tree: Encoding, height: nat, pos: nat, b: nat, k: nat)
    requires height >= 1 && InTree(n, height, pos) && b < |tree.bits| && tree.bits[b]
    ensures InTree(n, height - 1, 2 * pos) && (HasRight(n, height, pos) ==> InTree(n, height - 1, 2 * pos + 1))
    ensures var l := Decode(hash, n, tree, height - 1, 2 * pos, b + 1, k);
      Decode(hash, n, tree, height, pos, b, k) ==
        if l.None? then None
        else if !HasRight(n, height, pos) then Some(l.value.(digest := hash(l.value.digest, l.value.digest)))
        else
          var r := Decode(hash, n, tree, height - 1, 2 * pos + 1, l.value.bitsUsed, l.value.hashUsed);
          if r.None? || r.value.digest == l.value.digest then None
          else Some(Node(hash(l.value.digest, r.value.digest), r.value.bitsUsed, r.value.hashUsed,
            l.value.matches + r.value.matches, l.value.at + r.value.at))
  {
    Children(n, height, pos);
  }

  lemma NoCollision(hash: PairHash, a: Digest, b: Digest, c: Digest, d: Digest)
    requires Injective(hash) && hash(a, b) == hash(c, d)
    ensures a == c && b == d
  {
  }

  lemma StopSound(hash: PairHash, leaves: seq<Digest>, tree: Encoding, height: nat, pos: nat, b: nat, k: nat)
    requires InTree(|leaves|, height, pos) && b < |tree.bits| && (height == 0 || !tree.bits[b])
    requires var d := Decode(hash, |leaves|, tree, height, pos, b, k);
      d.Some? && d.value.digest == CalcHash(hash, leaves, height, pos)
    ensures Genuine(leaves, Decode(hash, |leaves|, tree, height, pos, b, k).value, Start(height, pos),
      End(|leaves|, height, pos))
  {
    var node := Decode(hash, |leaves|, tree, height, pos, b, k).value;
    assert node.matches == LeavesAt(leaves, node.at);
    assert height == 0 ==> Start(height, pos) == pos;
  }

  lemma DecodeReadsBit(hash: PairHash, n: nat, tree: Encoding, height: nat, pos: nat, b: nat, k: nat)
    requires InTree(n, height, pos)
    ensures Decode(hash, n, tree, height, pos, b, k).Some? ==> b < |tree.bits|
  {
  }

  /**
   * Soundness: whatever the bits and hashes are, a decoded node whose hash is the genuine one
   * yields only leaves of the block, in leaf order.
   */
  lemma {:induction false} DecodeSound(
    hash: PairHash, leaves: seq<Digest>, tree: Encoding, height: nat, pos: nat, b: nat, k: nat)
    requires Injective(hash) && InTree(|leaves|, height, pos)
    requires var d := Decode(hash, |leaves|, tree, height, pos, b, k);
      d.Some? && d.value.digest == CalcHash(hash, leaves, height, pos)
    ensures Genuine(leaves, Decode(hash, |leaves|, tree, height, pos, b, k).value, Start(height, pos),
      End(|leaves|, height, pos))
  {
    hide Start, End, Width, HasRight, Genuine, Decode, Injective, InTree;
    var n := |leaves|;
    DecodeReadsBit(hash, n, tree, height, pos, b, k);
    if height == 0 || !tree.bits[b] {
      StopSound(hash, leaves, tree, height, pos, b, k);
    } else {
      Children(n, height, pos);
      DescendDecoded(hash, n, tree, height, pos, b, k);
      var node := Decode(hash, n, tree, height, pos, b, k).value;
      var l := Decode(hash, n, tree, height - 1, 2 * pos, b + 1, k).value;
      var gl := CalcHash(hash, leaves, height - 1, 2 * pos);
      if HasRight(n, height, pos) {
        var r := Decode(hash, n, tree, height - 1, 2 * pos + 1, l.bitsUsed, l.hashUsed).value;
        NoCollision(hash, l.digest, r.digest, gl, CalcHash(hash, leaves, height - 1, 2 * pos + 1));
        DecodeSound(hash, leaves, tree, height - 1, 2 * pos, b + 1, k);
        DecodeSound(hash, leaves, tree, height - 1, 2 * pos + 1, l.bitsUsed, l.hashUsed);
        JoinGenuine(leaves, l, r, Start(height, pos), End(n, height - 1, 2 * pos), End(n, height, pos), node);
      } else {
        NoCollision(hash, l.digest, l.digest, gl, gl);
        DecodeSound(hash, leaves, tree, height - 1, 2 * pos, b + 1, k);
        SameMatches(leaves, l, node, Start(height, pos), End(n, height, pos));
      }
    }
  }

  lemma SameMatches(leaves: seq<Digest>, l: Node, node: Node, lo: nat, hi: nat)
    requires Genuine(leaves, l, lo, hi) && node.matches == l.matches && node.at == l.at
    ensures Genuine(leaves, node, lo, hi)
  {
  }

  // ---------- Round trip ----------

  ghost predicate Distinct(leaves: seq<Digest>) {
    forall i, j :: 0 <= i < j < |leaves| ==> leaves[i] != leaves[j]
  }

  /** Nodes of one height with equal hashes start with equal leaves. */
  lemma {:induction false} EqualHashes(hash: PairHash, leaves: seq<Digest>, height: nat, p: nat, q: nat)
    requires Injective(hash) && InTree(|leaves|, height, p) && InTree(|leaves|, height, q)
    requires CalcHash(hash, leaves, height, p) == CalcHash(hash, leaves, height, q)
    ensures leaves[Start(height, p)] == leaves[Start(height, q)]
  {
    if height > 0 {
      Children(|leaves|, height, p);
      Children(|leaves|, height, q);
      EqualHashes(hash, leaves, height - 1, 2 * p, 2 * q);
    }
  }

  lemma SiblingsDiffer(hash: PairHash, leaves: seq<Digest>, height: nat, pos: nat)
    requires Injective(hash) && Distinct(leaves) && height >= 1
    requires InTree(|leaves|, height, pos) && HasRight(|leaves|, height, pos)
    ensures InTree(|leaves|, height - 1, 2 * pos) && InTree(|leaves|, height - 1, 2 * pos + 1)
    ensures CalcHash(hash, leaves, height - 1, 2 * pos) != CalcHash(hash, leaves, height - 1, 2 * pos + 1)
  {
    Children(|leaves|, height, pos);
    if CalcHash(hash, leaves, height - 1, 2 * pos) == CalcHash(hash, leaves, height - 1, 2 * pos + 1) {
      EqualHashes(hash, leaves, height - 1, 2 * pos, 2 * pos + 1);
    }
  }

  /** `part` stands in `s` from position `i` on. */
  ghost predicate StandsAt<T(!new)>(part: seq<T>, s: seq<T>, i: nat) {
    i + |part| <= |s| && s[i..i + |part|] == part
  }

  lemma StandsSplit<T(!new)>(a: seq<T>, b: seq<T>, s: seq<T>, i: nat)
    requires StandsAt(a + b, s, i)
    ensures StandsAt(a, s, i) && StandsAt(b, s, i + |a|)
  {
    assert s[i..i + |a|] == (a + b)[..|a|] == a;
    assert s[i + |a|..i + |a| + |b|] == (a + b)[|a|..] == b;
  }

  /** What decoding an encoded node gives. */
  ghost function Expected(
    hash: PairHash, leaves: seq<Digest>, mask: seq<bool>, height: nat, pos: nat, b: nat, k: nat): Node
    requires |mask| == |leaves| && InTree(|leaves|, height, pos)
  {
    var e := Encode(hash, leaves, mask, height, pos);
    var at := Below(mask, height, pos);
    Node(CalcHash(hash, leaves, height, pos), b + |e.bits|, k + |e.hashes|, LeavesAt(leaves, at), at)
  }

  lemma JoinLeavesAt(leaves: seq<Digest>, a: seq<nat>, b: seq<nat>)
    ensures LeavesAt(leaves, a + b) == LeavesAt(leaves, a) + LeavesAt(leaves, b)
  {
  }

  /** The matched positions below a node are those below its children. */
  lemma MatchedBelow(mask: seq<bool>, height: nat, pos: nat)
    requires height >= 1 && InTree(|mask|, height, pos)
    ensures InTree(|mask|, height - 1, 2 * pos)
    ensures HasRight(|mask|, height, pos) ==> InTree(|mask|, height - 1, 2 * pos + 1)
    ensures Below(mask, height, pos) ==
      Below(mask, height - 1, 2 * pos)
      + (if HasRight(|mask|, height, pos) then Below(mask, height - 1, 2 * pos + 1) else [])
  {
    Children(|mask|, height, pos);
    if HasRight(|mask|, height, pos) {
      MatchedSplit(mask, Start(height, pos), End(|mask|, height - 1, 2 * pos), End(|mask|, height, pos));
    }
  }

  lemma LeafBelow(mask: seq<bool>, pos: nat)
    requires pos < |mask|
    ensures InTree(|mask|, 0, pos) && Below(mask, 0, pos) == (if mask[pos] then [pos] else [])
    ensures AnyMatch(mask, 0, pos) <==> mask[pos]
  {
    assert Start(0, pos) == pos && End(|mask|, 0, pos) == pos + 1;
    assert Matched(mask, pos, pos) == [];
  }

  /** A node has a match below it exactly when some position below it is matched. */
  lemma AnyIsBelow(mask: seq<bool>, height: nat, pos: nat)
    requires InTree(|mask|, height, pos)
    ensures AnyMatch(mask, height, pos) <==> Below(mask, height, pos) != []
  {
    StartBeforeEnd(|mask|, height, pos);
    var lo, hi := Start(height, pos), End(|mask|, height, pos);
    if AnyMatch(mask, height, pos) {
      var p :| lo <= p < hi && mask[p];
      MatchedSome(mask, lo, hi, p);
    } else {
      MatchedNone(mask, lo, hi);
    }
  }

  /** A node that is not descended into. */
  lemma StopDecoded(
    hash: PairHash, leaves: seq<Digest>, mask: seq<bool>, tree: Encoding, height: nat, pos: nat, b: nat, k: nat)
    requires |mask| == |leaves| && InTree(|leaves|, height, pos)
    requires height == 0 || !AnyMatch(mask, height, pos)
    requires StandsAt([AnyMatch(mask, height, pos)], tree.bits, b)
    requires StandsAt([CalcHash(hash, leaves, height, pos)], tree.hashes, k)
    ensures Decode(hash, |leaves|, tree, height, pos, b, k) == Some(Expected(hash, leaves, mask, height, pos, b, k))
  {
    assert tree.bits[b..b + 1][0] == tree.bits[b] && tree.hashes[k..k + 1][0] == tree.hashes[k];
    AnyIsBelow(mask, height, pos);
    if height == 0 {
      assert Start(0, pos) == pos;
      LeafBelow(mask, pos);
    }
    var at := Below(mask, height, pos);
    var node := Expected(hash, leaves, mask, height, pos, b, k);
    assert node.matches == if at == [] then [] else [tree.hashes[k]];
  }

  lemma StopEncoded(hash: PairHash, leaves: seq<Digest>, mask: seq<bool>, height: nat, pos: nat)
    requires |mask| == |leaves| && InTree(|leaves|, height, pos) && (height == 0 || !AnyMatch(mask, height, pos))
    ensures Encode(hash, leaves, mask, height, pos) ==
      Encoding([AnyMatch(mask, height, pos)], [CalcHash(hash, leaves, height, pos)])
  {
  }

  /** A node that is descended into, given what its children decode to. */
  lemma DescendExpected(hash: PairHash, leaves: seq<Digest>, mask: seq<bool>, height: nat, pos: nat, b: nat, k: nat)
    requires |mask| == |leaves| && InTree(|leaves|, height, pos) && height >= 1 && AnyMatch(mask, height, pos)
    ensures InTree(|leaves|, height - 1, 2 * pos)
    ensures HasRight(|leaves|, height, pos) ==> InTree(|leaves|, height - 1, 2 * pos + 1)
    ensures var l := Expected(hash, leaves, mask, height - 1, 2 * pos, b + 1, k);
      var node := Expected(hash, leaves, mask, height, pos, b, k);
      if !HasRight(|leaves|, height, pos) then node == l.(digest := hash(l.digest, l.digest))
      else
        var r := Expected(hash, leaves, mask, height - 1, 2 * pos + 1, l.bitsUsed, l.hashUsed);
        node == Node(hash(l.digest, r.digest), r.bitsUsed, r.hashUsed, l.matches + r.matches, l.at + r.at)
  {
    hide Start, End, Width, HasRight, LeavesAt, AnyMatch;
    MatchedBelow(mask, height, pos);
    hide Below;
    var l := Expected(hash, leaves, mask, height - 1, 2 * pos, b + 1, k);
    if HasRight(|leaves|, height, pos) {
      var r := Expected(hash, leaves, mask, height - 1, 2 * pos + 1, l.bitsUsed, l.hashUsed);
      JoinLeavesAt(leaves, l.at, r.at);
    } else {
      assert l.at + [] == l.at;
    }
  }

  /** What an encoding looks like at a node that is descended into. */
  lemma DescendEncoded(hash: PairHash, leaves: seq<Digest>, mask: seq<bool>, height: nat, pos: nat)
    requires |mask| == |leaves| && InTree(|leaves|, height, pos) && height >= 1 && AnyMatch(mask, height, pos)
    ensures InTree(|leaves|, height - 1, 2 * pos)
    ensures HasRight(|leaves|, height, pos) ==> InTree(|leaves|, height - 1, 2 * pos + 1)
    ensures var l, e := Encode(hash, leaves, mask, height - 1, 2 * pos), Encode(hash, leaves, mask, height, pos);
      var r := if HasRight(|leaves|, height, pos)
        then Encode(hash, leaves, mask, height - 1, 2 * pos + 1)
        else Encoding([], []);
      e == Encoding([true] + (l.bits + r.bits), [] + (l.hashes + r.hashes))
  {
    hide Start, End, Width, HasRight, AnyMatch, CalcHash;
    Children(|leaves|, height, pos);
    var l := Encode(hash, leaves, mask, height - 1, 2 * pos);
    assert l.bits + [] == l.bits && l.hashes + [] == l.hashes;
  }

  /**
   * Decoding an encoding, wherever it stands, gives the genuine hash and exactly the matched
   * leaves, and uses exactly its bits and hashes.
   */
  lemma {:induction false} DecodeEncoded(
    hash: PairHash, leaves: seq<Digest>, mask: seq<bool>, tree: Encoding, height: nat, pos: nat, b: nat, k: nat)
    requires Injective(hash) && Distinct(leaves) && |mask| == |leaves| && InTree(|leaves|, height, pos)
    requires var e := Encode(hash, leaves, mask, height, pos);
      StandsAt(e.bits, tree.bits, b) && StandsAt(e.hashes, tree.hashes, k)
    ensures Decode(hash, |leaves|, tree, height, pos, b, k) == Some(Expected(hash, leaves, mask, height, pos, b, k))
  {
    hide Start, End, Width, HasRight, Expected, CalcHash, StandsAt, AnyMatch, Decode, Encode, InTree, Injective;
    hide Distinct;
    if height == 0 || !AnyMatch(mask, height, pos) {
      StopEncoded(hash, leaves, mask, height, pos);
      StopDecoded(hash, leaves, mask, tree, height, pos, b, k);
    } else {
      DescendEncoded(hash, leaves, mask, height, pos);
      DescendExpected(hash, leaves, mask, height, pos, b, k);
      var l := Encode(hash, leaves, mask, height - 1, 2 * pos);
      var r := if HasRight(|leaves|, height, pos)
        then Encode(hash, leaves, mask, height - 1, 2 * pos + 1)
        else Encoding([], []);
      EncodingStands(l, r, tree, b, k);
      DecodeEncoded(hash, leaves, mask, tree, height - 1, 2 * pos, b + 1, k);
      ExpectedIs(hash, leaves, mask, height - 1, 2 * pos, b + 1, k);
      DescendDecoded(hash, |leaves|, tree, height, pos, b, k);
      if HasRight(|leaves|, height, pos) {
        SiblingsDiffer(hash, leaves, height, pos);
        DecodeEncoded(hash, leaves, mask, tree, height - 1, 2 * pos + 1, b + 1 + |l.bits|, k + |l.hashes|);
        ExpectedIs(hash, leaves, mask, height - 1, 2 * pos + 1, b + 1 + |l.bits|, k + |l.hashes|);
      }
    }
  }

  lemma ExpectedIs(hash: PairHash, leaves: seq<Digest>, mask: seq<bool>, height: nat, pos: nat, b: nat, k: nat)
    requires |mask| == |leaves| && InTree(|leaves|, height, pos)
    ensures var node, e := Expected(hash, leaves, mask, height, pos, b, k), Encode(hash, leaves, mask, height, pos);
      node.digest == CalcHash(hash, leaves, height, pos) && node.bitsUsed == b + |e.bits|
        && node.hashUsed == k + |e.hashes|
  {
  }

  /** Where the parts of a descended node stand. */
  lemma EncodingStands(l: Encoding, r: Encoding, tree: Encoding, b: nat, k: nat)
    requires StandsAt([true] + (l.bits + r.bits), tree.bits, b) && StandsAt([] + (l.hashes + r.hashes), tree.hashes, k)
    ensures b < |tree.bits| && tree.bits[b]
    ensures StandsAt(l.bits, tree.bits, b + 1) && StandsAt(l.hashes, tree.hashes, k)
    ensures StandsAt(r.bits, tree.bits, b + 1 + |l.bits|) && StandsAt(r.hashes, tree.hashes, k + |l.hashes|)
  {
    StandsSplit([true], l.bits + r.bits, tree.bits, b);
    assert tree.bits[b..b + 1][0] == tree.bits[b];
    StandsSplit(l.bits, r.bits, tree.bits, b + 1);
    assert [] + (l.hashes + r.hashes) == l.hashes + r.hashes;
    StandsSplit(l.hashes, r.hashes, tree.hashes, k);
  }
}
