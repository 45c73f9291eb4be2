/**
 * Exactly which partial Merkle trees are accepted. A tree may descend further than its matches ask
 * for, so that the accepted trees are not only the built ones: they are those that write down a
 * descent with the genuine hashes, padded to whole bytes.
 */
module MerkleProofs {
  import opened Outcomes
  import opened Powers
  import opened MerkleTree
  import opened MerkleSizes
  import opened PartialMerkle

  /** How far a proof goes down: it stops at a node, which at a leaf says whether it is matched, or goes on. */
  datatype Descent = Stop(matched: bool) | Into(left: Descent, right: Descent)

  ghost predicate Fits(d: Descent, n: nat, height: nat, pos: nat) {
    match d
    case Stop(matched) => matched ==> height == 0
    case Into(left, right) =>
      && height > 0 && Fits(left, n, height - 1, 2 * pos)
      && (HasRight(n, height, pos) ==> Fits(right, n, height - 1, 2 * pos + 1))
  }

  /** No two children of a node gone into have the same hash. */
  ghost predicate Apart(hash: PairHash, leaves: seq<Digest>, d: Descent, height: nat, pos: nat)
    requires InTree(|leaves|, height, pos)
  {
    d.Stop? || height == 0 ||
    (Children(|leaves|, height, pos);
     && Apart(hash, leaves, d.left, height - 1, 2 * pos)
     && (HasRight(|leaves|, height, pos) ==>
          && CalcHash(hash, leaves, height - 1, 2 * pos) != CalcHash(hash, leaves, height - 1, 2 * pos + 1)
          && Apart(hash, leaves, d.right, height - 1, 2 * pos + 1)))
  }

  /** The descent written down: a flag for every node, parents first, and the hashes of the nodes stopped at. */
  ghost function Written(hash: PairHash, leaves: seq<Digest>, d: Descent, height: nat, pos: nat): Encoding
    requires InTree(|leaves|, height, pos)
  {
    if d.Stop? || height == 0 then Encoding([d.Stop? && d.matched], [CalcHash(hash, leaves, height, pos)])
    else
      Children(|leaves|, height, pos);
      var l := Written(hash, leaves, d.left, height - 1, 2 * pos);
      var r := if HasRight(|leaves|, height, pos)
        then Written(hash, leaves, d.right, height - 1, 2 * pos + 1)
        else Encoding([], []);
      Encoding([true] + (l.bits + r.bits), [] + (l.hashes + r.hashes))
  }

  /** The leaves that it matches. */
  ghost function Picked(d: Descent, n: nat, height: nat, pos: nat): seq<nat> {
    if d.Stop? || height == 0 then if d.Stop? && d.matched then [pos] else []
    else
      var right := if HasRight(n, height, pos) then Picked(d.right, n, height - 1, 2 * pos + 1) else [];
      Picked(d.left, n, height - 1, 2 * pos) + right
  }

  // ---------- Written descents are accepted ----------

  lemma {:induction false} WrittenSizes(hash: PairHash, leaves: seq<Digest>, d: Descent, height: nat, pos: nat)
    requires InTree(|leaves|, height, pos)
    ensures var e := Written(hash, leaves, d, height, pos);
      |e.hashes| <= End(|leaves|, height, pos) - Start(height, pos) && |e.bits| >= |e.hashes|
  {
    StartBeforeEnd(|leaves|, height, pos);
    hide Start, End, Width, HasRight, CalcHash, InTree;
    if d.Into? && height > 0 {
      Children(|leaves|, height, pos);
      WrittenSizes(hash, leaves, d.left, height - 1, 2 * pos);
      if HasRight(|leaves|, height, pos) {
        WrittenSizes(hash, leaves, d.right, height - 1, 2 * pos + 1);
      }
    }
  }

  /** What decoding a written descent gives. */
  ghost function Seen(hash: PairHash, leaves: seq<Digest>, d: Descent, height: nat, pos: nat, b: nat, k: nat): Node
    requires InTree(|leaves|, height, pos)
  {
    var e, at := Written(hash, leaves, d, height, pos), Picked(d, |leaves|, height, pos);
    Node(CalcHash(hash, leaves, height, pos), b + |e.bits|, k + |e.hashes|, LeavesAt(leaves, at), at)
  }

  lemma {:induction false} StopSeen(
    hash: PairHash, leaves: seq<Digest>, d: Descent, tree: Encoding, height: nat, pos: nat, b: nat, k: nat)
    requires InTree(|leaves|, height, pos) && d.Stop? && Fits(d, |leaves|, height, pos)
    requires StandsAt([d.matched], tree.bits, b) && StandsAt([CalcHash(hash, leaves, height, pos)], tree.hashes, k)
    ensures Decode(hash, |leaves|, tree, height, pos, b, k) == Some(Seen(hash, leaves, d, height, pos, b, k))
  {
    assert tree.bits[b..b + 1][0] == tree.bits[b] && tree.hashes[k..k + 1][0] == tree.hashes[k];
    if d.matched {
      assert Start(0, pos) == pos;
      assert LeavesAt(leaves, [pos]) == [leaves[pos]];
    } else {
      assert LeavesAt(leaves, []) == [];
    }
  }

  lemma {:induction false} WrittenDecoded(
    hash: PairHash, leaves: seq<Digest>, d: Descent, tree: Encoding, height: nat, pos: nat, b: nat, k: nat)
    requires InTree(|leaves|, height, pos) && Fits(d, |leaves|, height, pos) && Apart(hash, leaves, d, height, pos)
    requires var e := Written(hash, leaves, d, height, pos);
      StandsAt(e.bits, tree.bits, b) && StandsAt(e.hashes, tree.hashes, k)
    ensures Decode(hash, |leaves|, tree, height, pos, b, k) == Some(Seen(hash, leaves, d, height, pos, b, k))
  {
    hide Start, End, Width, HasRight, StandsAt, Decode, InTree, LeavesAt;
    if d.Stop? {
      StopSeen(hash, leaves, d, tree, height, pos, b, k);
    } else {
      Children(|leaves|, height, pos);
      var n := |leaves|;
      var l := Written(hash, leaves, d.left, height - 1, 2 * pos);
      var r := if HasRight(n, height, pos)
        then Written(hash, leaves, d.right, height - 1, 2 * pos + 1)
        else Encoding([], []);
      EncodingStands(l, r, tree, b, k);
      WrittenDecoded(hash, leaves, d.left, tree, height - 1, 2 * pos, b + 1, k);
      DescendDecoded(hash, n, tree, height, pos, b, k);
      var at := Picked(d.left, n, height - 1, 2 * pos);
      if HasRight(n, height, pos) {
        WrittenDecoded(hash, leaves, d.right, tree, height - 1, 2 * pos + 1, b + 1 + |l.bits|, k + |l.hashes|);
        JoinLeavesAt(leaves, at, Picked(d.right, n, height - 1, 2 * pos + 1));
      } else {
        assert at + [] == at;
      }
    }
  }

  // ---------- What is accepted is a written descent ----------

  /** The descent that the flags describe. */
  ghost function Followed(hash: PairHash, n: nat, tree: Encoding, height: nat, pos: nat, b: nat, k: nat): Descent
    requires InTree(n, height, pos) && Decode(hash, n, tree, height, pos, b, k).Some?
  {
    DecodeReadsBit(hash, n, tree, height, pos, b, k);
    if height == 0 || !tree.bits[b] then Stop(tree.bits[b])
    else
      DescendDecoded(hash, n, tree, height, pos, b, k);
      var l := Decode(hash, n, tree, height - 1, 2 * pos, b + 1, k).value;
      Into(Followed(hash, n, tree, height - 1, 2 * pos, b + 1, k),
           if HasRight(n, height, pos) then Followed(hash, n, tree, height - 1, 2 * pos + 1, l.bitsUsed, l.hashUsed)
           else Stop(false))
  }

  lemma {:induction false} StopFollowed(
    hash: PairHash, leaves: seq<Digest>, tree: Encoding, height: nat, pos: nat, b: nat, k: nat)
    requires InTree(|leaves|, height, pos) && b < |tree.bits| && (height == 0 || !tree.bits[b])
    requires var node := Decode(hash, |leaves|, tree, height, pos, b, k);
      node.Some? && node.value.digest == CalcHash(hash, leaves, height, pos)
    ensures var node := Decode(hash, |leaves|, tree, height, pos, b, k).value;
      var e := Written(hash, leaves, Stop(tree.bits[b]), height, pos);
      && node.bitsUsed == b + 1 && node.hashUsed == k + 1 && StandsAt(e.bits, tree.bits, b)
      && StandsAt(e.hashes, tree.hashes, k)
      && |e.bits| == |e.hashes| == 1
  {
    assert k < |tree.hashes| && tree.hashes[k] == CalcHash(hash, leaves, height, pos);
    hide Decode, CalcHash, StandsAt;
    OneStands(tree.bits, b);
    OneStands(tree.hashes, k);
  }

  lemma {:induction false} StandsJoin<T(!new)>(a: seq<T>, b: seq<T>, s: seq<T>, i: nat)
    requires StandsAt(a, s, i) && StandsAt(b, s, i + |a|)
    ensures StandsAt(a + b, s, i)
  {
    assert s[i..i + |a| + |b|] == s[i..i + |a|] + s[i + |a|..i + |a| + |b|];
  }

  /** Flags and hashes that decode to the genuine hash are a descent written down. */
  lemma {:induction false} FollowedWritten(
    hash: PairHash, leaves: seq<Digest>, tree: Encoding, height: nat, pos: nat, b: nat, k: nat)
    requires Injective(hash) && InTree(|leaves|, height, pos)
    requires var node := Decode(hash, |leaves|, tree, height, pos, b, k);
      node.Some? && node.value.digest == CalcHash(hash, leaves, height, pos)
    ensures var d := Followed(hash, |leaves|, tree, height, pos, b, k); var e := Written(hash, leaves, d, height, pos);
      var node := Decode(hash, |leaves|, tree, height, pos, b, k).value;
      && Fits(d, |leaves|, height, pos) && Apart(hash, leaves, d, height, pos)
      && StandsAt(e.bits, tree.bits, b) && StandsAt(e.hashes, tree.hashes, k)
      && node.bitsUsed == b + |e.bits| && node.hashUsed == k + |e.hashes|
  {
    hide Start, End, Width, HasRight, Decode, Injective, InTree, StandsAt;
    var n := |leaves|;
    DecodeReadsBit(hash, n, tree, height, pos, b, k);
    if height == 0 || !tree.bits[b] {
      StopFollowed(hash, leaves, tree, height, pos, b, k);
    } else {
      Children(n, height, pos);
      DescendDecoded(hash, n, tree, height, pos, b, k);
      OneStands(tree.bits, b);
      var l := Decode(hash, n, tree, height - 1, 2 * pos, b + 1, k).value;
      var gl := CalcHash(hash, leaves, height - 1, 2 * pos);
      if HasRight(n, height, pos) {
        var r := Decode(hash, n, tree, height - 1, 2 * pos + 1, l.bitsUsed, l.hashUsed).value;
        NoCollision(hash, l.digest, r.digest, gl, CalcHash(hash, leaves, height - 1, 2 * pos + 1));
        FollowedWritten(hash, leaves, tree, height - 1, 2 * pos, b + 1, k);
        FollowedWritten(hash, leaves, tree, height - 1, 2 * pos + 1, l.bitsUsed, l.hashUsed);
        var el := Written(hash, leaves, Followed(hash, n, tree, height - 1, 2 * pos, b + 1, k), height - 1, 2 * pos);
        var er := Written(hash, leaves, Followed(hash, n, tree, height - 1, 2 * pos + 1, l.bitsUsed, l.hashUsed),
                          height - 1, 2 * pos + 1);
        Stacked(el, er, tree, b, k);
      } else {
        NoCollision(hash, l.digest, l.digest, gl, gl);
        FollowedWritten(hash, leaves, tree, height - 1, 2 * pos, b + 1, k);
        var el := Written(hash, leaves, Followed(hash, n, tree, height - 1, 2 * pos, b + 1, k), height - 1, 2 * pos);
        NothingStands(tree, b + 1 + |el.bits|, k + |el.hashes|, el, b, k);
        Stacked(el, Encoding([], []), tree, b, k);
      }
    }
  }

  lemma {:induction false} OneStands<T(!new)>(s: seq<T>, i: nat)
    requires i < |s|
    ensures StandsAt([s[i]], s, i)
  {
    assert s[i..i + 1] == [s[i]];
  }

  lemma {:induction false} NothingStands(tree: Encoding, i: nat, j: nat, el: Encoding, b: nat, k: nat)
    requires StandsAt(el.bits, tree.bits, b + 1) && StandsAt(el.hashes, tree.hashes, k)
    requires i == b + 1 + |el.bits| && j == k + |el.hashes|
    ensures StandsAt([], tree.bits, i) && StandsAt([], tree.hashes, j)
  {
  }

  lemma {:induction false} Stacked(l: Encoding, r: Encoding, tree: Encoding, b: nat, k: nat)
    requires StandsAt([true], tree.bits, b)
    requires StandsAt(l.bits, tree.bits, b + 1) && StandsAt(l.hashes, tree.hashes, k)
    requires StandsAt(r.bits, tree.bits, b + 1 + |l.bits|) && StandsAt(r.hashes, tree.hashes, k + |l.hashes|)
    ensures StandsAt([true] + (l.bits + r.bits), tree.bits, b) && StandsAt([] + (l.hashes + r.hashes), tree.hashes, k)
  {
    StandsJoin(l.bits, r.bits, tree.bits, b + 1);
    StandsJoin([true], l.bits + r.bits, tree.bits, b);
    StandsJoin(l.hashes, r.hashes, tree.hashes, k);
    assert [] + (l.hashes + r.hashes) == l.hashes + r.hashes;
  }

  // ---------- Exactly which trees are accepted ----------

  /** The tree is this descent of the block's tree, written down and padded to whole bytes. */
  ghost predicate Proves(hash: PairHash, leaves: seq<Digest>, d: Descent, tree: Encoding)
    requires leaves != []
  {
    RootInTree(|leaves|);
    var h := HeightFrom(|leaves|, 0);
    var e := Written(hash, leaves, d, h, 0);
    Fits(d, |leaves|, h, 0) && Apart(hash, leaves, d, h, 0) && tree.hashes == e.hashes && IsPadded(e.bits, tree.bits)
  }

  lemma {:induction false} ProvenAccepted(hash: PairHash, leaves: seq<Digest>, d: Descent, tree: Encoding)
    requires leaves != [] && 60 * |leaves| <= 4000000 && Proves(hash, leaves, d, tree)
    ensures Extracted(hash, |leaves|, tree) ==
      (Root(hash, leaves), LeavesAt(leaves, Picked(d, |leaves|, HeightFrom(|leaves|, 0), 0)))
  {
    hide Width, HasRight, Decode, CalcHash, HeightFrom, Fits, Apart, Written, Picked;
    var n, h := |leaves|, HeightFrom(|leaves|, 0);
    RootInTree(n);
    var e := Written(hash, leaves, d, h, 0);
    WrittenSizes(hash, leaves, d, h, 0);
    assert StandsAt(e.hashes, tree.hashes, 0) && StandsAt(e.bits, tree.bits, 0);
    WrittenDecoded(hash, leaves, d, tree, h, 0, 0, 0);
  }

  lemma {:induction false} AcceptedProven(hash: PairHash, leaves: seq<Digest>, tree: Encoding)
    requires Injective(hash) && leaves != [] && Root(hash, leaves) != NULL_DIGEST
    requires Extracted(hash, |leaves|, tree).0 == Root(hash, leaves)
    ensures 60 * |leaves| <= 4000000 && exists d :: Proves(hash, leaves, d, tree)
  {
    hide Width, HasRight, Decode, CalcHash, HeightFrom, Injective, Fits, Apart, Written, Followed;
    var n, h := |leaves|, HeightFrom(|leaves|, 0);
    RootInTree(n);
    FollowedWritten(hash, leaves, tree, h, 0, 0, 0);
    var d := Followed(hash, n, tree, h, 0, 0, 0);
    var e := Written(hash, leaves, d, h, 0);
    WholeHashes(e, tree);
    assert Proves(hash, leaves, d, tree);
  }

  lemma {:induction false} WholeHashes(e: Encoding, tree: Encoding)
    requires StandsAt(e.bits, tree.bits, 0) && StandsAt(e.hashes, tree.hashes, 0)
    requires |e.hashes| == |tree.hashes| && (|e.bits| + 7) / 8 == (|tree.bits| + 7) / 8
    ensures tree.hashes == e.hashes && IsPadded(e.bits, tree.bits)
  {
    assert tree.hashes[0..|tree.hashes|] == tree.hashes;
    assert tree.bits[..|e.bits|] == tree.bits[0..|e.bits|];
  }

  /**
   * A tree extracts to the block's root if and only if the block is not too large and the tree is a
   * descent of the block's tree written down; the matches are then exactly the leaves it picks.
   */
  lemma {:induction false} ExtractExact(hash: PairHash, leaves: seq<Digest>, tree: Encoding)
    requires Injective(hash) && leaves != [] && Root(hash, leaves) != NULL_DIGEST
    ensures Extracted(hash, |leaves|, tree).0 == Root(hash, leaves) <==>
      60 * |leaves| <= 4000000 && exists d :: Proves(hash, leaves, d, tree)
    ensures forall d :: 60 * |leaves| <= 4000000 && Proves(hash, leaves, d, tree) ==>
      Extracted(hash, |leaves|, tree).1 == LeavesAt(leaves, Picked(d, |leaves|, HeightFrom(|leaves|, 0), 0))
  {
    hide Extracted, Proves, Root, HeightFrom, Injective, Picked, LeavesAt;
    if Extracted(hash, |leaves|, tree).0 == Root(hash, leaves) {
      AcceptedProven(hash, leaves, tree);
    }
    forall d | 60 * |leaves| <= 4000000 && Proves(hash, leaves, d, tree)
      ensures Extracted(hash, |leaves|, tree) ==
        (Root(hash, leaves), LeavesAt(leaves, Picked(d, |leaves|, HeightFrom(|leaves|, 0), 0)))
    {
      ProvenAccepted(hash, leaves, d, tree);
    }
  }
}
