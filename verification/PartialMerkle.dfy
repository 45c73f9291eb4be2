/** CPartialMerkleTree (src/merkleblock.h, src/merkleblock.cpp): building, extracting, and packing flag bits. */
module PartialMerkle {
  import opened Outcomes
  import opened Powers
  import opened MerkleTree
  import opened MerkleSizes

  /** MAX_BLOCK_SIZE / 60: the most transactions the decoder accepts. */
  const MAX_LEAVES := 4000000 / 60

  /** The least height at which one node is left, searched from `h` on. */
  function HeightFrom(n: nat, h: nat): (r: nat)
    ensures h <= r && Width(n, r) <= 1
    ensures forall j :: h <= j < r ==> Width(n, j) > 1
    decreases n - h
  {
    if Width(n, h) <= 1 then h
    else
      WidthCovers(n, h, 1);
      Pow2Exceeds(h);
      HeightFrom(n, h + 1)
  }

  method TreeHeight(n: nat) returns (h: nat)
    ensures h == HeightFrom(n, 0)
  {
    h := 0;
    while Width(n, h) > 1
      invariant HeightFrom(n, h) == HeightFrom(n, 0)
      decreases n - h
    {
      WidthCovers(n, h, 1);
      Pow2Exceeds(h);
      h := h + 1;
    }
  }

  lemma RootInTree(n: nat)
    requires n >= 1
    ensures InTree(n, HeightFrom(n, 0), 0) && IsLast(n, HeightFrom(n, 0), 0) && Start(HeightFrom(n, 0), 0) == 0
  {
    WidthCovers(n, HeightFrom(n, 0), 1);
  }

  function Root(hash: PairHash, leaves: seq<Digest>): Digest
    requires leaves != []
  {
    RootInTree(|leaves|);
    CalcHash(hash, leaves, HeightFrom(|leaves|, 0), 0)
  }

  function Encoded(hash: PairHash, leaves: seq<Digest>, mask: seq<bool>): Encoding
    requires leaves != [] && |mask| == |leaves|
  {
    RootInTree(|leaves|);
    Encode(hash, leaves, mask, HeightFrom(|leaves|, 0), 0)
  }

  /** ExtractMatches: the root, or null if anything is wrong, and the matches of a good traversal. */
  function Extracted(hash: PairHash, n: nat, tree: Encoding): (Digest, seq<Digest>) {
    if n == 0 || n > MAX_LEAVES || |tree.hashes| > n || |tree.bits| < |tree.hashes| then (NULL_DIGEST, [])
    else
      RootInTree(n);
      var d := Decode(hash, n, tree, HeightFrom(n, 0), 0, 0, 0);
      if d.None? || (d.value.bitsUsed + 7) / 8 != (|tree.bits| + 7) / 8 || d.value.hashUsed != |tree.hashes|
        then (NULL_DIGEST, [])
      else (d.value.digest, d.value.matches)
  }

  /**
   * Soundness: for any bits and hashes, if extraction returns the genuine non-null root of a
   * block with the same number of leaves, the extracted hashes are leaves of that block, in
   * leaf order.
   */
  lemma ExtractSound(hash: PairHash, leaves: seq<Digest>, tree: Encoding)
    requires Injective(hash) && leaves != [] && Root(hash, leaves) != NULL_DIGEST
    requires Extracted(hash, |leaves|, tree).0 == Root(hash, leaves)
    ensures exists at ::
      Increasing(at) && Within(at, 0, |leaves|) && Extracted(hash, |leaves|, tree).1 == LeavesAt(leaves, at)
  {
    var n := |leaves|;
    RootInTree(n);
    DecodeSound(hash, leaves, tree, HeightFrom(n, 0), 0, 0, 0);
    var node := Decode(hash, n, tree, HeightFrom(n, 0), 0, 0, 0).value;
    assert Genuine(leaves, node, 0, n);
    assert Extracted(hash, n, tree).1 == LeavesAt(leaves, node.at);
  }

  /** Flag bits as they come back from packing them into bytes. */
  ghost predicate IsPadded(bits: seq<bool>, padded: seq<bool>) {
    && |bits| <= |padded| < |bits| + 8 && padded[..|bits|] == bits
    && (|padded| + 7) / 8 == (|bits| + 7) / 8
  }

  /**
   * Round trip: for distinct leaves and any mask, extraction from the built tree, with or
   * without the padding of its flag bits, returns the root of the full tree and exactly the
   * matched leaves in order.
   */
  lemma ExtractBuilt(hash: PairHash, leaves: seq<Digest>, mask: seq<bool>, padded: seq<bool>)
    requires Injective(hash) && Distinct(leaves) && leaves != [] && 60 * |leaves| <= 4000000 && |mask| == |leaves|
    requires IsPadded(Encoded(hash, leaves, mask).bits, padded)
    ensures Extracted(hash, |leaves|, Encoded(hash, leaves, mask).(bits := padded)) ==
            (Root(hash, leaves), LeavesAt(leaves, Matched(mask, 0, |mask|)))
    ensures var at := Matched(mask, 0, |mask|);
      Increasing(at) && Within(at, 0, |mask|) && forall p :: 0 <= p < |mask| ==> (p in at <==> mask[p])
  {
    MatchedExactly(mask, 0, |mask|);
    hide Width, HasRight, Decode, Encode, CalcHash, Injective, Distinct, HeightFrom, Matched;
    var n := |leaves|;
    var h := HeightFrom(n, 0);
    RootInTree(n);
    var e := Encoded(hash, leaves, mask);
    var tree := e.(bits := padded);
    BitsExact(hash, leaves, mask, h, 0);
    HashesAtMostLeaves(hash, leaves, mask, h, 0);
    assert StandsAt(e.hashes, tree.hashes, 0) && StandsAt(e.bits, tree.bits, 0);
    DecodeEncoded(hash, leaves, mask, tree, h, 0, 0, 0);
  }

  /** The size bounds promised for N hashes, with the exact number of flag bits. */
  lemma SizeBounds(hash: PairHash, leaves: seq<Digest>, mask: seq<bool>)
    requires leaves != [] && |mask| == |leaves|
    ensures var e, h := Encoded(hash, leaves, mask), HeightFrom(|leaves|, 0);
      && 1 <= |e.hashes| <= |leaves|
      && |e.hashes| <= 1 + |Matched(mask, 0, |mask|)| * h
      && 2 * |e.hashes| - 1 <= |e.bits| <= 2 * |e.hashes| - 1 + h
      && (|e.bits| == 2 * |e.hashes| - 1 <==> NoLoneMatch(mask, h))
  {
    var n := |leaves|;
    var h := HeightFrom(n, 0);
    RootInTree(n);
    BitsExact(hash, leaves, mask, h, 0);
    HashesAtMostLeaves(hash, leaves, mask, h, 0);
    HashesAtMostMatches(hash, leaves, mask, h, 0);
    LoneAtMostHeight(mask, h, 0);
    LoneZero(mask, h, 0);
  }

  /** The bound of 2N - 1 flag bits fails for three leaves of which the last is matched. */
  lemma TwoNMinusOneFails(hash: PairHash, leaves: seq<Digest>, mask: seq<bool>)
    requires |leaves| == |mask| == 3 && mask[2]
    ensures var e := Encoded(hash, leaves, mask); |e.bits| > 2 * |e.hashes| - 1
  {
    hide Encoded, Encode, NoLoneMatch;
    ThreeLeaves(mask);
    assert !NoLoneMatch(mask, HeightFrom(3, 0)) by {
      LoneRefutes(mask, HeightFrom(3, 0), 1, 1);
    }
    SizeBounds(hash, leaves, mask);
  }

  lemma LoneRefutes(mask: seq<bool>, height: nat, j: nat, q: nat)
    requires 1 <= j <= height && LoneMatch(mask, j, q)
    ensures !NoLoneMatch(mask, height)
  {
  }

  lemma ThreeLeaves(mask: seq<bool>)
    requires |mask| == 3 && mask[2]
    ensures HeightFrom(3, 0) == 2 && LoneMatch(mask, 1, 1)
  {
    assert Pow2(1) == 2 && Pow2(2) == 4;
    assert Width(3, 0) == 3 && Width(3, 1) == 2 && Width(3, 2) == 1;
    assert Start(1, 1) == 2 && End(3, 1, 1) == 3;
  }

  // ---------- Flag bits as bytes ----------

  /** 1 << k. */
  function Mask(k: nat): bv8
    requires k < 8
  {
    if k == 0 then 1 else if k == 1 then 2 else if k == 2 then 4 else if k == 3 then 8
    else if k == 4 then 16 else if k == 5 then 32 else if k == 6 then 64 else 128
  }

  /** The bits of a byte, the least significant first. */
  lemma MaskMeans()
    ensures forall k :: 0 <= k < 8 ==> Mask(k) as int == Pow2(k)
  {
    assert Pow2(0) == 1 && Pow2(1) == 2 && Pow2(2) == 4 && Pow2(3) == 8;
    assert Pow2(4) == 16 && Pow2(5) == 32 && Pow2(6) == 64 && Pow2(7) == 128;
  }

  predicate BitOf(byte: bv8, k: nat)
    requires k < 8
  {
    byte & Mask(k) != 0
  }

  predicate BitAt(bytes: seq<bv8>, p: nat)
    requires p < 8 * |bytes|
  {
    BitOf(bytes[p / 8], p % 8)
  }

  lemma SetBit(byte: bv8, k: nat, j: nat)
    requires k < 8 && j < 8
    ensures BitOf(byte | Mask(k), j) <==> j == k || BitOf(byte, j)
  {
  }

  lemma BitsDetermine(a: bv8, b: bv8)
    requires forall k :: 0 <= k < 8 ==> (BitOf(a, k) <==> BitOf(b, k))
    ensures a == b
  {
    assert BitOf(a, 0) == BitOf(b, 0) && BitOf(a, 1) == BitOf(b, 1) && BitOf(a, 2) == BitOf(b, 2)
      && BitOf(a, 3) == BitOf(b, 3);
    assert BitOf(a, 4) == BitOf(b, 4) && BitOf(a, 5) == BitOf(b, 5) && BitOf(a, 6) == BitOf(b, 6)
      && BitOf(a, 7) == BitOf(b, 7);
  }

  /** The bytes hold the bits, least significant first, and nothing else. */
  ghost predicate Packs(bits: seq<bool>, bytes: seq<bv8>) {
    && |bytes| == (|bits| + 7) / 8
    && forall p :: 0 <= p < 8 * |bytes| ==> (BitAt(bytes, p) <==> p < |bits| && bits[p])
  }

  /** Writing the flag bits. */
  method Pack(bits: seq<bool>) returns (bytes: seq<bv8>)
    ensures Packs(bits, bytes)
  {
    bytes := seq((|bits| + 7) / 8, _ => 0);
    for p := 0 to |bits|
      invariant |bytes| == (|bits| + 7) / 8
      invariant forall q :: 0 <= q < 8 * |bytes| ==> (BitAt(bytes, q) <==> q < p && bits[q])
    {
      if bits[p] {
        ghost var before := bytes;
        bytes := bytes[p / 8 := bytes[p / 8] | Mask(p % 8)];
        forall q | 0 <= q < 8 * |bytes|
          ensures BitAt(bytes, q) <==> q <= p && bits[q]
        {
          SetBit(before[p / 8], p % 8, q % 8);
          assert q / 8 == p / 8 && q % 8 == p % 8 ==> q == p;
          assert BitAt(before, q) <==> q < p && bits[q];
        }
      }
    }
  }

  /** Reading the flag bits. */
  method Unpack(bytes: seq<bv8>) returns (bits: seq<bool>)
    ensures |bits| == 8 * |bytes| && forall p :: 0 <= p < |bits| ==> bits[p] == BitAt(bytes, p)
    ensures Packs(bits, bytes)
  {
    bits := [];
    for p := 0 to 8 * |bytes|
      invariant |bits| == p && forall q :: 0 <= q < p ==> bits[q] == BitAt(bytes, q)
    {
      bits := bits + [BitAt(bytes, p)];
    }
  }

  /** Reading what was written gives the bits back, padded with zeros to whole bytes. */
  lemma UnpackPacked(bits: seq<bool>, bytes: seq<bv8>, read: seq<bool>)
    requires Packs(bits, bytes) && |read| == 8 * |bytes| && forall p :: 0 <= p < |read| ==> read[p] == BitAt(bytes, p)
    ensures IsPadded(bits, read) && forall p :: |bits| <= p < |read| ==> !read[p]
  {
    assert read[..|bits|] == bits;
  }

  /** The bytes of given bits are unique, so writing what was read gives the bytes back. */
  lemma PackUnique(bits: seq<bool>, a: seq<bv8>, b: seq<bv8>)
    requires Packs(bits, a) && Packs(bits, b)
    ensures a == b
  {
    forall i | 0 <= i < |a|
      ensures a[i] == b[i]
    {
      forall k | 0 <= k < 8
        ensures BitOf(a[i], k) <==> BitOf(b[i], k)
      {
        var p := 8 * i + k;
        assert p / 8 == i && p % 8 == k;
        assert BitAt(a, p) <==> BitAt(b, p);
      }
      BitsDetermine(a[i], b[i]);
    }
  }

  // ---------- The class ----------

  /** Whether ExtractMatches gets through all its checks. */
  predicate Accepts(hash: PairHash, n: nat, tree: Encoding) {
    && 1 <= n <= MAX_LEAVES && |tree.hashes| <= n && |tree.hashes| <= |tree.bits|
    && (RootInTree(n);
        var d := Decode(hash, n, tree, HeightFrom(n, 0), 0, 0, 0);
        d.Some? && (d.value.bitsUsed + 7) / 8 == (|tree.bits| + 7) / 8 && d.value.hashUsed == |tree.hashes|)
  }

  /** The loop at the start of TraverseAndBuild. */
  method ParentOfMatch(height: nat, pos: nat, mask: seq<bool>) returns (any: bool)
    requires InTree(|mask|, height, pos)
    ensures any <==> AnyMatch(mask, height, pos)
  {
    StartBeforeEnd(|mask|, height, pos);
    any := false;
    for p := Start(height, pos) to End(|mask|, height, pos)
      invariant any <==> exists q :: Start(height, pos) <= q < p && mask[q]
    {
      any := any || mask[p];
    }
  }

  lemma JoinThree(t: Encoding, l: Encoding, r: Encoding)
    ensures Join(Join(Encoding(t.bits + [true], t.hashes), l), r) ==
            Join(t, Encoding([true] + (l.bits + r.bits), [] + (l.hashes + r.hashes)))
    ensures r == Encoding([], []) ==>
      Join(Join(Encoding(t.bits + [true], t.hashes), l), r) == Join(Encoding(t.bits + [true], t.hashes), l)
  {
    assert t.bits + [true] + l.bits + r.bits == t.bits + ([true] + (l.bits + r.bits));
    assert t.hashes + l.hashes + r.hashes == t.hashes + ([] + (l.hashes + r.hashes));
  }

  /** Decoding where it does not descend. */
  lemma DecodeStops(hash: PairHash, n: nat, tree: Encoding, height: nat, pos: nat, b: nat, k: nat)
    requires InTree(n, height, pos)
    ensures b >= |tree.bits| ==> Decode(hash, n, tree, height, pos, b, k) == None
    ensures b < |tree.bits| && (height == 0 || !tree.bits[b]) ==>
      Decode(hash, n, tree, height, pos, b, k) ==
        if k >= |tree.hashes| then None
        else if tree.bits[b] then Some(Node(tree.hashes[k], b + 1, k + 1, [tree.hashes[k]], [pos]))
        else Some(Node(tree.hashes[k], b + 1, k + 1, [], []))
  {
  }

  class PartialMerkleTree {
    const hash: PairHash
    var nTransactions: nat
    var vBits: seq<bool>
    var vHash: seq<Digest>
    var fBad: bool

    ghost function Tree(): Encoding
      reads this
    {
      Encoding(vBits, vHash)
    }

    constructor Build(hash: PairHash, leaves: seq<Digest>, mask: seq<bool>)
      requires leaves != [] && |mask| == |leaves|
      ensures this.hash == hash && nTransactions == |leaves| && !fBad && Tree() == Encoded(hash, leaves, mask)
    {
      this.hash, nTransactions, vBits, vHash, fBad := hash, |leaves|, [], [], false;
      new;
      var height := TreeHeight(nTransactions);
      RootInTree(nTransactions);
      TraverseAndBuild(height, 0, leaves, mask);
    }

    /** A tree read from a message. */
    constructor Read(hash: PairHash, n: nat, hashes: seq<Digest>, bytes: seq<bv8>)
      ensures this.hash == hash && nTransactions == n && !fBad && vHash == hashes && Packs(vBits, bytes)
      ensures |vBits| == 8 * |bytes|
      ensures forall p :: 0 <= p < |vBits| ==> vBits[p] == BitAt(bytes, p)
    {
      this.hash, nTransactions, vHash, fBad := hash, n, hashes, false;
      new;
      vBits := Unpack(bytes);
    }

    method TraverseAndBuild(height: nat, pos: nat, leaves: seq<Digest>, mask: seq<bool>)
      requires |leaves| == |mask| == nTransactions && InTree(nTransactions, height, pos)
      modifies this`vBits, this`vHash
      ensures Tree() == Join(old(Tree()), Encode(hash, leaves, mask, height, pos))
      decreases height
    {
      hide Start, End, Width, HasRight, InTree, CalcHash, AnyMatch, Encode;
      var parentOfMatch := ParentOfMatch(height, pos, mask);
      vBits := vBits + [parentOfMatch];
      if height == 0 || !parentOfMatch {
        StopEncoded(hash, leaves, mask, height, pos);
        vHash := vHash + [CalcHash(hash, leaves, height, pos)];
      } else {
        DescendEncoded(hash, leaves, mask, height, pos);
        ghost var l := Encode(hash, leaves, mask, height - 1, 2 * pos);
        TraverseAndBuild(height - 1, 2 * pos, leaves, mask);
        if HasRight(nTransactions, height, pos) {
          TraverseAndBuild(height - 1, 2 * pos + 1, leaves, mask);
          JoinThree(old(Tree()), l, Encode(hash, leaves, mask, height - 1, 2 * pos + 1));
        } else {
          JoinThree(old(Tree()), l, Encoding([], []));
        }
      }
    }

    /** Goes on after a failure, but never forgets it. */
    method TraverseAndExtract(height: nat, pos: nat, bitsUsed: nat, hashUsed: nat, matched: seq<Digest>)
      returns (digest: Digest, b: nat, k: nat, matches: seq<Digest>)
      requires InTree(nTransactions, height, pos)
      modifies this`fBad
      ensures match Decode(hash, nTransactions, Tree(), height, pos, bitsUsed, hashUsed)
        case None => fBad
        case Some(node) =>
          && fBad == old(fBad) && digest == node.digest && b == node.bitsUsed && k == node.hashUsed
          && matches == matched + node.matches
      ensures old(fBad) ==> fBad
      decreases height
    {
      hide Start, End, Width, HasRight, InTree, Decode;
      DecodeStops(hash, nTransactions, Tree(), height, pos, bitsUsed, hashUsed);
      digest, b, k, matches := NULL_DIGEST, bitsUsed, hashUsed, matched;
      if b >= |vBits| {
        fBad := true;
        return;
      }
      var parentOfMatch := vBits[b];
      b := b + 1;
      if height == 0 || !parentOfMatch {
        if k >= |vHash| {
          fBad := true;
          return;
        }
        digest := vHash[k];
        k := k + 1;
        if height == 0 && parentOfMatch {
          matches := matches + [digest];
        }
      } else {
        DescendDecoded(hash, nTransactions, Tree(), height, pos, bitsUsed, hashUsed);
        var left, right: Digest;
        left, b, k, matches := TraverseAndExtract(height - 1, 2 * pos, b, k, matches);
        if HasRight(nTransactions, height, pos) {
          right, b, k, matches := TraverseAndExtract(height - 1, 2 * pos + 1, b, k, matches);
          if right == left {
            fBad := true;
          }
        } else {
          right := left;
        }
        digest := hash(left, right);
      }
    }

    /** After a failed traversal the object stays bad: every later extraction returns null. */
    method ExtractMatches() returns (root: Digest, matches: seq<Digest>)
      modifies this`fBad
      ensures root == if old(fBad) then NULL_DIGEST else Extracted(hash, nTransactions, Tree()).0
      ensures !old(fBad) && Accepts(hash, nTransactions, Tree()) ==> matches == Extracted(hash, nTransactions, Tree()).1
    {
      matches := [];
      if nTransactions == 0 || nTransactions > MAX_LEAVES || |vHash| > nTransactions || |vBits| < |vHash| {
        return NULL_DIGEST, matches;
      }
      var height := TreeHeight(nTransactions);
      RootInTree(nTransactions);
      var digest, b, k;
      digest, b, k, matches := TraverseAndExtract(height, 0, 0, 0, matches);
      if fBad || (b + 7) / 8 != (|vBits| + 7) / 8 || k != |vHash| {
        return NULL_DIGEST, matches;
      }
      return digest, matches;
    }
  }
}
