/** The serialized size of a partial Merkle tree (src/merkleblock.h). */
module MerkleBytes {
  import opened Outcomes
  import opened Powers
  import opened MerkleTree
  import opened MerkleSizes
  import opened PartialMerkle

  /** The bytes of a vector length (GetSizeOfCompactSize in src/serialize.h). */
  function LengthBytes(n: nat): nat {
    if n < 253 then 1 else if n <= 0xffff then 3 else if n <= 0xffff_ffff then 5 else 9
  }

  /** The number of leaves, the hashes, and the flag bits packed into bytes. */
  function SizeOf(hashes: nat, bits: nat): nat {
    var packed := (bits + 7) / 8;
    4 + LengthBytes(hashes) + 32 * hashes + LengthBytes(packed) + packed
  }

  /** 10 + ceil(32.25 N). */
  function Promised(hashes: nat): nat {
    10 + (129 * hashes + 3) / 4
  }

  /** Flag bits that packing 2N - 1 of them leaves free, less one. */
  function Slack(hashes: nat): nat {
    2 * ((4 - hashes % 4) % 4)
  }

  /** When the promise holds, in terms of the hashes and of the nodes with a single child above a match. */
  predicate Kept(hashes: nat, lone: nat) {
    || hashes < 253
    || (hashes < 0x1_0000 &&
        (lone <= 1 + Slack(hashes) || (2 * hashes - 1 + lone <= 2016 && lone <= 17 + Slack(hashes))))
  }

  /** Rounded up to bytes, the flag bits exceed a quarter of the hashes by a quarter of what the slack does not hold. */
  lemma PackedBits(n: nat, lone: nat)
    requires n >= 1
    ensures 2 * n + Slack(n) == 8 * ((n + 3) / 4)
    ensures lone <= 1 + Slack(n) <==> (2 * n - 1 + lone + 7) / 8 <= (n + 3) / 4
    ensures lone <= 17 + Slack(n) <==> (2 * n - 1 + lone + 7) / 8 <= (n + 3) / 4 + 2
    ensures lone <= 33 + Slack(n) <==> (2 * n - 1 + lone + 7) / 8 <= (n + 3) / 4 + 4
    ensures (2 * n - 1 + lone + 7) / 8 >= (n + 3) / 4
  {
    var q, r := n / 4, n % 4;
    assert n == 4 * q + r;
    assert (n + 3) / 4 == if r == 0 then q else q + 1;
  }

  /** The arithmetic of the promise. */
  lemma KeptExact(n: nat, lone: nat)
    requires n >= 1 && lone <= 32
    ensures SizeOf(n, 2 * n - 1 + lone) <= Promised(n) <==> Kept(n, lone)
  {
    var packed := (2 * n - 1 + lone + 7) / 8;
    PackedBits(n, lone);
    assert packed < 253 <==> 2 * n - 1 + lone <= 2016;
    assert Promised(n) == 10 + 32 * n + (n + 3) / 4;
  }

  lemma HeightAtMost(n: nat, h: nat)
    requires n <= Pow2(h)
    ensures HeightFrom(n, 0) <= h
  {
    WidthCovers(n, h, 1);
  }

  lemma Height32(n: nat)
    requires n < 0x1_0000_0000
    ensures HeightFrom(n, 0) <= 32
  {
    assert Pow2(8) == 256;
    Pow2Add(8, 8);
    Pow2Add(16, 16);
    HeightAtMost(n, 32);
  }

  /** The promised size is kept exactly under that condition. */
  lemma BytesExact(hash: PairHash, leaves: seq<Digest>, mask: seq<bool>)
    requires leaves != [] && |mask| == |leaves| < 0x1_0000_0000
    ensures InTree(|mask|, HeightFrom(|mask|, 0), 0)
    ensures var e := Encoded(hash, leaves, mask);
      SizeOf(|e.hashes|, |e.bits|) <= Promised(|e.hashes|) <==> Kept(|e.hashes|, Lone(mask, HeightFrom(|mask|, 0), 0))
  {
    hide Encode, Lone, SizeOf, Kept, Promised, HeightFrom;
    var h := HeightFrom(|leaves|, 0);
    RootInTree(|leaves|);
    Height32(|leaves|);
    BitsExact(hash, leaves, mask, h, 0);
    LoneAtMostHeight(mask, h, 0);
    KeptExact(|Encoded(hash, leaves, mask).hashes|, Lone(mask, h, 0));
  }

  // ---------- Where it is not kept ----------

  ghost predicate AllMatched(mask: seq<bool>) {
    forall i :: 0 <= i < |mask| ==> mask[i]
  }

  lemma Descends(mask: seq<bool>, height: nat, pos: nat)
    requires AllMatched(mask) && InTree(|mask|, height, pos)
    ensures AnyMatch(mask, height, pos)
  {
    StartBeforeEnd(|mask|, height, pos);
    assert mask[Start(height, pos)];
  }

  /** With all leaves matched every leaf is a hash. */
  lemma {:induction false} AllHashes(hash: PairHash, leaves: seq<Digest>, mask: seq<bool>, height: nat, pos: nat)
    requires |mask| == |leaves| && AllMatched(mask) && InTree(|leaves|, height, pos)
    ensures |Encode(hash, leaves, mask, height, pos).hashes| == End(|leaves|, height, pos) - Start(height, pos)
  {
    Descends(mask, height, pos);
    if height == 0 {
      assert Pow2(0) == 1;
    } else {
      hide Start, End, Width, HasRight, AnyMatch, CalcHash, InTree;
      Children(|mask|, height, pos);
      AllHashes(hash, leaves, mask, height - 1, 2 * pos);
      if HasRight(|mask|, height, pos) {
        AllHashes(hash, leaves, mask, height - 1, 2 * pos + 1);
      }
    }
  }

  /** The node above the last of one leaf more than a power of two. */
  lemma EdgeNode(n: nat, k: nat, h: nat)
    requires n == Pow2(k) + 1 && h <= k
    ensures InTree(n, h, Pow2(k - h))
    ensures h > 0 ==> !HasRight(n, h, Pow2(k - h)) && Pow2(k - (h - 1)) == 2 * Pow2(k - h)
  {
    hide Pow2, Width;
    var pos := Pow2(k - h);
    Pow2Add(k - h, h);
    if h > 0 {
      var p := Pow2(h - 1);
      Pow2Add(k - h, 1);
      Pow2Add(k - h + 1, h - 1);
      PowerOne();
      AddColumn(2 * pos, 1, p);
      WidthCovers(n, h - 1, 2 * pos + 1);
    }
  }

  lemma PowerOne()
    ensures Pow2(1) == 2
  {
  }

  lemma LoneChild(mask: seq<bool>, h: nat, pos: nat)
    requires h > 0 && InTree(|mask|, h, pos) && AnyMatch(mask, h, pos) && !HasRight(|mask|, h, pos)
    ensures InTree(|mask|, h - 1, 2 * pos) && Lone(mask, h, pos) == Lone(mask, h - 1, 2 * pos) + 1
  {
    Children(|mask|, h, pos);
  }

  /** Above that last leaf there is a chain of single children. */
  lemma {:induction false} LoneChain(mask: seq<bool>, k: nat, h: nat)
    requires |mask| == Pow2(k) + 1 && AllMatched(mask) && h <= k
    ensures InTree(|mask|, h, Pow2(k - h)) && Lone(mask, h, Pow2(k - h)) == h
  {
    EdgeNode(|mask|, k, h);
    if h > 0 {
      hide Lone, Start, Width, HasRight, AnyMatch, InTree, Pow2;
      Descends(mask, h, Pow2(k - h));
      LoneChain(mask, k, h - 1);
      LoneChild(mask, h, Pow2(k - h));
    }
  }

  lemma HeightAbove(n: nat, k: nat)
    requires n == Pow2(k) + 1
    ensures HeightFrom(n, 0) == k + 1
  {
    assert Pow2(k + 1) == 2 * Pow2(k);
    HeightAtMost(n, k + 1);
    var r := HeightFrom(n, 0);
    if r <= k {
      Pow2Mono(r, k);
      WidthCovers(n, r, 1);
    }
  }

  lemma LoneRoot(mask: seq<bool>, k: nat)
    requires |mask| == Pow2(k) + 1 && AllMatched(mask)
    ensures InTree(|mask|, k + 1, 0) && Lone(mask, k + 1, 0) == k
  {
    LoneChain(mask, k, k);
    assert Pow2(0) == 1 && Start(k, 1) == Pow2(k);
    Descends(mask, k + 1, 0);
    Children(|mask|, k + 1, 0);
    LoneAtMostHeight(mask, k, 0);
    WidthCovers(|mask|, k, 1);
  }

  /** One leaf more than 1024, or than any higher power of two, all of them matched: the promise is broken. */
  lemma BytesBroken(hash: PairHash, leaves: seq<Digest>, mask: seq<bool>, k: nat)
    requires 10 <= k < 32 && |leaves| == |mask| == Pow2(k) + 1 && AllMatched(mask)
    ensures var e := Encoded(hash, leaves, mask); SizeOf(|e.hashes|, |e.bits|) > Promised(|e.hashes|)
  {
    hide Encode, Lone, SizeOf, Promised, HeightFrom, Pow2, End, AllMatched;
    ManyLeaves(k);
    HeightAbove(|mask|, k);
    LoneRoot(mask, k);
    RootInTree(|mask|);
    AllHashes(hash, leaves, mask, k + 1, 0);
    BytesExact(hash, leaves, mask);
  }

  lemma ManyLeaves(k: nat)
    requires 10 <= k < 32
    ensures Pow2(k) >= 1024 && Pow2(k) % 4 == 0 && Pow2(k) + 1 < 0x1_0000_0000
  {
    assert Pow2(2) == 4 && Pow2(8) == 256;
    Pow2Add(2, 8);
    Pow2Add(k - 2, 2);
    Pow2Mono(10, k);
    Pow2Mono(k, 31);
    Pow2Add(8, 8);
    Pow2Add(16, 8);
    assert Pow2(7) == 128;
    Pow2Add(24, 7);
  }
}
