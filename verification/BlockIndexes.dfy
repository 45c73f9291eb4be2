/** CBlockIndex (src/chain.h, src/chain.cpp): block-index entries linked to their parents, with skip pointers. */
module BlockIndexes {
  import opened Powers

  type Uint32 = x: int | 0 <= x < 0x1_0000_0000

  /** Bitwise and. */
  function And(x: nat, y: nat): nat
    decreases x
  {
    if x == 0 then 0 else (if x % 2 == 1 && y % 2 == 1 then 1 else 0) + 2 * And(x / 2, y / 2)
  }

  /** n & (n - 1). */
  function InvertLowestOne(n: nat): nat {
    if n == 0 then 0 else And(n, n - 1)
  }

  lemma {:induction false} AndSelf(x: nat)
    ensures And(x, x) == x
  {
    if x > 0 {
      AndSelf(x / 2);
    }
  }

  lemma InvertOdd(m: nat)
    ensures InvertLowestOne(2 * m + 1) == 2 * m
  {
    assert (2 * m + 1) / 2 == m && 2 * m / 2 == m;
    AndSelf(m);
  }

  lemma InvertEven(n: nat)
    requires n > 0
    ensures InvertLowestOne(2 * n) == 2 * InvertLowestOne(n)
  {
    assert 2 * n / 2 == n && (2 * n - 1) / 2 == n - 1;
  }

  /** The lowest one bit, and only it, is turned off. */
  lemma {:induction false} InvertsLowestOne(m: nat, k: nat)
    ensures InvertLowestOne((2 * m + 1) * Pow2(k)) == 2 * m * Pow2(k)
  {
    hide InvertLowestOne;
    if k == 0 {
      InvertOdd(m);
    } else {
      var h := Pow2(k - 1);
      MulAtLeast(2 * m + 1, h);
      InvertsLowestOne(m, k - 1);
      InvertEven((2 * m + 1) * h);
      Twice(2 * m + 1, h);
      Twice(2 * m, h);
    }
  }

  lemma Twice(x: int, h: int)
    ensures x * (2 * h) == 2 * (x * h)
  {
  }

  /** Every positive number has a lowest one bit. */
  lemma {:induction false} LowestOne(n: nat) returns (m: nat, k: nat)
    requires n > 0
    ensures n == (2 * m + 1) * Pow2(k)
  {
    if n % 2 == 1 {
      m, k := n / 2, 0;
    } else {
      m, k := LowestOne(n / 2);
      k := k + 1;
      assert (2 * m + 1) * (2 * Pow2(k - 1)) == 2 * ((2 * m + 1) * Pow2(k - 1));
    }
  }

  lemma InvertDrops(n: nat)
    ensures 0 <= InvertLowestOne(n) <= n && (n > 0 ==> InvertLowestOne(n) < n)
  {
    if n > 0 {
      var m, k := LowestOne(n);
      InvertsLowestOne(m, k);
      assert (2 * m + 1) * Pow2(k) == 2 * m * Pow2(k) + Pow2(k);
      MulMono(0, 2 * m, Pow2(k));
    }
  }

  /** The height that the skip pointer of a block jumps to. */
  function GetSkipHeight(height: nat): (r: nat) {
    if height < 2 then 0
    else if height % 2 == 1 then InvertLowestOne(InvertLowestOne(height - 1)) + 1
    else InvertLowestOne(height)
  }

  /** A skip goes strictly back. */
  lemma SkipsBack(height: nat)
    requires height > 0
    ensures GetSkipHeight(height) < height
  {
    if height >= 2 {
      InvertDrops(height);
      InvertDrops(height - 1);
      InvertDrops(InvertLowestOne(height - 1));
    }
  }

  /** The next height of the walk from w down to t, all skip pointers set. */
  function NextHeight(w: nat, t: nat): (r: nat)
    requires t < w
    ensures t <= r < w
  {
    SkipsBack(w);
    var s, sp := GetSkipHeight(w), GetSkipHeight(w - 1);
    if s == t || (s > t && !(sp < s - 2 && sp >= t)) then s else w - 1
  }

  function Steps(w: nat, t: nat): nat
    decreases w
  {
    if w <= t then 0 else 1 + Steps(NextHeight(w, t), t)
  }

  class BlockIndex {
    const pprev: BlockIndex?
    const nHeight: nat
    const nBits: Uint32
    var pskip: BlockIndex?

    constructor (prev: BlockIndex?, bits: Uint32)
      ensures pprev == prev && nBits == bits && pskip == null
      ensures nHeight == if prev == null then 0 else prev.nHeight + 1
    {
      pprev, nBits, pskip := prev, bits, null;
      nHeight := if prev == null then 0 else prev.nHeight + 1;
    }

    /** Heights count the blocks down to a genesis block. */
    ghost predicate Rooted()
      decreases nHeight
    {
      if pprev == null then nHeight == 0 else nHeight == pprev.nHeight + 1 && pprev.Rooted()
    }

    /** The parent walk. */
    ghost function Ancestor(height: nat): (r: BlockIndex)
      requires Rooted() && height <= nHeight
      ensures r.Rooted() && r.nHeight == height
      decreases nHeight
    {
      if height == nHeight then this else pprev.Ancestor(height)
    }

    /** The skip pointer, if set, is the ancestor at the skip height. */
    ghost predicate SkipRight()
      reads this
    {
      Rooted() && (pskip != null ==>
        nHeight > 0 && GetSkipHeight(nHeight) < nHeight && pskip == Ancestor(GetSkipHeight(nHeight)))
    }

    method GetAncestor(height: int, ghost tree: set<BlockIndex>) returns (r: BlockIndex?, ghost steps: nat)
      requires this in tree && GoodTree(tree)
      ensures r == if 0 <= height <= nHeight then Ancestor(height) else null
      ensures AllSkips(tree) ==> steps == if 0 <= height then Steps(nHeight, height) else 0
    {
      hide GetSkipHeight, Steps, GoodTree, AllSkips, NextHeight;
      InTree(this, tree);
      steps := 0;
      NoSteps(nHeight, height);
      if height > nHeight || height < 0 {
        return null, 0;
      }
      var walk: BlockIndex, heightWalk := this, nHeight;
      while heightWalk > height
        invariant height <= heightWalk <= nHeight && walk == Ancestor(heightWalk) && walk in tree
        invariant AllSkips(tree) ==> steps + Steps(heightWalk, height) == Steps(nHeight, height)
      {
        var heightSkip := GetSkipHeight(heightWalk);
        var heightSkipPrev := GetSkipHeight(heightWalk - 1);
        Onward(walk, tree);
        OneStep(heightWalk, height);
        if walk.pskip != null &&
           (heightSkip == height
             || (heightSkip > height && !(heightSkipPrev < heightSkip - 2 && heightSkipPrev >= height))) {
          AncestorOfAncestor(this, heightWalk, heightSkip);
          walk := walk.pskip;
          heightWalk := heightSkip;
        } else {
          AncestorOfAncestor(this, heightWalk, heightWalk - 1);
          walk := walk.pprev;
          heightWalk := heightWalk - 1;
        }
        steps := steps + 1;
      }
      NoSteps(heightWalk, height);
      return walk, steps;
    }

    method BuildSkip(ghost tree: set<BlockIndex>)
      requires GoodTree(tree) && this !in tree && Rooted() && (pprev != null ==> pprev in tree)
      modifies this
      ensures pprev == null ==> pskip == old(pskip)
      ensures pprev != null ==> GetSkipHeight(nHeight) < nHeight && pskip == Ancestor(GetSkipHeight(nHeight))
    {
      if pprev != null {
        SkipsBack(nHeight);
        ghost var steps;
        pskip, steps := pprev.GetAncestor(GetSkipHeight(nHeight), tree);
      }
    }
  }

  /** Closed under parents, with right skip pointers. */
  ghost predicate GoodTree(tree: set<BlockIndex>)
    reads tree
  {
    forall b :: b in tree ==> b.SkipRight() && (b.pprev != null ==> b.pprev in tree)
  }

  /** Every block but a first one has its skip pointer. */
  ghost predicate AllSkips(tree: set<BlockIndex>)
    reads tree
  {
    forall b :: b in tree && b.pprev != null ==> b.pskip != null
  }

  lemma {:induction false} AncestorOfAncestor(b: BlockIndex, h: nat, g: nat)
    requires b.Rooted() && g <= h <= b.nHeight
    ensures b.Ancestor(h).Ancestor(g) == b.Ancestor(g)
    decreases b.nHeight
  {
    if h < b.nHeight {
      AncestorOfAncestor(b.pprev, h, g);
    }
  }

  lemma {:induction false} AncestorInTree(b: BlockIndex, h: nat, tree: set<BlockIndex>)
    requires b in tree && GoodTree(tree) && b.Rooted() && h <= b.nHeight
    ensures b.Ancestor(h) in tree
    decreases b.nHeight
  {
    if h < b.nHeight {
      AncestorInTree(b.pprev, h, tree);
    }
  }

  lemma InTree(b: BlockIndex, tree: set<BlockIndex>)
    requires b in tree && GoodTree(tree)
    ensures b.Rooted()
  {
    assert b.SkipRight();
  }

  lemma NoSteps(w: nat, t: int)
    ensures 0 <= w <= t ==> Steps(w, t) == 0
  {
  }

  lemma OneStep(w: nat, t: nat)
    requires t < w
    ensures Steps(w, t) == 1 + Steps(NextHeight(w, t), t)
    ensures var s, sp := GetSkipHeight(w), GetSkipHeight(w - 1);
      NextHeight(w, t) == if s == t || (s > t && !(sp < s - 2 && sp >= t)) then s else w - 1
  {
    hide GetSkipHeight;
  }

  /** Both pointers lead to ancestors within the tree. */
  lemma Onward(b: BlockIndex, tree: set<BlockIndex>)
    requires b in tree && GoodTree(tree) && b.Rooted() && b.nHeight > 0
    ensures b.pprev != null && b.pprev in tree && b.pprev == b.Ancestor(b.nHeight - 1)
    ensures GetSkipHeight(b.nHeight) < b.nHeight
    ensures b.pskip != null ==> b.pskip in tree && b.pskip == b.Ancestor(GetSkipHeight(b.nHeight))
    ensures AllSkips(tree) ==> b.pskip != null
  {
    hide GetSkipHeight;
    SkipsBack(b.nHeight);
    AncestorInTree(b, GetSkipHeight(b.nHeight), tree);
  }

  type Hash = nat

  /** mapBlockIndex: the entries of every block seen, on any branch. */
  class BlockTree {
    var mapBlockIndex: map<Hash, BlockIndex>

    ghost predicate Valid()
      reads this, mapBlockIndex.Values
    {
      GoodTree(mapBlockIndex.Values) && AllSkips(mapBlockIndex.Values)
    }

    constructor ()
      ensures mapBlockIndex == map[] && Valid()
    {
      mapBlockIndex := map[];
    }

    /** Blocks arrive after their parents, in any order otherwise. No header names its own hash. */
    method AddToBlockIndex(hash: Hash, hashPrev: Hash, nBits: Uint32) returns (b: BlockIndex)
      requires Valid() && hash != hashPrev
      modifies this
      ensures Valid() && hash in mapBlockIndex && b == mapBlockIndex[hash]
      ensures hash in old(mapBlockIndex) ==> mapBlockIndex == old(mapBlockIndex)
      ensures hash !in old(mapBlockIndex) ==>
        fresh(b) && mapBlockIndex == old(mapBlockIndex)[hash := b] && b.nBits == nBits
      ensures hash !in old(mapBlockIndex) ==>
        b.pprev == if hashPrev in old(mapBlockIndex) then old(mapBlockIndex)[hashPrev] else null
      ensures hash !in old(mapBlockIndex) && b.pprev != null ==> b.pskip != null
    {
      if hash in mapBlockIndex {
        return mapBlockIndex[hash];
      }
      ghost var tree := mapBlockIndex.Values;
      var prev := if hashPrev in mapBlockIndex then mapBlockIndex[hashPrev] else null;
      assert prev != null ==> prev in tree && prev.SkipRight();
      b := new BlockIndex(prev, nBits);
      if prev != null {
        b.BuildSkip(tree);
      }
      Grows(mapBlockIndex, hash, b);
      mapBlockIndex := mapBlockIndex[hash := b];
    }
  }

  lemma Grows(m: map<Hash, BlockIndex>, hash: Hash, b: BlockIndex)
    requires GoodTree(m.Values) && b.SkipRight() && hash !in m && (b.pprev != null ==> b.pprev in m.Values)
    requires AllSkips(m.Values) && (b.pprev != null ==> b.pskip != null)
    ensures GoodTree(m[hash := b].Values) && AllSkips(m[hash := b].Values)
  {
    var n := m[hash := b];
    forall x | x in n.Values
      ensures x == b || x in m.Values
    {
      var h :| h in n && n[h] == x;
    }
    if b.pprev != null {
      var h :| h in m && m[h] == b.pprev;
      assert h in n && n[h] == b.pprev;
    }
    forall x | x in m.Values
      ensures x.pprev != null ==> x.pprev in n.Values
    {
      if x.pprev != null {
        var h :| h in m && m[h] == x.pprev;
        assert h in n && n[h] == x.pprev;
      }
    }
  }
}
