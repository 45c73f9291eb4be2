/** CChain (src/chain.h, src/chain.cpp): one branch of the block tree, indexed by height. */
module ActiveChain {
  import opened Powers
  import opened BlockIndexes

  /** The ancestors of a block, genesis first, and the block itself. */
  ghost function Branch(tip: BlockIndex?): seq<BlockIndex?>
    requires tip != null ==> tip.Rooted()
  {
    if tip == null then [] else seq(tip.nHeight + 1, i requires 0 <= i <= tip.nHeight => tip.Ancestor(i))
  }

  /** a is b or lies on the parent walk from b. */
  ghost predicate OnBranch(a: BlockIndex, b: BlockIndex)
    requires b.Rooted()
  {
    a.nHeight <= b.nHeight && b.Ancestor(a.nHeight) == a
  }

  class Chain {
    var vChain: seq<BlockIndex?>

    ghost predicate Valid()
      reads this
    {
      (vChain != [] ==> vChain[|vChain| - 1] != null && vChain[|vChain| - 1].Rooted()) && vChain == Branch(Last(vChain))
    }

    constructor ()
      ensures Valid() && vChain == []
    {
      vChain := [];
    }

    function Height(): int
      reads this
    {
      |vChain| - 1
    }

    /** operator[]. */
    function At(height: int): BlockIndex?
      reads this
    {
      if height < 0 || height > Height() then null else vChain[height]
    }

    function Tip(): BlockIndex?
      reads this
    {
      if Height() >= 0 then At(Height()) else null
    }

    predicate Contains(b: BlockIndex)
      reads this
    {
      At(b.nHeight) == b
    }

    /** Stops at the first block that is already in place. */
    method SetTip(tip: BlockIndex?)
      requires Valid() && (tip != null ==> tip.Rooted())
      modifies this
      ensures Valid() && Tip() == tip && vChain == Branch(tip)
    {
      if tip == null {
        vChain := [];
        return;
      }
      ghost var was := vChain;
      var p: BlockIndex? := tip;
      vChain := Resized(vChain, tip.nHeight + 1);
      ghost var n := tip.nHeight + 1;
      while p != null && vChain[p.nHeight] != p
        invariant |vChain| == tip.nHeight + 1 && 0 <= n <= |vChain|
        invariant if p == null then n == 0 else n == p.nHeight + 1 && p == tip.Ancestor(p.nHeight) && p.Rooted()
        invariant forall i :: n <= i <= tip.nHeight ==> vChain[i] == tip.Ancestor(i)
        invariant forall i :: 0 <= i < n ==> vChain[i] == if i < |was| then was[i] else null
        decreases n
      {
        vChain := vChain[p.nHeight := p];
        StepDown(tip, p);
        n := p.nHeight;
        p := p.pprev;
      }
      if p != null {
        SharedBelow(was, tip, p);
      }
      assert vChain == Branch(tip);
    }

    /** The last block that the chain and a branch share. */
    method FindFork(b: BlockIndex, ghost tree: set<BlockIndex>) returns (r: BlockIndex?)
      requires Valid() && b in tree && GoodTree(tree)
      ensures b.Rooted()
      ensures r != null ==> Contains(r) && OnBranch(r, b)
      ensures forall a: BlockIndex :: a in tree && Contains(a) && OnBranch(a, b) ==> r != null && a.nHeight <= r.nHeight
    {
      hide GoodTree, Steps, AllSkips;
      InTree(b, tree);
      r := b;
      ghost var n := b.nHeight + 1;
      if b.nHeight > Height() {
        ghost var steps;
        r, steps := b.GetAncestor(Height(), tree);
        n := Height() + 1;
      }
      while r != null && !Contains(r)
        invariant if r == null then n == 0 else n == r.nHeight + 1 && OnBranch(r, b) && r.Rooted()
        invariant 0 <= n <= b.nHeight + 1
        invariant forall h :: n <= h <= b.nHeight ==> At(h) != b.Ancestor(h)
        decreases n
      {
        StepDown(b, r);
        n := r.nHeight;
        r := r.pprev;
      }
    }

    /** Block locators: dense near the start, then exponentially sparser, down to genesis. */
    method GetLocator(start: BlockIndex?, ghost tree: set<BlockIndex>) returns (have: seq<BlockIndex>)
      requires Valid() && GoodTree(tree) && (start != null ==> start in tree) && (Tip() != null ==> Tip() in tree)
      ensures var first := if start == null then Tip() else start;
        if first == null then have == [] else first.Rooted() && IsLocator(have, first) && have[|have| - 1].nHeight == 0
    {
      hide IsLocator, GoodTree, Branch, Steps, AllSkips;
      var nStep := 1;
      have := [];
      var p := if start == null then Tip() else start;
      ghost var first := p;
      if first != null {
        FirstEntry(first, tree);
      }
      while p != null
        invariant first == null <==> p == null
        invariant first == null ==> have == []
        invariant first != null ==> p in tree && first.Rooted() && p.Rooted() && IsLocator(have + [p], first)
        invariant nStep == Gap(|have|)
        decreases if p == null then 0 else p.nHeight + 1
      {
        have := have + [p];
        if p.nHeight == 0 {
          return;
        }
        var height := if p.nHeight - nStep > 0 then p.nHeight - nStep else 0;
        FewerSteps(|have|);
        NextEntry(have, first, height);
        AncestorInTree(p, height, tree);
        if Contains(p) {
          ChainIsBranch(vChain, p, height);
          p := At(height);
        } else {
          ghost var steps;
          p, steps := p.GetAncestor(height, tree);
        }
        if |have| > 10 {
          nStep := nStep * 2;
        }
      }
    }
  }

  lemma FirstEntry(first: BlockIndex, tree: set<BlockIndex>)
    requires first in tree && GoodTree(tree)
    ensures first.Rooted() && IsLocator([] + [first], first)
  {
    assert first.SkipRight();
  }

  function Last(v: seq<BlockIndex?>): BlockIndex? {
    if v == [] then null else v[|v| - 1]
  }

  /** std::vector::resize: cut off, or filled up with null. */
  function Resized(v: seq<BlockIndex?>, n: nat): (r: seq<BlockIndex?>)
    ensures |r| == n && forall i :: 0 <= i < n ==> r[i] == if i < |v| then v[i] else null
  {
    if n <= |v| then v[..n] else v + seq(n - |v|, _ => null)
  }

  lemma StepDown(tip: BlockIndex, p: BlockIndex)
    requires tip.Rooted() && OnBranch(p, tip) && p.Rooted()
    ensures if p.pprev == null then p.nHeight == 0 else p.nHeight == p.pprev.nHeight + 1 && OnBranch(p.pprev, tip)
  {
    if p.pprev != null {
      AncestorOfAncestor(tip, p.nHeight, p.nHeight - 1);
      assert p.Ancestor(p.nHeight - 1) == p.pprev;
    }
  }

  /** Below a block that two branches share they are the same. */
  lemma SharedBelow(was: seq<BlockIndex?>, tip: BlockIndex, p: BlockIndex)
    requires tip.Rooted() && p.Rooted() && OnBranch(p, tip) && p.nHeight < |was| && was[p.nHeight] == p
    requires was != [] ==> was[|was| - 1] != null && was[|was| - 1].Rooted()
    requires was == Branch(Last(was))
    ensures forall i :: 0 <= i <= p.nHeight ==> was[i] == tip.Ancestor(i)
  {
    var end: BlockIndex := was[|was| - 1];
    forall i | 0 <= i <= p.nHeight
      ensures was[i] == tip.Ancestor(i)
    {
      AncestorOfAncestor(end, p.nHeight, i);
      AncestorOfAncestor(tip, p.nHeight, i);
    }
  }

  lemma ChainIsBranch(v: seq<BlockIndex?>, p: BlockIndex, h: nat)
    requires v != [] && v[|v| - 1] != null && v[|v| - 1].Rooted() && v == Branch(Last(v))
    requires p.Rooted() && h <= p.nHeight < |v| && v[p.nHeight] == p
    ensures v[h] == p.Ancestor(h)
  {
    AncestorOfAncestor(v[|v| - 1], p.nHeight, h);
  }

  /** The distance from entry i of a locator to the next. */
  function Gap(i: nat): (r: nat)
    ensures r >= 1
  {
    if i <= 10 then 1 else Pow2(i - 10)
  }

  ghost predicate IsLocator(have: seq<BlockIndex>, first: BlockIndex)
    requires first.Rooted()
  {
    && have != []
    && have[0] == first
    && (forall i :: 0 <= i < |have| ==> OnBranch(have[i], first))
    && (forall i :: 0 <= i < |have| - 1 ==> have[i].nHeight > have[i + 1].nHeight == Back(have[i].nHeight, Gap(i)))
  }

  function Back(height: nat, step: nat): nat {
    if height > step then height - step else 0
  }

  lemma FewerSteps(n: nat)
    requires n >= 1
    ensures Gap(n) == if n > 10 then 2 * Gap(n - 1) else Gap(n - 1)
  {
  }

  lemma NextEntry(have: seq<BlockIndex>, first: BlockIndex, height: nat)
    requires first.Rooted() && IsLocator(have, first) && have[|have| - 1].nHeight > 0
    requires height == Back(have[|have| - 1].nHeight, Gap(|have| - 1))
    ensures have[|have| - 1].Rooted() && height < have[|have| - 1].nHeight
    ensures IsLocator(have + [have[|have| - 1].Ancestor(height)], first)
  {
    var p := have[|have| - 1];
    var next := have + [p.Ancestor(height)];
    AncestorOfAncestor(first, p.nHeight, height);
    forall i | 0 <= i < |next| - 1
      ensures next[i].nHeight > next[i + 1].nHeight == Back(next[i].nHeight, Gap(i))
    {
      if i < |have| - 1 {
        assert have[i].nHeight > have[i + 1].nHeight == Back(have[i].nHeight, Gap(i));
      }
    }
  }

  /** How far back entry i is, until genesis is reached. */
  function Total(i: nat): int {
    if i <= 11 then i else 9 + Pow2(i - 10)
  }

  /** Entry i is i blocks back for the first twelve entries, then nine more than a power of two. */
  lemma {:induction false} EntryHeight(have: seq<BlockIndex>, first: BlockIndex, i: nat)
    requires first.Rooted() && IsLocator(have, first) && i < |have| - 1
    ensures have[i].nHeight == first.nHeight - (if i < 12 then i else 9 + Pow2(i - 10)) > 0
  {
    if i > 0 {
      EntryHeight(have, first, i - 1);
      assert have[i - 1].nHeight > have[i].nHeight == Back(have[i - 1].nHeight, Gap(i - 1));
    }
    assert have[i].nHeight > have[i + 1].nHeight;
    TotalStep(i);
  }

  lemma TotalStep(i: nat)
    ensures Total(i + 1) == Total(i) + Gap(i)
  {
    if i >= 11 {
      assert Pow2(i - 9) == 2 * Pow2(i - 10);
    }
    assert Pow2(1) == 2;
  }

  /** A locator has at most twelve entries plus one for each doubling of the height. */
  lemma LocatorIsShort(have: seq<BlockIndex>, first: BlockIndex)
    requires first.Rooted() && IsLocator(have, first)
    ensures |have| <= 12 || Pow2(|have| - 12) + 9 < first.nHeight
  {
    if |have| > 12 {
      EntryHeight(have, first, |have| - 2);
      assert Pow2(1) == 2;
    }
  }
}
