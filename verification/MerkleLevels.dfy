/**
 * The Merkle tree of a block as the block itself builds it, level by level
 * (CBlock::BuildMerkleTree in src/primitives/block.cpp).
 */
module MerkleLevels {
  import opened Powers
  import opened MerkleTree
  import opened PartialMerkle

  function Min(a: int, b: int): int {
    if a <= b then a else b
  }

  /** Neighbours are hashed together; the last one of an odd number with itself. */
  ghost function NextLevel(hash: PairHash, level: seq<Digest>): (r: seq<Digest>)
    ensures |r| == (|level| + 1) / 2
  {
    seq((|level| + 1) / 2, i requires 0 <= i < (|level| + 1) / 2 =>
      hash(level[2 * i], level[Min(2 * i + 1, |level| - 1)]))
  }

  ghost function LevelRoot(hash: PairHash, level: seq<Digest>): Digest
    requires level != []
    decreases |level|
  {
    if |level| == 1 then level[0] else LevelRoot(hash, NextLevel(hash, level))
  }

  /** The last two of an even number are the same. */
  ghost predicate TwinEnd(level: seq<Digest>) {
    |level| >= 2 && |level| % 2 == 0 && level[|level| - 2] == level[|level| - 1]
  }

  /** What the mutation flag reports. */
  ghost predicate Mutated(hash: PairHash, level: seq<Digest>)
    decreases |level|
  {
    |level| > 1 && (TwinEnd(level) || Mutated(hash, NextLevel(hash, level)))
  }

  // ---------- The same root as by position and height ----------

  lemma {:induction false} NextLevelInTree(n: nat, height: nat, pos: nat)
    ensures InTree(n, height + 1, pos) <==> InTree((n + 1) / 2, height, pos)
  {
    var p := Pow2(height);
    assert Pow2(height + 1) == 2 * p;
    assert pos * (2 * p) == 2 * (pos * p);
  }

  lemma {:induction false} NextLevelRight(n: nat, height: nat, pos: nat)
    requires height >= 1
    ensures HasRight(n, height + 1, pos) <==> HasRight((n + 1) / 2, height, pos)
  {
    WidthCovers(n, height, 2 * pos + 1);
    WidthCovers((n + 1) / 2, height - 1, 2 * pos + 1);
    NextLevelInTree(n, height - 1, 2 * pos + 1);
  }

  lemma {:induction false} HashStep(hash: PairHash, leaves: seq<Digest>, height: nat, pos: nat)
    requires height >= 1 && InTree(|leaves|, height, pos)
    ensures InTree(|leaves|, height - 1, 2 * pos)
    ensures HasRight(|leaves|, height, pos) ==> InTree(|leaves|, height - 1, 2 * pos + 1)
    ensures var left := CalcHash(hash, leaves, height - 1, 2 * pos);
      CalcHash(hash, leaves, height, pos) ==
        hash(left, if HasRight(|leaves|, height, pos) then CalcHash(hash, leaves, height - 1, 2 * pos + 1) else left)
  {
    hide Start, Width;
    Children(|leaves|, height, pos);
  }

  lemma {:induction false} LeafPair(hash: PairHash, leaves: seq<Digest>, pos: nat)
    requires InTree(|leaves|, 1, pos)
    ensures InTree((|leaves| + 1) / 2, 0, pos)
    ensures CalcHash(hash, leaves, 1, pos) == CalcHash(hash, NextLevel(hash, leaves), 0, pos)
  {
    NextLevelInTree(|leaves|, 0, pos);
    HashStep(hash, leaves, 1, pos);
    WidthCovers(|leaves|, 0, 2 * pos + 1);
    assert Start(0, pos) == pos && Start(0, 2 * pos) == 2 * pos && Start(0, 2 * pos + 1) == 2 * pos + 1;
  }

  lemma {:induction false} LevelHash(hash: PairHash, leaves: seq<Digest>, height: nat, pos: nat)
    requires InTree(|leaves|, height + 1, pos)
    ensures InTree((|leaves| + 1) / 2, height, pos)
    ensures CalcHash(hash, leaves, height + 1, pos) == CalcHash(hash, NextLevel(hash, leaves), height, pos)
  {
    hide Start, Width, CalcHash, InTree, HasRight, NextLevel;
    if height == 0 {
      LeafPair(hash, leaves, pos);
    } else {
      var next := NextLevel(hash, leaves);
      NextLevelInTree(|leaves|, height, pos);
      NextLevelRight(|leaves|, height, pos);
      HashStep(hash, leaves, height + 1, pos);
      HashStep(hash, next, height, pos);
      LevelHash(hash, leaves, height - 1, 2 * pos);
      if HasRight(|leaves|, height + 1, pos) {
        LevelHash(hash, leaves, height - 1, 2 * pos + 1);
      }
    }
  }

  /** One level up the tree is one lower. */
  lemma {:induction false} HeightOfNext(n: nat)
    requires n > 1
    ensures HeightFrom(n, 0) == HeightFrom((n + 1) / 2, 0) + 1
  {
    var r := HeightFrom((n + 1) / 2, 0);
    WidthCovers(n, r + 1, 1);
    WidthCovers((n + 1) / 2, r, 1);
    NextLevelInTree(n, r, 1);
    forall j | 0 <= j <= r
      ensures Width(n, j) > 1
    {
      if j == 0 {
        assert Pow2(0) == 1;
      } else {
        WidthCovers(n, j, 1);
        WidthCovers((n + 1) / 2, j - 1, 1);
        NextLevelInTree(n, j - 1, 1);
      }
    }
  }

  /** Only a single leaf has a tree of height zero. */
  lemma {:induction false} HeightZero(n: nat)
    requires n > 0
    ensures HeightFrom(n, 0) == 0 <==> n == 1
  {
    assert Pow2(0) == 1 && Width(n, 0) == n;
  }

  /** The root by levels is the root by height and position. */
  lemma {:induction false} SameRoot(hash: PairHash, leaves: seq<Digest>)
    requires leaves != []
    ensures Root(hash, leaves) == LevelRoot(hash, leaves)
    decreases |leaves|
  {
    hide NextLevel, Width;
    RootInTree(|leaves|);
    if |leaves| == 1 {
      HeightZero(1);
    } else {
      var next := NextLevel(hash, leaves);
      HeightOfNext(|leaves|);
      LevelHash(hash, leaves, HeightFrom(|next|, 0), 0);
      SameRoot(hash, next);
    }
  }

  // ---------- Different leaves under one root ----------

  lemma {:induction false} PairsAgree(hash: PairHash, a: seq<Digest>, b: seq<Digest>, i: nat)
    requires Injective(hash) && |a| > 1 && |b| > 1 && NextLevel(hash, a) == NextLevel(hash, b) && i < (|a| + 1) / 2
    ensures (|b| + 1) / 2 == (|a| + 1) / 2
    ensures a[2 * i] == b[2 * i] && a[Min(2 * i + 1, |a| - 1)] == b[Min(2 * i + 1, |b| - 1)]
  {
    assert |NextLevel(hash, a)| == |NextLevel(hash, b)|;
    assert NextLevel(hash, a)[i] == NextLevel(hash, b)[i];
  }

  /** Two levels with the same next one are the same, or the longer one ends with twins. */
  lemma {:induction false} SameNext(hash: PairHash, a: seq<Digest>, b: seq<Digest>)
    requires Injective(hash) && |a| > 1 && |b| > 1 && NextLevel(hash, a) == NextLevel(hash, b)
    ensures a == b || TwinEnd(a) || TwinEnd(b)
  {
    PairsAgree(hash, a, b, 0);
    PairsAgree(hash, a, b, (|a| - 1) / 2);
    if |a| == |b| {
      forall j | 0 <= j < |a|
        ensures a[j] == b[j]
      {
        PairsAgree(hash, a, b, j / 2);
      }
    }
  }

  /**
   * Two lists of leaves under trees of one height have the same root only if they are the same list
   * or one of them is reported as mutated.
   */
  lemma {:induction false} SameRootDetected(hash: PairHash, a: seq<Digest>, b: seq<Digest>)
    requires Injective(hash) && a != [] && b != [] && HeightFrom(|a|, 0) == HeightFrom(|b|, 0)
    requires LevelRoot(hash, a) == LevelRoot(hash, b)
    ensures a == b || Mutated(hash, a) || Mutated(hash, b)
    decreases |a|
  {
    hide NextLevel, HeightFrom, Injective, TwinEnd;
    HeightZero(|a|);
    HeightZero(|b|);
    if |a| > 1 {
      HeightOfNext(|a|);
      HeightOfNext(|b|);
      SameRootDetected(hash, NextLevel(hash, a), NextLevel(hash, b));
      if NextLevel(hash, a) == NextLevel(hash, b) {
        SameNext(hash, a, b);
      }
    }
  }

  // ---------- As the block computes it ----------

  /** The inner loop: the level that starts at `j` gets the next one appended. */
  method BuildLevel(hash: PairHash, tree0: seq<Digest>, j: nat, nSize: nat, flagged: bool)
    returns (tree: seq<Digest>, mutated: bool)
    requires nSize > 1 && j + nSize == |tree0|
    ensures tree == tree0 + NextLevel(hash, tree0[j..])
    ensures mutated <==> flagged || TwinEnd(tree0[j..])
  {
    ghost var level, next := tree0[j..], NextLevel(hash, tree0[j..]);
    tree, mutated := tree0, flagged;
    var i := 0;
    while i < nSize
      invariant 0 <= i <= nSize + 1 && i % 2 == 0
      invariant tree == tree0 + next[..i / 2]
      invariant mutated <==> flagged || (i >= nSize && TwinEnd(level))
    {
      var i2 := Min(i + 1, nSize - 1);
      assert tree[j + i] == level[i] && tree[j + i2] == level[i2];
      if i2 == i + 1 && i2 + 1 == nSize && tree[j + i] == tree[j + i2] {
        mutated := true;
      }
      assert next[i / 2] == hash(tree[j + i], tree[j + i2]);
      tree := tree + [hash(tree[j + i], tree[j + i2])];
      i := i + 2;
    }
  }

  /** CBlock::BuildMerkleTree: all levels one after the other in one list, `j` at the start of the current one. */
  method BuildMerkleTree(hash: PairHash, leaves: seq<Digest>) returns (root: Digest, mutated: bool)
    ensures leaves == [] ==> root == NULL_DIGEST
    ensures leaves != [] ==> root == Root(hash, leaves) == LevelRoot(hash, leaves)
    ensures mutated <==> Mutated(hash, leaves)
  {
    hide NextLevel, TwinEnd, Root;
    var tree := leaves;
    var j, nSize := 0, |leaves|;
    mutated := false;
    if leaves != [] {
      SameRoot(hash, leaves);
    }
    assert tree[0..] == leaves;
    while nSize > 1
      invariant 0 <= nSize && 0 <= j && j + nSize == |tree| && (nSize == 0 <==> leaves == [])
      invariant leaves == [] ==> tree == []
      invariant leaves != [] ==> LevelRoot(hash, tree[j..]) == LevelRoot(hash, leaves)
      invariant Mutated(hash, leaves) <==> mutated || Mutated(hash, tree[j..])
      decreases nSize
    {
      ghost var level := tree[j..];
      LevelStep(hash, level);
      tree, mutated := BuildLevel(hash, tree, j, nSize, mutated);
      j := j + nSize;
      nSize := (nSize + 1) / 2;
      assert tree[j..] == NextLevel(hash, level);
    }
    root := if tree == [] then NULL_DIGEST else tree[|tree| - 1];
  }

  lemma {:induction false} LevelStep(hash: PairHash, level: seq<Digest>)
    requires |level| > 1
    ensures LevelRoot(hash, level) == LevelRoot(hash, NextLevel(hash, level))
    ensures Mutated(hash, level) <==> TwinEnd(level) || Mutated(hash, NextLevel(hash, level))
  {
  }
}
