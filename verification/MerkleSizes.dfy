/** How many hashes and flag bits a partial Merkle tree takes. */
module MerkleSizes {
  import opened Outcomes
  import opened Powers
  import opened MerkleTree

  /** Nodes with a single child that the traversal descends into. */
  ghost function Lone(mask: seq<bool>, height: nat, pos: nat): nat
    requires InTree(|mask|, height, pos)
  {
    if height == 0 || !AnyMatch(mask, height, pos) then 0
    else
      Children(|mask|, height, pos);
      Lone(mask, height - 1, 2 * pos)
        + (if HasRight(|mask|, height, pos) then Lone(mask, height - 1, 2 * pos + 1) else 1)
  }

  /** One hash per node that is not descended into, one flag bit per node visited. */
  lemma {:induction false} BitsExact(hash: PairHash, leaves: seq<Digest>, mask: seq<bool>, height: nat, pos: nat)
    requires |mask| == |leaves| && InTree(|leaves|, height, pos)
    ensures var e := Encode(hash, leaves, mask, height, pos);
      |e.bits| == 2 * |e.hashes| - 1 + Lone(mask, height, pos) && |e.hashes| >= 1
  {
    hide Start, End, Width, HasRight, AnyMatch, CalcHash, InTree;
    if height > 0 && AnyMatch(mask, height, pos) {
      Children(|mask|, height, pos);
      BitsExact(hash, leaves, mask, height - 1, 2 * pos);
      if HasRight(|mask|, height, pos) {
        BitsExact(hash, leaves, mask, height - 1, 2 * pos + 1);
      }
    }
  }

  /** No more hashes than leaves. */
  lemma {:induction false} HashesAtMostLeaves(
    hash: PairHash, leaves: seq<Digest>, mask: seq<bool>, height: nat, pos: nat)
    requires |mask| == |leaves| && InTree(|leaves|, height, pos)
    ensures |Encode(hash, leaves, mask, height, pos).hashes| <= End(|leaves|, height, pos) - Start(height, pos)
  {
    StartBeforeEnd(|leaves|, height, pos);
    hide Start, End, Width, HasRight, AnyMatch, CalcHash, InTree;
    if height > 0 && AnyMatch(mask, height, pos) {
      Children(|mask|, height, pos);
      HashesAtMostLeaves(hash, leaves, mask, height - 1, 2 * pos);
      if HasRight(|mask|, height, pos) {
        HashesAtMostLeaves(hash, leaves, mask, height - 1, 2 * pos + 1);
      }
    }
  }

  /** At most one hash per level for every match, and one more. */
  lemma {:induction false} HashesAtMostMatches(
    hash: PairHash, leaves: seq<Digest>, mask: seq<bool>, height: nat, pos: nat)
    requires |mask| == |leaves| && InTree(|leaves|, height, pos)
    ensures |Encode(hash, leaves, mask, height, pos).hashes| <= 1 + |Below(mask, height, pos)| * height
  {
    AnyIsBelow(mask, height, pos);
    var e := Encode(hash, leaves, mask, height, pos);
    if height > 0 && AnyMatch(mask, height, pos) {
      hide Start, End, Width, HasRight, AnyMatch, CalcHash, InTree, Below;
      MatchedBelow(mask, height, pos);
      HashesAtMostMatches(hash, leaves, mask, height - 1, 2 * pos);
      var m1 := |Below(mask, height - 1, 2 * pos)|;
      if HasRight(|mask|, height, pos) {
        HashesAtMostMatches(hash, leaves, mask, height - 1, 2 * pos + 1);
        var m2 := |Below(mask, height - 1, 2 * pos + 1)|;
        TwoChildren(m1, m2, height);
      } else {
        TwoChildren(m1, 0, height);
      }
    } else {
      assert |Below(mask, height, pos)| * height >= 0;
    }
  }

  lemma TwoChildren(m1: nat, m2: nat, height: nat)
    requires height >= 1 && m1 + m2 >= 1
    ensures (1 + m1 * (height - 1)) + (1 + m2 * (height - 1)) <= 1 + (m1 + m2) * height
    ensures 1 + m1 * (height - 1) <= 1 + m1 * height
  {
    assert m1 * (height - 1) == m1 * height - m1;
    assert m2 * (height - 1) == m2 * height - m2;
    assert (m1 + m2) * height == m1 * height + m2 * height;
  }

  // ---------- The right edge ----------

  /** Only the last node of a level can have a single child. */
  lemma LoneIsLast(n: nat, height: nat, pos: nat)
    requires height >= 1 && InTree(n, height, pos) && !HasRight(n, height, pos)
    ensures End(n, height, pos) == n
  {
    WidthCovers(n, height - 1, 2 * pos + 1);
    var p := Pow2(height - 1);
    assert Pow2(height) == 2 * p;
    assert (2 * pos + 1) * p == 2 * pos * p + p;
    assert (pos + 1) * (2 * p) == 2 * pos * p + 2 * p;
  }

  /** At most one single-child node per level, and only at the right edge. */
  lemma {:induction false} LoneAtMostHeight(mask: seq<bool>, height: nat, pos: nat)
    requires InTree(|mask|, height, pos)
    ensures Lone(mask, height, pos) <= height
    ensures End(|mask|, height, pos) < |mask| ==> Lone(mask, height, pos) == 0
  {
    if height > 0 && AnyMatch(mask, height, pos) {
      Children(|mask|, height, pos);
      if HasRight(|mask|, height, pos) {
        StartBeforeEnd(|mask|, height - 1, 2 * pos + 1);
        hide Start, End, Width, HasRight, AnyMatch, InTree;
        LoneAtMostHeight(mask, height - 1, 2 * pos);
        LoneAtMostHeight(mask, height - 1, 2 * pos + 1);
      } else {
        LoneIsLast(|mask|, height, pos);
        hide Start, End, Width, HasRight, AnyMatch, InTree;
        LoneAtMostHeight(mask, height - 1, 2 * pos);
      }
    }
  }

  ghost predicate IsLast(n: nat, height: nat, pos: nat) {
    InTree(n, height, pos) && End(n, height, pos) == n
  }

  lemma LastUnique(n: nat, height: nat, p: nat, q: nat)
    requires IsLast(n, height, p) && InTree(n, height, q)
    ensures q <= p
    ensures IsLast(n, height, q) ==> q == p
  {
    if p < q {
      MulMono(p + 1, q, Pow2(height));
    } else if q < p {
      MulMono(q + 1, p, Pow2(height));
    }
  }

  /** A node with a single child and a match below it. */
  ghost predicate LoneMatch(mask: seq<bool>, height: nat, pos: nat)
    requires height >= 1
  {
    InTree(|mask|, height, pos) && !HasRight(|mask|, height, pos) && AnyMatch(mask, height, pos)
  }

  /** What a caller can read off the mask: no matched leaf lies below a node with a single child. */
  ghost predicate NoLoneMatch(mask: seq<bool>, height: nat) {
    forall j, q :: 1 <= j <= height ==> !LoneMatch(mask, j, q)
  }

  lemma NoLoneStep(mask: seq<bool>, height: nat, pos: nat)
    requires height >= 1 && IsLast(|mask|, height, pos)
    ensures NoLoneMatch(mask, height) <==> NoLoneMatch(mask, height - 1) && !LoneMatch(mask, height, pos)
  {
    forall q | q != pos
      ensures !LoneMatch(mask, height, q)
    {
      if LoneMatch(mask, height, q) {
        LoneIsLast(|mask|, height, q);
        LastUnique(|mask|, height, pos, q);
      }
    }
  }

  /** A match below the last node of a level is a match below the last node of the level above. */
  lemma AnyAbove(mask: seq<bool>, height: nat, pos: nat)
    requires height >= 1 && InTree(|mask|, height, pos) && !AnyMatch(mask, height, pos)
    ensures InTree(|mask|, height - 1, 2 * pos) && !AnyMatch(mask, height - 1, 2 * pos)
    ensures HasRight(|mask|, height, pos) ==>
      InTree(|mask|, height - 1, 2 * pos + 1) && !AnyMatch(mask, height - 1, 2 * pos + 1)
  {
    Children(|mask|, height, pos);
  }

  /** Along the right edge: no single-child node is descended into exactly when none has a match. */
  lemma {:induction false} LoneZero(mask: seq<bool>, height: nat, pos: nat)
    requires IsLast(|mask|, height, pos)
    ensures Lone(mask, height, pos) == 0 <==> NoLoneMatch(mask, height)
  {
    if height > 0 {
      Children(|mask|, height, pos);
      NoLoneStep(mask, height, pos);
      var child := if HasRight(|mask|, height, pos) then 2 * pos + 1 else 2 * pos;
      hide Start, End, Width, HasRight, NoLoneMatch;
      LoneZero(mask, height - 1, child);
      if !AnyMatch(mask, height, pos) {
        AnyAbove(mask, height, pos);
      } else {
        LoneAtMostHeight(mask, height - 1, 2 * pos);
        if HasRight(|mask|, height, pos) {
          StartBeforeEnd(|mask|, height - 1, 2 * pos + 1);
        }
      }
    }
  }
}
