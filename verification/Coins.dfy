/** Unspent outputs of one transaction (CCoins), and voiding and restoring a certificate's backward transfers. */
module Coins {
  import opened Outcomes

  datatype TxOut = Null | Out(value: int, script: nat)

  /** `firstBwt` is the position of the first backward transfer, -1 for coins of a transaction. */
  datatype Coins = Coins(
    coinbase: bool, vout: seq<TxOut>, height: int, version: int, firstBwt: int, bwtMaturity: int)

  const BLANK := Coins(false, [], 0, 0, -1, 0)

  predicate Pruned(c: Coins) {
    forall i :: 0 <= i < |c.vout| ==> c.vout[i].Null?
  }

  ghost predicate Trimmed(vout: seq<TxOut>) {
    vout == [] || !vout[|vout| - 1].Null?
  }

  /** An output list without its trailing spent outputs. */
  function Trim(vout: seq<TxOut>): (r: seq<TxOut>)
    ensures |r| <= |vout| && r == vout[..|r|] && Trimmed(r)
    ensures forall i :: |r| <= i < |vout| ==> vout[i].Null?
  {
    if vout == [] || !vout[|vout| - 1].Null? then vout
    else
      var r := Trim(vout[..|vout| - 1]);
      assert vout[..|vout| - 1][..|r|] == vout[..|r|];
      r
  }

  /** The two conditions on Trim's result pin it down. */
  lemma TrimUnique(vout: seq<TxOut>, n: nat)
    requires n <= |vout| && Trimmed(vout[..n]) && forall i :: n <= i < |vout| ==> vout[i].Null?
    ensures Trim(vout) == vout[..n]
  {
    var r := Trim(vout);
    assert n > 0 ==> vout[..n][n - 1] == vout[n - 1];
    assert |r| > 0 ==> r[|r| - 1] == vout[|r| - 1];
    assert |r| == n;
  }

  /** CCoins::Cleanup. */
  method Cleanup(vout: seq<TxOut>) returns (r: seq<TxOut>)
    ensures r == Trim(vout)
  {
    r := vout;
    while |r| > 0 && r[|r| - 1].Null?
      invariant |r| <= |vout| && r == vout[..|r|]
      invariant forall i :: |r| <= i < |vout| ==> vout[i].Null?
      decreases |r|
    {
      r := r[..|r| - 1];
    }
    TrimUnique(vout, |r|);
  }

  predicate IsAvailable(c: Coins, pos: int) {
    0 <= pos < |c.vout| && !c.vout[pos].Null?
  }

  /** CCoins::Spend. */
  function Spend(c: Coins, pos: int): Coins {
    if !IsAvailable(c, pos) then c else c.(vout := Trim(c.vout[pos := Null]))
  }

  /** CTxInUndo: the output, and the record's metadata if nothing else was left of it. */
  datatype OutUndo = OutUndo(out: TxOut, coinbase: bool, height: int, version: int, firstBwt: int, bwtMaturity: int)

  function OnlyOut(out: TxOut): OutUndo {
    OutUndo(out, false, 0, 0, -1, 0)
  }

  function WithMetadata(out: TxOut, c: Coins): OutUndo {
    OutUndo(out, c.coinbase, c.height, c.version, c.firstBwt, c.bwtMaturity)
  }

  // ---------- Voiding ----------

  /** What is left once all backward transfers are voided. */
  function Voided(c: Coins): Coins
    requires 0 <= c.firstBwt
  {
    if c.firstBwt >= |c.vout| then c else c.(vout := Trim(c.vout[..c.firstBwt]))
  }

  /** The undo entry of the i-th backward transfer; the last one carries metadata if the record becomes empty. */
  function VoidedOut(c: Coins, i: nat): OutUndo
    requires 0 <= c.firstBwt && c.firstBwt + i < |c.vout|
  {
    var out := c.vout[c.firstBwt + i];
    if c.firstBwt + i == |c.vout| - 1 && Voided(c).vout == [] then WithMetadata(out, c) else OnlyOut(out)
  }

  function VoidedUndo(c: Coins): (r: seq<OutUndo>)
    requires 0 <= c.firstBwt
    ensures |r| == if c.firstBwt >= |c.vout| then 0 else |c.vout| - c.firstBwt
    ensures forall i :: 0 <= i < |r| ==> r[i] == VoidedOut(c, i)
  {
    if c.firstBwt >= |c.vout| then []
    else seq(|c.vout| - c.firstBwt, i requires 0 <= i < |c.vout| - c.firstBwt => VoidedOut(c, i))
  }

  /** No backward transfer is left, every other output is as it was, and so is the rest of the record. */
  lemma VoidedExactly(c: Coins, i: nat)
    requires 0 <= c.firstBwt
    ensures IsAvailable(Voided(c), i) <==> i < c.firstBwt && IsAvailable(c, i)
    ensures IsAvailable(Voided(c), i) ==> Voided(c).vout[i] == c.vout[i]
    ensures Voided(c).(vout := c.vout) == c
  {
    if c.firstBwt < |c.vout| {
      var kept := c.vout[..c.firstBwt];
      var r := Trim(kept);
      assert i < |kept| ==> kept[i] == c.vout[i];
      assert i < |r| ==> r[i] == kept[i];
    }
  }

  /** Outputs from `first` up to `pos` voided, all others as they were. */
  ghost function PartlyVoided(vout: seq<TxOut>, first: nat, pos: nat): (r: seq<TxOut>)
    requires first <= pos <= |vout|
    ensures |r| == |vout|
    ensures forall i :: 0 <= i < |vout| ==> r[i] == if first <= i < pos then Null else vout[i]
  {
    seq(|vout|, i requires 0 <= i < |vout| => if first <= i < pos then Null else vout[i])
  }

  lemma VoidedIsTrim(c: Coins)
    requires 0 <= c.firstBwt < |c.vout|
    ensures Trim(PartlyVoided(c.vout, c.firstBwt, |c.vout|)) == Voided(c).vout
  {
    var all := PartlyVoided(c.vout, c.firstBwt, |c.vout|);
    var r := Trim(c.vout[..c.firstBwt]);
    assert all[..|r|] == r;
    forall i | |r| <= i < |all|
      ensures all[i].Null?
    {
      assert i < c.firstBwt ==> c.vout[..c.firstBwt][i] == c.vout[i];
    }
    TrimUnique(all, |r|);
  }

  /** Spending an output before the last leaves the list as long as it was. */
  lemma SpendMiddle(c: Coins, pos: nat)
    requires 0 <= c.firstBwt <= pos < |c.vout| - 1 && Trimmed(c.vout)
    ensures Spend(c.(vout := PartlyVoided(c.vout, c.firstBwt, pos)), pos) ==
      c.(vout := PartlyVoided(c.vout, c.firstBwt, pos + 1))
  {
    var after := PartlyVoided(c.vout, c.firstBwt, pos + 1);
    assert PartlyVoided(c.vout, c.firstBwt, pos)[pos := Null] == after;
    assert after[..|after|] == after;
    TrimUnique(after, |after|);
    assert c.vout[pos].Null? ==> PartlyVoided(c.vout, c.firstBwt, pos) == after;
  }

  /** Spending the last output takes all trailing void outputs along. */
  lemma SpendLast(c: Coins)
    requires 0 <= c.firstBwt < |c.vout| && Trimmed(c.vout)
    ensures Spend(c.(vout := PartlyVoided(c.vout, c.firstBwt, |c.vout| - 1)), |c.vout| - 1) == Voided(c)
  {
    var n := |c.vout|;
    assert PartlyVoided(c.vout, c.firstBwt, n - 1)[n - 1 := Null] == PartlyVoided(c.vout, c.firstBwt, n);
    VoidedIsTrim(c);
  }

  /** The record when the loop is at position `pos`. */
  ghost function VoidStage(c: Coins, pos: nat): Coins
    requires 0 <= c.firstBwt <= pos
  {
    if pos < |c.vout| then c.(vout := PartlyVoided(c.vout, c.firstBwt, pos)) else Voided(c)
  }

  lemma VoidStart(c: Coins)
    requires 0 <= c.firstBwt
    ensures VoidStage(c, c.firstBwt) == c
  {
    if c.firstBwt < |c.vout| {
      assert PartlyVoided(c.vout, c.firstBwt, c.firstBwt) == c.vout;
    }
  }

  lemma VoidNext(c: Coins, pos: nat)
    requires 0 <= c.firstBwt <= pos && Trimmed(c.vout)
    ensures pos < |c.vout| <==> pos < |VoidStage(c, pos).vout|
    ensures pos < |c.vout| ==>
      var out, left := c.vout[pos], VoidStage(c, pos + 1);
      && VoidStage(c, pos).vout[pos] == out && Spend(VoidStage(c, pos), pos) == left
      && VoidedUndo(c)[pos - c.firstBwt] == if |left.vout| == 0 then WithMetadata(out, left) else OnlyOut(out)
  {
    if pos + 1 < |c.vout| {
      SpendMiddle(c, pos);
    } else if pos < |c.vout| {
      SpendLast(c);
    }
    assert pos < |c.vout| ==> VoidedUndo(c)[pos - c.firstBwt] == VoidedOut(c, pos - c.firstBwt);
  }

  lemma PrefixExtends<T>(s: seq<T>, t: seq<T>)
    requires s <= t && |s| < |t|
    ensures s + [t[|s|]] <= t
  {
  }

  /** The loop of CCoinsViewCache::NullifyBackwardTransfers, over outputs that shrink while it runs. */
  method Void(c: Coins) returns (left: Coins, undo: seq<OutUndo>)
    requires 0 <= c.firstBwt && Trimmed(c.vout)
    ensures left == Voided(c) && undo == VoidedUndo(c)
  {
    hide Spend, Trim, Voided, PartlyVoided, VoidedUndo;
    left, undo := c, [];
    var pos := c.firstBwt;
    VoidStart(c);
    VoidNext(c, pos);
    while pos < |left.vout|
      invariant c.firstBwt <= pos && left == VoidStage(c, pos)
      invariant pos < |c.vout| <==> pos < |left.vout|
      invariant c.firstBwt < |c.vout| ==> pos <= |c.vout|
      invariant |undo| == if c.firstBwt >= |c.vout| then 0 else pos - c.firstBwt
      invariant undo <= VoidedUndo(c)
      decreases |c.vout| - pos
    {
      VoidNext(c, pos);
      VoidNext(c, pos + 1);
      var out := left.vout[pos];
      left := Spend(left, pos);
      var entry := if |left.vout| == 0 then WithMetadata(out, left) else OnlyOut(out);
      assert entry == VoidedUndo(c)[|undo|];
      PrefixExtends(undo, VoidedUndo(c));
      undo := undo + [entry];
      pos := pos + 1;
    }
  }

  // ---------- Restoring ----------

  /** Grows an output list with spent outputs. */
  function Resize(vout: seq<TxOut>, n: nat): seq<TxOut> {
    if |vout| >= n then vout else vout + seq(n - |vout|, _ => Null)
  }

  /** One round of CCoinsViewCache::RestoreBackwardTransfers: the record, and whether the undo data fitted. */
  function RestoreOne(c: Coins, u: OutUndo, idx: nat): (Coins, bool)
    requires u.height != 0 || c.firstBwt >= 0
    requires u.height != 0 ==> u.firstBwt >= 0
  {
    var c1 := if u.height != 0
              then c.(coinbase := u.coinbase, height := u.height, version := u.version, firstBwt := u.firstBwt,
                bwtMaturity := u.bwtMaturity)
              else c;
    var at := c1.firstBwt + idx;
    var clean := !(u.height == 0 && Pruned(c)) && !IsAvailable(c1, at);
    (c1.(vout := Resize(c1.vout, at + 1)[at := u.out]), clean)
  }

  /** Outputs from position `first + i` on restored, the backward transfers before it still void. */
  ghost function PartlyRestored(c: Coins, i: nat): Coins
    requires 0 <= c.firstBwt && c.firstBwt + i <= |c.vout|
  {
    c.(vout := PartlyVoided(c.vout, c.firstBwt, c.firstBwt + i))
  }

  /** What is left, padded with voids up to the last output, which goes back. */
  lemma Regrown(vout: seq<TxOut>, first: nat)
    requires first < |vout|
    ensures var n := |vout|; var r := Trim(vout[..first]);
      Resize(r, n)[n - 1 := vout[n - 1]] == PartlyVoided(vout, first, n - 1)
  {
    var n := |vout|;
    var r := Trim(vout[..first]);
    var grown := Resize(r, n)[n - 1 := vout[n - 1]];
    forall i | 0 <= i < n
      ensures grown[i] == PartlyVoided(vout, first, n - 1)[i]
    {
      if i < first {
        assert vout[..first][i] == vout[i];
      }
    }
  }

  lemma NotPruned(c: Coins)
    requires c.vout != [] && Trimmed(c.vout)
    ensures !Pruned(c)
  {
    assert !c.vout[|c.vout| - 1].Null?;
  }

  /** The last backward transfer goes back first, on whatever the voided record has become. */
  lemma FirstRestored(c: Coins, start: Coins)
    requires 0 <= c.firstBwt < |c.vout| && c.height != 0
    requires start == Voided(c) || (Voided(c).vout == [] && start.vout == [])
    ensures var n := |VoidedUndo(c)|; var u := VoidedUndo(c)[n - 1];
      && (u.height != 0 || start.firstBwt >= 0) && (u.height != 0 ==> u.firstBwt >= 0)
      && RestoreOne(start, u, n - 1) == (PartlyRestored(c, n - 1), true)
  {
    var n := |VoidedUndo(c)|;
    var u := VoidedUndo(c)[n - 1];
    assert u == VoidedOut(c, n - 1);
    Regrown(c.vout, c.firstBwt);
    var r := Trim(c.vout[..c.firstBwt]);
    assert start.vout == r;
    hide Trim, PartlyVoided;
    if start.vout != [] {
      NotPruned(start);
    }
  }

  lemma NextRestored(c: Coins, i: nat)
    requires 0 <= c.firstBwt && Trimmed(c.vout) && i < |VoidedUndo(c)| - 1
    ensures RestoreOne(PartlyRestored(c, i + 1), VoidedUndo(c)[i], i) == (PartlyRestored(c, i), true)
  {
    var p := PartlyRestored(c, i + 1);
    var at := c.firstBwt + i;
    assert !p.vout[|p.vout| - 1].Null?;
    assert p.vout[at := c.vout[at]] == PartlyRestored(c, i).vout;
  }

  /** The record after the entries from `i` on have been put back. */
  ghost function Stage(c: Coins, start: Coins, i: nat): Coins
    requires 0 <= c.firstBwt && i <= |VoidedUndo(c)|
  {
    if i == |VoidedUndo(c)| then start else PartlyRestored(c, i)
  }

  ghost predicate WasVoided(c: Coins, start: Coins)
    requires 0 <= c.firstBwt
  {
    start == Voided(c) || (c.firstBwt < |c.vout| && Voided(c).vout == [] && start.vout == [])
  }

  lemma StageRestored(c: Coins, start: Coins, i: nat)
    requires 0 <= c.firstBwt && Trimmed(c.vout) && c.height != 0 && WasVoided(c, start)
    requires i < |VoidedUndo(c)|
    ensures var u := VoidedUndo(c)[i];
      && (u.height != 0 || Stage(c, start, i + 1).firstBwt >= 0) && (u.height != 0 ==> u.firstBwt >= 0)
      && RestoreOne(Stage(c, start, i + 1), u, i) == (Stage(c, start, i), true)
  {
    if i + 1 == |VoidedUndo(c)| {
      FirstRestored(c, start);
    } else {
      NextRestored(c, i);
    }
  }

  /** Undo data that never indexes outputs without knowing where the backward transfers start. */
  ghost predicate Restorable(start: Coins, undo: seq<OutUndo>) {
    && (forall i :: 0 <= i < |undo| && undo[i].height != 0 ==> undo[i].firstBwt >= 0)
    && (undo != [] ==> start.firstBwt >= 0 || undo[|undo| - 1].height != 0)
  }

  /** The entries from the last down to `i` put back, and whether all of them fitted. */
  ghost function RestoredFrom(start: Coins, undo: seq<OutUndo>, i: nat): (r: (Coins, bool))
    requires i <= |undo| && Restorable(start, undo)
    ensures i < |undo| || start.firstBwt >= 0 ==> r.0.firstBwt >= 0
    decreases |undo| - i
  {
    if i == |undo| then (start, true)
    else
      var (c, clean) := RestoredFrom(start, undo, i + 1);
      var (next, fits) := RestoreOne(c, undo[i], i);
      (next, clean && fits)
  }

  /** The loop of CCoinsViewCache::RestoreBackwardTransfers, from the last entry to the first. */
  method Restore(start: Coins, undo: seq<OutUndo>) returns (restored: Coins, clean: bool)
    requires Restorable(start, undo)
    ensures (restored, clean) == RestoredFrom(start, undo, 0)
  {
    hide RestoreOne;
    restored, clean := start, true;
    var idx := |undo|;
    while idx > 0
      invariant 0 <= idx <= |undo| && (restored, clean) == RestoredFrom(start, undo, idx)
    {
      idx := idx - 1;
      var (next, fits) := RestoreOne(restored, undo[idx], idx);
      restored, clean := next, clean && fits;
    }
  }

  lemma VoidedRestorable(c: Coins, start: Coins)
    requires 0 <= c.firstBwt && WasVoided(c, start) && c.height != 0
    ensures Restorable(start, VoidedUndo(c))
  {
  }

  lemma {:induction false} StagesReached(c: Coins, start: Coins, undo: seq<OutUndo>, i: nat)
    requires 0 <= c.firstBwt && Trimmed(c.vout) && c.height != 0 && WasVoided(c, start)
    requires undo == VoidedUndo(c) && Restorable(start, undo) && i <= |undo|
    ensures RestoredFrom(start, undo, i) == (Stage(c, start, i), true)
    decreases |undo| - i
  {
    hide RestoreOne, PartlyRestored, PartlyVoided, VoidedUndo, Voided, Trim;
    if i < |undo| {
      StagesReached(c, start, undo, i + 1);
      StageRestored(c, start, i);
    }
  }

  /**
   * Restoring what voiding took away gives back the identical record, metadata included when it
   * had become empty and was forgotten, and reports clean.
   */
  lemma VoidedRestored(c: Coins, start: Coins)
    requires 0 <= c.firstBwt && Trimmed(c.vout) && c.height != 0 && WasVoided(c, start)
    ensures Restorable(start, VoidedUndo(c)) && RestoredFrom(start, VoidedUndo(c), 0) == (c, true)
  {
    VoidedRestorable(c, start);
    StagesReached(c, start, VoidedUndo(c), 0);
    if c.firstBwt < |c.vout| {
      assert PartlyVoided(c.vout, c.firstBwt, c.firstBwt) == c.vout;
    }
  }
}
