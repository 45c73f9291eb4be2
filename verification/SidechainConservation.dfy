/** Value conservation and acceptance of applicable certificates and withdrawals, for one sidechain. */
module SidechainConservation {
  import opened Outcomes
  import opened SidechainTypes
  import opened SidechainMachine
  import opened SidechainUndo

  // ---------- Applicability ----------

  /** The conditions of CCoinsViewCache::IsCertApplicableToState on the view of the block after `tip`. */
  predicate CertApplicable(s: ScState, cert: Cert, tip: int) {
    s.rec.Some? &&
    var sc := s.rec.value;
    && tip < CeasingHeight(sc)
    && (cert.epoch == sc.lastEpoch || cert.epoch == sc.lastEpoch + 1)
    && WindowStart(sc, cert.epoch) <= tip + 1 <= WindowEnd(sc, cert.epoch)
    && !(sc.lastHash != cert.hash && sc.lastEpoch == cert.epoch && sc.lastQuality >= cert.quality)
    && cert.amount <= sc.balance + (if cert.epoch == sc.lastEpoch then sc.lastBwtAmount else 0)
  }

  /**
   * A certificate that passes the applicability checks is applied, unless it repeats the recorded
   * epoch without better quality.
   */
  lemma ApplicableCertApplied(s: ScState, cert: Cert, height: int, net: Net)
    requires ValidNet(net) && MidInv(s, height, net) && ValidCert(cert)
    requires CertApplicable(s, cert, height - 1)
    ensures var sc := s.rec.value;
      ApplyCert(s, cert, net) == Rejected <==> cert.epoch == sc.lastEpoch && cert.quality <= sc.lastQuality
    ensures s.rec.value.lastHash != cert.hash ==> ApplyCert(s, cert, net).Done?
    ensures ApplyCert(s, cert, net) != AssertFailed
  {
  }

  /** Ceased withdrawals whose running total stays within the balance never run into the balance assert. */
  lemma {:induction false} CoveredWithdrawalsApplied(s: ScState, ops: seq<ScOp>, height: int, net: Net)
    requires s.rec.Some? && ValidOps(ops) && forall op :: op in ops ==> op.Withdraw?
    requires TallyOf(ops).withdrawn <= s.rec.value.balance
    ensures ApplyOps(s, ops, height, net) ==
      Done(s.(rec := Some(s.rec.value.(balance := s.rec.value.balance - TallyOf(ops).withdrawn))))
  {
    if ops != [] {
      var init, last := ops[..|ops| - 1], ops[|ops| - 1];
      assert last in ops && forall op :: op in init ==> op in ops;
      CoveredWithdrawalsApplied(s, init, height, net);
    }
  }

  // ---------- Conservation ----------

  /** What a sidechain holds: its balance and everything still maturing. */
  ghost function Holdings(s: ScState): int {
    if s.rec.None? then 0 else s.rec.value.balance + Total(s.rec.value.immature)
  }

  ghost function CertCost(s: ScState, cert: Option<Cert>): int {
    if cert.None? || s.rec.None? then 0
    else cert.value.amount - (if cert.value.epoch == s.rec.value.lastEpoch then s.rec.value.lastBwtAmount else 0)
  }

  lemma TotalNone()
    ensures Total(map[]) == 0
  {
  }

  lemma TallyConserves(s: ScState, t: Tally, height: int, net: Net)
    requires Possible(s, t) && Sound(t) && NothingDue(s.rec, height + net.maturity)
    ensures Holdings(After(s, t, t.payments > 0, height, net)) == Holdings(s) + t.paid - t.withdrawn
  {
    hide Total;
    var rec := RecordAfter(s.rec, t, t.payments > 0, height, net);
    TotalNone();
    if rec.Some? {
      var before := if s.rec.Some? then s.rec.value.immature else map[];
      assert rec.value.immature == if t.payments > 0 then before[height + net.maturity := t.paid] else before;
      TotalUpdate(before, height + net.maturity, t.paid);
    }
  }

  lemma ApplyOpsConserves(s: ScState, ops: seq<ScOp>, height: int, net: Net)
    requires ValidOps(ops) && NothingDue(s.rec, height + net.maturity)
    requires ApplyOps(s, ops, height, net).Done?
    ensures Holdings(ApplyOps(s, ops, height, net).value) == Holdings(s) + TallyOf(ops).paid - TallyOf(ops).withdrawn
  {
    ApplyOpsTally(s, ops, height, net);
    TallyConserves(s, TallyOf(ops), height, net);
  }

  lemma HandleEventsConserves(s: ScState, height: int)
    requires HandleEvents(s, height).Done?
    ensures Holdings(HandleEvents(s, height).value.0) == Holdings(s)
  {
    if height in s.maturing {
      TotalSplit(s.rec.value.immature, height);
    }
  }

  /** A block changes the holdings by what it pays in, withdraws and certifies. */
  lemma ConnectConserves(s: ScState, ops: seq<ScOp>, cert: Option<Cert>, height: int, net: Net)
    requires ValidOps(ops) && NothingDue(s.rec, height + net.maturity)
    requires Connect(s, ops, cert, height, net).Done?
    ensures
      var s1 := ApplyOps(s, ops, height, net).value;
      Holdings(Connect(s, ops, cert, height, net).value.0) ==
      Holdings(s) + TallyOf(ops).paid - TallyOf(ops).withdrawn - CertCost(s1, cert)
  {
    ApplyOpsConserves(s, ops, height, net);
    var s1 := ApplyOps(s, ops, height, net).value;
    HandleEventsConserves(if cert.Some? then ApplyCert(s1, cert.value, net).value.0 else s1, height);
  }

  // ---------- Whole runs ----------

  /** What one block holds for a sidechain. */
  datatype ScBlock = ScBlock(ops: seq<ScOp>, cert: Option<Cert>)

  ghost predicate ValidBlock(b: ScBlock) {
    ValidOps(b.ops) && (b.cert.Some? ==> ValidCert(b.cert.value))
  }

  /** The sidechain after the blocks at heights 0, 1, 2, ... */
  function Replay(blocks: seq<ScBlock>, net: Net): Outcome<ScState> {
    if blocks == [] then Done(EMPTY)
    else
      var n := |blocks| - 1;
      var s :- Replay(blocks[..n], net);
      var (s', _) :- Connect(s, blocks[n].ops, blocks[n].cert, n, net);
      Done(s')
  }

  function PaidIn(blocks: seq<ScBlock>): int {
    if blocks == [] then 0 else PaidIn(blocks[..|blocks| - 1]) + TallyOf(blocks[|blocks| - 1].ops).paid
  }

  function Withdrawn(blocks: seq<ScBlock>): int {
    if blocks == [] then 0 else Withdrawn(blocks[..|blocks| - 1]) + TallyOf(blocks[|blocks| - 1].ops).withdrawn
  }

  function Certs(blocks: seq<ScBlock>): seq<Cert> {
    if blocks == [] then []
    else
      var last := blocks[|blocks| - 1].cert;
      var before := Certs(blocks[..|blocks| - 1]);
      if last.Some? then before + [last.value] else before
  }

  /** The amounts of the certificates that were not superseded in their own epoch. */
  function FinalAmounts(certs: seq<Cert>): int {
    if certs == [] then 0
    else
      (if |certs| > 1 && certs[1].epoch == certs[0].epoch then 0 else certs[0].amount) + FinalAmounts(certs[1..])
  }

  /** A further certificate adds its amount, and takes the place of the previous one in the same epoch. */
  lemma {:induction false} FinalAmountsAppend(certs: seq<Cert>, c: Cert)
    ensures FinalAmounts(certs + [c]) == FinalAmounts(certs) + c.amount -
            (if certs != [] && certs[|certs| - 1].epoch == c.epoch then certs[|certs| - 1].amount else 0)
  {
    if certs == [] {
      assert certs + [c] == [c];
    } else {
      assert (certs + [c])[1..] == certs[1..] + [c];
      FinalAmountsAppend(certs[1..], c);
    }
  }

  /** The record remembers the last certificate of the history. */
  ghost predicate RemembersLast(s: ScState, certs: seq<Cert>) {
    if s.rec.None? then certs == []
    else if certs == [] then
      s.rec.value.lastEpoch == EPOCH_NULL && s.rec.value.lastQuality == QUALITY_NULL && s.rec.value.lastBwtAmount == 0
    else
      var c := certs[|certs| - 1];
      && s.rec.value.lastEpoch == c.epoch && s.rec.value.lastQuality == c.quality && s.rec.value.lastHash == c.hash
      && s.rec.value.lastBwtAmount == c.amount && s.rec.value.lastView == c.view
  }

  lemma ApplyOpsRemembers(s: ScState, ops: seq<ScOp>, certs: seq<Cert>, height: int, net: Net)
    requires ValidOps(ops) && NothingDue(s.rec, height + net.maturity) && RemembersLast(s, certs)
    requires ApplyOps(s, ops, height, net).Done?
    ensures RemembersLast(ApplyOps(s, ops, height, net).value, certs)
  {
    ApplyOpsTally(s, ops, height, net);
  }

  lemma ConnectRemembers(s: ScState, b: ScBlock, certs: seq<Cert>, height: int, net: Net)
    requires ValidBlock(b) && NothingDue(s.rec, height + net.maturity) && RemembersLast(s, certs)
    requires Connect(s, b.ops, b.cert, height, net).Done?
    ensures RemembersLast(Connect(s, b.ops, b.cert, height, net).value.0,
                          if b.cert.Some? then certs + [b.cert.value] else certs)
  {
    ApplyOpsRemembers(s, b.ops, certs, height, net);
  }

  /**
   * Over any run, balance plus immature amounts equal all value sent in, minus ceased
   * withdrawals, minus the final certificate amount of every epoch, and are never negative.
   */
  lemma {:induction false} Conservation(blocks: seq<ScBlock>, net: Net)
    requires ValidNet(net) && (forall b :: b in blocks ==> ValidBlock(b)) && Replay(blocks, net).Done?
    ensures
      var s := Replay(blocks, net).value;
      && Inv(s, |blocks| - 1, net)
      && RemembersLast(s, Certs(blocks))
      && Holdings(s) == PaidIn(blocks) - Withdrawn(blocks) - FinalAmounts(Certs(blocks))
      && Holdings(s) >= 0 && (s.rec.Some? ==> s.rec.value.balance >= 0)
  {
    if blocks != [] {
      var n := |blocks| - 1;
      var b := blocks[n];
      assert b in blocks && forall x :: x in blocks[..n] ==> x in blocks;
      Conservation(blocks[..n], net);
      var s := Replay(blocks[..n], net).value;
      ConnectKeepsInv(s, b.ops, b.cert, n, net);
      ConnectRemembers(s, b, Certs(blocks[..n]), n, net);
      ConservationStep(s, b, Certs(blocks[..n]), n, net);
      HoldingsNonNegative(Replay(blocks, net).value, n, net);
    }
  }

  lemma ConservationStep(s: ScState, b: ScBlock, certs: seq<Cert>, height: nat, net: Net)
    requires ValidBlock(b) && NothingDue(s.rec, height + net.maturity) && RemembersLast(s, certs)
    requires Connect(s, b.ops, b.cert, height, net).Done?
    ensures
      var certs' := if b.cert.Some? then certs + [b.cert.value] else certs;
      Holdings(Connect(s, b.ops, b.cert, height, net).value.0) + FinalAmounts(certs') ==
      Holdings(s) + FinalAmounts(certs) + TallyOf(b.ops).paid - TallyOf(b.ops).withdrawn
  {
    ConnectConserves(s, b.ops, b.cert, height, net);
    ApplyOpsRemembers(s, b.ops, certs, height, net);
    if b.cert.Some? {
      FinalAmountsAppend(certs, b.cert.value);
    }
  }

  lemma HoldingsNonNegative(s: ScState, tip: int, net: Net)
    requires Inv(s, tip, net)
    ensures Holdings(s) >= 0
  {
    if s.rec.Some? {
      TotalNonNegative(s.rec.value.immature);
    }
  }

  lemma {:induction false} TotalNonNegative(m: map<int, int>)
    requires forall k :: k in m ==> m[k] >= 0
    ensures Total(m) >= 0
    decreases |m|
  {
    if m.Keys != {} {
      var k := Pick(m.Keys);
      TotalNonNegative(m - {k});
    }
  }
}
