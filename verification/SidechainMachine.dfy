/**
 * One sidechain as a state machine.
 *
 * Every ledger operation touches the record of one sidechain and the event sets it is listed
 * in, so the ledger is a product of these machines. The event index is seen from the
 * sidechain's side here: the heights at which it matures and the heights at which it ceases.
 * Where the code looks up an event that must be there, a missing listing counts as a failed
 * assert: no reachable state runs into it.
 */
module SidechainMachine {
  import opened Outcomes
  import opened SidechainTypes

  /** Network parameters: maturity of transferred coins, look-back of the fee check. */
  datatype Net = Net(maturity: int, feeBlocks: nat)

  ghost predicate ValidNet(net: Net) {
    net.maturity > 0
  }

  datatype ScState = ScState(
    rec: Option<Sidechain>,
    maturing: set<int>,
    ceasing: set<int>,
    nullifiers: set<nat>)

  const EMPTY := ScState(None, {}, {}, {})

  /** What a transaction does to one sidechain; forward transfers and fee payments are both transfers. */
  datatype ScOp =
    | Create(value: int, tx: Hash, fixed: FixedParams, ftFee: int, mbtrFee: int)
    | Transfer(value: int)
    | Withdraw(value: int)
    | UseNullifier(nullifier: nat)
  {
    predicate Pays() {
      Create? || Transfer?
    }
  }

  /** The record set up by a creation output, before its amount is scheduled. */
  function FreshRecord(c: ScOp, height: int): Sidechain
    requires c.Create?
  {
    Sidechain(height, c.tx, NULL_VIEW, CertView(c.ftFee, c.mbtrFee, 0), NULL_HASH, EPOCH_NULL, QUALITY_NULL,
              0, 0, c.fixed, map[], [FeeData(c.ftFee, c.mbtrFee)])
  }

  /** One step of CCoinsViewCache::UpdateSidechain for a transaction. */
  function ApplyOp(s: ScState, op: ScOp, height: int, net: Net): Outcome<ScState> {
    var due := height + net.maturity;
    match op
    case Withdraw(value) =>
      if s.rec.None? then Rejected
      else if s.rec.value.balance - value < 0 then AssertFailed
      else Done(s.(rec := Some(s.rec.value.(balance := s.rec.value.balance - value))))
    case Create(value, _, _, _, _) =>
      if s.rec.Some? then Rejected
      else
        var sc := FreshRecord(op, height).(immature := map[due := value]);
        Done(s.(rec := Some(sc), maturing := s.maturing + {due}, ceasing := s.ceasing + {CeasingHeight(sc)}))
    case Transfer(value) =>
      if s.rec.None? then Rejected
      else
        var sc := s.rec.value;
        Done(s.(rec := Some(sc.(immature := sc.immature[due := Amount(sc.immature, due) + value])),
                maturing := s.maturing + {due}))
    case UseNullifier(nf) =>
      if nf in s.nullifiers then Rejected else Done(s.(nullifiers := s.nullifiers + {nf}))
  }

  function ApplyOps(s: ScState, ops: seq<ScOp>, height: int, net: Net): Outcome<ScState> {
    if ops == [] then Done(s)
    else
      var s' :- ApplyOps(s, ops[..|ops| - 1], height, net);
      ApplyOp(s', ops[|ops| - 1], height, net)
  }

  /** CCoinsViewCache::DecrementImmatureAmount. */
  function Decrement(immature: map<int, int>, due: int, value: int): Outcome<map<int, int>> {
    if due !in immature || immature[due] < value then Rejected
    else if immature[due] == value then Done(immature - {due})
    else Done(immature[due := immature[due] - value])
  }

  /** One step of CCoinsViewCache::RevertTxOutputs. */
  function RevertOp(s: ScState, op: ScOp, height: int, net: Net): Outcome<ScState> {
    var due := height + net.maturity;
    match op
    case Withdraw(value) =>
      if s.rec.None? then Rejected
      else Done(s.(rec := Some(s.rec.value.(balance := s.rec.value.balance + value))))
    case Create(value, _, _, _, _) =>
      if s.rec.None? then Rejected
      else
        var sc := s.rec.value;
        var _ :- Decrement(sc.immature, due, value);
        if sc.balance > 0 then Rejected
        else if CeasingHeight(sc) !in s.ceasing then AssertFailed
        else Done(s.(rec := None, maturing := s.maturing - {due}, ceasing := s.ceasing - {CeasingHeight(sc)}))
    case Transfer(value) =>
      if s.rec.None? then Rejected
      else
        var immature :- Decrement(s.rec.value.immature, due, value);
        Done(s.(rec := Some(s.rec.value.(immature := immature)), maturing := s.maturing - {due}))
    case UseNullifier(nf) =>
      if nf !in s.nullifiers then Rejected else Done(s.(nullifiers := s.nullifiers - {nf}))
  }

  function RevertOps(s: ScState, ops: seq<ScOp>, height: int, net: Net): Outcome<ScState> {
    if ops == [] then Done(s)
    else
      var s' :- RevertOps(s, ops[..|ops| - 1], height, net);
      RevertOp(s', ops[|ops| - 1], height, net)
  }

  datatype Cert = Cert(hash: Hash, epoch: int, quality: int, amount: int, view: CertView)

  /** The part of CSidechainUndoData that a certificate fills in. */
  datatype CertUndo = CertUndo(
    prevHash: Hash, prevEpoch: int, prevQuality: int, prevBwtAmount: int, lastView: CertView,
    crossEpoch: Option<(CertView, seq<FeeData>)>)

  /** The record part of CCoinsViewCache::UpdateSidechain for the top quality certificate of a block. */
  function Certify(sc: Sidechain, cert: Cert, net: Net): Outcome<(Sidechain, CertUndo)> {
    if cert.epoch != sc.lastEpoch && cert.epoch != sc.lastEpoch + 1 then Rejected
    else if cert.epoch == sc.lastEpoch && cert.quality <= sc.lastQuality then Rejected
    else if sc.fixed.epochLength <= 0 then AssertFailed
    else
      var newEpoch := cert.epoch == sc.lastEpoch + 1;
      var funds := if newEpoch then sc.balance else sc.balance + sc.lastBwtAmount;
      if funds < cert.amount then Rejected
      else
        var undo := CertUndo(sc.lastHash, sc.lastEpoch, sc.lastQuality, sc.lastBwtAmount, sc.lastView,
                             if newEpoch then Some((sc.pastView, sc.fees)) else None);
        var fees := PushFee(sc.fees, FeeData(sc.lastView.ftFee, sc.lastView.mbtrFee),
                            MaxFees(net.feeBlocks, sc.fixed.epochLength));
        Done((sc.(
                pastView := if newEpoch then sc.lastView else sc.pastView,
                fees := if newEpoch then fees else sc.fees,
                balance := funds - cert.amount,
                lastHash := cert.hash, lastEpoch := cert.epoch, lastQuality := cert.quality,
                lastBwtAmount := cert.amount, lastView := cert.view),
              undo))
  }

  /** The record part of CCoinsViewCache::RestoreSidechain. */
  function Uncertify(sc: Sidechain, cert: Cert, undo: CertUndo): Outcome<Sidechain> {
    if cert.hash != sc.lastHash then AssertFailed
    else if cert.epoch != undo.prevEpoch + 1 && cert.epoch != undo.prevEpoch then Rejected
    else
      var newEpoch := cert.epoch == undo.prevEpoch + 1;
      if newEpoch && undo.crossEpoch.None? then AssertFailed
      else if !newEpoch && cert.quality <= undo.prevQuality then AssertFailed
      else
        Done(sc.(
               balance := sc.balance + cert.amount - (if newEpoch then 0 else undo.prevBwtAmount),
               pastView := if newEpoch then undo.crossEpoch.value.0 else sc.pastView,
               fees := if newEpoch then undo.crossEpoch.value.1 else sc.fees,
               lastHash := undo.prevHash, lastEpoch := undo.prevEpoch, lastQuality := undo.prevQuality,
               lastBwtAmount := undo.prevBwtAmount, lastView := undo.lastView))
  }

  /** CCoinsViewCache::UpdateSidechain for a certificate: the first one of an epoch moves the ceasing height. */
  function ApplyCert(s: ScState, cert: Cert, net: Net): Outcome<(ScState, CertUndo)> {
    if s.rec.None? then Rejected
    else
      var (sc, undo) :- Certify(s.rec.value, cert, net);
      if cert.epoch == undo.prevEpoch then Done((s.(rec := Some(sc)), undo))
      else if CeasingHeight(s.rec.value) !in s.ceasing then AssertFailed
      else Done((s.(rec := Some(sc), ceasing := s.ceasing - {CeasingHeight(s.rec.value)} + {CeasingHeight(sc)}), undo))
  }

  /** CCoinsViewCache::RestoreSidechain. */
  function RevertCert(s: ScState, cert: Cert, undo: CertUndo): Outcome<ScState> {
    if s.rec.None? then Rejected
    else
      var sc :- Uncertify(s.rec.value, cert, undo);
      if cert.epoch == undo.prevEpoch then Done(s.(rec := Some(sc)))
      else if CeasingHeight(s.rec.value) !in s.ceasing then AssertFailed
      else Done(s.(rec := Some(sc), ceasing := s.ceasing - {CeasingHeight(s.rec.value)} + {CeasingHeight(sc)}))
  }

  /** The part of CSidechainUndoData that the events of a block fill in. */
  datatype EventUndo = EventUndo(matured: Option<int>, ceased: bool)

  /** An immature amount moves into the balance. */
  function Mature(sc: Sidechain, height: int): Sidechain
    requires height in sc.immature
  {
    sc.(balance := sc.balance + sc.immature[height], immature := sc.immature - {height})
  }

  /** The amount moves back; the undo code leaves a zero amount alone. */
  function Unmature(sc: Sidechain, height: int, amount: int): Sidechain {
    if amount > 0
    then sc.(balance := sc.balance - amount, immature := sc.immature[height := Amount(sc.immature, height) + amount])
    else sc
  }

  /** CCoinsViewCache::HandleSidechainEvents, for one sidechain. */
  function HandleEvents(s: ScState, height: int): Outcome<(ScState, EventUndo)> {
    if height in s.maturing && (s.rec.None? || height !in s.rec.value.immature) then AssertFailed
    else if height in s.ceasing
      && (s.rec.None? || (s.rec.value.lastEpoch == EPOCH_NULL && s.rec.value.lastHash != NULL_HASH))
      then AssertFailed
    else
      var undo := EventUndo(if height in s.maturing then Some(s.rec.value.immature[height])
        else None, height in s.ceasing);
      var rec := if height in s.maturing then Some(Mature(s.rec.value, height)) else s.rec;
      Done((s.(rec := rec, maturing := s.maturing - {height}, ceasing := s.ceasing - {height}), undo))
  }

  /** CCoinsViewCache::RevertSidechainEvents, for one sidechain. */
  function RevertEvents(s: ScState, undo: EventUndo, height: int): Outcome<ScState> {
    if height in s.maturing || height in s.ceasing then Rejected
    else if undo.matured.Some? && (s.rec.None? || (undo.matured.value > 0 && s.rec.value.balance < undo.matured.value))
      then Rejected
    else if undo.ceased && s.rec.None? then AssertFailed
    else
      Done(s.(rec := if undo.matured.Some? then Some(Unmature(s.rec.value, height, undo.matured.value)) else s.rec,
              maturing := if undo.matured.Some? then s.maturing + {height} else s.maturing,
              ceasing := if undo.ceased then s.ceasing + {height} else s.ceasing))
  }

  datatype ScUndo = ScUndo(cert: Option<CertUndo>, events: EventUndo)

  /** A whole block seen by one sidechain: transactions, then its certificate, then the events of the height. */
  function Connect(s: ScState, ops: seq<ScOp>, cert: Option<Cert>, height: int, net: Net): Outcome<(ScState, ScUndo)> {
    var s1 :- ApplyOps(s, ops, height, net);
    if cert.None? then
      var (s3, events) :- HandleEvents(s1, height);
      Done((s3, ScUndo(None, events)))
    else
      var (s2, certUndo) :- ApplyCert(s1, cert.value, net);
      var (s3, events) :- HandleEvents(s2, height);
      Done((s3, ScUndo(Some(certUndo), events)))
  }

  // ---------- Invariant: the event index agrees with the record ----------

  /**
   * The event index agrees with the record: the sidechain is listed as maturing exactly at the
   * keys of its immature amounts, all between `from` and `to`, and as ceasing exactly at its
   * scheduled height as long as that is not before `from`.
   */
  ghost predicate Agrees(s: ScState, created: int, from: int, to: int) {
    match s.rec
    case None => s.maturing == {} && s.ceasing == {}
    case Some(sc) =>
      && 0 <= sc.creationHeight <= created
      && sc.fixed.epochLength > 0
      && sc.lastEpoch >= EPOCH_NULL
      && (sc.lastEpoch == EPOCH_NULL ==> sc.lastHash == NULL_HASH)
      && sc.balance >= 0 && sc.lastBwtAmount >= 0
      && (forall h :: h in sc.immature ==> from <= h <= to && sc.immature[h] >= 0)
      && s.maturing == sc.immature.Keys
      && s.ceasing == (if CeasingHeight(sc) >= from then {CeasingHeight(sc)} else {})
  }

  /** What holds between blocks, once all blocks up to `tip` are connected. */
  ghost predicate Inv(s: ScState, tip: int, net: Net) {
    Agrees(s, tip, tip + 1, tip + net.maturity)
  }

  /** What holds inside the block at `height`. */
  ghost predicate MidInv(s: ScState, height: int, net: Net) {
    Agrees(s, height, height, height + net.maturity)
  }

  ghost predicate ValidOps(ops: seq<ScOp>) {
    forall op :: op in ops ==> ValidOp(op)
  }

  /** Amount ranges enforced on transactions; only fee payments may be zero. */
  ghost predicate ValidOp(op: ScOp) {
    match op
    case Create(value, _, fixed, _, _) => value > 0 && fixed.epochLength > 0
    case Transfer(value) => value >= 0
    case Withdraw(value) => value >= 0
    case UseNullifier(_) => true
  }

  ghost predicate ValidCert(cert: Cert) {
    cert.hash != NULL_HASH && cert.epoch >= 0 && cert.quality >= 0 && cert.amount >= 0
  }

  lemma ApplyOpKeepsMidInv(s: ScState, op: ScOp, height: int, net: Net)
    requires ValidNet(net) && height >= 0 && ValidOp(op) && MidInv(s, height, net)
    requires ApplyOp(s, op, height, net).Done?
    ensures MidInv(ApplyOp(s, op, height, net).value, height, net)
  {
    var s' := ApplyOp(s, op, height, net).value;
    if op.Create? {
      assert CeasingHeight(s'.rec.value) == height + op.fixed.epochLength + WindowLength(op.fixed) - 1 by {
        assert (EPOCH_NULL + 2) * op.fixed.epochLength == op.fixed.epochLength;
      }
    }
  }

  lemma {:induction false} ApplyOpsKeepsMidInv(s: ScState, ops: seq<ScOp>, height: int, net: Net)
    requires ValidNet(net) && height >= 0 && ValidOps(ops) && MidInv(s, height, net)
    requires ApplyOps(s, ops, height, net).Done?
    ensures MidInv(ApplyOps(s, ops, height, net).value, height, net)
  {
    if ops != [] {
      ApplyOpsKeepsMidInv(s, ops[..|ops| - 1], height, net);
      ApplyOpKeepsMidInv(ApplyOps(s, ops[..|ops| - 1], height, net).value, ops[|ops| - 1], height, net);
    }
  }

  lemma ApplyCertKeepsMidInv(s: ScState, cert: Cert, height: int, net: Net)
    requires ValidNet(net) && MidInv(s, height, net) && ValidCert(cert)
    requires ApplyCert(s, cert, net).Done?
    ensures MidInv(ApplyCert(s, cert, net).value.0, height, net)
  {
    var sc := s.rec.value;
    var sc' := ApplyCert(s, cert, net).value.0.rec.value;
    if cert.epoch == sc.lastEpoch + 1 {
      NextEpochCeasesLater(sc, sc');
    }
  }

  /** The asserts in event handling hold, and handling the events of a height restores the invariant at it. */
  lemma HandleEventsSafe(s: ScState, height: int, net: Net)
    requires ValidNet(net) && MidInv(s, height, net)
    ensures HandleEvents(s, height).Done?
    ensures Inv(HandleEvents(s, height).value.0, height, net)
  {
  }

  /** Connecting a block keeps the event index in agreement with the record. */
  lemma ConnectKeepsInv(s: ScState, ops: seq<ScOp>, cert: Option<Cert>, height: int, net: Net)
    requires ValidNet(net) && height >= 0 && ValidOps(ops) && (cert.Some? ==> ValidCert(cert.value))
    requires Inv(s, height - 1, net)
    requires Connect(s, ops, cert, height, net).Done?
    ensures Inv(Connect(s, ops, cert, height, net).value.0, height, net)
  {
    ApplyOpsKeepsMidInv(s, ops, height, net);
    var s1 := ApplyOps(s, ops, height, net).value;
    if cert.None? {
      HandleEventsSafe(s1, height, net);
    } else {
      ApplyCertKeepsMidInv(s1, cert.value, height, net);
      HandleEventsSafe(ApplyCert(s1, cert.value, net).value.0, height, net);
    }
  }
}
