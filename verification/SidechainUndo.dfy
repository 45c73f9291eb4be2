/**
 * Undoing a block, for one sidechain: events, certificate and transactions are reverted with
 * the recorded undo data, and the state comes back exactly when a condition on the block holds.
 */
module SidechainUndo {
  import opened Outcomes
  import opened SidechainTypes
  import opened SidechainMachine

  // ---------- The events and the certificate of a block ----------

  /** Undoing the events of a block restores the state exactly when no zero amount has matured in it. */
  lemma EventsUndone(s: ScState, height: int, net: Net)
    requires ValidNet(net) && MidInv(s, height, net)
    ensures HandleEvents(s, height).Done?
    ensures
      var (s', undo) := HandleEvents(s, height).value;
      RevertEvents(s', undo, height) ==
      Done(if height in s.maturing && s.rec.value.immature[height] == 0
           then s.(rec := Some(s.rec.value.(immature := s.rec.value.immature - {height})))
           else s)
  {
    var (s', undo) := HandleEvents(s, height).value;
    assert height in s.ceasing ==> s'.ceasing + {height} == s.ceasing;
    assert height !in s.ceasing ==> s'.ceasing == s.ceasing;
    if height in s.maturing {
      var sc := s.rec.value;
      assert s'.maturing + {height} == s.maturing;
      assert (sc.immature - {height})[height := sc.immature[height]] == sc.immature;
    } else {
      assert s'.maturing == s.maturing;
    }
  }

  /** Undoing a certificate restores the state. */
  lemma CertUndone(s: ScState, cert: Cert, height: int, net: Net)
    requires ValidNet(net) && MidInv(s, height, net) && ValidCert(cert)
    requires ApplyCert(s, cert, net).Done?
    ensures
      var (s', undo) := ApplyCert(s, cert, net).value;
      RevertCert(s', cert, undo) == Done(s)
  {
    var sc := s.rec.value;
    var (s', undo) := ApplyCert(s, cert, net).value;
    if cert.epoch == sc.lastEpoch + 1 {
      NextEpochCeasesLater(sc, s'.rec.value);
      assert s'.ceasing - {CeasingHeight(s'.rec.value)} + {CeasingHeight(sc)} == s.ceasing;
    }
  }

  // ---------- The transactions of a block ----------

  /** What a list of operations adds up to. */
  datatype Tally = Tally(
    payments: nat, paid: int, withdrawals: nat, withdrawn: int,
    nullifierCount: nat, nullifiers: set<nat>, created: seq<ScOp>)

  function TallyOp(op: ScOp): Tally {
    match op
    case Create(value, _, _, _, _) => Tally(1, value, 0, 0, 0, {}, [op])
    case Transfer(value) => Tally(1, value, 0, 0, 0, {}, [])
    case Withdraw(value) => Tally(0, 0, 1, value, 0, {}, [])
    case UseNullifier(nf) => Tally(0, 0, 0, 0, 1, {nf}, [])
  }

  function Plus(a: Tally, b: Tally): Tally {
    Tally(a.payments + b.payments, a.paid + b.paid,
          a.withdrawals + b.withdrawals, a.withdrawn + b.withdrawn,
          a.nullifierCount + b.nullifierCount, a.nullifiers + b.nullifiers, a.created + b.created)
  }

  const NOTHING := Tally(0, 0, 0, 0, 0, {}, [])

  ghost predicate Sound(t: Tally) {
    && (t.payments == 0 ==> t.paid == 0)
    && (t.withdrawals == 0 ==> t.withdrawn == 0)
    && |t.nullifiers| <= t.nullifierCount
  }

  function TallyOf(ops: seq<ScOp>): (t: Tally)
    ensures Sound(t)
  {
    if ops == [] then NOTHING else Plus(TallyOf(ops[..|ops| - 1]), TallyOp(ops[|ops| - 1]))
  }

  lemma PlusAssociative(a: Tally, b: Tally, c: Tally)
    ensures Plus(Plus(a, b), c) == Plus(a, Plus(b, c))
  {
    assert a.nullifiers + b.nullifiers + c.nullifiers == a.nullifiers + (b.nullifiers + c.nullifiers);
    assert a.created + b.created + c.created == a.created + (b.created + c.created);
  }

  lemma {:induction false} TallyConcat(a: seq<ScOp>, b: seq<ScOp>)
    ensures TallyOf(a + b) == Plus(TallyOf(a), TallyOf(b))
  {
    if b == [] {
      assert a + b == a;
      assert TallyOf(a).nullifiers + {} == TallyOf(a).nullifiers;
    } else {
      var init, last := b[..|b| - 1], b[|b| - 1];
      assert (a + b)[..|a + b| - 1] == a + init;
      TallyConcat(a, init);
      PlusAssociative(TallyOf(a), TallyOf(init), TallyOp(last));
    }
  }

  /** The first operation split off. */
  lemma TallyHead(ops: seq<ScOp>)
    requires ops != []
    ensures TallyOf(ops) == Plus(TallyOp(ops[0]), TallyOf(ops[1..]))
  {
    assert ops == ops[..1] + ops[1..] && ops[..1] == [ops[0]];
    TallyConcat(ops[..1], ops[1..]);
    assert {} + TallyOp(ops[0]).nullifiers == TallyOp(ops[0]).nullifiers;
    assert TallyOf([ops[0]]) == Plus(NOTHING, TallyOp(ops[0])) == TallyOp(ops[0]);
  }

  lemma {:induction false} TallyNonNegative(ops: seq<ScOp>)
    requires ValidOps(ops)
    ensures TallyOf(ops).paid >= 0 && TallyOf(ops).withdrawn >= 0
    ensures TallyOf(ops).payments == 0 ==> TallyOf(ops).paid == 0
  {
    if ops != [] {
      var init, last := ops[..|ops| - 1], ops[|ops| - 1];
      assert last in ops;
      assert forall op :: op in init ==> op in ops;
      TallyNonNegative(init);
    }
  }

  /** The record a sidechain has after `t`, its amount due at `due` present or not. */
  ghost function RecordAfter(rec: Option<Sidechain>, t: Tally, present: bool, height: int, net: Net): Option<Sidechain>
    requires forall op :: op in t.created ==> op.Create?
  {
    var start := if rec.Some? then rec else if t.created != [] then Some(FreshRecord(t.created[0], height)) else None;
    if start.None? then None
    else
      var due := height + net.maturity;
      var sc := start.value;
      Some(sc.(balance := sc.balance - t.withdrawn,
               immature := if present then sc.immature[due := t.paid] else sc.immature))
  }

  /** The state after operations that add up to `t`, whatever their order. */
  ghost function After(s: ScState, t: Tally, present: bool, height: int, net: Net): ScState
    requires forall op :: op in t.created ==> op.Create?
  {
    ScState(
      RecordAfter(s.rec, t, present, height, net),
      if t.payments > 0 then s.maturing + {height + net.maturity} else s.maturing,
      if t.created != [] then s.ceasing + {CeasingHeight(FreshRecord(t.created[0], height))} else s.ceasing,
      s.nullifiers + t.nullifiers)
  }

  /** No earlier block pays at the height this block's amounts are due. */
  ghost predicate NothingDue(rec: Option<Sidechain>, due: int) {
    rec.Some? ==> due !in rec.value.immature
  }

  /** A tally that operations accepted from `s` can have. */
  ghost predicate Possible(s: ScState, t: Tally) {
    && |t.created| <= 1 && (t.created != [] ==> s.rec.None?)
    && (forall op :: op in t.created ==> op.Create?)
    && (s.rec.None? && t.created == [] ==> t.payments == 0 && t.withdrawals == 0)
    && |t.nullifiers| == t.nullifierCount && t.nullifiers !! s.nullifiers
  }

  /** Operations that do not touch the amount due leave that part of the tally alone. */
  lemma TallyOfOthers(t: Tally, op: ScOp)
    requires !op.Create?
    ensures Plus(t, TallyOp(op)).created == t.created
    ensures !op.UseNullifier? ==> Plus(t, TallyOp(op)).nullifiers == t.nullifiers
  {
  }

  lemma ApplyTransferTally(s: ScState, t: Tally, op: ScOp, height: int, net: Net)
    requires op.Transfer? && NothingDue(s.rec, height + net.maturity) && Possible(s, t) && Sound(t)
    requires ApplyOp(After(s, t, t.payments > 0, height, net), op, height, net).Done?
    ensures var t' := Plus(t, TallyOp(op));
      Possible(s, t') && ApplyOp(After(s, t, t.payments > 0, height, net), op, height, net).value ==
        After(s, t', true, height, net)
  {
    TallyOfOthers(t, op);
    var due := height + net.maturity;
    var s2 := ApplyOp(After(s, t, t.payments > 0, height, net), op, height, net).value;
    var before := if s.rec.Some? then s.rec.value.immature else map[];
    assert due !in before;
    assert s2.rec.value.immature == before[due := t.paid + op.value];
    assert s2.maturing == s.maturing + {due};
  }

  lemma ApplyCreateTally(s: ScState, t: Tally, op: ScOp, height: int, net: Net)
    requires op.Create? && Possible(s, t) && Sound(t)
    requires ApplyOp(After(s, t, t.payments > 0, height, net), op, height, net).Done?
    ensures var t' := Plus(t, TallyOp(op));
      Possible(s, t') && ApplyOp(After(s, t, t.payments > 0, height, net), op, height, net).value ==
        After(s, t', true, height, net)
  {
    assert t.created == [] && Plus(t, TallyOp(op)).created == [op];
    assert t.nullifiers + {} == t.nullifiers;
  }

  /** Nullifiers do not touch the record. */
  lemma SameRecord(rec: Option<Sidechain>, t: Tally, w: Tally, present: bool, height: int, net: Net)
    requires t.created == w.created && t.withdrawn == w.withdrawn && t.paid == w.paid
    requires forall op :: op in t.created ==> op.Create?
    ensures RecordAfter(rec, t, present, height, net) == RecordAfter(rec, w, present, height, net)
  {
  }

  lemma AddNullifier(spent: set<nat>, t: set<nat>, nf: nat)
    requires nf !in spent + t
    ensures spent + t + {nf} == spent + (t + {nf}) && |t + {nf}| == |t| + 1
  {
  }

  lemma TakeNullifier(spent: set<nat>, w: set<nat>, nf: nat, n: nat)
    requires |{nf} + w| == n + 1 && |w| <= n && ({nf} + w) !! spent
    ensures nf !in w && |w| == n && w !! spent && spent + ({nf} + w) - {nf} == spent + w
  {
    assert nf in w ==> {nf} + w == w;
    assert |{nf} + w| == 1 + |w|;
  }

  lemma ApplyWithdrawTally(s: ScState, t: Tally, op: ScOp, height: int, net: Net)
    requires op.Withdraw? && Possible(s, t)
    requires ApplyOp(After(s, t, t.payments > 0, height, net), op, height, net).Done?
    ensures var t' := Plus(t, TallyOp(op));
      Possible(s, t') && ApplyOp(After(s, t, t.payments > 0, height, net), op, height, net).value ==
        After(s, t', t.payments > 0, height, net)
  {
    TallyOfOthers(t, op);
  }

  lemma ApplyNullifierTally(s: ScState, t: Tally, op: ScOp, height: int, net: Net)
    requires op.UseNullifier? && Possible(s, t)
    requires ApplyOp(After(s, t, t.payments > 0, height, net), op, height, net).Done?
    ensures var t' := Plus(t, TallyOp(op));
      Possible(s, t') && ApplyOp(After(s, t, t.payments > 0, height, net), op, height, net).value ==
        After(s, t', t.payments > 0, height, net)
  {
    var t' := Plus(t, TallyOp(op));
    TallyOfOthers(t, op);
    AddNullifier(s.nullifiers, t.nullifiers, op.nullifier);
    SameRecord(s.rec, t, t', t.payments > 0, height, net);
    hide RecordAfter;
    assert ApplyOp(After(s, t, t.payments > 0, height, net), op, height, net).value ==
      After(s, t', t.payments > 0, height, net);
  }

  lemma ApplyOpTally(s: ScState, t: Tally, op: ScOp, height: int, net: Net)
    requires ValidOp(op) && NothingDue(s.rec, height + net.maturity) && Possible(s, t) && Sound(t)
    requires ApplyOp(After(s, t, t.payments > 0, height, net), op, height, net).Done?
    ensures var t' := Plus(t, TallyOp(op));
      && Possible(s, t')
      && ApplyOp(After(s, t, t.payments > 0, height, net), op, height, net).value ==
        After(s, t', t'.payments > 0, height, net)
  {
    hide After, RecordAfter, ApplyOp;
    match op
    case Transfer(_) =>
      ApplyTransferTally(s, t, op, height, net);
    case Withdraw(_) =>
      ApplyWithdrawTally(s, t, op, height, net);
    case Create(_, _, _, _, _) =>
      ApplyCreateTally(s, t, op, height, net);
    case UseNullifier(nf) =>
      ApplyNullifierTally(s, t, op, height, net);
  }

  /** Operations that all went through: only their tally matters. */
  lemma {:induction false} ApplyOpsTally(s: ScState, ops: seq<ScOp>, height: int, net: Net)
    requires ValidOps(ops) && NothingDue(s.rec, height + net.maturity)
    requires ApplyOps(s, ops, height, net).Done?
    ensures var t := TallyOf(ops);
      Possible(s, t) && ApplyOps(s, ops, height, net).value == After(s, t, t.payments > 0, height, net)
  {
    if ops == [] {
      assert s.nullifiers + {} == s.nullifiers;
    } else {
      var init, last := ops[..|ops| - 1], ops[|ops| - 1];
      assert last in ops && forall op :: op in init ==> op in ops;
      ApplyOpsTally(s, init, height, net);
      ApplyOpTally(s, TallyOf(init), last, height, net);
    }
  }

  /** A state up to its listing at `due`, which the undo code drops at the first payment it reverts. */
  ghost function Rest(s: ScState, due: int): ScState {
    s.(maturing := s.maturing - {due})
  }

  lemma RevertWithdrawTally(s: ScState, cur: ScState, op: ScOp, w: Tally, present: bool, height: int, net: Net)
    requires var t := Plus(TallyOp(op), w); var due := height + net.maturity;
      && op.Withdraw? && Possible(s, t) && (present ==> t.payments > 0)
      && Rest(cur, due) == Rest(After(s, t, present, height, net), due)
    ensures var due := height + net.maturity; var r := RevertOp(cur, op, height, net);
      && Possible(s, w) && r.Done? && r.value.maturing == cur.maturing
      && Rest(r.value, due) == Rest(After(s, w, present, height, net), due)
  {
    var t := Plus(TallyOp(op), w);
    assert t.created == w.created && t.nullifiers == w.nullifiers;
  }

  lemma RevertNullifierTally(s: ScState, cur: ScState, op: ScOp, w: Tally, present: bool, height: int, net: Net)
    requires var t := Plus(TallyOp(op), w); var due := height + net.maturity;
      && op.UseNullifier? && Possible(s, t) && Sound(w)
      && Rest(cur, due) == Rest(After(s, t, present, height, net), due)
    ensures var due := height + net.maturity; var r := RevertOp(cur, op, height, net);
      && Possible(s, w) && r.Done? && r.value.maturing == cur.maturing
      && Rest(r.value, due) == Rest(After(s, w, present, height, net), due)
  {
    var t, due := Plus(TallyOp(op), w), height + net.maturity;
    assert t.created == w.created && t.nullifiers == {op.nullifier} + w.nullifiers;
    TakeNullifier(s.nullifiers, w.nullifiers, op.nullifier, w.nullifierCount);
    SameRecord(s.rec, t, w, present, height, net);
    hide RecordAfter;
    var r := RevertOp(cur, op, height, net);
    assert Rest(r.value, due) == Rest(After(s, w, present, height, net), due);
  }

  lemma TransferPossible(s: ScState, op: ScOp, w: Tally)
    requires op.Transfer? && Possible(s, Plus(TallyOp(op), w))
    ensures var t := Plus(TallyOp(op), w); t.created == w.created && t.nullifiers == w.nullifiers && Possible(s, w)
  {
    var t := Plus(TallyOp(op), w);
    assert t.created == w.created && t.nullifiers == w.nullifiers;
  }

  /** One undo step from a state that adds up to `op` and `w`. */
  lemma RevertOpTally(s: ScState, cur: ScState, op: ScOp, w: Tally, present: bool, height: int, net: Net)
    requires var t := Plus(TallyOp(op), w); var due := height + net.maturity;
      && ValidOp(op) && NothingDue(s.rec, due) && Possible(s, t)
      && (s.rec.None? ==> s.ceasing == {})
      && w.paid >= 0 && Sound(w)
      && (op.Create? ==> w == NOTHING)
      && (present ==> t.payments > 0)
      && Rest(cur, due) == Rest(After(s, t, present, height, net), due)
    ensures var due := height + net.maturity; var r := RevertOp(cur, op, height, net);
      if op.Pays() && !present then r == Rejected
      else
        && Possible(s, w)
        && r.Done?
        && (op.Pays() ==> due !in r.value.maturing)
        && (!op.Pays() ==> r.value.maturing == cur.maturing)
        && Rest(r.value, due) == Rest(After(s, w, if op.Pays() then w.paid > 0 else present, height, net), due)
  {
    match op
    case Withdraw(_) =>
      hide After, RecordAfter, RevertOp;
      RevertWithdrawTally(s, cur, op, w, present, height, net);
    case UseNullifier(nf) =>
      hide After, RecordAfter, RevertOp;
      RevertNullifierTally(s, cur, op, w, present, height, net);
    case Transfer(value) =>
      hide After, RecordAfter, RevertOp;
      TransferPossible(s, op, w);
      RevertTransferTally(s, cur, op, w, present, height, net);
    case Create(_, _, _, _, _) =>
      hide After, RecordAfter, RevertOp;
      RevertCreateTally(s, cur, op, present, height, net);
  }

  lemma RevertCreateTally(s: ScState, cur: ScState, op: ScOp, present: bool, height: int, net: Net)
    requires var t := Plus(TallyOp(op), NOTHING); var due := height + net.maturity;
      && op.Create? && ValidOp(op) && Possible(s, t) && s.ceasing == {}
      && Rest(cur, due) == Rest(After(s, t, present, height, net), due)
    ensures var due := height + net.maturity; var r := RevertOp(cur, op, height, net);
      if !present then r == Rejected
      else
        && r.Done? && due !in r.value.maturing
        && Rest(r.value, due) == Rest(After(s, NOTHING, false, height, net), due)
  {
    var t := Plus(TallyOp(op), NOTHING);
    assert t.created == [op] && t.nullifiers == {};
    assert s.nullifiers + {} == s.nullifiers;
    assert cur.ceasing == {CeasingHeight(FreshRecord(op, height))};
  }

  lemma RevertTransferTally(s: ScState, cur: ScState, op: ScOp, w: Tally, present: bool, height: int, net: Net)
    requires var t := Plus(TallyOp(op), w); var due := height + net.maturity;
      && op.Transfer? && NothingDue(s.rec, due) && Possible(s, t)
      && t.created == w.created && t.nullifiers == w.nullifiers
      && w.paid >= 0
      && Rest(cur, due) == Rest(After(s, t, present, height, net), due)
    ensures var due := height + net.maturity; var r := RevertOp(cur, op, height, net);
      if !present then r == Rejected
      else r.Done? && due !in r.value.maturing && Rest(r.value, due) == Rest(After(s, w, w.paid > 0, height, net), due)
  {
    var due := height + net.maturity;
    var before := if s.rec.Some? then s.rec.value.immature else map[];
    assert due !in before;
    if present {
      var r := RevertOp(cur, op, height, net);
      assert before[due := op.value + w.paid] - {due} == before;
      assert r.value.rec.value.immature == if w.paid > 0 then before[due := w.paid] else before;
      assert cur.maturing - {due} - {due} == cur.maturing - {due};
    }
  }

  /** The undo code stops where an amount has run out although a (zero) payment is still to be reverted. */
  ghost predicate BlocksAt(ops: seq<ScOp>, k: nat)
    requires k < |ops|
  {
    ops[k].Pays() && TallyOf(ops[..k]).payments > 0 && TallyOf(ops[k..]).paid == 0
  }

  ghost predicate Blocked(ops: seq<ScOp>, i: nat)
    requires i <= |ops|
  {
    exists k :: 0 <= k < i && BlocksAt(ops, k)
  }

  /** Whether the amount due is still recorded after `i` undo steps. */
  ghost predicate StillDue(ops: seq<ScOp>, i: nat)
    requires i <= |ops|
  {
    if TallyOf(ops[..i]).payments == 0 then TallyOf(ops).payments > 0 else TallyOf(ops[i..]).paid > 0
  }

  /** A sidechain's creation is the last thing of it to be undone. */
  ghost predicate CreationLast(ops: seq<ScOp>) {
    forall i :: 0 <= i < |ops| && ops[i].Create? ==> i == |ops| - 1
  }

  ghost predicate Undoable(s: ScState, ops: seq<ScOp>, due: int) {
    && ValidOps(ops) && CreationLast(ops)
    && NothingDue(s.rec, due) && (s.rec.None? ==> s.ceasing == {})
    && Possible(s, TallyOf(ops))
  }

  /** What `i` steps of undoing leave. */
  ghost predicate Unwound(s: ScState, ops: seq<ScOp>, i: nat, r: Outcome<ScState>, height: int, net: Net)
    requires i <= |ops|
  {
    var due := height + net.maturity;
    var t := TallyOf(ops[i..]);
    if Blocked(ops, i) then r == Rejected
    else
      && r.Done? && Possible(s, t)
      && Rest(r.value, due) == Rest(After(s, t, StillDue(ops, i), height, net), due)
      && (TallyOf(ops[..i]).payments > 0 ==> due !in r.value.maturing)
      && (TallyOf(ops[..i]).payments == 0 && TallyOf(ops).payments == 0 ==> r.value.maturing == s.maturing)
  }

  lemma {:induction false} UnwindOps(s: ScState, ops: seq<ScOp>, i: nat, height: int, net: Net)
    requires i <= |ops| && Undoable(s, ops, height + net.maturity)
    ensures
      var t := TallyOf(ops);
      Unwound(s, ops, i, RevertOps(After(s, t, t.payments > 0, height, net), ops[..i], height, net), height, net)
  {
    if i == 0 {
      assert ops[0..] == ops;
    } else {
      UnwindOps(s, ops, i - 1, height, net);
      assert ops[..i][..i - 1] == ops[..i - 1];
      if Blocked(ops, i - 1) {
        StepConditions(ops, i - 1);
      } else {
        var t := TallyOf(ops);
        UnwindStep(s, ops, i - 1, RevertOps(After(s, t, t.payments > 0, height, net), ops[..i - 1], height, net).value,
          height, net);
      }
    }
  }

  /** An undo step that is refused. */
  lemma UnwindBlocked(s: ScState, ops: seq<ScOp>, i: nat, cur: ScState, height: int, net: Net)
    requires i < |ops| && Undoable(s, ops, height + net.maturity)
    requires Unwound(s, ops, i, Done(cur), height, net)
    requires ops[i].Pays() && !StillDue(ops, i)
    ensures RevertOp(cur, ops[i], height, net) == Rejected
  {
    StepTallies(ops, i);
    var rest := ops[i + 1..];
    assert rest == [] ==> TallyOf(rest) == NOTHING;
    RevertOpTally(s, cur, ops[i], TallyOf(rest), false, height, net);
  }

  /** An undo step that goes through. */
  lemma UnwindOne(s: ScState, ops: seq<ScOp>, i: nat, cur: ScState, height: int, net: Net)
    requires i < |ops| && Undoable(s, ops, height + net.maturity)
    requires Unwound(s, ops, i, Done(cur), height, net)
    requires ops[i].Pays() ==> StillDue(ops, i)
    ensures var due, r, w := height + net.maturity, RevertOp(cur, ops[i], height, net), TallyOf(ops[i + 1..]);
      && r.Done? && Possible(s, w)
      && (if ops[i].Pays() then due !in r.value.maturing else r.value.maturing == cur.maturing)
      && Rest(r.value, due) ==
        Rest(After(s, w, if ops[i].Pays() then w.paid > 0 else StillDue(ops, i), height, net), due)
  {
    StepTallies(ops, i);
    StepConditions(ops, i);
    assert ops[i].Create? ==> ops[i + 1..] == [] && TallyOf(ops[i + 1..]) == NOTHING;
    RevertOpTally(s, cur, ops[i], TallyOf(ops[i + 1..]), StillDue(ops, i), height, net);
  }

  lemma UnwindStep(s: ScState, ops: seq<ScOp>, i: nat, cur: ScState, height: int, net: Net)
    requires i < |ops| && Undoable(s, ops, height + net.maturity)
    requires Unwound(s, ops, i, Done(cur), height, net)
    ensures Unwound(s, ops, i + 1, RevertOp(cur, ops[i], height, net), height, net)
  {
    hide After, RevertOp, Rest, TallyOf, Plus, TallyOp, Possible, Blocked, StillDue, BlocksAt;
    StepConditions(ops, i);
    CountsPayment(ops, i);
    if ops[i].Pays() && !StillDue(ops, i) {
      UnwindBlocked(s, ops, i, cur, height, net);
    } else {
      UnwindOne(s, ops, i, cur, height, net);
    }
  }

  lemma CountsPayment(ops: seq<ScOp>, i: nat)
    requires i < |ops| && ValidOps(ops)
    ensures 0 <= TallyOf(ops[..i]).payments
    ensures TallyOf(ops[..i + 1]).payments == TallyOf(ops[..i]).payments + if ops[i].Pays() then 1 else 0
    ensures TallyOf(ops[..i + 1]).payments <= TallyOf(ops).payments
  {
    hide TallyOf, Plus;
    TallyLast(ops, i);
    PlusPayments(TallyOf(ops[..i]), TallyOp(ops[i]));
    TallyNonNegative(ops[..i]);
    TallyNonNegative(ops[i + 1..]);
    assert ops == ops[..i + 1] + ops[i + 1..];
    TallyConcat(ops[..i + 1], ops[i + 1..]);
    PlusPayments(TallyOf(ops[..i + 1]), TallyOf(ops[i + 1..]));
  }

  /** How the tallies move by one undo step. */
  lemma StepTallies(ops: seq<ScOp>, i: nat)
    requires i < |ops| && ValidOps(ops)
    ensures TallyOf(ops[i..]) == Plus(TallyOp(ops[i]), TallyOf(ops[i + 1..]))
    ensures TallyOf(ops[..i + 1]).payments == TallyOf(ops[..i]).payments + TallyOp(ops[i]).payments
    ensures TallyOf(ops).payments == TallyOf(ops[..i]).payments + TallyOf(ops[i..]).payments
    ensures TallyOf(ops[i..]).paid >= 0 && TallyOf(ops[i + 1..]).paid >= 0
    ensures ValidOp(ops[i])
  {
    hide TallyOf, Plus, TallyOp;
    assert ops[i] in ops;
    assert ops[i..][1..] == ops[i + 1..];
    TallyHead(ops[i..]);
    TallyLast(ops, i);
    PlusPayments(TallyOf(ops[..i]), TallyOp(ops[i]));
    assert ops == ops[..i] + ops[i..];
    TallyConcat(ops[..i], ops[i..]);
    PlusPayments(TallyOf(ops[..i]), TallyOf(ops[i..]));
    TallyNonNegative(ops[i..]);
    TallyNonNegative(ops[i + 1..]);
  }

  lemma TallyLast(ops: seq<ScOp>, i: nat)
    requires i < |ops|
    ensures TallyOf(ops[..i + 1]) == Plus(TallyOf(ops[..i]), TallyOp(ops[i]))
  {
    assert ops[..i + 1][..i] == ops[..i] && ops[..i + 1][i] == ops[i];
  }

  lemma PlusPayments(a: Tally, b: Tally)
    ensures Plus(a, b).payments == a.payments + b.payments
  {
  }

  /** How the two conditions move by one undo step. */
  lemma StepConditions(ops: seq<ScOp>, i: nat)
    requires i < |ops| && ValidOps(ops)
    ensures Blocked(ops, i + 1) <==> Blocked(ops, i) || (ops[i].Pays() && !StillDue(ops, i))
    ensures StillDue(ops, i + 1) <==> if ops[i].Pays() then TallyOf(ops[i + 1..]).paid > 0 else StillDue(ops, i)
    ensures StillDue(ops, i) ==> TallyOf(ops[i..]).payments > 0
  {
    StepTallies(ops, i);
    assert BlocksAt(ops, i) <==> (ops[i].Pays() && !StillDue(ops, i));
    if Blocked(ops, i + 1) && !BlocksAt(ops, i) {
      var k :| 0 <= k < i + 1 && BlocksAt(ops, k);
      assert k != i;
    }
  }

  /** The amounts paid by a list of operations, in order. */
  function Payments(ops: seq<ScOp>): seq<int> {
    if ops == [] then []
    else
      var last := ops[|ops| - 1];
      Payments(ops[..|ops| - 1]) + (if last.Pays() then [last.value] else [])
  }

  /**
   * The caller's condition: of several payments to a sidechain in a block, the one undone last
   * is positive. The undo order is known from the block alone.
   */
  ghost predicate LastPaymentCounts(ops: seq<ScOp>) {
    var paid := Payments(ops);
    |paid| >= 2 ==> paid[|paid| - 1] > 0
  }

  lemma {:induction false} PaymentsCounted(ops: seq<ScOp>)
    ensures |Payments(ops)| == TallyOf(ops).payments
  {
    if ops != [] {
      PaymentsCounted(ops[..|ops| - 1]);
    }
  }

  /** Where undoing stops does not depend on a trailing operation that pays nothing; a paying one must be zero. */
  lemma BlocksAtInit(ops: seq<ScOp>, k: nat)
    requires k < |ops| - 1 && ValidOps(ops)
    ensures var init, last := ops[..|ops| - 1], ops[|ops| - 1];
      && (!last.Pays() ==> (BlocksAt(ops, k) <==> BlocksAt(init, k)))
      && (last.Pays() && BlocksAt(ops, k) ==> last.value == 0 && TallyOf(init).payments > 0)
  {
    hide TallyOf;
    var init, last := ops[..|ops| - 1], ops[|ops| - 1];
    assert last in ops && ValidOps(init[k..]);
    assert init[..k] == ops[..k];
    TailTally(ops, k);
    TallyNonNegative(init[k..]);
    assert init == init[..k] + init[k..];
    TallyConcat(init[..k], init[k..]);
  }

  lemma TailTally(ops: seq<ScOp>, k: nat)
    requires k < |ops| - 1
    ensures TallyOf(ops[k..]) == Plus(TallyOf(ops[..|ops| - 1][k..]), TallyOp(ops[|ops| - 1]))
  {
    var tail := ops[k..];
    assert tail[..|tail| - 1] == ops[..|ops| - 1][k..] && tail[|tail| - 1] == ops[|ops| - 1];
  }

  lemma BlocksAtLast(ops: seq<ScOp>)
    requires ops != []
    ensures var init, last := ops[..|ops| - 1], ops[|ops| - 1];
      BlocksAt(ops, |ops| - 1) <==> last.Pays() && TallyOf(init).payments > 0 && last.value == 0
  {
    var last := ops[|ops| - 1];
    assert ops[|ops| - 1..] == [last];
    TallyHead([last]);
    assert [last][1..] == [];
  }

  lemma BlockedStep(ops: seq<ScOp>)
    requires ops != [] && ValidOps(ops)
    ensures var n, init, last := |ops| - 1, ops[..|ops| - 1], ops[|ops| - 1];
      Blocked(ops, n + 1) <==> if last.Pays() then TallyOf(init).payments > 0 && last.value == 0 else Blocked(init, n)
  {
    var n, init := |ops| - 1, ops[..|ops| - 1];
    BlocksAtLast(ops);
    forall k | 0 <= k < n {
      BlocksAtInit(ops, k);
    }
    if Blocked(init, n) && !ops[n].Pays() {
      var k :| 0 <= k < n && BlocksAt(init, k);
      assert BlocksAt(ops, k);
    }
    if BlocksAt(ops, n) {
      assert Blocked(ops, n + 1);
    }
  }

  /** Where undoing stops, in terms of the payments alone. */
  lemma {:induction false} BlockedExactly(ops: seq<ScOp>)
    requires ValidOps(ops)
    ensures Blocked(ops, |ops|) <==> !LastPaymentCounts(ops)
  {
    if ops != [] {
      var init, last := ops[..|ops| - 1], ops[|ops| - 1];
      assert last in ops && forall op :: op in init ==> op in ops;
      PaymentsCounted(init);
      BlockedExactly(init);
      BlockedStep(ops);
    }
  }

  /**
   * Undoing a block's transactions restores the sidechain exactly under the caller's condition, and
   * is refused otherwise.
   */
  lemma OpsUndone(s: ScState, ops: seq<ScOp>, undoOps: seq<ScOp>, height: int, net: Net)
    requires var due := height + net.maturity;
      NothingDue(s.rec, due) && due !in s.maturing && (s.rec.None? ==> s.ceasing == {})
    requires ValidOps(ops) && ValidOps(undoOps) && CreationLast(undoOps) && TallyOf(undoOps) == TallyOf(ops)
    requires ApplyOps(s, ops, height, net).Done?
    ensures RevertOps(ApplyOps(s, ops, height, net).value, undoOps, height, net) ==
            if LastPaymentCounts(undoOps) then Done(s) else Rejected
  {
    ApplyOpsTally(s, ops, height, net);
    UnwindOps(s, undoOps, |undoOps|, height, net);
    BlockedExactly(undoOps);
    assert undoOps[..|undoOps|] == undoOps;
    if LastPaymentCounts(undoOps) {
      FullyUnwound(s, undoOps, RevertOps(ApplyOps(s, ops, height, net).value, undoOps, height, net).value, height, net);
    }
  }

  /** Once every step is undone, nothing of the block is left. */
  lemma FullyUnwound(s: ScState, ops: seq<ScOp>, r: ScState, height: int, net: Net)
    requires var due := height + net.maturity; NothingDue(s.rec, due) && due !in s.maturing
    requires Unwound(s, ops, |ops|, Done(r), height, net)
    ensures r == s
  {
    var due := height + net.maturity;
    assert ops[..|ops|] == ops && ops[|ops|..] == [];
    assert s.nullifiers + {} == s.nullifiers;
    assert s.maturing - {due} == s.maturing;
    assert r.maturing - {due} == s.maturing;
    assert r.maturing == s.maturing;
  }
}
