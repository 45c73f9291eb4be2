/**
 * What transactions hold for a sidechain, added up straight from their outputs, and that the
 * operations the ledger applies add up to the same.
 */
module BlockSheets {
  import opened Outcomes
  import opened SidechainTypes
  import opened EventIndex
  import opened M = SidechainMachine
  import opened U = SidechainUndo
  import L = Ledger
  import B = Blocks
  import opened T = BlockUndo

  // ---------- What transactions hold for one sidechain ----------

  function Received(payments: seq<Payment>, id: ScId): int {
    if payments == [] then 0
    else
      var last := payments[|payments| - 1];
      Received(payments[..|payments| - 1], id) + (if last.id == id then last.value else 0)
  }

  function Endowed(creations: seq<Creation>, id: ScId): int {
    if creations == [] then 0
    else
      var last := creations[|creations| - 1];
      Endowed(creations[..|creations| - 1], id) + (if last.id == id then last.value else 0)
  }

  function Taken(csws: seq<Csw>, id: ScId): int {
    if csws == [] then 0
    else
      var last := csws[|csws| - 1];
      Taken(csws[..|csws| - 1], id) + (if last.id == id then last.value else 0)
  }

  function Used(csws: seq<Csw>, id: ScId): set<nat> {
    set c | c in csws && c.id == id :: c.nullifier
  }

  /** A creation output together with the hash of its transaction. */
  datatype Made = Made(tx: Hash, creation: Creation)

  function MadeBy(creations: seq<Creation>, id: ScId, tx: Hash): seq<Made> {
    if creations == [] then []
    else
      var last := creations[|creations| - 1];
      MadeBy(creations[..|creations| - 1], id, tx) + (if last.id == id then [Made(tx, last)] else [])
  }

  predicate AnyPayment(payments: seq<Payment>, id: ScId) {
    exists p :: p in payments && p.id == id
  }

  predicate AnyCreation(creations: seq<Creation>, id: ScId) {
    exists c :: c in creations && c.id == id
  }

  predicate PaysTo(tx: Tx, id: ScId) {
    AnyCreation(tx.creations, id) || AnyPayment(tx.transfers, id) || AnyPayment(tx.requests, id)
  }

  /** What transactions send to a sidechain and take from it, and the creations among them. */
  datatype Sheet = Sheet(pays: bool, sent: int, took: int, used: set<nat>, made: seq<Made>)

  const BLANK_SHEET := Sheet(false, 0, 0, {}, [])

  function SheetOf(tx: Tx, id: ScId): Sheet {
    Sheet(PaysTo(tx, id), Endowed(tx.creations, id) + Received(tx.transfers, id) + Received(tx.requests, id),
          Taken(tx.csws, id), Used(tx.csws, id), MadeBy(tx.creations, id, tx.hash))
  }

  function Both(a: Sheet, b: Sheet): Sheet {
    Sheet(a.pays || b.pays, a.sent + b.sent, a.took + b.took, a.used + b.used, a.made + b.made)
  }

  function SheetIn(txs: seq<Tx>, id: ScId): Sheet {
    if txs == [] then BLANK_SHEET else Both(SheetIn(txs[..|txs| - 1], id), SheetOf(txs[|txs| - 1], id))
  }

  // ---------- The operations of a block add up to that ----------

  function CreateOf(m: Made): ScOp {
    Create(m.creation.value, m.tx, m.creation.fixed, m.creation.ftFee, m.creation.mbtrFee)
  }

  ghost predicate AddsUp(t: Tally, s: Sheet) {
    && (t.payments > 0 <==> s.pays) && t.paid == s.sent && t.withdrawn == s.took && t.nullifiers == s.used
    && |t.created| == |s.made| && forall i :: 0 <= i < |s.made| ==> t.created[i] == CreateOf(s.made[i])
  }

  lemma {:induction false} BothAddUp(t: Tally, s: Sheet, u: Tally, v: Sheet)
    requires AddsUp(t, s) && AddsUp(u, v)
    ensures AddsUp(Plus(t, u), Both(s, v))
  {
  }

  lemma {:induction false} PaymentSheet(value: int)
    ensures AddsUp(TallyOp(Transfer(value)), Sheet(true, value, 0, {}, []))
  {
  }

  lemma {:induction false} CreationSheet(m: Made)
    ensures AddsUp(TallyOp(CreateOf(m)), Sheet(true, m.creation.value, 0, {}, [m]))
  {
  }

  lemma {:induction false} NullifierSheet(nf: nat)
    ensures AddsUp(TallyOp(UseNullifier(nf)), Sheet(false, 0, 0, {nf}, []))
  {
  }

  lemma {:induction false} TallyNext(ops: seq<L.TxOp>, op: L.TxOp, id: ScId)
    ensures TallyOf(L.Filter(ops + [op], id)) ==
      if op.id == id then Plus(TallyOf(L.Filter(ops, id)), TallyOp(op.op)) else TallyOf(L.Filter(ops, id))
  {
    assert (ops + [op])[..|ops|] == ops;
    L.FilterLast(ops + [op], id);
  }

  lemma {:induction false} AnyPaymentNext(payments: seq<Payment>, p: Payment, id: ScId)
    ensures AnyPayment(payments + [p], id) <==> AnyPayment(payments, id) || p.id == id
    ensures Received(payments + [p], id) == Received(payments, id) + if p.id == id then p.value else 0
  {
    assert p in payments + [p];
    assert (payments + [p])[..|payments|] == payments;
  }

  lemma {:induction false} AnyCreationNext(creations: seq<Creation>, c: Creation, id: ScId)
    ensures AnyCreation(creations + [c], id) <==> AnyCreation(creations, id) || c.id == id
  {
    assert c in creations + [c];
  }

  lemma {:induction false} EndowedNext(creations: seq<Creation>, c: Creation, id: ScId, tx: Hash)
    ensures Endowed(creations + [c], id) == Endowed(creations, id) + if c.id == id then c.value else 0
    ensures MadeBy(creations + [c], id, tx) ==
      if c.id == id then MadeBy(creations, id, tx) + [Made(tx, c)] else MadeBy(creations, id, tx)
  {
    assert (creations + [c])[..|creations|] == creations;
  }

  lemma {:induction false} TransfersNext(payments: seq<Payment>, p: Payment)
    ensures Transfers(payments + [p]) == Transfers(payments) + [L.TxOp(p.id, Transfer(p.value))]
  {
  }

  lemma {:induction false} CreationsListNext(creations: seq<Creation>, c: Creation, tx: Hash)
    ensures Creations(creations + [c], tx) == Creations(creations, tx) + [L.TxOp(c.id, CreateOf(Made(tx, c)))]
  {
  }

  function PaymentsSheet(payments: seq<Payment>, id: ScId): Sheet {
    Sheet(AnyPayment(payments, id), Received(payments, id), 0, {}, [])
  }

  lemma {:induction false} PaymentsNext(payments: seq<Payment>, p: Payment, id: ScId)
    requires AddsUp(TallyOf(L.Filter(Transfers(payments), id)), PaymentsSheet(payments, id))
    ensures AddsUp(TallyOf(L.Filter(Transfers(payments + [p]), id)), PaymentsSheet(payments + [p], id))
  {
    var all := payments + [p];
    TransfersNext(payments, p);
    AnyPaymentNext(payments, p, id);
    TallyNext(Transfers(payments), L.TxOp(p.id, Transfer(p.value)), id);
    hide AddsUp, Plus, TallyOf, L.Filter, AnyPayment, Received, Transfers;
    if p.id == id {
      var paid := Sheet(true, p.value, 0, {}, []);
      PaymentSheet(p.value);
      BothAddUp(TallyOf(L.Filter(Transfers(payments), id)), PaymentsSheet(payments, id), TallyOp(Transfer(p.value)),
        paid);
      assert Both(PaymentsSheet(payments, id), paid) == PaymentsSheet(all, id);
    }
  }

  lemma {:induction false} PaymentsAddUp(payments: seq<Payment>, id: ScId)
    ensures AddsUp(TallyOf(L.Filter(Transfers(payments), id)), PaymentsSheet(payments, id))
  {
    if payments != [] {
      var init, last := payments[..|payments| - 1], payments[|payments| - 1];
      assert payments == init + [last];
      PaymentsAddUp(init, id);
      PaymentsNext(init, last, id);
    }
  }

  function CreationsSheet(creations: seq<Creation>, id: ScId, tx: Hash): Sheet {
    Sheet(AnyCreation(creations, id), Endowed(creations, id), 0, {}, MadeBy(creations, id, tx))
  }

  lemma {:induction false} CreationsNext(creations: seq<Creation>, c: Creation, id: ScId, tx: Hash)
    requires AddsUp(TallyOf(L.Filter(Creations(creations, tx), id)), CreationsSheet(creations, id, tx))
    ensures AddsUp(TallyOf(L.Filter(Creations(creations + [c], tx), id)), CreationsSheet(creations + [c], id, tx))
  {
    var all := creations + [c];
    CreationsListNext(creations, c, tx);
    AnyCreationNext(creations, c, id);
    EndowedNext(creations, c, id, tx);
    TallyNext(Creations(creations, tx), L.TxOp(c.id, CreateOf(Made(tx, c))), id);
    hide AddsUp, Plus, TallyOf, L.Filter, AnyCreation, Endowed, MadeBy, Creations;
    if c.id == id {
      var before, made := CreationsSheet(creations, id, tx), Sheet(true, c.value, 0, {}, [Made(tx, c)]);
      CreationSheet(Made(tx, c));
      BothAddUp(TallyOf(L.Filter(Creations(creations, tx), id)), before, TallyOp(CreateOf(Made(tx, c))), made);
      assert Both(before, made) == CreationsSheet(all, id, tx);
    }
  }

  lemma {:induction false} CreationsAddUp(creations: seq<Creation>, id: ScId, tx: Hash)
    ensures AddsUp(TallyOf(L.Filter(Creations(creations, tx), id)), CreationsSheet(creations, id, tx))
  {
    if creations != [] {
      var init, last := creations[..|creations| - 1], creations[|creations| - 1];
      assert creations == init + [last];
      CreationsAddUp(init, id, tx);
      CreationsNext(init, last, id, tx);
    }
  }

  lemma {:induction false} WithdrawalsAddUp(csws: seq<Csw>, id: ScId)
    ensures AddsUp(TallyOf(L.Filter(Withdrawals(csws), id)), Sheet(false, 0, Taken(csws, id), {}, []))
  {
    if csws != [] {
      var init, last := csws[..|csws| - 1], csws[|csws| - 1];
      assert Withdrawals(csws) == Withdrawals(init) + [L.TxOp(last.id, Withdraw(last.value))];
      WithdrawalsAddUp(init, id);
      TallyNext(Withdrawals(init), L.TxOp(last.id, Withdraw(last.value)), id);
    }
  }

  lemma {:induction false} UsedNext(csws: seq<Csw>, c: Csw, id: ScId)
    ensures Used(csws + [c], id) == Used(csws, id) + if c.id == id then {c.nullifier} else {}
  {
  }

  lemma {:induction false} NullifiersNext(csws: seq<Csw>, c: Csw, id: ScId)
    requires AddsUp(TallyOf(L.Filter(Nullifiers(csws), id)), Sheet(false, 0, 0, Used(csws, id), []))
    ensures AddsUp(TallyOf(L.Filter(Nullifiers(csws + [c]), id)), Sheet(false, 0, 0, Used(csws + [c], id), []))
  {
    var all := csws + [c];
    assert Nullifiers(all) == Nullifiers(csws) + [L.TxOp(c.id, UseNullifier(c.nullifier))];
    UsedNext(csws, c, id);
    TallyNext(Nullifiers(csws), L.TxOp(c.id, UseNullifier(c.nullifier)), id);
    hide AddsUp, Plus, TallyOf, L.Filter, Used;
    if c.id == id {
      var before, now := Sheet(false, 0, 0, Used(csws, id), []), Sheet(false, 0, 0, {c.nullifier}, []);
      NullifierSheet(c.nullifier);
      BothAddUp(TallyOf(L.Filter(Nullifiers(csws), id)), before, TallyOp(UseNullifier(c.nullifier)), now);
      assert Both(before, now) == Sheet(false, 0, 0, Used(all, id), []);
    }
  }

  lemma {:induction false} NullifiersAddUp(csws: seq<Csw>, id: ScId)
    ensures AddsUp(TallyOf(L.Filter(Nullifiers(csws), id)), Sheet(false, 0, 0, Used(csws, id), []))
  {
    if csws != [] {
      var init, last := csws[..|csws| - 1], csws[|csws| - 1];
      assert csws == init + [last];
      NullifiersAddUp(init, id);
      NullifiersNext(init, last, id);
    }
  }

  lemma {:induction false} TxAddsUp(tx: Tx, id: ScId)
    ensures AddsUp(TallyOf(L.Filter(Ops(tx), id)), SheetOf(tx, id))
  {
    var p := PartsOf(tx, id);
    FilterParts(tx, id);
    TallyFive(p.w, p.c, p.t, p.r, p.n);
    WithdrawalsAddUp(tx.csws, id);
    CreationsAddUp(tx.creations, id, tx.hash);
    PaymentsAddUp(tx.transfers, id);
    PaymentsAddUp(tx.requests, id);
    NullifiersAddUp(tx.csws, id);
    hide TallyOf, Ops, L.Filter;
  }

  lemma {:induction false} TxsAddUp(txs: seq<Tx>, id: ScId)
    ensures AddsUp(TallyOf(L.Filter(AllOps(txs), id)), SheetIn(txs, id))
  {
    if txs != [] {
      var init, last := txs[..|txs| - 1], txs[|txs| - 1];
      TxsAddUp(init, id);
      TxAddsUp(last, id);
      L.FilterConcat(AllOps(init), Ops(last), id);
      TallyConcat(L.Filter(AllOps(init), id), L.Filter(Ops(last), id));
      BothAddUp(TallyOf(L.Filter(AllOps(init), id)), SheetIn(init, id), TallyOf(L.Filter(Ops(last), id)),
        SheetOf(last, id));
    }
  }
}
