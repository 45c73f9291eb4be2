/**
 * The ledger of all sidechains: records, events by height and withdrawal nullifiers, with the
 * operations of a block and their reversal in the order main.cpp calls them.
 */
module Ledger {
  import opened Outcomes
  import opened SidechainTypes
  import opened EventIndex
  import opened M = SidechainMachine

  datatype Ledger = Ledger(scs: map<ScId, Sidechain>, events: Index, nullifiers: set<(ScId, nat)>)

  const GENESIS := Ledger(map[], map[], {})

  ghost function Spent(nullifiers: set<(ScId, nat)>, id: ScId): (r: set<nat>)
    ensures forall n :: n in r <==> (id, n) in nullifiers
  {
    var r := set p | p in nullifiers && p.0 == id :: p.1;
    assert forall n :: (id, n) in nullifiers ==> (id, n).1 in r;
    r
  }

  /** What the ledger says about one sidechain. */
  ghost function Of(l: Ledger, id: ScId): ScState {
    ScState(if id in l.scs then Some(l.scs[id]) else None,
            Maturing(l.events, id), Ceasing(l.events, id), Spent(l.nullifiers, id))
  }

  /** A normal ledger is determined by what it says about each sidechain. */
  lemma PartsDetermine(a: Ledger, b: Ledger)
    requires Normal(a.events) && Normal(b.events)
    requires forall id :: Of(a, id) == Of(b, id)
    ensures a == b
  {
    forall id
      ensures Maturing(a.events, id) == Maturing(b.events, id) && Ceasing(a.events, id) == Ceasing(b.events, id)
    {
      assert Of(a, id) == Of(b, id);
    }
    TransposeDetermines(a.events, b.events);
    forall id
      ensures id in a.scs.Keys <==> id in b.scs.Keys
      ensures id in a.scs.Keys ==> id in b.scs && a.scs[id] == b.scs[id]
    {
      assert Of(a, id).rec == Of(b, id).rec;
    }
    assert a.scs == b.scs;
    forall id: ScId, n: nat
      ensures (id, n) in a.nullifiers <==> (id, n) in b.nullifiers
    {
      assert Of(a, id).nullifiers == Of(b, id).nullifiers;
      assert n in Of(a, id).nullifiers <==> (id, n) in a.nullifiers;
    }
    forall p
      ensures p in a.nullifiers <==> p in b.nullifiers
    {
      assert p == (p.0, p.1);
    }
  }

  /** Only sidechain `id` changes, to `s`. */
  ghost predicate Only(l: Ledger, l': Ledger, id: ScId, s: ScState) {
    && Of(l', id) == s
    && (forall other :: other != id ==> Of(l', other) == Of(l, other))
    && (Normal(l.events) ==> Normal(l'.events))
  }

  /** The ledger takes the step of one sidechain's machine. */
  ghost predicate Follows(l: Ledger, r: Outcome<Ledger>, id: ScId, m: Outcome<ScState>) {
    && (m.Done? ==> r.Done? && Only(l, r.value, id, m.value))
    && (m.Rejected? ==> r.Rejected?)
  }

  // ---------- Transactions ----------

  /** One step of CCoinsViewCache::UpdateSidechain(tx), and AddCswNullifier. */
  function ApplyOp(l: Ledger, id: ScId, op: ScOp, height: int, net: Net): Outcome<Ledger> {
    var due := height + net.maturity;
    match op
    case Withdraw(value) =>
      if id !in l.scs then Rejected
      else if l.scs[id].balance - value < 0 then AssertFailed
      else Done(l.(scs := l.scs[id := l.scs[id].(balance := l.scs[id].balance - value)]))
    case Create(value, _, _, _, _) =>
      if id in l.scs then Rejected
      else
        var sc := FreshRecord(op, height).(immature := map[due := value]);
        Done(l.(scs := l.scs[id := sc],
                events := AddCeasing(AddMaturing(l.events, due, id), CeasingHeight(sc), id)))
    case Transfer(value) =>
      if id !in l.scs then Rejected
      else
        var sc := l.scs[id];
        Done(l.(scs := l.scs[id := sc.(immature := sc.immature[due := Amount(sc.immature, due) + value])],
                events := AddMaturing(l.events, due, id)))
    case UseNullifier(nf) =>
      if (id, nf) in l.nullifiers then Rejected else Done(l.(nullifiers := l.nullifiers + {(id, nf)}))
  }

  /** One step of CCoinsViewCache::RevertTxOutputs, and RemoveCswNullifier. */
  function RevertOp(l: Ledger, id: ScId, op: ScOp, height: int, net: Net): Outcome<Ledger> {
    var due := height + net.maturity;
    match op
    case Withdraw(value) =>
      if id !in l.scs then Rejected
      else Done(l.(scs := l.scs[id := l.scs[id].(balance := l.scs[id].balance + value)]))
    case Create(value, _, _, _, _) =>
      if id !in l.scs then Rejected
      else
        var sc := l.scs[id];
        var _ :- Decrement(sc.immature, due, value);
        if sc.balance > 0 then Rejected
        else
          var events := DropMaturing(l.events, due, id);
          if CeasingHeight(sc) !in events then Rejected
          else Done(l.(scs := l.scs - {id}, events := DropCeasing(events, CeasingHeight(sc), id)))
    case Transfer(value) =>
      if id !in l.scs then Rejected
      else
        var immature :- Decrement(l.scs[id].immature, due, value);
        Done(l.(scs := l.scs[id := l.scs[id].(immature := immature)], events := DropMaturing(l.events, due, id)))
    case UseNullifier(nf) =>
      if (id, nf) !in l.nullifiers then Rejected else Done(l.(nullifiers := l.nullifiers - {(id, nf)}))
  }

  /** Assembles `Only` from the three parts of a ledger. */
  lemma OnlyByParts(l: Ledger, l': Ledger, id: ScId, s: ScState)
    requires l'.scs - {id} == l.scs - {id}
    requires SameButFor(l.events, l'.events, id)
    requires forall p :: p in l'.nullifiers && p.0 != id <==> p in l.nullifiers && p.0 != id
    requires Of(l', id) == s
    ensures Only(l, l', id, s)
  {
    forall other | other != id
      ensures Of(l', other) == Of(l, other)
    {
      assert other in l'.scs <==> other in l'.scs - {id};
      assert other in l.scs <==> other in l.scs - {id};
      assert Of(l', other).rec == Of(l, other).rec;
      forall n
        ensures n in Spent(l'.nullifiers, other) <==> n in Spent(l.nullifiers, other)
      {
        assert (other, n) in l'.nullifiers <==> (other, n) in l.nullifiers;
      }
      assert Spent(l'.nullifiers, other) == Spent(l.nullifiers, other);
    }
  }

  /** The ledger with a new record and new events for one sidechain. */
  ghost function Put(l: Ledger, id: ScId, rec: Option<Sidechain>, events: Index): Ledger {
    l.(scs := if rec.Some? then l.scs[id := rec.value] else l.scs - {id}, events := events)
  }

  lemma PutOnly(l: Ledger, id: ScId, rec: Option<Sidechain>, events: Index)
    requires SameButFor(l.events, events, id)
    ensures Only(l, Put(l, id, rec, events), id,
      ScState(rec, Maturing(events, id), Ceasing(events, id), Spent(l.nullifiers, id)))
  {
    var l' := Put(l, id, rec, events);
    assert l'.scs - {id} == l.scs - {id};
    OnlyByParts(l, l', id, ScState(rec, Maturing(events, id), Ceasing(events, id), Spent(l.nullifiers, id)));
  }

  lemma NullifiersOnly(l: Ledger, id: ScId, nf: nat)
    ensures Only(l, l.(nullifiers := l.nullifiers + {(id, nf)}), id,
                 Of(l, id).(nullifiers := Of(l, id).nullifiers + {nf}))
    ensures Only(l, l.(nullifiers := l.nullifiers - {(id, nf)}), id,
                 Of(l, id).(nullifiers := Of(l, id).nullifiers - {nf}))
  {
    var added, removed := l.(nullifiers := l.nullifiers + {(id, nf)}), l.(nullifiers := l.nullifiers - {(id, nf)});
    assert Spent(added.nullifiers, id) == Spent(l.nullifiers, id) + {nf};
    assert Spent(removed.nullifiers, id) == Spent(l.nullifiers, id) - {nf};
    OnlyByParts(l, added, id, Of(l, id).(nullifiers := Of(l, id).nullifiers + {nf}));
    OnlyByParts(l, removed, id, Of(l, id).(nullifiers := Of(l, id).nullifiers - {nf}));
  }

  /** The ledger's step and the machine's step have the same outcome. */
  ghost predicate Agree(l: Ledger, r: Outcome<Ledger>, id: ScId, m: Outcome<ScState>) {
    Follows(l, r, id, m) && (r.Done? <==> m.Done?) && (r.AssertFailed? <==> m.AssertFailed?)
  }

  lemma MaturingMoves(events: Index, due: int, id: ScId)
    ensures var added := AddMaturing(events, due, id);
      && SameButFor(events, added, id)
      && Maturing(added, id) == Maturing(events, id) + {due} && Ceasing(added, id) == Ceasing(events, id)
    ensures var dropped := DropMaturing(events, due, id);
      && SameButFor(events, dropped, id)
      && Maturing(dropped, id) == Maturing(events, id) - {due} && Ceasing(dropped, id) == Ceasing(events, id)
  {
    UpdateTransposed(events, due, id, id);
    UpdateSameButFor(events, due, id);
  }

  lemma ApplyTransferFollows(l: Ledger, id: ScId, op: ScOp, height: int, net: Net)
    requires op.Transfer?
    ensures Agree(l, ApplyOp(l, id, op, height, net), id, M.ApplyOp(Of(l, id), op, height, net))
  {
    var m := M.ApplyOp(Of(l, id), op, height, net);
    if m.Done? {
      var events := AddMaturing(l.events, height + net.maturity, id);
      MaturingMoves(l.events, height + net.maturity, id);
      PutOnly(l, id, m.value.rec, events);
      assert ApplyOp(l, id, op, height, net).value == Put(l, id, m.value.rec, events);
    }
  }

  lemma ApplyCreateFollows(l: Ledger, id: ScId, op: ScOp, height: int, net: Net)
    requires op.Create?
    ensures Agree(l, ApplyOp(l, id, op, height, net), id, M.ApplyOp(Of(l, id), op, height, net))
  {
    var m := M.ApplyOp(Of(l, id), op, height, net);
    if m.Done? {
      CreateEvents(l.events, height + net.maturity, CeasingHeight(m.value.rec.value), id);
      var events := ApplyOp(l, id, op, height, net).value.events;
      PutOnly(l, id, m.value.rec, events);
      assert ApplyOp(l, id, op, height, net).value == Put(l, id, m.value.rec, events);
    }
  }

  lemma ApplyOpFollows(l: Ledger, id: ScId, op: ScOp, height: int, net: Net)
    ensures Agree(l, ApplyOp(l, id, op, height, net), id, M.ApplyOp(Of(l, id), op, height, net))
  {
    var m := M.ApplyOp(Of(l, id), op, height, net);
    match op
    case UseNullifier(nf) =>
      NullifiersOnly(l, id, nf);
    case Withdraw(_) =>
      if m.Done? {
        PutOnly(l, id, m.value.rec, l.events);
      }
    case Transfer(_) =>
      ApplyTransferFollows(l, id, op, height, net);
    case Create(_, _, _, _, _) =>
      ApplyCreateFollows(l, id, op, height, net);
  }

  lemma CreateEvents(events: Index, due: int, ceasing: int, id: ScId)
    ensures var events' := AddCeasing(AddMaturing(events, due, id), ceasing, id);
      && SameButFor(events, events', id)
      && Maturing(events', id) == Maturing(events, id) + {due}
      && Ceasing(events', id) == Ceasing(events, id) + {ceasing}
  {
    var matured := AddMaturing(events, due, id);
    UpdateTransposed(events, due, id, id);
    UpdateSameButFor(events, due, id);
    UpdateTransposed(matured, ceasing, id, id);
    UpdateSameButFor(matured, ceasing, id);
  }

  lemma RevertTransferFollows(l: Ledger, id: ScId, op: ScOp, height: int, net: Net)
    requires op.Transfer?
    ensures Agree(l, RevertOp(l, id, op, height, net), id, M.RevertOp(Of(l, id), op, height, net))
  {
    var m := M.RevertOp(Of(l, id), op, height, net);
    if m.Done? {
      var events := DropMaturing(l.events, height + net.maturity, id);
      MaturingMoves(l.events, height + net.maturity, id);
      PutOnly(l, id, m.value.rec, events);
      assert RevertOp(l, id, op, height, net).value == Put(l, id, m.value.rec, events);
    }
  }

  lemma RevertCreateFollows(l: Ledger, id: ScId, op: ScOp, height: int, net: Net)
    requires op.Create?
    ensures Follows(l, RevertOp(l, id, op, height, net), id, M.RevertOp(Of(l, id), op, height, net))
  {
    var m := M.RevertOp(Of(l, id), op, height, net);
    if m.Done? {
      var ceasing := CeasingHeight(l.scs[id]);
      UncreateEvents(l.events, height + net.maturity, ceasing, id);
      PutOnly(l, id, None, DropCeasing(DropMaturing(l.events, height + net.maturity, id), ceasing, id));
    }
  }

  lemma UncreateEvents(events: Index, due: int, ceasing: int, id: ScId)
    ensures var events' := DropCeasing(DropMaturing(events, due, id), ceasing, id);
      && SameButFor(events, events', id)
      && Maturing(events', id) == Maturing(events, id) - {due}
      && Ceasing(events', id) == Ceasing(events, id) - {ceasing}
      && (ceasing in Ceasing(events, id) ==> ceasing in DropMaturing(events, due, id))
  {
    var dropped := DropMaturing(events, due, id);
    UpdateTransposed(events, due, id, id);
    UpdateSameButFor(events, due, id);
    UpdateTransposed(dropped, ceasing, id, id);
    UpdateSameButFor(dropped, ceasing, id);
    if ceasing in Ceasing(events, id) {
      assert ceasing in Ceasing(dropped, id);
    }
  }

  lemma RevertOpFollows(l: Ledger, id: ScId, op: ScOp, height: int, net: Net)
    ensures Follows(l, RevertOp(l, id, op, height, net), id, M.RevertOp(Of(l, id), op, height, net))
  {
    var m := M.RevertOp(Of(l, id), op, height, net);
    match op
    case UseNullifier(nf) =>
      NullifiersOnly(l, id, nf);
    case Withdraw(_) =>
      if m.Done? {
        PutOnly(l, id, m.value.rec, l.events);
      }
    case Transfer(_) =>
      RevertTransferFollows(l, id, op, height, net);
    case Create(_, _, _, _, _) =>
      RevertCreateFollows(l, id, op, height, net);
  }

  // ---------- Lists of operations ----------

  datatype TxOp = TxOp(id: ScId, op: ScOp)

  function ApplyOps(l: Ledger, ops: seq<TxOp>, height: int, net: Net): Outcome<Ledger> {
    if ops == [] then Done(l)
    else
      var l' :- ApplyOps(l, ops[..|ops| - 1], height, net);
      var last := ops[|ops| - 1];
      ApplyOp(l', last.id, last.op, height, net)
  }

  function RevertOps(l: Ledger, ops: seq<TxOp>, height: int, net: Net): Outcome<Ledger> {
    if ops == [] then Done(l)
    else
      var l' :- RevertOps(l, ops[..|ops| - 1], height, net);
      var last := ops[|ops| - 1];
      RevertOp(l', last.id, last.op, height, net)
  }

  /** The operations on one sidechain, in order. */
  function Filter(ops: seq<TxOp>, id: ScId): seq<ScOp> {
    if ops == [] then []
    else
      var last := ops[|ops| - 1];
      Filter(ops[..|ops| - 1], id) + (if last.id == id then [last.op] else [])
  }

  lemma {:induction false} FilterConcat(a: seq<TxOp>, b: seq<TxOp>, id: ScId)
    ensures Filter(a + b, id) == Filter(a, id) + Filter(b, id)
  {
    if b == [] {
      assert a + b == a;
    } else {
      assert (a + b)[..|a + b| - 1] == a + b[..|b| - 1];
      FilterConcat(a, b[..|b| - 1], id);
    }
  }

  /** A list of operations runs as its two halves do, one after the other. */
  lemma {:induction false} ApplyOpsSplit(l: Ledger, a: seq<TxOp>, b: seq<TxOp>, height: int, net: Net)
    ensures ApplyOps(l, a + b, height, net) ==
            var r := ApplyOps(l, a, height, net); if r.Done? then ApplyOps(r.value, b, height, net) else r
  {
    if b == [] {
      assert a + b == a;
    } else {
      assert (a + b)[..|a + b| - 1] == a + b[..|b| - 1];
      ApplyOpsSplit(l, a, b[..|b| - 1], height, net);
    }
  }

  lemma {:induction false} RevertOpsSplit(l: Ledger, a: seq<TxOp>, b: seq<TxOp>, height: int, net: Net)
    ensures RevertOps(l, a + b, height, net) ==
            var r := RevertOps(l, a, height, net); if r.Done? then RevertOps(r.value, b, height, net) else r
  {
    if b == [] {
      assert a + b == a;
    } else {
      assert (a + b)[..|a + b| - 1] == a + b[..|b| - 1];
      RevertOpsSplit(l, a, b[..|b| - 1], height, net);
    }
  }

  /** Every sidechain sees exactly its own operations. */
  lemma {:induction false} ApplyOpsProject(l: Ledger, ops: seq<TxOp>, id: ScId, height: int, net: Net)
    requires ApplyOps(l, ops, height, net).Done?
    ensures var l' := ApplyOps(l, ops, height, net).value;
      && M.ApplyOps(Of(l, id), Filter(ops, id), height, net) == Done(Of(l', id))
      && (Normal(l.events) ==> Normal(l'.events))
  {
    if ops != [] {
      var init, last := ops[..|ops| - 1], ops[|ops| - 1];
      ApplyOpsProject(l, init, id, height, net);
      var mid := ApplyOps(l, init, height, net).value;
      ApplyOpFollows(mid, last.id, last.op, height, net);
      FilterLast(ops, id);
    }
  }

  lemma FilterLast(ops: seq<TxOp>, id: ScId)
    requires ops != []
    ensures var init, last := Filter(ops[..|ops| - 1], id), ops[|ops| - 1];
      && Filter(ops, id) == (if last.id == id then init + [last.op] else init)
      && (last.id == id ==> Filter(ops, id)[..|Filter(ops, id)| - 1] == init)
  {
  }

  /** Undoing goes through exactly when it does for every sidechain. */
  lemma {:induction false} RevertOpsProject(l: Ledger, ops: seq<TxOp>, height: int, net: Net)
    requires forall id :: !M.RevertOps(Of(l, id), Filter(ops, id), height, net).AssertFailed?
    ensures var r := RevertOps(l, ops, height, net);
      && (r.Done? <==> forall id :: M.RevertOps(Of(l, id), Filter(ops, id), height, net).Done?)
      && (r.Done? ==> forall id :: M.RevertOps(Of(l, id), Filter(ops, id), height, net) == Done(Of(r.value, id)))
      && (r.Done? && Normal(l.events) ==> Normal(r.value.events))
  {
    if ops != [] {
      var init, last := ops[..|ops| - 1], ops[|ops| - 1];
      forall id
        ensures var before, after := M.RevertOps(Of(l, id), Filter(init, id), height, net),
          M.RevertOps(Of(l, id), Filter(ops, id), height, net);
          && !before.AssertFailed?
          && (after.Done? ==> before.Done?)
          && (id != last.id ==> after == before)
          && (id == last.id && before.Done? ==> after == M.RevertOp(before.value, last.op, height, net))
      {
        FilterLast(ops, id);
      }
      RevertOpsProject(l, init, height, net);
      var r := RevertOps(l, init, height, net);
      if r.Done? {
        RevertOpFollows(r.value, last.id, last.op, height, net);
      }
    }
  }
}
