/**
 * The chain state as the node holds it: a per-block view over the tip cache over the store
 * (CCoinsViewCache), whose methods change cached entries and flags in place. Every method is
 * proved against the ledger functions of Ledger, Blocks and BlockUndo.
 */
module ChainState {
  import opened Outcomes
  import opened SidechainTypes
  import opened EventIndex
  import opened M = SidechainMachine
  import opened C = LayeredCache
  import L = Ledger
  import B = Blocks
  import opened T = BlockUndo
  import opened Coins
  import CC = CoinsCache
  import opened D = CeasedCoins
  import opened SupersededCoins
  import opened ViewLayers

  class ChainState {
    const net: Net
    var scs: Layers<ScId, Sidechain>
    var events: Layers<int, Events>
    var nullifiers: Layers<(ScId, nat), ()>
    var coins: CC.CoinsLayers<Hash>

    constructor (net: Net)
      ensures Valid() && EmptyView() && this.net == net && View() == Tip() == L.GENESIS
      ensures CoinsView() == CoinsTip() == map[]
    {
      this.net := net;
      scs, events, nullifiers := Layers(map[], map[], map[]), Layers(map[], map[], map[]), Layers(map[], map[], map[]);
      coins := CC.CoinsLayers(map[], map[], map[]);
    }

    ghost predicate Valid()
      reads this
    {
      Sound(scs) && Sound(events) && Sound(nullifiers) && CC.Sound(coins)
    }

    /** The ledger that the view shows. */
    ghost function View(): L.Ledger
      reads this
    {
      L.Ledger(Shown(scs), Shown(events), Shown(nullifiers).Keys)
    }

    /** The ledger that the tip shows. */
    ghost function Tip(): L.Ledger
      reads this
    {
      L.Ledger(TipShown(scs), TipShown(events), TipShown(nullifiers).Keys)
    }

    /** A view that has only connected. */
    ghost predicate Connecting()
      reads this
    {
      Valid() && NoneErased(scs.view) && NoneErased(nullifiers.view) && ErasedEmpty(events.view)
    }

    /** A view that has only disconnected. */
    ghost predicate Disconnecting()
      reads this
    {
      Valid() && ErasedEmpty(events.view)
    }

    /** A call ended the way the ledger function does, and the view shows its result. */
    ghost predicate Reached(r: Outcome<()>, spec: Outcome<L.Ledger>)
      reads this
    {
      match spec
      case Done(l) => r.Done? && View() == l
      case Rejected => r.Rejected?
      case AssertFailed => r.AssertFailed?
    }

    ghost predicate ReachedWith<U>(r: Outcome<U>, spec: Outcome<(L.Ledger, U)>)
      reads this
    {
      match spec
      case Done((l, u)) => r == Done(u) && View() == l
      case Rejected => r.Rejected?
      case AssertFailed => r.AssertFailed?
    }

    // ---------- Getters and entries ----------

    method HaveSidechain(id: ScId) returns (have: bool)
      requires Valid()
      modifies this`scs
      ensures Valid() && View() == old(View()) && Tip() == old(Tip())
      ensures old(NoneErased(scs.view)) ==> NoneErased(scs.view)
      ensures have <==> id in View().scs
    {
      hide C.Sound, C.Shown, C.TipShown, C.Look, C.Open, C.Write;
      LookIsSilent(scs, id);
      LookKeepsUnerased(scs, id);
      scs := Look(scs, id);
      have := id in scs.view && scs.view[id].flag != Erased;
    }

    method GetSidechain(id: ScId) returns (sc: Option<Sidechain>)
      requires Valid()
      modifies this`scs
      ensures Valid() && View() == old(View()) && Tip() == old(Tip())
      ensures old(NoneErased(scs.view)) ==> NoneErased(scs.view)
      ensures sc == if id in View().scs then Some(View().scs[id]) else None
    {
      hide C.Sound, C.Shown, C.TipShown, C.Look, C.Open, C.Write;
      LookIsSilent(scs, id);
      if id in View().scs {
        LookedUp(scs, id);
      }
      LookKeepsUnerased(scs, id);
      scs := Look(scs, id);
      sc := if id in scs.view && scs.view[id].flag != Erased then Some(scs.view[id].value) else None;
    }

    method HaveSidechainEvents(h: int) returns (have: bool)
      requires Valid() && ErasedEmpty(events.view)
      modifies this`events
      ensures Valid() && ErasedEmpty(events.view) && View() == old(View()) && Tip() == old(Tip())
      ensures events == Look(old(events), h)
      ensures have <==> h in View().events
    {
      hide C.Sound, C.Shown, C.TipShown, C.Look, C.Open, C.Write;
      LookIsSilent(events, h);
      WriteKeepsEmpty(events, h, NO_EVENTS, Dirty);
      events := Look(events, h);
      have := h in events.view && events.view[h].flag != Erased;
    }

    method GetSidechainEvents(h: int) returns (e: Option<Events>)
      requires Valid() && ErasedEmpty(events.view)
      modifies this`events
      ensures Valid() && ErasedEmpty(events.view) && View() == old(View()) && Tip() == old(Tip())
      ensures e == if h in View().events then Some(View().events[h]) else None
    {
      hide C.Sound, C.Shown, C.TipShown, C.Look, C.Open, C.Write;
      LookIsSilent(events, h);
      if h in View().events {
        LookedUp(events, h);
      }
      WriteKeepsEmpty(events, h, NO_EVENTS, Dirty);
      events := Look(events, h);
      e := if h in events.view && events.view[h].flag != Erased then Some(events.view[h].value) else None;
    }

    /** ModifySidechainEvents, only to mark the entry as erased; its listings stay in it. */
    method EraseSidechainEvents(h: int)
      requires Valid() && h in View().events
      modifies this`events
      ensures Valid() && Tip() == old(Tip()) && View() == old(View()).(events := old(View()).events - {h})
    {
      hide C.Sound, C.Shown, C.TipShown, C.Look, C.Open, C.Write;
      EraseIsSound(events, h, NO_EVENTS);
      events := Open(events, h, NO_EVENTS);
      events := Write(events, h, events.view[h].value, Erased);
    }

    /** ModifySidechain for a record that is there, written back. */
    method PutSidechain(id: ScId, sc: Sidechain, keepFresh: bool)
      requires Valid() && id in View().scs
      modifies this`scs
      ensures Valid() && Tip() == old(Tip()) && View() == old(View()).(scs := old(View()).scs[id := sc])
      ensures old(NoneErased(scs.view)) ==> NoneErased(scs.view)
    {
      hide C.Sound, C.Shown, C.TipShown, C.Look, C.Open, C.Write;
      PutIsSound(scs, id, sc, keepFresh);
      var flag := PutFlag(scs, id, keepFresh);
      scs := Open(scs, id, BLANK_RECORD);
      scs := Write(scs, id, sc, flag);
    }

    /** ModifySidechain for a new record; an erased entry would be reused as it is. */
    method CreateSidechain(id: ScId, sc: Sidechain)
      requires Valid() && id !in View().scs && NoneErased(scs.view)
      modifies this`scs
      ensures Valid() && Tip() == old(Tip()) && View() == old(View()).(scs := old(View()).scs[id := sc])
      ensures NoneErased(scs.view)
    {
      hide C.Sound, C.Shown, C.TipShown, C.Look, C.Open, C.Write;
      CreateIsSound(scs, id, sc);
      scs := Open(scs, id, BLANK_RECORD);
      scs := Write(scs, id, sc, Fresh);
    }

    method EraseSidechain(id: ScId)
      requires Valid() && id in View().scs
      modifies this`scs
      ensures Valid() && Tip() == old(Tip()) && View() == old(View()).(scs := old(View()).scs - {id})
    {
      hide C.Sound, C.Shown, C.TipShown, C.Look, C.Open, C.Write;
      EraseIsSound(scs, id, BLANK_RECORD);
      scs := Open(scs, id, BLANK_RECORD);
      scs := Write(scs, id, scs.view[id].value, Erased);
    }

    method AddMaturing(h: int, id: ScId)
      requires Valid() && ErasedEmpty(events.view)
      modifies this`events
      ensures Valid() && ErasedEmpty(events.view) && Tip() == old(Tip())
      ensures View() == old(View()).(events := EventIndex.AddMaturing(old(View()).events, h, id))
    {
      hide C.Sound, C.Shown, C.TipShown, C.Look, C.Open, C.Write;
      OpenedEvents(events, h);
      ghost var before := events;
      events := Open(events, h, NO_EVENTS);
      var e := events.view[h].value;
      e := e.(maturing := e.maturing + {id});
      ListingIsSound(before, h, e);
      events := Write(events, h, e, ListFlag(events, h));
    }

    method AddCeasing(h: int, id: ScId)
      requires Valid() && ErasedEmpty(events.view)
      modifies this`events
      ensures Valid() && ErasedEmpty(events.view) && Tip() == old(Tip())
      ensures View() == old(View()).(events := EventIndex.AddCeasing(old(View()).events, h, id))
    {
      hide C.Sound, C.Shown, C.TipShown, C.Look, C.Open, C.Write;
      OpenedEvents(events, h);
      ghost var before := events;
      events := Open(events, h, NO_EVENTS);
      var e := events.view[h].value;
      e := e.(ceasing := e.ceasing + {id});
      ListingIsSound(before, h, e);
      events := Write(events, h, e, ListFlag(events, h));
    }

    method DropMaturing(h: int, id: ScId)
      requires Valid() && ErasedEmpty(events.view)
      modifies this`events
      ensures Valid() && ErasedEmpty(events.view) && Tip() == old(Tip())
      ensures View() == old(View()).(events := EventIndex.DropMaturing(old(View()).events, h, id))
    {
      hide C.Sound, C.Shown, C.TipShown, C.Look, C.Open, C.Write;
      OpenedEvents(events, h);
      ghost var before := events;
      events := Open(events, h, NO_EVENTS);
      var e := events.view[h].value;
      e := e.(maturing := e.maturing - {id});
      UnlistingIsSound(before, h, e);
      events := Write(events, h, e, UnlistFlag(e));
    }

    method DropCeasing(h: int, id: ScId)
      requires Valid() && ErasedEmpty(events.view)
      modifies this`events
      ensures Valid() && ErasedEmpty(events.view) && Tip() == old(Tip())
      ensures View() == old(View()).(events := EventIndex.DropCeasing(old(View()).events, h, id))
    {
      hide C.Sound, C.Shown, C.TipShown, C.Look, C.Open, C.Write;
      OpenedEvents(events, h);
      ghost var before := events;
      events := Open(events, h, NO_EVENTS);
      var e := events.view[h].value;
      e := e.(ceasing := e.ceasing - {id});
      UnlistingIsSound(before, h, e);
      events := Write(events, h, e, UnlistFlag(e));
    }

    /** HaveCswNullifier is the look-up at the start of the two methods below. */
    method HaveCswNullifier(id: ScId, nf: nat) returns (have: bool)
      requires Valid()
      modifies this`nullifiers
      ensures Valid() && View() == old(View()) && Tip() == old(Tip())
      ensures nullifiers == Look(old(nullifiers), (id, nf))
      ensures have <==> (id, nf) in View().nullifiers
    {
      hide C.Sound, C.Shown, C.TipShown, C.Look, C.Open, C.Write;
      LookIsSilent(nullifiers, (id, nf));
      nullifiers := Look(nullifiers, (id, nf));
      have := (id, nf) in nullifiers.view && nullifiers.view[(id, nf)].flag != Erased;
    }

    /**
     * The insertion does not overwrite, so a nullifier removed earlier in this view is reported
     * as added but is not: it is added exactly when the view holds no entry for it.
     */
    method AddCswNullifier(id: ScId, nf: nat) returns (ok: bool)
      requires Valid()
      modifies this`nullifiers
      ensures Valid() && Tip() == old(Tip())
      ensures ok <==> (id, nf) !in old(View()).nullifiers
      ensures View() == if ok && old((id, nf) !in nullifiers.view)
                        then old(View()).(nullifiers := old(View()).nullifiers + {(id, nf)}) else old(View())
      ensures old(NoneErased(nullifiers.view)) ==> NoneErased(nullifiers.view)
    {
      hide C.Sound, C.Shown, C.TipShown, C.Look, C.Open, C.Write;
      LookKeepsUnerased(nullifiers, (id, nf));
      ghost var before := nullifiers;
      var have := HaveCswNullifier(id, nf);
      ok := !have;
      if ok {
        AddIsSound(before, (id, nf));
        if (id, nf) !in nullifiers.view {
          nullifiers := Write(nullifiers, (id, nf), (), Fresh);
        }
      }
    }

    method RemoveCswNullifier(id: ScId, nf: nat) returns (ok: bool)
      requires Valid()
      modifies this`nullifiers
      ensures Valid() && Tip() == old(Tip())
      ensures ok <==> (id, nf) in old(View()).nullifiers
      ensures ok ==> View() == old(View()).(nullifiers := old(View()).nullifiers - {(id, nf)})
      ensures !ok ==> View() == old(View())
    {
      hide C.Sound, C.Shown, C.TipShown, C.Look, C.Open, C.Write;
      ghost var before := nullifiers;
      var have := HaveCswNullifier(id, nf);
      ok := have;
      if ok {
        RemoveIsSound(before, (id, nf));
        nullifiers := Write(nullifiers, (id, nf), (), Erased);
      }
    }

    // ---------- Transactions: UpdateSidechain and RevertTxOutputs, output by output ----------

    method ApplyWithdrawal(csw: Csw, height: int) returns (r: Outcome<()>)
      requires Connecting()
      modifies this`scs
      ensures Connecting() && Tip() == old(Tip())
      ensures Reached(r, L.ApplyOp(old(View()), csw.id, Withdraw(csw.value), height, net))
    {
      hide C.Sound, C.Shown, C.TipShown, NoneErased, ErasedEmpty;
      var have := HaveSidechain(csw.id);
      if !have {
        return Rejected;
      }
      var found := GetSidechain(csw.id);
      var sc := found.value;
      if sc.balance - csw.value < 0 {
        return AssertFailed;
      }
      PutSidechain(csw.id, sc.(balance := sc.balance - csw.value), false);
      return Done(());
    }

    method ApplyCreation(cr: Creation, tx: Hash, height: int) returns (r: Outcome<()>)
      requires Connecting()
      modifies this`scs, this`events
      ensures Connecting() && Tip() == old(Tip())
      ensures Reached(r, L.ApplyOp(old(View()), cr.id, Create(cr.value, tx, cr.fixed, cr.ftFee, cr.mbtrFee), height,
        net))
    {
      hide C.Sound, C.Shown, C.TipShown, NoneErased, ErasedEmpty;
      var have := HaveSidechain(cr.id);
      if have {
        return Rejected;
      }
      var due := height + net.maturity;
      var sc := FreshRecord(Create(cr.value, tx, cr.fixed, cr.ftFee, cr.mbtrFee),
        height).(immature := map[due := cr.value]);
      CreateSidechain(cr.id, sc);
      AddMaturing(due, cr.id);
      AddCeasing(CeasingHeight(sc), cr.id);
      return Done(());
    }

    method ApplyTransfer(p: Payment, height: int) returns (r: Outcome<()>)
      requires Connecting()
      modifies this`scs, this`events
      ensures Connecting() && Tip() == old(Tip())
      ensures Reached(r, L.ApplyOp(old(View()), p.id, Transfer(p.value), height, net))
    {
      hide C.Sound, C.Shown, C.TipShown, NoneErased, ErasedEmpty;
      var have := HaveSidechain(p.id);
      if !have {
        return Rejected;
      }
      var due := height + net.maturity;
      var found := GetSidechain(p.id);
      var sc := found.value;
      PutSidechain(p.id, sc.(immature := sc.immature[due := Amount(sc.immature, due) + p.value]), true);
      AddMaturing(due, p.id);
      return Done(());
    }

    method ApplyNullifier(csw: Csw, height: int) returns (r: Outcome<()>)
      requires Connecting()
      modifies this`nullifiers
      ensures Connecting() && Tip() == old(Tip())
      ensures Reached(r, L.ApplyOp(old(View()), csw.id, UseNullifier(csw.nullifier), height, net))
    {
      hide C.Sound, C.Shown, C.TipShown, NoneErased, ErasedEmpty;
      NotErasedShown(nullifiers, (csw.id, csw.nullifier));
      var ok := AddCswNullifier(csw.id, csw.nullifier);
      return if ok then Done(()) else Rejected;
    }

    method RevertWithdrawal(csw: Csw, height: int) returns (r: Outcome<()>)
      requires Disconnecting()
      modifies this`scs
      ensures Disconnecting() && Tip() == old(Tip())
      ensures Reached(r, L.RevertOp(old(View()), csw.id, Withdraw(csw.value), height, net))
    {
      hide C.Sound, C.Shown, C.TipShown, NoneErased, ErasedEmpty;
      var have := HaveSidechain(csw.id);
      if !have {
        return Rejected;
      }
      var found := GetSidechain(csw.id);
      var sc := found.value;
      PutSidechain(csw.id, sc.(balance := sc.balance + csw.value), false);
      return Done(());
    }

    /** The maturing listing is dropped even if other payments of the block are still listed there. */
    method RevertTransfer(p: Payment, height: int) returns (r: Outcome<()>)
      requires Disconnecting()
      modifies this`scs, this`events
      ensures Disconnecting() && Tip() == old(Tip())
      ensures Reached(r, L.RevertOp(old(View()), p.id, Transfer(p.value), height, net))
    {
      hide C.Sound, C.Shown, C.TipShown, NoneErased, ErasedEmpty;
      var have := HaveSidechain(p.id);
      if !have {
        return Rejected;
      }
      var due := height + net.maturity;
      var found := GetSidechain(p.id);
      var sc := found.value;
      var immature := Decrement(sc.immature, due, p.value);
      if !immature.Done? {
        return Rejected;
      }
      PutSidechain(p.id, sc.(immature := immature.value), false);
      DropMaturing(due, p.id);
      return Done(());
    }

    method RevertCreation(cr: Creation, tx: Hash, height: int) returns (r: Outcome<()>)
      requires Disconnecting()
      modifies this`scs, this`events
      ensures Disconnecting() && Tip() == old(Tip())
      ensures Reached(r, L.RevertOp(old(View()), cr.id, Create(cr.value, tx, cr.fixed, cr.ftFee, cr.mbtrFee), height,
        net))
    {
      hide C.Sound, C.Shown, C.TipShown, NoneErased, ErasedEmpty;
      var have := HaveSidechain(cr.id);
      if !have {
        return Rejected;
      }
      var due := height + net.maturity;
      var found := GetSidechain(cr.id);
      var sc := found.value;
      var ceasing := CeasingHeight(sc);
      var immature := Decrement(sc.immature, due, cr.value);
      if !immature.Done? || sc.balance > 0 {
        return Rejected;
      }
      EraseSidechain(cr.id);
      var listed := HaveSidechainEvents(due);
      if listed {
        DropMaturing(due, cr.id);
      }
      assert View().events == EventIndex.DropMaturing(old(View()).events, due, cr.id);
      listed := HaveSidechainEvents(ceasing);
      if !listed {
        return Rejected;
      }
      DropCeasing(ceasing, cr.id);
      return Done(());
    }

    method RevertNullifier(csw: Csw, height: int) returns (r: Outcome<()>)
      requires Disconnecting()
      modifies this`nullifiers
      ensures Disconnecting() && Tip() == old(Tip())
      ensures Reached(r, L.RevertOp(old(View()), csw.id, UseNullifier(csw.nullifier), height, net))
    {
      hide C.Sound, C.Shown, C.TipShown, NoneErased, ErasedEmpty;
      var ok := RemoveCswNullifier(csw.id, csw.nullifier);
      return if ok then Done(()) else Rejected;
    }

    // ---------- Transactions: the loops over their outputs ----------

    method ApplyWithdrawals(csws: seq<Csw>, height: int) returns (r: Outcome<()>)
      requires Connecting()
      modifies this`scs
      ensures Connecting() && Tip() == old(Tip())
      ensures Reached(r, L.ApplyOps(old(View()), Withdrawals(csws), height, net))
    {
      ApplyStarts(View(), Withdrawals(csws), height, net);
      hide C.Sound, C.Shown, C.TipShown, NoneErased, ErasedEmpty, L.ApplyOp, L.ApplyOps, L.RevertOp, L.RevertOps;
      for i := 0 to |csws|
        invariant Connecting() && Tip() == old(Tip())
        invariant L.ApplyOps(old(View()), Withdrawals(csws)[..i], height, net) == Done(View())
      {
        ApplyNext(old(View()), Withdrawals(csws), i, height, net);
        r := ApplyWithdrawal(csws[i], height);
        if !r.Done? {
          return;
        }
      }
      assert Withdrawals(csws)[..|csws|] == Withdrawals(csws);
      return Done(());
    }

    method ApplyCreations(crs: seq<Creation>, tx: Hash, height: int) returns (r: Outcome<()>)
      requires Connecting()
      modifies this`scs, this`events
      ensures Connecting() && Tip() == old(Tip())
      ensures Reached(r, L.ApplyOps(old(View()), Creations(crs, tx), height, net))
    {
      ApplyStarts(View(), Creations(crs, tx), height, net);
      hide C.Sound, C.Shown, C.TipShown, NoneErased, ErasedEmpty, L.ApplyOp, L.ApplyOps, L.RevertOp, L.RevertOps;
      for i := 0 to |crs|
        invariant Connecting() && Tip() == old(Tip())
        invariant L.ApplyOps(old(View()), Creations(crs, tx)[..i], height, net) == Done(View())
      {
        ApplyNext(old(View()), Creations(crs, tx), i, height, net);
        r := ApplyCreation(crs[i], tx, height);
        if !r.Done? {
          return;
        }
      }
      assert Creations(crs, tx)[..|crs|] == Creations(crs, tx);
      return Done(());
    }

    method ApplyTransfers(payments: seq<Payment>, height: int) returns (r: Outcome<()>)
      requires Connecting()
      modifies this`scs, this`events
      ensures Connecting() && Tip() == old(Tip())
      ensures Reached(r, L.ApplyOps(old(View()), Transfers(payments), height, net))
    {
      ApplyStarts(View(), Transfers(payments), height, net);
      hide C.Sound, C.Shown, C.TipShown, NoneErased, ErasedEmpty, L.ApplyOp, L.ApplyOps, L.RevertOp, L.RevertOps;
      for i := 0 to |payments|
        invariant Connecting() && Tip() == old(Tip())
        invariant L.ApplyOps(old(View()), Transfers(payments)[..i], height, net) == Done(View())
      {
        ApplyNext(old(View()), Transfers(payments), i, height, net);
        r := ApplyTransfer(payments[i], height);
        if !r.Done? {
          return;
        }
      }
      assert Transfers(payments)[..|payments|] == Transfers(payments);
      return Done(());
    }

    method AddCswNullifiers(csws: seq<Csw>, height: int) returns (r: Outcome<()>)
      requires Connecting()
      modifies this`nullifiers
      ensures Connecting() && Tip() == old(Tip())
      ensures Reached(r, L.ApplyOps(old(View()), Nullifiers(csws), height, net))
    {
      ApplyStarts(View(), Nullifiers(csws), height, net);
      hide C.Sound, C.Shown, C.TipShown, NoneErased, ErasedEmpty, L.ApplyOp, L.ApplyOps, L.RevertOp, L.RevertOps;
      for i := 0 to |csws|
        invariant Connecting() && Tip() == old(Tip())
        invariant L.ApplyOps(old(View()), Nullifiers(csws)[..i], height, net) == Done(View())
      {
        ApplyNext(old(View()), Nullifiers(csws), i, height, net);
        r := ApplyNullifier(csws[i], height);
        if !r.Done? {
          return;
        }
      }
      assert Nullifiers(csws)[..|csws|] == Nullifiers(csws);
      return Done(());
    }

    /** CCoinsViewCache::UpdateSidechain(tx). */
    method UpdateSidechain(tx: Tx, height: int) returns (r: Outcome<()>)
      requires Connecting()
      modifies this`scs, this`events
      ensures Connecting() && Tip() == old(Tip())
      ensures Reached(r, L.ApplyOps(old(View()), OutputOps(tx), height, net))
    {
      hide C.Sound, C.Shown, C.TipShown, NoneErased, ErasedEmpty, L.ApplyOp, L.ApplyOps, L.RevertOp, L.RevertOps;
      var w, c, t, b := Withdrawals(tx.csws), Creations(tx.creations, tx.hash), Transfers(tx.transfers),
        Transfers(tx.requests);
      L.ApplyOpsSplit(View(), w + c + t, b, height, net);
      L.ApplyOpsSplit(View(), w + c, t, height, net);
      L.ApplyOpsSplit(View(), w, c, height, net);
      r := ApplyWithdrawals(tx.csws, height);
      if !r.Done? {
        return;
      }
      r := ApplyCreations(tx.creations, tx.hash, height);
      if !r.Done? {
        return;
      }
      r := ApplyTransfers(tx.transfers, height);
      if !r.Done? {
        return;
      }
      r := ApplyTransfers(tx.requests, height);
    }

    /** The part of ConnectBlock that deals with transactions. */
    method ConnectTransactions(txs: seq<Tx>, height: int) returns (r: Outcome<()>)
      requires Connecting()
      modifies this`scs, this`events, this`nullifiers
      ensures Connecting() && Tip() == old(Tip())
      ensures Reached(r, L.ApplyOps(old(View()), AllOps(txs), height, net))
    {
      assert L.ApplyOps(View(), AllOps([]), height, net) == Done(View());
      assert txs[..0] == [];
      hide C.Sound, C.Shown, C.TipShown, NoneErased, ErasedEmpty, L.ApplyOp, L.ApplyOps, L.RevertOp, L.RevertOps;
      for i := 0 to |txs|
        invariant Connecting() && Tip() == old(Tip())
        invariant L.ApplyOps(old(View()), AllOps(txs[..i]), height, net) == Done(View())
      {
        AllOpsNext(old(View()), txs, i, height, net);
        L.ApplyOpsSplit(View(), OutputOps(txs[i]), Nullifiers(txs[i].csws), height, net);
        r := UpdateSidechain(txs[i], height);
        if !r.Done? {
          return;
        }
        r := AddCswNullifiers(txs[i].csws, height);
        if !r.Done? {
          return;
        }
      }
      assert txs[..|txs|] == txs;
      return Done(());
    }

    method RevertWithdrawals(csws: seq<Csw>, height: int) returns (r: Outcome<()>)
      requires Disconnecting()
      modifies this`scs
      ensures Disconnecting() && Tip() == old(Tip())
      ensures Reached(r, L.RevertOps(old(View()), Withdrawals(csws), height, net))
    {
      RevertStarts(View(), Withdrawals(csws), height, net);
      hide C.Sound, C.Shown, C.TipShown, NoneErased, ErasedEmpty, L.ApplyOp, L.ApplyOps, L.RevertOp, L.RevertOps;
      for i := 0 to |csws|
        invariant Disconnecting() && Tip() == old(Tip())
        invariant L.RevertOps(old(View()), Withdrawals(csws)[..i], height, net) == Done(View())
      {
        RevertNext(old(View()), Withdrawals(csws), i, height, net);
        r := RevertWithdrawal(csws[i], height);
        if !r.Done? {
          return;
        }
      }
      assert Withdrawals(csws)[..|csws|] == Withdrawals(csws);
      return Done(());
    }

    method RevertCreations(crs: seq<Creation>, tx: Hash, height: int) returns (r: Outcome<()>)
      requires Disconnecting()
      modifies this`scs, this`events
      ensures Disconnecting() && Tip() == old(Tip())
      ensures Reached(r, L.RevertOps(old(View()), Creations(crs, tx), height, net))
    {
      RevertStarts(View(), Creations(crs, tx), height, net);
      hide C.Sound, C.Shown, C.TipShown, NoneErased, ErasedEmpty, L.ApplyOp, L.ApplyOps, L.RevertOp, L.RevertOps;
      for i := 0 to |crs|
        invariant Disconnecting() && Tip() == old(Tip())
        invariant L.RevertOps(old(View()), Creations(crs, tx)[..i], height, net) == Done(View())
      {
        RevertNext(old(View()), Creations(crs, tx), i, height, net);
        r := RevertCreation(crs[i], tx, height);
        if !r.Done? {
          return;
        }
      }
      assert Creations(crs, tx)[..|crs|] == Creations(crs, tx);
      return Done(());
    }

    method RevertTransfers(payments: seq<Payment>, height: int) returns (r: Outcome<()>)
      requires Disconnecting()
      modifies this`scs, this`events
      ensures Disconnecting() && Tip() == old(Tip())
      ensures Reached(r, L.RevertOps(old(View()), Transfers(payments), height, net))
    {
      RevertStarts(View(), Transfers(payments), height, net);
      hide C.Sound, C.Shown, C.TipShown, NoneErased, ErasedEmpty, L.ApplyOp, L.ApplyOps, L.RevertOp, L.RevertOps;
      for i := 0 to |payments|
        invariant Disconnecting() && Tip() == old(Tip())
        invariant L.RevertOps(old(View()), Transfers(payments)[..i], height, net) == Done(View())
      {
        RevertNext(old(View()), Transfers(payments), i, height, net);
        r := RevertTransfer(payments[i], height);
        if !r.Done? {
          return;
        }
      }
      assert Transfers(payments)[..|payments|] == Transfers(payments);
      return Done(());
    }

    method RemoveCswNullifiers(csws: seq<Csw>, height: int) returns (r: Outcome<()>)
      requires Disconnecting()
      modifies this`nullifiers
      ensures Disconnecting() && Tip() == old(Tip())
      ensures Reached(r, L.RevertOps(old(View()), Nullifiers(csws), height, net))
    {
      RevertStarts(View(), Nullifiers(csws), height, net);
      hide C.Sound, C.Shown, C.TipShown, NoneErased, ErasedEmpty, L.ApplyOp, L.ApplyOps, L.RevertOp, L.RevertOps;
      for i := 0 to |csws|
        invariant Disconnecting() && Tip() == old(Tip())
        invariant L.RevertOps(old(View()), Nullifiers(csws)[..i], height, net) == Done(View())
      {
        RevertNext(old(View()), Nullifiers(csws), i, height, net);
        r := RevertNullifier(csws[i], height);
        if !r.Done? {
          return;
        }
      }
      assert Nullifiers(csws)[..|csws|] == Nullifiers(csws);
      return Done(());
    }

    /** CCoinsViewCache::RevertTxOutputs. */
    method RevertTxOutputs(tx: Tx, height: int) returns (r: Outcome<()>)
      requires Disconnecting()
      modifies this`scs, this`events
      ensures Disconnecting() && Tip() == old(Tip())
      ensures Reached(r, L.RevertOps(old(View()), OutputUndoOps(tx), height, net))
    {
      hide C.Sound, C.Shown, C.TipShown, NoneErased, ErasedEmpty, L.ApplyOp, L.ApplyOps, L.RevertOp, L.RevertOps;
      var b, t, c, w := Transfers(tx.requests), Transfers(tx.transfers), Creations(tx.creations, tx.hash),
        Withdrawals(tx.csws);
      L.RevertOpsSplit(View(), b + t + c, w, height, net);
      L.RevertOpsSplit(View(), b + t, c, height, net);
      L.RevertOpsSplit(View(), b, t, height, net);
      r := RevertTransfers(tx.requests, height);
      if !r.Done? {
        return;
      }
      r := RevertTransfers(tx.transfers, height);
      if !r.Done? {
        return;
      }
      r := RevertCreations(tx.creations, tx.hash, height);
      if !r.Done? {
        return;
      }
      r := RevertWithdrawals(tx.csws, height);
    }

    /** The part of DisconnectBlock that deals with transactions, last one first. */
    method DisconnectTransactions(txs: seq<Tx>, height: int) returns (r: Outcome<()>)
      requires Disconnecting()
      modifies this`scs, this`events, this`nullifiers
      ensures Disconnecting() && Tip() == old(Tip())
      ensures Reached(r, L.RevertOps(old(View()), AllUndoOps(txs), height, net))
    {
      assert txs[..|txs|] == txs;
      hide C.Sound, C.Shown, C.TipShown, NoneErased, ErasedEmpty, L.ApplyOp, L.ApplyOps, L.RevertOp, L.RevertOps;
      var i := |txs|;
      while i > 0
        invariant 0 <= i <= |txs|
        invariant Disconnecting() && Tip() == old(Tip())
        invariant L.RevertOps(old(View()), AllUndoOps(txs), height, net) ==
          L.RevertOps(View(), AllUndoOps(txs[..i]), height, net)
      {
        i := i - 1;
        AllUndoOpsNext(View(), txs, i, height, net);
        r := RemoveCswNullifiers(txs[i].csws, height);
        if !r.Done? {
          return;
        }
        r := RevertTxOutputs(txs[i], height);
        if !r.Done? {
          return;
        }
      }
      RevertStarts(View(), AllUndoOps(txs[..0]), height, net);
      return Done(());
    }

    // ---------- Certificates ----------

    /** CCoinsViewCache::UpdateSidechain(cert). */
    method UpdateSidechainByCert(id: ScId, cert: Cert) returns (r: Outcome<CertUndo>)
      requires Connecting()
      modifies this`scs, this`events
      ensures Connecting() && Tip() == old(Tip())
      ensures ReachedWith(r, B.ApplyCert(old(View()), id, cert, net))
    {
      hide C.Sound, C.Shown, C.TipShown, NoneErased, ErasedEmpty;
      var have := HaveSidechain(id);
      if !have {
        return Rejected;
      }
      var found := GetSidechain(id);
      var sc := found.value;
      var prevCeasing := CeasingHeight(sc);
      var certified := Certify(sc, cert, net);
      if !certified.Done? {
        return if certified.Rejected? then Rejected else AssertFailed;
      }
      var (sc', undo) := certified.value;
      PutSidechain(id, sc', false);
      if cert.epoch != undo.prevEpoch {
        have := HaveSidechainEvents(prevCeasing);
        if !have {
          return Rejected;
        }
        DropCeasing(prevCeasing, id);
        AddCeasing(CeasingHeight(sc'), id);
      }
      return Done(undo);
    }

    /** CCoinsViewCache::RestoreSidechain. */
    method RestoreSidechain(id: ScId, cert: Cert, undo: CertUndo) returns (r: Outcome<()>)
      requires Disconnecting()
      modifies this`scs, this`events
      ensures Disconnecting() && Tip() == old(Tip())
      ensures Reached(r, B.RevertCert(old(View()), id, cert, undo))
    {
      hide C.Sound, C.Shown, C.TipShown, NoneErased, ErasedEmpty;
      var have := HaveSidechain(id);
      if !have {
        return Rejected;
      }
      var found := GetSidechain(id);
      var sc := found.value;
      var toErase := CeasingHeight(sc);
      var restored := Uncertify(sc, cert, undo);
      if !restored.Done? {
        return if restored.Rejected? then Rejected else AssertFailed;
      }
      PutSidechain(id, restored.value, false);
      if cert.epoch != undo.prevEpoch {
        have := HaveSidechainEvents(toErase);
        if !have {
          return Rejected;
        }
        DropCeasing(toErase, id);
        AddCeasing(CeasingHeight(restored.value), id);
      }
      return Done(());
    }

    /** The certificate that a top certificate supersedes is voided. */
    method VoidSupersededCert(
      c: B.ScCert, undo: CertUndo, lows: map<ScId, seq<OutUndo>>,
      ghost certs: seq<B.ScCert>, ghost undos: map<ScId, CertUndo>, ghost before: map<Hash, Coins>)
      returns (lows': map<ScId, seq<OutUndo>>)
      requires Connecting() && SupersededRecorded(certs, undos, before, lows)
      requires CoinsView() == WithoutSuperseded(certs, undos, before, lows)
      requires OnceEach(certs + [c], undos[c.id := undo]) && forall d :: d in certs ==> d.id != c.id
      requires SupersededBy(c.cert, undo) in before ==> OfCert(before[SupersededBy(c.cert, undo)])
      modifies this`coins
      ensures Connecting() && Tip() == old(Tip()) && View() == old(View()) && CoinsTip() == old(CoinsTip())
      ensures SupersededRecorded(certs + [c], undos[c.id := undo], before, lows')
      ensures CoinsView() == WithoutSuperseded(certs + [c], undos[c.id := undo], before, lows')
    {
      hide C.Sound, C.Shown, C.TipShown, CC.Sound, CC.Shown, CC.TipShown, NoneErased, ErasedEmpty;
      var h := SupersededBy(c.cert, undo);
      ghost var next := if h == NULL_HASH then lows else lows[c.id := BwtUndo(before, h)];
      RecordedNext(certs, c, undos, undo, before, lows, next);
      VoidSuperseded(certs, c, undos, undo, before, lows, next);
      hide SupersededRecorded, WithoutSuperseded, CC.Changed, Voided, VoidedUndo;
      lows' := lows;
      if h != NULL_HASH {
        var bwts := NullifyBackwardTransfers(h);
        lows' := lows[c.id := bwts.value];
      }
    }

    /** The part of ConnectBlock that deals with the top certificates. */
    method ConnectCertificates(certs: seq<B.ScCert>)
      returns (r: Outcome<map<ScId, CertUndo>>, lows: map<ScId, seq<OutUndo>>)
      requires Connecting() && B.Distinct(certs)
      requires CertsHeld(View(), CoinsView()) && FreshCerts(View(), CoinsView(), certs)
      modifies this`scs, this`events, this`coins
      ensures Connecting() && Tip() == old(Tip()) && CoinsTip() == old(CoinsTip())
      ensures ReachedWith(r, B.ApplyCerts(old(View()), certs, net))
      ensures r.Done? ==>
        && SupersededRecorded(certs, r.value, old(CoinsView()), lows)
        && CoinsView() == WithoutSuperseded(certs, r.value, old(CoinsView()), lows)
    {
      ghost var l, before := View(), CoinsView();
      var undos: map<ScId, CertUndo> := map[];
      lows := map[];
      assert certs[..0] == [] && B.ApplyCerts(l, certs[..0], net) == Done((l, undos));
      hide C.Sound, C.Shown, C.TipShown, CC.Sound, CC.Shown, CC.TipShown, NoneErased, ErasedEmpty, B.ApplyCert;
      hide B.ApplyCerts;
      CoinsKept(coins);
      SupersededNone(undos, before, lows);
      hide SupersededRecorded, WithoutSuperseded, CertsHeld, FreshCerts, OnceEach, B.Distinct;
      hide Kept, SupersededBy, OfCert;
      for i := 0 to |certs|
        invariant Connecting() && Tip() == old(Tip()) && CoinsTip() == old(CoinsTip())
        invariant B.ApplyCerts(l, certs[..i], net) == Done((View(), undos))
        invariant SupersededRecorded(certs[..i], undos, before, lows)
        invariant CoinsView() == WithoutSuperseded(certs[..i], undos, before, lows)
      {
        var c := certs[i];
        ApplyCertsNext(l, certs, i, net);
        if c.id in undos && undos[c.id].prevHash != NULL_HASH {
          return AssertFailed, lows;
        }
        var undo := UpdateSidechainByCert(c.id, c.cert);
        if !undo.Done? {
          return if undo.Rejected? then Rejected else AssertFailed, lows;
        }
        SupersedesOnce(l, before, certs, i, net);
        lows := VoidSupersededCert(c, undo.value, lows, certs[..i], undos, before);
        undos := undos[c.id := undo.value];
      }
      assert certs[..|certs|] == certs;
      return Done(undos), lows;
    }

    /** The certificate that a top certificate superseded gets its backward transfers back. */
    method RestoreSupersededCert(
      c: B.ScCert, undos: map<ScId, CertUndo>, lows: map<ScId, seq<OutUndo>>,
      ghost certs: seq<B.ScCert>, ghost before: map<Hash, Coins>)
      requires Disconnecting() && c.id in undos && SupersededRecorded(certs + [c], undos, before, lows)
      requires CoinsView() == WithoutSuperseded(certs + [c], undos, before, lows)
      requires forall d :: d in certs ==> d.id != c.id
      modifies this`coins
      ensures Disconnecting() && Tip() == old(Tip()) && View() == old(View()) && CoinsTip() == old(CoinsTip())
      ensures SupersededRecorded(certs, undos, before, lows)
      ensures CoinsView() == WithoutSuperseded(certs, undos, before, lows)
    {
      hide C.Sound, C.Shown, C.TipShown, CC.Sound, CC.Shown, CC.TipShown, NoneErased, ErasedEmpty;
      hide SupersededRecorded, WithoutSuperseded, CC.Changed;
      var h := SupersededBy(c.cert, undos[c.id]);
      CC.ModifyIsSound(coins, h, CC.Open(coins, h).1.coins);
      CC.OpenTrimmed(coins, h);
      RestoreSuperseded(certs, c, undos, before, lows, CC.Open(coins, h).1.coins);
      if h != NULL_HASH {
        var _ := RestoreBackwardTransfers(h, lows[c.id]);
      }
    }

    /** The part of DisconnectBlock that deals with the top certificates, last one first. */
    method DisconnectCertificates(
      certs: seq<B.ScCert>, undos: map<ScId, CertUndo>, lows: map<ScId, seq<OutUndo>>, ghost before: map<Hash, Coins>)
      returns (r: Outcome<()>)
      requires Disconnecting() && B.Distinct(certs) && SupersededRecorded(certs, undos, before, lows)
      requires CoinsView() == WithoutSuperseded(certs, undos, before, lows)
      modifies this`scs, this`events, this`coins
      ensures Disconnecting() && Tip() == old(Tip()) && CoinsTip() == old(CoinsTip())
      ensures Reached(r, B.RevertCerts(old(View()), certs, undos))
      ensures r.Done? ==> CoinsView() == before
    {
      assert certs[..|certs|] == certs;
      CoinsBefore(certs, undos, before, lows);
      hide C.Sound, C.Shown, C.TipShown, CC.Sound, CC.Shown, CC.TipShown, NoneErased, ErasedEmpty, B.RevertCert;
      hide B.RevertCerts;
      hide SupersededRecorded, WithoutSuperseded, B.Distinct, Kept;
      var i := |certs|;
      while i > 0
        invariant 0 <= i <= |certs|
        invariant Disconnecting() && Tip() == old(Tip()) && CoinsTip() == old(CoinsTip())
        invariant B.RevertCerts(old(View()), certs, undos) == B.RevertCerts(View(), certs[..i], undos)
        invariant SupersededRecorded(certs[..i], undos, before, lows)
        invariant CoinsView() == WithoutSuperseded(certs[..i], undos, before, lows)
      {
        i := i - 1;
        var c := certs[i];
        RevertCertsNext(View(), certs, i, undos);
        if c.id !in undos {
          return AssertFailed;
        }
        NextDistinct(certs, i);
        RestoreSupersededCert(c, undos, lows, certs[..i], before);
        r := RestoreSidechain(c.id, c.cert, undos[c.id]);
        if !r.Done? {
          return;
        }
      }
      RevertCertsDone(View(), certs[..0], undos);
      SupersededNone(undos, before, lows);
      assert certs[..0] == [];
      return Done(());
    }

    // ---------- Backward transfers of ceasing sidechains ----------

    ghost function CoinsView(): map<Hash, Coins>
      reads this
    {
      CC.Shown(coins)
    }

    ghost function CoinsTip(): map<Hash, Coins>
      reads this
    {
      CC.TipShown(coins)
    }

    method NullifyBackwardTransfers(h: Hash) returns (r: Outcome<seq<OutUndo>>)
      requires Valid() && (h in CoinsView() ==> CoinsView()[h].firstBwt >= 0)
      modifies this`coins
      ensures Valid() && CoinsTip() == old(CoinsTip())
      ensures h == NULL_HASH || h !in old(CoinsView()) ==> r == Done([]) && CoinsView() == old(CoinsView())
      ensures h != NULL_HASH && h in old(CoinsView()) ==>
        var c := old(CoinsView())[h];
        if c.bwtMaturity == 0 then r == AssertFailed
        else r == Done(VoidedUndo(c)) && CoinsView() == CC.Changed(old(CoinsView()), h, Voided(c))
    {
      hide C.Sound, C.Shown, C.TipShown, CC.Sound, CC.Shown, CC.TipShown, CC.Look, CC.Open, CC.Close;
      if h == NULL_HASH {
        return Done([]);
      }
      CC.HaveMatchesShown(coins, h);
      CC.LookIsSilent(coins, h);
      var have := CC.HaveCoins(coins, h);
      if !have {
        coins := CC.Look(coins, h);
        return Done([]);
      }
      CC.ShownKept(coins, h);
      CC.ModifyIsSound(coins, h, Voided(CoinsView()[h]));
      var (o, e) := CC.Open(coins, h);
      if e.coins.bwtMaturity == 0 {
        return AssertFailed;
      }
      var left, undo := Void(e.coins);
      coins := CC.Close(o, h, e.(coins := left));
      return Done(undo);
    }

    /** Starts from the coins record shown, or from one without outputs. */
    method RestoreBackwardTransfers(h: Hash, undo: seq<OutUndo>) returns (clean: bool)
      requires Valid() && Restorable(CC.Open(coins, h).1.coins, undo)
      modifies this`coins
      ensures Valid() && CoinsTip() == old(CoinsTip())
      ensures var (c, fits) := RestoredFrom(old(CC.Open(coins, h).1.coins), undo, 0);
        clean == fits && CoinsView() == CC.Changed(old(CoinsView()), h, c)
    {
      hide C.Sound, C.Shown, C.TipShown, CC.Sound, CC.Shown, CC.TipShown, CC.Look, CC.Open, CC.Close;
      var (o, e) := CC.Open(coins, h);
      var restored, fits := Restore(e.coins, undo);
      CC.ModifyIsSound(coins, h, restored);
      coins := CC.Close(o, h, e.(coins := restored));
      clean := fits;
    }

    // ---------- Events ----------

    /** The first loop of HandleSidechainEvents. */
    method MatureAmounts(ids: set<ScId>, height: int) returns (r: Outcome<map<ScId, int>>)
      requires Connecting()
      modifies this`scs
      ensures Connecting() && Tip() == old(Tip())
      ensures if CanMature(old(View()).scs, ids, height)
        then r == Done(MaturedAmounts(old(View()).scs, ids, height))
          && View() == old(View()).(scs := Matured(old(View()).scs, ids, height))
        else r == AssertFailed
    {
      hide C.Sound, C.Shown, C.TipShown, CC.Sound, CC.Shown, CC.TipShown, NoneErased, ErasedEmpty;
      ghost var l := View();
      var rest, amounts := ids, map[];
      MaturedNone(l.scs, height);
      while rest != {}
        invariant rest <= ids && Connecting() && Tip() == old(Tip())
        invariant CanMature(l.scs, ids - rest, height)
        invariant amounts == MaturedAmounts(l.scs, ids - rest, height)
        invariant View() == l.(scs := Matured(l.scs, ids - rest, height))
        decreases |rest|
      {
        var id :| id in rest;
        assert ids - (rest - {id}) == ids - rest + {id};
        MaturedNext(l.scs, ids - rest, id, height);
        var have := HaveSidechain(id);
        if !have {
          return AssertFailed;
        }
        var found := GetSidechain(id);
        var sc := found.value;
        if height !in sc.immature {
          return AssertFailed;
        }
        PutSidechain(id, Mature(sc, height), false);
        amounts := amounts[id := sc.immature[height]];
        rest := rest - {id};
      }
      assert ids - rest == ids;
      return Done(amounts);
    }

    /** The coins shown are those of `before` without what the undo data of the last block's events says. */
    ghost predicate CeasedNow(before: map<Hash, Coins>, undos: map<ScId, EventUndo>, bwts: map<ScId, seq<OutUndo>>)
      reads this
    {
      && WereVoided(View().scs, before) && Recorded(View().scs, before, CeasedIn(undos), bwts)
      && CoinsView() == VoidCerts(View().scs, before, CeasedIn(undos))
    }

    /** One round of the second loop of HandleSidechainEvents. */
    method CeaseSidechain(id: ScId) returns (r: Outcome<seq<OutUndo>>)
      requires Connecting()
      requires id in View().scs && CeasedCert(View().scs[id]) in CoinsView() ==>
        OfCert(CoinsView()[CeasedCert(View().scs[id])])
      modifies this`scs, this`coins
      ensures Connecting() && Tip() == old(Tip()) && View() == old(View()) && CoinsTip() == old(CoinsTip())
      ensures !CanCease(View().scs, {id}) ==> r == AssertFailed
      ensures CanCease(View().scs, {id}) ==>
        var h, c := CeasedCert(View().scs[id]), old(CoinsView());
        && r == Done(BwtUndo(c, h))
        && CoinsView() == if h != NULL_HASH && h in c then CC.Changed(c, h, Voided(c[h])) else c
    {
      hide C.Sound, C.Shown, C.TipShown, CC.Sound, CC.Shown, CC.TipShown, NoneErased, ErasedEmpty;
      var have := HaveSidechain(id);
      if !have {
        return AssertFailed;
      }
      var found := GetSidechain(id);
      var sc := found.value;
      if sc.lastEpoch == EPOCH_NULL {
        return if sc.lastHash != NULL_HASH then AssertFailed else Done([]);
      }
      r := NullifyBackwardTransfers(sc.lastHash);
    }

    /** The second loop of HandleSidechainEvents. */
    method CeaseSidechains(ids: set<ScId>) returns (r: Outcome<map<ScId, seq<OutUndo>>>)
      requires Connecting() && OwnCerts(View().scs) && CertCoins(View().scs, CoinsView())
      modifies this`scs, this`coins
      ensures Connecting() && Tip() == old(Tip()) && View() == old(View()) && CoinsTip() == old(CoinsTip())
      ensures if CanCease(old(View()).scs, ids)
        then r == Done(CeasedUndo(old(View()).scs, old(CoinsView()), ids))
          && CoinsView() == VoidCerts(old(View()).scs, old(CoinsView()), ids)
        else r == AssertFailed
    {
      hide C.Sound, C.Shown, C.TipShown, CC.Sound, CC.Shown, CC.TipShown, NoneErased, ErasedEmpty;
      ghost var l, c0 := View(), CoinsView();
      var rest, bwts := ids, map[];
      CoinsKept(coins);
      CeasedNone(l.scs, c0);
      assert ids - rest == {};
      hide VoidCerts, CeasedUndo, CC.Changed, Voided, VoidedUndo, BwtUndo;
      while rest != {}
        invariant rest <= ids && Connecting() && Tip() == old(Tip()) && View() == l && CoinsTip() == old(CoinsTip())
        invariant CanCease(l.scs, ids - rest)
        invariant bwts == CeasedUndo(l.scs, c0, ids - rest)
        invariant CoinsView() == VoidCerts(l.scs, c0, ids - rest)
        decreases |rest|
      {
        var id :| id in rest;
        if id in l.scs {
          CeasedNext(l.scs, c0, ids - rest, id);
        }
        var undo := CeaseSidechain(id);
        if !undo.Done? {
          return AssertFailed;
        }
        CeasedUndoNext(l.scs, c0, ids - rest, id);
        assert ids - (rest - {id}) == ids - rest + {id};
        bwts := bwts[id := undo.value];
        rest := rest - {id};
      }
      assert ids - rest == ids;
      return Done(bwts);
    }

    /** The two loops of HandleSidechainEvents. */
    method HandleListed(e: Events, height: int)
      returns (r: Outcome<map<ScId, EventUndo>>, bwts: map<ScId, seq<OutUndo>>)
      requires Connecting() && OwnCerts(View().scs) && CertCoins(View().scs, CoinsView())
      modifies this`scs, this`coins
      ensures Connecting() && Tip() == old(Tip()) && CoinsTip() == old(CoinsTip())
      ensures var scs := old(View()).scs;
        if CanMature(scs, e.maturing, height) && CanCease(scs, e.ceasing)
        then
          && View() == old(View()).(scs := Matured(scs, e.maturing, height))
          && r == Done(EventUndos(e, MaturedAmounts(scs, e.maturing, height)))
          && bwts == CeasedUndo(scs, old(CoinsView()), e.ceasing)
          && CoinsView() == VoidCerts(scs, old(CoinsView()), e.ceasing)
        else r == AssertFailed
    {
      hide C.Sound, C.Shown, C.TipShown, CC.Sound, CC.Shown, CC.TipShown, NoneErased, ErasedEmpty;
      hide OwnCerts, CertCoins, VoidCerts, CeasedUndo, CanCease, CanMature, Matured, MaturedAmounts, EventUndos;
      ghost var l, c0 := View(), CoinsView();
      var amounts := MatureAmounts(e.maturing, height);
      if !amounts.Done? {
        return AssertFailed, map[];
      }
      MaturedKeepsCerts(l.scs, c0, e.maturing, e.ceasing, height);
      var ceased := CeaseSidechains(e.ceasing);
      if !ceased.Done? {
        return AssertFailed, map[];
      }
      return Done(EventUndos(e, amounts.value)), ceased.value;
    }

    /** CCoinsViewCache::HandleSidechainEvents. */
    method HandleSidechainEvents(height: int) returns (r: Outcome<map<ScId, EventUndo>>, bwts: map<ScId, seq<OutUndo>>)
      requires Connecting() && OwnCerts(View().scs) && CertCoins(View().scs, CoinsView())
      modifies this`scs, this`events, this`coins
      ensures Valid() && Tip() == old(Tip()) && CoinsTip() == old(CoinsTip())
      ensures ReachedWith(r, B.HandleEvents(old(View()), height))
      ensures r.Done? ==> CeasedNow(old(CoinsView()), r.value, bwts)
    {
      hide C.Sound, C.Shown, C.TipShown, CC.Sound, CC.Shown, CC.TipShown, NoneErased, ErasedEmpty, Kept, B.HandleEvents;
      hide OwnCerts, CertCoins, WereVoided, Recorded, VoidCerts, CeasedUndo, CanCease, CanMature, Matured;
      hide MaturedAmounts, EventUndos, CeasedIn;
      ghost var l, c0 := View(), CoinsView();
      CoinsKept(coins);
      HandleEventsSpec(l, height);
      var have := HaveSidechainEvents(height);
      if !have {
        CeasedNone(l.scs, c0);
        HandledRecorded(l, c0, height, map[]);
        return Done(map[]), map[];
      }
      var e := GetSidechainEvents(height);
      r, bwts := HandleListed(e.value, height);
      if r.Done? {
        HandledRecorded(l, c0, height, bwts);
        EraseSidechainEvents(height);
      }
    }

    /** The first loop of RevertSidechainEvents. */
    method UnmatureAmounts(undos: map<ScId, EventUndo>, height: int) returns (r: Outcome<()>)
      requires Disconnecting()
      modifies this`scs
      ensures Disconnecting() && Tip() == old(Tip())
      ensures if CanUnmature(old(View()).scs, undos, undos.Keys)
        then r.Done? && View() == old(View()).(scs := Unmatured(old(View()).scs, undos, undos.Keys, height))
        else r == Rejected
    {
      hide C.Sound, C.Shown, C.TipShown, CC.Sound, CC.Shown, CC.TipShown, NoneErased, ErasedEmpty;
      ghost var l := View();
      var ids := undos.Keys;
      var rest := ids;
      UnmaturedNone(l.scs, undos, height);
      assert ids - rest == {};
      while rest != {}
        invariant rest <= ids && Disconnecting() && Tip() == old(Tip())
        invariant CanUnmature(l.scs, undos, ids - rest)
        invariant View() == l.(scs := Unmatured(l.scs, undos, ids - rest, height))
        decreases |rest|
      {
        var id :| id in rest;
        assert ids - (rest - {id}) == ids - rest + {id};
        UnmaturedNext(l.scs, undos, ids - rest, id, height);
        if undos[id].matured.Some? {
          var have := HaveSidechain(id);
          if !have {
            return Rejected;
          }
          var found := GetSidechain(id);
          var sc := found.value;
          var amount := undos[id].matured.value;
          if amount > 0 {
            if sc.balance < amount {
              return Rejected;
            }
            PutSidechain(id, Unmature(sc, height, amount), false);
          }
        }
        rest := rest - {id};
      }
      assert ids - rest == ids;
      return Done(());
    }

    /** One round of the second loop of RevertSidechainEvents, for coins that were voided out of `before`. */
    method RestoreCeased(id: ScId, undo: seq<OutUndo>, ghost before: map<Hash, Coins>, ghost ids: set<ScId>)
      returns (r: Outcome<()>)
      requires Disconnecting() && id in ids && WereVoided(View().scs, before)
      requires CoinsView() == VoidCerts(View().scs, before, ids)
      requires id in View().scs ==> undo == BwtUndo(before, CeasedCert(View().scs[id]))
      modifies this`scs, this`coins
      ensures Disconnecting() && Tip() == old(Tip()) && View() == old(View()) && CoinsTip() == old(CoinsTip())
      ensures if id in View().scs
        then r.Done? && CoinsView() == VoidCerts(View().scs, before, ids - {id})
        else r == AssertFailed
    {
      hide C.Sound, C.Shown, C.TipShown, CC.Sound, CC.Shown, CC.TipShown, NoneErased, ErasedEmpty;
      var have := HaveSidechain(id);
      if !have {
        return AssertFailed;
      }
      var found := GetSidechain(id);
      var sc := found.value;
      assert sc == View().scs[id];
      if sc.lastEpoch == EPOCH_NULL {
        CertsWithout(View().scs, ids, id);
        return Done(());
      }
      CC.ModifyIsSound(coins, sc.lastHash, CC.Open(coins, sc.lastHash).1.coins);
      CC.OpenTrimmed(coins, sc.lastHash);
      RestoreStep(View().scs, before, ids, id, CC.Open(coins, sc.lastHash).1.coins);
      var clean := RestoreBackwardTransfers(sc.lastHash, undo);
      if !clean {
        return Rejected;
      }
      return Done(());
    }

    /** The second loop of RevertSidechainEvents. */
    method RestoreAllCeased(ids: set<ScId>, bwts: map<ScId, seq<OutUndo>>, ghost before: map<Hash, Coins>)
      returns (r: Outcome<()>)
      requires Disconnecting() && WereVoided(View().scs, before) && Recorded(View().scs, before, ids, bwts)
      requires CoinsView() == VoidCerts(View().scs, before, ids)
      modifies this`scs, this`coins
      ensures Disconnecting() && Tip() == old(Tip()) && View() == old(View()) && CoinsTip() == old(CoinsTip())
      ensures if ids <= View().scs.Keys then r.Done? && CoinsView() == before else r == AssertFailed
    {
      hide C.Sound, C.Shown, C.TipShown, CC.Sound, CC.Shown, CC.TipShown, NoneErased, ErasedEmpty;
      ghost var l := View();
      var rest := ids;
      CeasedNone(l.scs, before);
      hide VoidCerts, Recorded, WereVoided;
      while rest != {}
        invariant rest <= ids && Disconnecting() && Tip() == old(Tip()) && View() == l && CoinsTip() == old(CoinsTip())
        invariant ids - rest <= l.scs.Keys
        invariant CoinsView() == VoidCerts(l.scs, before, rest)
        decreases |rest|
      {
        var id :| id in rest;
        RecordedAt(l.scs, before, ids, bwts, id);
        r := RestoreCeased(id, bwts[id], before, rest);
        if !r.Done? {
          return;
        }
        rest := rest - {id};
      }
      assert ids - rest == ids;
      return Done(());
    }

    /** CCoinsViewCache::RevertSidechainEvents, in a view that has not erased the events of this height. */
    method RevertSidechainEvents(
      undos: map<ScId, EventUndo>, bwts: map<ScId, seq<OutUndo>>, height: int, ghost before: map<Hash, Coins>)
      returns (r: Outcome<()>)
      requires Disconnecting() && (height in events.view ==> events.view[height].flag != Erased)
      requires WereVoided(View().scs, before) && Recorded(View().scs, before, CeasedIn(undos), bwts)
      requires CoinsView() == VoidCerts(View().scs, before, CeasedIn(undos))
      modifies this`scs, this`events, this`coins
      ensures Disconnecting() && Tip() == old(Tip()) && CoinsTip() == old(CoinsTip())
      ensures Reached(r, B.RevertEvents(old(View()), undos, height))
      ensures r.Done? ==> CoinsView() == before
    {
      hide C.Sound, C.Shown, C.TipShown, CC.Sound, CC.Shown, CC.TipShown, NoneErased, ErasedEmpty;
      ghost var l := View();
      RevertEventsSpec(l, undos, height);
      RecreateIsSound(events, height, Events(CeasedIn(undos), MaturedIn(undos)));
      ghost var e0 := events;
      var have := HaveSidechainEvents(height);
      if have {
        return Rejected;
      }
      r := UnmatureAmounts(undos, height);
      if !r.Done? {
        return;
      }
      UnmaturedKeepsCerts(l.scs, undos, before, bwts, height);
      r := RestoreAllCeased(CeasedIn(undos), bwts, before);
      if !r.Done? {
        return;
      }
      var recreated := Events(CeasedIn(undos), MaturedIn(undos));
      if !recreated.IsNull() {
        events := Open(events, height, NO_EVENTS);
        events := Write(events, height, recreated, Fresh);
      }
    }

    // ---------- Flushing, and whole blocks ----------

    ghost predicate EmptyView()
      reads this
    {
      scs.view == map[] && events.view == map[] && nullifiers.view == map[] && coins.view == map[]
    }

    /** CCoinsViewCache::Flush of the view: the tip then shows what the view showed. */
    method Flush()
      requires Valid()
      modifies this`scs, this`events, this`nullifiers, this`coins
      ensures Valid() && EmptyView()
      ensures Tip() == old(View()) && View() == old(View())
      ensures CoinsTip() == old(CoinsView()) && CoinsView() == old(CoinsView())
    {
      hide C.Sound, C.Shown, C.TipShown, CC.Sound, CC.Shown, CC.TipShown, NoneErased, ErasedEmpty;
      scs := C.Flush(scs);
      events := C.Flush(events);
      nullifiers := C.Flush(nullifiers);
      coins := CC.Flush(coins);
    }

    /** CCoinsViewCache::Flush of the tip: the store then holds what the tip showed. */
    method FlushStateToDisk()
      requires Valid() && EmptyView()
      modifies this`scs, this`events, this`nullifiers, this`coins
      ensures Valid() && EmptyView()
      ensures Tip() == old(Tip()) && View() == old(View()) && CoinsTip() == old(CoinsTip())
      ensures CoinsView() == old(CoinsView())
      ensures Tip() == L.Ledger(scs.store, events.store, nullifiers.store.Keys) && CoinsTip() == coins.store
    {
      hide C.Sound, C.Shown, C.TipShown, CC.Sound, CC.Shown, CC.TipShown, NoneErased, ErasedEmpty;
      scs := C.FlushTip(scs);
      events := C.FlushTip(events);
      nullifiers := C.FlushTip(nullifiers);
      coins := CC.FlushTip(coins);
    }

    /** A view that goes out of scope unflushed. */
    method DropView()
      requires Valid()
      modifies this`scs, this`events, this`nullifiers, this`coins
      ensures Valid() && EmptyView()
      ensures Tip() == old(Tip()) && View() == old(Tip())
      ensures CoinsTip() == old(CoinsTip()) && CoinsView() == old(CoinsTip())
    {
      hide C.Sound, C.Shown, C.TipShown, CC.Sound, CC.Shown, CC.TipShown, NoneErased, ErasedEmpty;
      DroppedSound(scs);
      DroppedSound(events);
      DroppedSound(nullifiers);
      CC.DroppedSound(coins);
      scs := scs.(view := map[]);
      events := events.(view := map[]);
      nullifiers := nullifiers.(view := map[]);
      coins := coins.(view := map[]);
    }

    /** The coins shown are those of `before` without what the undo data of the last block `b` says. */
    ghost predicate VoidedNow(before: map<Hash, Coins>, b: Block, undo: UndoData, bwts: BwtUndos)
      reads this
    {
      && SupersededRecorded(B.Top(b.certs), undo.certs, before, bwts.superseded)
      && CeasedNow(WithoutSuperseded(B.Top(b.certs), undo.certs, before, bwts.superseded), undo.events, bwts.ceased)
    }

    /** ConnectBlock, as far as the ledger and the coins of superseded and ceased certificates go. */
    method ConnectBlock(b: Block, height: int) returns (r: Outcome<UndoData>, bwts: BwtUndos)
      requires Connecting() && CertsHeld(View(), CoinsView()) && FreshCerts(View(), CoinsView(), B.Top(b.certs))
      modifies this`scs, this`events, this`nullifiers, this`coins
      ensures Valid() && Tip() == old(Tip()) && CoinsTip() == old(CoinsTip())
      ensures ReachedWith(r, T.Connect(old(View()), b, height, net))
      ensures r.Done? ==> VoidedNow(old(CoinsView()), b, r.value, bwts) && CertsHeld(View(), CoinsView())
    {
      hide C.Sound, C.Shown, C.TipShown, CC.Sound, CC.Shown, CC.TipShown, NoneErased, ErasedEmpty;
      hide L.ApplyOps, L.RevertOps, B.ApplyCerts, B.RevertCerts, B.HandleEvents, B.RevertEvents, AllOps, AllUndoOps;
      hide B.Top;
      hide OwnCerts, CertCoins, WereVoided, Recorded, VoidCerts, CeasedUndo, CanCease, CertsHeld, FreshCerts;
      ghost var l, before := View(), CoinsView();
      bwts := BwtUndos(map[], map[]);
      B.TopDistinct(b.certs);
      var r1 := ConnectTransactions(b.txs, height);
      if !r1.Done? {
        return r1.PropagateFailure(), bwts;
      }
      OpsKeepHeld(l, AllOps(b.txs), before, B.Top(b.certs), height, net);
      ghost var l1 := View();
      var r2, lows := ConnectCertificates(B.Top(b.certs));
      if !r2.Done? {
        return r2.PropagateFailure(), bwts;
      }
      SupersededHeld(l1, before, B.Top(b.certs), lows, net);
      ghost var mid := CoinsView();
      var r3, ceased := HandleSidechainEvents(height);
      if !r3.Done? {
        return r3.PropagateFailure(), bwts;
      }
      CeasedHeld(View(), mid, r3.value, ceased);
      return Done(UndoData(r2.value, r3.value)), BwtUndos(lows, ceased);
    }

    /** DisconnectBlock, likewise, in a view that has not erased the events of this height. */
    method DisconnectBlock(b: Block, undo: UndoData, bwts: BwtUndos, height: int, ghost before: map<Hash, Coins>)
      returns (r: Outcome<()>)
      requires Disconnecting() && (height in events.view ==> events.view[height].flag != Erased)
      requires VoidedNow(before, b, undo, bwts)
      modifies this`scs, this`events, this`nullifiers, this`coins
      ensures Valid() && Tip() == old(Tip()) && CoinsTip() == old(CoinsTip())
      ensures Reached(r, T.Disconnect(old(View()), b, undo, height, net))
      ensures r.Done? ==> CoinsView() == before
    {
      hide C.Sound, C.Shown, C.TipShown, CC.Sound, CC.Shown, CC.TipShown, NoneErased, ErasedEmpty;
      hide L.ApplyOps, L.RevertOps, B.ApplyCerts, B.RevertCerts, B.HandleEvents, B.RevertEvents, AllOps, AllUndoOps;
      hide B.Top;
      hide SupersededRecorded, WithoutSuperseded;
      ghost var mid := WithoutSuperseded(B.Top(b.certs), undo.certs, before, bwts.superseded);
      B.TopDistinct(b.certs);
      r := RevertSidechainEvents(undo.events, bwts.ceased, height, mid);
      if !r.Done? {
        return;
      }
      hide OwnCerts, CertCoins, WereVoided, Recorded, VoidCerts, CeasedUndo, CanCease;
      r := DisconnectCertificates(B.Top(b.certs), undo.certs, bwts.superseded, before);
      if !r.Done? {
        return;
      }
      r := DisconnectTransactions(b.txs, height);
    }

    /** ConnectTip: a block is connected in a view of its own, which is then flushed or dropped. */
    method ConnectTip(b: Block, height: int) returns (r: Outcome<UndoData>, bwts: BwtUndos)
      requires Valid() && EmptyView()
      requires CertsHeld(View(), CoinsView()) && FreshCerts(View(), CoinsView(), B.Top(b.certs))
      modifies this`scs, this`events, this`nullifiers, this`coins
      ensures Valid() && EmptyView() && View() == Tip() && CoinsView() == CoinsTip() && CertsHeld(View(), CoinsView())
      ensures ReachedWith(r, T.Connect(old(View()), b, height, net))
      ensures r.Done? ==> VoidedNow(old(CoinsView()), b, r.value, bwts)
      ensures !r.Done? ==> View() == old(View()) && CoinsView() == old(CoinsView())
    {
      hide C.Sound, C.Shown, C.TipShown, CC.Sound, CC.Shown, CC.TipShown, T.Connect, CertsHeld, FreshCerts, NoneErased;
      hide CeasedIn, VoidCerts, Recorded, WereVoided, SupersededRecorded, WithoutSuperseded;
      EmptyShows(scs);
      EmptyShows(events);
      EmptyShows(nullifiers);
      CC.EmptyShows(coins);
      r, bwts := ConnectBlock(b, height);
      if r.Done? {
        Flush();
      } else {
        DropView();
      }
    }

    /** DisconnectTip: the block is undone in a view of its own. */
    method DisconnectTip(b: Block, undo: UndoData, bwts: BwtUndos, height: int, ghost before: map<Hash, Coins>)
      returns (r: Outcome<()>)
      requires Valid() && EmptyView() && VoidedNow(before, b, undo, bwts)
      modifies this`scs, this`events, this`nullifiers, this`coins
      ensures Valid() && EmptyView() && View() == Tip() && CoinsView() == CoinsTip()
      ensures Reached(r, T.Disconnect(old(View()), b, undo, height, net))
      ensures r.Done? ==> CoinsView() == before
      ensures !r.Done? ==> View() == old(View()) && CoinsView() == old(CoinsView())
    {
      hide C.Sound, C.Shown, C.TipShown, CC.Sound, CC.Shown, CC.TipShown, T.Disconnect, NoneErased;
      hide CeasedIn, VoidCerts, Recorded, WereVoided, SupersededRecorded, WithoutSuperseded;
      EmptyShows(scs);
      EmptyShows(events);
      EmptyShows(nullifiers);
      CC.EmptyShows(coins);
      r := DisconnectBlock(b, undo, bwts, height, before);
      if r.Done? {
        Flush();
      } else {
        DropView();
      }
    }

    /**
     * Connecting a block and disconnecting it again brings the caches back to the ledger and
     * the coins they showed, exactly when the block was safe to undo.
     */
    method ConnectThenDisconnect(b: Block, height: int) returns (r: Outcome<()>)
      requires Valid() && EmptyView()
      requires CertsHeld(View(), CoinsView()) && FreshCerts(View(), CoinsView(), B.Top(b.certs))
      requires ValidNet(net) && height >= 0 && LedgerInv(View(), height - 1, net) && ValidBlock(b)
      requires T.Connect(View(), b, height, net).Done?
      modifies this`scs, this`events, this`nullifiers, this`coins
      ensures Valid() && EmptyView() && View() == Tip() && CoinsView() == CoinsTip()
      ensures (r.Done? && View() == old(View()) && CoinsView() == old(CoinsView())) <==>
        UndoSafe(old(View()), b, height)
    {
      hide C.Sound, C.Shown, C.TipShown, CC.Sound, CC.Shown, CC.TipShown, T.Connect, T.Disconnect, UndoSafe;
      hide CertsHeld, FreshCerts, VoidedNow;
      ghost var before := CoinsView();
      BlockUndone(View(), b, height, net);
      var undo, bwts := ConnectTip(b, height);
      r := DisconnectTip(b, undo.value, bwts, height, before);
    }
  }
}
