/**
 * Lemmas between the layered caches and the ledger: what opening, listing, erasing and flushing
 * entries does to the maps shown, and the block-level loops one round at a time.
 */
module ViewLayers {
  import opened Outcomes
  import opened SidechainTypes
  import opened EventIndex
  import opened M = SidechainMachine
  import opened C = LayeredCache
  import L = Ledger
  import B = Blocks
  import opened T = BlockUndo
  import opened Coins
  import CC = CoinsCache
  import opened D = CeasedCoins
  import opened SupersededCoins

  /** A record before its creation output fills it in. */
  const BLANK_RECORD := Sidechain(-1, NULL_HASH, NULL_VIEW, NULL_VIEW, NULL_HASH, EPOCH_NULL, QUALITY_NULL, 0, 0,
                                  FixedParams(-1, 0), map[], [])

  // ---------- Entries ----------

  /** Erased event entries are empty, so that an entry opened for writing shows what the ledger has. */
  ghost predicate ErasedEmpty(c: Cache<int, Events>) {
    forall h :: h in c && c[h].flag == Erased ==> c[h].value == NO_EVENTS
  }

  ghost predicate NoneErased<K(!new), V>(c: Cache<K, V>) {
    forall k :: k in c ==> c[k].flag != Erased
  }

  lemma LookKeepsUnerased<K(!new), V>(l: Layers<K, V>, k: K)
    ensures NoneErased(l.view) ==> NoneErased(Look(l, k).view)
  {
  }

  lemma WriteKeepsUnerased<K(!new), V>(l: Layers<K, V>, k: K, blank: V, v: V, flag: Flag)
    ensures NoneErased(l.view) && flag != Erased ==> NoneErased(Write(Open(l, k, blank), k, v, flag).view)
  {
  }

  /** An entry opened for writing. */
  lemma OpenedEntry<K(!new), V>(l: Layers<K, V>, k: K, blank: V)
    requires Sound(l)
    ensures var o := Open(l, k, blank);
      && k in o.view && (o.view[k].flag == Fresh ==> k !in TipShown(l))
      && (k in Shown(l) ==> o.view[k].value == Shown(l)[k])
  {
    LookIsSilent(l, k);
    var r := Look(l, k);
    assert k in r.view ==> SitsAt(k, r.view[k], r.tip, r.store);
  }

  /** The value a look-up finds. */
  lemma LookedUp<K(!new), V>(l: Layers<K, V>, k: K)
    requires Sound(l) && k in Shown(l)
    ensures var r := Look(l, k); k in r.view && r.view[k].value == Shown(l)[k]
  {
    LookIsSilent(l, k);
  }

  /** The flag of a record that is written back: a new one stays fresh where the code says so. */
  function PutFlag(l: Layers<ScId, Sidechain>, id: ScId, keepFresh: bool): Flag {
    var o := Open(l, id, BLANK_RECORD);
    if keepFresh && id in o.view && o.view[id].flag == Fresh then Fresh else Dirty
  }

  lemma PutIsSound(l: Layers<ScId, Sidechain>, id: ScId, sc: Sidechain, keepFresh: bool)
    requires Sound(l) && id in Shown(l)
    ensures var r := Write(Open(l, id, BLANK_RECORD), id, sc, PutFlag(l, id, keepFresh));
      && Sound(r) && TipShown(r) == TipShown(l) && Shown(r) == Shown(l)[id := sc]
      && (NoneErased(l.view) ==> NoneErased(r.view))
  {
    OpenedEntry(l, id, BLANK_RECORD);
    UpdateIsSound(l, id, BLANK_RECORD, sc, PutFlag(l, id, keepFresh));
    WriteKeepsUnerased(l, id, BLANK_RECORD, sc, PutFlag(l, id, keepFresh));
  }

  lemma CreateIsSound(l: Layers<ScId, Sidechain>, id: ScId, sc: Sidechain)
    requires Sound(l) && id !in Shown(l) && NoneErased(l.view)
    ensures var r := Write(Open(l, id, BLANK_RECORD), id, sc, Fresh);
      && Sound(r) && TipShown(r) == TipShown(l) && Shown(r) == Shown(l)[id := sc] && NoneErased(r.view)
  {
    UpdateIsSound(l, id, BLANK_RECORD, sc, Fresh);
    WriteKeepsUnerased(l, id, BLANK_RECORD, sc, Fresh);
  }

  lemma EraseIsSound<K(!new), V>(l: Layers<K, V>, k: K, blank: V)
    requires Sound(l) && k in Shown(l)
    ensures var o := Open(l, k, blank);
      && k in o.view
      && var r := Write(o, k, o.view[k].value, Erased);
        Sound(r) && TipShown(r) == TipShown(l) && Shown(r) == Shown(l) - {k}
  {
    OpenedEntry(l, k, blank);
    UpdateIsSound(l, k, blank, Open(l, k, blank).view[k].value, Erased);
  }

  // ---------- Event entries ----------

  lemma OpenedEvents(l: Layers<int, Events>, h: int)
    requires Sound(l) && ErasedEmpty(l.view)
    ensures var o := Open(l, h, NO_EVENTS);
      h in o.view && o.view[h].value == At(Shown(l), h) && (o.view[h].flag == Fresh ==> h !in TipShown(l))
  {
    OpenedEntry(l, h, NO_EVENTS);
    LookIsSilent(l, h);
  }

  lemma WriteKeepsEmpty(l: Layers<int, Events>, h: int, e: Events, flag: Flag)
    requires ErasedEmpty(l.view) && (flag == Erased ==> e == NO_EVENTS)
    ensures ErasedEmpty(Look(l, h).view) && ErasedEmpty(Write(Open(l, h, NO_EVENTS), h, e, flag).view)
  {
  }

  /** An entry that gains a listing stays fresh or becomes dirty. */
  function ListFlag(o: Layers<int, Events>, h: int): Flag {
    if h in o.view && o.view[h].flag == Fresh then Fresh else Dirty
  }

  /** An entry that loses a listing is erased once it is empty. */
  function UnlistFlag(e: Events): Flag {
    if e.IsNull() then Erased else Dirty
  }

  lemma ListingIsSound(l: Layers<int, Events>, h: int, e: Events)
    requires Sound(l) && ErasedEmpty(l.view) && !e.IsNull()
    ensures var o := Open(l, h, NO_EVENTS); var r := Write(o, h, e, ListFlag(o, h));
      Sound(r) && ErasedEmpty(r.view) && TipShown(r) == TipShown(l) && Shown(r) == Store(Shown(l), h, e)
  {
    OpenedEvents(l, h);
    var o := Open(l, h, NO_EVENTS);
    UpdateIsSound(l, h, NO_EVENTS, e, ListFlag(o, h));
    WriteKeepsEmpty(l, h, e, ListFlag(o, h));
  }

  lemma UnlistingIsSound(l: Layers<int, Events>, h: int, e: Events)
    requires Sound(l) && ErasedEmpty(l.view)
    ensures var r := Write(Open(l, h, NO_EVENTS), h, e, UnlistFlag(e));
      Sound(r) && ErasedEmpty(r.view) && TipShown(r) == TipShown(l) && Shown(r) == Store(Shown(l), h, e)
  {
    UpdateIsSound(l, h, NO_EVENTS, e, UnlistFlag(e));
    WriteKeepsEmpty(l, h, e, UnlistFlag(e));
  }

  // ---------- Nullifier entries ----------

  lemma AddIsSound(l: Layers<(ScId, nat), ()>, k: (ScId, nat))
    requires Sound(l) && k !in Shown(l)
    ensures var r := Look(l, k);
      k !in r.view ==>
        var w := Write(r, k, (), Fresh);
        && k !in l.view && Sound(w) && TipShown(w) == TipShown(l) && Shown(w).Keys == Shown(l).Keys + {k}
        && (NoneErased(l.view) ==> NoneErased(w.view))
    ensures k in Look(l, k).view ==> k in l.view && l.view[k].flag == Erased
  {
    LookIsSilent(l, k);
    var r := Look(l, k);
    if k !in r.view {
      WriteIsSound(r, k, (), Fresh);
      ChangedKeys(Shown(r), k, (), Fresh);
    }
  }

  lemma NotErasedShown<K(!new), V>(l: Layers<K, V>, k: K)
    requires NoneErased(l.view)
    ensures k in l.view ==> k in Shown(l)
  {
  }

  lemma RemoveIsSound(l: Layers<(ScId, nat), ()>, k: (ScId, nat))
    requires Sound(l) && k in Shown(l)
    ensures var w := Write(Look(l, k), k, (), Erased);
      Sound(w) && TipShown(w) == TipShown(l) && Shown(w).Keys == Shown(l).Keys - {k}
  {
    LookIsSilent(l, k);
    UpdateIsSound(l, k, (), (), Erased);
    OpenThenWrite(l, k, (), (), Erased);
    ChangedKeys(Shown(l), k, (), Erased);
  }

  // ---------- Lists of operations ----------

  /** What UpdateSidechain(tx) does, without the nullifiers. */
  ghost function OutputOps(tx: Tx): seq<L.TxOp> {
    Withdrawals(tx.csws) + Creations(tx.creations, tx.hash) + Transfers(tx.transfers) + Transfers(tx.requests)
  }

  ghost function OutputUndoOps(tx: Tx): seq<L.TxOp> {
    Transfers(tx.requests) + Transfers(tx.transfers) + Creations(tx.creations, tx.hash) + Withdrawals(tx.csws)
  }

  lemma ApplyStarts(l: L.Ledger, ops: seq<L.TxOp>, height: int, net: Net)
    ensures L.ApplyOps(l, ops[..0], height, net) == Done(l)
  {
  }

  /** The next operation; if it fails, so does the whole list. */
  lemma ApplyNext(l: L.Ledger, ops: seq<L.TxOp>, i: nat, height: int, net: Net)
    requires i < |ops| && L.ApplyOps(l, ops[..i], height, net).Done?
    ensures var r := L.ApplyOp(L.ApplyOps(l, ops[..i], height, net).value, ops[i].id, ops[i].op, height, net);
      && L.ApplyOps(l, ops[..i + 1], height, net) == r
      && (!r.Done? ==> L.ApplyOps(l, ops, height, net) == r)
  {
    assert ops[..i + 1][..i] == ops[..i] && ops[..i + 1][i] == ops[i];
    assert ops == ops[..i + 1] + ops[i + 1..];
    L.ApplyOpsSplit(l, ops[..i + 1], ops[i + 1..], height, net);
  }

  lemma RevertStarts(l: L.Ledger, ops: seq<L.TxOp>, height: int, net: Net)
    ensures L.RevertOps(l, ops[..0], height, net) == Done(l)
  {
  }

  /** The next operation; if it fails, so does the whole list. */
  lemma RevertNext(l: L.Ledger, ops: seq<L.TxOp>, i: nat, height: int, net: Net)
    requires i < |ops| && L.RevertOps(l, ops[..i], height, net).Done?
    ensures var r := L.RevertOp(L.RevertOps(l, ops[..i], height, net).value, ops[i].id, ops[i].op, height, net);
      && L.RevertOps(l, ops[..i + 1], height, net) == r
      && (!r.Done? ==> L.RevertOps(l, ops, height, net) == r)
  {
    assert ops[..i + 1][..i] == ops[..i] && ops[..i + 1][i] == ops[i];
    assert ops == ops[..i + 1] + ops[i + 1..];
    L.RevertOpsSplit(l, ops[..i + 1], ops[i + 1..], height, net);
  }

  /** The next transaction; if it fails, so does the whole block. */
  lemma AllOpsNext(l: L.Ledger, txs: seq<Tx>, i: nat, height: int, net: Net)
    requires i < |txs| && L.ApplyOps(l, AllOps(txs[..i]), height, net).Done?
    ensures var r := L.ApplyOps(L.ApplyOps(l, AllOps(txs[..i]), height, net).value,
      OutputOps(txs[i]) + Nullifiers(txs[i].csws), height, net);
      && L.ApplyOps(l, AllOps(txs[..i + 1]), height, net) == r
      && (!r.Done? ==> L.ApplyOps(l, AllOps(txs), height, net) == r)
  {
    assert txs[..i + 1][..i] == txs[..i] && txs[..i + 1][i] == txs[i];
    assert Ops(txs[i]) == OutputOps(txs[i]) + Nullifiers(txs[i].csws);
    L.ApplyOpsSplit(l, AllOps(txs[..i]), Ops(txs[i]), height, net);
    AllOpsPrefix(txs, i + 1);
    var rest :| AllOps(txs) == AllOps(txs[..i + 1]) + rest;
    L.ApplyOpsSplit(l, AllOps(txs[..i + 1]), rest, height, net);
  }

  lemma {:induction false} AllOpsPrefix(txs: seq<Tx>, i: nat)
    requires i <= |txs|
    ensures exists rest :: AllOps(txs) == AllOps(txs[..i]) + rest
    decreases |txs| - i
  {
    if i == |txs| {
      assert txs[..i] == txs;
      assert AllOps(txs) == AllOps(txs[..i]) + [];
    } else {
      AllOpsPrefix(txs, i + 1);
      var rest :| AllOps(txs) == AllOps(txs[..i + 1]) + rest;
      assert txs[..i + 1][..i] == txs[..i];
      assert AllOps(txs) == AllOps(txs[..i]) + (Ops(txs[i]) + rest);
    }
  }

  /** The transaction undone next; if it fails, so does the whole block. */
  lemma AllUndoOpsNext(l: L.Ledger, txs: seq<Tx>, i: nat, height: int, net: Net)
    requires i < |txs|
    ensures var r := L.RevertOps(l, Nullifiers(txs[i].csws), height, net);
      L.RevertOps(l, AllUndoOps(txs[..i + 1]), height, net) ==
        if !r.Done? then r
        else
          var r' := L.RevertOps(r.value, OutputUndoOps(txs[i]), height, net);
          if !r'.Done? then r' else L.RevertOps(r'.value, AllUndoOps(txs[..i]), height, net)
  {
    assert txs[..i + 1][..i] == txs[..i] && txs[..i + 1][i] == txs[i];
    assert UndoOps(txs[i]) == Nullifiers(txs[i].csws) + OutputUndoOps(txs[i]);
    L.RevertOpsSplit(l, UndoOps(txs[i]), AllUndoOps(txs[..i]), height, net);
    L.RevertOpsSplit(l, Nullifiers(txs[i].csws), OutputUndoOps(txs[i]), height, net);
  }

  /** The next certificate; if it fails, so does the whole list. */
  lemma ApplyCertsNext(l: L.Ledger, certs: seq<B.ScCert>, i: nat, net: Net)
    requires i < |certs| && B.ApplyCerts(l, certs[..i], net).Done?
    ensures var (l', undos) := B.ApplyCerts(l, certs[..i], net).value; var c := certs[i];
      if c.id in undos && undos[c.id].prevHash != NULL_HASH then B.ApplyCerts(l, certs, net) == AssertFailed
      else
        var r := B.ApplyCert(l', c.id, c.cert, net);
        match r
        case Done((l'', undo)) => B.ApplyCerts(l, certs[..i + 1], net) == Done((l'', undos[c.id := undo]))
        case Rejected => B.ApplyCerts(l, certs, net) == Rejected
        case AssertFailed => B.ApplyCerts(l, certs, net) == AssertFailed
  {
    assert certs[..i + 1][..i] == certs[..i] && certs[..i + 1][i] == certs[i];
    ApplyCertsFails(l, certs, i + 1, net);
  }

  lemma {:induction false} ApplyCertsFails(l: L.Ledger, certs: seq<B.ScCert>, i: nat, net: Net)
    requires i <= |certs|
    ensures !B.ApplyCerts(l, certs[..i], net).Done? ==> B.ApplyCerts(l, certs, net) == B.ApplyCerts(l, certs[..i], net)
    decreases |certs| - i
  {
    if i == |certs| {
      assert certs[..i] == certs;
    } else {
      assert certs[..i + 1][..i] == certs[..i];
      ApplyCertsFails(l, certs, i + 1, net);
    }
  }

  lemma RevertCertsNext(l: L.Ledger, certs: seq<B.ScCert>, i: nat, undos: map<ScId, CertUndo>)
    requires i < |certs|
    ensures var c := certs[i];
      B.RevertCerts(l, certs[..i + 1], undos) ==
        if c.id !in undos then AssertFailed
        else
          var r := B.RevertCert(l, c.id, c.cert, undos[c.id]);
          if !r.Done? then r else B.RevertCerts(r.value, certs[..i], undos)
  {
    assert certs[..i + 1][..i] == certs[..i] && certs[..i + 1][i] == certs[i];
  }

  lemma RevertCertsDone(l: L.Ledger, certs: seq<B.ScCert>, undos: map<ScId, CertUndo>)
    requires certs == []
    ensures B.RevertCerts(l, certs, undos) == Done(l)
  {
  }

  // ---------- Events ----------

  ghost predicate CanMature(scs: map<ScId, Sidechain>, ids: set<ScId>, height: int) {
    forall id :: id in ids ==> id in scs && height in scs[id].immature
  }

  ghost function Matured(scs: map<ScId, Sidechain>, ids: set<ScId>, height: int): map<ScId, Sidechain>
    requires CanMature(scs, ids, height)
  {
    map id | id in scs :: if id in ids then Mature(scs[id], height) else scs[id]
  }

  ghost function MaturedAmounts(scs: map<ScId, Sidechain>, ids: set<ScId>, height: int): map<ScId, int>
    requires CanMature(scs, ids, height)
  {
    map id | id in ids :: scs[id].immature[height]
  }

  lemma MaturedNone(scs: map<ScId, Sidechain>, height: int)
    ensures Matured(scs, {}, height) == scs && MaturedAmounts(scs, {}, height) == map[]
  {
  }

  lemma MaturedNext(scs: map<ScId, Sidechain>, done: set<ScId>, id: ScId, height: int)
    requires CanMature(scs, done, height) && id !in done
    ensures Matured(scs, done, height).Keys == scs.Keys
    ensures id in scs ==> Matured(scs, done, height)[id] == scs[id]
    ensures CanMature(scs, done + {id}, height) <==> id in scs && height in scs[id].immature
    ensures id in scs && height in scs[id].immature ==>
      && Matured(scs, done + {id}, height) == Matured(scs, done, height)[id := Mature(scs[id], height)]
      && MaturedAmounts(scs, done + {id}, height) == MaturedAmounts(scs, done, height)[id := scs[id].immature[height]]
  {
  }

  ghost predicate CanCease(scs: map<ScId, Sidechain>, ids: set<ScId>) {
    forall id :: id in ids ==> id in scs && (scs[id].lastEpoch == EPOCH_NULL ==> scs[id].lastHash == NULL_HASH)
  }

  ghost function VoidCerts(scs: map<ScId, Sidechain>, coins: map<Hash, Coins>, ids: set<ScId>): map<Hash, Coins>
    requires CertCoins(scs, coins)
  {
    VoidAll(coins, Certs(scs, ids))
  }

  ghost function CeasedUndo(scs: map<ScId, Sidechain>, coins: map<Hash, Coins>, ids: set<ScId>): map<ScId, seq<OutUndo>>
    requires CanCease(scs, ids) && CertCoins(scs, coins)
  {
    map id | id in ids :: BwtUndo(coins, CeasedCert(scs[id]))
  }

  lemma CeasedNone(scs: map<ScId, Sidechain>, coins: map<Hash, Coins>)
    requires CertCoins(scs, coins)
    ensures VoidCerts(scs, coins, {}) == coins && CeasedUndo(scs, coins, {}) == map[]
  {
    assert Certs(scs, {}) == {};
    VoidNone(coins);
  }

  /** One more ceasing sidechain: its certificate's coins are voided if it has any. */
  lemma CeasedNext(scs: map<ScId, Sidechain>, coins: map<Hash, Coins>, done: set<ScId>, id: ScId)
    requires OwnCerts(scs) && CertCoins(scs, coins) && Kept(coins)
    requires id in scs && id !in done
    ensures var h := CeasedCert(scs[id]); var now := VoidCerts(scs, coins, done);
      if h != NULL_HASH && h in coins
      then h in now && now[h] == coins[h] && VoidCerts(scs, coins, done + {id}) == CC.Changed(now, h, Voided(coins[h]))
      else (h != NULL_HASH ==> h !in now) && VoidCerts(scs, coins, done + {id}) == now
    ensures var h := CeasedCert(scs[id]); var now := VoidCerts(scs, coins, done);
      (h in now ==> OfCert(now[h])) && BwtUndo(now, h) == BwtUndo(coins, h)
  {
    var h := CeasedCert(scs[id]);
    assert done + {id} - {id} == done;
    CertsWithout(scs, done + {id}, id);
    if h != NULL_HASH {
      assert Certs(scs, done + {id}) == Certs(scs, done) + {h};
      hide CeasedCert, D.Certs, CC.Changed;
      if h in coins {
        VoidOneMore(coins, Certs(scs, done), h);
      } else {
        VoidAbsent(coins, Certs(scs, done), h);
      }
    }
  }

  lemma CeasedUndoNext(scs: map<ScId, Sidechain>, coins: map<Hash, Coins>, done: set<ScId>, id: ScId)
    requires CertCoins(scs, coins) && CanCease(scs, done) && CanCease(scs, {id})
    ensures CanCease(scs, done + {id})
    ensures CeasedUndo(scs, coins, done + {id}) ==
      CeasedUndo(scs, coins, done)[id := BwtUndo(coins, CeasedCert(scs[id]))]
  {
  }

  /** Maturing does not touch certificates. */
  lemma MaturedKeepsCerts(
    scs: map<ScId, Sidechain>, coins: map<Hash, Coins>, ids: set<ScId>, ceasing: set<ScId>, height: int)
    requires CanMature(scs, ids, height) && OwnCerts(scs) && CertCoins(scs, coins)
    ensures var m := Matured(scs, ids, height);
      && OwnCerts(m) && CertCoins(m, coins) && (CanCease(m, ceasing) <==> CanCease(scs, ceasing))
      && VoidCerts(m, coins, ceasing) == VoidCerts(scs, coins, ceasing)
      && (CanCease(scs, ceasing) ==> CeasedUndo(m, coins, ceasing) == CeasedUndo(scs, coins, ceasing))
  {
    var m := Matured(scs, ids, height);
    MaturedSame(scs, ids, ceasing, height);
    hide CeasedCert, Matured, VoidAll, BwtUndo, OfCert;
    assert Certs(m, ceasing) == Certs(scs, ceasing);
    assert CanCease(scs, ceasing) ==> CeasedUndo(m, coins, ceasing) == CeasedUndo(scs, coins, ceasing);
  }

  lemma MaturedSame(scs: map<ScId, Sidechain>, ids: set<ScId>, ceasing: set<ScId>, height: int)
    requires CanMature(scs, ids, height)
    ensures var m := Matured(scs, ids, height);
      && m.Keys == scs.Keys && (forall id :: id in scs ==> CeasedCert(m[id]) == CeasedCert(scs[id]))
      && (CanCease(m, ceasing) <==> CanCease(scs, ceasing))
  {
  }

  function EventUndos(e: Events, amounts: map<ScId, int>): map<ScId, EventUndo> {
    map id | id in e.maturing + e.ceasing ::
      EventUndo(if id in amounts then Some(amounts[id]) else None, id in e.ceasing)
  }

  /** The ledger function in terms of the two loops. */
  lemma HandleEventsSpec(l: L.Ledger, height: int)
    ensures height !in l.events ==> B.HandleEvents(l, height) == Done((l, map[])) && At(l.events, height) == NO_EVENTS
    ensures height in l.events ==>
      var e := l.events[height];
      B.HandleEvents(l, height) ==
        if CanMature(l.scs, e.maturing, height) && CanCease(l.scs, e.ceasing)
        then Done((l.(scs := Matured(l.scs, e.maturing, height), events := l.events - {height}),
                   EventUndos(e, MaturedAmounts(l.scs, e.maturing, height))))
        else AssertFailed
  {
    if height in l.events {
      var e := l.events[height];
      if CanMature(l.scs, e.maturing, height) && CanCease(l.scs, e.ceasing) {
        var (l', undos) := B.HandleEvents(l, height).value;
        assert l'.scs == Matured(l.scs, e.maturing, height);
        assert undos == EventUndos(e, MaturedAmounts(l.scs, e.maturing, height));
      }
    }
  }

  ghost predicate CanUnmature(scs: map<ScId, Sidechain>, undos: map<ScId, EventUndo>, ids: set<ScId>) {
    forall id :: id in ids && id in undos && undos[id].matured.Some? ==>
      id in scs && (undos[id].matured.value > 0 ==> scs[id].balance >= undos[id].matured.value)
  }

  ghost function Unmatured(
    scs: map<ScId, Sidechain>, undos: map<ScId, EventUndo>, ids: set<ScId>, height: int): map<ScId, Sidechain>
  {
    map id | id in scs ::
      if id in ids && id in undos && undos[id].matured.Some?
        then Unmature(scs[id], height, undos[id].matured.value)
        else scs[id]
  }

  lemma UnmaturedNone(scs: map<ScId, Sidechain>, undos: map<ScId, EventUndo>, height: int)
    ensures Unmatured(scs, undos, {}, height) == scs
  {
  }

  lemma UnmaturedNext(scs: map<ScId, Sidechain>, undos: map<ScId, EventUndo>, done: set<ScId>, id: ScId, height: int)
    requires id in undos && id !in done
    ensures var now, next, u := Unmatured(scs, undos, done, height), Unmatured(scs, undos, done + {id}, height),
      undos[id].matured;
      && now.Keys == scs.Keys && (id in scs ==> now[id] == scs[id])
      && (CanUnmature(scs, undos, done + {id}) <==>
           CanUnmature(scs, undos, done) && (u.Some? ==> id in scs && (u.value > 0 ==> scs[id].balance >= u.value)))
      && next == (if u.Some? && id in scs && u.value > 0 then now[id := Unmature(scs[id], height, u.value)] else now)
  {
  }

  /** Coins whose certificates' backward transfers may be void. */
  ghost predicate WereVoided(scs: map<ScId, Sidechain>, before: map<Hash, Coins>) {
    OwnCerts(scs) && CertCoins(scs, before) && Kept(before)
  }

  /** One ceased sidechain gets its backward transfers back. */
  lemma RestoreStep(scs: map<ScId, Sidechain>, before: map<Hash, Coins>, ids: set<ScId>, id: ScId, start: Coins)
    requires WereVoided(scs, before) && id in ids && id in scs && scs[id].lastEpoch != EPOCH_NULL
    requires var now, h := VoidCerts(scs, before, ids), scs[id].lastHash;
      if h in now then start == now[h] else start.vout == []
    ensures var now, h, undo := VoidCerts(scs, before, ids), scs[id].lastHash, BwtUndo(before, scs[id].lastHash);
      && Restorable(start, undo) && RestoredFrom(start, undo, 0).1
      && CC.Changed(now, h, RestoredFrom(start, undo, 0).0) == VoidCerts(scs, before, ids - {id})
  {
    CertsWithout(scs, ids, id);
    RestoreHash(before, Certs(scs, ids), scs[id].lastHash, start);
  }

  function CeasedIn(undos: map<ScId, EventUndo>): set<ScId> {
    set id | id in undos && undos[id].ceased
  }

  function MaturedIn(undos: map<ScId, EventUndo>): set<ScId> {
    set id | id in undos && undos[id].matured.Some?
  }

  /** The undo data kept for the backward transfers of ceased sidechains. */
  ghost predicate Recorded(
    scs: map<ScId, Sidechain>, before: map<Hash, Coins>, ids: set<ScId>, bwts: map<ScId, seq<OutUndo>>)
    requires CertCoins(scs, before)
  {
    ids <= bwts.Keys && forall id :: id in ids && id in scs ==> bwts[id] == BwtUndo(before, CeasedCert(scs[id]))
  }

  lemma RecordedAt(
    scs: map<ScId, Sidechain>, before: map<Hash, Coins>, ids: set<ScId>, bwts: map<ScId, seq<OutUndo>>, id: ScId)
    requires CertCoins(scs, before) && Recorded(scs, before, ids, bwts) && id in ids
    ensures id in bwts && (id in scs ==> bwts[id] == BwtUndo(before, CeasedCert(scs[id])))
  {
  }

  /** Moving amounts back does not touch certificates. */
  lemma UnmaturedKeepsCerts(
    scs: map<ScId, Sidechain>, undos: map<ScId, EventUndo>, before: map<Hash, Coins>, bwts: map<ScId, seq<OutUndo>>,
    height: int)
    requires WereVoided(scs, before) && Recorded(scs, before, CeasedIn(undos), bwts)
    ensures var m := Unmatured(scs, undos, undos.Keys, height);
      && m.Keys == scs.Keys && WereVoided(m, before) && Recorded(m, before, CeasedIn(undos), bwts)
      && VoidCerts(m, before, CeasedIn(undos)) == VoidCerts(scs, before, CeasedIn(undos))
  {
    var m, ids := Unmatured(scs, undos, undos.Keys, height), CeasedIn(undos);
    assert forall id :: id in scs ==> CeasedCert(m[id]) == CeasedCert(scs[id]);
    assert Certs(m, ids) == Certs(scs, ids);
  }

  /** The ledger function in terms of the two loops. */
  lemma RevertEventsSpec(l: L.Ledger, undos: map<ScId, EventUndo>, height: int)
    ensures B.RevertEvents(l, undos, height) ==
      if height in l.events || !CanUnmature(l.scs, undos, undos.Keys) then Rejected
      else if !(CeasedIn(undos) <= l.scs.Keys) then AssertFailed
      else Done(l.(scs := Unmatured(l.scs, undos, undos.Keys, height),
                   events := Store(l.events, height, Events(CeasedIn(undos), MaturedIn(undos)))))
  {
    var r := B.RevertEvents(l, undos, height);
    if r.Done? {
      assert r.value.scs == Unmatured(l.scs, undos, undos.Keys, height);
    }
  }

  /** Events put back where none are shown. */
  lemma RecreateIsSound(l: Layers<int, Events>, h: int, e: Events)
    requires Sound(l) && ErasedEmpty(l.view) && (h in l.view ==> l.view[h].flag != Erased)
    ensures h !in Shown(l) ==>
      && Store(Shown(l), h, e) == (if e.IsNull() then Shown(l) else Shown(l)[h := e])
      && var r := Write(Open(Look(l, h), h, NO_EVENTS), h, e, Fresh);
         Sound(r) && ErasedEmpty(r.view) && TipShown(r) == TipShown(l) && Shown(r) == Shown(l)[h := e]
  {
    if h !in Shown(l) {
      LookIsSilent(l, h);
      WriteKeepsEmpty(l, h, e, Dirty);
      WriteKeepsEmpty(Look(l, h), h, e, Fresh);
      UpdateIsSound(Look(l, h), h, NO_EVENTS, e, Fresh);
    }
  }

  lemma DroppedSound<K(!new), V>(l: Layers<K, V>)
    requires Sound(l)
    ensures var r := l.(view := map[]); Sound(r) && TipShown(r) == TipShown(l) && Shown(r) == TipShown(l)
  {
    assert Show(map[], TipShown(l)) == TipShown(l);
  }

  lemma EmptyShows<K(!new), V>(l: Layers<K, V>)
    requires l.view == map[]
    ensures Shown(l) == TipShown(l) && NoneErased(l.view)
  {
    assert Show(map[], TipShown(l)) == TipShown(l);
  }

  /** What handling a height's events records is what reverting them asks for. */
  lemma HandledRecorded(l: L.Ledger, coins: map<Hash, Coins>, height: int, bwts: map<ScId, seq<OutUndo>>)
    requires OwnCerts(l.scs) && CertCoins(l.scs, coins) && Kept(coins)
    requires B.HandleEvents(l, height).Done?
    requires var ids := At(l.events, height).ceasing; CanCease(l.scs, ids) && bwts == CeasedUndo(l.scs, coins, ids)
    ensures var (l', undos) := B.HandleEvents(l, height).value; var ids := At(l.events, height).ceasing;
      && WereVoided(l'.scs, coins) && CeasedIn(undos) == ids
      && Recorded(l'.scs, coins, ids, bwts) && VoidCerts(l'.scs, coins, ids) == VoidCerts(l.scs, coins, ids)
  {
    HandleEventsSpec(l, height);
    var ids := At(l.events, height).ceasing;
    if height in l.events {
      var e := l.events[height];
      MaturedKeepsCerts(l.scs, coins, e.maturing, e.ceasing, height);
      assert CeasedIn(EventUndos(e, MaturedAmounts(l.scs, e.maturing, height))) == ids;
    }
  }

  /** Once the events of a height are handled. */
  lemma CeasedHeld(l: L.Ledger, before: map<Hash, Coins>, undos: map<ScId, EventUndo>, bwts: map<ScId, seq<OutUndo>>)
    requires WereVoided(l.scs, before) && Recorded(l.scs, before, CeasedIn(undos), bwts) && NULL_HASH !in before
    ensures CertsHeld(l, VoidCerts(l.scs, before, CeasedIn(undos)))
  {
    VoidKeepsHeld(l, before, Certs(l.scs, CeasedIn(undos)));
  }

  lemma CoinsKept(l: CC.CoinsLayers<Hash>)
    requires CC.Sound(l)
    ensures Kept(CC.Shown(l))
  {
    CC.AllShownKept(l);
  }
}
