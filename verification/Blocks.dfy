/** Connecting and disconnecting whole blocks on the sidechain ledger. */
module Blocks {
  import opened Outcomes
  import opened SidechainTypes
  import opened EventIndex
  import opened M = SidechainMachine
  import opened U = SidechainUndo
  import opened L = Ledger

  // ---------- Certificates ----------

  datatype ScCert = ScCert(id: ScId, cert: Cert)

  /** CCoinsViewCache::UpdateSidechain(cert). */
  function ApplyCert(l: Ledger, id: ScId, cert: Cert, net: Net): Outcome<(Ledger, CertUndo)> {
    if id !in l.scs then Rejected
    else
      var (sc, undo) :- Certify(l.scs[id], cert, net);
      var scs := l.scs[id := sc];
      if cert.epoch == undo.prevEpoch then Done((l.(scs := scs), undo))
      else
        var ceasing := CeasingHeight(l.scs[id]);
        if ceasing !in l.events then Rejected
        else Done((l.(scs := scs, events := AddCeasing(DropCeasing(l.events, ceasing, id), CeasingHeight(sc), id)),
          undo))
  }

  /** CCoinsViewCache::RestoreSidechain. */
  function RevertCert(l: Ledger, id: ScId, cert: Cert, undo: CertUndo): Outcome<Ledger> {
    if id !in l.scs then Rejected
    else
      var sc :- Uncertify(l.scs[id], cert, undo);
      var scs := l.scs[id := sc];
      if cert.epoch == undo.prevEpoch then Done(l.(scs := scs))
      else
        var ceasing := CeasingHeight(l.scs[id]);
        if ceasing !in l.events then Rejected
        else Done(l.(scs := scs, events := AddCeasing(DropCeasing(l.events, ceasing, id), CeasingHeight(sc), id)))
  }

  lemma CeasingMoves(events: Index, from: int, to: int, id: ScId)
    ensures var moved := AddCeasing(DropCeasing(events, from, id), to, id);
      && SameButFor(events, moved, id)
      && Maturing(moved, id) == Maturing(events, id)
      && Ceasing(moved, id) == Ceasing(events, id) - {from} + {to}
  {
    var dropped := DropCeasing(events, from, id);
    UpdateTransposed(events, from, id, id);
    UpdateSameButFor(events, from, id);
    UpdateTransposed(dropped, to, id, id);
    UpdateSameButFor(dropped, to, id);
  }

  /** All sidechains of a ledger are in the state expected inside the block at `height`. */
  ghost predicate MidBlock(l: Ledger, height: int, net: Net) {
    Normal(l.events) && forall id :: M.MidInv(Of(l, id), height, net)
  }

  /** Events inside a block lie at its height or above. */
  lemma EventsAhead(l: Ledger, height: int, net: Net, h: int)
    requires MidBlock(l, height, net) && h in l.events
    ensures h >= height
  {
    var e := l.events[h];
    var id := Pick(e.ceasing + e.maturing);
    AtTransposed(l.events, h, id);
    assert M.MidInv(Of(l, id), height, net);
  }

  lemma ApplyCertFollows(l: Ledger, id: ScId, cert: Cert, height: int, net: Net)
    requires MidBlock(l, height, net) && ApplyCert(l, id, cert, net).Done?
    ensures var (l', undo) := ApplyCert(l, id, cert, net).value; var m := M.ApplyCert(Of(l, id), cert, net);
      m.Done? && m.value.1 == undo && Only(l, l', id, m.value.0)
  {
    var (l', undo) := ApplyCert(l, id, cert, net).value;
    if cert.epoch == undo.prevEpoch {
      PutOnly(l, id, Some(l'.scs[id]), l.events);
    } else {
      var from, to := CeasingHeight(l.scs[id]), CeasingHeight(l'.scs[id]);
      EventsAhead(l, height, net, from);
      assert M.MidInv(Of(l, id), height, net);
      CeasingMoves(l.events, from, to, id);
      PutOnly(l, id, Some(l'.scs[id]), l'.events);
      assert l' == Put(l, id, Some(l'.scs[id]), l'.events);
    }
  }

  lemma RevertCertFollows(l: Ledger, id: ScId, cert: Cert, undo: CertUndo)
    requires M.RevertCert(Of(l, id), cert, undo).Done?
    ensures var m, r := M.RevertCert(Of(l, id), cert, undo), RevertCert(l, id, cert, undo);
      r.Done? && Only(l, r.value, id, m.value)
  {
    var l' := RevertCert(l, id, cert, undo).value;
    if cert.epoch == undo.prevEpoch {
      PutOnly(l, id, Some(l'.scs[id]), l.events);
    } else {
      CeasingMoves(l.events, CeasingHeight(l.scs[id]), CeasingHeight(l'.scs[id]), id);
      PutOnly(l, id, Some(l'.scs[id]), l'.events);
      assert l' == Put(l, id, Some(l'.scs[id]), l'.events);
    }
  }

  /** The certificates of a block that count: per sidechain the last one, in block order (HighQualityCertData). */
  function Top(certs: seq<ScCert>): seq<ScCert> {
    if certs == [] then []
    else
      var last := certs[|certs| - 1];
      Without(Top(certs[..|certs| - 1]), last.id) + [last]
  }

  function Without(certs: seq<ScCert>, id: ScId): seq<ScCert> {
    if certs == [] then []
    else
      var last := certs[|certs| - 1];
      Without(certs[..|certs| - 1], id) + (if last.id == id then [] else [last])
  }

  ghost predicate Distinct(certs: seq<ScCert>) {
    forall i, j :: 0 <= i < j < |certs| ==> certs[i].id != certs[j].id
  }

  lemma {:induction false} WithoutDistinct(certs: seq<ScCert>, id: ScId)
    requires Distinct(certs)
    ensures Distinct(Without(certs, id))
    ensures forall c :: c in Without(certs, id) <==> c in certs && c.id != id
  {
    if certs != [] {
      var init, last := certs[..|certs| - 1], certs[|certs| - 1];
      WithoutDistinct(init, id);
      assert certs == init + [last];
    }
  }

  /** No sidechain is certified twice, and each one by its last certificate in the block. */
  lemma {:induction false} TopDistinct(certs: seq<ScCert>)
    ensures Distinct(Top(certs))
    ensures forall c :: c in Top(certs) ==> c in certs
    ensures forall i :: 0 <= i < |certs| && (forall j :: i < j < |certs| ==> certs[j].id != certs[i].id) ==>
      certs[i] in Top(certs)
  {
    if certs != [] {
      var init, last := certs[..|certs| - 1], certs[|certs| - 1];
      TopDistinct(init);
      WithoutDistinct(Top(init), last.id);
      assert certs == init + [last];
      forall i | 0 <= i < |init| && (forall j :: i < j < |certs| ==> certs[j].id != certs[i].id)
        ensures certs[i] in Top(certs)
      {
        assert init[i] in Top(init) && certs[|init|].id != certs[i].id;
      }
    }
  }

  function CertFor(certs: seq<ScCert>, id: ScId): Option<Cert> {
    if certs == [] then None
    else if certs[|certs| - 1].id == id then Some(certs[|certs| - 1].cert)
    else CertFor(certs[..|certs| - 1], id)
  }

  function ApplyCerts(l: Ledger, certs: seq<ScCert>, net: Net): Outcome<(Ledger, map<ScId, CertUndo>)> {
    if certs == [] then Done((l, map[]))
    else
      var last := certs[|certs| - 1];
      var (l', undos) :- ApplyCerts(l, certs[..|certs| - 1], net);
      if last.id in undos && undos[last.id].prevHash != NULL_HASH then AssertFailed
      else
        var (l'', undo) :- ApplyCert(l', last.id, last.cert, net);
        Done((l'', undos[last.id := undo]))
  }

  function RevertCerts(l: Ledger, certs: seq<ScCert>, undos: map<ScId, CertUndo>): Outcome<Ledger>
    decreases |certs|
  {
    if certs == [] then Done(l)
    else
      var last := certs[|certs| - 1];
      if last.id !in undos then AssertFailed
      else
        var l' :- RevertCert(l, last.id, last.cert, undos[last.id]);
        RevertCerts(l', certs[..|certs| - 1], undos)
  }

  ghost predicate ValidCerts(certs: seq<ScCert>) {
    forall c :: c in certs ==> ValidCert(c.cert)
  }

  /** What the certificates of a block do to one sidechain. */
  ghost predicate Certified(l: Ledger, l': Ledger, undos: map<ScId, CertUndo>, cert: Option<Cert>, id: ScId, net: Net) {
    match cert
    case None => Of(l', id) == Of(l, id) && id !in undos
    case Some(c) => id in undos && M.ApplyCert(Of(l, id), c, net) == Done((Of(l', id), undos[id]))
  }

  lemma CertForAbsent(certs: seq<ScCert>, id: ScId)
    ensures CertFor(certs, id).None? <==> forall c :: c in certs ==> c.id != id
  {
    if certs != [] {
      var init, last := certs[..|certs| - 1], certs[|certs| - 1];
      assert certs == init + [last];
      CertForAbsent(init, id);
    }
  }

  lemma {:induction false} ApplyCertsProject(l: Ledger, certs: seq<ScCert>, height: int, net: Net)
    requires M.ValidNet(net) && MidBlock(l, height, net) && Distinct(certs) && ValidCerts(certs)
    requires ApplyCerts(l, certs, net).Done?
    ensures var (l', undos) := ApplyCerts(l, certs, net).value;
      && MidBlock(l', height, net)
      && forall id :: Certified(l, l', undos, CertFor(certs, id), id, net)
  {
    if certs != [] {
      var init, last := certs[..|certs| - 1], certs[|certs| - 1];
      assert certs == init + [last] && last in certs;
      assert forall c :: c in init ==> c in certs;
      ApplyCertsProject(l, init, height, net);
      var (mid, undos) := ApplyCerts(l, init, net).value;
      ApplyCertFollows(mid, last.id, last.cert, height, net);
      CertForAbsent(init, last.id);
      assert Certified(l, mid, undos, CertFor(init, last.id), last.id, net);
      assert M.MidInv(Of(mid, last.id), height, net);
      ApplyCertKeepsMidInv(Of(mid, last.id), last.cert, height, net);
      var (l', undos') := ApplyCerts(l, certs, net).value;
      forall id
        ensures Certified(l, l', undos', CertFor(certs, id), id, net) && M.MidInv(Of(l', id), height, net)
      {
        assert Certified(l, mid, undos, CertFor(init, id), id, net);
        assert M.MidInv(Of(mid, id), height, net);
      }
    }
  }

  lemma OneCertUndone(l: Ledger, id: ScId, cert: Cert, height: int, net: Net)
    requires M.ValidNet(net) && MidBlock(l, height, net) && ValidCert(cert) && ApplyCert(l, id, cert, net).Done?
    ensures var (l', undo) := ApplyCert(l, id, cert, net).value; RevertCert(l', id, cert, undo) == Done(l)
  {
    var (l', undo) := ApplyCert(l, id, cert, net).value;
    ApplyCertFollows(l, id, cert, height, net);
    assert M.MidInv(Of(l, id), height, net);
    CertUndone(Of(l, id), cert, height, net);
    RevertCertFollows(l', id, cert, undo);
    PartsDetermine(RevertCert(l', id, cert, undo).value, l);
  }

  /** Undoing the certificates of a block, last first, restores the ledger. */
  lemma {:induction false} CertsUndone(l: Ledger, certs: seq<ScCert>, undos: map<ScId, CertUndo>, height: int, net: Net)
    requires M.ValidNet(net) && MidBlock(l, height, net) && Distinct(certs) && ValidCerts(certs)
    requires ApplyCerts(l, certs, net).Done?
    requires forall c :: c in certs ==>
      c.id in undos && c.id in ApplyCerts(l, certs, net).value.1
      && undos[c.id] == ApplyCerts(l, certs, net).value.1[c.id]
    ensures RevertCerts(ApplyCerts(l, certs, net).value.0, certs, undos) == Done(l)
  {
    if certs != [] {
      var init, last := certs[..|certs| - 1], certs[|certs| - 1];
      assert certs == init + [last] && last in certs;
      assert forall c :: c in init ==> c in certs;
      ApplyCertsProject(l, init, height, net);
      var (mid, undos') := ApplyCerts(l, init, net).value;
      OneCertUndone(mid, last.id, last.cert, height, net);
      forall c | c in init
        ensures c.id in undos' && c.id != last.id
      {
        CertForAbsent(init, c.id);
        assert Certified(l, mid, undos', CertFor(init, c.id), c.id, net);
      }
      CertsUndone(l, init, undos, height, net);
    }
  }

  // ---------- Events ----------

  /** CCoinsViewCache::HandleSidechainEvents. */
  function HandleEvents(l: Ledger, height: int): Outcome<(Ledger, map<ScId, EventUndo>)> {
    if height !in l.events then Done((l, map[]))
    else
      var e := l.events[height];
      if !(forall id | id in e.maturing :: id in l.scs && height in l.scs[id].immature) then AssertFailed
      else if !(forall id | id in e.ceasing ::
        id in l.scs && (l.scs[id].lastEpoch == EPOCH_NULL ==> l.scs[id].lastHash == NULL_HASH))
        then AssertFailed
      else
        Done((l.(scs := map id | id in l.scs :: if id in e.maturing then Mature(l.scs[id], height) else l.scs[id],
                 events := l.events - {height}),
              map id | id in e.maturing + e.ceasing ::
                EventUndo(if id in e.maturing then Some(l.scs[id].immature[height]) else None, id in e.ceasing)))
  }

  /** CCoinsViewCache::RevertSidechainEvents. */
  function RevertEvents(l: Ledger, undos: map<ScId, EventUndo>, height: int): Outcome<Ledger> {
    if height in l.events then Rejected
    else if exists id | id in undos ::
      undos[id].matured.Some?
      && (id !in l.scs || (undos[id].matured.value > 0 && l.scs[id].balance < undos[id].matured.value))
      then Rejected
    else if exists id | id in undos :: undos[id].ceased && id !in l.scs then AssertFailed
    else
      Done(l.(scs := map id | id in l.scs ::
                if id in undos && undos[id].matured.Some?
                  then Unmature(l.scs[id], height, undos[id].matured.value)
                  else l.scs[id],
              events := Store(l.events, height,
                              Events(set id | id in undos && undos[id].ceased,
                                     set id | id in undos && undos[id].matured.Some?))))
  }

  function EventUndoFor(undos: map<ScId, EventUndo>, id: ScId): EventUndo {
    if id in undos then undos[id] else EventUndo(None, false)
  }

  /** The asserts of event handling hold, and every sidechain sees its own events. */
  lemma HandleEventsProject(l: Ledger, height: int, net: Net)
    requires M.ValidNet(net) && MidBlock(l, height, net)
    ensures HandleEvents(l, height).Done?
    ensures var (l', undos) := HandleEvents(l, height).value;
      && Normal(l'.events)
      && forall id :: M.HandleEvents(Of(l, id), height) == Done((Of(l', id), EventUndoFor(undos, id)))
  {
    forall id
      ensures M.HandleEvents(Of(l, id), height).Done?
      ensures id in At(l.events, height).maturing <==> height in Maturing(l.events, id)
      ensures id in At(l.events, height).ceasing <==> height in Ceasing(l.events, id)
    {
      assert M.MidInv(Of(l, id), height, net);
      HandleEventsSafe(Of(l, id), height, net);
      AtTransposed(l.events, height, id);
    }
    forall id | id in At(l.events, height).maturing
      ensures id in l.scs && height in l.scs[id].immature
    {
      assert M.HandleEvents(Of(l, id), height).Done?;
    }
    forall id | id in At(l.events, height).ceasing
      ensures id in l.scs && (l.scs[id].lastEpoch == EPOCH_NULL ==> l.scs[id].lastHash == NULL_HASH)
    {
      assert M.HandleEvents(Of(l, id), height).Done?;
    }
    var (l', undos) := HandleEvents(l, height).value;
    forall id
      ensures M.HandleEvents(Of(l, id), height) == Done((Of(l', id), EventUndoFor(undos, id)))
    {
      assert Maturing(l'.events, id) == Maturing(l.events, id) - {height};
      assert Ceasing(l'.events, id) == Ceasing(l.events, id) - {height};
    }
  }

  /** Where reverting events goes through, it does so for every sidechain. */
  lemma RevertEventsEach(l: Ledger, undos: map<ScId, EventUndo>, height: int, id: ScId)
    requires RevertEvents(l, undos, height).Done?
    ensures M.RevertEvents(Of(l, id), EventUndoFor(undos, id), height).Done?
  {
  }

  lemma RevertEventsAll(l: Ledger, undos: map<ScId, EventUndo>, height: int)
    requires Normal(l.events)
    requires forall id :: M.RevertEvents(Of(l, id), EventUndoFor(undos, id), height).Done?
    ensures RevertEvents(l, undos, height).Done?
  {
    forall id
      ensures height !in Maturing(l.events, id) && height !in Ceasing(l.events, id)
    {
      assert M.RevertEvents(Of(l, id), EventUndoFor(undos, id), height).Done?;
    }
    UnlistedHeight(l.events, height);
    forall id | id in undos
      ensures undos[id].matured.Some? ==>
        id in l.scs && !(undos[id].matured.value > 0 && l.scs[id].balance < undos[id].matured.value)
      ensures undos[id].ceased ==> id in l.scs
    {
      assert M.RevertEvents(Of(l, id), EventUndoFor(undos, id), height).Done?;
    }
  }

  /** Reverting events goes through exactly when it does for every sidechain, and then has those results. */
  lemma RevertEventsProject(l: Ledger, undos: map<ScId, EventUndo>, height: int)
    requires Normal(l.events)
    ensures var r := RevertEvents(l, undos, height);
      && (r.Done? <==> forall id :: M.RevertEvents(Of(l, id), EventUndoFor(undos, id), height).Done?)
      && (r.Done? ==>
           && Normal(r.value.events)
           && forall id :: M.RevertEvents(Of(l, id), EventUndoFor(undos, id), height) == Done(Of(r.value, id)))
  {
    if forall id :: M.RevertEvents(Of(l, id), EventUndoFor(undos, id), height).Done? {
      RevertEventsAll(l, undos, height);
    }
    if RevertEvents(l, undos, height).Done? {
      var l' := RevertEvents(l, undos, height).value;
      var e := Events(set id | id in undos && undos[id].ceased, set id | id in undos && undos[id].matured.Some?);
      forall id
        ensures M.RevertEvents(Of(l, id), EventUndoFor(undos, id), height) == Done(Of(l', id))
      {
        RevertEventsEach(l, undos, height, id);
        StoreTransposed(l.events, height, e, id);
        var u := EventUndoFor(undos, id);
        assert Maturing(l'.events, id) ==
          if u.matured.Some? then Maturing(l.events, id) + {height} else Maturing(l.events, id);
        assert Ceasing(l'.events, id) == if u.ceased then Ceasing(l.events, id) + {height} else Ceasing(l.events, id);
      }
    }
  }
}
