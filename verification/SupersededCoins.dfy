/**
 * The certificates that a block's top certificates supersede: their backward transfers are voided
 * when the block is connected and come back when it is disconnected.
 */
module SupersededCoins {
  import opened Outcomes
  import opened SidechainTypes
  import opened EventIndex
  import opened M = SidechainMachine
  import L = Ledger
  import opened B = Blocks
  import opened Coins
  import CC = CoinsCache
  import opened D = CeasedCoins

  /**
   * HighQualityCertData: the previous certificate if it is of the same epoch, else the null hash.
   * Transactions do not change a sidechain's last certificate, so that the record found when the
   * certificate is applied is the one found before the block.
   */
  function SupersededBy(cert: Cert, undo: CertUndo): Hash {
    if cert.epoch == undo.prevEpoch then undo.prevHash else NULL_HASH
  }

  ghost function SupersededIn(certs: seq<ScCert>, undos: map<ScId, CertUndo>): set<Hash> {
    set c | c in certs && c.id in undos && SupersededBy(c.cert, undos[c.id]) != NULL_HASH ::
      SupersededBy(c.cert, undos[c.id])
  }

  /** The voided backward transfers in a block's undo data, by sidechain. */
  datatype BwtUndos = BwtUndos(superseded: map<ScId, seq<OutUndo>>, ceased: map<ScId, seq<OutUndo>>)

  /** The backward transfers that a certificate voids are kept as undo data. */
  ghost predicate LowRecorded(
    c: ScCert, undos: map<ScId, CertUndo>, before: map<Hash, Coins>, lows: map<ScId, seq<OutUndo>>)
  {
    c.id in undos ==>
      var h := SupersededBy(c.cert, undos[c.id]);
      h != NULL_HASH ==>
        && (h in before ==> OfCert(before[h]))
        && c.id in lows && lows[c.id] == BwtUndo(before, h)
  }

  /** No certificate is superseded twice. */
  ghost predicate OnceEach(certs: seq<ScCert>, undos: map<ScId, CertUndo>) {
    forall c, d :: c in certs && d in certs && c.id in undos && d.id in undos && c.id != d.id ==>
      SupersededBy(c.cert, undos[c.id]) == NULL_HASH
        || SupersededBy(c.cert, undos[c.id]) != SupersededBy(d.cert, undos[d.id])
  }

  ghost predicate SupersededRecorded(
    certs: seq<ScCert>, undos: map<ScId, CertUndo>, before: map<Hash, Coins>, lows: map<ScId, seq<OutUndo>>)
  {
    && Kept(before) && OnceEach(certs, undos)
    && forall c :: c in certs ==> LowRecorded(c, undos, before, lows)
  }

  /** The coins `before` without the backward transfers of superseded certificates. */
  ghost function WithoutSuperseded(
    certs: seq<ScCert>, undos: map<ScId, CertUndo>, before: map<Hash, Coins>, lows: map<ScId, seq<OutUndo>>)
    : map<Hash, Coins>
    requires SupersededRecorded(certs, undos, before, lows)
  {
    SupersededOfCerts(certs, undos, before, lows);
    VoidAll(before, SupersededIn(certs, undos))
  }

  lemma SupersededOfCerts(
    certs: seq<ScCert>, undos: map<ScId, CertUndo>, before: map<Hash, Coins>, lows: map<ScId, seq<OutUndo>>)
    requires SupersededRecorded(certs, undos, before, lows)
    ensures forall h :: h in SupersededIn(certs, undos) && h in before ==> OfCert(before[h])
  {
    forall h | h in SupersededIn(certs, undos) && h in before
      ensures OfCert(before[h])
    {
      var c :| c in certs && c.id in undos && SupersededBy(c.cert, undos[c.id]) == h;
      assert LowRecorded(c, undos, before, lows);
    }
  }

  lemma SupersededNone(undos: map<ScId, CertUndo>, before: map<Hash, Coins>, lows: map<ScId, seq<OutUndo>>)
    requires Kept(before)
    ensures SupersededRecorded([], undos, before, lows) && WithoutSuperseded([], undos, before, lows) == before
  {
    VoidNone(before);
    assert SupersededIn([], undos) == {};
  }

  // ---------- Connecting ----------

  /** No certificate belongs to two sidechains, and the coins of certificates are as certificates make them. */
  ghost predicate CertsHeld(l: L.Ledger, coins: map<Hash, Coins>) {
    OwnCerts(l.scs) && CertCoins(l.scs, coins) && NULL_HASH !in coins
  }

  /** A block's certificates have epochs and hashes of their own. */
  ghost predicate FreshCerts(l: L.Ledger, coins: map<Hash, Coins>, certs: seq<ScCert>) {
    && (forall c :: c in certs ==>
         && c.cert.epoch != EPOCH_NULL && c.cert.hash != NULL_HASH
         && (c.cert.hash in coins ==> OfCert(coins[c.cert.hash])))
    && (forall c, id :: c in certs && id in l.scs && id != c.id ==> c.cert.hash != CeasedCert(l.scs[id]))
    && (forall c, d :: c in certs && d in certs && c.id != d.id ==> c.cert.hash != d.cert.hash)
  }

  /** Transactions leave the last certificates alone. */
  lemma {:induction false} OpsKeepCerts(l: L.Ledger, ops: seq<L.TxOp>, height: int, net: Net)
    requires L.ApplyOps(l, ops, height, net).Done?
    ensures var l' := L.ApplyOps(l, ops, height, net).value;
      && (forall id :: id in l.scs ==> id in l'.scs && CeasedCert(l'.scs[id]) == CeasedCert(l.scs[id]))
      && (forall id :: id in l'.scs && id !in l.scs ==> CeasedCert(l'.scs[id]) == NULL_HASH)
  {
    if ops != [] {
      OpsKeepCerts(l, ops[..|ops| - 1], height, net);
    }
  }

  lemma OpsKeepHeld(
    l: L.Ledger, ops: seq<L.TxOp>, coins: map<Hash, Coins>, certs: seq<ScCert>, height: int, net: Net)
    requires L.ApplyOps(l, ops, height, net).Done? && CertsHeld(l, coins) && FreshCerts(l, coins, certs)
    ensures var l' := L.ApplyOps(l, ops, height, net).value; CertsHeld(l', coins) && FreshCerts(l', coins, certs)
  {
    OpsKeepCerts(l, ops, height, net);
  }

  /** The undo data names the last certificate of before; the record then names the new one. */
  ghost predicate Replaced(l: L.Ledger, l': L.Ledger, undos: map<ScId, CertUndo>, c: ScCert) {
    && c.id in l.scs && c.id in l'.scs && c.id in undos
    && undos[c.id].prevHash == l.scs[c.id].lastHash && undos[c.id].prevEpoch == l.scs[c.id].lastEpoch
    && l'.scs[c.id].lastHash == c.cert.hash
  }

  lemma CertReplaces(l: L.Ledger, c: ScCert, net: Net)
    requires B.ApplyCert(l, c.id, c.cert, net).Done?
    ensures var (l', undo) := B.ApplyCert(l, c.id, c.cert, net).value;
      && Replaced(l, l', map[c.id := undo], c) && l'.scs == l.scs[c.id := l'.scs[c.id]]
  {
  }

  ghost predicate AllReplaced(l: L.Ledger, l': L.Ledger, undos: map<ScId, CertUndo>, certs: seq<ScCert>) {
    && l'.scs.Keys == l.scs.Keys
    && (forall c :: c in certs ==> Replaced(l, l', undos, c))
    && (forall id :: id in l.scs && (forall c :: c in certs ==> c.id != id) ==> l'.scs[id] == l.scs[id])
  }

  lemma ReplacedNext(
    l: L.Ledger, mid: L.Ledger, l': L.Ledger, undos: map<ScId, CertUndo>, undo: CertUndo, certs: seq<ScCert>, c: ScCert)
    requires AllReplaced(l, mid, undos, certs) && forall d :: d in certs ==> d.id != c.id
    requires Replaced(mid, l', map[c.id := undo], c) && l'.scs == mid.scs[c.id := l'.scs[c.id]]
    ensures AllReplaced(l, l', undos[c.id := undo], certs + [c])
  {
    forall d | d in certs + [c]
      ensures Replaced(l, l', undos[c.id := undo], d)
    {
      if d in certs {
        assert Replaced(l, mid, undos, d);
      }
    }
    forall id | id in l.scs && forall d :: d in certs + [c] ==> d.id != id
      ensures l'.scs[id] == l.scs[id]
    {
      assert c in certs + [c];
      assert forall d :: d in certs ==> d in certs + [c];
    }
  }

  lemma {:induction false} CertsReplaced(l: L.Ledger, certs: seq<ScCert>, net: Net)
    requires Distinct(certs) && B.ApplyCerts(l, certs, net).Done?
    ensures var (l', undos) := B.ApplyCerts(l, certs, net).value; AllReplaced(l, l', undos, certs)
  {
    if certs != [] {
      var init, last := certs[..|certs| - 1], certs[|certs| - 1];
      assert certs == init + [last];
      CertsReplaced(l, init, net);
      var (mid, undos) := B.ApplyCerts(l, init, net).value;
      CertReplaces(mid, last, net);
      var (l', undo) := B.ApplyCert(mid, last.id, last.cert, net).value;
      hide AllReplaced, Replaced, B.ApplyCert;
      ReplacedNext(l, mid, l', undos, undo, init, last);
    }
  }

  /** A superseded certificate is the last one of its sidechain. */
  lemma SupersededOwn(l: L.Ledger, l': L.Ledger, undos: map<ScId, CertUndo>, c: ScCert)
    requires Replaced(l, l', undos, c) && c.cert.epoch != EPOCH_NULL
    ensures SupersededBy(c.cert, undos[c.id]) in {NULL_HASH, CeasedCert(l.scs[c.id])}
  {
  }

  /** Superseded is what a sidechain has recorded for the epoch of its top certificate in the block. */
  lemma {:induction false} SupersededExactly(l: L.Ledger, certs: seq<ScCert>, net: Net, h: Hash)
    requires Distinct(certs) && B.ApplyCerts(l, certs, net).Done?
    ensures h in SupersededIn(certs, B.ApplyCerts(l, certs, net).value.1) <==>
      h != 0 && exists c ::
        c in certs && c.id in l.scs && l.scs[c.id].lastEpoch == c.cert.epoch && l.scs[c.id].lastHash == h
  {
    CertsReplaced(l, certs, net);
    var (l', undos) := B.ApplyCerts(l, certs, net).value;
    hide B.ApplyCerts;
    assert forall c :: c in certs ==> Replaced(l, l', undos, c);
  }

  /** No two certificates of a block supersede the same one. */
  lemma SupersededOnce(l: L.Ledger, coins: map<Hash, Coins>, certs: seq<ScCert>, net: Net)
    requires Distinct(certs) && CertsHeld(l, coins) && FreshCerts(l, coins, certs)
    requires B.ApplyCerts(l, certs, net).Done?
    ensures OnceEach(certs, B.ApplyCerts(l, certs, net).value.1)
    ensures forall c :: c in certs ==>
      var undos := B.ApplyCerts(l, certs, net).value.1;
      c.id in undos && (SupersededBy(c.cert, undos[c.id]) in coins ==> OfCert(coins[SupersededBy(c.cert, undos[c.id])]))
  {
    CertsReplaced(l, certs, net);
    var (l', undos) := B.ApplyCerts(l, certs, net).value;
    hide B.ApplyCerts;
    forall c | c in certs
      ensures c.id in undos && c.id in l.scs
      ensures SupersededBy(c.cert, undos[c.id]) in {NULL_HASH, CeasedCert(l.scs[c.id])}
    {
      assert Replaced(l, l', undos, c);
      SupersededOwn(l, l', undos, c);
    }
  }

  /** The set of superseded certificates grows by at most the next one. */
  lemma SupersededNext(certs: seq<ScCert>, c: ScCert, undos: map<ScId, CertUndo>, undo: CertUndo)
    requires forall d :: d in certs ==> d.id != c.id
    requires OnceEach(certs + [c], undos[c.id := undo])
    ensures var now, next, h := SupersededIn(certs, undos), SupersededIn(certs + [c], undos[c.id := undo]),
      SupersededBy(c.cert, undo);
      if h == NULL_HASH then next == now else h !in now && next == now + {h}
  {
    var undos' := undos[c.id := undo];
    var h := SupersededBy(c.cert, undo);
    assert c in certs + [c] && forall d :: d in certs ==> d in certs + [c];
    assert SupersededIn(certs, undos') == SupersededIn(certs, undos);
    forall g
      ensures g in SupersededIn(certs + [c], undos') <==> g in SupersededIn(certs, undos') || (g == h && h != NULL_HASH)
    {
    }
  }

  /** The undo data with the next certificate's. */
  lemma RecordedNext(
    certs: seq<ScCert>, c: ScCert, undos: map<ScId, CertUndo>, undo: CertUndo,
    before: map<Hash, Coins>, lows: map<ScId, seq<OutUndo>>, lows': map<ScId, seq<OutUndo>>)
    requires SupersededRecorded(certs, undos, before, lows) && forall d :: d in certs ==> d.id != c.id
    requires OnceEach(certs + [c], undos[c.id := undo])
    requires var h := SupersededBy(c.cert, undo);
      && (h in before ==> OfCert(before[h]))
      && lows' == if h == NULL_HASH then lows else lows[c.id := BwtUndo(before, h)]
    ensures SupersededRecorded(certs + [c], undos[c.id := undo], before, lows')
  {
    forall d | d in certs + [c]
      ensures LowRecorded(d, undos[c.id := undo], before, lows')
    {
      if d in certs {
        assert LowRecorded(d, undos, before, lows);
      }
    }
  }

  /** One more top certificate: the one it supersedes is voided if it has coins. */
  lemma VoidSuperseded(
    certs: seq<ScCert>, c: ScCert, undos: map<ScId, CertUndo>, undo: CertUndo,
    before: map<Hash, Coins>, lows: map<ScId, seq<OutUndo>>, lows': map<ScId, seq<OutUndo>>)
    requires SupersededRecorded(certs, undos, before, lows) && forall d :: d in certs ==> d.id != c.id
    requires OnceEach(certs + [c], undos[c.id := undo])
    requires SupersededRecorded(certs + [c], undos[c.id := undo], before, lows')
    ensures var h := SupersededBy(c.cert, undo);
      var now, next := WithoutSuperseded(certs, undos, before, lows),
        WithoutSuperseded(certs + [c], undos[c.id := undo], before, lows');
      if h == NULL_HASH then next == now
      else if h in before
        then h in now && now[h] == before[h] && OfCert(now[h]) && next == CC.Changed(now, h, Voided(now[h]))
      else h !in now && next == now
  {
    SupersededNext(certs, c, undos, undo);
    SupersededOfCerts(certs, undos, before, lows);
    SupersededOfCerts(certs + [c], undos[c.id := undo], before, lows');
    var h := SupersededBy(c.cert, undo);
    var hs := SupersededIn(certs, undos);
    if h != NULL_HASH {
      assert h in hs + {h};
      if h in before {
        VoidOneMore(before, hs, h);
      } else {
        VoidAbsent(before, hs, h);
      }
    }
  }

  lemma NextDistinct(certs: seq<ScCert>, i: nat)
    requires Distinct(certs) && i < |certs|
    ensures certs[..i + 1] == certs[..i] + [certs[i]] && forall d :: d in certs[..i] ==> d.id != certs[i].id
  {
  }

  /** The same, at one place of a longer list. */
  lemma SupersedesOnce(l: L.Ledger, coins: map<Hash, Coins>, certs: seq<ScCert>, i: nat, net: Net)
    requires Distinct(certs) && CertsHeld(l, coins) && FreshCerts(l, coins, certs)
    requires i < |certs| && B.ApplyCerts(l, certs[..i + 1], net).Done?
    ensures var undos, c := B.ApplyCerts(l, certs[..i + 1], net).value.1, certs[i];
      && certs[..i + 1] == certs[..i] + [c] && c.id in undos
      && OnceEach(certs[..i] + [c], undos) && (forall d :: d in certs[..i] ==> d.id != c.id)
      && (SupersededBy(c.cert, undos[c.id]) in coins ==> OfCert(coins[SupersededBy(c.cert, undos[c.id])]))
  {
    NextDistinct(certs, i);
    SupersededOnce(l, coins, certs[..i + 1], net);
    assert certs[i] in certs[..i + 1];
  }

  /** Voiding outputs leaves a certificate's coins a certificate's coins. */
  lemma VoidKeepsHeld(l: L.Ledger, coins: map<Hash, Coins>, hs: set<Hash>)
    requires CertsHeld(l, coins) && forall h :: h in hs && h in coins ==> coins[h].firstBwt >= 0
    ensures CertsHeld(l, VoidAll(coins, hs))
  {
  }

  /** A block's certificates become their sidechains' last ones. */
  lemma CertsStayHeld(l: L.Ledger, coins: map<Hash, Coins>, certs: seq<ScCert>, net: Net)
    requires Distinct(certs) && CertsHeld(l, coins) && FreshCerts(l, coins, certs)
    requires B.ApplyCerts(l, certs, net).Done?
    ensures CertsHeld(B.ApplyCerts(l, certs, net).value.0, coins)
  {
    CertsReplaced(l, certs, net);
    var (l', undos) := B.ApplyCerts(l, certs, net).value;
    hide B.ApplyCerts;
    forall id | id in l'.scs
      ensures CeasedCert(l'.scs[id]) in coins ==> OfCert(coins[CeasedCert(l'.scs[id])])
      ensures l'.scs[id] == l.scs[id] || exists c :: c in certs && c.id == id && l'.scs[id].lastHash == c.cert.hash
    {
      if exists c :: c in certs && c.id == id {
        var c :| c in certs && c.id == id;
        assert Replaced(l, l', undos, c);
      }
    }
  }

  /** Once a block's certificates are applied, and the superseded ones voided. */
  lemma SupersededHeld(
    l: L.Ledger, coins: map<Hash, Coins>, certs: seq<ScCert>, lows: map<ScId, seq<OutUndo>>, net: Net)
    requires Distinct(certs) && CertsHeld(l, coins) && FreshCerts(l, coins, certs)
    requires B.ApplyCerts(l, certs, net).Done?
    requires SupersededRecorded(certs, B.ApplyCerts(l, certs, net).value.1, coins, lows)
    ensures var (l', undos) := B.ApplyCerts(l, certs, net).value;
      var now := WithoutSuperseded(certs, undos, coins, lows);
      CertsHeld(l', now) && OwnCerts(l'.scs) && CertCoins(l'.scs, now)
  {
    var (l', undos) := B.ApplyCerts(l, certs, net).value;
    CertsStayHeld(l, coins, certs, net);
    SupersededOfCerts(certs, undos, coins, lows);
    VoidKeepsHeld(l', coins, SupersededIn(certs, undos));
  }

  // ---------- Disconnecting ----------

  /** Coins that were voided were kept ones. */
  lemma CoinsBefore(
    certs: seq<ScCert>, undos: map<ScId, CertUndo>, before: map<Hash, Coins>, lows: map<ScId, seq<OutUndo>>)
    requires SupersededRecorded(certs, undos, before, lows)
    ensures Kept(before)
  {
  }

  /** The last top certificate's superseded one comes back. */
  lemma RestoreSuperseded(
    certs: seq<ScCert>, c: ScCert, undos: map<ScId, CertUndo>, before: map<Hash, Coins>,
    lows: map<ScId, seq<OutUndo>>, start: Coins)
    requires SupersededRecorded(certs + [c], undos, before, lows) && c.id in undos
    requires forall d :: d in certs ==> d.id != c.id
    requires var h, now := SupersededBy(c.cert, undos[c.id]), WithoutSuperseded(certs + [c], undos, before, lows);
      if h in now then start == now[h] else start.vout == []
    ensures SupersededRecorded(certs, undos, before, lows)
    ensures var h := SupersededBy(c.cert, undos[c.id]);
      var now, next := WithoutSuperseded(certs + [c], undos, before, lows),
        WithoutSuperseded(certs, undos, before, lows);
      if h == NULL_HASH then next == now
      else
        && c.id in lows && Restorable(start, lows[c.id])
        && next == CC.Changed(now, h, RestoredFrom(start, lows[c.id], 0).0)
  {
    assert c in certs + [c] && forall d :: d in certs ==> d in certs + [c];
    assert undos[c.id := undos[c.id]] == undos;
    SupersededNext(certs, c, undos, undos[c.id]);
    SupersededOfCerts(certs, undos, before, lows);
    SupersededOfCerts(certs + [c], undos, before, lows);
    var h := SupersededBy(c.cert, undos[c.id]);
    if h != NULL_HASH {
      assert LowRecorded(c, undos, before, lows);
      var hs := SupersededIn(certs + [c], undos);
      assert hs - {h} == SupersededIn(certs, undos);
      RestoreHash(before, hs, h, start);
    }
  }
}
