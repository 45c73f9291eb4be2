/** The backward transfers of all certificates that a height's ceasing sidechains void, and their return. */
module CeasedCoins {
  import opened Outcomes
  import opened SidechainTypes
  import opened EventIndex
  import opened Coins
  import CC = CoinsCache

  /** The certificate whose backward transfers are voided when a sidechain ceases. */
  function CeasedCert(sc: Sidechain): Hash {
    if sc.lastEpoch == EPOCH_NULL then NULL_HASH else sc.lastHash
  }

  ghost function Certs(scs: map<ScId, Sidechain>, ids: set<ScId>): (hs: set<Hash>)
    ensures forall id :: id in ids && id in scs && CeasedCert(scs[id]) != NULL_HASH ==> CeasedCert(scs[id]) in hs
    ensures forall h :: h in hs ==> h != NULL_HASH && exists id :: id in ids && id in scs && CeasedCert(scs[id]) == h
  {
    set id | id in ids && id in scs && CeasedCert(scs[id]) != NULL_HASH :: CeasedCert(scs[id])
  }

  /** Voided are the recorded certificates of the sidechains that have one. */
  lemma {:induction false} CertsExactly(scs: map<ScId, Sidechain>, ids: set<ScId>, h: Hash)
    ensures h in Certs(scs, ids) <==>
      h != 0 && exists id :: id in ids && id in scs && scs[id].lastEpoch != -1 && scs[id].lastHash == h
  {
  }

  /** No certificate belongs to two sidechains. */
  ghost predicate OwnCerts(scs: map<ScId, Sidechain>) {
    forall a, b :: a in scs && b in scs && a != b && CeasedCert(scs[a]) != NULL_HASH ==>
      CeasedCert(scs[a]) != CeasedCert(scs[b])
  }

  /** Coins as AddToCoins makes them for a certificate. */
  ghost predicate OfCert(c: Coins) {
    c.firstBwt >= 0 && c.bwtMaturity != 0 && c.height != 0
  }

  ghost predicate CertCoins(scs: map<ScId, Sidechain>, coins: map<Hash, Coins>) {
    forall id :: id in scs && CeasedCert(scs[id]) in coins ==> OfCert(coins[CeasedCert(scs[id])])
  }

  ghost predicate Kept(coins: map<Hash, Coins>) {
    forall h :: h in coins ==> Trimmed(coins[h].vout) && !Pruned(coins[h])
  }

  /** The coins that are left when the backward transfers of `hs` are void. */
  ghost function VoidAll(coins: map<Hash, Coins>, hs: set<Hash>): map<Hash, Coins>
    requires forall h :: h in hs && h in coins ==> coins[h].firstBwt >= 0
  {
    map h | h in coins && !(h in hs && Pruned(Voided(coins[h]))) :: if h in hs then Voided(coins[h]) else coins[h]
  }

  /** The undo data kept for one certificate. */
  ghost function BwtUndo(coins: map<Hash, Coins>, h: Hash): seq<OutUndo>
    requires h in coins ==> coins[h].firstBwt >= 0
  {
    if h == NULL_HASH || h !in coins then [] else VoidedUndo(coins[h])
  }

  lemma VoidedTrimmed(c: Coins)
    requires Trimmed(c.vout) && c.firstBwt >= 0
    ensures Trimmed(Voided(c).vout) && Trim(Voided(c).vout) == Voided(c).vout
  {
    var v := Voided(c).vout;
    assert v[..|v|] == v;
    TrimUnique(v, |v|);
  }

  /** One more certificate is voided. */
  lemma VoidOneMore(coins: map<Hash, Coins>, hs: set<Hash>, h: Hash)
    requires forall g :: g in hs + {h} && g in coins ==> coins[g].firstBwt >= 0
    requires Kept(coins) && h in coins && h !in hs
    ensures h in VoidAll(coins, hs) && VoidAll(coins, hs)[h] == coins[h]
    ensures VoidAll(coins, hs + {h}) == CC.Changed(VoidAll(coins, hs), h, Voided(coins[h]))
  {
    VoidedTrimmed(coins[h]);
    assert VoidAll(coins, hs + {h}).Keys == CC.Changed(VoidAll(coins, hs), h, Voided(coins[h])).Keys;
  }

  /** A certificate without coins changes nothing. */
  lemma VoidAbsent(coins: map<Hash, Coins>, hs: set<Hash>, h: Hash)
    requires forall g :: g in hs && g in coins ==> coins[g].firstBwt >= 0
    requires h !in coins
    ensures VoidAll(coins, hs + {h}) == VoidAll(coins, hs)
  {
    assert VoidAll(coins, hs + {h}).Keys == VoidAll(coins, hs).Keys;
  }

  lemma VoidNone(coins: map<Hash, Coins>)
    ensures VoidAll(coins, {}) == coins
  {
    assert VoidAll(coins, {}).Keys == coins.Keys;
  }

  lemma PutBack(coins: map<Hash, Coins>, hs: set<Hash>, h: Hash)
    requires forall g :: g in hs && g in coins ==> coins[g].firstBwt >= 0
    requires Kept(coins) && h in coins
    ensures CC.Changed(VoidAll(coins, hs), h, coins[h]) == VoidAll(coins, hs - {h})
  {
    var c := coins[h];
    assert c.vout[..|c.vout|] == c.vout;
    TrimUnique(c.vout, |c.vout|);
    assert CC.Changed(VoidAll(coins, hs), h, c).Keys == VoidAll(coins, hs - {h}).Keys;
  }

  lemma LeftOver(c: Coins, start: Coins)
    requires c.firstBwt >= 0 && Trimmed(c.vout) && !Pruned(c)
    requires if !Pruned(Voided(c)) then start == Voided(c) else start.vout == []
    ensures WasVoided(c, start)
  {
    if Pruned(Voided(c)) {
      VoidedTrimmed(c);
      if Voided(c).vout != [] {
        NotPruned(Voided(c));
      }
    }
  }

  /** One certificate's backward transfers come back, whatever its record has become meanwhile. */
  lemma RestoreOneCert(coins: map<Hash, Coins>, hs: set<Hash>, h: Hash, start: Coins)
    requires forall g :: g in hs && g in coins ==> coins[g].firstBwt >= 0
    requires Kept(coins) && h in coins && h in hs && coins[h].height != 0
    requires if h in VoidAll(coins, hs) then start == VoidAll(coins, hs)[h] else start.vout == []
    ensures Restorable(start, VoidedUndo(coins[h])) && RestoredFrom(start, VoidedUndo(coins[h]), 0) == (coins[h], true)
    ensures CC.Changed(VoidAll(coins, hs), h, coins[h]) == VoidAll(coins, hs - {h})
  {
    PutBack(coins, hs, h);
    LeftOver(coins[h], start);
    VoidedRestored(coins[h], start);
  }

  /** A certificate without coins, or the null one, is not voided. */
  lemma VoidIdle(before: map<Hash, Coins>, hs: set<Hash>, h: Hash)
    requires forall g :: g in hs && g in before ==> before[g].firstBwt >= 0
    requires h !in hs || h !in before
    requires Kept(before)
    ensures VoidAll(before, hs - {h}) == VoidAll(before, hs) && (h in VoidAll(before, hs) <==> h in before)
    ensures h in before ==> VoidAll(before, hs)[h] == before[h]
  {
    assert VoidAll(before, hs - {h}).Keys == VoidAll(before, hs).Keys;
  }

  /** Writing back what is shown changes nothing. */
  lemma SameCoins(now: map<Hash, Coins>, h: Hash, start: Coins)
    requires if h in now then start == now[h] && Trimmed(start.vout) && !Pruned(start) else start.vout == []
    ensures CC.Changed(now, h, start) == now
  {
    if h in now {
      assert start.vout[..|start.vout|] == start.vout;
      TrimUnique(start.vout, |start.vout|);
    }
  }

  /** The undo data of one hash, voided or idle, put back. */
  lemma RestoreHash(before: map<Hash, Coins>, hs: set<Hash>, h: Hash, start: Coins)
    requires Kept(before) && (forall g :: g in hs && g in before ==> before[g].firstBwt >= 0)
    requires h in before ==> OfCert(before[h]) && (h in hs <==> h != NULL_HASH)
    requires var now := VoidAll(before, hs); if h in now then start == now[h] else start.vout == []
    ensures var now, undo := VoidAll(before, hs), BwtUndo(before, h);
      && Restorable(start, undo) && RestoredFrom(start, undo, 0).1
      && CC.Changed(now, h, RestoredFrom(start, undo, 0).0) == VoidAll(before, hs - {h})
  {
    if h != NULL_HASH && h in before {
      RestoreOneCert(before, hs, h, start);
    } else {
      VoidIdle(before, hs, h);
      SameCoins(VoidAll(before, hs), h, start);
    }
  }

  /** With own certificates, taking one sidechain out of a set takes its certificate out. */
  lemma CertsWithout(scs: map<ScId, Sidechain>, ids: set<ScId>, id: ScId)
    requires OwnCerts(scs) && id in ids && id in scs
    ensures Certs(scs, ids - {id}) == Certs(scs, ids) - {CeasedCert(scs[id])}
    ensures CeasedCert(scs[id]) == NULL_HASH ==> Certs(scs, ids - {id}) == Certs(scs, ids)
    ensures CeasedCert(scs[id]) != NULL_HASH ==> CeasedCert(scs[id]) !in Certs(scs, ids - {id})
  {
    var h := CeasedCert(scs[id]);
    forall g
      ensures g in Certs(scs, ids - {id}) <==> g in Certs(scs, ids) && g != h
    {
    }
  }
}
