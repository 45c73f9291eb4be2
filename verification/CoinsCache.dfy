/** The coins map of a view over the tip cache over the store, with independent DIRTY and FRESH bits. */
module CoinsCache {
  import opened Outcomes
  import opened Coins

  datatype CoinsEntry = CoinsEntry(coins: Coins, isDirty: bool, isFresh: bool)

  type CoinsMap<K> = map<K, CoinsEntry>

  datatype CoinsLayers<K> = CoinsLayers(store: map<K, Coins>, tip: CoinsMap<K>, view: CoinsMap<K>)

  /** The unpruned coins that a cache offers over a base. */
  ghost function Show<K(!new)>(c: CoinsMap<K>, base: map<K, Coins>): (shown: map<K, Coins>)
    ensures forall k :: k in shown <==> if k in c then !Pruned(c[k].coins) else k in base
    ensures forall k :: k in shown ==> shown[k] == if k in c then c[k].coins else base[k]
  {
    map k | k in c.Keys + base.Keys && (k !in c || !Pruned(c[k].coins)) :: if k in c then c[k].coins else base[k]
  }

  /** An entry of the tip: unmodified ones repeat the store, fresh ones are not in it. */
  ghost predicate RestsAt<K(!new)>(k: K, e: CoinsEntry, store: map<K, Coins>) {
    && Trimmed(e.coins.vout)
    && (!e.isDirty ==> k in store && store[k] == e.coins)
    && (e.isFresh ==> k !in store)
  }

  /** An entry of the view: unmodified ones repeat the tip, fresh ones are not shown by it. */
  ghost predicate SitsAt<K(!new)>(k: K, e: CoinsEntry, tip: CoinsMap<K>, store: map<K, Coins>) {
    && Trimmed(e.coins.vout)
    && (!e.isDirty ==> k in tip && tip[k].coins == e.coins)
    && (!e.isFresh ==> k in tip)
    && (e.isFresh ==> if k in tip then Pruned(tip[k].coins) else k !in store)
  }

  ghost predicate StoreKeeps<K(!new)>(store: map<K, Coins>) {
    forall k :: k in store ==> !Pruned(store[k]) && Trimmed(store[k].vout)
  }

  ghost predicate Rests<K(!new)>(tip: CoinsMap<K>, store: map<K, Coins>) {
    forall k :: k in tip ==> RestsAt(k, tip[k], store)
  }

  ghost predicate Sits<K(!new)>(view: CoinsMap<K>, tip: CoinsMap<K>, store: map<K, Coins>) {
    forall k :: k in view ==> SitsAt(k, view[k], tip, store)
  }

  ghost predicate Sound<K(!new)>(l: CoinsLayers<K>) {
    StoreKeeps(l.store) && Rests(l.tip, l.store) && Sits(l.view, l.tip, l.store)
  }

  ghost function TipShown<K(!new)>(l: CoinsLayers<K>): map<K, Coins> {
    Show(l.tip, l.store)
  }

  ghost function Shown<K(!new)>(l: CoinsLayers<K>): map<K, Coins> {
    Show(l.view, TipShown(l))
  }

  // ---------- Looking up ----------

  function Ask<K>(l: CoinsLayers<K>, k: K): CoinsLayers<K> {
    if k !in l.tip && k in l.store then l.(tip := l.tip[k := CoinsEntry(l.store[k], false, false)]) else l
  }

  /** An entry that repeats what the base shows changes nothing. */
  lemma ShowRepeated<K(!new)>(c: CoinsMap<K>, base: map<K, Coins>, k: K, e: CoinsEntry)
    requires k !in c && (if Pruned(e.coins) then k !in base else k in base && base[k] == e.coins)
    ensures Show(c[k := e], base) == Show(c, base)
  {
    var r := c[k := e];
    assert forall j :: j != k ==> (j in r <==> j in c) && (j in c ==> r[j] == c[j]);
    assert Show(r, base).Keys == Show(c, base).Keys;
  }

  lemma AskIsSilent<K(!new)>(l: CoinsLayers<K>, k: K)
    requires Sound(l)
    ensures var r := Ask(l, k); Sound(r) && TipShown(r) == TipShown(l) && Shown(r) == Shown(l)
  {
    var r := Ask(l, k);
    if k !in l.tip && k in l.store {
      ShowRepeated(l.tip, l.store, k, r.tip[k]);
      forall j | j in r.tip
        ensures RestsAt(j, r.tip[j], r.store)
      {
        assert j != k ==> j in l.tip && RestsAt(j, l.tip[j], l.store);
      }
      forall j | j in r.view
        ensures SitsAt(j, r.view[j], r.tip, r.store)
      {
        assert SitsAt(j, l.view[j], l.tip, l.store);
      }
    }
  }

  /** CCoinsViewCache::FetchCoins: a pruned entry of the tip is taken over as fresh. */
  function Look<K>(l: CoinsLayers<K>, k: K): CoinsLayers<K> {
    if k in l.view then l
    else
      var r := Ask(l, k);
      if k in r.tip then r.(view := r.view[k := CoinsEntry(r.tip[k].coins, false, Pruned(r.tip[k].coins))]) else r
  }

  lemma LookIsSilent<K(!new)>(l: CoinsLayers<K>, k: K)
    requires Sound(l)
    ensures var r := Look(l, k);
      && Sound(r) && TipShown(r) == TipShown(l) && Shown(r) == Shown(l)
      && (k !in l.view ==> k in r.view || (k !in r.tip && k !in r.store))
  {
    AskIsSilent(l, k);
    var r := Ask(l, k);
    if k !in l.view && k in r.tip {
      var e := CoinsEntry(r.tip[k].coins, false, Pruned(r.tip[k].coins));
      assert RestsAt(k, r.tip[k], r.store);
      assert k in TipShown(r) <==> !Pruned(r.tip[k].coins);
      ShowRepeated(r.view, TipShown(r), k, e);
      SitsOneMore(r, k, e);
    }
  }

  lemma SitsOneMore<K(!new)>(l: CoinsLayers<K>, k: K, e: CoinsEntry)
    requires Sits(l.view, l.tip, l.store) && SitsAt(k, e, l.tip, l.store)
    ensures Sits(l.view[k := e], l.tip, l.store)
  {
  }

  /** CCoinsViewCache::HaveCoins looks at the length of the output list instead of every output. */
  function HaveCoins<K>(l: CoinsLayers<K>, k: K): bool {
    var r := Look(l, k);
    k in r.view && r.view[k].coins.vout != []
  }

  lemma HaveMatchesShown<K(!new)>(l: CoinsLayers<K>, k: K)
    requires Sound(l)
    ensures HaveCoins(l, k) <==> k in Shown(l)
  {
    LookIsSilent(l, k);
    var r := Look(l, k);
    assert k in r.view ==> SitsAt(k, r.view[k], r.tip, r.store);
    assert k in Shown(r) <==> if k in r.view then !Pruned(r.view[k].coins) else k in TipShown(r);
    if k in r.view && r.view[k].coins.vout != [] {
      var last := |r.view[k].coins.vout| - 1;
      assert !r.view[k].coins.vout[last].Null?;
    }
  }

  /** Coins that are shown have their trailing spent outputs trimmed and some output left. */
  lemma ShownKept<K(!new)>(l: CoinsLayers<K>, k: K)
    requires Sound(l) && k in Shown(l)
    ensures Trimmed(Shown(l)[k].vout) && !Pruned(Shown(l)[k])
  {
    assert k in l.view ==> SitsAt(k, l.view[k], l.tip, l.store);
    assert k in l.tip ==> RestsAt(k, l.tip[k], l.store);
  }

  lemma AllShownKept<K(!new)>(l: CoinsLayers<K>)
    requires Sound(l)
    ensures forall k :: k in Shown(l) ==> Trimmed(Shown(l)[k].vout) && !Pruned(Shown(l)[k])
  {
    forall k | k in Shown(l)
      ensures Trimmed(Shown(l)[k].vout) && !Pruned(Shown(l)[k])
    {
      ShownKept(l, k);
    }
  }

  // ---------- Modifying ----------

  /** CCoinsViewCache::ModifyCoins: the entry to be written, marked dirty. */
  function Open<K>(l: CoinsLayers<K>, k: K): (CoinsLayers<K>, CoinsEntry) {
    var r := Look(l, k);
    if k in r.view then (r, r.view[k].(isDirty := true)) else (r, CoinsEntry(BLANK, true, true))
  }

  /** The end of a CCoinsModifier: the record is trimmed, and dropped if it is fresh and pruned. */
  function Close<K>(l: CoinsLayers<K>, k: K, e: CoinsEntry): CoinsLayers<K> {
    var trimmed := e.(coins := e.coins.(vout := Trim(e.coins.vout)));
    l.(view := if e.isFresh && Pruned(trimmed.coins) then l.view - {k} else l.view[k := trimmed])
  }

  /** What a view shows once a record has been modified. */
  ghost function Changed<K(!new)>(shown: map<K, Coins>, k: K, c: Coins): map<K, Coins> {
    if Pruned(c) then shown - {k} else shown[k := c.(vout := Trim(c.vout))]
  }

  lemma TrimKeepsPruned(c: Coins)
    ensures Pruned(c.(vout := Trim(c.vout))) <==> Pruned(c)
  {
    var r := Trim(c.vout);
    assert forall i :: 0 <= i < |r| ==> r[i] == c.vout[i];
    if r != [] {
      assert !r[|r| - 1].Null?;
    }
  }

  lemma ShowWritten<K(!new)>(c: CoinsMap<K>, base: map<K, Coins>, k: K, e: CoinsEntry)
    ensures Show(c[k := e], base) == if Pruned(e.coins) then Show(c, base) - {k} else Show(c, base)[k := e.coins]
  {
    var shown, changed := Show(c[k := e], base),
      if Pruned(e.coins) then Show(c, base) - {k} else Show(c, base)[k := e.coins];
    assert shown.Keys == changed.Keys;
  }

  lemma ShowDropped<K(!new)>(c: CoinsMap<K>, base: map<K, Coins>, k: K)
    requires k !in base
    ensures Show(c - {k}, base) == Show(c, base) - {k}
  {
    assert Show(c - {k}, base).Keys == (Show(c, base) - {k}).Keys;
  }

  lemma ShowClosed<K(!new)>(l: CoinsLayers<K>, k: K, e: CoinsEntry)
    requires e.isFresh ==> k !in TipShown(l)
    ensures Shown(Close(l, k, e)) == Changed(Shown(l), k, e.coins)
  {
    TrimKeepsPruned(e.coins);
    var trimmed := e.(coins := e.coins.(vout := Trim(e.coins.vout)));
    if e.isFresh && Pruned(trimmed.coins) {
      ShowDropped(l.view, TipShown(l), k);
    } else {
      ShowWritten(l.view, TipShown(l), k, trimmed);
    }
  }

  /** Writing coins through a modifier changes one record of the view and nothing else. */
  lemma ModifyIsSound<K(!new)>(l: CoinsLayers<K>, k: K, c: Coins)
    requires Sound(l)
    ensures var (o, e) := Open(l, k); var r := Close(o, k, e.(coins := c));
      Sound(r) && TipShown(r) == TipShown(l) && Shown(r) == Changed(Shown(l), k, c)
    ensures var (o, e) := Open(l, k); if k in Shown(l) then e.coins == Shown(l)[k] else Pruned(e.coins)
  {
    LookIsSilent(l, k);
    var (o, e) := Open(l, k);
    var trimmed := e.(coins := c.(vout := Trim(c.vout)));
    assert k in l.view ==> SitsAt(k, l.view[k], l.tip, l.store);
    assert k in o.view ==> SitsAt(k, o.view[k], o.tip, o.store);
    assert SitsAt(k, trimmed, o.tip, o.store);
    SitsOneMore(o, k, trimmed);
    ShowClosed(o, k, e.(coins := c));
  }

  /** A record that is opened but not shown has no outputs. */
  lemma OpenTrimmed<K(!new)>(l: CoinsLayers<K>, k: K)
    requires Sound(l)
    ensures k in Shown(l) ==> Open(l, k).1.coins == Shown(l)[k]
    ensures k !in Shown(l) ==> Open(l, k).1.coins.vout == []
  {
    LookIsSilent(l, k);
    var r := Look(l, k);
    if k in r.view {
      assert SitsAt(k, r.view[k], r.tip, r.store);
      if r.view[k].coins.vout != [] {
        NotPruned(r.view[k].coins);
      }
    }
  }

  // ---------- Flushing ----------

  /** CCoinsViewCache::WriteCoins, with its assert. */
  function WriteCoins<K>(k: K, e: CoinsEntry, dest: CoinsMap<K>): Outcome<CoinsMap<K>> {
    if !e.isDirty then Done(dest)
    else if k !in dest then
      if Pruned(e.coins) then Done(dest)
      else if !e.isFresh then AssertFailed
      else Done(dest[k := CoinsEntry(e.coins, true, true)])
    else if dest[k].isFresh && Pruned(e.coins) then Done(dest - {k})
    else Done(dest[k := CoinsEntry(e.coins, true, dest[k].isFresh)])
  }

  /** What the tip holds under a key after the view's entry is written to it. */
  ghost function MergedAt<K>(k: K, view: CoinsMap<K>, tip: CoinsMap<K>): Option<CoinsEntry> {
    if k !in view || !view[k].isDirty then if k in tip then Some(tip[k]) else None
    else if Pruned(view[k].coins) && (k !in tip || tip[k].isFresh) then None
    else Some(CoinsEntry(view[k].coins, true, k !in tip || tip[k].isFresh))
  }

  ghost function Merged<K(!new)>(view: CoinsMap<K>, tip: CoinsMap<K>): (m: CoinsMap<K>)
    ensures forall k :: k in m <==> MergedAt(k, view, tip).Some?
    ensures forall k :: k in m ==> m[k] == MergedAt(k, view, tip).value
  {
    map k | k in tip.Keys + view.Keys && MergedAt(k, view, tip).Some? :: MergedAt(k, view, tip).value
  }

  lemma MergeOne<K(!new)>(done: CoinsMap<K>, tip: CoinsMap<K>, store: map<K, Coins>, k: K, e: CoinsEntry)
    requires k !in done && SitsAt(k, e, tip, store)
    ensures WriteCoins(k, e, Merged(done, tip)) == Done(Merged(done[k := e], tip))
  {
    var before, after := Merged(done, tip), Merged(done[k := e], tip);
    assert k in before <==> MergedAt(k, done, tip).Some?;
    forall j | j != k
      ensures MergedAt(j, done[k := e], tip) == MergedAt(j, done, tip)
    {
    }
    var written := WriteCoins(k, e, before).value;
    assert written.Keys == after.Keys;
    assert written == after;
  }

  lemma MergedRests<K(!new)>(l: CoinsLayers<K>)
    requires Sound(l)
    ensures Rests(Merged(l.view, l.tip), l.store)
  {
    var tip := Merged(l.view, l.tip);
    forall k | k in tip
      ensures RestsAt(k, tip[k], l.store)
    {
      assert k in l.tip ==> RestsAt(k, l.tip[k], l.store);
      assert k in l.view ==> SitsAt(k, l.view[k], l.tip, l.store);
    }
  }

  lemma MergedShowsAt<K(!new)>(l: CoinsLayers<K>, k: K)
    requires Sound(l)
    ensures var below := Show(Merged(l.view, l.tip), l.store);
      (k in below <==> k in Shown(l)) && (k in below && k in Shown(l) ==> below[k] == Shown(l)[k])
  {
    assert k in l.tip ==> RestsAt(k, l.tip[k], l.store);
    assert k in l.view ==> SitsAt(k, l.view[k], l.tip, l.store);
    assert k in Merged(l.view, l.tip) <==> MergedAt(k, l.view, l.tip).Some?;
  }

  /** Once the entries are written to the tip, it shows what the view showed. */
  lemma MergedShows<K(!new)>(l: CoinsLayers<K>)
    requires Sound(l)
    ensures Show(Merged(l.view, l.tip), l.store) == Shown(l)
  {
    var below := Show(Merged(l.view, l.tip), l.store);
    forall k
      ensures (k in below <==> k in Shown(l)) && (k in below && k in Shown(l) ==> below[k] == Shown(l)[k])
    {
      MergedShowsAt(l, k);
    }
    assert below.Keys == Shown(l).Keys;
  }

  /** CCoinsViewCache::BatchWrite for coins: no assert fires, whatever the order of the entries. */
  method BatchWrite<K(==, !new)>(l: CoinsLayers<K>) returns (tip: CoinsMap<K>)
    requires Sits(l.view, l.tip, l.store)
    ensures tip == Merged(l.view, l.tip)
  {
    tip := l.tip;
    var rest := l.view.Keys;
    ghost var done: CoinsMap<K> := map[];
    MergeNone(tip);
    while rest != {}
      invariant rest <= l.view.Keys && done.Keys == l.view.Keys - rest
      invariant forall k :: k in done ==> done[k] == l.view[k]
      invariant tip == Merged(done, l.tip)
      decreases |rest|
    {
      var k :| k in rest;
      MergeOne(done, l.tip, l.store, k, l.view[k]);
      var written := WriteCoins(k, l.view[k], tip);
      tip, done, rest := written.value, done[k := l.view[k]], rest - {k};
    }
    assert done == l.view;
  }

  lemma MergeNone<K(!new)>(tip: CoinsMap<K>)
    ensures Merged(map[], tip) == tip
  {
    assert Merged(map[], tip).Keys == tip.Keys;
  }

  /** CCoinsViewCache::Flush for coins: the tip then shows what the view showed. */
  method Flush<K(==, !new)>(l: CoinsLayers<K>) returns (r: CoinsLayers<K>)
    requires Sound(l)
    ensures Sound(r) && r.store == l.store && r.view == map[]
    ensures TipShown(r) == Shown(l) && Shown(r) == Shown(l)
  {
    var tip := BatchWrite(l);
    MergedRests(l);
    MergedShows(l);
    r := CoinsLayers(l.store, tip, map[]);
    assert Show(map[], TipShown(r)) == TipShown(r);
  }

  /** CCoinsViewDB::BatchWrite for coins: dirty entries are written, or deleted if pruned. */
  function Stored<K(!new)>(tip: CoinsMap<K>, store: map<K, Coins>): map<K, Coins> {
    map k | k in tip.Keys + store.Keys && (if k in tip && tip[k].isDirty then !Pruned(tip[k].coins) else k in store) ::
      if k in tip && tip[k].isDirty then tip[k].coins else store[k]
  }

  lemma StoreShows<K(!new)>(tip: CoinsMap<K>, store: map<K, Coins>)
    requires StoreKeeps(store) && Rests(tip, store)
    ensures Stored(tip, store) == Show(tip, store) && StoreKeeps(Stored(tip, store))
  {
    forall k
      ensures k in Stored(tip, store) <==> k in Show(tip, store)
      ensures k in Stored(tip, store) ==> Trimmed(Stored(tip, store)[k].vout)
    {
      assert k in tip ==> RestsAt(k, tip[k], store);
    }
    assert Stored(tip, store).Keys == Show(tip, store).Keys;
  }

  /** CCoinsViewCache::Flush of the tip into the store. */
  method FlushTip<K(==, !new)>(l: CoinsLayers<K>) returns (r: CoinsLayers<K>)
    requires Sound(l) && l.view == map[]
    ensures Sound(r) && r.view == map[] && r.tip == map[]
    ensures r.store == TipShown(l) && TipShown(r) == TipShown(l) && Shown(r) == Shown(l)
  {
    StoreShows(l.tip, l.store);
    r := CoinsLayers(Stored(l.tip, l.store), map[], map[]);
    assert Show(map[], r.store) == r.store;
    assert Show(map[], TipShown(l)) == TipShown(l);
  }

  lemma DroppedSound<K(!new)>(l: CoinsLayers<K>)
    requires Sound(l)
    ensures var r := l.(view := map[]); Sound(r) && TipShown(r) == TipShown(l) && Shown(r) == TipShown(l)
  {
    assert Show(map[], TipShown(l)) == TipShown(l);
  }

  lemma EmptyShows<K(!new)>(l: CoinsLayers<K>)
    requires l.view == map[]
    ensures Shown(l) == TipShown(l)
  {
    assert Show(map[], TipShown(l)) == TipShown(l);
  }
}
