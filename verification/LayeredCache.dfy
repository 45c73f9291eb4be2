/**
 * A write-back cache over another view (src/coins.h, CMutableSidechainCacheEntry and
 * CImmutableSidechainCacheEntry): a child cache over a parent cache over a plain store.
 */
module LayeredCache {
  import opened Outcomes

  datatype Flag = Default | Dirty | Fresh | Erased

  datatype Entry<V> = Entry(value: V, flag: Flag)

  type Cache<K, V> = map<K, Entry<V>>

  /** What a cache shows over a base: its own entries, erased ones counting as absent, and else the base. */
  function Show<K(!new), V>(c: Cache<K, V>, base: map<K, V>): (shown: map<K, V>)
    ensures forall k :: k in shown <==> if k in c then c[k].flag != Erased else k in base
    ensures forall k :: k in shown ==> shown[k] == if k in c then c[k].value else base[k]
  {
    map k | k in c.Keys + base.Keys && (k !in c || c[k].flag != Erased) :: if k in c then c[k].value else base[k]
  }

  /** A cache directly over the store: unmodified entries repeat it. */
  ghost predicate Rests<K(!new), V>(parent: Cache<K, V>, store: map<K, V>) {
    forall k :: k in parent && parent[k].flag == Default ==> k in store && store[k] == parent[k].value
  }

  /**
   * An entry of a child over a parent: its key has been asked of the parent, an unmodified
   * entry repeats the parent's, and a fresh one is not shown by it.
   */
  ghost predicate SitsAt<K(!new), V>(k: K, e: Entry<V>, parent: Cache<K, V>, store: map<K, V>) {
    && (k in parent || k !in store)
    && (e.flag == Default ==> k in parent && parent[k].flag != Erased && parent[k].value == e.value)
    && (e.flag == Fresh ==> k !in Show(parent, store))
  }

  ghost predicate Sits<K(!new), V>(c: Cache<K, V>, parent: Cache<K, V>, store: map<K, V>) {
    forall k :: k in c ==> SitsAt(k, c[k], parent, store)
  }

  // ---------- One map of a view over the tip cache over the store ----------

  datatype Layers<K, V> = Layers(store: map<K, V>, tip: Cache<K, V>, view: Cache<K, V>)

  ghost predicate Sound<K(!new), V>(l: Layers<K, V>) {
    Rests(l.tip, l.store) && Sits(l.view, l.tip, l.store)
  }

  ghost function TipShown<K(!new), V>(l: Layers<K, V>): map<K, V> {
    Show(l.tip, l.store)
  }

  ghost function Shown<K(!new), V>(l: Layers<K, V>): map<K, V> {
    Show(l.view, TipShown(l))
  }

  function Write<K, V>(l: Layers<K, V>, k: K, v: V, flag: Flag): Layers<K, V> {
    l.(view := l.view[k := Entry(v, flag)])
  }

  /** What a view shows once a value is written to it under a flag. */
  ghost function Changed<K(!new), V>(shown: map<K, V>, k: K, v: V, flag: Flag): map<K, V> {
    if flag == Erased then shown - {k} else shown[k := v]
  }

  lemma ChangedKeys<K(!new), V>(shown: map<K, V>, k: K, v: V, flag: Flag)
    ensures Changed(shown, k, v, flag).Keys == if flag == Erased then shown.Keys - {k} else shown.Keys + {k}
  {
  }

  lemma ShowWrite<K(!new), V>(c: Cache<K, V>, base: map<K, V>, k: K, v: V, flag: Flag)
    ensures Show(c[k := Entry(v, flag)], base) == Changed(Show(c, base), k, v, flag)
  {
    var written, changed := Show(c[k := Entry(v, flag)], base), Changed(Show(c, base), k, v, flag);
    assert written.Keys == changed.Keys;
  }

  /** A write changes one key of the view and nothing else. */
  lemma WriteIsSound<K(!new), V>(l: Layers<K, V>, k: K, v: V, flag: Flag)
    requires Sound(l) && SitsAt(k, Entry(v, flag), l.tip, l.store)
    ensures var r := Write(l, k, v, flag);
      Sound(r) && TipShown(r) == TipShown(l) && Shown(r) == Changed(Shown(l), k, v, flag)
  {
    ShowWrite(l.view, TipShown(l), k, v, flag);
  }

  /** Asking the tip for a key fills it in from the store. */
  function Ask<K, V>(l: Layers<K, V>, k: K): Layers<K, V> {
    if k !in l.tip && k in l.store then l.(tip := l.tip[k := Entry(l.store[k], Default)]) else l
  }

  lemma AskIsSilent<K(!new), V>(l: Layers<K, V>, k: K)
    requires Sound(l)
    ensures var r := Ask(l, k); Sound(r) && TipShown(r) == TipShown(l) && Shown(r) == Shown(l)
  {
    assert TipShown(Ask(l, k)) == TipShown(l);
  }

  /** FetchSidechains, FetchSidechainEvents: a look-up through both caches. */
  function Look<K, V>(l: Layers<K, V>, k: K): Layers<K, V> {
    if k in l.view then l
    else
      var r := Ask(l, k);
      if k in r.tip && r.tip[k].flag != Erased then Write(r, k, r.tip[k].value, Default) else r
  }

  /** Look-ups change nothing that is shown, at either level; afterwards the view's own entry decides. */
  lemma LookIsSilent<K(!new), V>(l: Layers<K, V>, k: K)
    requires Sound(l)
    ensures var r := Look(l, k);
      && Sound(r) && TipShown(r) == TipShown(l) && Shown(r) == Shown(l)
      && (k in Shown(l) <==> k in r.view && r.view[k].flag != Erased)
      && (k in r.tip || k !in r.store || k in l.view)
  {
    if k !in l.view {
      AskIsSilent(l, k);
      var r := Ask(l, k);
      assert k in TipShown(r) <==> k in r.tip && r.tip[k].flag != Erased;
      if k in TipShown(r) {
        WriteIsSound(r, k, r.tip[k].value, Default);
        assert Shown(r)[k := r.tip[k].value] == Shown(r);
      }
    }
  }

  /** ModifySidechain, ModifySidechainEvents: a look-up that enters a missing key as fresh. */
  function Open<K, V>(l: Layers<K, V>, k: K, blank: V): Layers<K, V> {
    var r := Look(l, k);
    if k in r.view then r else Write(r, k, blank, Fresh)
  }

  lemma OpenThenWrite<K(!new), V>(l: Layers<K, V>, k: K, blank: V, v: V, flag: Flag)
    ensures Write(Open(l, k, blank), k, v, flag) == Write(Look(l, k), k, v, flag)
  {
    var view := Look(l, k).view;
    assert view[k := Entry(blank, Fresh)][k := Entry(v, flag)] == view[k := Entry(v, flag)];
  }

  /** Opening an entry and writing it changes that key of the view and nothing else. */
  lemma UpdateIsSound<K(!new), V>(l: Layers<K, V>, k: K, blank: V, v: V, flag: Flag)
    requires Sound(l) && flag != Default && (flag == Fresh ==> k !in TipShown(l))
    ensures var r := Write(Open(l, k, blank), k, v, flag);
      Sound(r) && TipShown(r) == TipShown(l) && Shown(r) == Changed(Shown(l), k, v, flag)
  {
    LookIsSilent(l, k);
    var r := Look(l, k);
    assert k in l.view ==> SitsAt(k, l.view[k], l.tip, l.store);
    WriteIsSound(r, k, v, flag);
    OpenThenWrite(l, k, blank, v, flag);
  }

  // ---------- Flushing ----------

  /** WriteMutableEntry and WriteImmutableEntry, with their asserts. */
  function WriteEntry<K(!new), V(==)>(k: K, e: Entry<V>, dest: Cache<K, V>): Outcome<Cache<K, V>> {
    match e.flag
    case Fresh => if k in dest && dest[k].flag != Erased then AssertFailed else Done(dest[k := e])
    case Dirty => Done(dest[k := e])
    case Erased => Done(if k in dest then dest[k := dest[k].(flag := Erased)] else dest)
    case Default =>
      if k !in dest || dest[k].flag == Erased || dest[k].value != e.value then AssertFailed else Done(dest)
  }

  /** The parent after all entries of the child are written to it. */
  function Merged<K(!new), V>(c: Cache<K, V>, parent: Cache<K, V>): (m: Cache<K, V>)
    ensures forall k :: k in m <==> k in parent || (k in c && (c[k].flag == Fresh || c[k].flag == Dirty))
    ensures forall k :: k in m ==> m[k] == MergedEntry(c, parent, k)
  {
    map k | k in parent.Keys + c.Keys && (k in parent || c[k].flag == Fresh || c[k].flag == Dirty) ::
      MergedEntry(c, parent, k)
  }

  function MergedEntry<K(!new), V>(c: Cache<K, V>, parent: Cache<K, V>, k: K): Entry<V>
    requires k in parent || (k in c && (c[k].flag == Fresh || c[k].flag == Dirty))
  {
    if k !in c then parent[k]
    else if c[k].flag == Fresh || c[k].flag == Dirty then c[k]
    else if c[k].flag == Erased then parent[k].(flag := Erased)
    else parent[k]
  }

  /** After a flush the parent shows exactly what the child showed. */
  lemma FlushShows<K(!new), V>(c: Cache<K, V>, parent: Cache<K, V>, store: map<K, V>)
    requires Rests(parent, store) && Sits(c, parent, store)
    ensures Rests(Merged(c, parent), store)
    ensures Show(Merged(c, parent), store) == Show(c, Show(parent, store))
  {
    var above, below := Show(c, Show(parent, store)), Show(Merged(c, parent), store);
    forall k
      ensures k in below <==> k in above
      ensures k in below ==> below[k] == above[k]
    {
      assert k in c ==> SitsAt(k, c[k], parent, store);
    }
    assert below.Keys == above.Keys;
  }

  /** Entries merge one at a time, and the asserts of WriteEntry hold on the way. */
  lemma MergeOne<K(!new), V>(c: Cache<K, V>, parent: Cache<K, V>, store: map<K, V>, k: K, e: Entry<V>)
    requires k !in c && SitsAt(k, e, parent, store)
    ensures WriteEntry(k, e, Merged(c, parent)) == Done(Merged(c[k := e], parent))
  {
    var before, after := Merged(c, parent), Merged(c[k := e], parent);
    assert k in before <==> k in parent;
    assert k in parent ==> before[k] == parent[k];
    var written := WriteEntry(k, e, before).value;
    assert written.Keys == after.Keys;
    assert written == after;
  }

  /** CCoinsViewCache::BatchWrite for one map: no assert fires, and the order of the entries does not matter. */
  method BatchWrite<K(==, !new), V(==)>(c: Cache<K, V>, parent: Cache<K, V>, ghost store: map<K, V>)
    returns (merged: Cache<K, V>)
    requires Sits(c, parent, store)
    ensures merged == Merged(c, parent)
  {
    merged := parent;
    var rest := c.Keys;
    ghost var done: Cache<K, V> := map[];
    MergeNone(parent);
    while rest != {}
      invariant rest <= c.Keys && done.Keys == c.Keys - rest
      invariant forall k :: k in done ==> done[k] == c[k]
      invariant merged == Merged(done, parent)
      decreases |rest|
    {
      var k :| k in rest;
      MergeOne(done, parent, store, k, c[k]);
      var written := WriteEntry(k, c[k], merged);
      assert written.Done?;
      merged, done, rest := written.value, done[k := c[k]], rest - {k};
    }
    assert done == c;
  }

  lemma MergeNone<K(!new), V>(parent: Cache<K, V>)
    ensures Merged(map[], parent) == parent
  {
    assert Merged(map[], parent).Keys == parent.Keys;
  }

  /** CCoinsViewDB::BatchWrite for one map: fresh and dirty entries are written, erased ones deleted. */
  function Stored<K(!new), V>(parent: Cache<K, V>, store: map<K, V>): map<K, V> {
    map k | k in parent.Keys + store.Keys
      && (if k !in parent || parent[k].flag == Default then k in store else parent[k].flag != Erased) ::
      if k in parent && parent[k].flag != Default then parent[k].value else store[k]
  }

  /** After a flush to disk the store holds exactly what the cache showed. */
  lemma StoreShows<K(!new), V>(parent: Cache<K, V>, store: map<K, V>)
    requires Rests(parent, store)
    ensures Stored(parent, store) == Show(parent, store)
  {
    assert forall k :: k in Stored(parent, store) <==> k in Show(parent, store);
  }

  /** CCoinsViewCache::Flush into the tip cache: the tip then shows what the view showed. */
  method Flush<K(==, !new), V(==)>(l: Layers<K, V>) returns (r: Layers<K, V>)
    requires Sound(l)
    ensures Sound(r) && r.store == l.store && r.view == map[]
    ensures TipShown(r) == Shown(l) && Shown(r) == Shown(l)
  {
    FlushShows(l.view, l.tip, l.store);
    var tip := BatchWrite(l.view, l.tip, l.store);
    r := Layers(l.store, tip, map[]);
    assert Show(map[], TipShown(r)) == TipShown(r);
  }

  /** CCoinsViewCache::Flush of the tip into the store. */
  method FlushTip<K(==, !new), V(==)>(l: Layers<K, V>) returns (r: Layers<K, V>)
    requires Sound(l) && l.view == map[]
    ensures Sound(r) && r.view == map[] && r.tip == map[]
    ensures r.store == TipShown(l) && TipShown(r) == TipShown(l) && Shown(r) == Shown(l)
  {
    StoreShows(l.tip, l.store);
    r := Layers(Stored(l.tip, l.store), map[], map[]);
    assert Show(map[], r.store) == r.store;
    assert Show(map[], TipShown(l)) == TipShown(l);
  }

  // ---------- Three levels of caches ----------

  /** All entries of a cache written to another one, in a given order. */
  ghost function WriteAll<K(!new), V>(c: Cache<K, V>, order: seq<K>, dest: Cache<K, V>): Outcome<Cache<K, V>>
    requires forall k :: k in order ==> k in c
  {
    if order == [] then Done(dest)
    else
      var n := |order| - 1;
      var r := WriteAll(c, order[..n], dest);
      if r.Done? then WriteEntry(order[n], c[order[n]], r.value) else r
  }

  /** The order lists every entry once. */
  ghost predicate Orders<K(!new), V>(order: seq<K>, c: Cache<K, V>) {
    && (forall k :: k in order <==> k in c)
    && (forall i, j :: 0 <= i < j < |order| ==> order[i] != order[j])
  }

  /** Writing an entry does not touch the others. */
  lemma WriteEntryFrame<K(!new), V>(k: K, e: Entry<V>, dest: Cache<K, V>, x: K, f: Entry<V>)
    requires x != k && WriteEntry(k, e, dest).Done?
    ensures WriteEntry(x, f, WriteEntry(k, e, dest).value).Done? <==> WriteEntry(x, f, dest).Done?
  {
  }

  lemma {:induction false} WriteAllFrame<K(!new), V>(
    c: Cache<K, V>, order: seq<K>, dest: Cache<K, V>, x: K, f: Entry<V>)
    requires (forall k :: k in order ==> k in c) && x !in order && WriteAll(c, order, dest).Done?
    ensures WriteEntry(x, f, WriteAll(c, order, dest).value).Done? <==> WriteEntry(x, f, dest).Done?
  {
    if order != [] {
      var n := |order| - 1;
      WriteAllFrame(c, order[..n], dest, x, f);
      WriteEntryFrame(order[n], c[order[n]], WriteAll(c, order[..n], dest).value, x, f);
    }
  }

  /** Writing goes through in one order exactly when each entry of it can be written. */
  lemma {:induction false} WriteAllDone<K(!new), V>(c: Cache<K, V>, order: seq<K>, dest: Cache<K, V>)
    requires (forall k :: k in order ==> k in c) && (forall i, j :: 0 <= i < j < |order| ==> order[i] != order[j])
    ensures WriteAll(c, order, dest).Done? <==> forall k :: k in order ==> WriteEntry(k, c[k], dest).Done?
  {
    if order != [] {
      var n := |order| - 1;
      WriteAllDone(c, order[..n], dest);
      assert order == order[..n] + [order[n]];
      if WriteAll(c, order[..n], dest).Done? {
        WriteAllFrame(c, order[..n], dest, order[n], c[order[n]]);
      }
    }
  }

  /** The entries of a list of keys. */
  ghost function Part<K(!new), V>(c: Cache<K, V>, order: seq<K>): Cache<K, V> {
    map k | k in c && k in order :: c[k]
  }

  /** Where the entries sit on the other cache, writing them merges the two, in any order. */
  lemma {:induction false} WriteAllMerges<K(!new), V>(
    c: Cache<K, V>, order: seq<K>, dest: Cache<K, V>, store: map<K, V>)
    requires (forall k :: k in order ==> k in c) && (forall i, j :: 0 <= i < j < |order| ==> order[i] != order[j])
    requires Sits(c, dest, store)
    ensures WriteAll(c, order, dest) == Done(Merged(Part(c, order), dest))
  {
    hide Merged, WriteEntry, SitsAt;
    if order == [] {
      assert Part(c, order) == map[];
      MergeNone(dest);
    } else {
      var n := |order| - 1;
      var k := order[n];
      WriteAllMerges(c, order[..n], dest, store);
      MergeOne(Part(c, order[..n]), dest, store, k, c[k]);
      assert order == order[..n] + [k];
      assert Part(c, order) == Part(c, order[..n])[k := c[k]];
    }
  }

  /** A key that is fresh in the top cache, erased in the middle one, and shown by the bottom one. */
  ghost predicate FreshOverErased<K(!new), V>(
    k: K, top: Cache<K, V>, middle: Cache<K, V>, bottom: Cache<K, V>, store: map<K, V>) {
    && k in top && top[k].flag == Fresh
    && k in middle && middle[k].flag == Erased
    && k in Show(bottom, store)
  }

  lemma ThirdEntry<K(!new), V>(k: K, top: Cache<K, V>, middle: Cache<K, V>, bottom: Cache<K, V>, store: map<K, V>)
    requires Sits(middle, bottom, store) && Sits(top, middle, Show(bottom, store)) && k in Merged(top, middle)
    ensures WriteEntry(k, Merged(top, middle)[k], bottom).Done? <==> !FreshOverErased(k, top, middle, bottom, store)
    ensures !FreshOverErased(k, top, middle, bottom, store) ==> SitsAt(k, Merged(top, middle)[k], bottom, store)
  {
    assert k in middle ==> SitsAt(k, middle[k], bottom, store);
    assert k in top ==> SitsAt(k, top[k], middle, Show(bottom, store));
    assert Merged(top, middle)[k] == MergedEntry(top, middle, k);
  }

  lemma RestsOnShown<K(!new), V>(middle: Cache<K, V>, bottom: Cache<K, V>, store: map<K, V>)
    requires Sits(middle, bottom, store)
    ensures Rests(middle, Show(bottom, store))
  {
    forall k | k in middle && middle[k].flag == Default
      ensures k in Show(bottom, store) && Show(bottom, store)[k] == middle[k].value
    {
      assert SitsAt(k, middle[k], bottom, store);
    }
  }

  /**
   * Three caches over the store: once the top one is flushed into the middle one, flushing that
   * into the bottom one goes through, in any order, if and only if no key was fresh in the top
   * cache, erased in the middle one and shown by the bottom one. If it goes through, the bottom
   * cache shows what the top one showed.
   */
  lemma ThirdFlushExact<K(!new), V>(
    top: Cache<K, V>, middle: Cache<K, V>, bottom: Cache<K, V>, store: map<K, V>, order: seq<K>)
    requires Rests(bottom, store) && Sits(middle, bottom, store) && Sits(top, middle, Show(bottom, store))
    requires Orders(order, Merged(top, middle))
    ensures var r := WriteAll(Merged(top, middle), order, bottom);
      && (r.Done? <==> forall k :: !FreshOverErased(k, top, middle, bottom, store))
      && (r.Done? ==> Show(r.value, store) == Show(top, Show(middle, Show(bottom, store))))
  {
    hide Show, MergedEntry, FreshOverErased;
    var c := Merged(top, middle);
    WriteAllDone(c, order, bottom);
    forall k | k in c
      ensures WriteEntry(k, c[k], bottom).Done? <==> !FreshOverErased(k, top, middle, bottom, store)
      ensures !FreshOverErased(k, top, middle, bottom, store) ==> SitsAt(k, c[k], bottom, store)
    {
      ThirdEntry(k, top, middle, bottom, store);
    }
    forall k | k !in c
      ensures !FreshOverErased(k, top, middle, bottom, store)
    {
      OnlyMerged(k, top, middle, bottom, store);
    }
    if forall k :: !FreshOverErased(k, top, middle, bottom, store) {
      WriteAllMerges(c, order, bottom, store);
      assert Part(c, order) == c;
      FlushShows(c, bottom, store);
      RestsOnShown(middle, bottom, store);
      FlushShows(top, middle, Show(bottom, store));
    }
  }

  lemma OnlyMerged<K(!new), V>(k: K, top: Cache<K, V>, middle: Cache<K, V>, bottom: Cache<K, V>, store: map<K, V>)
    requires k !in Merged(top, middle)
    ensures !FreshOverErased(k, top, middle, bottom, store)
  {
  }

  /** Such a key can be: a key erased in the middle cache, and created again in the top one. */
  lemma FreshOverErasedFails<K(!new), V>(k: K, v: V, w: V)
    ensures
      var bottom: Cache<K, V> := map[k := Entry(v, Default)];
      var middle: Cache<K, V> := map[k := Entry(v, Erased)];
      var top: Cache<K, V> := map[k := Entry(w, Fresh)];
      var store := map[k := v];
      && Rests(bottom, store) && Sits(middle, bottom, store) && Sits(top, middle, Show(bottom, store))
      && FreshOverErased(k, top, middle, bottom, store)
      && WriteAll(Merged(top, middle), [k], bottom) == AssertFailed
  {
    var bottom: Cache<K, V> := map[k := Entry(v, Default)];
    var middle: Cache<K, V> := map[k := Entry(v, Erased)];
    var top: Cache<K, V> := map[k := Entry(w, Fresh)];
    assert k in bottom && k in middle && k in top;
    var c := Merged(top, middle);
    assert c[k] == Entry(w, Fresh);
    assert [k][..0] == [] && WriteAll(c, [], bottom) == Done(bottom);
    assert WriteEntry(k, c[k], bottom) == AssertFailed;
  }
}
