/** Writing the address manager to disk and reading it back (CAddrMan::Serialize, CAddrMan::Unserialize). */
module AddrSaved {
  import opened Outcomes
  import opened AddrTables
  import opened AddrOps

  /** What is written of an entry: neither its last try nor where it is. */
  datatype Entry = Entry(service: Service, services: bv64, time: int, source: NetAddr, lastSuccess: int, attempts: int)

  /** The file: counts, entries, and for every new bucket the indices of its entries. */
  datatype Saved = Saved(newCount: int, triedCount: int, newEntries: seq<Entry>, triedEntries: seq<Entry>,
    buckets: seq<seq<int>>)

  function EntryOf(i: Info): Entry {
    Entry(i.service, i.services, i.time, i.source, i.lastSuccess, i.attempts)
  }

  function InfoOf(e: Entry, inTried: bool): Info {
    Info(e.service, e.services, e.time, e.source, 0, e.lastSuccess, e.attempts, inTried)
  }

  // ---------- Enumerations of ids ----------

  ghost predicate Enumerates(ids: seq<int>, all: set<int>) {
    && (forall i :: 0 <= i < |ids| ==> ids[i] in all)
    && (forall id :: id in all ==> id in ids)
    && (forall i, j :: 0 <= i < j < |ids| ==> ids[i] != ids[j])
  }

  function IndexOf(ids: seq<int>, id: int): (r: int)
    ensures id in ids ==> 0 <= r < |ids| && ids[r] == id
    ensures id !in ids ==> r == |ids|
  {
    if ids == [] || ids[0] == id then 0 else 1 + IndexOf(ids[1..], id)
  }

  lemma {:induction false} EnumerationLength(ids: seq<int>, all: set<int>)
    requires Enumerates(ids, all)
    ensures |ids| == |all|
  {
    if ids == [] {
      assert forall id :: id !in all;
      assert all == {};
    } else {
      var init, last := ids[..|ids| - 1], ids[|ids| - 1];
      assert forall id :: id in all - {last} ==> id in init;
      EnumerationLength(init, all - {last});
    }
  }

  // ---------- The file of a state ----------

  /** The occupied slots of a bucket below position `i`, in order. */
  function SlotsUpTo(tab: Table, b: int, i: nat): seq<Slot> {
    if i == 0 then [] else SlotsUpTo(tab, b, i - 1) + (if (b, i - 1) in tab then [(b, i - 1)] else [])
  }

  lemma {:induction false} SlotsExactly(tab: Table, b: int, i: nat)
    ensures forall k :: 0 <= k < |SlotsUpTo(tab, b, i)| ==>
      var slot := SlotsUpTo(tab, b, i)[k]; slot in tab && slot.0 == b && 0 <= slot.1 < i
    ensures forall slot :: slot in tab && slot.0 == b && 0 <= slot.1 < i ==> slot in SlotsUpTo(tab, b, i)
    ensures forall k, m :: 0 <= k < m < |SlotsUpTo(tab, b, i)| ==> SlotsUpTo(tab, b, i)[k] != SlotsUpTo(tab, b, i)[m]
  {
    if i > 0 {
      SlotsExactly(tab, b, i - 1);
      forall slot | slot in tab && slot.0 == b && 0 <= slot.1 < i
        ensures slot in SlotsUpTo(tab, b, i)
      {
        assert slot == (b, slot.1);
      }
    }
  }

  /** The index list of a bucket. */
  ghost function BucketList(p: Placing, tab: Table, news: seq<int>, b: int): (r: seq<int>)
    ensures |r| == |SlotsUpTo(tab, b, p.bucketSize)|
    ensures forall k :: 0 <= k < |r| && SlotsUpTo(tab, b, p.bucketSize)[k] in tab ==>
      r[k] == IndexOf(news, tab[SlotsUpTo(tab, b, p.bucketSize)[k]])
  {
    var slots := SlotsUpTo(tab, b, p.bucketSize);
    seq(|slots|, k requires 0 <= k < |slots| => if slots[k] in tab then IndexOf(news, tab[slots[k]]) else 0)
  }

  ghost predicate IsFile(p: Placing, s: State, news: seq<int>, trieds: seq<int>, f: Saved) {
    && f.newCount == s.newCount && f.triedCount == s.triedCount
    && |f.newEntries| == |news|
    && (forall n :: 0 <= n < |news| && news[n] in s.info ==> f.newEntries[n] == EntryOf(s.info[news[n]]))
    && |f.triedEntries| == |trieds|
    && (forall n :: 0 <= n < |trieds| && trieds[n] in s.info ==> f.triedEntries[n] == EntryOf(s.info[trieds[n]]))
    && |f.buckets| == p.newBuckets
    && (forall b :: 0 <= b < |f.buckets| ==> f.buckets[b] == BucketList(p, s.newTab, news, b))
  }

  // ---------- Writing ----------

  /** The ids of one table. */
  ghost function IdsOf(info: map<int, Info>, tried: bool): set<int> {
    if tried then TriedIds(info) else NewIds(info)
  }

  ghost function Firsts(order: seq<int>, k: nat): set<int>
    requires k <= |order|
  {
    set i | 0 <= i < k :: order[i]
  }

  lemma FirstsStep(order: seq<int>, k: nat, all: set<int>)
    requires k < |order| && Enumerates(order, all)
    ensures Firsts(order, k + 1) == Firsts(order, k) + {order[k]} && order[k] !in Firsts(order, k)
  {
  }

  lemma FirstsAll(order: seq<int>, all: set<int>)
    requires Enumerates(order, all)
    ensures Firsts(order, |order|) == all
  {
    forall id | id in all
      ensures id in Firsts(order, |order|)
    {
      assert id in order;
    }
  }

  lemma EnumerateOne(ids: seq<int>, all: set<int>, id: int)
    requires Enumerates(ids, all) && id !in all
    ensures Enumerates(ids + [id], all + {id})
  {
  }

  /** An entry has a reference exactly when it is not tried. */
  lemma ReferencedIffNew(p: Placing, s: State, id: int)
    requires Inv(p, s) && id in s.info
    ensures s.refs[id] != 0 <==> !s.info[id].inTried
  {
    if s.info[id].inTried {
      TriedUnreferenced(p, s, id, {});
    }
  }

  /** One of the two loops over all entries, with its assert that the count was right. */
  method WriteEntries(p: Placing, s: State, order: seq<int>, tried: bool) returns (ids: seq<int>, entries: seq<Entry>)
    requires Inv(p, s) && Enumerates(order, s.info.Keys)
    ensures Enumerates(ids, IdsOf(s.info, tried))
    ensures |entries| == |ids|
    ensures forall n :: 0 <= n < |ids| && ids[n] in s.info ==> entries[n] == EntryOf(s.info[ids[n]])
  {
    hide Inv, InvBut, TriedIds, NewIds, Enumerates, Firsts, EntryOf;
    ids, entries := [], [];
    Starts(order, IdsOf(s.info, tried));
    for k := 0 to |order|
      invariant Enumerates(ids, IdsOf(s.info, tried) * Firsts(order, k))
      invariant |entries| == |ids|
      invariant forall n :: 0 <= n < |ids| && ids[n] in s.info ==> entries[n] == EntryOf(s.info[ids[n]])
    {
      var id := order[k];
      OrderIn(p, s, order, k, tried);
      FirstsStep(order, k, s.info.Keys);
      ghost var before := IdsOf(s.info, tried) * Firsts(order, k);
      if (if tried then s.info[id].inTried else s.refs[id] != 0) {
        EnumerateOne(ids, before, id);
        CountFits(p, s, ids + [id], before + {id}, tried);
        assert |ids| != if tried then s.triedCount else s.newCount;
        ids, entries := ids + [id], entries + [EntryOf(s.info[id])];
        assert IdsOf(s.info, tried) * Firsts(order, k + 1) == before + {id};
      } else {
        assert IdsOf(s.info, tried) * Firsts(order, k + 1) == before;
      }
    }
    FirstsAll(order, s.info.Keys);
    AllInKeys(s.info, tried);
  }

  lemma Starts(order: seq<int>, ids: set<int>)
    ensures Enumerates([], ids * Firsts(order, 0))
  {
  }

  lemma OrderIn(p: Placing, s: State, order: seq<int>, k: nat, tried: bool)
    requires Inv(p, s) && Enumerates(order, s.info.Keys) && k < |order|
    ensures order[k] in s.info && order[k] in s.refs
    ensures order[k] in IdsOf(s.info, tried) <==> if tried then s.info[order[k]].inTried else s.refs[order[k]] != 0
  {
    ReferencedIffNew(p, s, order[k]);
  }

  lemma AllInKeys(info: map<int, Info>, tried: bool)
    ensures IdsOf(info, tried) * info.Keys == IdsOf(info, tried)
  {
  }

  /** No more entries are written than counted. */
  lemma CountFits(p: Placing, s: State, ids: seq<int>, some: set<int>, tried: bool)
    requires Inv(p, s) && Enumerates(ids, some) && some <= IdsOf(s.info, tried)
    ensures |ids| <= if tried then s.triedCount else s.newCount
  {
    EnumerationLength(ids, some);
    SubsetSize(some, IdsOf(s.info, tried));
  }

  lemma SubsetSize(a: set<int>, b: set<int>)
    requires a <= b
    ensures |a| <= |b|
  {
    assert b == a + (b - a);
  }

  /** The loop over one new bucket. */
  method WriteBucket(p: Placing, s: State, news: seq<int>, b: int) returns (list: seq<int>)
    ensures list == BucketList(p, s.newTab, news, b)
  {
    list := [];
    for i := 0 to p.bucketSize
      invariant |list| == |SlotsUpTo(s.newTab, b, i)|
      invariant forall k :: 0 <= k < |list| ==>
        SlotsUpTo(s.newTab, b, i)[k] in s.newTab && list[k] == IndexOf(news, s.newTab[SlotsUpTo(s.newTab, b, i)[k]])
    {
      if (b, i) in s.newTab {
        list := list + [IndexOf(news, s.newTab[(b, i)])];
      }
    }
  }

  /** CAddrMan::Serialize; `order` lists the ids as the map iterates over them. */
  method Serialize(p: Placing, s: State, order: seq<int>) returns (f: Saved, news: seq<int>, trieds: seq<int>)
    requires Inv(p, s) && Enumerates(order, s.info.Keys)
    ensures Enumerates(news, NewIds(s.info)) && Enumerates(trieds, TriedIds(s.info)) && IsFile(p, s, news, trieds, f)
  {
    hide Inv, InvBut, NewIds, TriedIds, Enumerates, EntryOf;
    var newEntries, triedEntries;
    news, newEntries := WriteEntries(p, s, order, false);
    trieds, triedEntries := WriteEntries(p, s, order, true);
    var buckets := [];
    for b := 0 to p.newBuckets
      invariant |buckets| == b && forall c :: 0 <= c < b ==> buckets[c] == BucketList(p, s.newTab, news, c)
    {
      var list := WriteBucket(p, s, news, b);
      buckets := buckets + [list];
    }
    f := Saved(s.newCount, s.triedCount, newEntries, triedEntries, buckets);
  }

  // ---------- Reading ----------

  /** An entry that is not yet in a table. */
  function Appended(s: State, id: int, i: Info): State {
    s.(info := s.info[id := i], refs := s.refs[id := 0], pos := s.pos[id := |s.random|],
       addrs := s.addrs[i.service.addr := id], random := s.random + [id])
  }

  ghost predicate Loadable(s: State, m: int) {
    m >= 0 && Shuffled(s.pos, s.random) && s.info.Keys == s.refs.Keys == s.pos.Keys
      && (forall id :: id in s.info <==> 0 <= id < m)
  }

  lemma AppendedLoadable(s: State, m: int, i: Info)
    requires Loadable(s, m)
    ensures Loadable(Appended(s, m, i), m + 1)
  {
    var t := Appended(s, m, i);
    assert forall id :: id in t.info <==> id in s.info || id == m;
    assert Shuffled(t.pos, t.random);
  }

  /** The first `n` new entries. */
  function LoadNew(entries: seq<Entry>, n: nat): (r: State)
    requires n <= |entries|
    ensures Loadable(r, n) && r.newTab == map[] && r.triedTab == map[]
  {
    if n == 0 then EMPTY
    else
      var s, i := LoadNew(entries, n - 1), InfoOf(entries[n - 1], false);
      AppendedLoadable(s, n - 1, i);
      Appended(s, n - 1, i)
  }

  /** The first `n` tried entries; one whose slot is taken is lost. */
  function LoadTried(p: Placing, s: State, entries: seq<Entry>, n: nat): (r: State)
    requires n <= |entries| && Loadable(s, s.idCount)
    ensures Loadable(r, r.idCount) && r.newTab == s.newTab && r.newCount == s.newCount
  {
    if n == 0 then s
    else
      var t := LoadTried(p, s, entries, n - 1);
      var slot := TriedSlot(p, entries[n - 1].service);
      if slot in t.triedTab then t.(triedCount := t.triedCount - 1)
      else
        AppendedLoadable(t, t.idCount, InfoOf(entries[n - 1], true));
        Appended(t, t.idCount, InfoOf(entries[n - 1], true)).(triedTab := t.triedTab[slot := t.idCount],
          idCount := t.idCount + 1)
  }

  /** One index of a bucket list. */
  function LoadIndex(p: Placing, s: State, b: int, index: int): (r: State)
    requires s.info.Keys == s.refs.Keys
    ensures r == s.(newTab := r.newTab, refs := r.refs) && r.refs.Keys == s.refs.Keys
  {
    if !(0 <= index < s.newCount) || index !in s.info then s
    else
      var slot := NewSlot(p, s.info[index].service, b);
      if slot in s.newTab || s.refs[index] >= MAX_REFS then s else Ref(s, index, slot)
  }

  function LoadList(p: Placing, s: State, b: int, list: seq<int>, n: nat): (r: State)
    requires s.info.Keys == s.refs.Keys && n <= |list|
    ensures r == s.(newTab := r.newTab, refs := r.refs) && r.refs.Keys == s.refs.Keys
  {
    if n == 0 then s else LoadIndex(p, LoadList(p, s, b, list, n - 1), b, list[n - 1])
  }

  function LoadLists(p: Placing, s: State, buckets: seq<seq<int>>, b: nat): (r: State)
    requires s.info.Keys == s.refs.Keys && b <= |buckets|
    ensures r == s.(newTab := r.newTab, refs := r.refs) && r.refs.Keys == s.refs.Keys
  {
    if b == 0 then s else LoadList(p, LoadLists(p, s, buckets, b - 1), b - 1, buckets[b - 1], |buckets[b - 1]|)
  }

  /** New entries without a reference are deleted. */
  ghost function Pruned(s: State, n: nat): (r: State)
    requires Shuffled(s.pos, s.random) && s.info.Keys == s.refs.Keys == s.pos.Keys
    ensures Shuffled(r.pos, r.random) && r.info.Keys == r.refs.Keys == r.pos.Keys
  {
    if n == 0 then s
    else
      var t := Pruned(s, n - 1);
      if n - 1 in t.info && !t.info[n - 1].inTried && t.refs[n - 1] == 0
        then DeleteLoadable(t, n - 1); Delete(t, n - 1)
        else t
  }

  lemma DeleteLoadable(s: State, id: int)
    requires Shuffled(s.pos, s.random) && s.info.Keys == s.refs.Keys == s.pos.Keys && id in s.info
    ensures var r := Delete(s, id); Shuffled(r.pos, r.random) && r.info.Keys == r.refs.Keys == r.pos.Keys
  {
    hide Shuffled;
    ShuffledRange(s, id);
    SwapToEnd(s, id);
    SwapShuffled(s, s.pos[id], |s.random| - 1);
    var t := SwapRandom(s, s.pos[id], |s.random| - 1);
    DropShuffled(t.pos, t.random, id);
  }

  lemma ShuffledRange(s: State, id: int)
    requires Shuffled(s.pos, s.random) && id in s.pos
    ensures 0 <= s.pos[id] < |s.random|
  {
  }

  lemma SwapShuffled(s: State, i: nat, j: nat)
    requires Shuffled(s.pos, s.random) && i < |s.random| && j < |s.random|
    ensures var t := SwapRandom(s, i, j); Shuffled(t.pos, t.random) && t.pos.Keys == s.pos.Keys
  {
    if i != j {
      assert s.random[i] != s.random[j];
    }
  }

  ghost predicate Readable(f: Saved) {
    |f.newEntries| == f.newCount && |f.triedEntries| == f.triedCount
  }

  /** All entries, before the bucket lists. */
  function Entered(p: Placing, f: Saved): (r: State)
    requires Readable(f)
    ensures Loadable(r, r.idCount) && r.newTab == map[] && r.newCount == f.newCount
  {
    var s := LoadNew(f.newEntries, f.newCount);
    LoadTried(p, s.(idCount := f.newCount, newCount := f.newCount, triedCount := f.triedCount), f.triedEntries,
      f.triedCount)
  }

  /** CAddrMan::Unserialize, after the checks of the two counts. */
  ghost function Loaded(p: Placing, f: Saved): State
    requires Readable(f)
  {
    var t := LoadLists(p, Entered(p, f), f.buckets, |f.buckets|);
    Pruned(t, t.idCount)
  }

  /** CAddrMan::Unserialize; a file that counts too many entries is refused. */
  method Unserialize(p: Placing, f: Saved) returns (r: Outcome<State>)
    requires Readable(f)
    ensures r ==
      if f.newCount > p.newBuckets * p.bucketSize || f.triedCount > p.triedBuckets * p.bucketSize
        then Rejected
        else Done(Loaded(p, f))
  {
    if f.newCount > p.newBuckets * p.bucketSize || f.triedCount > p.triedBuckets * p.bucketSize {
      return Rejected;
    }
    hide Loadable, Shuffled, Delete, AddrTables.Ref;
    var s := EMPTY;
    for n := 0 to f.newCount
      invariant s == LoadNew(f.newEntries, n)
    {
      s := Appended(s, n, InfoOf(f.newEntries[n], false));
    }
    s := s.(idCount := f.newCount, newCount := f.newCount, triedCount := f.triedCount);
    ghost var entered := s;
    LoadableCounts(LoadNew(f.newEntries, f.newCount), f.newCount, f.newCount, f.newCount, f.triedCount);
    for n := 0 to f.triedCount
      invariant s == LoadTried(p, entered, f.triedEntries, n)
    {
      var slot := TriedSlot(p, f.triedEntries[n].service);
      if slot in s.triedTab {
        s := s.(triedCount := s.triedCount - 1);
      } else {
        s := Appended(s, s.idCount, InfoOf(f.triedEntries[n], true)).(triedTab := s.triedTab[slot := s.idCount],
          idCount := s.idCount + 1);
      }
    }
    s := ReadBuckets(p, f, s);
    s := Prune(s);
    return Done(s);
  }

  /** The loops over the bucket lists. */
  method ReadBuckets(p: Placing, f: Saved, base: State) returns (s: State)
    requires base.info.Keys == base.refs.Keys
    ensures s == LoadLists(p, base, f.buckets, |f.buckets|)
  {
    s := base;
    for b := 0 to |f.buckets|
      invariant s == LoadLists(p, base, f.buckets, b)
    {
      ghost var before := s;
      for n := 0 to |f.buckets[b]|
        invariant s == LoadList(p, before, b, f.buckets[b], n)
      {
        s := LoadIndex(p, s, b, f.buckets[b][n]);
      }
    }
  }

  /** The loop that deletes unreferenced entries. */
  method Prune(base: State) returns (s: State)
    requires Shuffled(base.pos, base.random) && base.info.Keys == base.refs.Keys == base.pos.Keys && base.idCount >= 0
    ensures s == Pruned(base, base.idCount)
  {
    hide Shuffled, Delete;
    s := base;
    for n := 0 to base.idCount
      invariant s == Pruned(base, n)
    {
      if n in s.info && !s.info[n].inTried && s.refs[n] == 0 {
        s := Delete(s, n);
      }
    }
  }

  // ---------- Round trip ----------

  /** The ids in the order in which the file lists them; an id is renamed to its index. */
  ghost predicate Lists(s: State, news: seq<int>, all: seq<int>) {
    && news <= all && Enumerates(all, s.info.Keys)
    && (forall k :: 0 <= k < |all| && all[k] in s.info ==> (s.info[all[k]].inTried <==> k >= |news|))
  }

  /** The first `m` entries are those of the ids listed first, in order, and in no new bucket. */
  ghost predicate EntriesLoaded(s: State, all: seq<int>, m: nat, t: State) {
    && Loadable(t, m) && m <= |all| && |t.random| == m
    && forall k :: 0 <= k < m && all[k] in s.info ==>
      t.info[k] == s.info[all[k]].(lastTry := 0) && t.refs[k] == 0 && t.random[k] == k
  }

  /** A map of ids, renamed and restricted to the ids listed first. */
  ghost predicate IdsRenamed<K(!new)>(from: map<K, int>, all: seq<int>, m: int, to: map<K, int>) {
    && (forall x :: x in to <==> x in from && IndexOf(all, from[x]) < m)
    && (forall x :: x in to && x in from ==> to[x] == IndexOf(all, from[x]))
  }

  /** An entry is as it was, but for its last try. */
  ghost predicate EntrySame(s: State, all: seq<int>, t: State, k: int) {
    && 0 <= k < |all| && k in t.info && k in t.refs && all[k] in s.info && all[k] in s.refs
    && t.info[k] == s.info[all[k]].(lastTry := 0) && t.refs[k] == s.refs[all[k]]
  }

  /** The same manager up to renaming of ids: only the last tries and the order of the random vector are lost. */
  ghost predicate SameUpToIds(s: State, all: seq<int>, t: State) {
    && t.idCount == |all| && t.newCount == s.newCount && t.triedCount == s.triedCount
    && (forall k :: k in t.info <==> 0 <= k < |all|) && t.info.Keys == t.refs.Keys == t.pos.Keys
    && Shuffled(t.pos, t.random)
    && (forall k :: 0 <= k < |all| ==> EntrySame(s, all, t, k))
    && IdsRenamed(s.addrs, all, |all|, t.addrs) && IdsRenamed(s.newTab, all, |all|, t.newTab)
    && IdsRenamed(s.triedTab, all, |all|, t.triedTab)
  }

  /** In an enumeration the index of an id is its only position. */
  lemma {:induction false} IndexAt(ids: seq<int>, k: nat)
    requires k < |ids| && forall i, j :: 0 <= i < j < |ids| ==> ids[i] != ids[j]
    ensures IndexOf(ids, ids[k]) == k
  {
    if k > 0 {
      assert ids[0] != ids[k];
      assert ids[1..][k - 1] == ids[k];
      IndexAt(ids[1..], k - 1);
    }
  }

  /** One more id: exactly the keys that belong to it are added. */
  lemma RenameOneMore<K(!new)>(from: map<K, int>, all: seq<int>, m: nat, to: map<K, int>, x: K)
    requires IdsRenamed(from, all, m, to) && m < |all| && (forall i, j :: 0 <= i < j < |all| ==> all[i] != all[j])
    requires x in from && from[x] == all[m] && forall y :: y in from && from[y] == all[m] ==> y == x
    ensures IdsRenamed(from, all, m + 1, to[x := m]) && x !in to
  {
    IndexAt(all, m);
    forall y
      ensures y in to[x := m] <==> y in from && IndexOf(all, from[y]) < m + 1
    {
      if y in from && IndexOf(all, from[y]) == m {
        assert from[y] == all[m];
      }
    }
  }

  /** An id that no key belongs to. */
  lemma RenameNoMore<K(!new)>(from: map<K, int>, all: seq<int>, m: nat, to: map<K, int>)
    requires IdsRenamed(from, all, m, to) && m < |all| && forall y :: y in from ==> from[y] != all[m]
    ensures IdsRenamed(from, all, m + 1, to)
  {
    forall y | y in from
      ensures IndexOf(all, from[y]) != m
    {
      var k := IndexOf(all, from[y]);
      assert k < |all| ==> all[k] == from[y];
    }
  }

  lemma AddrOf(p: Placing, s: State, id: int)
    requires Inv(p, s) && id in s.info
    ensures var a := s.info[id].service.addr; a in s.addrs && s.addrs[a] == id && forall y ::
      y in s.addrs && s.addrs[y] == id ==> y == a
  {
  }

  lemma TriedSlotOf(p: Placing, s: State, id: int)
    requires Inv(p, s) && id in s.info
    ensures s.info[id].inTried ==>
      var slot := TriedSlot(p, s.info[id].service);
      slot in s.triedTab && s.triedTab[slot] == id && forall y :: y in s.triedTab && s.triedTab[y] == id ==> y == slot
    ensures !s.info[id].inTried ==> forall y :: y in s.triedTab ==> s.triedTab[y] != id
  {
  }

  lemma EntryAppended(s: State, all: seq<int>, m: nat, t: State, i: Info)
    requires EntriesLoaded(s, all, m, t) && m < |all| && (all[m] in s.info ==> i == s.info[all[m]].(lastTry := 0))
    ensures EntriesLoaded(s, all, m + 1, Appended(t, m, i))
  {
    AppendedLoadable(t, m, i);
    hide Loadable;
  }

  /** After the first `m` entries of the file. */
  ghost predicate Stage(s: State, all: seq<int>, m: nat, t: State) {
    EntriesLoaded(s, all, m, t) && IdsRenamed(s.addrs, all, m, t.addrs) && IdsRenamed(s.triedTab, all, m, t.triedTab)
      && t.newTab == map[]
  }

  lemma StageEmpty(s: State, all: seq<int>)
    ensures Stage(s, all, 0, EMPTY)
  {
  }

  lemma StageNew(p: Placing, s: State, news: seq<int>, all: seq<int>, m: nat, t: State, e: Entry)
    requires Inv(p, s) && Lists(s, news, all) && m < |news| && Stage(s, all, m, t) && e == EntryOf(s.info[all[m]])
    ensures Stage(s, all, m + 1, Appended(t, m, InfoOf(e, false)))
  {
    hide InvBut, EntriesLoaded, IdsRenamed;
    var id := all[m];
    assert id in s.info && !s.info[id].inTried;
    EntryAppended(s, all, m, t, InfoOf(e, false));
    AddrOf(p, s, id);
    RenameOneMore(s.addrs, all, m, t.addrs, e.service.addr);
    TriedSlotOf(p, s, id);
    RenameNoMore(s.triedTab, all, m, t.triedTab);
  }

  lemma StageTried(p: Placing, s: State, news: seq<int>, all: seq<int>, m: nat, t: State, e: Entry)
    requires Inv(p, s) && Lists(s, news, all) && |news| <= m < |all| && Stage(s, all, m, t)
    requires e == EntryOf(s.info[all[m]])
    ensures TriedSlot(p, e.service) !in t.triedTab
    ensures Stage(s, all, m + 1, Appended(t, m, InfoOf(e, true)).(triedTab := t.triedTab[TriedSlot(p, e.service) := m]))
  {
    hide InvBut, IdsRenamed;
    var id := all[m];
    assert id in s.info && s.info[id].inTried;
    EntryAppended(s, all, m, t, InfoOf(e, true));
    AddrOf(p, s, id);
    RenameOneMore(s.addrs, all, m, t.addrs, e.service.addr);
    TriedSlotOf(p, s, id);
    RenameOneMore(s.triedTab, all, m, t.triedTab, TriedSlot(p, e.service));
    var a := Appended(t, m, InfoOf(e, true));
    assert EntriesLoaded(s, all, m + 1, a.(triedTab := t.triedTab[TriedSlot(p, e.service) := m]));
  }

  // ---------- The new table ----------

  /** All entries are loaded, and of the new table the slots `done`, with the references they give. */
  ghost predicate Filled(p: Placing, s: State, all: seq<int>, base: State, done: set<Slot>, t: State) {
    && t == base.(newTab := t.newTab, refs := t.refs) && t.refs.Keys == base.refs.Keys
    && done <= s.newTab.Keys && t.newTab.Keys == done
    && (forall slot :: slot in done ==> t.newTab[slot] == IndexOf(all, s.newTab[slot]))
    && NewPlaced(p, t.info, t.newTab) && RefsCount(t.refs, t.newTab)
  }

  /** The state to which the bucket lists are added. */
  ghost predicate Ready(p: Placing, s: State, news: seq<int>, all: seq<int>, base: State) {
    && Inv(p, s) && Lists(s, news, all) && Stage(s, all, |all|, base) && base.newCount == |news|
  }

  /** The new id behind a slot. */
  lemma NewIdAt(p: Placing, s: State, news: seq<int>, all: seq<int>, base: State, slot: Slot)
    requires Ready(p, s, news, all, base) && slot in s.newTab
    ensures var id, k := s.newTab[slot], IndexOf(all, s.newTab[slot]);
      && id in s.info && id in s.refs && !s.info[id].inTried && 0 <= k < |news| <= |all| && all[k] == id
      && k in base.info && k in base.refs
      && base.info[k] == s.info[id].(lastTry := 0) && slot == NewSlot(p, s.info[id].service, slot.0)
      && 0 <= slot.0 < p.newBuckets
  {
    assert s.newTab[slot] in all;
  }

  /** The buckets filled so far are buckets of the id in the original table. */
  lemma BucketsSoFar(
    p: Placing, s: State, news: seq<int>, all: seq<int>, base: State, done: set<Slot>, t: State, slot: Slot)
    requires Ready(p, s, news, all, base) && Filled(p, s, all, base, done, t) && slot in s.newTab && slot !in done
    ensures var id := s.newTab[slot]; BucketsOf(t.newTab, IndexOf(all, id)) <= BucketsOf(s.newTab, id) - {slot.0}
  {
    NewIdAt(p, s, news, all, base, slot);
    var id := s.newTab[slot];
    forall b | b in BucketsOf(t.newTab, IndexOf(all, id))
      ensures b in BucketsOf(s.newTab, id) && b != slot.0
    {
      var other :| other in t.newTab && t.newTab[other] == IndexOf(all, id) && other.0 == b;
      NewIdAt(p, s, news, all, base, other);
      assert s.newTab[other] == id;
    }
  }

  lemma RoomLeft(
    p: Placing, s: State, news: seq<int>, all: seq<int>, base: State, done: set<Slot>, t: State, slot: Slot)
    requires Ready(p, s, news, all, base) && Filled(p, s, all, base, done, t) && slot in s.newTab && slot !in done
    ensures var k := IndexOf(all, s.newTab[slot]); k in t.refs && t.refs[k] < MAX_REFS
  {
    hide IdsRenamed, Shuffled, Lists;
    var id := s.newTab[slot];
    NewIdAt(p, s, news, all, base, slot);
    BucketsSoFar(p, s, news, all, base, done, t, slot);
    SubsetSize(BucketsOf(t.newTab, IndexOf(all, id)), BucketsOf(s.newTab, id) - {slot.0});
    assert slot.0 in BucketsOf(s.newTab, id);
    assert s.refs[id] == |BucketsOf(s.newTab, id)| <= MAX_REFS;
  }

  /** Reading the index of a slot fills that slot. */
  lemma IndexFills(
    p: Placing, s: State, news: seq<int>, all: seq<int>, base: State, done: set<Slot>, t: State, slot: Slot)
    requires Ready(p, s, news, all, base) && Filled(p, s, all, base, done, t) && slot in s.newTab && slot !in done
    ensures t.info.Keys == t.refs.Keys
    ensures Filled(p, s, all, base, done + {slot}, LoadIndex(p, t, slot.0, IndexOf(all, s.newTab[slot])))
  {
    hide Ready, RefsCount;
    ReadyKeys(p, s, news, all, base);
    NewIdAt(p, s, news, all, base, slot);
    RoomLeft(p, s, news, all, base, done, t, slot);
    var k := IndexOf(all, s.newTab[slot]);
    RefCounts(p, t, k, slot);
    var r := Ref(t, k, slot);
    assert LoadIndex(p, t, slot.0, k) == r;
    assert r.newTab.Keys == done + {slot};
    assert NewPlaced(p, r.info, r.newTab);
  }

  lemma ReadyKeys(p: Placing, s: State, news: seq<int>, all: seq<int>, base: State)
    requires Ready(p, s, news, all, base)
    ensures base.info.Keys == base.refs.Keys && base.newCount == |news|
  {
  }

  /** The occupied slots of the buckets before `b`. */
  ghost function Before(tab: Table, b: int): set<Slot> {
    set slot | slot in tab && slot.0 < b
  }

  ghost function FirstSlots(slots: seq<Slot>, n: nat): set<Slot>
    requires n <= |slots|
  {
    set i | 0 <= i < n :: slots[i]
  }

  lemma {:induction false} ListFills(
    p: Placing, s: State, news: seq<int>, all: seq<int>, base: State, t: State, b: int, n: nat)
    requires Ready(p, s, news, all, base) && Filled(p, s, all, base, Before(s.newTab, b), t)
    requires t.info.Keys == t.refs.Keys
    requires n <= |BucketList(p, s.newTab, news, b)|
    requires forall id :: id in NewIds(s.info) ==> IndexOf(news, id) == IndexOf(all, id)
    ensures Filled(p, s, all, base, Before(s.newTab, b) + FirstSlots(SlotsUpTo(s.newTab, b, p.bucketSize), n),
                   LoadList(p, t, b, BucketList(p, s.newTab, news, b), n))
  {
    hide Filled, Ready, BucketsOf, LoadIndex, NewIds;
    var slots := SlotsUpTo(s.newTab, b, p.bucketSize);
    if n == 0 {
      assert Before(s.newTab, b) + FirstSlots(slots, 0) == Before(s.newTab, b);
    } else {
      ListFills(p, s, news, all, base, t, b, n - 1);
      var slot, done := slots[n - 1], Before(s.newTab, b) + FirstSlots(slots, n - 1);
      NextSlot(s.newTab, b, p.bucketSize, n - 1);
      NewIdAt(p, s, news, all, base, slot);
      var u := LoadList(p, t, b, BucketList(p, s.newTab, news, b), n - 1);
      IndexFills(p, s, news, all, base, done, u, slot);
      InNewIds(s.info, s.newTab[slot]);
      assert done + {slot} == Before(s.newTab, b) + FirstSlots(slots, n);
    }
  }

  lemma InNewIds(info: map<int, Info>, id: int)
    requires id in info && !info[id].inTried
    ensures id in NewIds(info)
  {
  }

  /** The next slot of a bucket list is occupied and has not been listed. */
  lemma NextSlot(tab: Table, b: int, size: nat, n: nat)
    requires n < |SlotsUpTo(tab, b, size)|
    ensures var slots := SlotsUpTo(tab, b, size);
      slots[n] in tab && slots[n].0 == b && slots[n] !in Before(tab, b) + FirstSlots(slots, n)
  {
    SlotsExactly(tab, b, size);
  }

  lemma BucketDone(p: Placing, s: State, b: nat)
    requires Bounded(p) && Inv(p, s)
    ensures var slots := SlotsUpTo(s.newTab, b, p.bucketSize);
      Before(s.newTab, b) + FirstSlots(slots, |slots|) == Before(s.newTab, b + 1)
  {
    var slots := SlotsUpTo(s.newTab, b, p.bucketSize);
    SlotsExactly(s.newTab, b, p.bucketSize);
    forall slot | slot in s.newTab && slot.0 == b
      ensures slot in FirstSlots(slots, |slots|)
    {
      assert slot == NewSlot(p, s.info[s.newTab[slot]].service, b);
      assert slot in slots;
    }
  }

  lemma {:induction false} ListsFill(
    p: Placing, s: State, news: seq<int>, all: seq<int>, base: State, buckets: seq<seq<int>>, b: nat)
    requires Bounded(p) && Ready(p, s, news, all, base) && Filled(p, s, all, base, {}, base)
    requires base.info.Keys == base.refs.Keys
    requires b <= |buckets| && forall c :: 0 <= c < |buckets| ==> buckets[c] == BucketList(p, s.newTab, news, c)
    requires forall id :: id in NewIds(s.info) ==> IndexOf(news, id) == IndexOf(all, id)
    ensures Filled(p, s, all, base, Before(s.newTab, b), LoadLists(p, base, buckets, b))
  {
    hide Filled, Bounded, Ready, NewIds, BucketList, SlotsUpTo, FirstSlots, Before;
    if b == 0 {
      NothingBefore(p, s, news, all, base);
    } else {
      ListsFill(p, s, news, all, base, buckets, b - 1);
      var t := LoadLists(p, base, buckets, b - 1);
      var list := BucketList(p, s.newTab, news, b - 1);
      assert buckets[b - 1] == list;
      ListFills(p, s, news, all, base, t, b - 1, |list|);
      ReadyDone(p, s, news, all, base, b - 1);
    }
  }

  lemma ReadyDone(p: Placing, s: State, news: seq<int>, all: seq<int>, base: State, b: nat)
    requires Bounded(p) && Ready(p, s, news, all, base)
    ensures var slots := SlotsUpTo(s.newTab, b, p.bucketSize);
      Before(s.newTab, b) + FirstSlots(slots, |slots|) == Before(s.newTab, b + 1)
  {
    BucketDone(p, s, b);
  }

  lemma NothingBefore(p: Placing, s: State, news: seq<int>, all: seq<int>, base: State)
    requires Ready(p, s, news, all, base)
    ensures Before(s.newTab, 0) == {}
  {
  }

  lemma ReadyId(p: Placing, s: State, news: seq<int>, all: seq<int>, base: State, k: nat)
    requires Ready(p, s, news, all, base) && k < |all|
    ensures all[k] in s.info && all[k] in s.refs && s.refs[all[k]] == |BucketsOf(s.newTab, all[k])|
    ensures IndexOf(all, all[k]) == k
    ensures k in base.refs && k in base.info && base.info[k] == s.info[all[k]].(lastTry := 0)
    ensures !s.info[all[k]].inTried ==> s.refs[all[k]] > 0
  {
    IndexAt(all, k);
    assert s.refs[all[k]] == |BucketsOf(s.newTab, all[k])|;
  }

  lemma SameBuckets(p: Placing, s: State, news: seq<int>, all: seq<int>, base: State, t: State, k: nat)
    requires Ready(p, s, news, all, base) && Filled(p, s, all, base, s.newTab.Keys, t) && k < |all|
    ensures BucketsOf(t.newTab, k) == BucketsOf(s.newTab, all[k])
  {
    hide Ready, RefsCount, NewPlaced;
    var id := all[k];
    ReadyId(p, s, news, all, base, k);
    forall b
      ensures b in BucketsOf(t.newTab, k) <==> b in BucketsOf(s.newTab, id)
    {
      if b in BucketsOf(t.newTab, k) {
        var slot :| slot in t.newTab && t.newTab[slot] == k && slot.0 == b;
        NewIdAt(p, s, news, all, base, slot);
        assert s.newTab[slot] == id;
      }
      if b in BucketsOf(s.newTab, id) {
        var slot :| slot in s.newTab && s.newTab[slot] == id && slot.0 == b;
        assert t.newTab[slot] == k;
      }
    }
  }

  /** A full new table gives every id the references it had. */
  lemma RefsBack(p: Placing, s: State, news: seq<int>, all: seq<int>, base: State, t: State, k: nat)
    requires Ready(p, s, news, all, base) && Filled(p, s, all, base, s.newTab.Keys, t) && k < |all|
    ensures k in t.refs && all[k] in s.refs && t.refs[k] == s.refs[all[k]]
  {
    hide Ready, NewPlaced, BucketsOf;
    ReadyId(p, s, news, all, base, k);
    SameBuckets(p, s, news, all, base, t, k);
    assert t.refs[k] == |BucketsOf(t.newTab, k)|;
  }

  /** Nothing is pruned where every untried entry has a reference. */
  lemma {:induction false} NothingPruned(s: State, n: nat)
    requires Shuffled(s.pos, s.random) && s.info.Keys == s.refs.Keys == s.pos.Keys
    requires forall k :: k in s.info ==> s.info[k].inTried || s.refs[k] != 0
    ensures Pruned(s, n) == s
  {
    hide Shuffled, Delete;
    if n > 0 {
      NothingPruned(s, n - 1);
    }
  }

  // ---------- All of it ----------

  /** Entries of the ids listed from `from` on. */
  ghost predicate EntriesMatch(s: State, all: seq<int>, from: nat, entries: seq<Entry>) {
    from + |entries| <= |all| && forall k :: 0 <= k < |entries| ==>
      all[from + k] in s.info && entries[k] == EntryOf(s.info[all[from + k]])
  }

  lemma {:induction false} LoadNewStages(
    p: Placing, s: State, news: seq<int>, all: seq<int>, entries: seq<Entry>, n: nat)
    requires Inv(p, s) && Lists(s, news, all) && |entries| == |news| && n <= |news|
    requires EntriesMatch(s, all, 0, entries)
    ensures Stage(s, all, n, LoadNew(entries, n))
  {
    hide Inv, InvBut, Stage;
    if n == 0 {
      StageEmpty(s, all);
    } else {
      LoadNewStages(p, s, news, all, entries, n - 1);
      assert all[0 + (n - 1)] in s.info && entries[n - 1] == EntryOf(s.info[all[0 + (n - 1)]]);
      StageNew(p, s, news, all, n - 1, LoadNew(entries, n - 1), entries[n - 1]);
    }
  }

  lemma SetCounts(s: State, all: seq<int>, m: nat, t: State, idCount: int, newCount: int, triedCount: int)
    requires Stage(s, all, m, t)
    ensures Stage(s, all, m, t.(idCount := idCount, newCount := newCount, triedCount := triedCount))
  {
  }

  lemma {:induction false} LoadTriedStep(p: Placing, t: State, entries: seq<Entry>, n: nat)
    requires Loadable(t, t.idCount) && n <= |entries|
    ensures n == 0 ==> LoadTried(p, t, entries, n) == t
    ensures n > 0 ==>
      var u, e := LoadTried(p, t, entries, n - 1), entries[n - 1]; var slot := TriedSlot(p, e.service);
      var next := Appended(u, u.idCount, InfoOf(e, true)).(triedTab := u.triedTab[slot := u.idCount]);
      slot !in u.triedTab ==> LoadTried(p, t, entries, n) == next.(idCount := u.idCount + 1)
  {
    hide Loadable, InfoOf, TriedSlot;
  }

  lemma {:induction false} LoadTriedStages(
    p: Placing, s: State, news: seq<int>, all: seq<int>, t: State, entries: seq<Entry>, n: nat)
    requires Inv(p, s) && Lists(s, news, all) && Stage(s, all, |news|, t) && t.idCount == |news|
    requires Loadable(t, t.idCount)
    requires EntriesMatch(s, all, |news|, entries) && n <= |entries|
    ensures var r := LoadTried(p, t, entries, n);
      Stage(s, all, |news| + n, r) && r.idCount == |news| + n && r.newCount == t.newCount
        && r.triedCount == t.triedCount
  {
    hide Inv, InvBut, Stage, Loadable, EntriesMatch, Lists, EntryOf, InfoOf, LoadTried, TriedSlot;
    LoadTriedStep(p, t, entries, n);
    if n > 0 {
      LoadTriedStages(p, s, news, all, t, entries, n - 1);
      var u := LoadTried(p, t, entries, n - 1);
      EntryAt(s, all, |news|, entries, n - 1);
      StageTried(p, s, news, all, |news| + n - 1, u, entries[n - 1]);
      var next := Appended(u, u.idCount,
        InfoOf(entries[n - 1], true)).(triedTab := u.triedTab[TriedSlot(p, entries[n - 1].service) := u.idCount]);
      SetCounts(s, all, |news| + n, next, u.idCount + 1, u.newCount, u.triedCount);
    }
  }

  lemma EntryAt(s: State, all: seq<int>, from: nat, entries: seq<Entry>, k: nat)
    requires EntriesMatch(s, all, from, entries) && k < |entries|
    ensures from + k < |all| && all[from + k] in s.info && entries[k] == EntryOf(s.info[all[from + k]])
  {
    var e := entries[k];
    assert e in entries;
  }

  lemma ListsAll(s: State, news: seq<int>, trieds: seq<int>)
    requires Enumerates(news, NewIds(s.info)) && Enumerates(trieds, TriedIds(s.info))
    ensures Lists(s, news, news + trieds)
  {
    var all := news + trieds;
    forall id | id in s.info
      ensures id in all
    {
      assert id in NewIds(s.info) || id in TriedIds(s.info);
    }
    forall i, j | 0 <= i < j < |all|
      ensures all[i] != all[j]
    {
      if i < |news| <= j {
        assert all[i] in NewIds(s.info) && all[j] in TriedIds(s.info);
      }
    }
  }

  lemma {:induction false} IndexInFront(a: seq<int>, b: seq<int>, id: int)
    requires id in a
    ensures IndexOf(a + b, id) == IndexOf(a, id)
  {
    if a[0] != id {
      assert (a + b)[1..] == a[1..] + b;
      IndexInFront(a[1..], b, id);
    }
  }

  lemma FileEntries(s: State, news: seq<int>, trieds: seq<int>, p: Placing, f: Saved)
    requires Enumerates(news, NewIds(s.info)) && Enumerates(trieds, TriedIds(s.info)) && IsFile(p, s, news, trieds, f)
    ensures EntriesMatch(s, news + trieds, 0, f.newEntries) && EntriesMatch(s, news + trieds, |news|, f.triedEntries)
    ensures |f.newEntries| == |news| && |f.triedEntries| == |trieds|
  {
    var all := news + trieds;
    forall k | 0 <= k < |news|
      ensures all[0 + k] in s.info && f.newEntries[k] == EntryOf(s.info[all[0 + k]])
    {
      assert news[k] in NewIds(s.info) && all[0 + k] == news[k];
    }
    forall k | 0 <= k < |trieds|
      ensures all[|news| + k] in s.info && f.triedEntries[k] == EntryOf(s.info[all[|news| + k]])
    {
      assert trieds[k] in TriedIds(s.info) && all[|news| + k] == trieds[k];
    }
  }

  lemma FileCounts(p: Placing, s: State, news: seq<int>, trieds: seq<int>, f: Saved)
    requires Inv(p, s) && Enumerates(news, NewIds(s.info)) && Enumerates(trieds, TriedIds(s.info))
    requires IsFile(p, s, news, trieds, f)
    ensures f.newCount == |news| == s.newCount && f.triedCount == |trieds| == s.triedCount
    ensures |f.buckets| == p.newBuckets
  {
    EnumerationLength(news, NewIds(s.info));
    EnumerationLength(trieds, TriedIds(s.info));
  }

  /** The state to which the bucket lists are added, for the file of a consistent state. */
  lemma EnteredReady(p: Placing, s: State, news: seq<int>, trieds: seq<int>, f: Saved)
    requires Inv(p, s) && Enumerates(news, NewIds(s.info)) && Enumerates(trieds, TriedIds(s.info))
    requires IsFile(p, s, news, trieds, f)
    ensures Readable(f) && Ready(p, s, news, news + trieds, Entered(p, f))
    ensures Entered(p, f).idCount == |news + trieds| && Entered(p, f).triedCount == s.triedCount
  {
    hide Inv, InvBut, Stage, Enumerates, IsFile, EntriesMatch, Lists, Loadable, NewIds, TriedIds;
    var all := news + trieds;
    FileCounts(p, s, news, trieds, f);
    FileEntries(s, news, trieds, p, f);
    ListsAll(s, news, trieds);
    LoadNewStages(p, s, news, all, f.newEntries, |news|);
    var t := LoadNew(f.newEntries, |news|);
    SetCounts(s, all, |news|, t, f.newCount, f.newCount, f.triedCount);
    LoadableCounts(t, |news|, f.newCount, f.newCount, f.triedCount);
    LoadTriedStages(p, s, news, all, t.(idCount := f.newCount, newCount := f.newCount, triedCount := f.triedCount),
      f.triedEntries, |trieds|);
  }

  lemma LoadableCounts(t: State, m: nat, idCount: int, newCount: int, triedCount: int)
    requires Loadable(t, m)
    ensures Loadable(t.(idCount := idCount, newCount := newCount, triedCount := triedCount), m)
  {
  }

  lemma NothingFilled(p: Placing, s: State, news: seq<int>, all: seq<int>, base: State)
    requires Ready(p, s, news, all, base)
    ensures Filled(p, s, all, base, {}, base)
  {
    forall id | id in base.refs
      ensures base.refs[id] == |BucketsOf(base.newTab, id)| <= MAX_REFS
    {
      assert BucketsOf(base.newTab, id) == {};
      assert all[id] in s.info;
    }
  }

  lemma AllBefore(p: Placing, s: State)
    requires Inv(p, s)
    ensures Before(s.newTab, p.newBuckets) == s.newTab.Keys
  {
  }

  lemma ReadyBase(p: Placing, s: State, news: seq<int>, all: seq<int>, base: State)
    requires Ready(p, s, news, all, base)
    ensures Shuffled(base.pos, base.random) && base.info.Keys == base.refs.Keys == base.pos.Keys
    ensures forall k :: k in base.info <==> 0 <= k < |all|
    ensures IdsRenamed(s.addrs, all, |all|, base.addrs) && IdsRenamed(s.triedTab, all, |all|, base.triedTab)
  {
  }

  lemma TableRenamed(p: Placing, s: State, news: seq<int>, all: seq<int>, base: State, t: State)
    requires Ready(p, s, news, all, base) && Filled(p, s, all, base, s.newTab.Keys, t)
    ensures IdsRenamed(s.newTab, all, |all|, t.newTab)
  {
    hide Ready, NewPlaced, RefsCount;
    forall slot | slot in s.newTab
      ensures IndexOf(all, s.newTab[slot]) < |all|
    {
      NewIdAt(p, s, news, all, base, slot);
    }
  }

  lemma EntryBack(p: Placing, s: State, news: seq<int>, all: seq<int>, base: State, t: State, k: nat)
    requires Ready(p, s, news, all, base) && Filled(p, s, all, base, s.newTab.Keys, t) && k < |all|
    ensures EntrySame(s, all, t, k) && (t.info[k].inTried || t.refs[k] != 0)
  {
    hide Ready, NewPlaced, RefsCount;
    RefsBack(p, s, news, all, base, t, k);
    ReadyId(p, s, news, all, base, k);
  }

  lemma FilledSame(p: Placing, s: State, news: seq<int>, all: seq<int>, base: State, t: State)
    requires Ready(p, s, news, all, base) && Filled(p, s, all, base, s.newTab.Keys, t)
    requires base.idCount == |all| && base.triedCount == s.triedCount && base.newCount == s.newCount
    ensures SameUpToIds(s, all, t) && forall k :: k in t.info ==> t.info[k].inTried || t.refs[k] != 0
  {
    hide Ready, NewPlaced, RefsCount, IdsRenamed, Shuffled;
    ReadyBase(p, s, news, all, base);
    TableRenamed(p, s, news, all, base, t);
    forall k | 0 <= k < |all|
      ensures EntrySame(s, all, t, k) && (t.info[k].inTried || t.refs[k] != 0)
    {
      EntryBack(p, s, news, all, base, t, k);
    }
    forall k | k in t.info
      ensures t.info[k].inTried || t.refs[k] != 0
    {
      assert EntrySame(s, all, t, k);
    }
  }

  /**
   * Reading the file of a consistent manager back gives the same manager up to renaming of ids:
   * nothing is lost, and every slot, reference count and address is as before.
   */
  lemma RoundTrip(p: Placing, s: State, news: seq<int>, trieds: seq<int>, f: Saved)
    requires Bounded(p) && Inv(p, s)
    requires Enumerates(news, NewIds(s.info)) && Enumerates(trieds, TriedIds(s.info)) && IsFile(p, s, news, trieds, f)
    ensures Readable(f) && SameUpToIds(s, news + trieds, Loaded(p, f))
  {
    var all := news + trieds;
    forall id | id in NewIds(s.info)
      ensures IndexOf(news, id) == IndexOf(all, id)
    {
      IndexInFront(news, trieds, id);
    }
    hide Bounded, InvBut, Ready, Filled, Enumerates, NewIds, TriedIds, SameUpToIds, BucketList, EntryOf, Before;
    EnteredReady(p, s, news, trieds, f);
    FileCounts(p, s, news, trieds, f);
    var base := Entered(p, f);
    NothingFilled(p, s, news, all, base);
    ReadyKeys(p, s, news, all, base);
    ListsFill(p, s, news, all, base, f.buckets, |f.buckets|);
    AllBefore(p, s);
    var t := LoadLists(p, base, f.buckets, |f.buckets|);
    FilledSame(p, s, news, all, base, t);
    NothingPruned(t, t.idCount);
  }
}
