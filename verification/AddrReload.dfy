/** A restart of the address manager: its file is never refused, and what is loaded is consistent again. */
module AddrReload {
  import opened Outcomes
  import opened Powers
  import opened AddrTables
  import opened AddrSaved

  // ---------- The file is within the limits ----------

  /** A row of the box holds at most its length. */
  lemma {:induction false} RowSize(slots: set<Slot>, b: int, size: nat)
    requires forall slot :: slot in slots ==> slot.0 == b && 0 <= slot.1 < size
    ensures |slots| <= size
  {
    if size == 0 {
      assert slots == {};
    } else {
      var last := (b, size - 1);
      assert forall slot :: slot in slots - {last} ==> slot.1 != size - 1;
      RowSize(slots - {last}, b, size - 1);
    }
  }

  /** And the whole box at most its area. */
  lemma {:induction false} BoxSize(slots: set<Slot>, buckets: nat, size: nat)
    requires forall slot :: slot in slots ==> 0 <= slot.0 < buckets && 0 <= slot.1 < size
    ensures |slots| <= buckets * size
  {
    if buckets == 0 {
      assert slots == {};
    } else {
      var row := set slot | slot in slots && slot.0 == buckets - 1;
      RowSize(row, buckets - 1, size);
      BoxSize(slots - row, buckets - 1, size);
      assert slots == (slots - row) + row;
      AddColumn(buckets - 1, 1, size);
    }
  }

  /** Every id has a slot of the table. */
  ghost predicate AllListed(ids: set<int>, tab: Table) {
    forall id :: id in ids ==> exists slot :: slot in tab && tab[slot] == id
  }

  /** Ids that all have a slot are no more than the slots. */
  lemma {:induction false} IdsAtMostSlots(ids: set<int>, tab: Table)
    requires AllListed(ids, tab)
    ensures |ids| <= |tab.Keys|
    decreases ids
  {
    if ids != {} {
      var id := Pick(ids);
      var slot :| slot in tab && tab[slot] == id;
      var rest := tab - {slot};
      forall other | other in ids - {id}
        ensures exists x :: x in rest && rest[x] == other
      {
        var x :| x in tab && tab[x] == other;
        assert x in rest && rest[x] == other;
      }
      IdsAtMostSlots(ids - {id}, rest);
      assert rest.Keys == tab.Keys - {slot};
    }
  }

  lemma NewListed(p: Placing, s: State)
    requires Inv(p, s)
    ensures AllListed(NewIds(s.info), s.newTab)
  {
    forall id | id in NewIds(s.info)
      ensures exists slot :: slot in s.newTab && s.newTab[slot] == id
    {
      assert s.refs[id] == |BucketsOf(s.newTab, id)| > 0;
      var b := Pick(BucketsOf(s.newTab, id));
    }
  }

  /** A consistent manager has no more entries than its tables have room for. */
  lemma CountsFit(p: Placing, s: State)
    requires Bounded(p) && Inv(p, s)
    ensures s.newCount <= p.newBuckets * p.bucketSize && s.triedCount <= p.triedBuckets * p.bucketSize
  {
    NewListed(p, s);
    IdsAtMostSlots(NewIds(s.info), s.newTab);
    BoxSize(s.newTab.Keys, p.newBuckets, p.bucketSize);
    assert AllListed(TriedIds(s.info), s.triedTab);
    IdsAtMostSlots(TriedIds(s.info), s.triedTab);
    BoxSize(s.triedTab.Keys, p.triedBuckets, p.bucketSize);
  }

  // ---------- What is loaded is consistent ----------

  lemma IdAt(s: State, all: seq<int>, t: State, k: int)
    requires Enumerates(all, s.info.Keys) && SameUpToIds(s, all, t) && k in t.info
    ensures 0 <= k < |all| && all[k] in s.info && all[k] in s.refs && k in t.refs && IndexOf(all, all[k]) == k
    ensures t.info[k] == s.info[all[k]].(lastTry := 0) && t.refs[k] == s.refs[all[k]]
  {
    hide IdsRenamed, Shuffled;
    assert EntrySame(s, all, t, k);
    IndexAt(all, k);
  }

  /** A renamed key leads back to its id. */
  lemma KeyBack<K(!new)>(from: map<K, int>, all: seq<int>, ids: set<int>, to: map<K, int>, x: K)
    requires Enumerates(all, ids) && IdsRenamed(from, all, |all|, to) && x in to
    ensures x in from && 0 <= to[x] < |all| && all[to[x]] == from[x] && from[x] in ids
  {
    var k := IndexOf(all, from[x]);
    assert all[k] == from[x];
  }

  lemma KeyOn<K(!new)>(from: map<K, int>, all: seq<int>, ids: set<int>, to: map<K, int>, x: K)
    requires Enumerates(all, ids) && IdsRenamed(from, all, |all|, to) && x in from && from[x] in ids
    ensures x in to && to[x] == IndexOf(all, from[x])
  {
  }

  lemma LoadedInverse(p: Placing, s: State, all: seq<int>, t: State)
    requires Inv(p, s) && Enumerates(all, s.info.Keys) && SameUpToIds(s, all, t)
    ensures Inverse(t.info, t.addrs)
  {
    hide IdsRenamed, Shuffled, NewPlaced, TriedPlaced, RefsCount, Referenced, Counted, SameUpToIds, Enumerates;
    SameParts(s, all, t);
    forall k | k in t.info
      ensures t.info[k].service.addr in t.addrs && t.addrs[t.info[k].service.addr] == k
    {
      IdAt(s, all, t, k);
      KeyOn(s.addrs, all, s.info.Keys, t.addrs, t.info[k].service.addr);
    }
    forall a | a in t.addrs
      ensures t.addrs[a] in t.info && t.info[t.addrs[a]].service.addr == a
    {
      KeyBack(s.addrs, all, s.info.Keys, t.addrs, a);
      IdAt(s, all, t, t.addrs[a]);
    }
  }

  lemma SameParts(s: State, all: seq<int>, t: State)
    requires SameUpToIds(s, all, t)
    ensures IdsRenamed(s.addrs, all, |all|, t.addrs) && IdsRenamed(s.newTab, all, |all|, t.newTab)
    ensures IdsRenamed(s.triedTab, all, |all|, t.triedTab) && Shuffled(t.pos, t.random) && KeysAgree(t)
    ensures t.newCount == s.newCount && t.triedCount == s.triedCount
    ensures forall k :: k in t.info <==> 0 <= k < |all|
  {
  }

  lemma LoadedPlaced(p: Placing, s: State, all: seq<int>, t: State)
    requires Inv(p, s) && Enumerates(all, s.info.Keys) && SameUpToIds(s, all, t)
    ensures NewPlaced(p, t.info, t.newTab)
  {
    hide IdsRenamed, Shuffled, Inverse, TriedPlaced, RefsCount, Referenced, Counted, SameUpToIds, Enumerates;
    SameParts(s, all, t);
    forall slot | slot in t.newTab
      ensures slot in s.newTab && t.newTab[slot] in t.info
      ensures t.info[t.newTab[slot]] == s.info[s.newTab[slot]].(lastTry := 0)
    {
      KeyBack(s.newTab, all, s.info.Keys, t.newTab, slot);
      IdAt(s, all, t, t.newTab[slot]);
    }
  }

  lemma LoadedTried(p: Placing, s: State, all: seq<int>, t: State)
    requires Inv(p, s) && Enumerates(all, s.info.Keys) && SameUpToIds(s, all, t)
    ensures TriedPlaced(p, t.info, t.triedTab)
  {
    hide IdsRenamed, Shuffled, Inverse, NewPlaced, RefsCount, Referenced, Counted, SameUpToIds, Enumerates;
    SameParts(s, all, t);
    forall slot | slot in t.triedTab
      ensures slot in s.triedTab && t.triedTab[slot] in t.info
      ensures t.info[t.triedTab[slot]] == s.info[s.triedTab[slot]].(lastTry := 0)
    {
      KeyBack(s.triedTab, all, s.info.Keys, t.triedTab, slot);
      IdAt(s, all, t, t.triedTab[slot]);
    }
    forall k | k in t.info && t.info[k].inTried
      ensures TriedSlot(p, t.info[k].service) in t.triedTab && t.triedTab[TriedSlot(p, t.info[k].service)] == k
    {
      IdAt(s, all, t, k);
      KeyOn(s.triedTab, all, s.info.Keys, t.triedTab, TriedSlot(p, t.info[k].service));
    }
  }

  lemma LoadedRefs(p: Placing, s: State, all: seq<int>, t: State)
    requires Inv(p, s) && Enumerates(all, s.info.Keys) && SameUpToIds(s, all, t)
    ensures RefsCount(t.refs, t.newTab) && Referenced(t.info, t.refs, {})
  {
    hide IdsRenamed, Shuffled, Inverse, TriedPlaced, Counted, SameUpToIds, Enumerates;
    SameParts(s, all, t);
    forall k | k in t.refs
      ensures t.refs[k] == |BucketsOf(t.newTab, k)| <= MAX_REFS && (t.info[k].inTried || t.refs[k] > 0)
    {
      IdAt(s, all, t, k);
      LoadedBuckets(p, s, all, t, k);
      assert s.refs[all[k]] == |BucketsOf(s.newTab, all[k])|;
    }
  }

  lemma LoadedBuckets(p: Placing, s: State, all: seq<int>, t: State, k: int)
    requires Inv(p, s) && Enumerates(all, s.info.Keys) && SameUpToIds(s, all, t) && k in t.info
    ensures 0 <= k < |all| && BucketsOf(t.newTab, k) == BucketsOf(s.newTab, all[k])
  {
    hide IdsRenamed, Shuffled, Inverse, TriedPlaced, Counted, SameUpToIds, Enumerates, RefsCount, Referenced;
    SameParts(s, all, t);
    IdAt(s, all, t, k);
    forall b
      ensures b in BucketsOf(t.newTab, k) <==> b in BucketsOf(s.newTab, all[k])
    {
      if b in BucketsOf(t.newTab, k) {
        var slot :| slot in t.newTab && t.newTab[slot] == k && slot.0 == b;
        KeyBack(s.newTab, all, s.info.Keys, t.newTab, slot);
      }
      if b in BucketsOf(s.newTab, all[k]) {
        var slot :| slot in s.newTab && s.newTab[slot] == all[k] && slot.0 == b;
        KeyOn(s.newTab, all, s.info.Keys, t.newTab, slot);
      }
    }
  }

  lemma {:induction false} RangeSize(s: set<int>, a: int, b: int)
    requires a <= b && forall k :: k in s <==> a <= k < b
    ensures |s| == b - a
    decreases b - a
  {
    if a < b {
      RangeSize(s - {b - 1}, a, b - 1);
    } else {
      assert forall k :: k !in s;
      assert s == {};
    }
  }

  /** An order that is the inverse of the positions lists every id once. */
  lemma ShuffledLength(pos: map<int, int>, random: seq<int>)
    requires Shuffled(pos, random)
    ensures |random| == |pos.Keys|
  {
    forall id | id in pos.Keys
      ensures id in random
    {
      assert random[pos[id]] == id;
    }
    EnumerationLength(random, pos.Keys);
  }

  lemma LoadedCounts(p: Placing, s: State, news: seq<int>, all: seq<int>, t: State)
    requires Inv(p, s) && Lists(s, news, all) && SameUpToIds(s, all, t)
    requires |news| == s.newCount && |all| == s.newCount + s.triedCount
    ensures Counted(t)
  {
    hide IdsRenamed, Shuffled, Inverse, TriedPlaced, NewPlaced, Counted, SameUpToIds, Enumerates, RefsCount, Referenced;
    SameParts(s, all, t);
    forall k | k in t.info
      ensures t.info[k].inTried <==> k >= |news|
    {
      IdAt(s, all, t, k);
    }
    RangeSize(TriedIds(t.info), |news|, |all|);
    RangeSize(NewIds(t.info), 0, |news|);
    RangeSize(t.pos.Keys, 0, |all|);
    ShuffledLength(t.pos, t.random);
    CountedIs(t);
  }

  lemma CountedIs(s: State)
    requires s.triedCount == |TriedIds(s.info)| && s.newCount == |NewIds(s.info)|
    requires |s.random| == s.triedCount + s.newCount
    ensures Counted(s)
  {
  }

  /** The same manager up to ids is a consistent one. */
  lemma LoadedInv(p: Placing, s: State, news: seq<int>, all: seq<int>, t: State)
    requires Inv(p, s) && Lists(s, news, all) && SameUpToIds(s, all, t)
    requires |news| == s.newCount && |all| == s.newCount + s.triedCount
    ensures Inv(p, t)
  {
    LoadedInverse(p, s, all, t);
    LoadedPlaced(p, s, all, t);
    LoadedTried(p, s, all, t);
    LoadedRefs(p, s, all, t);
    LoadedCounts(p, s, news, all, t);
    SameParts(s, all, t);
  }

  /**
   * The file of a consistent manager passes both checks of the reader, and the state that is
   * loaded is the same manager up to renaming of ids, consistent again.
   */
  lemma FileAccepted(p: Placing, s: State, news: seq<int>, trieds: seq<int>, f: Saved)
    requires Bounded(p) && Inv(p, s)
    requires Enumerates(news, NewIds(s.info)) && Enumerates(trieds, TriedIds(s.info)) && IsFile(p, s, news, trieds, f)
    ensures Readable(f) && f.newCount <= p.newBuckets * p.bucketSize && f.triedCount <= p.triedBuckets * p.bucketSize
    ensures SameUpToIds(s, news + trieds, Loaded(p, f)) && Inv(p, Loaded(p, f))
    ensures Enumerates(news + trieds, s.info.Keys)
  {
    hide Inv, InvBut, Bounded, SameUpToIds, NewIds, TriedIds, Enumerates, IsFile, Loaded;
    CountsFit(p, s);
    FileCounts(p, s, news, trieds, f);
    RoundTrip(p, s, news, trieds, f);
    ListsAll(s, news, trieds);
    LoadedInv(p, s, news, news + trieds, Loaded(p, f));
  }

  /** Writing a consistent manager and reading the file back: nothing is refused and nothing is lost. */
  method Restart(p: Placing, s: State, order: seq<int>) returns (r: Outcome<State>, ghost all: seq<int>)
    requires Bounded(p) && Inv(p, s) && Enumerates(order, s.info.Keys)
    ensures r.Done? && Enumerates(all, s.info.Keys) && SameUpToIds(s, all, r.value) && Inv(p, r.value)
  {
    hide Inv, InvBut, Bounded, SameUpToIds, NewIds, TriedIds, Enumerates, IsFile, Loaded;
    var f, news, trieds := Serialize(p, s, order);
    FileAccepted(p, s, news, trieds, f);
    all := news + trieds;
    r := Unserialize(p, f);
  }
}
