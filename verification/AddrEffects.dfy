/**
 * What every operation of the address manager does to the entries and to the two tables, stated
 * outright. Reference counts, counters and the address map follow from these by consistency.
 */
module AddrEffects {
  import opened Outcomes
  import opened AddrTables
  import opened AddrOps
  import opened AddrRuns

  /** The entry that goes when a slot of the new table is cleared: its holder, if this was its only slot. */
  ghost function Lost(newTab: Table, slot: Slot): set<int> {
    if slot in newTab && BucketsOf(newTab, newTab[slot]) == {slot.0} then {newTab[slot]} else {}
  }

  lemma {:induction false} OnlyBucket(p: Placing, s: State, slot: Slot, loose: set<int>)
    requires InvBut(p, s, loose) && slot in s.newTab
    ensures s.newTab[slot] in s.refs && (s.refs[s.newTab[slot]] == 1 <==> Lost(s.newTab, slot) == {s.newTab[slot]})
    ensures s.refs[s.newTab[slot]] >= 1
  {
    var buckets := BucketsOf(s.newTab, s.newTab[slot]);
    assert slot.0 in buckets;
    assert s.refs[s.newTab[slot]] == |buckets|;
    if |buckets| == 1 {
      One(buckets);
    }
  }

  lemma {:induction false} One(s: set<int>)
    requires |s| == 1
    ensures exists b :: b in s && s == {b}
  {
    var b := Pick(s);
    assert |s - {b}| == 0;
    assert s == {b};
  }

  lemma {:induction false} ClearNewIs(s: State, slot: Slot)
    requires Shuffled(s.pos, s.random) && KeysAgree(s) && forall x :: x in s.newTab ==> s.newTab[x] in s.info
    ensures var t := ClearNew(s, slot);
      && t.newTab == s.newTab - {slot} && t.triedTab == s.triedTab
      && t.info == if slot in s.newTab && s.refs[s.newTab[slot]] == 1 then s.info - {s.newTab[slot]} else s.info
  {
    hide Delete;
    if slot in s.newTab {
      DeleteFrame(Unref(s, slot), s.newTab[slot]);
    }
  }

  lemma {:induction false} ClearNewExact(p: Placing, s: State, slot: Slot, loose: set<int>)
    requires InvBut(p, s, loose)
    ensures Shuffled(s.pos, s.random) && KeysAgree(s) && forall x :: x in s.newTab ==> s.newTab[x] in s.info
    ensures var t := ClearNew(s, slot);
      t.info == s.info - Lost(s.newTab, slot) && t.newTab == s.newTab - {slot} && t.triedTab == s.triedTab
  {
    hide InvBut, ClearNew, Shuffled, KeysAgree, BucketsOf;
    InvParts(p, s, loose);
    ClearNewIs(s, slot);
    if slot in s.newTab {
      OnlyBucket(p, s, slot, loose);
    }
    assert s.info - {} == s.info;
  }

  // ---------- Add ----------

  /**
   * Whether the holder of a new slot makes room: there is none, or it is terrible, or a newcomer
   * finds it elsewhere too.
   */
  ghost predicate MakesRoom(info: map<int, Info>, newTab: Table, slot: Slot, newcomer: bool, now: int) {
    slot in newTab && newTab[slot] in info ==>
      IsTerrible(info[newTab[slot]], now) || (newcomer && BucketsOf(newTab, newTab[slot]) != {slot.0})
  }

  lemma {:induction false} NoBuckets(p: Placing, s: State, id: int, loose: set<int>)
    requires InvBut(p, s, loose) && id in s.info
    ensures id in s.refs && (s.refs[id] == 0 <==> BucketsOf(s.newTab, id) == {})
    ensures s.refs[id] == |BucketsOf(s.newTab, id)|
  {
    assert s.refs[id] == |BucketsOf(s.newTab, id)|;
  }

  /** What Insert does, case by case. */
  lemma {:induction false} InsertCases(p: Placing, s: State, id: int, source: NetAddr, now: int)
    requires Bounded(p) && InvBut(p, s, {id}) && id in s.info && !s.info[id].inTried && s.refs[id] < MAX_REFS
    ensures Shuffled(s.pos, s.random) && KeysAgree(s) && forall x :: x in s.newTab ==> s.newTab[x] in s.info
    ensures var r, slot := Insert(p, s, id, source, now),
      NewSlot(p, s.info[id].service, p.newBucket(s.info[id].service, source));
      if slot in s.newTab && s.newTab[slot] == id then r == s
      else if slot !in s.newTab || IsTerrible(s.info[s.newTab[slot]], now)
        || (s.refs[s.newTab[slot]] > 1 && s.refs[id] == 0) then
        id in ClearNew(s, slot).refs && r == Ref(ClearNew(s, slot), id, slot)
      else r == if s.refs[id] == 0 then Delete(s, id) else s
  {
    var slot := NewSlot(p, s.info[id].service, p.newBucket(s.info[id].service, source));
    hide IsTerrible, ClearNew, Delete, Bounded, InvBut, Ref, Shuffled;
    InvParts(p, s, {id});
    InRange(p, s, id, source);
    InsertDefined(p, s, id, slot);
  }

  /**
   * The slot for the bucket of this source is given to the entry if it makes room; an entry that
   * gets no slot at all goes.
   */
  ghost predicate Inserted(
    p: Placing, info: map<int, Info>, newTab: Table, id: int, source: NetAddr, now: int,
    info': map<int, Info>, newTab': Table)
  {
    id in info &&
    var bucket := p.newBucket(info[id].service, source);
    var slot := (bucket, p.position(info[id].service, true, bucket));
    var newcomer := BucketsOf(newTab, id) == {};
    if slot in newTab && newTab[slot] == id then info' == info && newTab' == newTab
    else if MakesRoom(info, newTab, slot, newcomer, now) then
      newTab' == newTab[slot := id] && info' == info - Lost(newTab, slot)
    else newTab' == newTab && info' == if newcomer then info - {id} else info
  }

  lemma {:induction false} InsertExact(p: Placing, s: State, id: int, source: NetAddr, now: int)
    requires Bounded(p) && InvBut(p, s, {id}) && id in s.info && !s.info[id].inTried && s.refs[id] < MAX_REFS
    ensures var r := Insert(p, s, id, source, now);
      r.triedTab == s.triedTab && Inserted(p, s.info, s.newTab, id, source, now, r.info, r.newTab)
  {
    hide IsTerrible, ClearNew, Delete, BucketsOf, Bounded, InvBut, Insert, Shuffled;
    InsertCases(p, s, id, source, now);
    NoBuckets(p, s, id, {id});
    var slot := NewSlot(p, s.info[id].service, p.newBucket(s.info[id].service, source));
    ClearNewExact(p, s, slot, {id});
    if s.refs[id] == 0 {
      DeleteFrame(s, id);
    }
    if slot in s.newTab {
      OnlyBucket(p, s, slot, {id});
    }
    assert (s.newTab - {slot})[slot := id] == s.newTab[slot := id];
  }

  /** What hearing of a known address again changes about its entry. */
  ghost predicate HeardAgain(was: Info, a: Address, penalty: int, now: int, i: Info) {
    var interval := if now - a.time < 86400 then 3600 else 86400;
    && i == was.(services := was.services | a.services, time := i.time)
    && i.time == if a.time != 0 && (was.time == 0 || a.time - was.time > interval + penalty)
                 then (if a.time > penalty then a.time - penalty else 0)
                 else was.time
  }

  /** Add_ on a known address: its entry is refreshed, and may get a slot for this source as well. */
  lemma {:induction false} AddKnownExact(
    p: Placing, s: State, a: Address, source: NetAddr, penalty: int, now: int, lucky: bool)
    requires Bounded(p) && Inv(p, s) && a.routable && a.service.addr in s.addrs
    ensures var (r, isNew) := Add(p, s, a, source, penalty, now, lucky); var id := s.addrs[a.service.addr];
      && !isNew && id in s.info && r.triedTab == s.triedTab
      && exists i :: HeardAgain(s.info[id], a, penalty, now, i) &&
           var heard := s.info[id := i];
           if a.time != 0 && (i.time == 0 || a.time > i.time) && !i.inTried && |BucketsOf(s.newTab, id)| < 8 && lucky
           then Inserted(p, heard, s.newTab, id, source, now, r.info, r.newTab)
           else r.info == heard && r.newTab == s.newTab
  {
    var id := s.addrs[a.service.addr];
    hide Insert, IsTerrible, Bounded, BucketsOf, Inserted;
    FoundId(p, s, a.service.addr);
    NoBuckets(p, s, id, {});
    hide InvBut;
    var i := Refreshed(s.info[id], a, penalty, now);
    assert HeardAgain(s.info[id], a, penalty, now, i);
    var t := s.(info := s.info[id := i]);
    InfoKeepsInv(p, s, id, i, {});
    if !(a.time == 0 || (i.time != 0 && a.time <= i.time) || i.inTried || s.refs[id] == MAX_REFS || !lucky) {
      Loosen(p, t, id);
      InsertExact(p, t, id, source, now);
    }
  }

  /** Add_ on an unknown address, or on one that is not routable. */
  lemma {:induction false} AddNewExact(
    p: Placing, s: State, a: Address, source: NetAddr, penalty: int, now: int, lucky: bool)
    requires Bounded(p) && Inv(p, s) && a.service.addr !in s.addrs
    ensures var (r, isNew) := Add(p, s, a, source, penalty, now, lucky);
      var time := if a.time > penalty then a.time - penalty else 0;
      var made := s.info[s.idCount := Info(a.service, a.services, time, source, 0, 0, 0, false)];
      && isNew == a.routable && s.idCount !in s.info && r.triedTab == s.triedTab
      && (a.routable ==> Inserted(p, made, s.newTab, s.idCount, source, now, r.info, r.newTab))
      && (!a.routable ==> r == s)
  {
    hide Insert, IsTerrible, Bounded, InvBut, Inserted;
    InvParts(p, s, {});
    var i := Info(a.service, a.services, NonNegative(a.time - penalty), source, 0, 0, 0, false);
    CreateKeepsInv(p, s, i, {});
    assert {} + {s.idCount} == {s.idCount};
    InsertExact(p, Create(s, i), s.idCount, source, now);
  }

  // ---------- Good, Attempt and Connected ----------

  /** The new table without the slots of one entry. */
  ghost function WithoutSlots(newTab: Table, id: int): Table {
    map slot | slot in newTab && newTab[slot] != id :: newTab[slot]
  }

  /** A tried entry goes back to the new table, to the bucket of the source it is remembered with. */
  ghost predicate SentBack(
    p: Placing, info: map<int, Info>, newTab: Table, e: int, info': map<int, Info>, newTab': Table)
  {
    e in info &&
    var bucket := p.newBucket(info[e].service, info[e].source);
    var home := (bucket, p.position(info[e].service, true, bucket));
    newTab' == newTab[home := e] && info' == info[e := info[e].(inTried := false)] - Lost(newTab, home)
  }

  lemma {:induction false} EvictIs(p: Placing, s: State, e: int, loose: set<int>)
    requires Bounded(p) && InvBut(p, s, loose) && Unlisted(s, loose) && e in s.info && s.info[e].inTried && e !in loose
    ensures var slot, t := HomeSlot(p, s.info[e]), Demote(s, e, TriedSlot(p, s.info[e].service));
      && Shuffled(t.pos, t.random) && KeysAgree(t) && (forall x :: x in t.newTab ==> t.newTab[x] in t.info)
      && e in ClearNew(t, slot).refs && Evict(p, s, e, loose) == Ref(ClearNew(t, slot), e, slot)
  {
    hide ClearNew, Bounded, InvBut, Shuffled, TriedSlot, Ref, Demote, HomeSlot, Unlisted;
    EvictDefined(p, s, e, loose);
  }

  lemma {:induction false} EvictExact(p: Placing, s: State, e: int, loose: set<int>)
    requires Bounded(p) && InvBut(p, s, loose) && Unlisted(s, loose) && e in s.info && s.info[e].inTried && e !in loose
    ensures var r := Evict(p, s, e, loose);
      SentBack(p, s.info, s.newTab, e, r.info, r.newTab) && r.triedTab == s.triedTab - {TriedSlot(p, s.info[e].service)}
  {
    hide Evict, ClearNew, BucketsOf, Bounded, InvBut, Shuffled, TriedSlot, Lost, Unlisted;
    EvictIs(p, s, e, loose);
    DemoteKeepsInv(p, s, e, loose);
    var slot, t := HomeSlot(p, s.info[e]), Demote(s, e, TriedSlot(p, s.info[e].service));
    ClearNewExact(p, t, slot, loose + {e});
    assert (s.newTab - {slot})[slot := e] == s.newTab[slot := e];
  }

  /** An entry takes its tried slot, leaving all its new ones; what held it goes back to the new table. */
  ghost predicate Tried(p: Placing, s: State, id: int, i: Info, r: State) {
    var slot := TriedSlot(p, i.service);
    var now, left := s.info[id := i.(inTried := true)], WithoutSlots(s.newTab, id);
    && r.triedTab == s.triedTab[slot := id]
    && (if slot in s.triedTab then
          var e := s.triedTab[slot];
          e != id && e in s.info && s.info[e].inTried && SentBack(p, now, left, e, r.info, r.newTab)
        else r.info == now && r.newTab == left)
  }

  /** An entry without slots is not the one that goes. */
  lemma {:induction false} SentBackBeside(
    p: Placing, info: map<int, Info>, newTab: Table, e: int, info': map<int, Info>, newTab': Table, id: int, i: Info)
    requires SentBack(p, info, newTab, e, info', newTab') && e != id
    requires forall slot :: slot in newTab ==> newTab[slot] != id
    ensures SentBack(p, info[id := i], newTab, e, info'[id := i], newTab')
  {
    var bucket := p.newBucket(info[e].service, info[e].source);
    var home := (bucket, p.position(info[e].service, true, bucket));
    assert id !in Lost(newTab, home);
    hide Lost;
    assert info[id := i][e := info[e].(inTried := false)] - Lost(newTab, home) ==
      (info[e := info[e].(inTried := false)] - Lost(newTab, home))[id := i];
  }

  lemma {:induction false} MakeTriedIs(p: Placing, s: State, id: int)
    requires Bounded(p) && Inv(p, s) && id in s.info && !s.info[id].inTried
    ensures var slot, t := TriedSlot(p, s.info[id].service), Forget(s, id);
      && InvBut(p, t, {id}) && Unlisted(t, {id})
      && (slot in t.triedTab ==>
           var e := t.triedTab[slot];
           && e in t.info && t.info[e].inTried && e != id && slot == TriedSlot(p, t.info[e].service)
           && id in Evict(p, t, e, {id}).info && Evict(p, t, e, {id}).info[id] == s.info[id]
           && MakeTried(p, s, id) == Promote(Evict(p, t, e, {id}), id, slot))
      && (slot !in t.triedTab ==> MakeTried(p, s, id) == Promote(t, id, slot))
  {
    var slot := TriedSlot(p, s.info[id].service);
    OwnTriedSlot(p, s, slot);
    hide Bounded, InvBut, TriedSlot, Evict, Unlisted, Promote;
    MakeTriedDefined(p, s, id);
  }

  lemma {:induction false} MakeTriedExact(p: Placing, s: State, id: int)
    requires Bounded(p) && Inv(p, s) && id in s.info && !s.info[id].inTried
    ensures Tried(p, s, id, s.info[id], MakeTried(p, s, id))
  {
    hide Bounded, InvBut, TriedSlot, MakeTried, Evict, SentBack;
    MakeTriedIs(p, s, id);
    var slot, t := TriedSlot(p, s.info[id].service), Forget(s, id);
    if slot in t.triedTab {
      var e := t.triedTab[slot];
      EvictExact(p, t, e, {id});
      var r := Evict(p, t, e, {id});
      SentBackBeside(p, t.info, t.newTab, e, r.info, r.newTab, id, s.info[id].(inTried := true));
      assert (s.triedTab - {slot})[slot := id] == s.triedTab[slot := id];
    }
  }

  lemma {:induction false} OwnTriedSlot(p: Placing, s: State, slot: Slot)
    requires Inv(p, s)
    ensures slot in s.triedTab ==>
      s.triedTab[slot] in s.info && slot == TriedSlot(p, s.info[s.triedTab[slot]].service)
  {
  }

  /** Good_: the entry has succeeded at `time`, with no failure since, and is tried. */
  lemma {:induction false} GoodExact(p: Placing, s: State, service: Service, time: int)
    requires Bounded(p) && Inv(p, s)
    ensures var r := Good(p, s, service, time);
      if !Knows(s, service) then r == s
      else
        var id := s.addrs[service.addr];
        var i := s.info[id].(lastSuccess := time, lastTry := time, attempts := 0);
        if i.inTried then r.info == s.info[id := i] && r.newTab == s.newTab && r.triedTab == s.triedTab
        else Tried(p, s, id, i, r)
  {
    hide Bounded, InvBut, MakeTried, TriedSlot, SentBack;
    if Knows(s, service) {
      var id := s.addrs[service.addr];
      var i := s.info[id].(lastSuccess := time, lastTry := time, attempts := 0);
      var t := s.(info := s.info[id := i]);
      InfoKeepsInv(p, s, id, i, {});
      if !i.inTried {
        MakeTriedExact(p, t, id);
        assert t.info[id := i.(inTried := true)] == s.info[id := i.(inTried := true)];
      }
    }
  }

  /** One failed connection attempt after the other. */
  ghost function Attempts(p: Placing, s: State, service: Service, times: seq<int>): (r: State)
    requires Inv(p, s)
    ensures Inv(p, r)
  {
    if times == [] then s else Attempt(p, Attempts(p, s, service, times[..|times| - 1]), service, times[|times| - 1])
  }

  /** Attempts are counted, the last one is remembered, and nothing else changes. */
  lemma {:induction false} AttemptsCounted(p: Placing, s: State, service: Service, times: seq<int>)
    requires Inv(p, s) && times != []
    ensures var r := Attempts(p, s, service, times);
      if !Knows(s, service) then r == s
      else
        var id := s.addrs[service.addr];
        var i := s.info[id].(attempts := s.info[id].attempts + |times|, lastTry := times[|times| - 1]);
        r == s.(info := s.info[id := i])
  {
    hide InvBut;
    var init := times[..|times| - 1];
    if init != [] {
      AttemptsCounted(p, s, service, init);
    }
  }

  /** When an entry is not worth keeping, in seconds. */
  lemma {:induction false} TerribleMeans(i: Info, now: int)
    ensures i.lastTry != 0 && now - i.lastTry <= 60 ==> !IsTerrible(i, now)
    ensures i.lastTry == 0 || now - i.lastTry > 60 ==>
      (IsTerrible(i, now) <==>
         || i.time == 0 || i.time - now > 600 || now - i.time > 2592000
         || (i.attempts >= 3 && i.lastSuccess == 0)
         || (i.attempts >= 10 && now - i.lastSuccess > 604800))
  {
  }

  /** Three failures make an entry that never worked terrible, ten one that has not worked for a week. */
  lemma {:induction false} FailuresTerrible(p: Placing, s: State, service: Service, times: seq<int>, now: int)
    requires Inv(p, s) && Knows(s, service) && times != [] && now > times[|times| - 1] + 60
    ensures var id := s.addrs[service.addr]; var i, j := s.info[id], Attempts(p, s, service, times).info;
      && id in j
      && (i.attempts >= 0 && i.lastSuccess == 0 && |times| >= 3 ==> IsTerrible(j[id], now))
      && (i.attempts >= 0 && now - i.lastSuccess > 7 * 86400 && |times| >= 10 ==> IsTerrible(j[id], now))
  {
    hide InvBut;
    AttemptsCounted(p, s, service, times);
  }

  /** A success saves an entry: for a minute in any case, and for a week however often it fails. */
  lemma {:induction false} GoodSaves(p: Placing, s: State, service: Service, time: int, now: int)
    requires Bounded(p) && Inv(p, s) && Knows(s, service) && 0 < time <= now
    ensures var id, r := s.addrs[service.addr], Good(p, s, service, time);
      && id in r.info && r.info[id].attempts == 0
      && (now <= time + 60 ==> !IsTerrible(r.info[id], now))
      && (now <= time + 7 * 86400 && 0 <= now - r.info[id].time <= 30 * 86400 && r.info[id].time != 0 ==>
           forall n, last :: !IsTerrible(r.info[id].(attempts := n, lastTry := last), now))
  {
    hide Good, InvBut, Bounded, Tried;
    GoodExact(p, s, service, time);
    var id := s.addrs[service.addr];
    if !s.info[id].inTried {
      TriedEntry(p, s, id, s.info[id].(lastSuccess := time, lastTry := time, attempts := 0), Good(p, s, service, time));
    }
  }

  lemma {:induction false} TriedEntry(p: Placing, s: State, id: int, i: Info, r: State)
    requires Tried(p, s, id, i, r)
    ensures id in r.info && r.info[id] == i.(inTried := true)
  {
    var slot := TriedSlot(p, i.service);
    hide TriedSlot;
    if slot in s.triedTab {
      var e := s.info[s.triedTab[slot]];
      var bucket := p.newBucket(e.service, e.source);
      assert id !in Lost(WithoutSlots(s.newTab, id), (bucket, p.position(e.service, true, bucket)));
    }
  }

  /** Connected_ brings an entry's time within twenty minutes, and never back. */
  lemma {:induction false} ConnectedExact(p: Placing, s: State, service: Service, time: int)
    requires Inv(p, s)
    ensures var r := Connected(p, s, service, time);
      if !Knows(s, service) then r == s
      else
        var id := s.addrs[service.addr];
        && id in r.info && r.info[id].time >= s.info[id].time && r.info[id].time >= time - 1200
        && r.info[id].time in {s.info[id].time, time} && (s.info[id].time >= time - 1200 ==> r == s)
        && r == s.(info := s.info[id := s.info[id].(time := r.info[id].time)])
  {
    hide InvBut;
    if Knows(s, service) {
      var id := s.addrs[service.addr];
      assert s.info[id := s.info[id]] == s.info;
    }
  }
}
