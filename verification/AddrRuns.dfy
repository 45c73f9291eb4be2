/** Add, Good, Attempt, Connected and GetAddr, and every sequence of them. */
module AddrRuns {
  import opened Outcomes
  import opened AddrTables
  import opened AddrOps

  datatype Address = Address(service: Service, services: bv64, time: int, routable: bool)

  const DAY := 24 * 60 * 60

  /** CAddrInfo::IsTerrible. */
  predicate IsTerrible(i: Info, now: int) {
    !(i.lastTry != 0 && i.lastTry >= now - 60) &&
    (i.time > now + 10 * 60
     || i.time == 0 || now - i.time > 30 * DAY
     || (i.lastSuccess == 0 && i.attempts >= 3)
     || (now - i.lastSuccess > 7 * DAY && i.attempts >= 10))
  }

  function NonNegative(t: int): int {
    if t < 0 then 0 else t
  }

  /** What a repeated announcement changes about an entry. */
  function Refreshed(i: Info, a: Address, penalty: int, now: int): Info {
    var interval := if now - a.time < DAY then 60 * 60 else DAY;
    var time := if a.time != 0 && (i.time == 0 || i.time < a.time - interval - penalty)
      then NonNegative(a.time - penalty)
      else i.time;
    i.(time := time, services := i.services | a.services)
  }

  /** The end of Add_: the id gets a reference in the bucket of this source, or goes if it has none at all. */
  ghost function Insert(p: Placing, s: State, id: int, source: NetAddr, now: int): (r: State)
    requires Bounded(p) && InvBut(p, s, {id}) && id in s.info && !s.info[id].inTried && s.refs[id] < MAX_REFS
    ensures Inv(p, r)
  {
    var service := s.info[id].service;
    var slot := NewSlot(p, service, p.newBucket(service, source));
    InsertDefined(p, s, id, slot);
    if slot in s.newTab && s.newTab[slot] == id then s
    else if slot !in s.newTab || IsTerrible(s.info[s.newTab[slot]], now)
      || (s.refs[s.newTab[slot]] > 1 && s.refs[id] == 0)
    then Ref(ClearNew(s, slot), id, slot)
    else if s.refs[id] == 0 then Delete(s, id) else s
  }

  lemma InsertDefined(p: Placing, s: State, id: int, slot: Slot)
    requires Bounded(p) && InvBut(p, s, {id}) && id in s.info && !s.info[id].inTried && s.refs[id] < MAX_REFS
    requires slot == NewSlot(p, s.info[id].service, slot.0) && 0 <= slot.0 < p.newBuckets
    ensures Shuffled(s.pos, s.random) && KeysAgree(s) && forall x :: x in s.newTab ==> s.newTab[x] in s.info
    ensures s.refs[id] > 0 ==> Inv(p, s)
    ensures slot in s.newTab && s.newTab[slot] == id ==> s.refs[id] > 0
    ensures !(slot in s.newTab && s.newTab[slot] == id) ==>
      id in ClearNew(s, slot).refs && Inv(p, Ref(ClearNew(s, slot), id, slot))
    ensures s.refs[id] == 0 ==> Inv(p, Delete(s, id))
  {
    StillReferenced(p, s, id, slot);
    hide InvBut, Inverse, Shuffled, NewPlaced, TriedPlaced, RefsCount, Referenced, Counted, Bounded;
    InvParts(p, s, {id});
    assert {id} - {id} == {};
    if s.refs[id] == 0 {
      DeleteKeepsInv(p, s, id, {id});
    }
    if !(slot in s.newTab && s.newTab[slot] == id) {
      ClearNewKeepsInv(p, s, slot, {id});
      ClearNewFrame(s, slot, id);
      InvParts(p, ClearNew(s, slot), {id});
      RefKeepsInv(p, ClearNew(s, slot), id, slot, {id});
    }
  }

  lemma StillReferenced(p: Placing, s: State, id: int, slot: Slot)
    requires InvBut(p, s, {id}) && id in s.info
    ensures s.refs[id] > 0 ==> Inv(p, s)
    ensures slot in s.newTab && s.newTab[slot] == id ==> s.refs[id] > 0
  {
    if slot in s.newTab && s.newTab[slot] == id {
      assert slot.0 in BucketsOf(s.newTab, id);
    }
  }

  /** Add_; `lucky` is the outcome of the random test. */
  ghost function Add(
    p: Placing, s: State, a: Address, source: NetAddr, penalty: int, now: int, lucky: bool): (r: (State, bool))
    requires Bounded(p) && Inv(p, s)
    ensures Inv(p, r.0)
  {
    if !a.routable then (s, false)
    else if a.service.addr in s.addrs then
      var id := s.addrs[a.service.addr];
      FoundId(p, s, a.service.addr);
      var i := Refreshed(s.info[id], a, penalty, now);
      var t := s.(info := s.info[id := i]);
      InfoKeepsInv(p, s, id, i, {});
      if a.time == 0 || (i.time != 0 && a.time <= i.time) || i.inTried || s.refs[id] == MAX_REFS || !lucky
        then (t, false)
      else
        Loosen(p, t, id);
        (Insert(p, t, id, source, now), false)
    else
      var i := Info(a.service, a.services, NonNegative(a.time - penalty), source, 0, 0, 0, false);
      CreateKeepsInv(p, s, i, {});
      assert {} + {s.idCount} == {s.idCount};
      (Insert(p, Create(s, i), s.idCount, source, now), true)
  }

  /**
   * Whether an entry without references gets the slot: it is free, or what holds it is terrible or
   * referenced elsewhere.
   */
  ghost predicate SlotYields(s: State, slot: Slot, now: int)
    requires slot in s.newTab ==> s.newTab[slot] in s.info && s.newTab[slot] in s.refs
  {
    slot !in s.newTab || IsTerrible(s.info[s.newTab[slot]], now) || s.refs[s.newTab[slot]] > 1
  }

  /** What Insert leaves. */
  ghost predicate Effects(s: State, id: int, slot: Slot, now: int, r: State) {
    && (slot in s.newTab ==> s.newTab[slot] in s.info && s.newTab[slot] in s.refs)
    && id in s.refs
    && r.triedTab == s.triedTab
    && (id in r.info <==> s.refs[id] > 0 || SlotYields(s, slot, now))
    && Subset(r.info, s.info)
  }

  lemma PlacedEffects(p: Placing, s: State, id: int, slot: Slot, now: int)
    requires InvBut(p, s, {id}) && id in s.info && (slot in s.newTab ==> s.newTab[slot] != id)
    ensures Shuffled(s.pos, s.random) && KeysAgree(s) && forall x :: x in s.newTab ==> s.newTab[x] in s.info
    ensures id in ClearNew(s, slot).refs
    ensures SlotYields(s, slot, now) || s.refs[id] > 0 ==> Effects(s, id, slot, now, Ref(ClearNew(s, slot), id, slot))
  {
    hide InvBut, Inverse, Shuffled, NewPlaced, TriedPlaced, RefsCount, Referenced, Counted, IsTerrible, ClearNew;
    hide Subset;
    InvParts(p, s, {id});
    ClearNewFrame(s, slot, id);
    ClearNewSubset(s, slot);
  }

  lemma OtherEffects(p: Placing, s: State, id: int, slot: Slot, now: int)
    requires InvBut(p, s, {id}) && id in s.info
    ensures Shuffled(s.pos, s.random) && KeysAgree(s) && forall x :: x in s.newTab ==> s.newTab[x] in s.info
    ensures s.refs[id] > 0 ==> Effects(s, id, slot, now, s)
    ensures s.refs[id] == 0 && !SlotYields(s, slot, now) ==> Effects(s, id, slot, now, Delete(s, id))
  {
    hide InvBut, Inverse, Shuffled, NewPlaced, TriedPlaced, RefsCount, Referenced, Counted, IsTerrible, Delete, Subset;
    InvParts(p, s, {id});
    DeleteFrame(s, id);
    LessIsSubset(s.info, id);
  }

  lemma InsertEffects(p: Placing, s: State, id: int, source: NetAddr, now: int)
    requires Bounded(p) && InvBut(p, s, {id}) && id in s.info && !s.info[id].inTried && s.refs[id] < MAX_REFS
    ensures Effects(s, id, NewSlot(p, s.info[id].service, p.newBucket(s.info[id].service, source)), now,
      Insert(p, s, id, source, now))
  {
    hide InvBut, Inverse, Shuffled, NewPlaced, TriedPlaced, RefsCount, Referenced, Counted, Bounded, IsTerrible;
    hide ClearNew, Delete, Effects;
    var slot := NewSlot(p, s.info[id].service, p.newBucket(s.info[id].service, source));
    InRange(p, s, id, source);
    InsertDefined(p, s, id, slot);
    RefsNonNegative(p, s, id, {id});
    OtherEffects(p, s, id, slot, now);
    if slot !in s.newTab || s.newTab[slot] != id {
      PlacedEffects(p, s, id, slot, now);
    }
  }

  lemma InRange(p: Placing, s: State, id: int, source: NetAddr)
    requires Bounded(p) && id in s.info
    ensures var slot := NewSlot(p, s.info[id].service, p.newBucket(s.info[id].service, source));
      slot == NewSlot(p, s.info[id].service, slot.0) && 0 <= slot.0 < p.newBuckets
  {
  }

  lemma LessIsSubset(a: map<int, Info>, id: int)
    ensures Subset(a, a) && Subset(a - {id}, a)
  {
  }

  /** Entries may go, but none changes. */
  ghost predicate Subset(a: map<int, Info>, b: map<int, Info>) {
    forall k :: k in a ==> k in b && a[k] == b[k]
  }

  lemma ClearNewSubset(s: State, slot: Slot)
    requires Shuffled(s.pos, s.random) && KeysAgree(s) && forall x :: x in s.newTab ==> s.newTab[x] in s.info
    ensures Subset(ClearNew(s, slot).info, s.info)
  {
    if slot in s.newTab {
      var t := Unref(s, slot);
      DeleteFrame(t, s.newTab[slot]);
    }
  }

  lemma KnownStays(p: Placing, s: State, id: int)
    requires Inv(p, s) && id in s.info
    ensures s.info[id].service.addr in s.addrs && s.addrs[s.info[id].service.addr] == id
  {
  }

  lemma UntriedReferenced(p: Placing, s: State, id: int)
    requires Inv(p, s) && id in s.info && !s.info[id].inTried
    ensures s.refs[id] > 0
  {
  }

  /** Only the new id has the new address. */
  lemma OnlyHolder(p: Placing, c: State, r: State, id: int)
    requires InvBut(p, c, {id}) && Inv(p, r) && id in c.info && Subset(r.info, c.info)
    ensures c.info[id].service.addr in r.addrs <==> id in r.info
  {
    var addr := c.info[id].service.addr;
    if addr in r.addrs {
      var k := r.addrs[addr];
      assert k in r.info && r.info[k].service.addr == addr;
      assert k in c.info && c.addrs[c.info[k].service.addr] == k;
    }
  }

  /**
   * What an announcement can do: it never touches the tried table, never loses a known address, and
   * a new address is known afterwards exactly when its slot yields.
   */
  lemma AddEffects(p: Placing, s: State, a: Address, source: NetAddr, penalty: int, now: int, lucky: bool)
    requires Bounded(p) && Inv(p, s)
    ensures var (r, isNew) := Add(p, s, a, source, penalty, now, lucky); var addr := a.service.addr;
      && (isNew <==> a.routable && addr !in s.addrs)
      && r.triedTab == s.triedTab
      && (addr in s.addrs ==> addr in r.addrs && r.addrs[addr] == s.addrs[addr])
    ensures var (r, isNew) := Add(p, s, a, source, penalty, now, lucky);
      var slot := NewSlot(p, a.service, p.newBucket(a.service, source));
      && (slot in s.newTab ==> s.newTab[slot] in s.info && s.newTab[slot] in s.refs)
      && (isNew ==> (a.service.addr in r.addrs <==> SlotYields(s, slot, now)))
  {
    hide InvBut, Insert, IsTerrible, Bounded;
    var addr := a.service.addr;
    var slot := NewSlot(p, a.service, p.newBucket(a.service, source));
    InvParts(p, s, {});
    if a.routable && addr in s.addrs {
      var id := s.addrs[addr];
      FoundId(p, s, addr);
      var i := Refreshed(s.info[id], a, penalty, now);
      var t := s.(info := s.info[id := i]);
      InfoKeepsInv(p, s, id, i, {});
      KnownStays(p, t, id);
      if !(a.time == 0 || (i.time != 0 && a.time <= i.time) || i.inTried || s.refs[id] == MAX_REFS || !lucky) {
        Loosen(p, t, id);
        InsertEffects(p, t, id, source, now);
        UntriedReferenced(p, t, id);
        KnownStays(p, Insert(p, t, id, source, now), id);
      }
    } else if a.routable {
      var i := Info(a.service, a.services, NonNegative(a.time - penalty), source, 0, 0, 0, false);
      CreateKeepsInv(p, s, i, {});
      assert {} + {s.idCount} == {s.idCount};
      var c := Create(s, i);
      InsertEffects(p, c, s.idCount, source, now);
      OnlyHolder(p, c, Insert(p, c, s.idCount, source, now), s.idCount);
    }
  }

  lemma FoundId(p: Placing, s: State, a: NetAddr)
    requires Inv(p, s) && a in s.addrs
    ensures s.addrs[a] in s.info && s.info[s.addrs[a]].service.addr == a && s.addrs[a] in s.refs
    ensures s.refs[s.addrs[a]] <= MAX_REFS
  {
    var id := s.addrs[a];
    assert s.refs[id] == |BucketsOf(s.newTab, id)|;
  }

  lemma Loosen(p: Placing, s: State, id: int)
    requires Inv(p, s)
    ensures InvBut(p, s, {id})
  {
  }

  /** An entry is touched only if address and port are the ones asked for. */
  predicate Knows(s: State, service: Service) {
    service.addr in s.addrs && s.addrs[service.addr] in s.info && s.info[s.addrs[service.addr]].service == service
  }

  /** Good_: the search for a bucket always finds one, so an untried entry always moves. */
  ghost function Good(p: Placing, s: State, service: Service, time: int): (r: State)
    requires Bounded(p) && Inv(p, s)
    ensures Inv(p, r)
    ensures Knows(s, service) ==>
      var id := s.addrs[service.addr];
        id in r.info && r.info[id].inTried && TriedSlot(p, service) in r.triedTab
        && r.triedTab[TriedSlot(p, service)] == id
  {
    if !Knows(s, service) then s
    else
      var id := s.addrs[service.addr];
      var i := s.info[id].(lastSuccess := time, lastTry := time, attempts := 0);
      var t := s.(info := s.info[id := i]);
      InfoKeepsInv(p, s, id, i, {});
      var r := if i.inTried then t else MakeTried(p, t, id);
      InTried(p, r, id);
      r
  }

  lemma InTried(p: Placing, s: State, id: int)
    requires Inv(p, s) && id in s.info && s.info[id].inTried
    ensures TriedSlot(p, s.info[id].service) in s.triedTab && s.triedTab[TriedSlot(p, s.info[id].service)] == id
  {
  }

  /** A bucket that holds the id exists whenever Good_ searches for one. */
  lemma BucketFound(p: Placing, s: State, id: int)
    requires Inv(p, s) && id in s.info && !s.info[id].inTried
    ensures exists b ::
      && 0 <= b < p.newBuckets && NewSlot(p, s.info[id].service, b) in s.newTab
      && s.newTab[NewSlot(p, s.info[id].service, b)] == id
  {
    assert |BucketsOf(s.newTab, id)| > 0;
    var b :| b in BucketsOf(s.newTab, id);
    var slot :| slot in s.newTab && s.newTab[slot] == id && slot.0 == b;
    assert slot == NewSlot(p, s.info[id].service, b);
  }

  /** Attempt_. */
  ghost function Attempt(p: Placing, s: State, service: Service, time: int): (r: State)
    requires Inv(p, s)
    ensures Inv(p, r)
  {
    if !Knows(s, service) then s
    else
      var id := s.addrs[service.addr];
      var i := s.info[id].(lastTry := time, attempts := s.info[id].attempts + 1);
      InfoKeepsInv(p, s, id, i, {});
      s.(info := s.info[id := i])
  }

  /** Connected_. */
  ghost function Connected(p: Placing, s: State, service: Service, time: int): (r: State)
    requires Inv(p, s)
    ensures Inv(p, r)
  {
    if !Knows(s, service) || time - s.info[s.addrs[service.addr]].time <= 20 * 60 then s
    else
      var id := s.addrs[service.addr];
      var i := s.info[id].(time := time);
      InfoKeepsInv(p, s, id, i, {});
      s.(info := s.info[id := i])
  }

  /** The swaps of GetAddr_: position n is swapped with a position from n on. */
  ghost predicate IsDraw(s: State, picks: seq<nat>) {
    |picks| <= |s.random| && forall n :: 0 <= n < |picks| ==> n <= picks[n] < |s.random|
  }

  ghost function Drawn(p: Placing, s: State, picks: seq<nat>): (r: State)
    requires Inv(p, s) && IsDraw(s, picks)
    ensures Inv(p, r) && |r.random| == |s.random| && r == s.(pos := r.pos, random := r.random)
  {
    if picks == [] then s
    else
      var n := |picks| - 1;
      var t := Drawn(p, s, picks[..n]);
      InvParts(p, t, {});
      SwapKeepsInv(p, t, n, picks[n], {});
      SwapRandom(t, n, picks[n])
  }

  // ---------- Whole runs ----------

  datatype Step =
    | DoAdd(a: Address, source: NetAddr, penalty: int, now: int, lucky: bool)
    | DoGood(service: Service, time: int)
    | DoAttempt(service: Service, time: int)
    | DoConnected(service: Service, time: int)
    | DoGetAddr(picks: seq<nat>)

  ghost function Next(p: Placing, s: State, step: Step): (r: State)
    requires Bounded(p) && Inv(p, s)
    ensures Inv(p, r)
  {
    match step
    case DoAdd(a, source, penalty, now, lucky) => Add(p, s, a, source, penalty, now, lucky).0
    case DoGood(service, time) => Good(p, s, service, time)
    case DoAttempt(service, time) => Attempt(p, s, service, time)
    case DoConnected(service, time) => Connected(p, s, service, time)
    case DoGetAddr(picks) => if IsDraw(s, picks) then Drawn(p, s, picks) else s
  }

  ghost function Run(p: Placing, steps: seq<Step>): (r: State)
    requires Bounded(p)
    ensures Inv(p, r)
  {
    if steps == [] then EmptyInv(p); EMPTY
    else Next(p, Run(p, steps[..|steps| - 1]), steps[|steps| - 1])
  }

  lemma EmptyInv(p: Placing)
    ensures Inv(p, EMPTY)
  {
  }
}
