/**
 * The tables of the address manager (src/addrman.h, src/addrman.cpp) as values. Bucket tables
 * hold their occupied slots; reference counts and positions in the random vector are kept in
 * maps of their own. The keyed hashes that place an address are parameters of which only their
 * ranges are known.
 */
module AddrTables {
  import opened Outcomes

  type NetAddr = nat

  /** A network address with a port. */
  datatype Service = Service(addr: NetAddr, port: nat)

  datatype Info = Info(
    service: Service, services: bv64, time: int, source: NetAddr,
    lastTry: int, lastSuccess: int, attempts: int, inTried: bool)

  type Slot = (int, int)

  type Table = map<Slot, int>

  /** Table dimensions, and GetTriedBucket, GetNewBucket and GetBucketPosition for the secret key. */
  datatype Placing = Placing(
    newBuckets: nat, triedBuckets: nat, bucketSize: nat,
    triedBucket: Service -> int, newBucket: (Service, NetAddr) -> int, position: (Service, bool, int) -> int)

  ghost predicate Bounded(p: Placing) {
    && (forall s :: 0 <= p.triedBucket(s) < p.triedBuckets)
    && (forall s, a :: 0 <= p.newBucket(s, a) < p.newBuckets)
    && (forall s, n, b :: 0 <= p.position(s, n, b) < p.bucketSize)
  }

  function TriedSlot(p: Placing, s: Service): Slot {
    var b := p.triedBucket(s);
    (b, p.position(s, false, b))
  }

  /** The only slot of a new bucket in which an address may be. */
  function NewSlot(p: Placing, s: Service, bucket: int): Slot {
    (bucket, p.position(s, true, bucket))
  }

  const MAX_REFS := 8

  datatype State = State(
    idCount: int, info: map<int, Info>, refs: map<int, int>, pos: map<int, int>, addrs: map<NetAddr, int>,
      random: seq<int>,
    triedCount: int, newCount: int, newTab: Table, triedTab: Table)

  const EMPTY := State(0, map[], map[], map[], map[], [], 0, 0, map[], map[])

  // ---------- Consistency ----------

  /** Addresses and ids are each other's inverse. */
  ghost predicate Inverse(info: map<int, Info>, addrs: map<NetAddr, int>) {
    && (forall id :: id in info ==> info[id].service.addr in addrs && addrs[info[id].service.addr] == id)
    && (forall a :: a in addrs ==> addrs[a] in info && info[addrs[a]].service.addr == a)
  }

  /** Every id stands in the random vector at the position it remembers, and nothing else stands there. */
  ghost predicate Shuffled(pos: map<int, int>, random: seq<int>) {
    && (forall id :: id in pos ==> 0 <= pos[id] < |random| && random[pos[id]] == id)
    && (forall i :: 0 <= i < |random| ==> random[i] in pos && pos[random[i]] == i)
  }

  ghost predicate KeysAgree(s: State) {
    s.info.Keys == s.refs.Keys == s.pos.Keys && 0 <= s.idCount && forall id :: id in s.info ==> 0 <= id < s.idCount
  }

  /** Slots of the new table hold untried ids, each where its address belongs in that bucket. */
  ghost predicate NewPlaced(p: Placing, info: map<int, Info>, newTab: Table) {
    forall slot :: slot in newTab ==>
      newTab[slot] in info && !info[newTab[slot]].inTried && 0 <= slot.0 < p.newBuckets
      && slot == NewSlot(p, info[newTab[slot]].service, slot.0)
  }

  /** Slots of the tried table hold exactly the tried ids, each where its address belongs. */
  ghost predicate TriedPlaced(p: Placing, info: map<int, Info>, triedTab: Table) {
    && (forall slot :: slot in triedTab ==>
         triedTab[slot] in info && info[triedTab[slot]].inTried && slot == TriedSlot(p, info[triedTab[slot]].service))
    && (forall id :: id in info && info[id].inTried ==>
         TriedSlot(p, info[id].service) in triedTab && triedTab[TriedSlot(p, info[id].service)] == id)
  }

  /** The buckets of the new table that an id occupies. */
  ghost function BucketsOf(newTab: Table, id: int): (r: set<int>)
    ensures forall b :: b in r <==> exists slot :: slot in newTab && newTab[slot] == id && slot.0 == b
  {
    set slot | slot in newTab && newTab[slot] == id :: slot.0
  }

  /** Reference counts are the numbers of buckets occupied. */
  ghost predicate RefsCount(refs: map<int, int>, newTab: Table) {
    forall id :: id in refs ==> refs[id] == |BucketsOf(newTab, id)| <= MAX_REFS
  }

  /** Ids that are not tried are referenced, except `loose` ones. */
  ghost predicate Referenced(info: map<int, Info>, refs: map<int, int>, loose: set<int>) {
    forall id :: id in info && id in refs && !info[id].inTried && id !in loose ==> refs[id] > 0
  }

  ghost function TriedIds(info: map<int, Info>): set<int> {
    set id | id in info && info[id].inTried
  }

  ghost function NewIds(info: map<int, Info>): set<int> {
    set id | id in info && !info[id].inTried
  }

  ghost predicate Counted(s: State) {
    s.triedCount == |TriedIds(s.info)| && s.newCount == |NewIds(s.info)| && |s.random| == s.triedCount + s.newCount
  }

  /** The structural conditions of Check_, except that ids of `loose` may be in neither table. */
  ghost predicate InvBut(p: Placing, s: State, loose: set<int>) {
    && Inverse(s.info, s.addrs) && Shuffled(s.pos, s.random) && KeysAgree(s)
    && NewPlaced(p, s.info, s.newTab) && TriedPlaced(p, s.info, s.triedTab)
    && RefsCount(s.refs, s.newTab) && Referenced(s.info, s.refs, loose) && Counted(s)
  }

  ghost predicate Inv(p: Placing, s: State) {
    InvBut(p, s, {})
  }

  /** What the operations need to be defined. */
  lemma InvParts(p: Placing, s: State, loose: set<int>)
    requires InvBut(p, s, loose)
    ensures Shuffled(s.pos, s.random) && KeysAgree(s)
    ensures forall id :: id in s.pos ==> 0 <= s.pos[id] < |s.random|
    ensures forall slot :: slot in s.newTab ==> s.newTab[slot] in s.info
  {
  }

  /** Tried ids are in no new bucket. */
  lemma TriedUnreferenced(p: Placing, s: State, id: int, loose: set<int>)
    requires InvBut(p, s, loose) && id in s.info && s.info[id].inTried
    ensures s.refs[id] == 0 && BucketsOf(s.newTab, id) == {}
  {
    assert forall slot :: slot in s.newTab ==> s.newTab[slot] != id;
    assert forall b :: b !in BucketsOf(s.newTab, id);
  }

  // ---------- The random vector ----------

  /** SwapRandom. */
  function SwapRandom(s: State, i: nat, j: nat): State
    requires Shuffled(s.pos, s.random) && i < |s.random| && j < |s.random|
  {
    if i == j then s
    else
      var a, b := s.random[i], s.random[j];
      s.(pos := s.pos[a := j][b := i], random := s.random[i := b][j := a])
  }

  lemma SwapKeepsInv(p: Placing, s: State, i: nat, j: nat, loose: set<int>)
    requires InvBut(p, s, loose) && i < |s.random| && j < |s.random|
    ensures InvBut(p, SwapRandom(s, i, j), loose)
  {
    hide NewPlaced, TriedPlaced, RefsCount, Referenced, Inverse, TriedIds, NewIds;
    if i != j {
      assert s.random[i] != s.random[j];
    }
  }

  // ---------- Deleting an id ----------

  /** Delete: the id moves to the end of the random vector and goes. */
  function Delete(s: State, id: int): State
    requires Shuffled(s.pos, s.random) && id in s.pos && id in s.info
  {
    var t := SwapRandom(s, s.pos[id], |s.random| - 1);
    t.(random := t.random[..|t.random| - 1], pos := t.pos - {id}, addrs := t.addrs - {t.info[id].service.addr},
       info := t.info - {id}, refs := t.refs - {id}, newCount := t.newCount - 1)
  }

  ghost function Dropped(s: State, id: int): State
    requires |s.random| > 0 && id in s.info
  {
    s.(random := s.random[..|s.random| - 1], pos := s.pos - {id}, addrs := s.addrs - {s.info[id].service.addr},
       info := s.info - {id}, refs := s.refs - {id}, newCount := s.newCount - 1)
  }

  lemma DropPlaced(p: Placing, info: map<int, Info>, newTab: Table, triedTab: Table, id: int)
    requires NewPlaced(p, info, newTab) && TriedPlaced(p, info, triedTab) && id in info && !info[id].inTried
    requires BucketsOf(newTab, id) == {}
    ensures NewPlaced(p, info - {id}, newTab) && TriedPlaced(p, info - {id}, triedTab)
  {
    forall slot | slot in newTab
      ensures newTab[slot] != id
    {
      assert newTab[slot] == id ==> slot.0 in BucketsOf(newTab, id);
    }
  }

  lemma DropShuffled(pos: map<int, int>, random: seq<int>, id: int)
    requires Shuffled(pos, random) && id in pos && pos[id] == |random| - 1
    ensures Shuffled(pos - {id}, random[..|random| - 1])
  {
  }

  lemma DropInverse(info: map<int, Info>, addrs: map<NetAddr, int>, id: int)
    requires Inverse(info, addrs) && id in info
    ensures Inverse(info - {id}, addrs - {info[id].service.addr})
  {
  }

  lemma DropCounts(info: map<int, Info>, id: int)
    requires id in info && !info[id].inTried
    ensures |NewIds(info - {id})| == |NewIds(info)| - 1 && TriedIds(info - {id}) == TriedIds(info)
  {
    assert NewIds(info - {id}) == NewIds(info) - {id};
  }

  lemma NoneHeld(refs: map<int, int>, newTab: Table, id: int)
    requires RefsCount(refs, newTab) && id in refs && refs[id] == 0
    ensures BucketsOf(newTab, id) == {}
  {
  }

  lemma DropRefs(info: map<int, Info>, refs: map<int, int>, newTab: Table, id: int, loose: set<int>)
    requires RefsCount(refs, newTab) && info.Keys == refs.Keys && Referenced(info, refs, loose)
    ensures RefsCount(refs - {id}, newTab) && Referenced(info - {id}, refs - {id}, loose - {id})
  {
  }

  lemma DropKeys(s: State, id: int)
    requires KeysAgree(s) && id in s.info && |s.random| > 0
    ensures KeysAgree(Dropped(s, id))
  {
    var t := Dropped(s, id);
    assert t.info.Keys == s.info.Keys - {id} && t.refs.Keys == s.refs.Keys - {id} && t.pos.Keys == s.pos.Keys - {id};
  }

  /** Dropping the last id of the random vector. */
  lemma DropLast(p: Placing, s: State, id: int, loose: set<int>)
    requires InvBut(p, s, loose) && id in s.info && !s.info[id].inTried && s.refs[id] == 0
    requires s.pos[id] == |s.random| - 1
    ensures InvBut(p, Dropped(s, id), loose - {id})
  {
    InvParts(p, s, loose);
    hide NewPlaced, TriedPlaced, Shuffled, Inverse, NewIds, TriedIds, RefsCount, Referenced, BucketsOf;
    DropKeys(s, id);
    NoneHeld(s.refs, s.newTab, id);
    DropRefs(s.info, s.refs, s.newTab, id, loose);
    hide KeysAgree;
    DropPlaced(p, s.info, s.newTab, s.triedTab, id);
    DropShuffled(s.pos, s.random, id);
    DropInverse(s.info, s.addrs, id);
    DropCounts(s.info, id);
  }

  lemma SwapToEnd(s: State, id: int)
    requires Shuffled(s.pos, s.random) && id in s.pos
    ensures var t := SwapRandom(s, s.pos[id], |s.random| - 1); t.pos[id] == |t.random| - 1 && |t.random| == |s.random|
  {
  }

  lemma DeleteKeepsInv(p: Placing, s: State, id: int, loose: set<int>)
    requires InvBut(p, s, loose) && id in s.info && !s.info[id].inTried && s.refs[id] == 0
    ensures InvBut(p, Delete(s, id), loose - {id})
  {
    hide InvBut, Inverse, NewPlaced, TriedPlaced, RefsCount, Referenced, Counted, Shuffled;
    InvParts(p, s, loose);
    SwapToEnd(s, id);
    SwapKeepsInv(p, s, s.pos[id], |s.random| - 1, loose);
    DropLast(p, SwapRandom(s, s.pos[id], |s.random| - 1), id, loose);
  }

  // ---------- Slots of the new table ----------

  /** The buckets of an id when a slot of the table is emptied. */
  lemma BucketsWithout(p: Placing, info: map<int, Info>, newTab: Table, slot: Slot, id: int)
    requires NewPlaced(p, info, newTab) && slot in newTab
    ensures BucketsOf(newTab - {slot}, id) ==
      if newTab[slot] == id then BucketsOf(newTab, id) - {slot.0} else BucketsOf(newTab, id)
    ensures newTab[slot] == id ==> slot.0 in BucketsOf(newTab, id)
  {
    var t := newTab - {slot};
    forall b
      ensures b in BucketsOf(t, id) <==> b in BucketsOf(newTab, id) && (newTab[slot] == id ==> b != slot.0)
    {
      if b in BucketsOf(newTab, id) && (newTab[slot] == id ==> b != slot.0) {
        var other :| other in newTab && newTab[other] == id && other.0 == b;
        assert other in t && t[other] == id;
      }
    }
  }

  /** The buckets of an id when a free slot is filled. */
  lemma BucketsWith(newTab: Table, slot: Slot, filled: int, id: int)
    requires slot !in newTab
    ensures BucketsOf(newTab[slot := filled], id) ==
      if filled == id then BucketsOf(newTab, id) + {slot.0} else BucketsOf(newTab, id)
  {
    var t := newTab[slot := filled];
    forall b
      ensures b in BucketsOf(t, id) <==> b in BucketsOf(newTab, id) || (filled == id && b == slot.0)
    {
      if b in BucketsOf(newTab, id) {
        var other :| other in newTab && newTab[other] == id && other.0 == b;
        assert other in t && t[other] == id;
      }
      if filled == id && b == slot.0 {
        assert slot in t && t[slot] == id;
      }
    }
  }

  /** One reference of an id is taken out of the new table. */
  function Unref(s: State, slot: Slot): State
    requires slot in s.newTab && s.newTab[slot] in s.refs
  {
    var id := s.newTab[slot];
    s.(refs := s.refs[id := s.refs[id] - 1], newTab := s.newTab - {slot})
  }

  lemma UnrefCounts(p: Placing, s: State, slot: Slot)
    requires NewPlaced(p, s.info, s.newTab) && RefsCount(s.refs, s.newTab) && slot in s.newTab
    requires s.newTab[slot] in s.refs
    ensures RefsCount(Unref(s, slot).refs, Unref(s, slot).newTab) && s.refs[s.newTab[slot]] > 0
  {
    var t := Unref(s, slot);
    BucketsWithout(p, s.info, s.newTab, slot, s.newTab[slot]);
    forall id | id in t.refs
      ensures t.refs[id] == |BucketsOf(t.newTab, id)| <= MAX_REFS
    {
      BucketsWithout(p, s.info, s.newTab, slot, id);
    }
  }

  lemma UnrefKeepsInv(p: Placing, s: State, slot: Slot, loose: set<int>)
    requires InvBut(p, s, loose) && slot in s.newTab
    ensures s.newTab[slot] in s.info && !s.info[s.newTab[slot]].inTried && s.refs[s.newTab[slot]] > 0
    ensures var t := Unref(s, slot);
      InvBut(p, t, loose + {s.newTab[slot]}) && (t.refs[s.newTab[slot]] > 0 ==> InvBut(p, t, loose))
  {
    UnrefCounts(p, s, slot);
    hide RefsCount, Inverse, Shuffled, TriedPlaced;
  }

  /** ClearNew. */
  function ClearNew(s: State, slot: Slot): State
    requires Shuffled(s.pos, s.random) && KeysAgree(s) && forall x :: x in s.newTab ==> s.newTab[x] in s.info
  {
    if slot !in s.newTab then s
    else
      var t := Unref(s, slot);
      if t.refs[s.newTab[slot]] == 0 then Delete(t, s.newTab[slot]) else t
  }

  /** What Delete leaves of the other ids. */
  lemma DeleteFrame(s: State, id: int)
    requires Shuffled(s.pos, s.random) && id in s.pos && id in s.info
    ensures var t := Delete(s, id);
      t.info == s.info - {id} && t.refs == s.refs - {id} && t.newTab == s.newTab && t.triedTab == s.triedTab
  {
  }

  lemma ClearNewKeepsInv(p: Placing, s: State, slot: Slot, loose: set<int>)
    requires InvBut(p, s, loose) && (slot in s.newTab ==> s.newTab[slot] !in loose)
    ensures InvBut(p, ClearNew(s, slot), loose)
  {
    if slot in s.newTab {
      var id := s.newTab[slot];
      UnrefKeepsInv(p, s, slot, loose);
      var t := Unref(s, slot);
      if t.refs[id] == 0 {
        assert loose + {id} - {id} == loose;
        hide InvBut, Inverse, NewPlaced, TriedPlaced, RefsCount, Referenced, Counted, Delete;
        DeleteKeepsInv(p, t, id, loose + {id});
      }
    }
  }

  /** What ClearNew leaves of the ids that are not in the slot. */
  lemma ClearNewFrame(s: State, slot: Slot, id: int)
    requires Shuffled(s.pos, s.random) && KeysAgree(s) && forall x :: x in s.newTab ==> s.newTab[x] in s.info
    requires id in s.info && (slot in s.newTab ==> s.newTab[slot] != id)
    ensures var t := ClearNew(s, slot);
      && t.newTab == s.newTab - {slot} && t.triedTab == s.triedTab
      && id in t.info && t.info[id] == s.info[id] && id in t.refs && t.refs[id] == s.refs[id]
  {
    if slot in s.newTab {
      DeleteFrame(Unref(s, slot), s.newTab[slot]);
    } else {
      assert s.newTab - {slot} == s.newTab;
    }
  }

  /** An id gets one more reference. */
  function Ref(s: State, id: int, slot: Slot): State
    requires id in s.refs
  {
    s.(refs := s.refs[id := s.refs[id] + 1], newTab := s.newTab[slot := id])
  }

  lemma RefCounts(p: Placing, s: State, id: int, slot: Slot)
    requires NewPlaced(p, s.info, s.newTab) && RefsCount(s.refs, s.newTab) && id in s.refs && id in s.info
    requires slot !in s.newTab && slot == NewSlot(p, s.info[id].service, slot.0) && s.refs[id] < MAX_REFS
    ensures RefsCount(Ref(s, id, slot).refs, Ref(s, id, slot).newTab)
  {
    var t := Ref(s, id, slot);
    assert slot.0 !in BucketsOf(s.newTab, id);
    forall other | other in t.refs
      ensures t.refs[other] == |BucketsOf(t.newTab, other)| <= MAX_REFS
    {
      BucketsWith(s.newTab, slot, id, other);
    }
  }

  lemma RefKeepsInv(p: Placing, s: State, id: int, slot: Slot, loose: set<int>)
    requires InvBut(p, s, loose) && id in s.info && !s.info[id].inTried && s.refs[id] < MAX_REFS
    requires slot !in s.newTab && slot == NewSlot(p, s.info[id].service, slot.0) && 0 <= slot.0 < p.newBuckets
    ensures InvBut(p, Ref(s, id, slot), loose - {id})
  {
    RefCounts(p, s, id, slot);
    hide RefsCount, Inverse, Shuffled, TriedPlaced;
    assert |BucketsOf(s.newTab, id)| >= 0;
    assert Referenced(s.info, Ref(s, id, slot).refs, loose - {id}) by {
      RefsNonNegative(p, s, id, loose);
    }
  }

  lemma RefsNonNegative(p: Placing, s: State, id: int, loose: set<int>)
    requires InvBut(p, s, loose) && id in s.info
    ensures s.refs[id] >= 0
  {
  }
}
