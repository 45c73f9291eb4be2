/** CAddrMan as the node holds it: records by id, and bucket tables in arrays, changed in place. */
module AddrMan {
  import opened Outcomes
  import opened Powers
  import opened AddrTables
  import opened AddrOps
  import opened R = AddrRuns

  /** An entry with what the class keeps inside it. */
  datatype AddrInfo = AddrInfo(info: Info, refCount: int, randomPos: int)

  type Records = map<int, AddrInfo>

  ghost function Infos(m: Records): map<int, Info> {
    map id | id in m :: m[id].info
  }

  ghost function Refs(m: Records): map<int, int> {
    map id | id in m :: m[id].refCount
  }

  ghost function Positions(m: Records): map<int, int> {
    map id | id in m :: m[id].randomPos
  }

  lemma RecordChanged(m: Records, id: int, r: AddrInfo)
    ensures Infos(m[id := r]) == Infos(m)[id := r.info]
    ensures Refs(m[id := r]) == Refs(m)[id := r.refCount]
    ensures Positions(m[id := r]) == Positions(m)[id := r.randomPos]
  {
  }

  /** Writing back a part that stays the same changes nothing. */
  lemma RecordKept(m: Records, id: int)
    requires id in m
    ensures Infos(m)[id := m[id].info] == Infos(m) && Refs(m)[id := m[id].refCount] == Refs(m)
    ensures Positions(m)[id := m[id].randomPos] == Positions(m)
  {
  }

  lemma RecordRemoved(m: Records, id: int)
    ensures Infos(m - {id}) == Infos(m) - {id} && Refs(m - {id}) == Refs(m) - {id}
    ensures Positions(m - {id}) == Positions(m) - {id}
  {
  }

  lemma RecordOf(m: Records, id: int)
    requires id in m
    ensures id in Infos(m) && Infos(m)[id] == m[id].info && id in Refs(m) && Refs(m)[id] == m[id].refCount
    ensures id in Positions(m) && Positions(m)[id] == m[id].randomPos
  {
  }

  lemma RecordIn(m: Records, id: int)
    requires id in Infos(m)
    ensures id in m && id in Refs(m) && Infos(m)[id] == m[id].info && Refs(m)[id] == m[id].refCount
  {
  }

  /** What ClearNew needs to be defined. */
  ghost predicate Workable(s: State) {
    Shuffled(s.pos, s.random) && KeysAgree(s) && forall x :: x in s.newTab ==> s.newTab[x] in s.info
  }

  /** Two records exchange their positions in the random vector. */
  lemma SwapRecords(m: Records, random: seq<int>, i: nat, j: nat)
    requires Shuffled(Positions(m), random) && i < |random| && j < |random| && i != j
    ensures random[i] in m && random[j] in m && random[i] != random[j]
    ensures var a, b := random[i], random[j]; var m' := m[a := m[a].(randomPos := j)][b := m[b].(randomPos := i)];
      Infos(m') == Infos(m) && Refs(m') == Refs(m) && Positions(m') == Positions(m)[a := j][b := i]
  {
    assert random[i] in Positions(m) && random[j] in Positions(m);
    assert Positions(m)[random[i]] == i && Positions(m)[random[j]] == j;
  }

  /** The occupied slots of a bucket array; -1 marks a free one. */
  ghost function TableOf(a: array2<int>): (t: Table)
    reads a
    ensures forall b, i :: (b, i) in t <==> 0 <= b < a.Length0 && 0 <= i < a.Length1 && a[b, i] != -1
    ensures forall b, i :: (b, i) in t ==> t[(b, i)] == a[b, i]
  {
    map b: int, i: int | 0 <= b < a.Length0 && 0 <= i < a.Length1 && a[b, i] != -1 :: (b, i) := a[b, i]
  }

  method SetSlot(a: array2<int>, slot: Slot, id: int)
    requires 0 <= slot.0 < a.Length0 && 0 <= slot.1 < a.Length1
    modifies a
    ensures TableOf(a) == if id == -1 then old(TableOf(a)) - {slot} else old(TableOf(a))[slot := id]
  {
    a[slot.0, slot.1] := id;
    ghost var want := if id == -1 then old(TableOf(a)) - {slot} else old(TableOf(a))[slot := id];
    forall x
      ensures x in TableOf(a) <==> x in want
      ensures x in TableOf(a) && x in want ==> TableOf(a)[x] == want[x]
    {
      assert x == (x.0, x.1);
    }
    assert TableOf(a).Keys == want.Keys;
  }

  lemma RecordInRefs(m: Records, id: int)
    requires id in Refs(m)
    ensures id in m && Refs(m)[id] == m[id].refCount
  {
  }

  /** No id is mistaken for a free slot. */
  lemma IdNonNegative(p: Placing, s: State, id: int, loose: set<int>)
    requires InvBut(p, s, loose) && id in s.info
    ensures id >= 0
  {
  }

  lemma PlacedInRange(p: Placing, service: Service, b: int)
    requires Bounded(p)
    ensures NewSlot(p, service, b).0 == b && 0 <= NewSlot(p, service, b).1 < p.bucketSize
  {
  }

  lemma TriedInRange(p: Placing, service: Service)
    requires Bounded(p)
    ensures 0 <= TriedSlot(p, service).0 < p.triedBuckets && 0 <= TriedSlot(p, service).1 < p.bucketSize
  {
  }

  /** The new table when an id has left its buckets below `b`. */
  ghost function ForgetBelow(tab: Table, id: int, b: int): Table {
    map slot | slot in tab && !(tab[slot] == id && slot.0 < b) :: tab[slot]
  }

  /** The state when the first loop of MakeTried is at bucket `b`. */
  ghost predicate Forgotten(p: Placing, s: State, id: int, b: int, t: State) {
    && InvBut(p, t, {id}) && id in s.refs && id in t.refs && id in t.info
    && t == s.(newTab := ForgetBelow(s.newTab, id, b), refs := s.refs[id := t.refs[id]])
  }

  lemma ForgetStarts(p: Placing, s: State, id: int)
    requires Inv(p, s) && id in s.info
    ensures Forgotten(p, s, id, 0, s)
  {
    assert ForgetBelow(s.newTab, id, 0) == s.newTab;
    assert s.refs[id := s.refs[id]] == s.refs;
    Loosen(p, s, id);
  }

  lemma ForgetBelowNext(p: Placing, s: State, id: int, b: int)
    requires Inv(p, s) && id in s.info
    ensures var slot, tab := NewSlot(p, s.info[id].service, b), ForgetBelow(s.newTab, id, b);
      ForgetBelow(s.newTab, id, b + 1) == if slot in tab && tab[slot] == id then tab - {slot} else tab
  {
    OnlyOwnSlot(p, s, id, b);
    hide InvBut;
    var slot, tab := NewSlot(p, s.info[id].service, b), ForgetBelow(s.newTab, id, b);
    var next := ForgetBelow(s.newTab, id, b + 1);
    var want := if slot in tab && tab[slot] == id then tab - {slot} else tab;
    assert next.Keys == want.Keys;
  }

  /** One bucket: the id is there only in its own slot. */
  lemma ForgetNext(p: Placing, s: State, id: int, b: int, t: State)
    requires Inv(p, s) && id in s.info && 0 <= b < p.newBuckets && Forgotten(p, s, id, b, t)
    ensures t.info == s.info && id >= 0
    ensures var slot := NewSlot(p, s.info[id].service, b);
      if slot in t.newTab && t.newTab[slot] == id
      then Forgotten(p, s, id, b + 1, t.(newTab := t.newTab - {slot}, refs := t.refs[id := t.refs[id] - 1]))
      else Forgotten(p, s, id, b + 1, t)
  {
    hide InvBut, ForgetBelow;
    IdNonNegative(p, s, id, {});
    var slot := NewSlot(p, s.info[id].service, b);
    ForgetBelowNext(p, s, id, b);
    if slot in t.newTab && t.newTab[slot] == id {
      assert {id} + {id} == {id};
      UnrefKeepsInv(p, t, slot, {id});
      assert s.refs[id := t.refs[id]][id := t.refs[id] - 1] == s.refs[id := t.refs[id] - 1];
    }
  }

  lemma OnlyOwnSlot(p: Placing, s: State, id: int, b: int)
    requires Inv(p, s) && id in s.info
    ensures forall slot :: slot in s.newTab && s.newTab[slot] == id && slot.0 == b ==>
      slot == NewSlot(p, s.info[id].service, b)
  {
  }

  lemma ForgetEnds(p: Placing, s: State, id: int, t: State)
    requires Inv(p, s) && id in s.info && Forgotten(p, s, id, p.newBuckets, t)
    ensures t == Forget(s, id)
  {
    assert t.newTab == Forget(s, id).newTab;
    ForgetBuckets(s.newTab, id, id);
    assert t.refs[id] == |BucketsOf(t.newTab, id)|;
  }

  lemma EmptyTable(a: array2<int>)
    requires forall b, i :: 0 <= b < a.Length0 && 0 <= i < a.Length1 ==> a[b, i] == -1
    ensures TableOf(a) == map[]
  {
    forall x
      ensures x !in TableOf(a)
    {
      assert x == (x.0, x.1);
    }
  }

  /** Bucket `b` of the new table holds the id. */
  ghost predicate Holds(p: Placing, s: State, service: Service, id: int, b: int) {
    NewSlot(p, service, b) in s.newTab && s.newTab[NewSlot(p, service, b)] == id
  }

  /** The k-th bucket in a round through all of them from a random one. */
  function Around(k: int, start: int, n: nat): int
    requires n > 0
  {
    (k + start) % n
  }

  /** The round passes every bucket. */
  lemma PassesAll(b: int, start: int, n: nat)
    requires 0 <= b < n && 0 <= start < n
    ensures exists k :: 0 <= k < n && Around(k, start, n) == b
  {
    if b >= start {
      DivUnique(b, 0, b, n);
      assert Around(b - start, start, n) == b;
    } else {
      DivUnique(b + n, 1, b, n);
      assert Around(b - start + n, start, n) == b;
    }
  }

  lemma AroundInRange(k: int, start: int, n: nat)
    requires n > 0
    ensures 0 <= Around(k, start, n) < n
  {
  }

  lemma NotMissed(p: Placing, s: State, id: int, start: nat)
    requires Inv(p, s) && id in s.info && !s.info[id].inTried && start < p.newBuckets
    ensures exists k :: 0 <= k < p.newBuckets && Holds(p, s, s.info[id].service, id, Around(k, start, p.newBuckets))
  {
    BucketFound(p, s, id);
    var b :| 0 <= b < p.newBuckets && NewSlot(p, s.info[id].service, b) in s.newTab
      && s.newTab[NewSlot(p, s.info[id].service, b)] == id;
    PassesAll(b, start, p.newBuckets);
    var k :| 0 <= k < p.newBuckets && Around(k, start, p.newBuckets) == b;
    assert Holds(p, s, s.info[id].service, id, Around(k, start, p.newBuckets));
  }

  lemma SourceInRange(p: Placing, service: Service, source: NetAddr)
    requires Bounded(p)
    ensures var b := p.newBucket(service, source);
      0 <= b < p.newBuckets && NewSlot(p, service, b).0 == b && 0 <= NewSlot(p, service, b).1 < p.bucketSize
  {
  }

  lemma RefreshedPlace(i: Info, a: Address, penalty: int, now: int)
    ensures SamePlace(i, Refreshed(i, a, penalty, now))
  {
  }

  lemma InRandom(p: Placing, s: State, k: nat)
    requires Inv(p, s) && k < |s.random|
    ensures s.random[k] in s.info
  {
    assert s.random[k] in s.pos;
  }

  /** One more draw is one more swap. */
  lemma DrawNext(p: Placing, s: State, draws: seq<nat>, k: nat)
    requires Inv(p, s) && IsDraw(s, draws) && k < |draws|
    ensures k <= draws[k] < |s.random|
    ensures IsDraw(s, draws[..k]) && IsDraw(s, draws[..k + 1])
    ensures var t := Drawn(p, s, draws[..k]);
      && Shuffled(t.pos, t.random) && draws[k] < |t.random| && k < |t.random|
      && Drawn(p, s, draws[..k + 1]) == AddrTables.SwapRandom(t, k, draws[k])
  {
    hide InvBut;
    assert draws[..k + 1][..k] == draws[..k] && draws[..k + 1][k] == draws[k];
    InvParts(p, Drawn(p, s, draws[..k]), {});
  }

  /** The entries of these ids that are not terrible, in order. */
  ghost function Listed(info: map<int, Info>, ids: seq<int>, now: int): (list: seq<Info>)
    ensures |list| <= |ids| && forall n :: 0 <= n < |list| ==> !IsTerrible(list[n], now)
  {
    if ids == [] then []
    else
      var id := ids[|ids| - 1];
      Listed(info, ids[..|ids| - 1], now) + if id in info && !IsTerrible(info[id], now) then [info[id]] else []
  }

  lemma ListedNext(info: map<int, Info>, ids: seq<int>, id: int, now: int)
    requires id in info
    ensures Listed(info, ids + [id], now) == Listed(info, ids, now) +
      if IsTerrible(info[id], now) then [] else [info[id]]
  {
    assert (ids + [id])[..|ids|] == ids;
  }

  /** How many addresses GetAddr_ may return: 23 percent, and at most 2500. */
  function MaxListed(n: nat): (r: nat)
    ensures r <= 2500 && 100 * r <= 23 * n && (r == 2500 || 100 * (r + 1) > 23 * n)
  {
    var nodes := 23 * n / 100;
    if nodes > 2500 then 2500 else nodes
  }

  /** Of the entries of these ids none that is not terrible is left out. */
  lemma {:induction false} ListedAll(info: map<int, Info>, ids: seq<int>, now: int, id: int)
    requires id in ids && id in info && !IsTerrible(info[id], now)
    ensures info[id] in Listed(info, ids, now)
  {
    var n := |ids| - 1;
    if ids[n] != id {
      ListedAll(info, ids[..n], now, id);
    }
  }

  /** Where all of the random order was drawn, every entry that is not terrible is listed. */
  lemma {:induction false} AllListed(p: Placing, s: State, now: int)
    requires Inv(p, s)
    ensures forall id :: id in s.info && !IsTerrible(s.info[id], now) ==> s.info[id] in Listed(s.info, s.random, now)
  {
    forall id | id in s.info && !IsTerrible(s.info[id], now)
      ensures s.info[id] in Listed(s.info, s.random, now)
    {
      assert id in s.pos && s.random[s.pos[id]] == id;
      ListedAll(s.info, s.random, now, id);
    }
  }

  lemma DrawStart(p: Placing, s: State, draws: seq<nat>)
    requires Inv(p, s) && IsDraw(s, draws)
    ensures IsDraw(s, draws[..0]) && Drawn(p, s, draws[..0]) == s
  {
    assert draws[..0] == [];
  }

  // ---------- Clear ----------

  /** What Clear leaves of a state. */
  function Cleared(s: State): State {
    EMPTY.(info := s.info, refs := s.refs, pos := s.pos, addrs := s.addrs)
  }

  /** Clearing gives a consistent manager, under any key, if and only if both maps were empty. */
  lemma ClearedConsistent(q: Placing, s: State)
    requires s.info.Keys == s.refs.Keys == s.pos.Keys
    ensures Inv(q, Cleared(s)) <==> s.info == map[] && s.addrs == map[]
  {
    hide InvBut, Shuffled, Inverse;
    if s.info == map[] && s.addrs == map[] {
      NoKeys(s.refs);
      NoKeys(s.pos);
      EmptyInv(q);
    }
    if Inv(q, Cleared(s)) {
      OrderAndInverse(q, Cleared(s));
      NothingOrdered(s.pos);
      NoKeys(s.info);
      NothingFound(s.addrs);
    }
  }

  lemma NoKeys<V>(m: map<int, V>)
    ensures m.Keys == {} <==> m == map[]
  {
  }

  lemma OrderAndInverse(q: Placing, s: State)
    requires Inv(q, s)
    ensures Shuffled(s.pos, s.random) && Inverse(s.info, s.addrs)
  {
  }

  lemma NothingOrdered(pos: map<int, int>)
    requires Shuffled(pos, [])
    ensures pos.Keys == {}
  {
    assert forall id :: id !in pos;
  }

  lemma NothingFound(addrs: map<NetAddr, int>)
    requires Inverse(map[], addrs)
    ensures addrs == map[]
  {
    assert forall a :: a !in addrs;
  }

  /** A manager with one entry is not consistent after Clear. */
  lemma ClearedUsedFails(q: Placing, i: Info)
    ensures !Inv(q, Cleared(AddrOps.Create(EMPTY, i)))
  {
    var s := AddrOps.Create(EMPTY, i);
    assert 0 in s.info;
    ClearedConsistent(q, s);
  }

  lemma RecordsEmpty(m: Records)
    ensures Infos(m) == map[] <==> m == map[]
    ensures Infos(m).Keys == Refs(m).Keys == Positions(m).Keys
  {
    assert Infos(m).Keys == m.Keys;
  }

  method ClearTable(a: array2<int>)
    modifies a
    ensures TableOf(a) == map[]
  {
    for b := 0 to a.Length0
      invariant forall c, i :: 0 <= c < b && 0 <= i < a.Length1 ==> a[c, i] == -1
    {
      for i := 0 to a.Length1
        invariant forall c, j :: 0 <= c < b && 0 <= j < a.Length1 ==> a[c, j] == -1
        invariant forall j :: 0 <= j < i ==> a[b, j] == -1
      {
        a[b, i] := -1;
      }
    }
    EmptyTable(a);
  }

  class AddrMan {
    const p: Placing
    const vvNew: array2<int>
    const vvTried: array2<int>
    var nIdCount: int
    var mapInfo: Records
    var mapAddr: map<NetAddr, int>
    var vRandom: seq<int>
    var nTried: int
    var nNew: int

    ghost predicate Shape() {
      && vvNew != vvTried && Bounded(p)
      && vvNew.Length0 == p.newBuckets && vvTried.Length0 == p.triedBuckets
      && vvNew.Length1 == vvTried.Length1 == p.bucketSize
    }

    ghost function Abs(): State
      reads this, vvNew, vvTried
    {
      State(nIdCount, Infos(mapInfo), Refs(mapInfo), Positions(mapInfo), mapAddr, vRandom, nTried, nNew,
        TableOf(vvNew), TableOf(vvTried))
    }

    method SwapRandom(i: nat, j: nat)
      requires Shape() && Shuffled(Abs().pos, Abs().random) && i < |vRandom| && j < |vRandom|
      modifies this`mapInfo, this`vRandom
      ensures Abs() == AddrTables.SwapRandom(old(Abs()), i, j)
    {
      hide Shuffled, TableOf, Infos, Refs, Positions;
      if i == j {
        return;
      }
      var id1, id2 := vRandom[i], vRandom[j];
      SwapRecords(mapInfo, vRandom, i, j);
      mapInfo := mapInfo[id1 := mapInfo[id1].(randomPos := j)];
      mapInfo := mapInfo[id2 := mapInfo[id2].(randomPos := i)];
      vRandom := vRandom[i := id2][j := id1];
    }

    method Delete(id: int, ghost loose: set<int>)
      requires Shape() && InvBut(p, Abs(), loose) && id in mapInfo && !mapInfo[id].info.inTried
      requires mapInfo[id].refCount == 0
      modifies this`mapInfo, this`vRandom, this`mapAddr, this`nNew
      ensures Abs() == AddrTables.Delete(old(Abs()), id) && InvBut(p, Abs(), loose - {id})
    {
      hide InvBut, Inverse, Shuffled, NewPlaced, TriedPlaced, RefsCount, Referenced, Counted, KeysAgree, TableOf, Infos;
      hide Refs, Positions;
      RecordOf(mapInfo, id);
      DeleteKeepsInv(p, Abs(), id, loose);
      InvParts(p, Abs(), loose);
      var i := mapInfo[id].info;
      SwapRandom(mapInfo[id].randomPos, |vRandom| - 1);
      vRandom := vRandom[..|vRandom| - 1];
      mapAddr := mapAddr - {i.service.addr};
      RecordRemoved(mapInfo, id);
      mapInfo := mapInfo - {id};
      nNew := nNew - 1;
    }

    method PutInfo(id: int, i: Info)
      requires id in mapInfo
      modifies this`mapInfo
      ensures Abs() == old(Abs()).(info := old(Abs()).info[id := i]) && mapInfo.Keys == old(mapInfo.Keys)
    {
      hide TableOf, Infos, Refs, Positions;
      RecordChanged(mapInfo, id, mapInfo[id].(info := i));
      RecordKept(mapInfo, id);
      mapInfo := mapInfo[id := mapInfo[id].(info := i)];
    }

    method PutRefs(id: int, n: int)
      requires id in mapInfo
      modifies this`mapInfo
      ensures Abs() == old(Abs()).(refs := old(Abs()).refs[id := n]) && mapInfo.Keys == old(mapInfo.Keys)
      ensures mapInfo[id].info == old(mapInfo[id].info) && mapInfo[id].refCount == n
    {
      hide TableOf, Infos, Refs, Positions;
      RecordChanged(mapInfo, id, mapInfo[id].(refCount := n));
      RecordKept(mapInfo, id);
      mapInfo := mapInfo[id := mapInfo[id].(refCount := n)];
    }

    ghost predicate InNewRange(slot: Slot) {
      0 <= slot.0 < p.newBuckets && 0 <= slot.1 < p.bucketSize
    }

    /** The id in a slot of the new table, or -1. */
    method NewAt(slot: Slot) returns (id: int)
      requires Shape() && InNewRange(slot)
      ensures if slot in Abs().newTab then id == Abs().newTab[slot] && id != -1 else id == -1
    {
      id := vvNew[slot.0, slot.1];
      assert slot == (slot.0, slot.1);
    }

    method ClearNew(slot: Slot, ghost loose: set<int>)
      requires Shape() && InNewRange(slot) && InvBut(p, Abs(), loose)
      requires slot in Abs().newTab ==> Abs().newTab[slot] !in loose
      modifies this`mapInfo, this`vRandom, this`mapAddr, this`nNew, vvNew
      ensures InvBut(p, Abs(), loose)
      ensures Workable(old(Abs())) && Abs() == AddrTables.ClearNew(old(Abs()), slot)
    {
      hide InvBut, Inverse, Shuffled, NewPlaced, TriedPlaced, RefsCount, Referenced, Counted, KeysAgree, TableOf, Infos;
      hide Refs, Positions, Bounded;
      ghost var s := Abs();
      InvParts(p, s, loose);
      ClearNewKeepsInv(p, s, slot, loose);
      var id := NewAt(slot);
      if id != -1 {
        UnrefKeepsInv(p, s, slot, loose);
        RecordIn(mapInfo, id);
        PutRefs(id, mapInfo[id].refCount - 1);
        SetSlot(vvNew, slot, -1);
        assert Abs() == Unref(s, slot);
        if mapInfo[id].refCount == 0 {
          Delete(id, loose + {id});
        }
      }
    }

    /** The first loop of MakeTried. */
    method ForgetNew(id: int)
      requires Shape() && Inv(p, Abs()) && id in mapInfo && !mapInfo[id].info.inTried
      modifies this`mapInfo, vvNew
      ensures Abs() == Forget(old(Abs()), id) && InvBut(p, Abs(), {id})
    {
      hide InvBut, Inverse, Shuffled, NewPlaced, TriedPlaced, RefsCount, Referenced, Counted, KeysAgree, TableOf, Infos;
      hide Refs, Positions, Bounded;
      ghost var s := Abs();
      var service := mapInfo[id].info.service;
      RecordOf(mapInfo, id);
      ForgetStarts(p, s, id);
      for b := 0 to p.newBuckets
        invariant Forgotten(p, s, id, b, Abs())
      {
        ForgetNext(p, s, id, b, Abs());
        PlacedInRange(p, service, b);
        var slot := NewSlot(p, service, b);
        var at := NewAt(slot);
        if at == id {
          RecordIn(mapInfo, id);
          PutRefs(id, mapInfo[id].refCount - 1);
          SetSlot(vvNew, slot, -1);
        }
      }
      ForgetEnds(p, s, id, Abs());
    }

    /** A reference is added. */
    method AddRef(id: int, slot: Slot)
      requires Shape() && InNewRange(slot) && id in mapInfo && id >= 0
      modifies this`mapInfo, vvNew
      ensures id in old(Abs()).refs && Abs() == Ref(old(Abs()), id, slot)
    {
      hide TableOf, Infos, Refs, Positions, Bounded;
      RecordOf(mapInfo, id);
      PutRefs(id, mapInfo[id].refCount + 1);
      SetSlot(vvNew, slot, id);
    }

    ghost predicate InTriedRange(slot: Slot) {
      0 <= slot.0 < p.triedBuckets && 0 <= slot.1 < p.bucketSize
    }

    method LeaveTried(id: int, slot: Slot)
      requires Shape() && InTriedRange(slot) && id in mapInfo
      modifies this`mapInfo, this`nNew, this`nTried, vvTried
      ensures id in old(Abs()).info && Abs() == Demote(old(Abs()), id, slot)
    {
      hide TableOf, Infos, Refs, Positions, Bounded;
      RecordOf(mapInfo, id);
      PutInfo(id, mapInfo[id].info.(inTried := false));
      SetSlot(vvTried, slot, -1);
      nTried, nNew := nTried - 1, nNew + 1;
    }

    method EnterTried(id: int, slot: Slot)
      requires Shape() && InTriedRange(slot) && id in mapInfo && id >= 0
      modifies this`mapInfo, this`nNew, this`nTried, vvTried
      ensures id in old(Abs()).info && Abs() == Promote(old(Abs()), id, slot)
    {
      hide TableOf, Infos, Refs, Positions, Bounded;
      RecordOf(mapInfo, id);
      PutInfo(id, mapInfo[id].info.(inTried := true));
      SetSlot(vvTried, slot, id);
      nTried, nNew := nTried + 1, nNew - 1;
    }

    /** The part of MakeTried that moves the old holder of the tried slot back to the new table. */
    method EvictOld(e: int, ghost loose: set<int>)
      requires Shape() && InvBut(p, Abs(), loose) && Unlisted(Abs(), loose) && e in mapInfo && mapInfo[e].info.inTried
      requires e !in loose
      modifies this`mapInfo, this`vRandom, this`mapAddr, this`nNew, this`nTried, vvNew, vvTried
      ensures e in old(Abs()).info && old(Abs()).info[e].inTried && Abs() == Evict(p, old(Abs()), e, loose)
    {
      hide InvBut, Inverse, Shuffled, NewPlaced, TriedPlaced, RefsCount, Referenced, Counted, KeysAgree, TableOf, Infos;
      hide Refs, Positions, Bounded;
      ghost var s := Abs();
      var i := mapInfo[e].info;
      RecordOf(mapInfo, e);
      IdNonNegative(p, s, e, loose);
      EvictDefined(p, s, e, loose);
      DemoteKeepsInv(p, s, e, loose);
      TriedUnreferenced(p, s, e, loose);
      NoSlot(s.newTab, e);
      TriedInRange(p, i.service);
      HomeInRange(p, i);
      PlacedInRange(p, i.service, p.newBucket(i.service, i.source));
      LeaveTried(e, TriedSlot(p, i.service));
      ClearNew(HomeSlot(p, i), loose + {e});
      RecordInRefs(mapInfo, e);
      AddRef(e, HomeSlot(p, i));
    }

    /** An entry that is in the new table moves to its tried slot. */
    method MakeTried(id: int)
      requires Shape() && Inv(p, Abs()) && id in mapInfo && !mapInfo[id].info.inTried
      modifies this`mapInfo, this`vRandom, this`mapAddr, this`nNew, this`nTried, vvNew, vvTried
      ensures id in old(Abs()).info && !old(Abs()).info[id].inTried && Abs() == AddrOps.MakeTried(p, old(Abs()), id)
    {
      hide InvBut, Inverse, Shuffled, NewPlaced, TriedPlaced, RefsCount, Referenced, Counted, KeysAgree, TableOf, Infos;
      hide Refs, Positions, Bounded;
      ghost var s := Abs();
      RecordOf(mapInfo, id);
      IdNonNegative(p, s, id, {});
      MakeTriedDefined(p, s, id);
      var slot := TriedSlot(p, mapInfo[id].info.service);
      TriedInRange(p, mapInfo[id].info.service);
      ForgetNew(id);
      var e := TriedAt(slot);
      if e != -1 {
        RecordIn(mapInfo, e);
        EvictOld(e, {id});
      }
      RecordIn(mapInfo, id);
      EnterTried(id, slot);
    }

    /** The id in a slot of the tried table, or -1. */
    method TriedAt(slot: Slot) returns (id: int)
      requires Shape() && 0 <= slot.0 < p.triedBuckets && 0 <= slot.1 < p.bucketSize
      ensures if slot in Abs().triedTab then id == Abs().triedTab[slot] && id != -1 else id == -1
    {
      id := vvTried[slot.0, slot.1];
      assert slot == (slot.0, slot.1);
    }

    /** Clear: the tables, the order and the counters are reset, and the two maps are not. */
    method Clear()
      requires Shape()
      modifies this`vRandom, this`nIdCount, this`nTried, this`nNew, vvNew, vvTried
      ensures Abs() == Cleared(old(Abs()))
      ensures Inv(p, Abs()) <==> mapInfo == map[] && mapAddr == map[]
    {
      hide InvBut;
      vRandom := [];
      ClearTable(vvNew);
      ClearTable(vvTried);
      nIdCount, nTried, nNew := 0, 0, 0;
      assert Abs() == Cleared(old(Abs()));
      ClearedConsistent(p, old(Abs()));
      RecordsEmpty(mapInfo);
    }

    /** A fresh manager. */
    constructor (p: Placing)
      requires Bounded(p)
      ensures this.p == p && Shape() && Abs() == EMPTY && Inv(p, Abs()) && fresh(vvNew) && fresh(vvTried)
    {
      this.p := p;
      vvNew := new int[p.newBuckets, p.bucketSize]((_, _) => -1);
      vvTried := new int[p.triedBuckets, p.bucketSize]((_, _) => -1);
      nIdCount, mapInfo, mapAddr, vRandom, nTried, nNew := 0, map[], map[], [], 0, 0;
      new;
      EmptyTable(vvNew);
      EmptyTable(vvTried);
      assert Abs() == EMPTY;
      EmptyInv(p);
    }

    /** The search of Good_ for a bucket that holds the id, from a random one on, always finds one. */
    method FindBucket(id: int, start: nat) returns (found: bool)
      requires Shape() && Inv(p, Abs()) && id in mapInfo && !mapInfo[id].info.inTried && start < p.newBuckets
      ensures found
    {
      hide InvBut, TableOf, Infos, Refs, Positions, Bounded, Around;
      var service := mapInfo[id].info.service;
      RecordOf(mapInfo, id);
      IdNonNegative(p, Abs(), id, {});
      found := false;
      for n := 0 to p.newBuckets
        invariant forall k :: 0 <= k < n ==> !Holds(p, Abs(), service, id, Around(k, start, p.newBuckets))
      {
        var b := Around(n, start, p.newBuckets);
        AroundInRange(n, start, p.newBuckets);
        PlacedInRange(p, service, b);
        var at := NewAt(NewSlot(p, service, b));
        if at == id {
          return true;
        }
      }
      NotMissed(p, Abs(), id, start);
    }

    method Good(service: Service, time: int, start: nat)
      requires Shape() && Inv(p, Abs()) && start < p.newBuckets
      modifies this`mapInfo, this`vRandom, this`mapAddr, this`nNew, this`nTried, vvNew, vvTried
      ensures Abs() == R.Good(p, old(Abs()), service, time) && Inv(p, Abs())
    {
      hide InvBut, Inverse, Shuffled, NewPlaced, TriedPlaced, RefsCount, Referenced, Counted, KeysAgree, TableOf, Infos;
      hide Refs, Positions, Bounded;
      ghost var s := Abs();
      if service.addr !in mapAddr {
        return;
      }
      var id := mapAddr[service.addr];
      FoundId(p, s, service.addr);
      RecordIn(mapInfo, id);
      if mapInfo[id].info.service != service {
        return;
      }
      var i := mapInfo[id].info.(lastSuccess := time, lastTry := time, attempts := 0);
      InfoKeepsInv(p, s, id, i, {});
      PutInfo(id, i);
      if !i.inTried {
        RecordIn(mapInfo, id);
        var found := FindBucket(id, start);
        if !found {
          return;
        }
        MakeTried(id);
      }
    }

    method Attempt(service: Service, time: int)
      requires Shape() && Inv(p, Abs())
      modifies this`mapInfo
      ensures Abs() == R.Attempt(p, old(Abs()), service, time) && Inv(p, Abs())
    {
      hide InvBut, Inverse, Shuffled, NewPlaced, TriedPlaced, RefsCount, Referenced, Counted, KeysAgree, TableOf, Infos;
      hide Refs, Positions, Bounded;
      ghost var s := Abs();
      if service.addr !in mapAddr {
        return;
      }
      var id := mapAddr[service.addr];
      FoundId(p, s, service.addr);
      RecordIn(mapInfo, id);
      if mapInfo[id].info.service == service {
        PutInfo(id, mapInfo[id].info.(lastTry := time, attempts := mapInfo[id].info.attempts + 1));
      }
    }

    method Connected(service: Service, time: int)
      requires Shape() && Inv(p, Abs())
      modifies this`mapInfo
      ensures Abs() == R.Connected(p, old(Abs()), service, time) && Inv(p, Abs())
    {
      hide InvBut, Inverse, Shuffled, NewPlaced, TriedPlaced, RefsCount, Referenced, Counted, KeysAgree, TableOf, Infos;
      hide Refs, Positions, Bounded;
      ghost var s := Abs();
      if service.addr !in mapAddr {
        return;
      }
      var id := mapAddr[service.addr];
      FoundId(p, s, service.addr);
      RecordIn(mapInfo, id);
      if mapInfo[id].info.service == service && time - mapInfo[id].info.time > 20 * 60 {
        PutInfo(id, mapInfo[id].info.(time := time));
      }
    }

    /** Create, with the count that Add_ keeps. */
    method CreateEntry(i: Info) returns (id: int)
      modifies this`nIdCount, this`mapInfo, this`mapAddr, this`vRandom, this`nNew
      ensures id == old(nIdCount) && Abs() == AddrOps.Create(old(Abs()), i) && id in mapInfo && mapInfo[id].info == i
      ensures mapInfo[id].refCount == 0
    {
      hide TableOf, Infos, Refs, Positions;
      id := nIdCount;
      nIdCount := nIdCount + 1;
      RecordChanged(mapInfo, id, AddrInfo(i, 0, |vRandom|));
      mapInfo := mapInfo[id := AddrInfo(i, 0, |vRandom|)];
      mapAddr := mapAddr[i.service.addr := id];
      vRandom := vRandom + [id];
      nNew := nNew + 1;
    }

    /** The end of Add_. */
    method InsertEntry(id: int, source: NetAddr, now: int)
      requires Shape() && InvBut(p, Abs(), {id}) && id in mapInfo && !mapInfo[id].info.inTried
      requires mapInfo[id].refCount < MAX_REFS
      modifies this`mapInfo, this`vRandom, this`mapAddr, this`nNew, vvNew
      ensures id in old(Abs()).info && id in old(Abs()).refs && Abs() == R.Insert(p, old(Abs()), id, source, now)
    {
      hide InvBut, Inverse, Shuffled, NewPlaced, TriedPlaced, RefsCount, Referenced, Counted, KeysAgree, TableOf, Infos;
      hide Refs, Positions, Bounded;
      ghost var s := Abs();
      RecordOf(mapInfo, id);
      IdNonNegative(p, s, id, {id});
      var service := mapInfo[id].info.service;
      var slot := NewSlot(p, service, p.newBucket(service, source));
      SourceInRange(p, service, source);
      InsertDefined(p, s, id, slot);
      var at := NewAt(slot);
      if at != id {
        var insert := at == -1;
        if !insert {
          RecordIn(mapInfo, at);
          insert := IsTerrible(mapInfo[at].info, now) || (mapInfo[at].refCount > 1 && mapInfo[id].refCount == 0);
        }
        if insert {
          ClearNew(slot, {id});
          RecordInRefs(mapInfo, id);
          AddRef(id, slot);
        } else if mapInfo[id].refCount == 0 {
          Delete(id, {id});
        }
      }
    }

    method Add(a: Address, source: NetAddr, penalty: int, now: int, lucky: bool) returns (added: bool)
      requires Shape() && Inv(p, Abs())
      modifies this`nIdCount, this`mapInfo, this`vRandom, this`mapAddr, this`nNew, vvNew
      ensures (Abs(), added) == R.Add(p, old(Abs()), a, source, penalty, now, lucky) && Inv(p, Abs())
    {
      hide InvBut, Inverse, Shuffled, NewPlaced, TriedPlaced, RefsCount, Referenced, Counted, KeysAgree, TableOf, Infos;
      hide Refs, Positions, Bounded;
      hide IsTerrible, R.Insert, AddrOps.Create, Refreshed;
      ghost var s := Abs();
      if !a.routable {
        return false;
      }
      if a.service.addr in mapAddr {
        var id := mapAddr[a.service.addr];
        FoundId(p, s, a.service.addr);
        RecordIn(mapInfo, id);
        var i := Refreshed(mapInfo[id].info, a, penalty, now);
        RefreshedPlace(mapInfo[id].info, a, penalty, now);
        InfoKeepsInv(p, s, id, i, {});
        PutInfo(id, i);
        RecordIn(mapInfo, id);
        if a.time == 0 || (i.time != 0 && a.time <= i.time) || i.inTried || mapInfo[id].refCount == MAX_REFS || !lucky {
          return false;
        }
        Loosen(p, Abs(), id);
        InsertEntry(id, source, now);
        return false;
      }
      var i := Info(a.service, a.services, NonNegative(a.time - penalty), source, 0, 0, 0, false);
      CreateKeepsInv(p, s, i, {});
      assert {} + {nIdCount} == {nIdCount};
      var id := CreateEntry(i);
      InsertEntry(id, source, now);
      return true;
    }

    /** One draw of GetAddr_. */
    method DrawAt(k: nat, pick: nat) returns (i: Info)
      requires Shape() && Inv(p, Abs()) && k <= pick < |vRandom|
      modifies this`mapInfo, this`vRandom
      ensures Inv(p, Abs()) && |vRandom| == old(|vRandom|) && Abs().info == old(Abs()).info
      ensures vRandom[k] in Abs().info && i == Abs().info[vRandom[k]] && vRandom[..k] == old(vRandom[..k])
      ensures Shuffled(old(Abs()).pos, old(Abs()).random) && Abs() == AddrTables.SwapRandom(old(Abs()), k, pick)
    {
      hide InvBut, Inverse, Shuffled, NewPlaced, TriedPlaced, RefsCount, Referenced, Counted, KeysAgree, TableOf, Infos;
      hide Refs, Positions, Bounded;
      InvParts(p, Abs(), {});
      SwapKeepsInv(p, Abs(), k, pick, {});
      SwapRandom(k, pick);
      InRandom(p, Abs(), k);
      RecordIn(mapInfo, vRandom[k]);
      i := mapInfo[vRandom[k]].info;
    }

    /** GetAddr_, with the random draws as a parameter: `k` of them are used. */
    method GetAddr(draws: seq<nat>, now: int) returns (list: seq<Info>, k: nat)
      requires Shape() && Inv(p, Abs()) && |draws| == |vRandom| && IsDraw(Abs(), draws)
      modifies this`mapInfo, this`vRandom
      ensures k <= |draws| && IsDraw(old(Abs()), draws[..k]) && Abs() == Drawn(p, old(Abs()), draws[..k])
      ensures Inv(p, Abs())
      ensures list == Listed(Abs().info, Abs().random[..k], now)
      ensures |list| <= MaxListed(|vRandom|) && (k < |draws| ==> |list| == MaxListed(|vRandom|))
      ensures |list| <= 2500 && 100 * |list| <= 23 * |vRandom|
      ensures |list| < 2500 && 100 * (|list| + 1) <= 23 * |vRandom| ==>
        k == |draws| && forall id :: id in mapInfo && !IsTerrible(mapInfo[id].info, now) ==> mapInfo[id].info in list
    {
      hide InvBut, Inverse, Shuffled, NewPlaced, TriedPlaced, RefsCount, Referenced, Counted, KeysAgree, TableOf, Infos;
      hide Refs, Positions, Bounded;
      hide IsTerrible, Drawn, IsDraw, Listed, MaxListed;
      ghost var s := Abs();
      var nodes := MaxListed(|vRandom|);
      list, k := [], 0;
      DrawStart(p, s, draws);
      ListedNone(s.info, vRandom[..0], now);
      while k < |vRandom| && |list| < nodes
        invariant k <= |draws| == |vRandom| && |list| <= nodes
        invariant IsDraw(s, draws[..k]) && Abs() == Drawn(p, s, draws[..k]) && Inv(p, Abs())
        invariant list == Listed(Abs().info, vRandom[..k], now)
        decreases |draws| - k
      {
        DrawNext(p, s, draws, k);
        var i := DrawAt(k, draws[k]);
        ListedNext(Abs().info, vRandom[..k], vRandom[k], now);
        assert vRandom[..k + 1] == vRandom[..k] + [vRandom[k]];
        if !IsTerrible(i, now) {
          list := list + [i];
        }
        k := k + 1;
      }
      if k == |draws| {
        assert vRandom[..k] == vRandom;
        AllListed(p, Abs(), now);
        InfosOf(mapInfo);
      }
    }
  }

  lemma InfosOf(m: Records)
    ensures forall id :: id in m ==> id in Infos(m) && Infos(m)[id] == m[id].info
  {
  }

  lemma ListedNone(info: map<int, Info>, ids: seq<int>, now: int)
    requires ids == []
    ensures Listed(info, ids, now) == []
  {
  }
}
