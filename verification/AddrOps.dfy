/** The operations of the address manager, and that every sequence of them keeps its tables consistent. */
module AddrOps {
  import opened Outcomes
  import opened AddrTables

  // ---------- Changing one entry ----------

  /** Statistics of an entry change; its address and its table do not. */
  ghost predicate SamePlace(i: Info, i': Info) {
    i'.service == i.service && i'.inTried == i.inTried
  }

  lemma InfoPlaced(p: Placing, s: State, id: int, i: Info)
    requires NewPlaced(p, s.info, s.newTab) && TriedPlaced(p, s.info, s.triedTab) && id in s.info
    requires SamePlace(s.info[id], i)
    ensures NewPlaced(p, s.info[id := i], s.newTab) && TriedPlaced(p, s.info[id := i], s.triedTab)
  {
  }

  lemma InfoInverse(s: State, id: int, i: Info, loose: set<int>)
    requires Inverse(s.info, s.addrs) && Referenced(s.info, s.refs, loose) && id in s.info && SamePlace(s.info[id], i)
    ensures Inverse(s.info[id := i], s.addrs) && Referenced(s.info[id := i], s.refs, loose)
    ensures TriedIds(s.info[id := i]) == TriedIds(s.info) && NewIds(s.info[id := i]) == NewIds(s.info)
  {
  }

  lemma InfoKeepsInv(p: Placing, s: State, id: int, i: Info, loose: set<int>)
    requires InvBut(p, s, loose) && id in s.info && SamePlace(s.info[id], i)
    ensures InvBut(p, s.(info := s.info[id := i]), loose)
  {
    hide Inverse, Shuffled, NewPlaced, TriedPlaced, RefsCount, Referenced, TriedIds, NewIds;
    InfoPlaced(p, s, id, i);
    InfoInverse(s, id, i, loose);
    assert s.info[id := i].Keys == s.info.Keys;
  }

  /** Create, and the count that goes with it: a new id at the end of the random vector, in no table yet. */
  function Create(s: State, i: Info): State {
    var id := s.idCount;
    s.(idCount := id + 1, info := s.info[id := i], refs := s.refs[id := 0], pos := s.pos[id := |s.random|],
       addrs := s.addrs[i.service.addr := id], random := s.random + [id], newCount := s.newCount + 1)
  }

  lemma CreatePlaced(p: Placing, s: State, i: Info)
    requires NewPlaced(p, s.info, s.newTab) && TriedPlaced(p, s.info, s.triedTab) && s.idCount !in s.info && !i.inTried
    ensures NewPlaced(p, Create(s, i).info, s.newTab) && TriedPlaced(p, Create(s, i).info, s.triedTab)
    ensures BucketsOf(s.newTab, s.idCount) == {}
  {
    assert forall slot :: slot in s.newTab ==> s.newTab[slot] != s.idCount;
    assert forall b :: b !in BucketsOf(s.newTab, s.idCount);
  }

  lemma CreateRefs(s: State, i: Info, loose: set<int>)
    requires RefsCount(s.refs, s.newTab) && Referenced(s.info, s.refs, loose) && BucketsOf(s.newTab, s.idCount) == {}
    ensures RefsCount(Create(s, i).refs, s.newTab)
    ensures Referenced(Create(s, i).info, Create(s, i).refs, loose + {s.idCount})
  {
  }

  lemma CreateShuffled(s: State, i: Info)
    requires Shuffled(s.pos, s.random) && s.idCount !in s.pos
    ensures Shuffled(Create(s, i).pos, Create(s, i).random)
  {
  }

  lemma CreateInverse(s: State, i: Info)
    requires Inverse(s.info, s.addrs) && i.service.addr !in s.addrs && s.idCount !in s.info && !i.inTried
    ensures Inverse(Create(s, i).info, Create(s, i).addrs)
    ensures |NewIds(Create(s, i).info)| == |NewIds(s.info)| + 1 && TriedIds(Create(s, i).info) == TriedIds(s.info)
  {
    assert NewIds(s.info[s.idCount := i]) == NewIds(s.info) + {s.idCount};
  }

  lemma CreateKeepsInv(p: Placing, s: State, i: Info, loose: set<int>)
    requires InvBut(p, s, loose) && i.service.addr !in s.addrs && !i.inTried
    ensures InvBut(p, Create(s, i), loose + {s.idCount})
  {
    hide Inverse, Shuffled, NewPlaced, TriedPlaced, RefsCount, Referenced, TriedIds, NewIds;
    assert s.idCount !in s.info && s.idCount !in s.pos;
    CreatePlaced(p, s, i);
    CreateRefs(s, i, loose);
    CreateShuffled(s, i);
    CreateInverse(s, i);
  }

  // ---------- Moving to the tried table ----------

  /** The first loop of MakeTried: an id leaves all its new buckets. */
  function Forget(s: State, id: int): State {
    s.(newTab := map slot | slot in s.newTab && s.newTab[slot] != id :: s.newTab[slot], refs := s.refs[id := 0])
  }

  lemma ForgetBuckets(newTab: Table, id: int, other: int)
    ensures var t := map slot | slot in newTab && newTab[slot] != id :: newTab[slot];
      BucketsOf(t, other) == if other == id then {} else BucketsOf(newTab, other)
  {
    var t := map slot | slot in newTab && newTab[slot] != id :: newTab[slot];
    forall b
      ensures b in BucketsOf(t, other) <==> other != id && b in BucketsOf(newTab, other)
    {
      if other != id && b in BucketsOf(newTab, other) {
        var slot :| slot in newTab && newTab[slot] == other && slot.0 == b;
        assert slot in t && t[slot] == other;
      }
    }
  }

  lemma ForgetCounts(s: State, id: int)
    requires RefsCount(s.refs, s.newTab)
    ensures RefsCount(Forget(s, id).refs, Forget(s, id).newTab)
  {
    var t := Forget(s, id);
    forall other | other in t.refs
      ensures t.refs[other] == |BucketsOf(t.newTab, other)| <= MAX_REFS
    {
      ForgetBuckets(s.newTab, id, other);
    }
  }

  lemma ForgetKeepsInv(p: Placing, s: State, id: int, loose: set<int>)
    requires InvBut(p, s, loose) && id in s.info
    ensures InvBut(p, Forget(s, id), loose + {id})
  {
    hide Inverse, Shuffled, TriedPlaced, RefsCount, TriedIds, NewIds;
    ForgetCounts(s, id);
    assert Forget(s, id).refs.Keys == s.refs.Keys;
  }

  /** An id without references enters the tried table. */
  function Promote(s: State, id: int, slot: Slot): State
    requires id in s.info
  {
    s.(info := s.info[id := s.info[id].(inTried := true)], triedTab := s.triedTab[slot := id],
       triedCount := s.triedCount + 1, newCount := s.newCount - 1)
  }

  lemma NoSlot(newTab: Table, id: int)
    requires BucketsOf(newTab, id) == {}
    ensures forall slot :: slot in newTab ==> newTab[slot] != id
  {
    forall slot | slot in newTab
      ensures newTab[slot] != id
    {
      assert newTab[slot] == id ==> slot.0 in BucketsOf(newTab, id);
    }
  }

  lemma PromotePlaced(p: Placing, s: State, id: int)
    requires NewPlaced(p, s.info, s.newTab) && TriedPlaced(p, s.info, s.triedTab) && id in s.info && !s.info[id].inTried
    requires BucketsOf(s.newTab, id) == {} && TriedSlot(p, s.info[id].service) !in s.triedTab
    ensures var t := Promote(s, id, TriedSlot(p, s.info[id].service));
      NewPlaced(p, t.info, t.newTab) && TriedPlaced(p, t.info, t.triedTab)
  {
    NoSlot(s.newTab, id);
    hide BucketsOf;
  }

  lemma PromoteInverse(s: State, id: int, slot: Slot, loose: set<int>)
    requires Inverse(s.info, s.addrs) && Referenced(s.info, s.refs, loose) && id in s.info && !s.info[id].inTried
    ensures var t := Promote(s, id, slot);
      && Inverse(t.info, t.addrs) && Referenced(t.info, t.refs, loose - {id}) && t.info.Keys == s.info.Keys
      && |TriedIds(t.info)| == |TriedIds(s.info)| + 1 && |NewIds(t.info)| == |NewIds(s.info)| - 1
  {
    var t := Promote(s, id, slot);
    assert TriedIds(t.info) == TriedIds(s.info) + {id} && NewIds(t.info) == NewIds(s.info) - {id};
  }

  lemma PromoteKeepsInv(p: Placing, s: State, id: int, loose: set<int>)
    requires InvBut(p, s, loose) && id in s.info && !s.info[id].inTried && s.refs[id] == 0
    requires TriedSlot(p, s.info[id].service) !in s.triedTab
    ensures InvBut(p, Promote(s, id, TriedSlot(p, s.info[id].service)), loose - {id})
  {
    hide Inverse, Shuffled, NewPlaced, TriedPlaced, RefsCount, Referenced, TriedIds, NewIds, BucketsOf;
    NoneHeld(s.refs, s.newTab, id);
    PromotePlaced(p, s, id);
    PromoteInverse(s, id, TriedSlot(p, s.info[id].service), loose);
  }

  /** The other way: an id leaves the tried table and is in neither. */
  function Demote(s: State, id: int, slot: Slot): State
    requires id in s.info
  {
    s.(info := s.info[id := s.info[id].(inTried := false)], triedTab := s.triedTab - {slot},
       triedCount := s.triedCount - 1, newCount := s.newCount + 1)
  }

  lemma DemotePlaced(p: Placing, s: State, id: int)
    requires NewPlaced(p, s.info, s.newTab) && TriedPlaced(p, s.info, s.triedTab) && id in s.info && s.info[id].inTried
    ensures var t := Demote(s, id, TriedSlot(p, s.info[id].service));
      NewPlaced(p, t.info, t.newTab) && TriedPlaced(p, t.info, t.triedTab)
  {
  }

  lemma DemoteInverse(s: State, id: int, slot: Slot, loose: set<int>)
    requires Inverse(s.info, s.addrs) && Referenced(s.info, s.refs, loose) && id in s.info && s.info[id].inTried
    ensures var t := Demote(s, id, slot);
      && Inverse(t.info, t.addrs) && Referenced(t.info, t.refs, loose + {id}) && t.info.Keys == s.info.Keys
      && |TriedIds(t.info)| == |TriedIds(s.info)| - 1 && |NewIds(t.info)| == |NewIds(s.info)| + 1
  {
    var t := Demote(s, id, slot);
    assert TriedIds(t.info) == TriedIds(s.info) - {id} && NewIds(t.info) == NewIds(s.info) + {id};
  }

  lemma DemoteKeepsInv(p: Placing, s: State, id: int, loose: set<int>)
    requires InvBut(p, s, loose) && id in s.info && s.info[id].inTried
    ensures InvBut(p, Demote(s, id, TriedSlot(p, s.info[id].service)), loose + {id})
  {
    hide Inverse, Shuffled, NewPlaced, TriedPlaced, RefsCount, Referenced, TriedIds, NewIds;
    DemotePlaced(p, s, id);
    DemoteInverse(s, id, TriedSlot(p, s.info[id].service), loose);
  }

  /** Loose ids are in no new bucket. */
  ghost predicate Unlisted(s: State, loose: set<int>) {
    forall slot :: slot in s.newTab ==> s.newTab[slot] !in loose
  }

  /** Where an evicted id goes: the new bucket of its own source. */
  function HomeSlot(p: Placing, i: Info): Slot {
    NewSlot(p, i.service, p.newBucket(i.service, i.source))
  }

  /** An id is moved from the tried table back to the new table, deleting what is there. */
  ghost function Evict(p: Placing, s: State, e: int, loose: set<int>): (r: State)
    requires Bounded(p) && InvBut(p, s, loose) && Unlisted(s, loose) && e in s.info && s.info[e].inTried && e !in loose
    ensures InvBut(p, r, loose) && Unlisted(r, loose)
    ensures r.triedTab == s.triedTab - {TriedSlot(p, s.info[e].service)}
    ensures forall id :: id in loose && id in s.info ==>
      id in r.info && r.info[id] == s.info[id] && r.refs[id] == s.refs[id]
  {
    var slot := HomeSlot(p, s.info[e]);
    var t := Demote(s, e, TriedSlot(p, s.info[e].service));
    EvictDefined(p, s, e, loose);
    Ref(ClearNew(t, slot), e, slot)
  }

  lemma EvictDefined(p: Placing, s: State, e: int, loose: set<int>)
    requires Bounded(p) && InvBut(p, s, loose) && Unlisted(s, loose) && e in s.info && s.info[e].inTried && e !in loose
    ensures var slot, t := HomeSlot(p, s.info[e]), Demote(s, e, TriedSlot(p, s.info[e].service));
      && Shuffled(t.pos, t.random) && KeysAgree(t) && (forall x :: x in t.newTab ==> t.newTab[x] in t.info)
      && var c := ClearNew(t, slot);
         && e in c.refs
         && InvBut(p, Ref(c, e, slot), loose) && Unlisted(Ref(c, e, slot), loose)
         && c.triedTab == s.triedTab - {TriedSlot(p, s.info[e].service)}
         && forall id :: id in loose && id in s.info ==>
           id in c.info && c.info[id] == s.info[id] && id in c.refs && c.refs[id] == s.refs[id]
  {
    hide InvBut, Inverse, Shuffled, NewPlaced, TriedPlaced, RefsCount, Referenced, Counted, Bounded;
    InvParts(p, s, loose);
    var slot, t := HomeSlot(p, s.info[e]), Demote(s, e, TriedSlot(p, s.info[e].service));
    DemoteKeepsInv(p, s, e, loose);
    InvParts(p, t, loose + {e});
    TriedUnreferenced(p, s, e, loose);
    NoSlot(s.newTab, e);
    ClearNewKeepsInv(p, t, slot, loose + {e});
    var c := ClearNew(t, slot);
    InvParts(p, c, loose + {e});
    ClearNewFrame(t, slot, e);
    HomeInRange(p, s.info[e]);
    RefKeepsInv(p, c, e, slot, loose + {e});
    assert loose + {e} - {e} == loose;
    forall id | id in loose && id in s.info
      ensures id in c.info && c.info[id] == s.info[id] && id in c.refs && c.refs[id] == s.refs[id]
    {
      ClearNewFrame(t, slot, id);
    }
  }

  lemma HomeInRange(p: Placing, i: Info)
    requires Bounded(p)
    ensures 0 <= HomeSlot(p, i).0 < p.newBuckets
  {
  }

  lemma ForgottenUnlisted(s: State, id: int)
    ensures Unlisted(Forget(s, id), {id})
  {
  }

  /** MakeTried: an id leaves the new table for its tried slot, from which another id may be evicted. */
  ghost function MakeTried(p: Placing, s: State, id: int): (r: State)
    requires Bounded(p) && Inv(p, s) && id in s.info && !s.info[id].inTried
    ensures Inv(p, r)
    ensures id in r.info && r.info[id] == s.info[id].(inTried := true)
  {
    var slot := TriedSlot(p, s.info[id].service);
    var t := Forget(s, id);
    MakeTriedDefined(p, s, id);
    var u := if slot in t.triedTab then Evict(p, t, t.triedTab[slot], {id}) else t;
    Promote(u, id, slot)
  }

  lemma MakeTriedDefined(p: Placing, s: State, id: int)
    requires Bounded(p) && Inv(p, s) && id in s.info && !s.info[id].inTried
    ensures var slot, t := TriedSlot(p, s.info[id].service), Forget(s, id);
      && InvBut(p, t, {id}) && Unlisted(t, {id})
      && (slot in t.triedTab ==>
           t.triedTab[slot] in t.info && t.info[t.triedTab[slot]].inTried && t.triedTab[slot] != id)
      && var u := if slot in t.triedTab then Evict(p, t, t.triedTab[slot], {id}) else t;
         id in u.info && u.info[id] == s.info[id] && Inv(p, Promote(u, id, slot))
  {
    var slot, t := TriedSlot(p, s.info[id].service), Forget(s, id);
    TriedHolds(p, s, slot);
    hide InvBut, Inverse, Shuffled, NewPlaced, TriedPlaced, RefsCount, Referenced, Counted, Bounded;
    ForgetKeepsInv(p, s, id, {});
    assert {} + {id} == {id};
    ForgottenUnlisted(s, id);
    InvParts(p, t, {id});
    var u := if slot in t.triedTab then Evict(p, t, t.triedTab[slot], {id}) else t;
    EvictedSlot(p, t, slot);
    PromoteKeepsInv(p, u, id, {id});
    assert {id} - {id} == {};
  }

  lemma TriedHolds(p: Placing, s: State, slot: Slot)
    requires Inv(p, s)
    ensures slot in s.triedTab ==> s.triedTab[slot] in s.info && s.info[s.triedTab[slot]].inTried
  {
  }

  /** The slot that an id is evicted from is its own. */
  lemma EvictedSlot(p: Placing, s: State, slot: Slot)
    requires exists loose :: InvBut(p, s, loose)
    ensures slot in s.triedTab ==> s.triedTab[slot] in s.info && slot == TriedSlot(p, s.info[s.triedTab[slot]].service)
  {
  }
}
