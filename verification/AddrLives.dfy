/** Whole lives of the address manager, restarts included, and the dates that Check_ looks at. */
module AddrLives {
  import opened Outcomes
  import opened AddrTables
  import opened AddrOps
  import opened AddrRuns
  import S = AddrSaved
  import R = AddrReload

  // ---------- Dates ----------

  /** The value conditions of Check_: no negative date, and a tried entry has succeeded. */
  predicate DateRight(i: Info) {
    i.lastTry >= 0 && i.lastSuccess >= 0 && (i.inTried ==> i.lastSuccess != 0)
  }

  ghost predicate Dated(s: State) {
    forall id :: id in s.info ==> DateRight(s.info[id])
  }

  /** An entry with the dates of another one, and tried only if that is. */
  predicate SameDates(i: Info, j: Info) {
    i.lastTry == j.lastTry && i.lastSuccess == j.lastSuccess && (i.inTried ==> j.inTried)
  }

  /** All entries but one are old ones with their dates. */
  ghost predicate KeepsDates(a: map<int, Info>, b: map<int, Info>, but: set<int>) {
    forall k :: k in a && k !in but ==> k in b && SameDates(a[k], b[k])
  }

  lemma EvictKeepsDates(p: Placing, s: State, e: int, loose: set<int>)
    requires Bounded(p) && InvBut(p, s, loose) && Unlisted(s, loose) && e in s.info && s.info[e].inTried && e !in loose
    ensures KeepsDates(Evict(p, s, e, loose).info, s.info, {})
  {
    hide InvBut, Inverse, Shuffled, NewPlaced, TriedPlaced, RefsCount, Referenced, Counted, Bounded, ClearNew;
    var slot, t := HomeSlot(p, s.info[e]), Demote(s, e, TriedSlot(p, s.info[e].service));
    EvictDefined(p, s, e, loose);
    ClearNewSubset(t, slot);
  }

  lemma MakeTriedKeepsDates(p: Placing, s: State, id: int)
    requires Bounded(p) && Inv(p, s) && id in s.info && !s.info[id].inTried
    ensures KeepsDates(MakeTried(p, s, id).info, s.info, {id})
  {
    hide InvBut, Evict, Bounded;
    var slot, t := TriedSlot(p, s.info[id].service), Forget(s, id);
    MakeTriedDefined(p, s, id);
    if slot in t.triedTab {
      EvictKeepsDates(p, t, t.triedTab[slot], {id});
    }
  }

  lemma AddKeepsDates(p: Placing, s: State, a: Address, source: NetAddr, penalty: int, now: int, lucky: bool)
    requires Bounded(p) && Inv(p, s) && Dated(s)
    ensures Dated(Add(p, s, a, source, penalty, now, lucky).0)
  {
    hide InvBut, Insert, IsTerrible, Bounded;
    var addr := a.service.addr;
    if a.routable && addr in s.addrs {
      var id := s.addrs[addr];
      FoundId(p, s, addr);
      var i := Refreshed(s.info[id], a, penalty, now);
      var t := s.(info := s.info[id := i]);
      InfoKeepsInv(p, s, id, i, {});
      if !(a.time == 0 || (i.time != 0 && a.time <= i.time) || i.inTried || s.refs[id] == MAX_REFS || !lucky) {
        Loosen(p, t, id);
        InsertEffects(p, t, id, source, now);
      }
    } else if a.routable {
      var i := Info(a.service, a.services, NonNegative(a.time - penalty), source, 0, 0, 0, false);
      CreateKeepsInv(p, s, i, {});
      assert {} + {s.idCount} == {s.idCount};
      InsertEffects(p, Create(s, i), s.idCount, source, now);
    }
  }

  lemma GoodDates(p: Placing, s: State, service: Service, time: int)
    requires Bounded(p) && Inv(p, s) && Dated(s)
    ensures Dated(Good(p, s, service, time)) <==> !Knows(s, service) || time > 0
  {
    hide InvBut, MakeTried, Bounded;
    if Knows(s, service) {
      var id := s.addrs[service.addr];
      var i := s.info[id].(lastSuccess := time, lastTry := time, attempts := 0);
      var t := s.(info := s.info[id := i]);
      InfoKeepsInv(p, s, id, i, {});
      if !i.inTried {
        MakeTriedKeepsDates(p, t, id);
      }
      var r := Good(p, s, service, time);
      assert id in r.info && r.info[id].lastSuccess == time == r.info[id].lastTry;
    }
  }

  /** The times that callers pass: positive for a success, not negative for an attempt. */
  predicate TimesRight(s: State, step: Step) {
    match step
    case DoGood(service, time) => !Knows(s, service) || time > 0
    case DoAttempt(service, time) => !Knows(s, service) || time >= 0
    case _ => true
  }

  /** An operation keeps the dates right if and only if the time it is given for a known entry is. */
  lemma NextDated(p: Placing, s: State, step: Step)
    requires Bounded(p) && Inv(p, s) && Dated(s)
    ensures Dated(Next(p, s, step)) <==> TimesRight(s, step)
  {
    hide InvBut, Good, Add, Bounded, Drawn;
    match step
    case DoAdd(a, source, penalty, now, lucky) => AddKeepsDates(p, s, a, source, penalty, now, lucky);
    case DoGood(service, time) => GoodDates(p, s, service, time);
    case DoAttempt(service, time) =>
      if Knows(s, service) {
        var r, id := Attempt(p, s, service, time), s.addrs[service.addr];
        assert id in r.info && r.info[id].lastTry == time;
      }
    case DoConnected(_, _) =>
    case DoGetAddr(_) =>
  }

  // ---------- Restarts ----------

  /** What a restart makes of a manager: some file of it, loaded. */
  ghost predicate Reloaded(p: Placing, s: State, t: State) {
    exists news, trieds, f :: IsReload(p, s, news, trieds, f, t)
  }

  ghost predicate IsReload(p: Placing, s: State, news: seq<int>, trieds: seq<int>, f: S.Saved, t: State) {
    && S.Enumerates(news, NewIds(s.info)) && S.Enumerates(trieds, TriedIds(s.info))
    && S.IsFile(p, s, news, trieds, f) && S.Readable(f) && t == S.Loaded(p, f)
  }

  lemma ReloadedRight(p: Placing, s: State, t: State)
    requires Bounded(p) && Inv(p, s) && Reloaded(p, s, t)
    ensures Inv(p, t) && (Dated(s) ==> Dated(t))
  {
    hide Inv, InvBut, Bounded, S.Enumerates, S.IsFile, S.Loaded, S.IdsRenamed, Shuffled;
    var news, trieds, f :| IsReload(p, s, news, trieds, f, t);
    R.FileAccepted(p, s, news, trieds, f);
    if Dated(s) {
      DatesBack(s, news + trieds, t);
    }
  }

  lemma DatesBack(s: State, all: seq<int>, t: State)
    requires Dated(s) && S.SameUpToIds(s, all, t)
    ensures Dated(t)
  {
    hide S.IdsRenamed, Shuffled;
    forall k | k in t.info
      ensures DateRight(t.info[k])
    {
      assert S.EntrySame(s, all, t, k);
      var id := all[k];
      assert id in s.info && s.info[id].lastSuccess == t.info[k].lastSuccess;
    }
  }

  datatype Event = Operate(step: Step) | Restart

  /** One event leads from a state to another. */
  ghost predicate Follows(p: Placing, s: State, e: Event, t: State)
    requires Bounded(p) && Inv(p, s)
  {
    match e
    case Operate(step) => t == Next(p, s, step)
    case Restart => Reloaded(p, s, t)
  }

  /** A life: from the empty manager through any operations and restarts. */
  ghost predicate IsLife(p: Placing, states: seq<State>, events: seq<Event>) {
    && |states| == |events| + 1
    && states[0] == EMPTY
    && Bounded(p)
    && forall i :: 0 <= i < |events| && Inv(p, states[i]) ==> Follows(p, states[i], events[i], states[i + 1])
  }

  /** The times that the operations of a life are given. */
  ghost predicate LifeTimesRight(states: seq<State>, events: seq<Event>)
    requires |states| == |events| + 1
  {
    forall i :: 0 <= i < |events| && events[i].Operate? ==> TimesRight(states[i], events[i].step)
  }

  /** Every state of every life passes Check_: the structure always, and the dates if the times are right. */
  lemma {:induction false} LifeConsistent(p: Placing, states: seq<State>, events: seq<Event>, i: nat)
    requires IsLife(p, states, events) && i < |states|
    ensures Inv(p, states[i]) && (LifeTimesRight(states, events) ==> Dated(states[i]))
  {
    hide Inv, InvBut, Bounded, Dated, TimesRight, Reloaded;
    if i == 0 {
      EmptyInv(p);
      EmptyDated();
    } else {
      LifeConsistent(p, states, events, i - 1);
      var s, e, t := states[i - 1], events[i - 1], states[i - 1 + 1];
      assert Follows(p, s, e, t);
      match e
      case Operate(step) =>
        if Dated(s) {
          NextDated(p, s, step);
        }
      case Restart => ReloadedRight(p, s, t);
    }
  }

  lemma EmptyDated()
    ensures Dated(EMPTY)
  {
  }
}
