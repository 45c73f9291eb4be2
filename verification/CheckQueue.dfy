/**
 * The concurrent check queue (src/checkqueue.h) as a transition system. A step is one critical
 * section of one thread, or one check that a thread runs outside the lock. Thread 0 is the
 * master, all others are workers. A check is modelled by the result it would give.
 */
module CheckQueue {
  import opened Outcomes
  import opened Powers

  /** Where a thread is: outside Loop, in cond.wait, or with a batch of which `rest` is still to run. */
  datatype Thread = Off | Waiting(notified: bool) | Working(rest: seq<bool>, taken: nat, ok: bool)

  /** A controller object that is alive, with all checks added through it. */
  datatype Session = Closed | Open(added: seq<bool>)

  datatype State = State(
    queue: seq<bool>, idle: int, total: int, allOk: bool, todo: int, batchSize: nat,
    threads: seq<Thread>, session: Session, results: seq<(seq<bool>, bool)>)

  /** A queue with a master and `workers` threads that have not started yet. */
  function Init(workers: nat, batchSize: nat): State {
    State([], 0, 0, true, 0, batchSize, seq(workers + 1, _ => Off), Closed, [])
  }

  function Min(a: int, b: int): int {
    if a < b then a else b
  }

  function Max(a: int, b: int): int {
    if a < b then b else a
  }

  /** How many checks a thread takes at once. */
  function BatchLength(s: State): int
    requires s.total + s.idle + 1 != 0
  {
    Max(1, Min(s.batchSize, |s.queue| / (s.total + s.idle + 1)))
  }

  function Reversed(checks: seq<bool>): seq<bool> {
    seq(|checks|, i requires 0 <= i < |checks| => checks[|checks| - 1 - i])
  }

  // ---------- Steps ----------

  /** The part of Loop from the test of the queue on: return, wait, or take a batch from the back. */
  function Decide(s: State, i: nat): Outcome<State>
    requires i < |s.threads|
  {
    if s.queue == [] then
      if i == 0 && s.todo == 0 then
        Done(s.(total := s.total - 1, allOk := true, threads := s.threads[0 := Off], session := Closed,
                results := s.results + [(if s.session.Open? then s.session.added else [], s.allOk)]))
      else
        Done(s.(idle := s.idle + 1, threads := s.threads[i := Waiting(false)]))
    else if s.total + s.idle + 1 == 0 || BatchLength(s) > |s.queue| then AssertFailed
    else
      var rest := |s.queue| - BatchLength(s);
      Done(s.(queue := s.queue[..rest],
              threads := s.threads[i := Working(Reversed(s.queue[rest..]), BatchLength(s), s.allOk)]))
  }

  function NotifyMaster(threads: seq<Thread>): seq<Thread>
    requires threads != []
  {
    if threads[0].Waiting? then threads[0 := Waiting(true)] else threads
  }

  /** Accounting for a finished batch. */
  function CleanUp(s: State, i: nat): State
    requires i < |s.threads| && s.threads[i].Working?
  {
    var todo := s.todo - s.threads[i].taken;
    s.(allOk := s.allOk && s.threads[i].ok, todo := todo,
       threads := if todo == 0 && i != 0 then NotifyMaster(s.threads) else s.threads)
  }

  /** Which workers an Add wakes; a single check wakes at most one, chosen by the scheduler. */
  function Notified(threads: seq<Thread>, count: nat, chosen: nat): seq<Thread> {
    seq(|threads|, i requires 0 <= i < |threads| =>
      if i != 0 && threads[i].Waiting? && (count > 1 || (count == 1 && i == chosen)) then Waiting(true) else threads[i])
  }

  datatype Step =
    | OpenSession
    | Add(checks: seq<bool>, chosen: nat)
    | Enter(i: nat)
    | RunCheck(i: nat)
    | Finish(i: nat)
    | Wake(i: nat)

  /** CCheckQueue::IsIdle. */
  predicate IsIdle(s: State) {
    s.total == s.idle && s.todo == 0 && s.allOk
  }

  /** Whether a thread is where the step starts. */
  predicate Enabled(s: State, step: Step) {
    match step
    case OpenSession => s.session.Closed?
    case Add(_, _) => s.session.Open? && s.threads != [] && s.threads[0].Off?
    case Enter(i) => i < |s.threads| && s.threads[i].Off? && (i == 0 ==> s.session.Open?)
    case RunCheck(i) => i < |s.threads| && s.threads[i].Working? && s.threads[i].rest != []
    case Finish(i) => i < |s.threads| && s.threads[i].Working? && s.threads[i].rest == []
    case Wake(i) => i < |s.threads| && s.threads[i].Waiting?
  }

  /** One step. A waiting thread may wake up without having been notified. */
  function Next(s: State, step: Step): Outcome<State>
    requires Enabled(s, step)
  {
    match step
    case OpenSession => if !IsIdle(s) then AssertFailed else Done(s.(session := Open([])))
    case Add(checks, chosen) =>
      Done(s.(queue := s.queue + checks, todo := s.todo + |checks|,
              threads := Notified(s.threads, |checks|, chosen), session := Open(s.session.added + checks)))
    case Enter(i) => Decide(s.(total := s.total + 1), i)
    case RunCheck(i) =>
      var t := s.threads[i];
      Done(s.(threads := s.threads[i := t.(rest := t.rest[1..], ok := t.ok && t.rest[0])]))
    case Finish(i) => Decide(CleanUp(s, i), i)
    case Wake(i) => Decide(s.(idle := s.idle - 1), i)
  }

  // ---------- Counting threads ----------

  datatype Measure = InFlight | Idle | Registered | Effort

  function Weight(t: Thread, m: Measure): nat {
    match m
    case InFlight => if t.Working? then t.taken else 0
    case Idle => if t.Waiting? then 1 else 0
    case Registered => if t.Off? then 0 else 1
    case Effort =>
      match t
      case Off => 3
      case Waiting(notified) => if notified then 1 else 0
      case Working(rest, _, _) => 2 + |rest|
  }

  ghost function Sum(threads: seq<Thread>, m: Measure): nat {
    if threads == [] then 0 else Sum(threads[..|threads| - 1], m) + Weight(threads[|threads| - 1], m)
  }

  lemma {:induction false} SumUpdate(threads: seq<Thread>, i: nat, t: Thread, m: Measure)
    requires i < |threads|
    ensures Sum(threads[i := t], m) == Sum(threads, m) - Weight(threads[i], m) + Weight(t, m)
  {
    var n := |threads| - 1;
    if i < n {
      assert threads[i := t][..n] == threads[..n][i := t];
      SumUpdate(threads[..n], i, t, m);
    } else {
      assert threads[i := t][..n] == threads[..n];
    }
  }

  lemma {:induction false} SumSame(a: seq<Thread>, b: seq<Thread>, m: Measure)
    requires |a| == |b| && forall i :: 0 <= i < |a| ==> Weight(a[i], m) == Weight(b[i], m)
    ensures Sum(a, m) == Sum(b, m)
  {
    if a != [] {
      SumSame(a[..|a| - 1], b[..|b| - 1], m);
    }
  }

  lemma {:induction false} SumAtLeast(threads: seq<Thread>, i: nat, m: Measure)
    requires i < |threads|
    ensures Sum(threads, m) >= Weight(threads[i], m)
  {
    var n := |threads| - 1;
    if i < n {
      SumAtLeast(threads[..n], i, m);
    }
  }

  lemma {:induction false} SumZero(threads: seq<Thread>, m: Measure)
    requires forall i :: 0 <= i < |threads| ==> Weight(threads[i], m) == 0
    ensures Sum(threads, m) == 0
  {
    if threads != [] {
      SumZero(threads[..|threads| - 1], m);
    }
  }

  /** Some thread has a batch as long as something is in flight. */
  lemma {:induction false} SomeoneWorks(threads: seq<Thread>)
    requires Sum(threads, InFlight) > 0
    ensures exists i :: 0 <= i < |threads| && threads[i].Working?
  {
    if forall i :: 0 <= i < |threads| ==> !threads[i].Working? {
      SumZero(threads, InFlight);
    }
  }

  // ---------- Invariant ----------

  predicate AllTrue(checks: seq<bool>) {
    forall i :: 0 <= i < |checks| ==> checks[i]
  }

  ghost predicate BatchesFit(threads: seq<Thread>) {
    forall i :: 0 <= i < |threads| && threads[i].Working? ==> threads[i].taken >= 1
  }

  /** What a thread's batch will report. */
  predicate WillPass(t: Thread) {
    t.Working? ==> t.ok && AllTrue(t.rest)
  }

  ghost predicate BatchesPass(threads: seq<Thread>) {
    forall i :: 0 <= i < |threads| ==> WillPass(threads[i])
  }

  function Added(s: State): seq<bool> {
    if s.session.Open? then s.session.added else []
  }

  /** The verdict so far, what is queued and what is in flight add up to all checks of the session. */
  ghost predicate VerdictAddsUp(s: State) {
    AllTrue(Added(s)) <==> s.allOk && AllTrue(s.queue) && BatchesPass(s.threads)
  }

  ghost predicate CountsAddUp(s: State) {
    && s.todo == |s.queue| + Sum(s.threads, InFlight)
    && s.idle == Sum(s.threads, Idle)
    && s.total == Sum(s.threads, Registered)
  }

  ghost predicate MasterPlaced(s: State) {
    && s.threads != []
    && (s.session.Closed? ==> s.threads[0].Off? && s.todo == 0)
    && (s.threads[0].Waiting? ==> s.queue == [] && (s.threads[0].notified || s.todo > 0))
  }

  /** Every Wait so far returned whether all checks added since the one before it succeed. */
  ghost predicate ResultsRight(s: State) {
    forall i :: 0 <= i < |s.results| ==> (s.results[i].1 <==> AllTrue(s.results[i].0))
  }

  ghost predicate Inv(s: State) {
    CountsAddUp(s) && BatchesFit(s.threads) && VerdictAddsUp(s) && MasterPlaced(s) && ResultsRight(s)
  }

  lemma InitInv(workers: nat, batchSize: nat)
    ensures Inv(Init(workers, batchSize))
  {
    var s := Init(workers, batchSize);
    SumZero(s.threads, InFlight);
    SumZero(s.threads, Idle);
    SumZero(s.threads, Registered);
  }

  // ---------- Every step keeps the invariant ----------

  /** The threads as they are while thread `i` holds the lock. */
  ghost function Others(s: State, i: nat): seq<Thread>
    requires i < |s.threads|
  {
    s.threads[i := Off]
  }

  /** The invariant inside a critical section of thread `i`, where Decide starts. */
  ghost predicate Ready(s: State, i: nat) {
    && i < |s.threads|
    && s.todo == |s.queue| + Sum(Others(s, i), InFlight)
    && s.idle == Sum(Others(s, i), Idle)
    && s.total == Sum(Others(s, i), Registered) + 1
    && BatchesFit(Others(s, i))
    && (AllTrue(Added(s)) <==> s.allOk && AllTrue(s.queue) && BatchesPass(Others(s, i)))
    && (if i == 0 then s.session.Open? else MasterPlaced(s))
    && ResultsRight(s)
  }

  lemma PutThread(s: State, i: nat, t: Thread, m: Measure)
    requires i < |s.threads|
    ensures Sum(s.threads[i := t], m) == Sum(Others(s, i), m) + Weight(t, m) - Weight(Off, m)
  {
    assert Others(s, i)[i := t] == s.threads[i := t];
    SumUpdate(Others(s, i), i, t, m);
  }

  lemma CountThread(s: State, i: nat, t: Thread)
    requires i < |s.threads|
    ensures var threads := s.threads[i := t];
      && Sum(threads, InFlight) == Sum(Others(s, i), InFlight) + Weight(t, InFlight)
      && Sum(threads, Idle) == Sum(Others(s, i), Idle) + Weight(t, Idle)
      && Sum(threads, Registered) == Sum(Others(s, i), Registered) + Weight(t, Registered)
  {
    PutThread(s, i, t, InFlight);
    PutThread(s, i, t, Idle);
    PutThread(s, i, t, Registered);
  }

  /** Nothing in flight means nobody has a batch. */
  lemma NobodyWorks(threads: seq<Thread>)
    requires BatchesFit(threads) && Sum(threads, InFlight) == 0
    ensures forall i :: 0 <= i < |threads| ==> !threads[i].Working?
    ensures BatchesPass(threads)
  {
    forall i | 0 <= i < |threads|
      ensures !threads[i].Working?
    {
      SumAtLeast(threads, i, InFlight);
    }
  }

  lemma ReturnInv(s: State)
    requires Ready(s, 0) && s.queue == [] && s.todo == 0
    ensures Decide(s, 0).Done? && Inv(Decide(s, 0).value)
    ensures s.allOk <==> AllTrue(s.session.added)
  {
    NobodyWorks(Others(s, 0));
    CountThread(s, 0, Off);
  }

  lemma WaitInv(s: State, i: nat)
    requires Ready(s, i) && s.queue == [] && (i == 0 ==> s.todo != 0)
    ensures Decide(s, i).Done? && Inv(Decide(s, i).value)
  {
    var s' := Decide(s, i).value;
    CountThread(s, i, Waiting(false));
    PassThread(s, i, Waiting(false));
    FitPut(s, i, Waiting(false));
  }

  lemma FitPut(s: State, i: nat, t: Thread)
    requires i < |s.threads| && BatchesFit(Others(s, i)) && (t.Working? ==> t.taken >= 1)
    ensures BatchesFit(s.threads[i := t])
  {
    assert forall j {:trigger s.threads[i := t][j]} :: 0 <= j < |s.threads| && j != i ==>
      s.threads[i := t][j] == Others(s, i)[j];
  }

  lemma PassThread(s: State, i: nat, t: Thread)
    requires i < |s.threads|
    ensures BatchesPass(s.threads[i := t]) <==> BatchesPass(Others(s, i)) && WillPass(t)
  {
    var threads := s.threads[i := t];
    if BatchesPass(threads) {
      assert WillPass(threads[i]);
      forall j | 0 <= j < |threads|
        ensures WillPass(Others(s, i)[j])
      {
        assert j != i ==> Others(s, i)[j] == threads[j];
      }
    } else if BatchesPass(Others(s, i)) && WillPass(t) {
      forall j | 0 <= j < |threads|
        ensures WillPass(threads[j])
      {
        assert j != i ==> WillPass(Others(s, i)[j]);
      }
    }
  }

  /** The formula never asks for more checks than are queued. */
  lemma BatchLengthFits(s: State)
    requires s.queue != [] && s.total >= 0 && s.idle >= 0
    ensures 1 <= BatchLength(s) <= |s.queue|
  {
    DivNonNegative(|s.queue|, s.total + s.idle + 1);
  }

  /** A batch is as large as its limit and an equal share of the queue allow, and never empty. */
  lemma BatchLengthLargest(s: State)
    requires s.total >= 0 && s.idle >= 0
    ensures var n, shares := BatchLength(s), s.total + s.idle + 1;
      && (n == 1 || (n <= s.batchSize && n * shares <= |s.queue|))
      && n >= 1 && (n >= s.batchSize || (n + 1) * shares > |s.queue|)
  {
    var shares := s.total + s.idle + 1;
    var q := |s.queue| / shares;
    DivNonNegative(|s.queue|, shares);
    EqualShare(|s.queue|, shares, BatchLength(s));
  }

  /** Up to the quotient a number of shares fits, and beyond it none does. */
  lemma EqualShare(total: nat, shares: int, n: int)
    requires shares > 0 && n >= 0
    ensures if n <= total / shares then n * shares <= total else n * shares > total
    ensures n >= total / shares ==> (n + 1) * shares > total
  {
    var q := total / shares;
    DivMod(total, shares);
    DivNonNegative(total, shares);
    AddColumn(q, 1, shares);
    if n <= q {
      MulMono(n, q, shares);
    } else {
      MulMono(q + 1, n, shares);
    }
    if n >= q {
      MulMono(q + 1, n + 1, shares);
    }
  }

  /** Several checks wake every worker that waits, a single one at most one of them, none nobody. */
  lemma AddWakes(s: State, checks: seq<bool>, chosen: nat)
    requires Enabled(s, Add(checks, chosen))
    ensures var threads := Next(s, Add(checks, chosen)).value.threads;
      && |threads| == |s.threads| && threads[0] == s.threads[0]
      && (|checks| > 1 ==> forall i :: 0 < i < |threads| ==> threads[i] != Waiting(false))
      && (forall i :: 0 < i < |threads| && threads[i] != s.threads[i] ==>
           s.threads[i] == Waiting(false) && threads[i] == Waiting(true)
             && (|checks| > 1 || (|checks| == 1 && i == chosen)))
      && (|checks| == 1 && 0 < chosen < |threads| ==> threads[chosen] != Waiting(false))
  {
  }

  lemma SplitQueue(queue: seq<bool>, n: nat)
    requires n <= |queue|
    ensures AllTrue(queue) <==> AllTrue(queue[..n]) && AllTrue(Reversed(queue[n..]))
  {
    var batch := Reversed(queue[n..]);
    if AllTrue(queue[..n]) && AllTrue(batch) {
      forall j | 0 <= j < |queue|
        ensures queue[j]
      {
        if j < n {
          assert queue[..n][j];
        } else {
          assert batch[|queue| - 1 - j];
        }
      }
    }
  }

  lemma TakeInv(s: State, i: nat)
    requires Ready(s, i) && s.queue != []
    ensures Decide(s, i).Done? && Inv(Decide(s, i).value)
  {
    BatchLengthFits(s);
    var s' := Decide(s, i).value;
    var n := |s.queue| - BatchLength(s);
    var t := Working(Reversed(s.queue[n..]), BatchLength(s), s.allOk);
    CountThread(s, i, t);
    PassThread(s, i, t);
    SplitQueue(s.queue, n);
    FitPut(s, i, t);
  }

  lemma DecideInv(s: State, i: nat)
    requires Ready(s, i)
    ensures Decide(s, i).Done? && Inv(Decide(s, i).value)
  {
    if s.queue != [] {
      TakeInv(s, i);
    } else if i == 0 && s.todo == 0 {
      ReturnInv(s);
    } else {
      WaitInv(s, i);
    }
  }

  lemma EnterReady(s: State, i: nat)
    requires Inv(s) && Enabled(s, Enter(i))
    ensures Ready(s.(total := s.total + 1), i)
  {
    assert Others(s, i) == s.threads;
  }

  lemma FitThread(s: State, i: nat)
    requires i < |s.threads| && BatchesFit(s.threads)
    ensures BatchesFit(Others(s, i))
  {
    assert forall j :: 0 <= j < |s.threads| && j != i ==> Others(s, i)[j] == s.threads[j];
  }

  lemma WakeReady(s: State, i: nat)
    requires Inv(s) && Enabled(s, Wake(i))
    ensures Ready(s.(idle := s.idle - 1), i)
  {
    var t := s.threads[i];
    assert s.threads[i := t] == s.threads;
    CountThread(s, i, t);
    PassThread(s, i, t);
    FitThread(s, i);
  }

  /** Notifying the master changes no count and no verdict. */
  lemma NotifiedSame(threads: seq<Thread>)
    requires threads != []
    ensures var n := NotifyMaster(threads);
      && Sum(n, InFlight) == Sum(threads, InFlight) && Sum(n, Idle) == Sum(threads, Idle)
      && Sum(n, Registered) == Sum(threads, Registered)
      && (BatchesPass(n) <==> BatchesPass(threads)) && (BatchesFit(n) <==> BatchesFit(threads))
  {
    var n := NotifyMaster(threads);
    SumSame(n, threads, InFlight);
    SumSame(n, threads, Idle);
    SumSame(n, threads, Registered);
    assert forall i :: 0 <= i < |threads| ==>
      (WillPass(n[i]) <==> WillPass(threads[i])) && (n[i].Working? ==> n[i] == threads[i])
      && (threads[i].Working? ==> n[i] == threads[i]);
  }

  lemma FinishReady(s: State, i: nat)
    requires Inv(s) && Enabled(s, Finish(i))
    ensures Ready(CleanUp(s, i), i)
  {
    var t := s.threads[i];
    assert s.threads[i := t] == s.threads;
    CountThread(s, i, t);
    PassThread(s, i, t);
    FitThread(s, i);
    if i != 0 {
      assert NotifyMaster(s.threads)[i := Off] == NotifyMaster(Others(s, i));
      NotifiedSame(Others(s, i));
    }
  }

  lemma RunInv(s: State, i: nat)
    requires Inv(s) && Enabled(s, RunCheck(i))
    ensures Inv(Next(s, RunCheck(i)).value)
  {
    var t := s.threads[i];
    var t' := t.(rest := t.rest[1..], ok := t.ok && t.rest[0]);
    assert s.threads[i := t] == s.threads;
    CountThread(s, i, t);
    CountThread(s, i, t');
    PassThread(s, i, t);
    PassThread(s, i, t');
    assert t.rest == [t.rest[0]] + t'.rest;
    JoinChecks([t.rest[0]], t'.rest);
    FitThread(s, i);
    FitPut(s, i, t');
  }

  lemma AddInv(s: State, checks: seq<bool>, chosen: nat)
    requires Inv(s) && Enabled(s, Add(checks, chosen))
    ensures Inv(Next(s, Add(checks, chosen)).value)
  {
    var n := Notified(s.threads, |checks|, chosen);
    SumSame(n, s.threads, InFlight);
    SumSame(n, s.threads, Idle);
    SumSame(n, s.threads, Registered);
    assert forall i :: 0 <= i < |n| ==>
      (WillPass(n[i]) <==> WillPass(s.threads[i])) && (n[i].Working? ==> n[i] == s.threads[i]);
    assert BatchesPass(n) <==> BatchesPass(s.threads);
    assert AllTrue(s.queue + checks) <==> AllTrue(s.queue) && AllTrue(checks) by {
      JoinChecks(s.queue, checks);
    }
    JoinChecks(s.session.added, checks);
  }

  lemma JoinChecks(a: seq<bool>, b: seq<bool>)
    ensures AllTrue(a + b) <==> AllTrue(a) && AllTrue(b)
  {
    if AllTrue(a + b) {
      assert forall i :: 0 <= i < |a| ==> (a + b)[i] == a[i];
      assert forall i :: 0 <= i < |b| ==> (a + b)[|a| + i] == b[i];
    }
  }

  /**
   * Quiescence: with nothing to do and no master inside, every registered worker waits. The
   * verdict is then true exactly when all checks added through the open controller succeed, so
   * the queue is idle whenever a controller is created.
   */
  lemma Quiescent(s: State)
    requires Inv(s) && s.todo == 0 && s.threads[0].Off?
    ensures forall i :: 0 <= i < |s.threads| ==> !s.threads[i].Working?
    ensures s.queue == [] && s.total == s.idle
    ensures IsIdle(s) <==> AllTrue(Added(s))
    ensures s.session.Closed? ==> IsIdle(s)
  {
    NobodyWorks(s.threads);
    SameCounts(s.threads);
  }

  lemma {:induction false} SameCounts(threads: seq<Thread>)
    requires forall i :: 0 <= i < |threads| ==> !threads[i].Working?
    ensures Sum(threads, Registered) == Sum(threads, Idle)
  {
    if threads != [] {
      SameCounts(threads[..|threads| - 1]);
    }
  }

  /** No assert fires and the invariant is kept, whatever thread moves next. */
  lemma NextInv(s: State, step: Step)
    requires Inv(s) && Enabled(s, step)
    ensures Next(s, step).Done? && Inv(Next(s, step).value)
  {
    match step
    case OpenSession => Quiescent(s);
    case Add(checks, chosen) => AddInv(s, checks, chosen);
    case Enter(i) =>
      EnterReady(s, i);
      DecideInv(s.(total := s.total + 1), i);
    case RunCheck(i) => RunInv(s, i);
    case Finish(i) =>
      FinishReady(s, i);
      DecideInv(CleanUp(s, i), i);
    case Wake(i) =>
      WakeReady(s, i);
      DecideInv(s.(idle := s.idle - 1), i);
  }

  // ---------- Whole runs ----------

  function Run(s: State, steps: seq<Step>): Outcome<State>
    decreases |steps|
  {
    if steps == [] then Done(s)
    else if !Enabled(s, steps[0]) then Rejected
    else
      var s' :- Next(s, steps[0]);
      Run(s', steps[1..])
  }

  lemma {:induction false} RunKeepsInv(s: State, steps: seq<Step>)
    requires Inv(s)
    ensures !Run(s, steps).AssertFailed? && (Run(s, steps).Done? ==> Inv(Run(s, steps).value))
    decreases |steps|
  {
    if steps != [] && Enabled(s, steps[0]) {
      NextInv(s, steps[0]);
      RunKeepsInv(Next(s, steps[0]).value, steps[1..]);
    }
  }

  /**
   * In every interleaving the counts add up, no assert fires, a master that waits with nothing left
   * to do has been notified, and every Wait that returned gave
   * the conjunction of all checks added through its controller.
   */
  lemma RunsRight(workers: nat, batchSize: nat, steps: seq<Step>)
    ensures var r := Run(Init(workers, batchSize), steps);
      !r.AssertFailed? && (r.Done? ==> CountsAddUp(r.value) && ResultsRight(r.value) && MasterPlaced(r.value))
  {
    InitInv(workers, batchSize);
    RunKeepsInv(Init(workers, batchSize), steps);
  }

  ghost predicate MasterInside(s: State) {
    s.threads != [] && !s.threads[0].Off?
  }

  /** Only the master's own steps take it out of Loop. */
  predicate MastersStep(step: Step) {
    (step.Enter? || step.Finish? || step.Wake?) && step.i == 0
  }

  /** A master that returns leaves nothing queued or in flight, and returns the conjunction of its session. */
  lemma MasterReturns(s: State, step: Step)
    requires Inv(s) && Enabled(s, step) && MastersStep(step) && Next(s, step).Done?
    requires !MasterInside(Next(s, step).value)
    ensures var s' := Next(s, step).value;
      && s'.results == s.results + [(s.session.added, AllTrue(s.session.added))]
      && s'.queue == [] && s'.todo == 0 && s'.session.Closed? && IsIdle(s')
  {
    NextInv(s, step);
    var ready := match step
      case Enter(i) => s.(total := s.total + 1)
      case Finish(i) => CleanUp(s, i)
      case Wake(i) => s.(idle := s.idle - 1)
      case _ => s;
    match step {
      case Enter(i) => EnterReady(s, i);
      case Finish(i) => FinishReady(s, i);
      case Wake(i) => WakeReady(s, i);
      case _ =>
    }
    if ready.queue != [] {
      BatchLengthFits(ready);
    }
    assert ready.queue == [] && ready.todo == 0;
    ReturnInv(ready);
    Quiescent(Next(s, step).value);
  }

  // ---------- Wait returns ----------

  /** What is left to do: checks to take and to run, batches to account for, threads to start, wake-ups to answer. */
  ghost function Remaining(s: State): nat {
    4 * |s.queue| + Sum(s.threads, Effort)
  }

  /** Deciding costs less than what brought the thread there. */
  lemma DecideEffort(s: State, i: nat)
    requires Ready(s, i)
    ensures var s' := Decide(s, i).value;
      MasterInside(s') ==> Remaining(s') <= 4 * |s.queue| + Sum(Others(s, i), Effort) - 3
    ensures var s' := Decide(s, i).value;
      s.queue != [] ==> Remaining(s') < 4 * |s.queue| + Sum(Others(s, i), Effort) - 3
  {
    if s.queue != [] {
      BatchLengthFits(s);
      var n := |s.queue| - BatchLength(s);
      PutThread(s, i, Working(Reversed(s.queue[n..]), BatchLength(s), s.allOk), Effort);
    } else {
      PutThread(s, i, Waiting(false), Effort);
    }
  }

  /** While the master is inside, a step either changes nothing at all or brings its return nearer. */
  lemma StepProgress(s: State, step: Step)
    requires Inv(s) && Enabled(s, step) && MasterInside(s) && Next(s, step).Done? && MasterInside(Next(s, step).value)
    ensures var s' := Next(s, step).value; s' == s || Remaining(s') < Remaining(s)
  {
    match step
    case OpenSession =>
    case Add(_, _) =>
    case Enter(i) =>
      EnterReady(s, i);
      DecideEffort(s.(total := s.total + 1), i);
      assert Others(s, i) == s.threads;
    case RunCheck(i) =>
      var t := s.threads[i];
      SumUpdate(s.threads, i, t.(rest := t.rest[1..], ok := t.ok && t.rest[0]), Effort);
    case Finish(i) => FinishProgress(s, i);
    case Wake(i) => WakeProgress(s, i);
  }

  lemma WakeProgress(s: State, i: nat)
    requires Inv(s) && Enabled(s, Wake(i)) && MasterInside(s) && Next(s, Wake(i)).Done?
    requires MasterInside(Next(s, Wake(i)).value)
    ensures var s' := Next(s, Wake(i)).value; s' == s || Remaining(s') < Remaining(s)
  {
    var ready := s.(idle := s.idle - 1);
    WakeReady(s, i);
    DecideEffort(ready, i);
    SumUpdate(s.threads, i, Off, Effort);
    if s.queue == [] && !s.threads[i].notified {
      assert s.threads[i := Waiting(false)] == s.threads;
    }
  }

  lemma NotifyEffort(threads: seq<Thread>)
    requires threads != []
    ensures Sum(NotifyMaster(threads), Effort) <= Sum(threads, Effort) + 1
  {
    SumUpdate(threads, 0, Waiting(true), Effort);
  }

  lemma FinishProgress(s: State, i: nat)
    requires Inv(s) && Enabled(s, Finish(i)) && MasterInside(s) && Next(s, Finish(i)).Done?
    requires MasterInside(Next(s, Finish(i)).value)
    ensures Remaining(Next(s, Finish(i)).value) < Remaining(s)
  {
    var ready := CleanUp(s, i);
    FinishReady(s, i);
    DecideEffort(ready, i);
    SumUpdate(s.threads, i, Off, Effort);
    NotifyEffort(Others(s, i));
    if i != 0 {
      assert NotifyMaster(s.threads)[i := Off] == NotifyMaster(Others(s, i));
    }
    assert Sum(Others(ready, i), Effort) <= Sum(Others(s, i), Effort) + 1;
    hide Decide, CleanUp, Ready, Inv;
  }

  ghost predicate BringsNearer(s: State, step: Step)
    requires Enabled(s, step)
  {
    Next(s, step).Done? && (!MasterInside(Next(s, step).value) || Remaining(Next(s, step).value) < Remaining(s))
  }

  /** The master is never stuck: some thread can take a step that ends the wait or brings its end nearer. */
  lemma NoDeadlock(s: State)
    requires Inv(s) && MasterInside(s)
    ensures exists step :: Enabled(s, step) && BringsNearer(s, step)
  {
    var i := 0;
    if s.threads[0].Waiting? && !s.threads[0].notified {
      SomeoneWorks(s.threads);
      i :| 0 <= i < |s.threads| && s.threads[i].Working?;
    }
    var step := if s.threads[i].Waiting? then Wake(i) else if s.threads[i].rest == [] then Finish(i) else RunCheck(i);
    NextInv(s, step);
    if MasterInside(Next(s, step).value) {
      StepProgress(s, step);
      if Next(s, step).value == s {
        ProgressIsReal(s, step);
      }
    }
    assert BringsNearer(s, step);
  }

  /** These steps do change the state. */
  lemma ProgressIsReal(s: State, step: Step)
    requires Inv(s) && Enabled(s, step)
    requires step.RunCheck? || step.Finish? || (step.Wake? && s.threads[step.i].notified)
    requires MasterInside(s) && Next(s, step).Done? && MasterInside(Next(s, step).value)
    ensures Next(s, step).value != s
  {
    var s' := Next(s, step).value;
    match step
    case RunCheck(i) => assert |s'.threads[i].rest| < |s.threads[i].rest|;
    case Finish(i) => FinishProgress(s, i);
    case Wake(i) =>
      WakeReady(s, i);
      if s.queue != [] {
        BatchLengthFits(s.(idle := s.idle - 1));
      }
      assert !s'.threads[i].Waiting? || !s'.threads[i].notified;
  }

  /** A run in which the master stays inside and every step changes something. */
  ghost predicate BusyRun(s: State, steps: seq<Step>)
    decreases |steps|
  {
    steps != [] ==>
      && Enabled(s, steps[0]) && Next(s, steps[0]).Done?
      && MasterInside(Next(s, steps[0]).value) && Next(s, steps[0]).value != s
      && BusyRun(Next(s, steps[0]).value, steps[1..])
  }

  /** Wait ends: however the threads are scheduled, only so many steps can change anything before it returns. */
  lemma {:induction false} WaitEnds(s: State, steps: seq<Step>)
    requires Inv(s) && MasterInside(s) && BusyRun(s, steps)
    ensures |steps| <= Remaining(s)
    decreases |steps|
  {
    if steps != [] {
      NextInv(s, steps[0]);
      StepProgress(s, steps[0]);
      WaitEnds(Next(s, steps[0]).value, steps[1..]);
    }
  }

  ghost predicate EndsNotIdle(s: State, steps: seq<Step>) {
    var r := Run(s, steps);
    r.Done? && r.value.todo == 0 && !MasterInside(r.value) && !IsIdle(r.value)
  }

  /** One worker, one controller, one failing check: the states of a run that ends without Wait. */
  ghost function Failing(batchSize: nat, k: nat): State {
    var s := State([], 1, 1, true, 0, batchSize, [Off, Waiting(false)], Closed, []);
    match k
    case 0 => Init(1, batchSize)
    case 1 => s
    case 2 => s.(session := Open([]))
    case 3 => s.(queue := [false], todo := 1, threads := [Off, Waiting(true)], session := Open([false]))
    case 4 => s.(idle := 0, todo := 1, threads := [Off, Working([false], 1, true)], session := Open([false]))
    case 5 => s.(idle := 0, todo := 1, threads := [Off, Working([], 1, false)], session := Open([false]))
    case _ => s.(allOk := false, session := Open([false]))
  }

  ghost predicate Goes(s: State, step: Step, s': State) {
    Enabled(s, step) && Next(s, step) == Done(s')
  }

  lemma FailingStarts(b: nat)
    ensures Goes(Failing(b, 0), Enter(1), Failing(b, 1)) && Goes(Failing(b, 1), OpenSession, Failing(b, 2))
  {
    assert Init(1, b).threads[1 := Waiting(false)] == [Off, Waiting(false)];
  }

  lemma FailingAdds(b: nat)
    ensures Goes(Failing(b, 2), Add([false], 1), Failing(b, 3))
  {
    assert Notified([Off, Waiting(false)], 1, 1) == [Off, Waiting(true)];
    assert [] + [false] == [false];
  }

  lemma FailingTakes(b: nat)
    ensures Goes(Failing(b, 3), Wake(1), Failing(b, 4))
  {
    var s := Failing(b, 3).(idle := 0);
    BatchLengthFits(s);
    assert s.queue[..0] == [] && s.queue[0..] == [false] && Reversed([false]) == [false];
    hide BatchLength;
    assert [Off, Waiting(true)][1 := Working([false], 1, true)] == [Off, Working([false], 1, true)];
  }

  lemma FailingEnds(b: nat)
    ensures Goes(Failing(b, 4), RunCheck(1), Failing(b, 5)) && Goes(Failing(b, 5), Finish(1), Failing(b, 6))
  {
    var rest := [false][1..];
    assert rest == [];
    assert [Off, Working([false], 1, true)][1 := Working([], 1, false)] == [Off, Working([], 1, false)];
    assert [Off, Working([], 1, false)][1 := Waiting(false)] == [Off, Waiting(false)];
  }

  lemma RunsOf6(b: nat, steps: seq<Step>)
    requires |steps| == 6 && forall k :: 0 <= k < 6 ==> Goes(Failing(b, k), steps[k], Failing(b, k + 1))
    ensures Run(Failing(b, 0), steps) == Done(Failing(b, 6))
  {
    RunFrom(b, steps, 0);
    assert steps[0..] == steps;
  }

  lemma {:induction false} RunFrom(b: nat, steps: seq<Step>, k: nat)
    requires k <= |steps| && forall j :: 0 <= j < |steps| ==> Goes(Failing(b, j), steps[j], Failing(b, j + 1))
    ensures Run(Failing(b, k), steps[k..]) == Done(Failing(b, |steps|))
    decreases |steps| - k
  {
    hide Next, Failing;
    if k < |steps| {
      assert Goes(Failing(b, k), steps[k], Failing(b, k + 1));
      assert steps[k..][1..] == steps[k + 1..];
      RunFrom(b, steps, k + 1);
    }
  }

  /**
   * The verdict may already be false while a controller is alive and nothing is left to do: the
   * queue is then not idle.
   */
  lemma FailedSessionNotIdle(b: nat)
    ensures exists steps :: EndsNotIdle(Init(1, b), steps)
  {
    FailingStarts(b);
    FailingAdds(b);
    FailingTakes(b);
    FailingEnds(b);
    var steps := [Enter(1), OpenSession, Add([false], 1), Wake(1), RunCheck(1), Finish(1)];
    RunsOf6(b, steps);
    assert EndsNotIdle(Init(1, b), steps);
  }
}
