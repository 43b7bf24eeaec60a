/** A pool of workers that take tasks from a shared queue until it is shut down. A state holds the
    shared queue and what each worker is doing; an event is one atomic step of one thread. */
module ThreadPool {
  import opened Wrappers
  import opened Sequences
  import SynchronousQueues

  /** Tasks are told apart by a label; nothing below depends on labels being distinct. */
  type Task = nat

  /** A worker waits for the pool mutex and a task, has popped under the mutex, works outside it with
      its exit decision taken, or is gone. */
  datatype Worker = Waiting | Popped(task: Option<Task>) | Working(task: Option<Task>, last: bool) | Exited

  datatype Pool = Pool(
    queue: seq<Task>, done: bool, workers: seq<Worker>,
    submitted: seq<Task>,  // every task ever submitted, in order
    taken: seq<Task>,      // every task taken from the queue, in order
    ran: seq<Task>,        // every task run to its end, in order
    late: bool)            // whether a task was submitted after the shutdown flag was set

  datatype Event = Submit(task: Task) | Shutdown | Pop(w: nat) | Check(w: nat) | Finish(w: nat)

  function Start(n: nat): Pool {
    Pool([], false, seq(n, i => Waiting), [], [], [], false)
  }

  /** No worker is inside the critical section. */
  predicate MutexFree(s: Pool) {
    forall w | 0 <= w < |s.workers| :: !s.workers[w].Popped?
  }

  /** Submitting takes only the queue's own mutex; the flag and the pop need the pool's. A waiting
      worker goes on when there is a task or the pool is shutting down. */
  predicate Enabled(s: Pool, e: Event) {
    match e
    case Submit(_) => true
    case Shutdown => MutexFree(s)
    case Pop(w) => w < |s.workers| && s.workers[w].Waiting? && MutexFree(s) && (s.queue != [] || s.done)
    case Check(w) => w < |s.workers| && s.workers[w].Popped?
    case Finish(w) => w < |s.workers| && s.workers[w].Working?
  }

  function Next(s: Pool, e: Event): Pool
    requires Enabled(s, e)
  {
    match e
    case Submit(task) => s.(queue := s.queue + [task], submitted := s.submitted + [task], late := s.late || s.done)
    case Shutdown => s.(done := true)
    case Pop(w) =>
      if s.queue == [] then s.(workers := s.workers[w := Popped(None)])
      else s.(queue := s.queue[1..], taken := s.taken + [s.queue[0]], workers := s.workers[w := Popped(Some(s.queue[0]))])
    case Check(w) => s.(workers := s.workers[w := Working(s.workers[w].task, s.queue == [] && s.done)])
    case Finish(w) =>
      var after := if s.workers[w].last then Exited else Waiting;
      var task := s.workers[w].task;
      s.(ran := if task.Some? then s.ran + [task.value] else s.ran, workers := s.workers[w := after])
  }

  /** `t` is reached from `s` by these events. */
  ghost predicate Reaches(s: Pool, events: seq<Event>, t: Pool)
    decreases |events|
  {
    if events == [] then s == t
    else Enabled(s, events[0]) && Reaches(Next(s, events[0]), events[1..], t)
  }

  // ----- What every step keeps -----

  function Occurrences(s: seq<Task>, x: Task): nat {
    multiset(s)[x]
  }

  function InHand(w: Worker, x: Task): nat {
    if (w.Popped? || w.Working?) && w.task == Some(x) then 1 else 0
  }

  /** How many workers hold a task labelled so. */
  function Held(workers: seq<Worker>, x: Task): nat {
    if workers == [] then 0 else Held(workers[..|workers| - 1], x) + InHand(workers[|workers| - 1], x)
  }

  lemma {:induction false} HeldUpdate(workers: seq<Worker>, w: nat, worker: Worker, x: Task)
    requires w < |workers|
    ensures Held(workers[w := worker], x) == Held(workers, x) - InHand(workers[w], x) + InHand(worker, x)
  {
    hide InHand;
    var n := |workers| - 1;
    if w == n {
      assert workers[w := worker][..n] == workers[..n];
    } else {
      assert workers[w := worker][..n] == workers[..n][w := worker];
      HeldUpdate(workers[..n], w, worker, x);
    }
  }

  /** Tasks leave in the order they came, and a task that left is held by one worker or has run. */
  ghost predicate Conserved(s: Pool) {
    && s.taken + s.queue == s.submitted
    && forall x :: Occurrences(s.taken, x) == Occurrences(s.ran, x) + Held(s.workers, x)
  }

  /** A worker that has decided to stop. */
  predicate Stopping(w: Worker) {
    w.Exited? || (w.Working? && w.last)
  }

  /** A worker that got past the wait without a task. */
  predicate EmptyHanded(w: Worker) {
    (w.Popped? || w.Working?) && w.task == None
  }

  /** Workers stop, or come back without a task, only when the pool is shutting down and the queue is
      empty for good. */
  ghost predicate Draining(s: Pool) {
    && (s.late ==> s.done)
    && (forall w | 0 <= w < |s.workers| :: Stopping(s.workers[w]) || EmptyHanded(s.workers[w]) ==> s.done && (s.late || s.queue == []))
    && (forall w | 0 <= w < |s.workers| :: s.workers[w].Working? && EmptyHanded(s.workers[w]) ==> s.workers[w].last || s.late)
    && (forall w, x | 0 <= w < x < |s.workers| :: !(s.workers[w].Popped? && s.workers[x].Popped?))
  }

  ghost predicate Inv(s: Pool) {
    Conserved(s) && Draining(s)
  }

  lemma {:induction false} NothingHeld(workers: seq<Worker>, x: Task)
    requires forall w | 0 <= w < |workers| :: InHand(workers[w], x) == 0
    ensures Held(workers, x) == 0
  {
    if workers != [] {
      NothingHeld(workers[..|workers| - 1], x);
    }
  }

  lemma StartInv(n: nat)
    ensures Inv(Start(n))
  {
    forall x
      ensures Held(Start(n).workers, x) == 0
    {
      NothingHeld(Start(n).workers, x);
    }
  }

  lemma StepCounts(s: Pool, e: Event, x: Task)
    requires Enabled(s, e) && Occurrences(s.taken, x) == Occurrences(s.ran, x) + Held(s.workers, x)
    ensures Occurrences(Next(s, e).taken, x) == Occurrences(Next(s, e).ran, x) + Held(Next(s, e).workers, x)
  {
    hide Held;
    var t := Next(s, e);
    if !e.Submit? && !e.Shutdown? {
      HeldUpdate(s.workers, e.w, t.workers[e.w], x);
    }
  }

  lemma StepOrders(s: Pool, e: Event)
    requires Enabled(s, e) && s.taken + s.queue == s.submitted
    ensures Next(s, e).taken + Next(s, e).queue == Next(s, e).submitted
  {
    hide MutexFree;
    if e.Pop? && s.queue != [] {
      assert s.queue == [s.queue[0]] + s.queue[1..];
    }
  }

  lemma StepDrains(s: Pool, e: Event)
    requires Enabled(s, e) && Draining(s)
    ensures Draining(Next(s, e))
  {
  }

  lemma StepKeepsInv(s: Pool, e: Event)
    requires Inv(s) && Enabled(s, e)
    ensures Inv(Next(s, e))
  {
    StepOrders(s, e);
    StepDrains(s, e);
    hide Draining, Next, Enabled, Held;
    forall x
      ensures Occurrences(Next(s, e).taken, x) == Occurrences(Next(s, e).ran, x) + Held(Next(s, e).workers, x)
    {
      StepCounts(s, e, x);
    }
  }

  lemma {:induction false} RunKeepsInv(s: Pool, events: seq<Event>, t: Pool)
    requires Inv(s) && Reaches(s, events, t)
    ensures Inv(t)
    decreases |events|
  {
    hide Inv, Next, Enabled;
    if events != [] {
      StepKeepsInv(s, events[0]);
      RunKeepsInv(Next(s, events[0]), events[1..], t);
    }
  }

  // ----- Whole runs -----

  predicate AllExited(s: Pool) {
    forall w | 0 <= w < |s.workers| :: s.workers[w].Exited?
  }

  /** In every run, tasks are taken in the order they were submitted and none runs more often than it
      was submitted. */
  lemma NothingRunsTwice(n: nat, events: seq<Event>, t: Pool)
    requires Reaches(Start(n), events, t)
    ensures t.taken <= t.submitted
    ensures multiset(t.ran) <= multiset(t.submitted)
  {
    StartInv(n);
    RunKeepsInv(Start(n), events, t);
    hide Reaches, Held;
    forall x
      ensures multiset(t.ran)[x] <= multiset(t.submitted)[x]
    {
      assert Occurrences(t.taken, x) == Occurrences(t.ran, x) + Held(t.workers, x);
      assert multiset(t.submitted)[x] == multiset(t.taken)[x] + multiset(t.queue)[x];
    }
  }

  /** When all workers are gone and nothing was submitted after the shutdown flag was set, every task
      has run exactly once. */
  lemma PoolDrains(n: nat, events: seq<Event>, t: Pool)
    requires n > 0 && Reaches(Start(n), events, t) && AllExited(t) && !t.late
    ensures t.queue == [] && t.taken == t.submitted
    ensures multiset(t.ran) == multiset(t.submitted)
  {
    StartInv(n);
    RunKeepsInv(Start(n), events, t);
    SameWorkers(Start(n), events, t);
    hide Reaches;
    assert Stopping(t.workers[0]);
    forall x
      ensures multiset(t.ran)[x] == multiset(t.submitted)[x]
    {
      NothingHeld(t.workers, x);
      assert Occurrences(t.taken, x) == Occurrences(t.ran, x);
    }
  }

  lemma {:induction false} SameWorkers(s: Pool, events: seq<Event>, t: Pool)
    requires Reaches(s, events, t)
    ensures |t.workers| == |s.workers|
    decreases |events|
  {
    if events != [] {
      SameWorkers(Next(s, events[0]), events[1..], t);
    }
  }

  // ----- Shutting down ends -----

  predicate WorkerEvent(e: Event) {
    e.Pop? || e.Check? || e.Finish?
  }

  /** While a worker is left after shutdown, some worker can go on. */
  lemma SomeWorkerGoesOn(s: Pool)
    requires s.done && !AllExited(s)
    ensures exists e :: WorkerEvent(e) && Enabled(s, e)
  {
    if w :| 0 <= w < |s.workers| && s.workers[w].Popped? {
      assert WorkerEvent(Check(w)) && Enabled(s, Check(w));
    } else if w :| 0 <= w < |s.workers| && s.workers[w].Working? {
      assert WorkerEvent(Finish(w)) && Enabled(s, Finish(w));
    } else {
      var w :| 0 <= w < |s.workers| && !s.workers[w].Exited?;
      assert WorkerEvent(Pop(w)) && Enabled(s, Pop(w));
    }
  }

  function Weight(w: Worker): nat {
    match w
    case Waiting => 3
    case Popped(task) => if task.Some? then 6 else 2
    case Working(task, _) => if task.Some? then 5 else 1
    case Exited => 0
  }

  function Weights(workers: seq<Worker>): nat {
    if workers == [] then 0 else Weights(workers[..|workers| - 1]) + Weight(workers[|workers| - 1])
  }

  /** A bound on the worker steps that are left after shutdown. */
  function StepsLeft(s: Pool): nat {
    4 * |s.queue| + Weights(s.workers)
  }

  lemma {:induction false} WeightsUpdate(workers: seq<Worker>, w: nat, worker: Worker)
    requires w < |workers|
    ensures Weights(workers[w := worker]) == Weights(workers) - Weight(workers[w]) + Weight(worker)
  {
    hide Weight;
    var n := |workers| - 1;
    if w == n {
      assert workers[w := worker][..n] == workers[..n];
    } else {
      assert workers[w := worker][..n] == workers[..n][w := worker];
      WeightsUpdate(workers[..n], w, worker);
    }
  }

  lemma StepIsTaken(s: Pool, e: Event)
    requires Draining(s) && s.done && !s.late && WorkerEvent(e) && Enabled(s, e)
    ensures StepsLeft(Next(s, e)) < StepsLeft(s) && Next(s, e).done && !Next(s, e).late
  {
    hide Weights, MutexFree;
    WeightsUpdate(s.workers, e.w, Next(s, e).workers[e.w]);
  }

  /** After shutdown, with nothing submitted any more, the workers take a bounded number of steps; and
      where they can take none, all are gone. So joining them ends. */
  lemma {:induction false} ShutdownEnds(s: Pool, events: seq<Event>, t: Pool)
    requires Inv(s) && s.done && !s.late && Reaches(s, events, t)
    requires forall i | 0 <= i < |events| :: WorkerEvent(events[i])
    ensures |events| + StepsLeft(t) <= StepsLeft(s)
    ensures (forall e :: WorkerEvent(e) ==> !Enabled(t, e)) ==> AllExited(t)
    decreases |events|
  {
    hide Conserved, Draining, Next, Enabled, StepsLeft, AllExited;
    if events == [] {
      if !AllExited(t) {
        SomeWorkerGoesOn(t);
      }
    } else {
      StepIsTaken(s, events[0]);
      StepKeepsInv(s, events[0]);
      ShutdownEnds(Next(s, events[0]), events[1..], t);
    }
  }

  // ----- Submitting too late -----

  lemma {:induction false} ReachesThen(s: Pool, first: seq<Event>, t: Pool, second: seq<Event>, u: Pool)
    requires Reaches(s, first, t) && Reaches(t, second, u)
    ensures Reaches(s, first + second, u)
    decreases |first|
  {
    hide Next, Enabled;
    if first == [] {
      assert first + second == second;
    } else {
      ReachesThen(Next(s, first[0]), first[1..], t, second, u);
      assert (first + second)[1..] == first[1..] + second;
    }
  }

  /** The idle pool of `n` workers, shutting down, with the first `k` gone. */
  function Leaving(n: nat, k: nat): Pool {
    Start(n).(done := true, workers := seq(n, i => if i < k then Exited else Waiting))
  }

  lemma OneLeaves(n: nat, k: nat)
    requires k < n
    ensures Reaches(Leaving(n, k), [Pop(k), Check(k), Finish(k)], Leaving(n, k + 1))
  {
    var s := Leaving(n, k);
    var a := Next(s, Pop(k));
    var b := Next(a, Check(k));
    assert Next(b, Finish(k)) == Leaving(n, k + 1);
    ThreeSteps(s, Pop(k), Check(k), Finish(k));
  }

  lemma ThreeSteps(s: Pool, e: Event, f: Event, g: Event)
    requires Enabled(s, e) && Enabled(Next(s, e), f) && Enabled(Next(Next(s, e), f), g)
    ensures Reaches(s, [e, f, g], Next(Next(Next(s, e), f), g))
  {
    hide Enabled, Next;
    assert [e, f, g][1..] == [f, g] && [f, g][1..] == [g];
    assert Reaches(Next(Next(s, e), f), [g], Next(Next(Next(s, e), f), g));
    assert Reaches(Next(s, e), [f, g], Next(Next(Next(s, e), f), g));
  }

  lemma {:induction false} AllLeave(n: nat, k: nat) returns (events: seq<Event>)
    requires k <= n
    ensures Reaches(Leaving(n, 0), events, Leaving(n, k))
  {
    hide Leaving;
    if k == 0 {
      events := [];
    } else {
      var before := AllLeave(n, k - 1);
      OneLeaves(n, k - 1);
      hide Reaches;
      events := before + [Pop(k - 1), Check(k - 1), Finish(k - 1)];
      ReachesThen(Leaving(n, 0), before, Leaving(n, k - 1), [Pop(k - 1), Check(k - 1), Finish(k - 1)], Leaving(n, k));
    }
  }

  /** The condition is needed: whatever the number of workers, a task submitted after shutdown can be
      left in the queue of a pool whose workers are all gone. */
  lemma LateTaskIsLost(n: nat, task: Task) returns (events: seq<Event>, t: Pool)
    ensures Reaches(Start(n), events, t) && AllExited(t) && t.queue == [task] && t.ran == [] && t.late
  {
    var leave := AllLeave(n, n);
    assert Next(Start(n), Shutdown) == Leaving(n, 0);
    t := Next(Leaving(n, n), Submit(task));
    assert Reaches(Leaving(n, n), [Submit(task)], t);
    assert Reaches(Start(n), [Shutdown], Leaving(n, 0));
    hide Next, Enabled, Reaches;
    ReachesThen(Start(n), [Shutdown], Leaving(n, 0), leave, Leaving(n, n));
    ReachesThen(Start(n), [Shutdown] + leave, Leaving(n, n), [Submit(task)], t);
    events := [Shutdown] + leave + [Submit(task)];
  }

  // ----- When a pool drains -----

  predicate IsCall(e: Event) {
    e.Submit? || e.Shutdown?
  }

  predicate AllCalls(calls: seq<Event>) {
    forall i | 0 <= i < |calls| :: IsCall(calls[i])
  }

  function CallOf(e: Event): seq<Event> {
    if IsCall(e) then [e] else []
  }

  /** What the pool's user did, in order. */
  function Calls(events: seq<Event>): seq<Event> {
    if events == [] then [] else CallOf(events[0]) + Calls(events[1..])
  }

  /** A task is submitted behind a shutdown. */
  predicate Late(calls: seq<Event>, done: bool) {
    calls != [] && ((calls[0].Submit? && done) || Late(calls[1..], done || calls[0].Shutdown?))
  }

  function Brings(e: Event): seq<Task> {
    if e.Submit? then [e.task] else []
  }

  function Submitted(calls: seq<Event>): seq<Task> {
    if calls == [] then [] else Brings(calls[0]) + Submitted(calls[1..])
  }

  /** What a run's calls say about its end. */
  lemma {:induction false} CallsTell(s: Pool, events: seq<Event>, t: Pool)
    requires Reaches(s, events, t)
    ensures t.submitted == s.submitted + Submitted(Calls(events))
    ensures t.late == (s.late || Late(Calls(events), s.done))
    ensures t.done == (s.done || Shutdown in events)
    decreases |events|
  {
    if events != [] {
      var e, next := events[0], Next(s, events[0]);
      CallTells(s, e);
      CallsTell(next, events[1..], t);
      hide Reaches, Enabled, Next;
      var calls := Calls(events[1..]);
      assert Shutdown in events <==> e.Shutdown? || Shutdown in events[1..] by {
        assert events == [e] + events[1..];
      }
      if IsCall(e) {
        assert Calls(events) == [e] + calls && ([e] + calls)[1..] == calls;
        InThree(s.submitted, Brings(e), Submitted(calls));
      } else {
        assert Calls(events) == calls;
      }
    }
  }

  lemma CallTells(s: Pool, e: Event)
    requires Enabled(s, e)
    ensures Next(s, e).submitted == s.submitted + Brings(e)
    ensures Next(s, e).late == (s.late || (e.Submit? && s.done))
    ensures Next(s, e).done == (s.done || e.Shutdown?)
  {
    hide MutexFree;
    assert s.submitted + [] == s.submitted;
  }

  /** While no worker is in its critical section, any calls can be made in one go. */
  lemma {:induction false} MakeCalls(s: Pool, calls: seq<Event>) returns (t: Pool)
    requires AllCalls(calls) && MutexFree(s)
    ensures Reaches(s, calls, t) && Calls(calls) == calls && t.workers == s.workers && t.ran == s.ran
    decreases |calls|
  {
    if calls == [] {
      t := s;
    } else {
      var e := calls[0];
      assert IsCall(e);
      OneCall(s, e);
      hide Enabled, Next, MutexFree, IsCall;
      t := MakeCalls(Next(s, e), calls[1..]);
      assert calls == [e] + calls[1..];
    }
  }

  lemma OneCall(s: Pool, e: Event)
    requires IsCall(e) && MutexFree(s)
    ensures Enabled(s, e) && Next(s, e).workers == s.workers && Next(s, e).ran == s.ran
    ensures MutexFree(Next(s, e)) && CallOf(e) == [e]
  {
  }

  /** After shutdown the workers can run until all are gone. */
  lemma {:induction false} RunOut(s: Pool) returns (events: seq<Event>, t: Pool)
    requires Inv(s) && s.done && !s.late
    ensures Reaches(s, events, t) && AllExited(t) && Calls(events) == []
    decreases StepsLeft(s)
  {
    hide Inv, Next, Enabled, StepsLeft, AllExited;
    if AllExited(s) {
      events, t := [], s;
    } else {
      SomeWorkerGoesOn(s);
      var e :| WorkerEvent(e) && Enabled(s, e);
      DrainingOf(s);
      StepIsTaken(s, e);
      StepKeepsInv(s, e);
      var more;
      more, t := RunOut(Next(s, e));
      events := [e] + more;
      assert events[1..] == more;
    }
  }

  lemma DrainingOf(s: Pool)
    requires Inv(s)
    ensures Draining(s)
  {
    hide Draining, Conserved;
  }

  lemma {:induction false} CallsConcat(first: seq<Event>, second: seq<Event>)
    ensures Calls(first + second) == Calls(first) + Calls(second)
  {
    if first == [] {
      assert first + second == second;
    } else {
      hide CallOf;
      assert (first + second)[0] == first[0] && (first + second)[1..] == first[1..] + second;
      CallsConcat(first[1..], second);
      assert CallOf(first[0]) + (Calls(first[1..]) + Calls(second)) == CallOf(first[0]) + Calls(first[1..]) + Calls(second);
    }
  }

  /** Calls of which one is late, cut behind the first shutdown. */
  lemma {:induction false} FirstShutdown(calls: seq<Event>) returns (k: nat)
    requires Late(calls, false)
    ensures k < |calls| && calls[k].Shutdown? && !Late(calls[..k + 1], false) && Submitted(calls[k + 1..]) != []
  {
    if calls[0].Shutdown? {
      k := 0;
      assert calls[..1][1..] == [];
      LateSubmits(calls[1..]);
    } else {
      var j := FirstShutdown(calls[1..]);
      k := j + 1;
      assert calls[..k + 1][1..] == calls[1..][..j + 1];
      assert calls[1..][j + 1..] == calls[k + 1..];
    }
  }

  lemma {:induction false} LateSubmits(calls: seq<Event>)
    requires Late(calls, true)
    ensures Submitted(calls) != []
  {
    if !calls[0].Submit? {
      LateSubmits(calls[1..]);
    }
  }

  /** Calls up to a shutdown, after which all workers leave. */
  lemma RunToEnd(n: nat, calls: seq<Event>) returns (events: seq<Event>, t: Pool)
    requires n > 0 && AllCalls(calls) && !Late(calls, false) && Shutdown in calls
    ensures Reaches(Start(n), events, t) && AllExited(t) && Calls(events) == calls && |t.ran| == |t.submitted|
  {
    hide Reaches, AllExited, Inv, MutexFree, Late, Calls, Submitted;
    IdleMutexFree(n);
    var s := MakeCalls(Start(n), calls);
    CallsTell(Start(n), calls, s);
    StartInv(n);
    RunKeepsInv(Start(n), calls, s);
    var leaving;
    leaving, t := RunOut(s);
    ReachesThen(Start(n), calls, s, leaving, t);
    events := calls + leaving;
    CallsConcat(calls, leaving);
    assert calls + [] == calls;
    CallsTell(Start(n), events, t);
    PoolDrains(n, events, t);
    assert |t.ran| == |multiset(t.ran)| == |multiset(t.submitted)| == |t.submitted|;
  }

  /** A run that makes the calls up to the first shutdown, lets all workers go, and makes the others. */
  lemma LateCallsLose(n: nat, calls: seq<Event>) returns (events: seq<Event>, t: Pool)
    requires n > 0 && AllCalls(calls) && Late(calls, false)
    ensures Reaches(Start(n), events, t) && AllExited(t) && Calls(events) == calls
    ensures |t.ran| < |t.submitted|
  {
    var k := FirstShutdown(calls);
    var first, second := calls[..k + 1], calls[k + 1..];
    assert calls == first + second && first[k] == Shutdown;
    assert AllCalls(first) && AllCalls(second);
    hide Reaches, AllExited, MutexFree, Late, Calls, Submitted, AllCalls;
    var begin, u := RunToEnd(n, first);
    GoneMutexFree(u);
    t := MakeCalls(u, second);
    CallsTell(u, second, t);
    ReachesThen(Start(n), begin, u, second, t);
    events := begin + second;
    CallsConcat(begin, second);
    StillGone(u, t);
  }

  lemma IdleMutexFree(n: nat)
    ensures MutexFree(Start(n)) && !Start(n).done && !Start(n).late
  {
  }

  lemma GoneMutexFree(s: Pool)
    requires AllExited(s)
    ensures MutexFree(s)
  {
  }

  lemma StillGone(s: Pool, t: Pool)
    requires AllExited(s) && t.workers == s.workers
    ensures AllExited(t)
  {
  }

  /** Every run in which these calls are made and all workers leave has run every task if and only if no
      task is submitted behind a shutdown. */
  lemma DrainsExactly(n: nat, calls: seq<Event>)
    requires n > 0 && AllCalls(calls)
    ensures (forall events, t :: Reaches(Start(n), events, t) && AllExited(t) && Calls(events) == calls ==> multiset(t.ran) == multiset(t.submitted))
            <==> !Late(calls, false)
  {
    hide Reaches, AllExited, Late, Calls;
    if Late(calls, false) {
      var events, t := LateCallsLose(n, calls);
      assert |multiset(t.ran)| < |multiset(t.submitted)|;
    } else {
      forall events, t | Reaches(Start(n), events, t) && AllExited(t) && Calls(events) == calls
        ensures multiset(t.ran) == multiset(t.submitted)
      {
        CallsTell(Start(n), events, t);
        PoolDrains(n, events, t);
      }
    }
  }

  // ----- The pool as an object -----

  /** The pool with what its workers have in hand. Each method is one atomic step of a thread. */
  class ThreadPool {
    const taskQueue: SynchronousQueues.SynchronousQueue<Task>
    var done: bool
    var workers: seq<Worker>
    var ran: seq<Task>
    ghost var submitted: seq<Task>
    ghost var taken: seq<Task>
    ghost var late: bool

    ghost function State(): Pool
      reads this, taskQueue
    {
      Pool(taskQueue.queue, done, workers, submitted, taken, ran, late)
    }

    constructor (nThreads: nat)
      ensures State() == Start(nThreads) && fresh(taskQueue)
    {
      taskQueue := new SynchronousQueues.SynchronousQueue<Task>();
      done, late := false, false;
      workers := seq(nThreads, i => Waiting);
      ran, submitted, taken := [], [], [];
    }

    method Run(task: Task)
      modifies this, taskQueue
      ensures State() == Next(old(State()), Submit(task))
    {
      taskQueue.Push(task);
      submitted := submitted + [task];
      late := late || done;
    }

    method SetDone()
      requires Enabled(State(), Shutdown)
      modifies `done
      ensures State() == Next(old(State()), Shutdown)
    {
      done := true;
    }

    /** A worker enters its critical section and takes a task, if there is one. */
    method Dequeue(w: nat)
      requires Enabled(State(), Pop(w))
      modifies this, taskQueue
      ensures State() == Next(old(State()), Pop(w))
    {
      var task := taskQueue.Pop();
      if task.Some? {
        taken := taken + [task.value];
      }
      workers := workers[w := Popped(task)];
    }

    /** It decides whether it has done its work, and leaves the critical section. */
    method Decide(w: nat)
      requires Enabled(State(), Check(w))
      modifies `workers
      ensures State() == Next(old(State()), Check(w))
    {
      var empty := taskQueue.IsEmpty();
      workers := workers[w := Working(workers[w].task, empty && done)];
    }

    /** It runs its task, and goes on or ends. */
    method Work(w: nat)
      requires Enabled(State(), Finish(w))
      modifies `workers, `ran
      ensures State() == Next(old(State()), Finish(w))
    {
      if workers[w].task.Some? {
        ran := ran + [workers[w].task.value];
      }
      workers := workers[w := if workers[w].last then Exited else Waiting];
    }

    /** The worker's loop after shutdown, with the other workers outside their critical sections: it runs
        all that is queued, in order, and ends. */
    method DrainBy(w: nat)
      requires done && w < |workers| && workers[w].Waiting? && MutexFree(State())
      modifies this, taskQueue
      ensures taskQueue.queue == [] && ran == old(ran) + old(taskQueue.queue)
      ensures done && workers == old(workers)[w := Exited]
    {
      var doneWorking := false;
      while !doneWorking
        invariant done && workers == old(workers)[w := if doneWorking then Exited else Waiting]
        invariant ran + taskQueue.queue == old(ran) + old(taskQueue.queue)
        invariant doneWorking ==> taskQueue.queue == []
        decreases !doneWorking, |taskQueue.queue|
      {
        ghost var queue, before := taskQueue.queue, ran;
        assert MutexFree(State());
        Dequeue(w);
        Decide(w);
        Work(w);
        doneWorking := workers[w].Exited?;
        assert queue != [] ==> queue == [queue[0]] + queue[1..];
        assert ran + taskQueue.queue == before + queue;
      }
    }

    /** The shutdown of an idle pool: the flag, and the workers one after the other to their ends. The first
        one runs all that is queued. */
    method ShutDown()
      requires !done && |workers| > 0 && forall w | 0 <= w < |workers| :: workers[w].Waiting?
      modifies this, taskQueue
      ensures done && AllExited(State()) && taskQueue.queue == [] && ran == old(ran) + old(taskQueue.queue)
    {
      SetDone();
      for w := 0 to |workers|
        invariant done && |workers| == old(|workers|)
        invariant forall v | 0 <= v < |workers| :: workers[v] == if v < w then Exited else Waiting
        invariant ran + taskQueue.queue == old(ran) + old(taskQueue.queue)
        invariant w > 0 ==> taskQueue.queue == []
      {
        DrainBy(w);
      }
    }
  }
}
