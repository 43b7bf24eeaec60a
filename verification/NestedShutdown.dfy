/** The server's pool from the moment its shutdown flag is set. Nothing arrives any more and nobody blocks
    any more: workers take what is queued, and end when the queue was empty behind what they took. */
module NestedShutdown {
  import opened NestedPool

  /** What a worker does, and whether it has decided to end with it. */
  datatype Closer =
    | Looking
    | Prepares(id: nat, last: bool) | Produces(id: nat, last: bool) | Awaits(id: nat, last: bool)
    | Transmits(id: nat, last: bool)
    | Exited

  datatype Closing = Closing(queue: seq<Job>, workers: seq<Closer>)

  datatype Step = Pop(w: nat) | Enqueue(w: nat) | FinishProducing(w: nat) | FinishSending(w: nat) | Reply(w: nat)

  /** An announcement still to be made wakes nobody, for all have been woken. */
  function AtFlag(w: Worker): Closer {
    match w
    case Free => Looking
    case Checking => Looking
    case Blocked => Looking
    case Preparing(id) => Prepares(id, false)
    case Announcing(id) => Produces(id, false)
    case Producing(id) => Produces(id, false)
    case Awaiting(id) => Awaits(id, false)
    case Transmitting(id) => Transmits(id, false)
  }

  function FromFlag(s: Server): Closing {
    Closing(s.queue, seq(|s.workers|, w requires 0 <= w < |s.workers| => AtFlag(s.workers[w])))
  }

  predicate AwaitedBy(p: Closing, v: nat, id: nat) {
    v < |p.workers| && p.workers[v].Awaits? && p.workers[v].id == id
  }

  /** Nobody runs the transmission, and it is not queued. */
  predicate Over(p: Closing, id: nat) {
    && Transmit(id) !in p.queue
    && forall w | 0 <= w < |p.workers| :: !(p.workers[w].Transmits? && p.workers[w].id == id)
  }

  ghost predicate Can(p: Closing, e: Step) {
    && e.w < |p.workers|
    && var worker := p.workers[e.w];
    match e
    case Pop(_) => worker.Looking?
    case Enqueue(_) => worker.Prepares?
    case FinishProducing(_) => worker.Produces?
    case FinishSending(_) => worker.Transmits? && exists v: nat :: AwaitedBy(p, v, worker.id)
    case Reply(_) => worker.Awaits? && Over(p, worker.id)
  }

  function Begun(job: Job, last: bool): Closer {
    if job.Request? then Prepares(job.id, last) else Transmits(job.id, last)
  }

  function Ends(last: bool): Closer {
    if last then Exited else Looking
  }

  function After(p: Closing, e: Step): Closing
    requires Can(p, e)
  {
    var worker := p.workers[e.w];
    match e
    case Pop(w) =>
      if p.queue == [] then p.(workers := p.workers[w := Exited])
      else Closing(p.queue[1..], p.workers[w := Begun(p.queue[0], |p.queue| == 1)])
    case Enqueue(w) => Closing(p.queue + [Transmit(worker.id)], p.workers[w := Produces(worker.id, worker.last)])
    case FinishProducing(w) => p.(workers := p.workers[w := Awaits(worker.id, worker.last)])
    case FinishSending(w) => p.(workers := p.workers[w := Ends(worker.last)])
    case Reply(w) => p.(workers := p.workers[w := Ends(worker.last)])
  }

  ghost predicate Leads(p: Closing, steps: seq<Step>, q: Closing)
    decreases |steps|
  {
    if steps == [] then p == q
    else Can(p, steps[0]) && Leads(After(p, steps[0]), steps[1..], q)
  }

  ghost predicate Still(p: Closing) {
    forall e: Step :: !Can(p, e)
  }

  predicate AllGone(p: Closing) {
    forall w | 0 <= w < |p.workers| :: p.workers[w].Exited?
  }

  /** Joining the workers returns, whatever they do in what order. */
  ghost predicate AlwaysEnds(p: Closing) {
    forall steps, q :: Leads(p, steps, q) && Still(q) ==> AllGone(q)
  }

  // ----- Every run is bounded -----

  function JobWork(job: Job): nat {
    if job.Request? then 6 else 2
  }

  function WorkerWork(w: Closer): nat {
    match w
    case Looking => 1
    case Prepares(_, _) => 6
    case Produces(_, _) => 3
    case Awaits(_, _) => 2
    case Transmits(_, _) => 2
    case Exited => 0
  }

  function QueueWork(queue: seq<Job>): nat {
    if queue == [] then 0 else JobWork(queue[0]) + QueueWork(queue[1..])
  }

  function WorkersWork(workers: seq<Closer>): nat {
    if workers == [] then 0 else WorkersWork(workers[..|workers| - 1]) + WorkerWork(workers[|workers| - 1])
  }

  function Work(p: Closing): nat {
    QueueWork(p.queue) + WorkersWork(p.workers)
  }

  lemma {:induction false} QueueWorkAppend(queue: seq<Job>, job: Job)
    ensures QueueWork(queue + [job]) == QueueWork(queue) + JobWork(job)
  {
    hide JobWork;
    if queue == [] {
      assert queue + [job] == [job];
      assert [job][1..] == [];
    } else {
      assert (queue + [job])[1..] == queue[1..] + [job];
      QueueWorkAppend(queue[1..], job);
    }
  }

  lemma {:induction false} WorkersWorkUpdate(workers: seq<Closer>, w: nat, after: Closer)
    requires w < |workers|
    ensures WorkersWork(workers[w := after]) == WorkersWork(workers) - WorkerWork(workers[w]) + WorkerWork(after)
  {
    hide WorkerWork;
    var n := |workers| - 1;
    if w == n {
      assert workers[w := after][..n] == workers[..n];
    } else {
      assert workers[w := after][..n] == workers[..n][w := after];
      WorkersWorkUpdate(workers[..n], w, after);
    }
  }

  lemma StepWorks(p: Closing, e: Step)
    requires Can(p, e)
    ensures Work(After(p, e)) < Work(p)
  {
    WorkersWorkUpdate(p.workers, e.w, After(p, e).workers[e.w]);
    if e.Enqueue? {
      QueueWorkAppend(p.queue, Transmit(p.workers[e.w].id));
    }
    hide WorkersWork;
  }

  lemma {:induction false} ClosingIsBounded(p: Closing, steps: seq<Step>, q: Closing)
    requires Leads(p, steps, q)
    ensures |steps| + Work(q) <= Work(p)
    decreases |steps|
  {
    hide Can, After, Work;
    if steps != [] {
      StepWorks(p, steps[0]);
      ClosingIsBounded(After(p, steps[0]), steps[1..], q);
    }
  }

  // ----- What every step keeps -----

  predicate OwnedBy(p: Closing, v: nat, id: nat) {
    v < |p.workers| && (p.workers[v].Produces? || p.workers[v].Awaits?) && p.workers[v].id == id
  }

  ghost predicate HasOwner(p: Closing, id: nat) {
    exists v: nat :: OwnedBy(p, v, id)
  }

  /** A transmission that runs has its request waiting behind it, or producing. */
  ghost predicate RunningOwned(p: Closing) {
    && (forall w | 0 <= w < |p.workers| && p.workers[w].Transmits? :: HasOwner(p, p.workers[w].id))
    && (forall i | 0 <= i < |p.queue| && p.queue[i].Transmit? :: HasOwner(p, p.queue[i].id))
  }

  predicate Leaving(w: Closer) {
    w.Exited? || (!w.Looking? && w.last)
  }

  /** Whoever has decided to end found no request left in the queue. */
  predicate LeaveNoRequest(p: Closing) {
    forall w, i | 0 <= w < |p.workers| && 0 <= i < |p.queue| && Leaving(p.workers[w]) :: !p.queue[i].Request?
  }

  lemma StepOwner(p: Closing, e: Step, id: nat)
    requires Can(p, e) && HasOwner(p, id)
    requires e.Reply? ==> p.workers[e.w].id != id
    ensures HasOwner(After(p, e), id)
  {
    var v: nat :| OwnedBy(p, v, id);
    assert OwnedBy(After(p, e), v, id);
  }

  lemma NewQueued(p: Closing, e: Step, i: nat)
    requires Can(p, e) && i < |After(p, e).queue|
    ensures After(p, e).queue[i] in p.queue || (e.Enqueue? && After(p, e).queue[i] == Transmit(p.workers[e.w].id))
  {
  }

  lemma NewRunning(p: Closing, e: Step, w: nat)
    requires Can(p, e) && w < |After(p, e).workers| && After(p, e).workers[w].Transmits?
    ensures (w < |p.workers| && p.workers[w] == After(p, e).workers[w]) || Transmit(After(p, e).workers[w].id) in p.queue
  {
  }

  lemma QueuedKept(p: Closing, e: Step, i: nat)
    requires RunningOwned(p) && Can(p, e) && i < |After(p, e).queue| && After(p, e).queue[i].Transmit?
    ensures HasOwner(After(p, e), After(p, e).queue[i].id)
  {
    var q := After(p, e);
    NewQueued(p, e, i);
    if q.queue[i] in p.queue {
      StepOwner(p, e, q.queue[i].id);
    } else {
      assert OwnedBy(q, e.w, q.queue[i].id);
    }
  }

  lemma RunningKept(p: Closing, e: Step, w: nat)
    requires RunningOwned(p) && Can(p, e) && w < |After(p, e).workers| && After(p, e).workers[w].Transmits?
    ensures HasOwner(After(p, e), After(p, e).workers[w].id)
  {
    NewRunning(p, e, w);
    StepOwner(p, e, After(p, e).workers[w].id);
  }

  lemma KeepsRunningOwned(p: Closing, e: Step)
    requires RunningOwned(p) && Can(p, e)
    ensures RunningOwned(After(p, e))
  {
    var q := After(p, e);
    hide HasOwner, Can, After;
    forall w | 0 <= w < |q.workers| && q.workers[w].Transmits?
      ensures HasOwner(q, q.workers[w].id)
    {
      RunningKept(p, e, w);
    }
    forall i | 0 <= i < |q.queue| && q.queue[i].Transmit?
      ensures HasOwner(q, q.queue[i].id)
    {
      QueuedKept(p, e, i);
    }
  }

  lemma KeepsLeaveNoRequest(p: Closing, e: Step)
    requires LeaveNoRequest(p) && Can(p, e)
    ensures LeaveNoRequest(After(p, e))
  {
  }

  /** Where nobody but perhaps `a`, who prepares, can go on, the others are gone or await what is queued. */
  lemma OthersWait(p: Closing, a: nat, w: nat)
    requires RunningOwned(p) && w < |p.workers| && w != a
    requires forall e: Step | e.w != a :: !Can(p, e)
    requires a < |p.workers| ==> p.workers[a].Prepares?
    ensures p.workers[w].Exited? || (p.workers[w].Awaits? && Transmit(p.workers[w].id) in p.queue)
  {
    assert !Can(p, Pop(w)) && !Can(p, Enqueue(w)) && !Can(p, FinishProducing(w));
    NobodyTransmits(p, a, w);
    if p.workers[w].Awaits? {
      assert !Can(p, Reply(w));
      forall v | 0 <= v < |p.workers|
        ensures !p.workers[v].Transmits?
      {
        if v != a {
          NobodyTransmits(p, a, v);
        }
      }
    }
  }

  lemma NobodyTransmits(p: Closing, a: nat, w: nat)
    requires RunningOwned(p) && w < |p.workers| && w != a
    requires forall e: Step | e.w != a :: !Can(p, e)
    requires a < |p.workers| ==> p.workers[a].Prepares?
    ensures !p.workers[w].Transmits?
  {
    assert !Can(p, FinishSending(w));
    forall v | 0 <= v < |p.workers| && v != a
      ensures !p.workers[v].Produces?
    {
      assert !Can(p, FinishProducing(v));
    }
    if p.workers[w].Transmits? {
      assert HasOwner(p, p.workers[w].id);
      var v: nat :| OwnedBy(p, v, p.workers[w].id);
      assert AwaitedBy(p, v, p.workers[w].id);
    }
  }

  // ----- When it always ends -----

  /** No request is still to be submitted. */
  predicate NothingToSubmit(p: Closing) {
    && (forall i | 0 <= i < |p.queue| :: p.queue[i].Transmit?)
    && (forall w | 0 <= w < |p.workers| :: !p.workers[w].Prepares?)
  }

  /** A worker that has not gone and does not wait for what is queued. */
  predicate Helps(p: Closing, w: nat) {
    && w < |p.workers| && !p.workers[w].Exited?
    && (p.workers[w].Produces? || p.workers[w].Awaits? ==> Transmit(p.workers[w].id) !in p.queue)
  }

  ghost predicate HasHelp(p: Closing) {
    p.queue == [] || exists w: nat :: Helps(p, w)
  }

  /** Whoever has decided to end found the queue empty. */
  predicate LeaveNothing(p: Closing) {
    p.queue == [] || forall w | 0 <= w < |p.workers| :: !Leaving(p.workers[w])
  }

  ghost predicate Good(p: Closing) {
    NothingToSubmit(p) && HasHelp(p)
  }

  lemma KeepsGood(p: Closing, e: Step)
    requires Good(p) && LeaveNothing(p) && Can(p, e)
    ensures Good(After(p, e)) && LeaveNothing(After(p, e))
  {
    var q := After(p, e);
    assert !p.workers[e.w].Prepares?;
    if q.queue != [] {
      if e.FinishProducing? {
        var w: nat :| Helps(p, w);
        assert Helps(q, w);
      } else {
        assert Helps(q, e.w);
      }
    }
  }

  lemma GoodEnds(p: Closing)
    requires Good(p) && LeaveNothing(p) && RunningOwned(p) && Still(p)
    ensures AllGone(p)
  {
    var nobody := |p.workers|;
    if p.queue != [] {
      var w: nat :| Helps(p, w);
      OthersWait(p, nobody, w);
    }
    forall w | 0 <= w < |p.workers|
      ensures p.workers[w].Exited?
    {
      OthersWait(p, nobody, w);
    }
  }

  lemma {:induction false} GoodAlwaysEnds(p: Closing, steps: seq<Step>, q: Closing)
    requires Good(p) && LeaveNothing(p) && RunningOwned(p) && Leads(p, steps, q) && Still(q)
    ensures AllGone(q)
    decreases |steps|
  {
    hide Can, After, Good, LeaveNothing, RunningOwned, Still, AllGone;
    if steps == [] {
      GoodEnds(p);
    } else {
      KeepsGood(p, steps[0]);
      KeepsRunningOwned(p, steps[0]);
      GoodAlwaysEnds(After(p, steps[0]), steps[1..], q);
    }
  }

  // ----- When it may not -----

  lemma OneMore(p: Closing, e: Step, steps: seq<Step>, q: Closing)
    requires Can(p, e) && Leads(After(p, e), steps, q)
    ensures Leads(p, [e] + steps, q)
  {
    assert ([e] + steps)[1..] == steps;
  }

  /** Every worker waits for what is queued: none of them ever takes it. */
  predicate AllWait(p: Closing) {
    forall w | 0 <= w < |p.workers| :: (p.workers[w].Produces? || p.workers[w].Awaits?) && Transmit(p.workers[w].id) in p.queue
  }

  lemma {:induction false} WaitForEver(p: Closing) returns (steps: seq<Step>, q: Closing)
    requires AllWait(p) && |p.workers| > 0
    ensures Leads(p, steps, q) && Still(q) && !AllGone(q)
    decreases Work(p)
  {
    if e: Step :| Can(p, e) {
      StepWorks(p, e);
      StillAllWait(p, e);
      hide Can, After, AllWait, Work, Still, AllGone;
      steps, q := WaitForEver(After(p, e));
      OneMore(p, e, steps, q);
      steps := [e] + steps;
    } else {
      steps, q := [], p;
      assert !p.workers[0].Exited?;
    }
  }

  lemma StillAllWait(p: Closing, e: Step)
    requires AllWait(p) && Can(p, e)
    ensures AllWait(After(p, e)) && |After(p, e).workers| == |p.workers|
  {
    assert !p.workers[e.w].Looking?;
  }

  /** The others do what they can while `a` prepares; then it submits, and nobody is left to transmit. */
  lemma {:induction false} PreparesTooLong(p: Closing, a: nat) returns (steps: seq<Step>, q: Closing)
    requires RunningOwned(p) && a < |p.workers| && p.workers[a].Prepares?
    ensures Leads(p, steps, q) && Still(q) && !AllGone(q)
    decreases Work(p)
  {
    if e: Step :| e.w != a && Can(p, e) {
      StepWorks(p, e);
      KeepsRunningOwned(p, e);
      OtherStep(p, e, a);
      hide Can, After, RunningOwned, Work, Still, AllGone;
      steps, q := PreparesTooLong(After(p, e), a);
      OneMore(p, e, steps, q);
      steps := [e] + steps;
    } else {
      steps, q := SubmitsAlone(p, a);
    }
  }

  lemma OtherStep(p: Closing, e: Step, a: nat)
    requires Can(p, e) && e.w != a && a < |p.workers|
    ensures |After(p, e).workers| == |p.workers| && After(p, e).workers[a] == p.workers[a]
  {
  }

  lemma SubmitsAlone(p: Closing, a: nat) returns (steps: seq<Step>, q: Closing)
    requires RunningOwned(p) && a < |p.workers| && p.workers[a].Prepares?
    requires forall e: Step | e.w != a :: !Can(p, e)
    ensures Leads(p, steps, q) && Still(q) && !AllGone(q)
  {
    assert forall w | 0 <= w < |p.workers| && w != a ::
        p.workers[w].Exited? || (p.workers[w].Awaits? && Transmit(p.workers[w].id) in p.queue) by {
      forall w | 0 <= w < |p.workers| && w != a
        ensures p.workers[w].Exited? || (p.workers[w].Awaits? && Transmit(p.workers[w].id) in p.queue)
      {
        OthersWait(p, a, w);
      }
    }
    var id := p.workers[a].id;
    var r := After(p, Enqueue(a));
    q := After(r, FinishProducing(a));
    assert q.queue == p.queue + [Transmit(id)] && q.workers == p.workers[a := Awaits(id, p.workers[a].last)];
    assert Leads(q, [], q);
    OneMore(r, FinishProducing(a), [], q);
    OneMore(p, Enqueue(a), [FinishProducing(a)] + [], q);
    steps := [Enqueue(a)] + ([FinishProducing(a)] + []);
    hide After, Leads, RunningOwned;
    forall w | 0 <= w < |q.workers|
      ensures q.workers[w].Exited? || (q.workers[w].Awaits? && Transmit(q.workers[w].id) in q.queue)
    {
      if w == a {
        assert q.queue[|p.queue|] == Transmit(id);
      } else {
        assert q.workers[w] == p.workers[w];
      }
    }
    AllWaitOrGone(q);
    assert !q.workers[a].Exited?;
  }

  lemma AllWaitOrGone(q: Closing)
    requires forall w | 0 <= w < |q.workers| :: q.workers[w].Exited? || (q.workers[w].Awaits? && Transmit(q.workers[w].id) in q.queue)
    ensures Still(q)
  {
  }

  /** A request that is still queued is taken sooner or later, or all wait for ever. */
  lemma {:induction false} SubmitsTooLate(p: Closing) returns (steps: seq<Step>, q: Closing)
    requires RunningOwned(p) && LeaveNoRequest(p) && |p.workers| > 0 && !NothingToSubmit(p)
    ensures Leads(p, steps, q) && Still(q) && !AllGone(q)
    decreases Work(p)
  {
    if a :| 0 <= a < |p.workers| && p.workers[a].Prepares? {
      steps, q := PreparesTooLong(p, a);
    } else if e: Step :| Can(p, e) {
      StepWorks(p, e);
      KeepsRunningOwned(p, e);
      KeepsLeaveNoRequest(p, e);
      StillToSubmit(p, e);
      hide Can, After, RunningOwned, LeaveNoRequest, NothingToSubmit, Work, Still, AllGone;
      steps, q := SubmitsTooLate(After(p, e));
      OneMore(p, e, steps, q);
      steps := [e] + steps;
    } else {
      steps, q := [], p;
      assert !Leaving(p.workers[0]);
    }
  }

  lemma StillToSubmit(p: Closing, e: Step)
    requires Can(p, e) && !NothingToSubmit(p) && forall w | 0 <= w < |p.workers| :: !p.workers[w].Prepares?
    ensures !NothingToSubmit(After(p, e)) && |After(p, e).workers| == |p.workers|
  {
    var i :| 0 <= i < |p.queue| && p.queue[i].Request?;
    var q := After(p, e);
    if !e.Pop? {
      assert q.queue[i].Request?;
    } else if i == 0 {
      assert q.workers[e.w].Prepares?;
    } else {
      assert q.queue[i - 1].Request?;
    }
  }

  lemma BadMayNotEnd(p: Closing) returns (steps: seq<Step>, q: Closing)
    requires RunningOwned(p) && LeaveNoRequest(p) && |p.workers| > 0 && !Good(p)
    requires forall w | 0 <= w < |p.workers| :: !Leaving(p.workers[w])
    ensures Leads(p, steps, q) && Still(q) && !AllGone(q)
  {
    if !NothingToSubmit(p) {
      steps, q := SubmitsTooLate(p);
    } else {
      forall w | 0 <= w < |p.workers|
        ensures (p.workers[w].Produces? || p.workers[w].Awaits?) && Transmit(p.workers[w].id) in p.queue
      {
        assert !Helps(p, w) && !Leaving(p.workers[w]);
      }
      steps, q := WaitForEver(p);
    }
  }

  // ----- From a running server -----

  lemma FlagOwned(s: Server, limit: nat)
    requires NestedPool.Inv(s, limit)
    ensures RunningOwned(FromFlag(s)) && forall w | 0 <= w < |s.workers| :: !Leaving(FromFlag(s).workers[w])
  {
    var p := FromFlag(s);
    hide NestedPool.RequestsOnce, NestedPool.ServedOnce, NestedPool.NotBoth, NestedPool.OnlyInFlight, NestedPool.AllInFlight,
         NestedPool.OneChecks, NestedPool.FewSleep;
    forall id | Owned(s, id)
      ensures HasOwner(p, id)
    {
      var v: nat :| SubmittedAt(s, v, id);
      assert OwnedBy(p, v, id);
    }
    hide Owned, HasOwner;
  }

  /** Every request the server has got has submitted its transmission, and if one is queued, some worker
      does not wait for one that is. */
  ghost predicate MayShutDown(s: Server) {
    && (forall i | 0 <= i < |s.queue| :: s.queue[i].Transmit?)
    && (forall w | 0 <= w < |s.workers| :: !s.workers[w].Preparing?)
    && (s.queue == [] || exists w | 0 <= w < |s.workers| :: !(Submitted(s.workers[w]) && Transmit(s.workers[w].id) in s.queue))
  }

  lemma MayShutDownIsGood(s: Server)
    ensures MayShutDown(s) <==> Good(FromFlag(s))
  {
    var p := FromFlag(s);
    assert p.queue == s.queue && forall w | 0 <= w < |s.workers| :: p.workers[w] == AtFlag(s.workers[w]);
    if MayShutDown(s) && s.queue != [] {
      var w :| 0 <= w < |s.workers| && !(Submitted(s.workers[w]) && Transmit(s.workers[w].id) in s.queue);
      assert Helps(p, w);
    }
    if Good(p) {
      forall w | 0 <= w < |s.workers|
        ensures !s.workers[w].Preparing?
      {
        assert !p.workers[w].Prepares?;
      }
      if s.queue != [] {
        var w: nat :| Helps(p, w);
      }
    }
  }

  /** Shutting the pool down in a state that a running server can be in always ends if and only if, when the
      flag is set, no request is queued or preparing, and not every worker waits for a queued transmission. */
  lemma ShutdownEndsExactly(s: Server, limit: nat)
    requires NestedPool.Inv(s, limit) && |s.workers| > 0
    ensures AlwaysEnds(FromFlag(s)) <==> MayShutDown(s)
  {
    var p := FromFlag(s);
    FlagOwned(s, limit);
    MayShutDownIsGood(s);
    hide NestedPool.Inv, FromFlag, RunningOwned, Good, Leads, Still, AllGone, MayShutDown;
    if Good(p) {
      forall steps, q | Leads(p, steps, q) && Still(q)
        ensures AllGone(q)
      {
        GoodAlwaysEnds(p, steps, q);
      }
    } else {
      var steps, q := BadMayNotEnd(p);
    }
  }
}
