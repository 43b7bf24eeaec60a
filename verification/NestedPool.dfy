/** The server's use of its pool: every request job submits its transmission job to the same pool and
    waits for it. A worker that finds the queue empty blocks on a condition variable; a job is queued and
    announced without the pool's mutex, so the announcement can come between the two and be lost. */
module NestedPool {
  import opened Wrappers

  datatype Job = Request(id: nat) | Transmit(id: nat)

  /** What a worker of the pool does. A free one wants the mutex; with the mutex it takes a job or, if
      there is none, is checking and then blocked. A request prepares, queues its transmission, announces
      it, produces and then awaits it; a transmission runs until its request has nothing more to send. */
  datatype Worker =
    | Free | Checking | Blocked
    | Preparing(id: nat) | Announcing(id: nat) | Producing(id: nat) | Awaiting(id: nat)
    | Transmitting(id: nat)

  /** `inFlight` holds the requests that have arrived and not been answered, out of `seen` that came; the
      last of them may be queued and still to be announced. */
  datatype Server = Server(queue: seq<Job>, workers: seq<Worker>, inFlight: set<nat>, seen: nat, announcing: bool)

  /** An announcement wakes one blocked worker, if there is one. A blocked worker may also wake by itself. */
  datatype Event =
    | Arrive | Announced(woken: Option<nat>)
    | Take(w: nat) | Check(w: nat) | Block(w: nat) | Wake(w: nat)
    | Submit(w: nat) | Notified(w: nat, woken: Option<nat>) | Produced(w: nat) | Sent(w: nat) | Answer(w: nat)

  function Start(n: nat): Server {
    Server([], seq(n, i => Free), {}, 0, false)
  }

  predicate MutexFree(s: Server) {
    forall w | 0 <= w < |s.workers| :: !s.workers[w].Checking?
  }

  predicate CanWake(s: Server, woken: Option<nat>) {
    match woken
    case Some(w) => w < |s.workers| && s.workers[w].Blocked?
    case None => forall w | 0 <= w < |s.workers| :: !s.workers[w].Blocked?
  }

  predicate Does(s: Server, w: nat, worker: Worker) {
    w < |s.workers| && s.workers[w] == worker
  }

  /** At most `limit` requests are in flight at a time. A transmission ends when its queue has nothing
      more to come; a request ends when its transmission is neither queued nor running. */
  predicate Enabled(s: Server, e: Event, limit: nat) {
    match e
    case Arrive => !s.announcing && |s.inFlight| < limit
    case Announced(woken) => s.announcing && CanWake(s, woken)
    case Take(w) => Does(s, w, Free) && MutexFree(s) && s.queue != []
    case Check(w) => Does(s, w, Free) && MutexFree(s) && s.queue == []
    case Block(w) => Does(s, w, Checking)
    case Wake(w) => Does(s, w, Blocked)
    case Submit(w) => w < |s.workers| && s.workers[w].Preparing?
    case Notified(w, woken) => w < |s.workers| && s.workers[w].Announcing? && CanWake(s, woken)
    case Produced(w) => w < |s.workers| && s.workers[w].Producing?
    case Sent(w) => w < |s.workers| && s.workers[w].Transmitting? && Awaiting(s.workers[w].id) in s.workers
    case Answer(w) =>
      && w < |s.workers| && s.workers[w].Awaiting?
      && Transmit(s.workers[w].id) !in s.queue && Transmitting(s.workers[w].id) !in s.workers
  }

  function Taken(job: Job): Worker {
    if job.Request? then Preparing(job.id) else Transmitting(job.id)
  }

  function Woken(workers: seq<Worker>, woken: Option<nat>): seq<Worker>
    requires woken.Some? ==> woken.value < |workers|
  {
    if woken.Some? then workers[woken.value := Free] else workers
  }

  function Next(s: Server, e: Event, limit: nat): Server
    requires Enabled(s, e, limit)
  {
    match e
    case Arrive =>
      s.(queue := s.queue + [Request(s.seen)], inFlight := s.inFlight + {s.seen}, seen := s.seen + 1, announcing := true)
    case Announced(woken) => s.(workers := Woken(s.workers, woken), announcing := false)
    case Take(w) => s.(queue := s.queue[1..], workers := s.workers[w := Taken(s.queue[0])])
    case Check(w) => s.(workers := s.workers[w := Checking])
    case Block(w) => s.(workers := s.workers[w := Blocked])
    case Wake(w) => s.(workers := s.workers[w := Free])
    case Submit(w) =>
      s.(queue := s.queue + [Transmit(s.workers[w].id)], workers := s.workers[w := Announcing(s.workers[w].id)])
    case Notified(w, woken) => s.(workers := Woken(s.workers, woken)[w := Producing(s.workers[w].id)])
    case Produced(w) => s.(workers := s.workers[w := Awaiting(s.workers[w].id)])
    case Sent(w) => s.(workers := s.workers[w := Free])
    case Answer(w) => s.(workers := s.workers[w := Free], inFlight := s.inFlight - {s.workers[w].id})
  }

  ghost predicate Reaches(s: Server, events: seq<Event>, t: Server, limit: nat)
    decreases |events|
  {
    if events == [] then s == t
    else Enabled(s, events[0], limit) && Reaches(Next(s, events[0], limit), events[1..], t, limit)
  }

  predicate Idle(w: Worker) {
    w.Free? || w.Checking? || w.Blocked?
  }

  predicate Finished(s: Server) {
    s.queue == [] && !s.announcing && forall w | 0 <= w < |s.workers| :: Idle(s.workers[w])
  }

  /** The steps that the server takes by itself: neither a new request nor a wake-up without a reason. */
  predicate Own(e: Event) {
    !e.Arrive? && !e.Wake?
  }

  ghost predicate Stuck(s: Server, limit: nat) {
    forall e: Event :: Own(e) ==> !Enabled(s, e, limit)
  }

  // ----- Requests and transmissions -----

  predicate Serves(w: Worker) {
    w.Preparing? || w.Announcing? || w.Producing? || w.Awaiting?
  }

  /** The request has queued its transmission. */
  predicate Submitted(w: Worker) {
    w.Announcing? || w.Producing? || w.Awaiting?
  }

  /** What a step does to one worker: it keeps its job, gets one from the queue, or is done with it. */
  lemma WorkerStep(s: Server, e: Event, limit: nat, w: nat)
    requires Enabled(s, e, limit) && w < |s.workers|
    ensures |Next(s, e, limit).workers| == |s.workers|
    ensures var now, was := Next(s, e, limit).workers[w], s.workers[w];
            && (Serves(was) && e != Answer(w) ==> Serves(now) && now.id == was.id)
            && (Submitted(was) && e != Answer(w) ==> Submitted(now))
            && (Serves(now) ==> (e == Take(w) && s.queue[0] == Request(now.id)) || (Serves(was) && was.id == now.id && e != Answer(w)))
            && (Submitted(now) ==> Submitted(was) || e == Submit(w))
            && (now.Transmitting? ==> was == now || (e == Take(w) && s.queue[0] == Transmit(now.id)))
  {
  }

  /** What a step does to the queue: it takes the first job or adds one. */
  lemma QueueStep(s: Server, e: Event, limit: nat, i: nat)
    requires Enabled(s, e, limit) && i < |Next(s, e, limit).queue|
    ensures var now := Next(s, e, limit).queue[i];
            if i == |s.queue| then
              (e.Arrive? && now == Request(s.seen)) || (e.Submit? && now == Transmit(s.workers[e.w].id))
            else i + 1 <= |s.queue| && (if e.Take? then i + 1 < |s.queue| && now == s.queue[i + 1] else now == s.queue[i])
  {
  }

  lemma SetStep(s: Server, e: Event, limit: nat)
    requires Enabled(s, e, limit)
    ensures Next(s, e, limit).inFlight
            == (match e case Arrive => s.inFlight + {s.seen} case Answer(w) => s.inFlight - {s.workers[w].id} case _ => s.inFlight)
    ensures Next(s, e, limit).seen == if e.Arrive? then s.seen + 1 else s.seen
  {
  }

  predicate RequestsOnce(s: Server) {
    forall i, j | 0 <= i < j < |s.queue| :: s.queue[i].Request? ==> s.queue[i] != s.queue[j]
  }

  predicate ServedOnce(s: Server) {
    forall v, w | 0 <= v < w < |s.workers| :: Serves(s.workers[v]) && Serves(s.workers[w]) ==> s.workers[v].id != s.workers[w].id
  }

  predicate NotBoth(s: Server) {
    forall i, w | 0 <= i < |s.queue| && 0 <= w < |s.workers| && Serves(s.workers[w]) :: s.queue[i] != Request(s.workers[w].id)
  }

  /** Requests queued or served are in flight. */
  predicate OnlyInFlight(s: Server) {
    && (forall i | 0 <= i < |s.queue| && s.queue[i].Request? :: s.queue[i].id in s.inFlight)
    && (forall w | 0 <= w < |s.workers| && Serves(s.workers[w]) :: s.workers[w].id in s.inFlight)
    && (forall id | id in s.inFlight :: id < s.seen)
  }

  predicate QueuedAt(s: Server, i: nat, job: Job) {
    i < |s.queue| && s.queue[i] == job
  }

  predicate ServedAt(s: Server, w: nat, id: nat) {
    w < |s.workers| && Serves(s.workers[w]) && s.workers[w].id == id
  }

  predicate SubmittedAt(s: Server, w: nat, id: nat) {
    w < |s.workers| && Submitted(s.workers[w]) && s.workers[w].id == id
  }

  ghost predicate Known(s: Server, id: nat) {
    (exists i: nat :: QueuedAt(s, i, Request(id))) || exists w: nat :: ServedAt(s, w, id)
  }

  /** Requests in flight are queued or served: none is forgotten. */
  ghost predicate AllInFlight(s: Server) {
    forall id | id in s.inFlight :: Known(s, id)
  }

  ghost predicate Owned(s: Server, id: nat) {
    exists w: nat :: SubmittedAt(s, w, id)
  }

  /** A transmission has its request waiting behind it. */
  ghost predicate TransmissionsOwned(s: Server) {
    && (forall i | 0 <= i < |s.queue| && s.queue[i].Transmit? :: Owned(s, s.queue[i].id))
    && (forall w | 0 <= w < |s.workers| && s.workers[w].Transmitting? :: Owned(s, s.workers[w].id))
  }

  lemma KeepsRequestsOnce(s: Server, e: Event, limit: nat)
    requires RequestsOnce(s) && OnlyInFlight(s) && Enabled(s, e, limit)
    ensures RequestsOnce(Next(s, e, limit))
  {
    var t := Next(s, e, limit);
    forall i, j | 0 <= i < j < |t.queue|
      ensures t.queue[i].Request? ==> t.queue[i] != t.queue[j]
    {
      QueueStep(s, e, limit, i);
      QueueStep(s, e, limit, j);
      hide Enabled, Next;
    }
  }

  lemma KeepsServedOnce(s: Server, e: Event, limit: nat)
    requires ServedOnce(s) && NotBoth(s) && Enabled(s, e, limit)
    ensures ServedOnce(Next(s, e, limit))
  {
    var t := Next(s, e, limit);
    forall v, w | 0 <= v < w < |t.workers|
      ensures Serves(t.workers[v]) && Serves(t.workers[w]) ==> t.workers[v].id != t.workers[w].id
    {
      WorkerStep(s, e, limit, v);
      WorkerStep(s, e, limit, w);
      if e.Take? {
        TakesFirst(s, e, limit);
      }
      hide Enabled, Next;
    }
  }

  lemma TakesFirst(s: Server, e: Event, limit: nat)
    requires Enabled(s, e, limit) && e.Take?
    ensures s.queue != []
  {
  }

  lemma KeepsNotBoth(s: Server, e: Event, limit: nat)
    requires RequestsOnce(s) && NotBoth(s) && OnlyInFlight(s) && Enabled(s, e, limit)
    ensures NotBoth(Next(s, e, limit))
  {
    var t := Next(s, e, limit);
    forall i, w | 0 <= i < |t.queue| && 0 <= w < |t.workers| && Serves(t.workers[w])
      ensures t.queue[i] != Request(t.workers[w].id)
    {
      QueueStep(s, e, limit, i);
      WorkerStep(s, e, limit, w);
      hide Enabled, Next;
    }
  }

  lemma KeepsOnlyInFlight(s: Server, e: Event, limit: nat)
    requires ServedOnce(s) && NotBoth(s) && OnlyInFlight(s) && Enabled(s, e, limit)
    ensures OnlyInFlight(Next(s, e, limit))
  {
    var t := Next(s, e, limit);
    SetStep(s, e, limit);
    forall i | 0 <= i < |t.queue| && t.queue[i].Request?
      ensures t.queue[i].id in t.inFlight
    {
      QueueStep(s, e, limit, i);
    }
    forall w | 0 <= w < |t.workers| && Serves(t.workers[w])
      ensures t.workers[w].id in t.inFlight
    {
      WorkerStep(s, e, limit, w);
    }
  }

  lemma KeepsAllInFlight(s: Server, e: Event, limit: nat)
    requires AllInFlight(s) && Enabled(s, e, limit)
    ensures AllInFlight(Next(s, e, limit))
  {
    var t := Next(s, e, limit);
    forall id | id in t.inFlight
      ensures Known(t, id)
    {
      StillKnown(s, e, limit, id);
    }
  }

  lemma StillKnown(s: Server, e: Event, limit: nat, id: nat)
    requires AllInFlight(s) && Enabled(s, e, limit) && id in Next(s, e, limit).inFlight
    ensures Known(Next(s, e, limit), id)
  {
    var t := Next(s, e, limit);
    SetStep(s, e, limit);
    if e.Arrive? && id == s.seen {
      assert QueuedAt(t, |s.queue|, Request(id));
    } else if w: nat :| ServedAt(s, w, id) {
      WorkerStep(s, e, limit, w);
      hide Enabled, Next;
      assert ServedAt(t, w, id);
    } else {
      var i: nat :| QueuedAt(s, i, Request(id));
      if !e.Take? {
        assert QueuedAt(t, i, Request(id));
      } else if i == 0 {
        assert ServedAt(t, e.w, id);
      } else {
        assert QueuedAt(t, i - 1, Request(id));
      }
    }
  }

  lemma StillOwned(s: Server, e: Event, limit: nat, id: nat)
    requires Enabled(s, e, limit) && Owned(s, id) && (e.Answer? ==> s.workers[e.w].id != id)
    ensures Owned(Next(s, e, limit), id)
  {
    var w: nat :| SubmittedAt(s, w, id);
    WorkerStep(s, e, limit, w);
    hide Enabled, Next;
    assert SubmittedAt(Next(s, e, limit), w, id);
  }

  lemma QueuedIsOwned(s: Server, e: Event, limit: nat, i: nat)
    requires TransmissionsOwned(s) && Enabled(s, e, limit)
    requires i < |Next(s, e, limit).queue| && Next(s, e, limit).queue[i].Transmit?
    ensures Owned(Next(s, e, limit), Next(s, e, limit).queue[i].id)
  {
    var t := Next(s, e, limit);
    QueueStep(s, e, limit, i);
    if e.Submit? && i == |s.queue| {
      assert SubmittedAt(t, e.w, t.queue[i].id);
    } else {
      var j := if e.Take? then i + 1 else i;
      assert s.queue[j] == t.queue[i] && s.queue[j] in s.queue;
      StillOwned(s, e, limit, t.queue[i].id);
    }
  }

  lemma RunningIsOwned(s: Server, e: Event, limit: nat, w: nat)
    requires TransmissionsOwned(s) && Enabled(s, e, limit)
    requires w < |Next(s, e, limit).workers| && Next(s, e, limit).workers[w].Transmitting?
    ensures Owned(Next(s, e, limit), Next(s, e, limit).workers[w].id)
  {
    var t := Next(s, e, limit);
    if w < |s.workers| {
      WorkerStep(s, e, limit, w);
      if e != Take(w) {
        assert s.workers[w] in s.workers;
      }
      StillOwned(s, e, limit, t.workers[w].id);
    }
  }

  lemma KeepsOwned(s: Server, e: Event, limit: nat)
    requires TransmissionsOwned(s) && Enabled(s, e, limit)
    ensures TransmissionsOwned(Next(s, e, limit))
  {
    var t := Next(s, e, limit);
    hide Owned, Enabled, Next;
    forall i | 0 <= i < |t.queue| && t.queue[i].Transmit?
      ensures Owned(t, t.queue[i].id)
    {
      QueuedIsOwned(s, e, limit, i);
    }
    forall w | 0 <= w < |t.workers| && t.workers[w].Transmitting?
      ensures Owned(t, t.workers[w].id)
    {
      RunningIsOwned(s, e, limit, w);
    }
  }

  // ----- Lost announcements -----

  predicate Asleep(w: Worker) {
    w.Checking? || w.Blocked?
  }

  /** Workers that will look at the queue, and announcements that will wake one. */
  predicate Awake(w: Worker) {
    w.Free? || w.Announcing?
  }

  function Sleepers(workers: seq<Worker>): nat {
    if workers == [] then 0 else Sleepers(workers[..|workers| - 1]) + if Asleep(workers[|workers| - 1]) then 1 else 0
  }

  function Lookers(workers: seq<Worker>): nat {
    if workers == [] then 0 else Lookers(workers[..|workers| - 1]) + if Awake(workers[|workers| - 1]) then 1 else 0
  }

  lemma {:induction false} CountUpdate(workers: seq<Worker>, w: nat, after: Worker)
    requires w < |workers|
    ensures Sleepers(workers[w := after]) == Sleepers(workers) - (if Asleep(workers[w]) then 1 else 0) + (if Asleep(after) then 1 else 0)
    ensures Lookers(workers[w := after]) == Lookers(workers) - (if Awake(workers[w]) then 1 else 0) + (if Awake(after) then 1 else 0)
  {
    hide Asleep, Awake;
    var n := |workers| - 1;
    if w == n {
      assert workers[w := after][..n] == workers[..n];
    } else {
      assert workers[w := after][..n] == workers[..n][w := after];
      CountUpdate(workers[..n], w, after);
    }
  }

  predicate OneChecks(s: Server) {
    forall v, w | 0 <= v < w < |s.workers| :: !(s.workers[v].Checking? && s.workers[w].Checking?)
  }

  function Owed(s: Server): nat {
    if s.announcing then 1 else 0
  }

  /** An announcement is lost only while nobody is blocked, to the one worker that is about to be. */
  predicate FewSleep(s: Server) {
    Sleepers(s.workers) <= 1 || Lookers(s.workers) + Owed(s) >= |s.queue|
  }

  lemma {:induction false} OnlyChecker(workers: seq<Worker>)
    requires forall w | 0 <= w < |workers| :: !workers[w].Blocked?
    requires forall v, w | 0 <= v < w < |workers| :: !(workers[v].Checking? && workers[w].Checking?)
    ensures Sleepers(workers) <= 1
    ensures (forall w | 0 <= w < |workers| :: !workers[w].Checking?) ==> Sleepers(workers) == 0
  {
    if workers != [] {
      OnlyChecker(workers[..|workers| - 1]);
    }
  }

  lemma KeepsOneChecks(s: Server, e: Event, limit: nat)
    requires OneChecks(s) && Enabled(s, e, limit)
    ensures OneChecks(Next(s, e, limit))
  {
    var t := Next(s, e, limit);
    forall v, w | 0 <= v < w < |t.workers|
      ensures !(t.workers[v].Checking? && t.workers[w].Checking?)
    {
      CheckStep(s, e, limit, v);
      CheckStep(s, e, limit, w);
      hide Enabled, Next;
    }
  }

  lemma CheckStep(s: Server, e: Event, limit: nat, w: nat)
    requires Enabled(s, e, limit) && w < |Next(s, e, limit).workers|
    ensures w < |s.workers|
    ensures Next(s, e, limit).workers[w].Checking? ==> s.workers[w].Checking? || (e == Check(w) && MutexFree(s))
  {
  }

  /** The announcement of a job, by whoever queued it. */
  lemma AnnouncementKeepsFew(s: Server, woken: Option<nat>)
    requires CanWake(s, woken) && OneChecks(s)
    ensures var t := Woken(s.workers, woken);
            if woken.Some? then Sleepers(t) == Sleepers(s.workers) - 1 && Lookers(t) == Lookers(s.workers) + 1
            else t == s.workers && Sleepers(t) <= 1
  {
    match woken
    case Some(w) => CountUpdate(s.workers, w, Free);
    case None => OnlyChecker(s.workers);
  }

  lemma KeepsFewSleep(s: Server, e: Event, limit: nat)
    requires FewSleep(s) && OneChecks(s) && Enabled(s, e, limit)
    ensures FewSleep(Next(s, e, limit))
  {
    hide Sleepers, Lookers;
    match e
    case Arrive =>
    case Announced(woken) => AnnouncementKeepsFew(s, woken);
    case Notified(w, woken) =>
      AnnouncementKeepsFew(s, woken);
      CountUpdate(Woken(s.workers, woken), w, Producing(s.workers[w].id));
    case _ => CountUpdate(s.workers, e.w, Next(s, e, limit).workers[e.w]);
  }

  // ----- What every step keeps -----

  ghost predicate Inv(s: Server, limit: nat) {
    && RequestsOnce(s) && ServedOnce(s) && NotBoth(s)
    && OnlyInFlight(s) && AllInFlight(s) && TransmissionsOwned(s)
    && OneChecks(s) && FewSleep(s)
    && |s.inFlight| <= limit
  }

  lemma StepKeepsInv(s: Server, e: Event, limit: nat)
    requires Inv(s, limit) && Enabled(s, e, limit)
    ensures Inv(Next(s, e, limit), limit)
  {
    SetStep(s, e, limit);
    assert e.Arrive? ==> |s.inFlight| < limit;
    hide Enabled, Next, RequestsOnce, ServedOnce, NotBoth, OnlyInFlight, AllInFlight, TransmissionsOwned, OneChecks, FewSleep;
    KeepsRequestsOnce(s, e, limit);
    KeepsServedOnce(s, e, limit);
    KeepsNotBoth(s, e, limit);
    KeepsOnlyInFlight(s, e, limit);
    KeepsAllInFlight(s, e, limit);
    KeepsOwned(s, e, limit);
    KeepsOneChecks(s, e, limit);
    KeepsFewSleep(s, e, limit);
  }

  lemma {:induction false} RunKeepsInv(s: Server, events: seq<Event>, t: Server, limit: nat)
    requires Inv(s, limit) && Reaches(s, events, t, limit)
    ensures Inv(t, limit) && |t.workers| == |s.workers|
    decreases |events|
  {
    hide Inv, Enabled, Next;
    if events != [] {
      StepKeepsInv(s, events[0], limit);
      SameWorkers(s, events[0], limit);
      RunKeepsInv(Next(s, events[0], limit), events[1..], t, limit);
    }
  }

  lemma SameWorkers(s: Server, e: Event, limit: nat)
    requires Enabled(s, e, limit)
    ensures |Next(s, e, limit).workers| == |s.workers|
  {
  }

  // ----- With two fewer requests than workers the server goes on -----

  /** Distinct identifiers taken from a set are no more than the set has. */
  lemma {:induction false} Pigeonhole(ids: seq<nat>, s: set<nat>)
    requires forall i | 0 <= i < |ids| :: ids[i] in s
    requires forall i, j | 0 <= i < j < |ids| :: ids[i] != ids[j]
    ensures |ids| <= |s|
  {
    if ids != [] {
      Pigeonhole(ids[1..], s - {ids[0]});
    }
  }

  /** Workers that all wait for transmissions wait for different requests. */
  lemma AllAwait(workers: seq<Worker>, inFlight: set<nat>)
    requires forall w | 0 <= w < |workers| :: workers[w].Awaiting? && workers[w].id in inFlight
    requires forall v, w | 0 <= v < w < |workers| :: workers[v].id != workers[w].id
    ensures |workers| <= |inFlight|
  {
    Pigeonhole(seq(|workers|, w requires 0 <= w < |workers| => workers[w].id), inFlight);
  }

  lemma {:induction false} TwoSleepers(workers: seq<Worker>, v: nat, w: nat)
    requires v < w < |workers| && Asleep(workers[v]) && Asleep(workers[w])
    ensures Sleepers(workers) >= 2
  {
    var n := |workers| - 1;
    if w < n {
      TwoSleepers(workers[..n], v, w);
    } else {
      OneSleeper(workers[..n], v);
    }
  }

  lemma {:induction false} OneSleeper(workers: seq<Worker>, v: nat)
    requires v < |workers| && Asleep(workers[v])
    ensures Sleepers(workers) >= 1
  {
    if v < |workers| - 1 {
      OneSleeper(workers[..|workers| - 1], v);
    }
  }

  lemma {:induction false} NoLookers(workers: seq<Worker>)
    requires forall w | 0 <= w < |workers| :: !Awake(workers[w])
    ensures Lookers(workers) == 0
  {
    if workers != [] {
      NoLookers(workers[..|workers| - 1]);
    }
  }

  /** With a job queued, nobody looking for one and nothing to announce, all workers but one await. */
  lemma TooManyAwait(s: Server, limit: nat)
    requires Inv(s, limit) && limit + 1 < |s.workers| && s.queue != [] && !s.announcing
    ensures exists w | 0 <= w < |s.workers| :: !s.workers[w].Awaiting? && !s.workers[w].Blocked?
  {
    var n := |s.workers|;
    if forall w | 0 <= w < n :: s.workers[w].Awaiting? || s.workers[w].Blocked? {
      NoLookers(s.workers);
      hide RequestsOnce, NotBoth, AllInFlight, TransmissionsOwned, OneChecks;
      if v :| 0 <= v < n && s.workers[v].Blocked? {
        forall w | 0 <= w < n && w != v
          ensures s.workers[w].Awaiting?
        {
          if s.workers[w].Blocked? {
            TwoSleepers(s.workers, if v < w then v else w, if v < w then w else v);
          }
        }
        Without(s, v, limit);
      } else {
        AllAwait(s.workers, s.inFlight);
      }
    }
  }

  lemma Without(s: Server, v: nat, limit: nat)
    requires ServedOnce(s) && OnlyInFlight(s) && v < |s.workers|
    requires forall w | 0 <= w < |s.workers| && w != v :: s.workers[w].Awaiting?
    ensures |s.workers| - 1 <= |s.inFlight|
  {
    var others := s.workers[..v] + s.workers[v + 1..];
    forall w | 0 <= w < |others|
      ensures others[w] == s.workers[if w < v then w else w + 1]
    {
    }
    AllAwait(others, s.inFlight);
  }

  lemma TransmissionGoesOn(s: Server, w: nat, limit: nat)
    requires TransmissionsOwned(s) && w < |s.workers| && s.workers[w].Transmitting?
    ensures !Stuck(s, limit)
  {
    assert Owned(s, s.workers[w].id);
    var v: nat :| SubmittedAt(s, v, s.workers[w].id);
    match s.workers[v]
    case Announcing(_) => SomebodyNotified(s, v, limit);
    case Producing(_) => assert Own(Produced(v)) && Enabled(s, Produced(v), limit);
    case Awaiting(_) =>
      assert s.workers[v] in s.workers;
      assert Own(Sent(w)) && Enabled(s, Sent(w), limit);
  }

  lemma WhoToWake(s: Server) returns (woken: Option<nat>)
    ensures CanWake(s, woken)
  {
    if w :| 0 <= w < |s.workers| && s.workers[w].Blocked? {
      woken := Some(w);
    } else {
      woken := None;
    }
  }

  lemma SomebodyNotified(s: Server, w: nat, limit: nat)
    requires w < |s.workers| && s.workers[w].Announcing?
    ensures !Stuck(s, limit)
  {
    var woken := WhoToWake(s);
    assert Own(Notified(w, woken)) && Enabled(s, Notified(w, woken), limit);
  }

  lemma FreeGoesOn(s: Server, w: nat, limit: nat)
    requires MutexFree(s) && Does(s, w, Free)
    ensures !Stuck(s, limit)
  {
    if s.queue == [] {
      assert Own(Check(w)) && Enabled(s, Check(w), limit);
    } else {
      assert Own(Take(w)) && Enabled(s, Take(w), limit);
    }
  }

  /** A worker that does not wait can go on, or another one can. */
  lemma BusyGoesOn(s: Server, w: nat, limit: nat)
    requires TransmissionsOwned(s) && w < |s.workers| && !s.workers[w].Awaiting? && !s.workers[w].Blocked?
    ensures !Stuck(s, limit)
  {
    if v :| 0 <= v < |s.workers| && s.workers[v].Checking? {
      assert Own(Block(v)) && Enabled(s, Block(v), limit);
    } else {
      match s.workers[w]
      case Free => FreeGoesOn(s, w, limit);
      case Checking =>
      case Preparing(_) => assert Own(Submit(w)) && Enabled(s, Submit(w), limit);
      case Announcing(_) => SomebodyNotified(s, w, limit);
      case Producing(_) => assert Own(Produced(w)) && Enabled(s, Produced(w), limit);
      case Transmitting(_) => TransmissionGoesOn(s, w, limit);
    }
  }

  /** In a state with work left, the server can take a step of its own. */
  lemma SomeWorkerGoesOn(s: Server, limit: nat)
    requires Inv(s, limit) && limit + 1 < |s.workers| && !Finished(s)
    ensures !Stuck(s, limit)
  {
    hide RequestsOnce, ServedOnce, NotBoth, OnlyInFlight, AllInFlight, OneChecks, FewSleep, Enabled;
    if s.announcing {
      AnnouncedGoesOn(s, limit);
    } else if s.queue != [] {
      TooManyAwait(s, limit);
      var w :| 0 <= w < |s.workers| && !s.workers[w].Awaiting? && !s.workers[w].Blocked?;
      BusyGoesOn(s, w, limit);
    } else if w :| 0 <= w < |s.workers| && !s.workers[w].Awaiting? && !s.workers[w].Blocked? {
      BusyGoesOn(s, w, limit);
    } else {
      var w :| 0 <= w < |s.workers| && s.workers[w].Awaiting?;
      AnswerGoesOn(s, w, limit);
    }
  }

  lemma AnnouncedGoesOn(s: Server, limit: nat)
    requires s.announcing
    ensures !Stuck(s, limit)
  {
    var woken := WhoToWake(s);
    assert Own(Announced(woken)) && Enabled(s, Announced(woken), limit);
  }

  lemma AnswerGoesOn(s: Server, w: nat, limit: nat)
    requires s.queue == [] && w < |s.workers| && s.workers[w].Awaiting?
    requires forall v | 0 <= v < |s.workers| :: s.workers[v].Awaiting? || s.workers[v].Blocked?
    ensures !Stuck(s, limit)
  {
    assert Own(Answer(w)) && Enabled(s, Answer(w), limit);
  }

  /** A finished server has answered every request that came. */
  lemma FinishedAnswersAll(s: Server, limit: nat)
    requires Inv(s, limit) && Finished(s)
    ensures s.inFlight == {}
  {
    hide RequestsOnce, ServedOnce, NotBoth, OnlyInFlight, TransmissionsOwned, OneChecks, FewSleep;
    forall id
      ensures id !in s.inFlight
    {
      assert id in s.inFlight ==> Known(s, id);
    }
  }

  // ----- Every request ends -----

  function JobWeight(job: Job): nat {
    if job.Request? then 9 else 2
  }

  function WorkerWeight(w: Worker): nat {
    match w
    case Free => 2
    case Checking => 1
    case Blocked => 0
    case Preparing(_) => 10
    case Announcing(_) => 7
    case Producing(_) => 4
    case Awaiting(_) => 3
    case Transmitting(_) => 3
  }

  function JobsWeight(queue: seq<Job>): nat {
    if queue == [] then 0 else JobWeight(queue[0]) + JobsWeight(queue[1..])
  }

  function WorkersWeight(workers: seq<Worker>): nat {
    if workers == [] then 0 else WorkersWeight(workers[..|workers| - 1]) + WorkerWeight(workers[|workers| - 1])
  }

  /** A bound on the steps of its own that the server can still take. */
  function StepsLeft(s: Server): nat {
    JobsWeight(s.queue) + WorkersWeight(s.workers) + 3 * Owed(s)
  }

  lemma {:induction false} JobsWeightAppend(queue: seq<Job>, job: Job)
    ensures JobsWeight(queue + [job]) == JobsWeight(queue) + JobWeight(job)
  {
    hide JobWeight;
    if queue == [] {
      assert queue + [job] == [job];
      assert [job][1..] == [];
    } else {
      assert (queue + [job])[1..] == queue[1..] + [job];
      JobsWeightAppend(queue[1..], job);
    }
  }

  lemma {:induction false} WorkersWeightUpdate(workers: seq<Worker>, w: nat, after: Worker)
    requires w < |workers|
    ensures WorkersWeight(workers[w := after]) == WorkersWeight(workers) - WorkerWeight(workers[w]) + WorkerWeight(after)
  {
    hide WorkerWeight;
    var n := |workers| - 1;
    if w == n {
      assert workers[w := after][..n] == workers[..n];
    } else {
      assert workers[w := after][..n] == workers[..n][w := after];
      WorkersWeightUpdate(workers[..n], w, after);
    }
  }

  lemma WakingWeighs(s: Server, woken: Option<nat>)
    requires CanWake(s, woken)
    ensures WorkersWeight(Woken(s.workers, woken)) <= WorkersWeight(s.workers) + 2
  {
    match woken
    case Some(w) => WorkersWeightUpdate(s.workers, w, Free);
    case None =>
  }

  lemma StepIsTaken(s: Server, e: Event, limit: nat)
    requires Enabled(s, e, limit) && Own(e)
    ensures StepsLeft(Next(s, e, limit)) < StepsLeft(s)
  {
    hide WorkersWeight;
    match e
    case Announced(woken) => WakingWeighs(s, woken);
    case Notified(w, woken) =>
      WakingWeighs(s, woken);
      WorkersWeightUpdate(Woken(s.workers, woken), w, Producing(s.workers[w].id));
    case Submit(w) =>
      WorkersWeightUpdate(s.workers, w, Announcing(s.workers[w].id));
      JobsWeightAppend(s.queue, Transmit(s.workers[w].id));
    case Take(w) => WorkersWeightUpdate(s.workers, w, Taken(s.queue[0]));
    case Check(w) => WorkersWeightUpdate(s.workers, w, Checking);
    case Block(w) => WorkersWeightUpdate(s.workers, w, Blocked);
    case Produced(w) => WorkersWeightUpdate(s.workers, w, Awaiting(s.workers[w].id));
    case Sent(w) => WorkersWeightUpdate(s.workers, w, Free);
    case Answer(w) => WorkersWeightUpdate(s.workers, w, Free);
  }

  /** Once no request comes any more, and no worker wakes without a reason, the server takes a bounded
      number of steps; and where it can take none, with two requests fewer allowed than workers, every
      request has been answered. */
  lemma {:induction false} RequestsEnd(s: Server, events: seq<Event>, t: Server, limit: nat)
    requires Inv(s, limit) && limit + 1 < |s.workers| && Reaches(s, events, t, limit)
    requires forall i | 0 <= i < |events| :: Own(events[i])
    ensures |events| + StepsLeft(t) <= StepsLeft(s)
    ensures Stuck(t, limit) ==> t.inFlight == {} && Finished(t)
    decreases |events|
  {
    hide Inv, StepsLeft, Finished, Stuck, Next, Enabled;
    if events == [] {
      if Stuck(t, limit) {
        if !Finished(t) {
          SomeWorkerGoesOn(t, limit);
        }
        FinishedAnswersAll(t, limit);
      }
    } else {
      assert Own(events[0]);
      StepIsTaken(s, events[0], limit);
      StepKeepsInv(s, events[0], limit);
      SameWorkers(s, events[0], limit);
      RequestsEnd(Next(s, events[0], limit), events[1..], t, limit);
    }
  }

  // ----- With more it can stop -----

  lemma {:induction false} ReachesThen(s: Server, first: seq<Event>, t: Server, e: Event, limit: nat)
    requires Reaches(s, first, t, limit) && Enabled(t, e, limit)
    ensures Reaches(s, first + [e], Next(t, e, limit), limit)
    decreases |first|
  {
    hide Next, Enabled;
    if first == [] {
      assert first + [e] == [e];
      assert [e][1..] == [];
      assert Reaches(Next(s, e, limit), [], Next(t, e, limit), limit);
    } else {
      ReachesThen(Next(s, first[0], limit), first[1..], t, e, limit);
      assert (first + [e])[1..] == first[1..] + [e];
    }
  }

  function Ids(n: nat): (ids: set<nat>)
    ensures |ids| == n && forall i :: i in ids <==> 0 <= i < n
  {
    if n == 0 then {} else Ids(n - 1) + {n - 1}
  }

  /** What the one worker does that serves no request in the run that follows, if there is one. */
  predicate Spare(rest: seq<Worker>, worker: Worker) {
    rest == [] || rest == [worker]
  }

  /** `k` requests came to an idle pool of `m` workers and perhaps another one. */
  function AfterArrivals(m: nat, k: nat, rest: seq<Worker>): Server {
    Server(seq(k, i requires 0 <= i => Request(i)), seq(m, i => Free) + rest, Ids(k), k, false)
  }

  /** Of the `m` requests, the first `k` are prepared by as many workers. */
  function AfterTakes(m: nat, k: nat, rest: seq<Worker>): Server
    requires k <= m
  {
    Server(seq(m - k, i requires 0 <= i => Request(k + i)),
           seq(m, i requires 0 <= i => if i < k then Preparing(i) else Free) + rest, Ids(m), m, false)
  }

  /** The first `k` have submitted their transmissions. */
  function AfterSubmits(m: nat, k: nat, rest: seq<Worker>): Server {
    Server(seq(k, i requires 0 <= i => Transmit(i)),
           seq(m, i requires 0 <= i => if i < k then Producing(i) else Preparing(i)) + rest, Ids(m), m, false)
  }

  /** The first `k` wait for their transmissions. */
  function AfterProduced(m: nat, k: nat, rest: seq<Worker>): Server {
    Server(seq(m, i requires 0 <= i => Transmit(i)),
           seq(m, i requires 0 <= i => if i < k then Awaiting(i) else Producing(i)) + rest, Ids(m), m, false)
  }

  lemma NoArrivals(m: nat, rest: seq<Worker>, limit: nat)
    requires Spare(rest, Free)
    ensures Reaches(Start(m + |rest|), [], AfterArrivals(m, 0, rest), limit)
  {
    assert Start(m + |rest|) == AfterArrivals(m, 0, rest);
  }

  lemma AllArrived(m: nat, rest: seq<Worker>)
    ensures AfterArrivals(m, m, rest) == AfterTakes(m, 0, rest)
  {
  }

  lemma OneArrival(m: nat, k: nat, rest: seq<Worker>, limit: nat)
    requires k < limit && Spare(rest, Free)
    ensures Enabled(AfterArrivals(m, k, rest), Arrive, limit)
    ensures var s := Next(AfterArrivals(m, k, rest), Arrive, limit);
            Enabled(s, Announced(None), limit) && Next(s, Announced(None), limit) == AfterArrivals(m, k + 1, rest)
  {
    var s := Next(AfterArrivals(m, k, rest), Arrive, limit);
    assert s.queue == AfterArrivals(m, k + 1, rest).queue && s.inFlight == Ids(k + 1);
    assert forall w | 0 <= w < |s.workers| :: s.workers[w] == Free;
  }

  lemma {:induction false} Arrivals(m: nat, k: nat, rest: seq<Worker>, limit: nat) returns (events: seq<Event>)
    requires k <= m <= limit && Spare(rest, Free)
    ensures Reaches(Start(m + |rest|), events, AfterArrivals(m, k, rest), limit)
  {
    hide *;
    if k == 0 {
      events := [];
      NoArrivals(m, rest, limit);
    } else {
      var before := Arrivals(m, k - 1, rest, limit);
      OneArrival(m, k - 1, rest, limit);
      var s := AfterArrivals(m, k - 1, rest);
      ReachesThen(Start(m + |rest|), before, s, Arrive, limit);
      ReachesThen(Start(m + |rest|), before + [Arrive], Next(s, Arrive, limit), Announced(None), limit);
      events := before + [Arrive] + [Announced(None)];
    }
  }

  lemma OneTake(m: nat, k: nat, rest: seq<Worker>, limit: nat)
    requires k < m && Spare(rest, Free)
    ensures Enabled(AfterTakes(m, k, rest), Take(k), limit)
    ensures Next(AfterTakes(m, k, rest), Take(k), limit) == AfterTakes(m, k + 1, rest)
  {
  }

  lemma {:induction false} Takes(m: nat, k: nat, rest: seq<Worker>, limit: nat) returns (events: seq<Event>)
    requires k <= m <= limit && Spare(rest, Free)
    ensures Reaches(Start(m + |rest|), events, AfterTakes(m, k, rest), limit)
  {
    hide *;
    if k == 0 {
      events := Arrivals(m, m, rest, limit);
      AllArrived(m, rest);
    } else {
      var before := Takes(m, k - 1, rest, limit);
      OneTake(m, k - 1, rest, limit);
      ReachesThen(Start(m + |rest|), before, AfterTakes(m, k - 1, rest), Take(k - 1), limit);
      events := before + [Take(k - 1)];
    }
  }

  /** The worker that serves nothing finds the queue empty while the others prepare. */
  lemma SpareChecks(m: nat, rest: seq<Worker>, limit: nat) returns (events: seq<Event>, checking: seq<Worker>)
    requires m <= limit && Spare(rest, Free)
    ensures Spare(checking, Checking) && |checking| == |rest|
    ensures Reaches(Start(m + |rest|), events, AfterSubmits(m, 0, checking), limit)
  {
    events := Takes(m, m, rest, limit);
    if rest == [] {
      checking := [];
      assert AfterTakes(m, m, rest) == AfterSubmits(m, 0, checking);
    } else {
      checking := [Checking];
      var s := AfterTakes(m, m, rest);
      assert s.workers[m] == Free;
      assert Next(s, Check(m), limit) == AfterSubmits(m, 0, checking);
      hide Reaches, Enabled, Next;
      ReachesThen(Start(m + |rest|), events, s, Check(m), limit);
      events := events + [Check(m)];
    }
  }

  lemma OneSubmit(m: nat, k: nat, rest: seq<Worker>, limit: nat)
    requires k < m && Spare(rest, Checking)
    ensures Enabled(AfterSubmits(m, k, rest), Submit(k), limit)
    ensures var s := Next(AfterSubmits(m, k, rest), Submit(k), limit);
            Enabled(s, Notified(k, None), limit) && Next(s, Notified(k, None), limit) == AfterSubmits(m, k + 1, rest)
  {
  }

  lemma {:induction false} Submits(m: nat, k: nat, rest: seq<Worker>, limit: nat) returns (events: seq<Event>, checking: seq<Worker>)
    requires k <= m <= limit && Spare(rest, Free)
    ensures Spare(checking, Checking) && |checking| == |rest|
    ensures Reaches(Start(m + |rest|), events, AfterSubmits(m, k, checking), limit)
  {
    hide *;
    if k == 0 {
      events, checking := SpareChecks(m, rest, limit);
    } else {
      var before;
      before, checking := Submits(m, k - 1, rest, limit);
      OneSubmit(m, k - 1, checking, limit);
      var s := AfterSubmits(m, k - 1, checking);
      ReachesThen(Start(m + |rest|), before, s, Submit(k - 1), limit);
      ReachesThen(Start(m + |rest|), before + [Submit(k - 1)], Next(s, Submit(k - 1), limit), Notified(k - 1, None), limit);
      events := before + [Submit(k - 1)] + [Notified(k - 1, None)];
    }
  }

  /** The worker that serves nothing blocks, with all the announcements behind it. */
  lemma SpareBlocks(m: nat, rest: seq<Worker>, limit: nat) returns (events: seq<Event>, blocked: seq<Worker>)
    requires m <= limit && Spare(rest, Free)
    ensures Spare(blocked, Blocked) && |blocked| == |rest|
    ensures Reaches(Start(m + |rest|), events, AfterProduced(m, 0, blocked), limit)
  {
    var checking;
    events, checking := Submits(m, m, rest, limit);
    var s := AfterSubmits(m, m, checking);
    if checking == [] {
      blocked := [];
      assert s == AfterProduced(m, 0, blocked);
    } else {
      blocked := [Blocked];
      assert s.workers[m] == Checking;
      assert Next(s, Block(m), limit) == AfterProduced(m, 0, blocked);
      hide Reaches, Enabled, Next;
      ReachesThen(Start(m + |rest|), events, s, Block(m), limit);
      events := events + [Block(m)];
    }
  }

  lemma OneProduced(m: nat, k: nat, rest: seq<Worker>, limit: nat)
    requires k < m
    ensures Enabled(AfterProduced(m, k, rest), Produced(k), limit)
    ensures Next(AfterProduced(m, k, rest), Produced(k), limit) == AfterProduced(m, k + 1, rest)
  {
  }

  lemma {:induction false} AllProduced(m: nat, k: nat, rest: seq<Worker>, limit: nat) returns (events: seq<Event>, blocked: seq<Worker>)
    requires k <= m <= limit && Spare(rest, Free)
    ensures Spare(blocked, Blocked) && |blocked| == |rest|
    ensures Reaches(Start(m + |rest|), events, AfterProduced(m, k, blocked), limit)
  {
    hide *;
    if k == 0 {
      events, blocked := SpareBlocks(m, rest, limit);
    } else {
      var before;
      before, blocked := AllProduced(m, k - 1, rest, limit);
      OneProduced(m, k - 1, blocked, limit);
      ReachesThen(Start(m + |rest|), before, AfterProduced(m, k - 1, blocked), Produced(k - 1), limit);
      events := before + [Produced(k - 1)];
    }
  }

  /** Workers that await transmissions in the queue, and one that has missed them, do nothing more. */
  lemma NobodyGoesOn(m: nat, rest: seq<Worker>, limit: nat)
    requires m > 0 && Spare(rest, Blocked)
    ensures Stuck(AfterProduced(m, m, rest), limit) && !Finished(AfterProduced(m, m, rest))
  {
    var t := AfterProduced(m, m, rest);
    forall w | 0 <= w < |t.workers|
      ensures t.workers[w] == Blocked || (t.workers[w] == Awaiting(w) && Transmit(w) in t.queue)
    {
      if w < m {
        assert t.queue[w] == Transmit(w);
      }
    }
    hide AfterProduced;
  }

  /** With one request fewer than workers, or as many, every worker can come to wait for a transmission
      that no worker is left to run, but for one that is blocked, having looked too early and been
      notified too early. */
  lemma DeadlockReachable(n: nat, m: nat, limit: nat) returns (events: seq<Event>, t: Server)
    requires 0 < m <= limit && (m == n || m + 1 == n)
    ensures Reaches(Start(n), events, t, limit) && !Finished(t) && Stuck(t, limit) && |t.inFlight| == m
  {
    var blocked;
    events, blocked := AllProduced(m, m, if m == n then [] else [Free], limit);
    hide Reaches, Stuck, Finished;
    t := AfterProduced(m, m, blocked);
    NobodyGoesOn(m, blocked, limit);
  }

  /** A pool without workers is stuck with its first request. */
  lemma NoWorkersStuck(limit: nat) returns (events: seq<Event>, t: Server)
    requires limit > 0
    ensures Reaches(Start(0), events, t, limit) && !Finished(t) && Stuck(t, limit)
  {
    var s := Next(Start(0), Arrive, limit);
    t := Next(s, Announced(None), limit);
    hide Next, Enabled;
    assert Reaches(Start(0), [], Start(0), limit);
    ReachesThen(Start(0), [], Start(0), Arrive, limit);
    ReachesThen(Start(0), [] + [Arrive], s, Announced(None), limit);
    events := [] + [Arrive] + [Announced(None)];
  }

  ghost predicate DeadlockFree(n: nat, limit: nat) {
    forall events, t :: Reaches(Start(n), events, t, limit) && !Finished(t) ==> !Stuck(t, limit)
  }

  lemma {:induction false} NoSleepers(workers: seq<Worker>)
    requires forall w | 0 <= w < |workers| :: workers[w].Free?
    ensures Sleepers(workers) == 0
  {
    if workers != [] {
      NoSleepers(workers[..|workers| - 1]);
    }
  }

  lemma StartInv(n: nat, limit: nat)
    ensures Inv(Start(n), limit)
  {
    NoSleepers(Start(n).workers);
  }

  /** Without requests the server has nothing to stop with. */
  lemma {:induction false} NoRequests(s: Server, events: seq<Event>, t: Server)
    requires Reaches(s, events, t, 0) && s.queue == [] && !s.announcing && forall w | 0 <= w < |s.workers| :: Idle(s.workers[w])
    ensures Finished(t)
    decreases |events|
  {
    if events != [] {
      NoRequests(Next(s, events[0], 0), events[1..], t);
    }
  }

  /** The server never stops with work left exactly when the requests in flight are at least two fewer than
      the workers of the pool, or there are none. */
  lemma DeadlockFreeExactly(n: nat, limit: nat)
    ensures DeadlockFree(n, limit) <==> limit + 1 < n || limit == 0
  {
    hide Reaches, Inv, Stuck, Finished;
    if limit == 0 {
      forall events, t | Reaches(Start(n), events, t, limit)
        ensures Finished(t)
      {
        NoRequests(Start(n), events, t);
      }
    } else if limit + 1 < n {
      forall events, t | Reaches(Start(n), events, t, limit) && !Finished(t)
        ensures !Stuck(t, limit)
      {
        StartInv(n, limit);
        RunKeepsInv(Start(n), events, t, limit);
        SomeWorkerGoesOn(t, limit);
      }
    } else if n == 0 {
      var events, t := NoWorkersStuck(limit);
    } else {
      var events, t := DeadlockReachable(n, if n == 1 then 1 else n - 1, limit);
    }
  }
}
