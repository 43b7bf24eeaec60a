/** An output stream whose file is written by a thread of its own: a put area, a queue of full or
    flushed areas, and the worker that takes them to the file. */
module AsynchronousBuffers {
  import opened Sequences

  const MAX_BUFFER_SIZE: nat := 5 * 1024

  type Text = seq<char>

  /** The worker waits for the mutex and a reason to go on, holds what it took, or is gone. */
  datatype Worker = Waiting | Holding(chunk: Text, last: bool) | Ended

  /** A stream; `area` is the part of the put area in use and `written` all that was ever put. */
  datatype Stream = Stream(out: Text, worker: Worker, queue: seq<Text>, area: Text, done: bool, written: Text)

  /** The steps of the writing thread and of the worker. */
  datatype Event = Put(c: char) | Sync | Close | Take | Store

  function Start(): Stream {
    Stream([], Waiting, [], [], false, [])
  }

  /** Nothing is put once the stream is being destroyed. */
  predicate Enabled(s: Stream, e: Event) {
    match e
    case Put(_) => !s.done
    case Sync => !s.done
    case Close => !s.done
    case Take => s.worker.Waiting? && (s.queue != [] || s.done)
    case Store => s.worker.Holding?
  }

  function Synced(s: Stream): Stream {
    if s.area == [] then s else s.(queue := s.queue + [s.area], area := [])
  }

  function Taken(s: Stream): Stream {
    var rest := if s.queue == [] then [] else s.queue[1..];
    s.(queue := rest, worker := Holding(if s.queue == [] then [] else s.queue[0], rest == [] && s.done))
  }

  function Next(s: Stream, e: Event): Stream
    requires Enabled(s, e)
  {
    match e
    case Put(c) =>
      var t := s.(area := s.area + [c], written := s.written + [c]);
      if |s.area| < MAX_BUFFER_SIZE - 1 then t else Synced(t)
    case Sync => Synced(s)
    case Close => s.(done := true)
    case Take => Taken(s)
    case Store => s.(out := s.out + s.worker.chunk, worker := if s.worker.last then Ended else Waiting)
  }

  ghost predicate Reaches(s: Stream, events: seq<Event>, t: Stream)
    decreases |events|
  {
    if events == [] then s == t
    else Enabled(s, events[0]) && Reaches(Next(s, events[0]), events[1..], t)
  }

  // ----- The stream as an object -----

  class AsynchronousBuffer {
    var out: Text
    var queue: seq<Text>
    var buffer: seq<char>  // the put area, used up to `put`
    var put: nat
    var done: bool
    var worker: Worker
    ghost var written: Text

    ghost predicate Valid()
      reads this
    {
      |buffer| == MAX_BUFFER_SIZE && put < MAX_BUFFER_SIZE
    }

    ghost function State(): Stream
      requires Valid()
      reads this
    {
      Stream(out, worker, queue, buffer[..put], done, written)
    }

    constructor ()
      ensures Valid() && State() == Start()
    {
      out, queue, put, done, worker, written := [], [], 0, false, Waiting, [];
      buffer := NewArea();
    }

    /** One character: into the put area, or over its reserved last place and on to the worker. */
    method Sputc(c: char)
      requires Valid() && Enabled(State(), Put(c))
      modifies this
      ensures Valid() && State() == Next(old(State()), Put(c))
    {
      if put < |buffer| - 1 {
        Store(c);
      } else {
        Overflow(c);
      }
    }

    method Store(c: char)
      requires |buffer| == MAX_BUFFER_SIZE && put < |buffer|
      modifies `buffer, `put, `written
      ensures |buffer| == MAX_BUFFER_SIZE && put == old(put) + 1
      ensures buffer[..put] == old(buffer[..put]) + [c] && written == old(written) + [c]
    {
      buffer := buffer[put := c];
      put := put + 1;
      written := written + [c];
    }

    method Overflow(c: char)
      requires Valid() && Enabled(State(), Put(c)) && put == MAX_BUFFER_SIZE - 1
      modifies this
      ensures Valid() && State() == Next(old(State()), Put(c))
    {
      Store(c);
      FlushArea();
    }

    method FlushArea()
      requires |buffer| == MAX_BUFFER_SIZE && put <= MAX_BUFFER_SIZE
      modifies `buffer, `put, `queue
      ensures Valid() && put == 0
      ensures queue == if old(put) == 0 then old(queue) else old(queue) + [old(buffer[..put])]
    {
      if put != 0 {
        buffer := buffer[..put];
        queue := queue + [buffer];
        buffer := NewArea();
        put := 0;
      }
    }

    method SyncArea()
      requires Valid() && Enabled(State(), Sync)
      modifies this
      ensures Valid() && State() == Next(old(State()), Sync)
    {
      FlushArea();
    }

    /** A text, one character after the other, while the worker stands still. */
    method Write(text: Text)
      requires Valid() && !done
      modifies this
      ensures Valid() && Reaches(old(State()), Puts(text), State())
    {
      PutsNothing(State());
      for i := 0 to |text|
        invariant Valid() && !done
        invariant Reaches(old(State()), Puts(text[..i]), State())
      {
        ghost var before := State();
        Sputc(text[i]);
        OnePutMore(old(State()), text, i, before);
      }
      assert text[..|text|] == text;
    }

    /** The worker's critical section. */
    method WorkerTakes()
      requires Valid() && Enabled(State(), Take)
      modifies `queue, `worker
      ensures Valid() && State() == Next(old(State()), Take)
    {
      var chunk := [];
      if |queue| > 0 {
        chunk := queue[0];
        queue := queue[1..];
      }
      worker := Holding(chunk, |queue| == 0 && done);
    }

    method WorkerStores()
      requires Valid() && Enabled(State(), Event.Store)
      modifies `out, `worker
      ensures Valid() && State() == Next(old(State()), Event.Store)
    {
      out := out + worker.chunk;
      worker := if worker.last then Ended else Waiting;
    }

    /** The destructor: announce the end and wait for the worker, wherever it is, to be gone. What is in
        the put area is not synced, so the file lacks exactly that. */
    method Destroy()
      requires Valid() && !done && Inv(State())
      modifies this
      ensures Valid() && Inv(State()) && done && worker == Ended
      ensures written == old(written) && buffer[..put] == old(buffer[..put])
      ensures out + buffer[..put] == written
    {
      done := true;
      StepKeepsInv(old(State()), Close);
      hide Inv, Next, Enabled, StepsLeft;
      while worker != Ended
        invariant Valid() && done && Inv(State())
        invariant written == old(written) && buffer[..put] == old(buffer[..put])
        decreases StepsLeft(State())
      {
        ghost var before := State();
        if worker.Waiting? {
          CanTake(before);
          WorkerTakes();
          WorkerStep(before, Take);
        } else {
          CanStore(before);
          WorkerStores();
          WorkerStep(before, Event.Store);
        }
      }
      EndedText(State());
    }
  }

  function NewArea(): (area: seq<char>)
    ensures |area| == MAX_BUFFER_SIZE
  {
    seq(MAX_BUFFER_SIZE, i => ' ')
  }

  function Puts(text: Text): seq<Event> {
    seq(|text|, i requires 0 <= i < |text| => Put(text[i]))
  }

  lemma PutsNothing(s: Stream)
    ensures Reaches(s, Puts([]), s)
  {
  }

  lemma OnePutMore(s: Stream, text: Text, i: nat, t: Stream)
    requires i < |text| && Reaches(s, Puts(text[..i]), t) && Enabled(t, Put(text[i]))
    ensures Reaches(s, Puts(text[..i + 1]), Next(t, Put(text[i])))
  {
    assert Puts(text[..i + 1]) == Puts(text[..i]) + [Put(text[i])];
    ReachesThen(s, Puts(text[..i]), t, Put(text[i]));
  }

  lemma {:induction false} ReachesThen(s: Stream, first: seq<Event>, t: Stream, e: Event)
    requires Reaches(s, first, t) && Enabled(t, e)
    ensures Reaches(s, first + [e], Next(t, e))
    decreases |first|
  {
    hide Next, Enabled;
    if first == [] {
      assert first + [e] == [e];
      assert [e][1..] == [];
      assert Reaches(Next(s, e), [], Next(t, e));
    } else {
      ReachesThen(Next(s, first[0]), first[1..], t, e);
      assert (first + [e])[1..] == first[1..] + [e];
    }
  }

  // ----- What every step keeps -----

  function InHand(w: Worker): Text {
    if w.Holding? then w.chunk else []
  }

  /** All text in the stream, from the file back to the put area. */
  function TextOf(s: Stream): Text {
    s.out + InHand(s.worker) + Concat(s.queue) + s.area
  }

  /** Nothing is lost, repeated or reordered; and the worker stops only when nothing can come any more. */
  predicate Inv(s: Stream) {
    && TextOf(s) == s.written
    && (s.worker == Ended || (s.worker.Holding? && s.worker.last) ==> s.done && s.queue == [])
    && |s.area| < MAX_BUFFER_SIZE
    && forall i | 0 <= i < |s.queue| :: 0 < |s.queue[i]| <= MAX_BUFFER_SIZE
  }

  lemma SyncedKeeps(s: Stream)
    ensures TextOf(Synced(s)) == TextOf(s)
  {
    ConcatAppend(s.queue, s.area);
  }

  lemma StepKeepsInv(s: Stream, e: Event)
    requires Inv(s) && Enabled(s, e)
    ensures Inv(Next(s, e))
  {
    if e.Put? {
      var t := s.(area := s.area + [e.c], written := s.written + [e.c]);
      assert TextOf(t) == TextOf(s) + [e.c];
      SyncedKeeps(t);
    } else if e.Sync? {
      SyncedKeeps(s);
    } else if e.Take? {
      TakeKeeps(s);
    } else if e.Store? {
      assert TextOf(Next(s, e)) == TextOf(s);
    }
    hide TextOf, Concat;
  }

  lemma TakeKeeps(s: Stream)
    requires s.worker.Waiting?
    ensures TextOf(Taken(s)) == TextOf(s)
  {
    if s.queue != [] {
      assert Concat(s.queue) == s.queue[0] + Concat(s.queue[1..]);
    }
  }

  lemma {:induction false} RunKeepsInv(s: Stream, events: seq<Event>, t: Stream)
    requires Inv(s) && Reaches(s, events, t)
    ensures Inv(t)
    decreases |events|
  {
    hide Inv, Next, Enabled;
    if events != [] {
      StepKeepsInv(s, events[0]);
      RunKeepsInv(Next(s, events[0]), events[1..], t);
    }
  }

  /** What the writing thread put, in order. */
  function PutText(events: seq<Event>): Text {
    if events == [] then [] else (if events[0].Put? then [events[0].c] else []) + PutText(events[1..])
  }

  lemma {:induction false} WrittenIsPut(s: Stream, events: seq<Event>, t: Stream)
    requires Reaches(s, events, t)
    ensures t.written == s.written + PutText(events)
    decreases |events|
  {
    if events != [] {
      WrittenIsPut(Next(s, events[0]), events[1..], t);
    }
  }

  lemma {:induction false} PutTextOfPuts(text: Text)
    ensures PutText(Puts(text)) == text
  {
    if text != [] {
      assert Puts(text)[1..] == Puts(text[1..]);
      PutTextOfPuts(text[1..]);
    }
  }

  lemma {:induction false} OnlyCloseCloses(s: Stream, events: seq<Event>, t: Stream)
    requires Reaches(s, events, t) && Close !in events
    ensures t.done == s.done
    decreases |events|
  {
    if events != [] {
      OnlyCloseCloses(Next(s, events[0]), events[1..], t);
    }
  }

  /** What putting a text does. */
  lemma PutsWrite(s: Stream, text: Text, t: Stream)
    requires Inv(s) && Reaches(s, Puts(text), t)
    ensures Inv(t) && t.written == s.written + text && t.done == s.done
  {
    hide Inv, Reaches;
    RunKeepsInv(s, Puts(text), t);
    WrittenIsPut(s, Puts(text), t);
    PutTextOfPuts(text);
    OnlyCloseCloses(s, Puts(text), t);
  }

  /** In every interleaving of the writer's and the worker's steps, the file, what the worker holds, the
      queue and the put area together are the characters put, in order. */
  lemma NothingLost(events: seq<Event>, t: Stream)
    requires Reaches(Start(), events, t)
    ensures TextOf(t) == PutText(events)
    ensures t.out <= PutText(events)
  {
    RunKeepsInv(Start(), events, t);
    WrittenIsPut(Start(), events, t);
    hide Reaches, Concat;
  }

  function UnsyncedThen(k: nat, e: Event): nat {
    match e
    case Put(_) => k + 1
    case Sync => 0
    case _ => k
  }

  /** Characters put since the last sync, when there were `k` before. */
  function UnsyncedAfter(k: nat, events: seq<Event>): nat
    decreases |events|
  {
    if events == [] then k else UnsyncedAfter(UnsyncedThen(k, events[0]), events[1..])
  }

  function Unsynced(events: seq<Event>): nat {
    UnsyncedAfter(0, events)
  }

  /** The put area holds the characters put since the last sync, but for whole areas that went on by
      themselves. */
  lemma {:induction false} AreaIsUnsynced(s: Stream, events: seq<Event>, t: Stream, k: nat)
    requires Reaches(s, events, t) && |s.area| == k % MAX_BUFFER_SIZE
    ensures |t.area| == UnsyncedAfter(k, events) % MAX_BUFFER_SIZE
    decreases |events|
  {
    if events != [] {
      var e := events[0];
      AreaAfter(s, e, k);
      hide Enabled, Next;
      AreaIsUnsynced(Next(s, e), events[1..], t, UnsyncedThen(k, e));
    }
  }

  lemma AreaAfter(s: Stream, e: Event, k: nat)
    requires Enabled(s, e) && |s.area| == k % MAX_BUFFER_SIZE
    ensures |Next(s, e).area| == UnsyncedThen(k, e) % MAX_BUFFER_SIZE
  {
    assert (k + 1) % MAX_BUFFER_SIZE == if k % MAX_BUFFER_SIZE == MAX_BUFFER_SIZE - 1 then 0 else k % MAX_BUFFER_SIZE + 1;
  }

  /** Once the worker is gone the file holds everything if and only if the characters put since the last
      sync fill the put area a whole number of times: destroying the stream does not sync it. */
  lemma CompleteExactly(events: seq<Event>, t: Stream)
    requires Reaches(Start(), events, t) && t.worker == Ended
    ensures t.out == PutText(events) <==> Unsynced(events) % 5120 == 0
    ensures PutText(events) == t.out + t.area && |t.area| == Unsynced(events) % 5120
  {
    RunKeepsInv(Start(), events, t);
    WrittenIsPut(Start(), events, t);
    EndedText(t);
    AreaIsUnsynced(Start(), events, t, 0);
    assert t.written == PutText(events);
    hide Reaches, Inv;
    assert t.area == [] ==> t.out + t.area == t.out;
  }

  /** So a text that ends in mid-area is lost from there on by a run in which nobody syncs. */
  lemma UnsyncedIsLost(c: char) returns (events: seq<Event>, t: Stream)
    ensures events == [Put(c), Close, Take, Event.Store] && Reaches(Start(), events, t)
    ensures t.worker == Ended && PutText(events) == [c] && t.out == []
  {
    events := [Put(c), Close, Take, Event.Store];
    var a := Next(Start(), Put(c));
    var b := Next(a, Close);
    var d := Next(b, Take);
    t := Next(d, Event.Store);
    assert events[1..] == [Close, Take, Event.Store] && events[1..][1..] == [Take, Event.Store] && events[1..][1..][1..] == [Event.Store];
    hide Next, Enabled;
    assert Reaches(d, [Event.Store], t);
    assert Reaches(b, events[1..][1..], t);
    assert Reaches(a, events[1..], t);
    WrittenIsPut(Start(), events, t);
  }

  // ----- The worker ends -----

  predicate WorkerEvent(e: Event) {
    e.Take? || e.Store?
  }

  function StepsLeft(s: Stream): nat {
    2 * |s.queue| + match s.worker case Waiting => 2 case Holding(_, last) => if last then 1 else 3 case Ended => 0
  }

  lemma WorkerProgress(s: Stream, e: Event)
    requires Inv(s) && s.done && WorkerEvent(e) && Enabled(s, e)
    ensures StepsLeft(Next(s, e)) < StepsLeft(s) && Next(s, e).done
  {
  }

  lemma CanTake(s: Stream)
    requires s.done && s.worker.Waiting?
    ensures Enabled(s, Take)
  {
  }

  lemma CanStore(s: Stream)
    requires s.worker.Holding?
    ensures Enabled(s, Event.Store)
  {
  }

  lemma WorkerStep(s: Stream, e: Event)
    requires Inv(s) && s.done && WorkerEvent(e) && Enabled(s, e)
    ensures Inv(Next(s, e)) && StepsLeft(Next(s, e)) < StepsLeft(s)
    ensures Next(s, e).done && Next(s, e).written == s.written && Next(s, e).area == s.area
  {
    StepKeepsInv(s, e);
    hide Inv;
    assert Inv(s) ==> StepsLeft(Next(s, e)) < StepsLeft(s) by {
      WorkerProgress(s, e);
    }
  }

  lemma EndedText(s: Stream)
    requires Inv(s) && s.worker == Ended
    ensures s.out + s.area == s.written
  {
  }

  /** After the stream is closed the worker takes a bounded number of steps and is stopped only by its
      own end, so joining it returns. */
  lemma {:induction false} WorkerEnds(s: Stream, events: seq<Event>, t: Stream)
    requires Inv(s) && s.done && Reaches(s, events, t)
    requires forall i | 0 <= i < |events| :: WorkerEvent(events[i])
    ensures |events| + StepsLeft(t) <= StepsLeft(s)
    ensures (forall e :: WorkerEvent(e) ==> !Enabled(t, e)) ==> t.worker == Ended
    decreases |events|
  {
    if events == [] {
      assert WorkerEvent(Take) && WorkerEvent(Event.Store);
    } else {
      WorkerProgress(s, events[0]);
      StepKeepsInv(s, events[0]);
      hide Inv, StepsLeft, Next, Enabled;
      WorkerEnds(Next(s, events[0]), events[1..], t);
    }
  }
}
