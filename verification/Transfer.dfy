/** A transfer with all its threads: the request that produces messages, the transmission that sends
    them, the client's receiving loop and its decompression thread, in any interleaving. */
module Transfers {
  import opened Wrappers
  import opened FileProcessors
  import opened Clients

  /** A thread that takes from a queue waits for a reason to go on, holds what it took, or is gone. */
  datatype Transmitter = Idle | Sending(m: Option<Message>, lastOne: bool) | Gone

  datatype Decompressor = Waiting | Holding(e: Option<Entry>, last: bool) | Ended

  datatype System = System(
    toProduce: seq<Message>,  // what the request has still to put in its queue
    requestDone: bool, transmissionQueue: seq<Message>, transmitter: Transmitter,
    wire: seq<Message>,       // sent and not yet received
    phase: Phase, doneReceiving: bool, decompressionQueue: seq<Entry>, decompressor: Decompressor,
    sink: Sink)

  datatype Event = Produce | FinishProducing | TakeMessage | Send | ReceiveMessage | StopReceiving | TakeEntry | Write

  function Start(messages: seq<Message>): System {
    System(messages, false, [], Idle, [], WaitInfo, false, [], Waiting, Clients.Start())
  }

  predicate Enabled(s: System, e: Event) {
    match e
    case Produce => s.toProduce != []
    case FinishProducing => s.toProduce == [] && !s.requestDone
    case TakeMessage => s.transmitter.Idle? && (s.transmissionQueue != [] || s.requestDone)
    case Send => s.transmitter.Sending?
    case ReceiveMessage => s.wire != [] && Reads(s.phase)
    case StopReceiving => !Reads(s.phase) && !s.doneReceiving
    case TakeEntry => s.decompressor.Waiting? && (s.decompressionQueue != [] || s.doneReceiving)
    case Write => s.decompressor.Holding?
  }

  function MessageTaken(s: System): System {
    if s.transmissionQueue == [] then s.(transmitter := Sending(None, s.requestDone))
    else
      var rest := s.transmissionQueue[1..];
      s.(transmissionQueue := rest, transmitter := Sending(Some(s.transmissionQueue[0]), rest == [] && s.requestDone))
  }

  function EntryTaken(s: System): System {
    if s.decompressionQueue == [] then s.(decompressor := Holding(None, s.doneReceiving))
    else
      var rest := s.decompressionQueue[1..];
      s.(decompressionQueue := rest, decompressor := Holding(Some(s.decompressionQueue[0]), rest == [] && s.doneReceiving))
  }

  function Next(s: System, e: Event, d: Decoder): System
    requires Enabled(s, e)
  {
    match e
    case Produce => s.(toProduce := s.toProduce[1..], transmissionQueue := s.transmissionQueue + [s.toProduce[0]])
    case FinishProducing => s.(requestDone := true)
    case TakeMessage => MessageTaken(s)
    case Send => s.(wire := s.wire + Sent(s.transmitter), transmitter := if s.transmitter.lastOne then Gone else Idle)
    case ReceiveMessage =>
      s.(wire := s.wire[1..], phase := Receive(s.phase, s.wire[0]), decompressionQueue := s.decompressionQueue + Emits(s.phase, s.wire[0]))
    case StopReceiving => s.(doneReceiving := true)
    case TakeEntry => EntryTaken(s)
    case Write =>
      var e := s.decompressor.e;
      s.(sink := if e.Some? then Handle(s.sink, e.value, d) else s.sink, decompressor := if s.decompressor.last then Ended else Waiting)
  }

  ghost predicate Reaches(s: System, events: seq<Event>, t: System, d: Decoder)
    decreases |events|
  {
    if events == [] then s == t
    else Enabled(s, events[0]) && Reaches(Next(s, events[0], d), events[1..], t, d)
  }

  // ----- What every step keeps -----

  function Sent(t: Transmitter): seq<Message> {
    if t.Sending? && t.m.Some? then [t.m.value] else []
  }

  function Held(d: Decompressor): seq<Entry> {
    if d.Holding? && d.e.Some? then [d.e.value] else []
  }

  /** Messages the client has not read, in order. */
  function Unread(s: System): seq<Message> {
    s.wire + Sent(s.transmitter) + s.transmissionQueue + s.toProduce
  }

  /** Entries the decompression thread has not handled. */
  function Unhandled(s: System): seq<Entry> {
    Held(s.decompressor) + s.decompressionQueue
  }

  /** What the client will have saved when everything has been read and handled. */
  function Outcome(s: System, d: Decoder): Sink {
    HandleAll(s.sink, Unhandled(s) + Entries(s.phase, Unread(s)), d)
  }

  /** Threads stop only when nothing can come any more. */
  predicate Draining(s: System) {
    && (s.requestDone ==> s.toProduce == [])
    && (s.transmitter.Gone? || (s.transmitter.Sending? && s.transmitter.lastOne) ==> s.requestDone && s.transmissionQueue == [])
    && (s.transmitter.Sending? && s.transmitter.m.None? ==> s.transmitter.lastOne)
    && (s.doneReceiving ==> !Reads(s.phase))
    && (s.decompressor.Ended? || (s.decompressor.Holding? && s.decompressor.last) ==> s.doneReceiving && s.decompressionQueue == [])
    && (s.decompressor.Holding? && s.decompressor.e.None? ==> s.decompressor.last)
  }

  /** The parser will read all messages and finish with the last; the outcome is settled. */
  predicate Inv(s: System, d: Decoder, goal: Sink) {
    Draining(s) && Completes(s.phase, Unread(s)) && Outcome(s, d) == goal
  }

  lemma StepDrains(s: System, e: Event, d: Decoder)
    requires Draining(s) && Enabled(s, e)
    ensures Draining(Next(s, e, d))
  {
    hide Handle, Receive, Emits;
  }

  /** Only receiving takes a message away from what is unread. */
  lemma StepUnread(s: System, e: Event, d: Decoder)
    requires Enabled(s, e)
    ensures if e.ReceiveMessage? then Unread(s) == [s.wire[0]] + Unread(Next(s, e, d)) else Unread(Next(s, e, d)) == Unread(s)
  {
    hide Handle, Receive, Emits;
    var sent := Sent(s.transmitter);
    match e
    case Produce => Produced(s.wire + sent, s.transmissionQueue, s.toProduce);
    case FinishProducing =>
    case TakeMessage => TakenUnread(s.wire, s.transmissionQueue, s.toProduce);
    case Send => SentUnread(s.wire, sent, s.transmissionQueue, s.toProduce);
    case ReceiveMessage => ReceivedUnread(s.wire, sent, s.transmissionQueue, s.toProduce);
    case StopReceiving =>
    case TakeEntry =>
    case Write =>
  }

  lemma Produced(sent: seq<Message>, queue: seq<Message>, toProduce: seq<Message>)
    requires toProduce != []
    ensures sent + queue + toProduce == sent + (queue + [toProduce[0]]) + toProduce[1..]
  {
  }

  lemma TakenUnread(wire: seq<Message>, queue: seq<Message>, toProduce: seq<Message>)
    ensures queue != [] ==> wire + [] + queue + toProduce == wire + [queue[0]] + queue[1..] + toProduce
  {
  }

  lemma SentUnread(wire: seq<Message>, sent: seq<Message>, queue: seq<Message>, toProduce: seq<Message>)
    ensures wire + sent + queue + toProduce == wire + sent + [] + queue + toProduce
  {
  }

  lemma ReceivedUnread(wire: seq<Message>, sent: seq<Message>, queue: seq<Message>, toProduce: seq<Message>)
    requires wire != []
    ensures wire + sent + queue + toProduce == [wire[0]] + (wire[1..] + sent + queue + toProduce)
  {
  }

  /** Only receiving adds entries, and only writing takes one away. */
  lemma StepUnhandled(s: System, e: Event, d: Decoder)
    requires Enabled(s, e)
    ensures match e
            case ReceiveMessage => Unhandled(Next(s, e, d)) == Unhandled(s) + Emits(s.phase, s.wire[0])
            case Write => Unhandled(s) == Held(s.decompressor) + Unhandled(Next(s, e, d))
            case _ => Unhandled(Next(s, e, d)) == Unhandled(s)
  {
    hide Handle, Receive, Emits;
    if e.TakeEntry? && s.decompressionQueue != [] {
      assert s.decompressionQueue == [s.decompressionQueue[0]] + s.decompressionQueue[1..];
    }
  }

  /** Reading a message moves its entries from what is to come to what is to be handled. */
  lemma ReceivingKeepsOutcome(phase: Phase, m: Message, ms: seq<Message>, work: seq<Entry>, sink: Sink, d: Decoder)
    requires Reads(phase) && Completes(phase, [m] + ms)
    ensures Completes(Receive(phase, m), ms)
    ensures HandleAll(sink, work + Entries(phase, [m] + ms), d)
            == HandleAll(sink, work + Emits(phase, m) + Entries(Receive(phase, m), ms), d)
  {
    Reading(phase, m, ms);
    hide Completes, Entries, Emits, Receive, HandleAll;
    assert work + (Emits(phase, m) + Entries(Receive(phase, m), ms)) == work + Emits(phase, m) + Entries(Receive(phase, m), ms);
  }

  lemma HandlingKeepsOutcome(held: seq<Entry>, work: seq<Entry>, later: seq<Entry>, sink: Sink, d: Decoder)
    ensures HandleAll(sink, held + work + later, d) == HandleAll(HandleAll(sink, held, d), work + later, d)
  {
    hide HandleAll;
    assert held + work + later == held + (work + later);
    HandleConcat(sink, held, work + later, d);
  }

  lemma StepKeepsInv(s: System, e: Event, d: Decoder, goal: Sink)
    requires Inv(s, d, goal) && Enabled(s, e)
    ensures Inv(Next(s, e, d), d, goal)
  {
    var t := Next(s, e, d);
    StepDrains(s, e, d);
    StepUnread(s, e, d);
    StepUnhandled(s, e, d);
    SamePhaseAndSink(s, e, d);
    hide Draining, Unread, Unhandled, Enabled, Next, Handle, Completes, Entries, HandleAll, Emits, Receive, Held;
    if e.ReceiveMessage? {
      ReceivingKeepsOutcome(s.phase, s.wire[0], Unread(t), Unhandled(s), s.sink, d);
    } else if e.Write? {
      HandlingKeepsOutcome(Held(s.decompressor), Unhandled(t), Entries(s.phase, Unread(s)), s.sink, d);
    }
  }

  lemma SamePhaseAndSink(s: System, e: Event, d: Decoder)
    requires Enabled(s, e)
    ensures var t := Next(s, e, d);
            && t.phase == (if e.ReceiveMessage? then Receive(s.phase, s.wire[0]) else s.phase)
            && t.sink == (if e.Write? then HandleAll(s.sink, Held(s.decompressor), d) else s.sink)
            && (e.ReceiveMessage? ==> s.wire != [] && Reads(s.phase))
  {
    hide Handle, Receive, Emits;
  }

  lemma {:induction false} RunKeepsInv(s: System, events: seq<Event>, t: System, d: Decoder, goal: Sink)
    requires Inv(s, d, goal) && Reaches(s, events, t, d)
    ensures Inv(t, d, goal)
    decreases |events|
  {
    hide Inv, Next, Enabled;
    if events != [] {
      StepKeepsInv(s, events[0], d, goal);
      RunKeepsInv(Next(s, events[0], d), events[1..], t, d, goal);
    }
  }

  // ----- No run gets stuck, and every run ends -----

  predicate AllDone(s: System) {
    s.requestDone && s.transmitter.Gone? && s.doneReceiving && s.decompressor.Ended?
  }

  lemma StuckIsDone(s: System, d: Decoder, goal: Sink)
    requires Inv(s, d, goal)
    requires forall e :: !Enabled(s, e)
    ensures AllDone(s) && s.phase == Finished && s.sink == goal
  {
    hide Receive, Emits, Handle;
    assert !Enabled(s, Produce) && !Enabled(s, FinishProducing) && !Enabled(s, TakeMessage) && !Enabled(s, Send);
    assert Unread(s) == s.wire;
    assert !Enabled(s, ReceiveMessage) && !Enabled(s, StopReceiving);
    assert s.wire == [];
    assert !Enabled(s, TakeEntry) && !Enabled(s, Write);
    assert Unhandled(s) + Entries(s.phase, Unread(s)) == [];
  }

  /** A bound on the steps a run can still take. */
  function StepsLeft(s: System): nat {
    6 * |s.toProduce| + (if s.requestDone then 0 else 1) + 5 * |s.transmissionQueue|
    + (match s.transmitter case Idle => 2 case Sending(m, _) => if m.Some? then 6 else 1 case Gone => 0)
    + 3 * |s.wire| + (if s.doneReceiving then 0 else 1) + 2 * |s.decompressionQueue|
    + (match s.decompressor case Waiting => 2 case Holding(e, _) => if e.Some? then 3 else 1 case Ended => 0)
  }

  lemma StepIsTaken(s: System, e: Event, d: Decoder)
    requires Draining(s) && Enabled(s, e)
    ensures StepsLeft(Next(s, e, d)) < StepsLeft(s)
  {
    hide Handle, Receive;
  }

  lemma {:induction false} RunsAreBounded(s: System, events: seq<Event>, t: System, d: Decoder)
    requires Draining(s) && Reaches(s, events, t, d)
    ensures |events| + StepsLeft(t) <= StepsLeft(s)
    decreases |events|
  {
    if events != [] {
      StepIsTaken(s, events[0], d);
      StepDrains(s, events[0], d);
      hide Draining, StepsLeft, Next, Enabled;
      RunsAreBounded(Next(s, events[0], d), events[1..], t, d);
    }
  }

  /** Files saved stay saved. */
  lemma {:induction false} SavedGrows(s: Sink, entries: seq<Entry>, d: Decoder)
    ensures s.saved <= HandleAll(s, entries, d).saved
    decreases |entries|
  {
    if entries != [] {
      assert s.saved <= Handle(s, entries[0], d).saved;
      hide Handle;
      SavedGrows(Handle(s, entries[0], d), entries[1..], d);
    }
  }

  /** For files that can be transferred and choices that can be undone, in every interleaving: what has
      been saved is at any time a prefix of the files requested, each whole; the number of steps is
      bounded; and a run that can go no further has ended all threads with all files saved. */
  lemma TransferIsExact(files: seq<SourceFile>, chunkSize: nat, codec: Codec, d: Decoder, events: seq<Event>, t: System)
    requires chunkSize > 0 && Transferable(files) && RestoredFiles(d, files, 0, chunkSize, codec)
    requires Reaches(Start(Messages(files, 0, chunkSize, codec)), events, t, d)
    ensures t.sink.saved <= Expected(files)
    ensures |events| <= 6 * |Messages(files, 0, chunkSize, codec)| + 6
    ensures (forall e :: !Enabled(t, e)) ==> AllDone(t) && t.sink.saved == Expected(files)
  {
    var messages := Messages(files, 0, chunkSize, codec);
    var goal := HandleAll(Clients.Start(), Entries(WaitInfo, messages), d);
    CompletesExactly(files, 0, chunkSize, codec);
    FilesArrive(Clients.Start(), d, files, 0, chunkSize, codec);
    StartInv(messages, d);
    hide Messages, Entries, HandleAll, RestoredFiles, Transferable, Enabled, Reaches, Completes, Expected;
    RunKeepsInv(Start(messages), events, t, d, goal);
    RunsAreBounded(Start(messages), events, t, d);
    SavedGrows(t.sink, Unhandled(t) + Entries(t.phase, Unread(t)), d);
    if forall e :: !Enabled(t, e) {
      StuckIsDone(t, d, goal);
    }
  }

  lemma StepKeepsParse(s: System, e: Event, d: Decoder)
    requires Enabled(s, e)
    ensures Parse(Next(s, e, d).phase, Unread(Next(s, e, d))) == Parse(s.phase, Unread(s))
  {
    StepUnread(s, e, d);
    SamePhaseAndSink(s, e, d);
    hide Unread, Enabled, Next, Receive, Parse;
    if e.ReceiveMessage? {
      Reading(s.phase, s.wire[0], Unread(Next(s, e, d)));
    }
  }

  lemma {:induction false} RunKeepsParse(s: System, events: seq<Event>, t: System, d: Decoder)
    requires Reaches(s, events, t, d)
    ensures Parse(t.phase, Unread(t)) == Parse(s.phase, Unread(s))
    decreases |events|
  {
    hide Next, Enabled, Parse;
    if events != [] {
      StepKeepsParse(s, events[0], d);
      RunKeepsParse(Next(s, events[0], d), events[1..], t, d);
    }
  }

  /** Whatever the request and the compressors' choices, no interleaving brings the client to a good end
      unless the request could be transferred. */
  lemma FinishesOnlyIfTransferable(files: seq<SourceFile>, chunkSize: nat, codec: Codec, d: Decoder, events: seq<Event>, t: System)
    requires chunkSize > 0 && Reaches(Start(Messages(files, 0, chunkSize, codec)), events, t, d) && t.phase == Finished
    ensures Transferable(files)
  {
    var messages := Messages(files, 0, chunkSize, codec);
    RunKeepsParse(Start(messages), events, t, d);
    assert Unread(Start(messages)) == messages;
    assert Parse(Finished, Unread(t)) == Finished;
    CompletesExactly(files, 0, chunkSize, codec);
  }

  lemma StartInv(messages: seq<Message>, d: Decoder)
    requires Completes(WaitInfo, messages)
    ensures Inv(Start(messages), d, HandleAll(Clients.Start(), Entries(WaitInfo, messages), d))
  {
    hide Entries, HandleAll, Completes;
    var s := Start(messages);
    assert Unread(s) == messages;
    assert Unhandled(s) + Entries(WaitInfo, messages) == Entries(WaitInfo, messages);
  }
}
