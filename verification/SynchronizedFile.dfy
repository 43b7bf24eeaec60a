/** A file that many threads write lines to. A line is written and flushed under the file's mutex, by
    whoever holds it, while the stream's worker runs on. */
module SynchronizedFiles {
  import opened Wrappers
  import opened Sequences
  import AsynchronousBuffers

  type Text = AsynchronousBuffers.Text
  type Stream = AsynchronousBuffers.Stream

  /** The file; `pending` is what the holder of the mutex has still to put, `lines` the lines in the order
      in which their writers got the mutex. */
  datatype File = File(stream: Stream, pending: Option<Text>, lines: seq<Text>)

  /** A writer gets the mutex for a line, puts its next character, or flushes and lets go; the file is
      destroyed when nobody writes; the worker takes its own steps. */
  datatype Event = Lock(data: Text) | Put | Unlock | Destroy | Worker(e: AsynchronousBuffers.Event)

  function Start(): File {
    File(AsynchronousBuffers.Start(), None, [])
  }

  /** The step of the stream that an event of the file takes. */
  function StreamStep(f: File, e: Event): Option<AsynchronousBuffers.Event>
    requires e.Put? ==> f.pending.Some? && f.pending.value != []
  {
    match e
    case Lock(_) => None
    case Put => Some(AsynchronousBuffers.Event.Put(f.pending.value[0]))
    case Unlock => Some(AsynchronousBuffers.Sync)
    case Destroy => Some(AsynchronousBuffers.Close)
    case Worker(step) => Some(step)
  }

  predicate Enabled(f: File, e: Event) {
    && (match e
        case Lock(_) => f.pending.None? && !f.stream.done
        case Put => f.pending.Some? && f.pending.value != []
        case Unlock => f.pending == Some([])
        case Destroy => f.pending.None?
        case Worker(step) => AsynchronousBuffers.WorkerEvent(step))
    && (StreamStep(f, e).Some? ==> AsynchronousBuffers.Enabled(f.stream, StreamStep(f, e).value))
  }

  function Line(data: Text): Text {
    data + ['\n']
  }

  function Next(f: File, e: Event): File
    requires Enabled(f, e)
  {
    var stream := match StreamStep(f, e)
      case None => f.stream
      case Some(step) => AsynchronousBuffers.Next(f.stream, step);
    match e
    case Lock(data) => f.(pending := Some(Line(data)), lines := f.lines + [Line(data)])
    case Put => File(stream, Some(f.pending.value[1..]), f.lines)
    case Unlock => File(stream, None, f.lines)
    case Destroy => f.(stream := stream)
    case Worker(_) => f.(stream := stream)
  }

  ghost predicate Reaches(f: File, events: seq<Event>, g: File)
    decreases |events|
  {
    if events == [] then f == g
    else Enabled(f, events[0]) && Reaches(Next(f, events[0]), events[1..], g)
  }

  function Pending(f: File): Text {
    match f.pending
    case Some(rest) => rest
    case None => []
  }

  /** What is in the stream and what its holder has still to put are the lines; nothing stays in the put
      area when nobody writes, and nobody writes to a file being destroyed. */
  predicate Inv(f: File) {
    && AsynchronousBuffers.Inv(f.stream)
    && f.stream.written + Pending(f) == Concat(f.lines)
    && (f.pending.None? ==> f.stream.area == [])
    && (f.stream.done ==> f.pending.None?)
  }

  lemma StepKeepsInv(f: File, e: Event)
    requires Inv(f) && Enabled(f, e)
    ensures Inv(Next(f, e))
  {
    match e
    case Lock(data) => LockKeepsInv(f, data);
    case Worker(step) => WorkerKeepsInv(f, step);
    case _ => WriterKeepsInv(f, e);
  }

  lemma LockKeepsInv(f: File, data: Text)
    requires Inv(f) && Enabled(f, Lock(data))
    ensures Inv(Next(f, Lock(data)))
  {
    ConcatAppend(f.lines, Line(data));
    hide AsynchronousBuffers.Inv, Concat;
  }

  lemma WorkerKeepsInv(f: File, step: AsynchronousBuffers.Event)
    requires Inv(f) && Enabled(f, Worker(step))
    ensures Inv(Next(f, Worker(step)))
  {
    AsynchronousBuffers.StepKeepsInv(f.stream, step);
    hide AsynchronousBuffers.Inv, Concat;
  }

  /** Putting a character, flushing and destroying. */
  lemma WriterKeepsInv(f: File, e: Event)
    requires Inv(f) && Enabled(f, e) && (e.Put? || e.Unlock? || e.Destroy?)
    ensures Inv(Next(f, e))
  {
    var step := StreamStep(f, e).value;
    AsynchronousBuffers.StepKeepsInv(f.stream, step);
    WriterStep(f.stream, step);
    if e.Put? {
      MoveOver(f.stream.written, f.pending.value);
    }
    hide AsynchronousBuffers.Inv, AsynchronousBuffers.Next, AsynchronousBuffers.Enabled, Concat;
  }

  lemma WriterStep(s: Stream, step: AsynchronousBuffers.Event)
    requires AsynchronousBuffers.Enabled(s, step) && !AsynchronousBuffers.WorkerEvent(step)
    ensures var t := AsynchronousBuffers.Next(s, step);
            && t.written == (match step case Put(c) => s.written + [c] case _ => s.written)
            && t.done == (s.done || step.Close?)
            && (step.Sync? ==> t.area == []) && (step.Close? ==> t.area == s.area)
  {
  }

  lemma {:induction false} RunKeepsInv(f: File, events: seq<Event>, g: File)
    requires Inv(f) && Reaches(f, events, g)
    ensures Inv(g)
    decreases |events|
  {
    hide Inv, Next, Enabled;
    if events != [] {
      StepKeepsInv(f, events[0]);
      RunKeepsInv(Next(f, events[0]), events[1..], g);
    }
  }

  function Locked(events: seq<Event>): seq<Text> {
    if events == [] then [] else (if events[0].Lock? then [Line(events[0].data)] else []) + Locked(events[1..])
  }

  lemma {:induction false} LinesAreLocked(f: File, events: seq<Event>, g: File)
    requires Reaches(f, events, g)
    ensures g.lines == f.lines + Locked(events)
    decreases |events|
  {
    if events != [] {
      LinesAreLocked(Next(f, events[0]), events[1..], g);
      OneLine(f, events[0]);
      hide Next, Enabled;
    }
  }

  lemma OneLine(f: File, e: Event)
    requires Enabled(f, e)
    ensures Next(f, e).lines == f.lines + (if e.Lock? then [Line(e.data)] else [])
  {
  }

  /** In every interleaving of any number of writers and the worker, the file holds at any time a prefix of
      the lines written, in the order in which the mutex was got; and once the file has been destroyed and
      its worker is gone, it holds all of them. */
  lemma LinesWholeInOrder(events: seq<Event>, f: File)
    requires Reaches(Start(), events, f)
    ensures f.stream.out <= Concat(Locked(events))
    ensures f.stream.worker == AsynchronousBuffers.Ended ==> f.stream.out == Concat(Locked(events))
  {
    LinesAreLocked(Start(), events, f);
    assert f.lines == Locked(events);
    RunKeepsInv(Start(), events, f);
    hide Reaches, Concat, Locked;
  }

  /** The data of the lines, in the order in which the mutex was got. */
  function Data(events: seq<Event>): seq<Text> {
    if events == [] then [] else (if events[0].Lock? then [events[0].data] else []) + Data(events[1..])
  }

  /** A text cut at its newlines. */
  function Cut(text: Text): (pieces: seq<Text>)
    ensures pieces != []
  {
    if text == [] then [[]]
    else
      var pieces, c := Cut(text[..|text| - 1]), text[|text| - 1];
      if c == '\n' then pieces + [[]] else pieces[..|pieces| - 1] + [pieces[|pieces| - 1] + [c]]
  }

  lemma {:induction false} LinesAreData(events: seq<Event>)
    ensures |Locked(events)| == |Data(events)| && forall k | 0 <= k < |Data(events)| :: Locked(events)[k] == Data(events)[k] + ['\n']
  {
    if events != [] {
      LinesAreData(events[1..]);
    }
  }

  lemma CutNext(text: Text, c: char)
    ensures var pieces, n := Cut(text), |Cut(text)| - 1;
            Cut(text + [c]) == if c == '\n' then pieces + [[]] else pieces[..n] + [pieces[n] + [c]]
  {
    assert (text + [c])[..|text + [c]| - 1] == text;
  }

  lemma {:induction false} CutOne(text: Text, data: Text)
    requires '\n' !in data
    ensures var pieces, n := Cut(text), |Cut(text)| - 1;
            Cut(text + data) == pieces[..n] + [pieces[n] + data]
  {
    hide Cut;
    var pieces, n := Cut(text), |Cut(text)| - 1;
    if data == [] {
      assert text + data == text && pieces[n] + data == pieces[n];
    } else {
      var init, c := data[..|data| - 1], data[|data| - 1];
      CutOne(text, init);
      CutNext(text + init, c);
      InThree(text, init, [c]);
      InThree(pieces[n], init, [c]);
      assert init + [c] == data;
    }
  }

  lemma CutLine(text: Text, data: Text)
    requires '\n' !in data && Cut(text)[|Cut(text)| - 1] == []
    ensures Cut(text + (data + ['\n'])) == Cut(text)[..|Cut(text)| - 1] + [data, []]
  {
    hide Cut;
    CutOne(text, data);
    CutNext(text + data, '\n');
    InThree(text, data, ['\n']);
    assert [] + data == data;
  }

  lemma {:induction false} CutLines(lines: seq<Text>, data: seq<Text>)
    requires |lines| == |data| && forall k | 0 <= k < |data| :: lines[k] == data[k] + ['\n'] && '\n' !in data[k]
    ensures Cut(Concat(lines)) == data + [[]]
  {
    if lines == [] {
      assert data == [];
    } else {
      var n := |lines| - 1;
      CutLines(lines[..n], data[..n]);
      ConcatAppend(lines[..n], lines[n]);
      assert lines == lines[..n] + [lines[n]] && data == data[..n] + [data[n]];
      CutLine(Concat(lines[..n]), data[n]);
    }
  }

  /** After destruction, cutting the file at its newlines gives the data of every line, in order, when no
      data hold a newline of their own. */
  lemma FileGivesData(events: seq<Event>, f: File)
    requires Reaches(Start(), events, f) && f.stream.worker == AsynchronousBuffers.Ended
    requires forall k | 0 <= k < |Data(events)| :: '\n' !in Data(events)[k]
    ensures Cut(f.stream.out) == Data(events) + [[]]
  {
    LinesWholeInOrder(events, f);
    LinesAreData(events);
    hide Reaches, Cut, Locked, Data, Concat;
    CutLines(Locked(events), Data(events));
  }

  // ----- The file as an object -----

  /** The file, while its writers take turns: between two lines nothing is left in the put area. */
  class SynchronizedFile {
    const outBuffer: AsynchronousBuffers.AsynchronousBuffer
    ghost var lines: seq<Text>

    ghost predicate Valid()
      reads this, outBuffer
    {
      && outBuffer.Valid()
      && !outBuffer.done
      && outBuffer.put == 0
      && AsynchronousBuffers.Inv(outBuffer.State())
      && outBuffer.written == Concat(lines)
    }

    constructor ()
      ensures Valid() && lines == [] && fresh(outBuffer)
    {
      outBuffer := new AsynchronousBuffers.AsynchronousBuffer();
      lines := [];
    }

    /** A line, whole, and a flush. */
    method Write(data: Text)
      requires Valid()
      modifies this, outBuffer
      ensures Valid() && lines == old(lines) + [data + ['\n']]
    {
      ghost var before := outBuffer.State();
      outBuffer.Write(Line(data));
      AsynchronousBuffers.PutsWrite(before, Line(data), outBuffer.State());
      AsynchronousBuffers.StepKeepsInv(outBuffer.State(), AsynchronousBuffers.Sync);
      hide AsynchronousBuffers.Inv, AsynchronousBuffers.Reaches;
      outBuffer.SyncArea();
      ConcatAppend(lines, Line(data));
      lines := lines + [Line(data)];
    }

    /** Destroys the stream after the lines: they are what the file holds. */
    method Destroy()
      requires Valid()
      modifies this, outBuffer
      ensures outBuffer.out == Concat(lines) && lines == old(lines)
    {
      outBuffer.Destroy();
    }
  }
}
