/** The client's two threads as loops: the one that receives messages and the one that writes files. */
module ClientLoops {
  import opened Wrappers
  import opened Buffers
  import opened FileProcessors
  import opened Clients
  import SynchronousQueues

  type Connection = SynchronousQueues.SynchronousQueue<Message>
  type DecompressionQueue = SynchronousQueues.SynchronousQueue<Entry>

  lemma NoMore(phase: Phase)
    ensures Entries(phase, []) == [] && Parse(phase, []) == phase
  {
  }

  lemma OneMore(phase: Phase, ms: seq<Message>)
    requires Reads(phase) && ms != []
    ensures Entries(phase, ms) == Emits(phase, ms[0]) + Entries(Receive(phase, ms[0]), ms[1..])
    ensures Parse(phase, ms) == Parse(Receive(phase, ms[0]), ms[1..])
  {
  }

  lemma Stopped(phase: Phase, ms: seq<Message>)
    requires !Reads(phase)
    ensures Entries(phase, ms) == [] && Parse(phase, ms) == phase
  {
  }

  /** What the parser has still to make of the messages on their way. */
  twostate predicate Continues(connection: Connection, queue: DecompressionQueue, new before: Phase, new phase: Phase)
    reads connection, queue
  {
    && queue.queue + Entries(phase, connection.queue) == old(queue.queue) + Entries(before, old(connection.queue))
    && Parse(phase, connection.queue) == Parse(before, old(connection.queue))
  }

  /** One chunk: its header and its body. */
  method ReceiveChunk(connection: Connection, queue: DecompressionQueue, lastFile: bool) returns (ok: bool, lastChunk: bool)
    modifies connection, queue
    ensures ok ==> |connection.queue| < |old(connection.queue)|
    ensures ok ==> Continues(connection, queue, WaitHeader(lastFile), if lastChunk then AfterFile(lastFile) else WaitHeader(lastFile))
    ensures !ok ==> queue.queue == old(queue.queue) + Entries(WaitHeader(lastFile), old(connection.queue))
    ensures !ok ==> !Parse(WaitHeader(lastFile), old(connection.queue)).Finished?
  {
    hide Entries, Parse;
    var m := connection.Pop();
    if m.None? {
      NoMore(WaitHeader(lastFile));
      return false, false;
    }
    OneMore(WaitHeader(lastFile), old(connection.queue));
    var header := m.value;
    if !header.ChunkHeader? {
      Stopped(Failed, connection.queue);
      return false, false;
    }
    ghost var phase := WaitBody(header.compressor, header.lastChunk, lastFile);
    ghost var left := connection.queue;
    m := connection.Pop();
    if m.None? {
      NoMore(phase);
      return false, false;
    }
    OneMore(phase, left);
    if !m.value.Body? {
      Stopped(Failed, connection.queue);
      return false, false;
    }
    queue.Push(Chunk(header.compressor, header.lastChunk, m.value.bytes));
    ok, lastChunk := true, header.lastChunk;
  }

  /** The chunks of one file. */
  method ReceiveChunks(connection: Connection, queue: DecompressionQueue, lastFile: bool) returns (ok: bool)
    modifies connection, queue
    ensures ok ==> |connection.queue| < |old(connection.queue)|
    ensures ok ==> Continues(connection, queue, WaitHeader(lastFile), AfterFile(lastFile))
    ensures !ok ==> queue.queue == old(queue.queue) + Entries(WaitHeader(lastFile), old(connection.queue))
    ensures !ok ==> !Parse(WaitHeader(lastFile), old(connection.queue)).Finished?
  {
    hide Entries, Parse;
    var lastChunk := false;
    while !lastChunk
      invariant |connection.queue| <= |old(connection.queue)|
      invariant lastChunk ==> |connection.queue| < |old(connection.queue)|
      invariant Continues(connection, queue, WaitHeader(lastFile), if lastChunk then AfterFile(lastFile) else WaitHeader(lastFile))
      decreases !lastChunk, |connection.queue|
    {
      ok, lastChunk := ReceiveChunk(connection, queue, lastFile);
      if !ok {
        return;
      }
    }
    ok := true;
  }

  /** One file: its announcement and its chunks. */
  method ReceiveFile(connection: Connection, queue: DecompressionQueue) returns (ok: bool, lastFile: bool)
    modifies connection, queue
    ensures ok ==> |connection.queue| < |old(connection.queue)|
    ensures ok ==> Continues(connection, queue, WaitInfo, AfterFile(lastFile))
    ensures !ok ==> queue.queue == old(queue.queue) + Entries(WaitInfo, old(connection.queue))
    ensures !ok ==> !Parse(WaitInfo, old(connection.queue)).Finished?
  {
    hide Entries, Parse;
    var m := connection.Pop();
    if m.None? {
      NoMore(WaitInfo);
      return false, false;
    }
    OneMore(WaitInfo, old(connection.queue));
    if !m.value.FileInfo? {
      Stopped(Failed, connection.queue);
      return false, false;
    }
    queue.Push(StartFile(m.value.name, m.value.size, m.value.chunkSize));
    lastFile := m.value.lastFile;
    ok := ReceiveChunks(connection, queue, lastFile);
  }

  /** The receiving thread: it ends without an error exactly when the messages bring the parser to its end,
      and either way has queued exactly the entries they give. */
  method RequestFile(connection: Connection, queue: DecompressionQueue) returns (ok: bool)
    modifies connection, queue
    ensures ok <==> Parse(WaitInfo, old(connection.queue)).Finished?
    ensures queue.queue == old(queue.queue) + Entries(WaitInfo, old(connection.queue))
  {
    hide Entries, Parse;
    var lastFile := false;
    while !lastFile
      invariant Continues(connection, queue, WaitInfo, AfterFile(lastFile))
      decreases !lastFile, |connection.queue|
    {
      ok, lastFile := ReceiveFile(connection, queue);
      if !ok {
        return;
      }
    }
    Stopped(Finished, connection.queue);
    ok := true;
  }

  /** The decompression thread's state. */
  class Writer {
    var saved: seq<Saved>
    var out: Option<Open>
    const decompressedChunk: Buffer

    ghost predicate Valid()
      reads this, decompressedChunk
    {
      decompressedChunk.Valid()
    }

    ghost function State(): Sink
      requires Valid()
      reads this, decompressedChunk
    {
      Sink(saved, out, decompressedChunk.Contents(), decompressedChunk.capacity)
    }

    constructor ()
      ensures Valid() && State() == Start() && fresh(decompressedChunk)
    {
      saved, out := [], None;
      decompressedChunk := new Buffer(0);
    }

    method HandleStart(name: string, size: nat, chunkSize: nat, ghost d: Decoder)
      requires Valid()
      modifies this, decompressedChunk
      ensures Valid() && State() == Handle(old(State()), StartFile(name, size, chunkSize), d)
      ensures out.Some? && out.value.bytes == [] && out.value.size == size && decompressedChunk.capacity == chunkSize * 1024
      ensures IsName(name, out.value.name)
    {
      BaseIsName(name);
      out := Some(Open(Base(name), [], size));
      var ok := decompressedChunk.SetData([]);
      decompressedChunk.Resize(chunkSize * 1024);
    }

    /** Decompresses or swaps in the chunk; an error leaves the scratch buffer with what was written by
        then in front. */
    method Unpack(compressor: Compressor, chunk: Buffer, d: Decoder)
      requires Valid() && chunk.Valid() && chunk.capacity == chunk.actualSize && chunk != decompressedChunk
      modifies decompressedChunk, chunk
      ensures Valid() && State() == Unpacked(old(State()), compressor, old(chunk.Contents()), d)
    {
      if compressor == COPY {
        decompressedChunk.Swap(chunk);
        return;
      }
      match d(compressor, chunk.Contents()) {
        case Whole(data) =>
          var fits := decompressedChunk.SetData(data);
        case Broken(written) =>
          var n := if |written| <= decompressedChunk.actualSize then |written| else decompressedChunk.actualSize;
          decompressedChunk.data := written[..n] + decompressedChunk.data[n..];
          assert decompressedChunk.Contents() == Overwritten(old(decompressedChunk.Contents()), written);
      }
    }

    method WriteOut(lastChunk: bool)
      requires Valid()
      modifies this
      ensures Valid() && State() == Written(old(State()), lastChunk)
    {
      if out.None? {
        return;
      }
      var bytes := out.value.bytes + decompressedChunk.Contents();
      out := Some(Open(out.value.name, bytes, out.value.size));
      if lastChunk {
        saved := saved + [Saved(out.value.name, bytes, |bytes| == out.value.size)];
        out := None;
      }
    }

    method HandleEntry(entry: Entry, d: Decoder)
      requires Valid()
      modifies this, decompressedChunk
      ensures Valid() && State() == Handle(old(State()), entry, d)
      ensures entry.StartFile? ==>
                && out.Some? && out.value.bytes == [] && out.value.size == entry.size && saved == old(saved)
                && IsName(entry.name, out.value.name)
    {
      match entry {
        case StartFile(name, size, chunkSize) => HandleStart(name, size, chunkSize, d);
        case Chunk(compressor, lastChunk, bytes) =>
          var chunk := new Buffer(|bytes|);
          var ok := chunk.SetData(bytes);
          hide Unpacked, Written;
          Unpack(compressor, chunk, d);
          WriteOut(lastChunk);
      }
    }

    /** The decompression thread, once everything has been received. */
    method Decompress(queue: DecompressionQueue, d: Decoder)
      requires Valid()
      modifies this, decompressedChunk, queue
      ensures Valid() && State() == HandleAll(old(State()), old(queue.queue), d) && queue.queue == []
    {
      hide Handle;
      while |queue.queue| > 0
        invariant Valid()
        invariant HandleAll(State(), queue.queue, d) == HandleAll(old(State()), old(queue.queue), d)
        decreases |queue.queue|
      {
        var entry := queue.Pop();
        HandleEntry(entry.value, d);
      }
    }
  }

  /** The file has been saved whole, under the last part of its path. */
  ghost predicate IsSavedAs(file: SourceFile, saved: Saved) {
    Some(saved.bytes) == file.content && saved.complete && IsName(file.name, saved.name)
  }

  lemma ExpectedFiles(files: seq<SourceFile>)
    requires Transferable(files)
    ensures |Expected(files)| == |files| && forall i | 0 <= i < |files| :: IsSavedAs(files[i], Expected(files)[i])
  {
    forall i | 0 <= i < |files|
      ensures IsSavedAs(files[i], Expected(files)[i])
    {
      assert HasBytes(files[i]);
      BaseIsName(files[i].name);
      hide Base, IsName;
    }
  }

  /** A whole transfer with its threads one after the other: if the request can be served and the client
      undoes what the compressors chose, the files saved are those of the request. */
  method Transfer(files: seq<SourceFile>, chunkSize: nat, codec: Codec, d: Decoder) returns (ok: bool, saved: seq<Saved>)
    requires chunkSize > 0
    ensures ok <==> Transferable(files)
    ensures ok && RestoredFiles(d, files, 0, chunkSize, codec) ==> saved == Expected(files)
    ensures ok && RestoredFiles(d, files, 0, chunkSize, codec) ==>
              |saved| == |files| && forall i | 0 <= i < |files| :: IsSavedAs(files[i], saved[i])
    ensures ok && Undoes(d, codec) ==> |saved| == |files| && forall i | 0 <= i < |files| :: IsSavedAs(files[i], saved[i])
  {
    if Undoes(d, codec) {
      AllRestored(d, files, 0, chunkSize, codec);
    }
    hide Undoes;
    hide Messages, Entries, Transferable, RestoredFiles, HandleAll, Parse, Completes, IsSavedAs, Expected;
    var processor := new FileProcessor(chunkSize, files);
    var connection := new SynchronousQueues.SynchronousQueue<Message>();
    var transmissionQueue := new SynchronousQueues.SynchronousQueue<Message>();
    ProcessRequest(processor, codec, transmissionQueue);
    Transmit(transmissionQueue, connection);
    assert connection.queue == Messages(files, 0, chunkSize, codec);
    var queue := new SynchronousQueues.SynchronousQueue<Entry>();
    ok := RequestFile(connection, queue);
    assert queue.queue == Entries(WaitInfo, Messages(files, 0, chunkSize, codec));
    var writer := new Writer();
    writer.Decompress(queue, d);
    saved := writer.saved;
    CompletesExactly(files, 0, chunkSize, codec);
    if Transferable(files) && RestoredFiles(d, files, 0, chunkSize, codec) {
      FilesArrive(Start(), d, files, 0, chunkSize, codec);
      ExpectedFiles(files);
    }
  }
}
