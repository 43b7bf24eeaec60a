/** The receiving half of a transfer: a parser that turns messages into entries for the decompression
    thread, and that thread, which writes the files. */
module Clients {
  import opened Wrappers
  import opened Sequences
  import opened Words
  import opened FileProcessors

  // ----- Parsing messages -----

  /** What the parser waits for; `lastFile` and `lastChunk` are the flags of the messages it has read. */
  datatype Phase =
    | WaitInfo
    | WaitHeader(lastFile: bool)
    | WaitBody(compressor: Compressor, lastChunk: bool, lastFile: bool)
    | Finished
    | Failed

  datatype Entry = StartFile(name: string, size: nat, chunkSize: nat) | Chunk(compressor: Compressor, lastChunk: bool, bytes: seq<Byte>)

  predicate Reads(phase: Phase) {
    !phase.Finished? && !phase.Failed?
  }

  /** One message; one of the wrong kind ends the session with an error. */
  function Receive(phase: Phase, m: Message): Phase
    requires Reads(phase)
  {
    match phase
    case WaitInfo => if m.FileInfo? then WaitHeader(m.lastFile) else Failed
    case WaitHeader(lastFile) => if m.ChunkHeader? then WaitBody(m.compressor, m.lastChunk, lastFile) else Failed
    case WaitBody(_, lastChunk, lastFile) =>
      if !m.Body? then Failed
      else if !lastChunk then WaitHeader(lastFile)
      else if lastFile then Finished
      else WaitInfo
  }

  function Emits(phase: Phase, m: Message): seq<Entry>
    requires Reads(phase)
  {
    match phase
    case WaitInfo => if m.FileInfo? then [StartFile(m.name, m.size, m.chunkSize)] else []
    case WaitHeader(_) => []
    case WaitBody(compressor, lastChunk, _) => if m.Body? then [Chunk(compressor, lastChunk, m.bytes)] else []
  }

  /** Where the parser stands after as many of the messages as it reads. */
  function Parse(phase: Phase, ms: seq<Message>): Phase
    decreases |ms|
  {
    if ms == [] || !Reads(phase) then phase else Parse(Receive(phase, ms[0]), ms[1..])
  }

  function Entries(phase: Phase, ms: seq<Message>): seq<Entry>
    decreases |ms|
  {
    if ms == [] || !Reads(phase) then [] else Emits(phase, ms[0]) + Entries(Receive(phase, ms[0]), ms[1..])
  }

  /** The parser reads all messages, and it is with the last of them that it has finished. */
  predicate Completes(phase: Phase, ms: seq<Message>)
    decreases |ms|
  {
    if ms == [] then phase.Finished? else Reads(phase) && Completes(Receive(phase, ms[0]), ms[1..])
  }

  // ----- Writing files -----

  /** What a decompressor makes of some bytes: the data, or an error, with what it had written by then. */
  datatype Decoded = Whole(data: seq<Byte>) | Broken(written: seq<Byte>)

  type Decoder = (Compressor, seq<Byte>) -> Decoded

  datatype Saved = Saved(name: string, bytes: seq<Byte>, complete: bool)

  datatype Open = Open(name: string, bytes: seq<Byte>, size: nat)

  /** The decompression thread: the files it has closed, the one it writes, and its scratch buffer. */
  datatype Sink = Sink(saved: seq<Saved>, out: Option<Open>, scratch: seq<Byte>, capacity: nat)

  function Start(): Sink {
    Sink([], None, [], 0)
  }

  /** What follows the last slash. */
  function LastPart(path: string): string {
    if path == [] || path[|path| - 1] == '/' then [] else LastPart(path[..|path| - 1]) + [path[|path| - 1]]
  }

  /** The file's name without its directories. Slashes at the end do not count. */
  function Base(path: string): string {
    if path == [] then "."
    else if path[|path| - 1] != '/' then LastPart(path)
    else if |path| == 1 then "/"
    else Base(path[..|path| - 1])
  }

  /** `name` stands in `path` from `k` on, at its start or behind a slash, with nothing but slashes after it. */
  predicate StandsAt(path: string, name: string, k: nat) {
    && k + |name| <= |path| && path[k..k + |name|] == name && (k > 0 ==> path[k - 1] == '/')
    && forall i | k + |name| <= i < |path| :: path[i] == '/'
  }

  /** `name` has no slash and is the last part of the path, if the path has any part. */
  ghost predicate IsName(path: string, name: string) {
    if forall i | 0 <= i < |path| :: path[i] == '/' then name == if path == [] then "." else "/"
    else name != [] && '/' !in name && exists k: nat :: StandsAt(path, name, k)
  }

  lemma {:induction false} LastPartIsEnd(path: string)
    ensures '/' !in LastPart(path) && |LastPart(path)| <= |path| && path[|path| - |LastPart(path)|..] == LastPart(path)
    ensures |LastPart(path)| < |path| ==> path[|path| - |LastPart(path)| - 1] == '/'
  {
    if path != [] && path[|path| - 1] != '/' {
      var init, c := path[..|path| - 1], path[|path| - 1];
      var base := LastPart(init);
      LastPartIsEnd(init);
      assert LastPart(path) == base + [c];
      hide LastPart;
      EndGoesOn(path, base, |init| - |base|);
    }
  }

  lemma EndGoesOn(path: string, base: string, k: nat)
    requires k <= |path| - 1 && path[..|path| - 1][k..] == base
    ensures path[k..] == base + [path[|path| - 1]] && (k > 0 ==> path[..|path| - 1][k - 1] == path[k - 1])
  {
  }

  /** A file is saved under the last part of its path. */
  lemma {:induction false} BaseIsName(path: string)
    ensures IsName(path, Base(path))
  {
    if path != [] && path[|path| - 1] != '/' {
      hide *;
      NoSlashAtEnd(path);
    } else if |path| > 1 {
      assert Base(path) == Base(path[..|path| - 1]);
      hide *;
      BaseIsName(path[..|path| - 1]);
      OneSlashMore(path, Base(path[..|path| - 1]));
    }
  }

  lemma NoSlashAtEnd(path: string)
    requires path != [] && path[|path| - 1] != '/'
    ensures IsName(path, Base(path))
  {
    hide *;
    var name := LastPart(path);
    LastPartGrows(path);
    LastPartIsEnd(path);
    StandsAtEnd(path, name);
    PartIsName(path, name, |path| - |name|);
  }

  lemma LastPartGrows(path: string)
    requires path != [] && path[|path| - 1] != '/'
    ensures LastPart(path) == LastPart(path[..|path| - 1]) + [path[|path| - 1]] && Base(path) == LastPart(path)
  {
  }

  lemma PartIsName(path: string, name: string, k: nat)
    requires path != [] && path[|path| - 1] != '/' && name != [] && '/' !in name && StandsAt(path, name, k)
    ensures IsName(path, name)
  {
    hide StandsAt;
  }

  lemma StandsAtEnd(path: string, name: string)
    requires |name| <= |path| && path[|path| - |name|..] == name && (|name| < |path| ==> path[|path| - |name| - 1] == '/')
    ensures StandsAt(path, name, |path| - |name|)
  {
    assert path[|path| - |name|..|path|] == path[|path| - |name|..];
  }

  lemma OneSlashMore(path: string, name: string)
    requires |path| > 1 && path[|path| - 1] == '/' && IsName(path[..|path| - 1], name)
    ensures IsName(path, name)
  {
    var init := path[..|path| - 1];
    assert forall i | 0 <= i < |init| :: init[i] == path[i];
    if !(forall i | 0 <= i < |init| :: init[i] == '/') {
      var k: nat :| StandsAt(init, name, k);
      StillStands(path, name, k);
    }
  }

  lemma StillStands(path: string, name: string, k: nat)
    requires path != [] && path[|path| - 1] == '/' && StandsAt(path[..|path| - 1], name, k)
    ensures StandsAt(path, name, k)
  {
    var init := path[..|path| - 1];
    assert init[k..k + |name|] == path[k..k + |name|];
    assert k > 0 ==> init[k - 1] == path[k - 1];
    forall i | k + |name| <= i < |path|
      ensures path[i] == '/'
    {
      if i < |init| {
        assert init[i] == path[i];
      }
    }
  }

  /** A file listed in a directory is saved under the name listed. */
  lemma BaseOfJoined(directory: string, name: string)
    requires name != [] && '/' !in name
    ensures Base(directory + "/" + name) == name && Base(name) == name
  {
    LastPartOfJoined(directory, name);
    assert name[|name| - 1] in name;
  }

  lemma {:induction false} LastPartOfJoined(directory: string, name: string)
    requires '/' !in name
    ensures LastPart(directory + "/" + name) == name && LastPart(name) == name
  {
    if name != [] {
      var init := name[..|name| - 1];
      LastPartOfJoined(directory, init);
      assert (directory + "/" + name)[..|directory + "/" + name| - 1] == directory + "/" + init;
    }
  }

  /** Bytes written over the front of a buffer, as far as its contents reach. */
  function Overwritten(contents: seq<Byte>, bytes: seq<Byte>): (r: seq<Byte>)
    ensures |r| == |contents|
  {
    if |bytes| <= |contents| then bytes + contents[|bytes|..] else bytes[..|contents|]
  }

  /** The scratch buffer after a chunk: a copied chunk is swapped in; a decompressed one has to fit; after
      an error the buffer has the size it had, and what was written in front. */
  function Unpacked(s: Sink, compressor: Compressor, bytes: seq<Byte>, d: Decoder): Sink {
    if compressor == COPY then s.(scratch := bytes, capacity := |bytes|)
    else match d(compressor, bytes)
      case Whole(data) => if |data| <= s.capacity then s.(scratch := data) else s
      case Broken(written) => s.(scratch := Overwritten(s.scratch, written))
  }

  /** The scratch buffer is written out, and the file closed after its last chunk. */
  function Written(s: Sink, lastChunk: bool): Sink {
    match s.out
    case None => s
    case Some(out) =>
      var bytes := out.bytes + s.scratch;
      if lastChunk then s.(saved := s.saved + [Saved(out.name, bytes, |bytes| == out.size)], out := None)
      else s.(out := Some(Open(out.name, bytes, out.size)))
  }

  function Handle(s: Sink, e: Entry, d: Decoder): Sink {
    match e
    case StartFile(name, size, chunkSize) => s.(out := Some(Open(Base(name), [], size)), scratch := [], capacity := chunkSize * 1024)
    case Chunk(compressor, lastChunk, bytes) => Written(Unpacked(s, compressor, bytes, d), lastChunk)
  }

  function HandleAll(s: Sink, entries: seq<Entry>, d: Decoder): Sink
    decreases |entries|
  {
    if entries == [] then s else HandleAll(Handle(s, entries[0], d), entries[1..], d)
  }

  lemma {:induction false} HandleConcat(s: Sink, first: seq<Entry>, second: seq<Entry>, d: Decoder)
    ensures HandleAll(s, first + second, d) == HandleAll(HandleAll(s, first, d), second, d)
    decreases |first|
  {
    hide Handle;
    if first == [] {
      assert first + second == second;
    } else {
      assert (first + second)[1..] == first[1..] + second;
      HandleConcat(Handle(s, first[0], d), first[1..], second, d);
    }
  }

  // ----- Which transfers succeed -----

  /** There is a file, and all files can be started and have bytes. */
  predicate Transferable(files: seq<SourceFile>) {
    files != [] && forall i | 0 <= i < |files| :: HasBytes(files[i])
  }

  predicate HasBytes(file: SourceFile) {
    file.content.Some? && file.content.value != []
  }

  function AfterFile(lastFile: bool): Phase {
    if lastFile then Finished else WaitInfo
  }

  lemma {:induction false} CompletesChunks(chunks: seq<seq<Byte>>, i: nat, j: nat, codec: Codec, room: nat, lastFile: bool, rest: seq<Message>)
    requires chunks != []
    ensures Completes(WaitHeader(lastFile), ChunkMessages(chunks, i, j, codec, room) + rest) <==> Completes(AfterFile(lastFile), rest)
    ensures Parse(WaitHeader(lastFile), ChunkMessages(chunks, i, j, codec, room) + rest) == Parse(AfterFile(lastFile), rest)
  {
    hide Pack;
    var packed := Pack(chunks[0], codec(i, j, chunks[0]), room);
    var last := |chunks| == 1;
    var after := ChunkMessages(chunks[1..], i, j + 1, codec, room) + rest;
    assert ChunkMessages(chunks, i, j, codec, room) + rest
        == [ChunkHeader(packed.compressor, j, last)] + ([Body(packed.bytes)] + after);
    Reading(WaitHeader(lastFile), ChunkHeader(packed.compressor, j, last), [Body(packed.bytes)] + after);
    Reading(WaitBody(packed.compressor, last, lastFile), Body(packed.bytes), after);
    if last {
      assert chunks[1..] == [];
      assert after == rest;
    } else {
      hide Completes, Parse, ChunkMessages;
      CompletesChunks(chunks[1..], i, j + 1, codec, room, lastFile, rest);
    }
  }

  /** One message read. */
  lemma Reading(phase: Phase, m: Message, rest: seq<Message>)
    requires Reads(phase)
    ensures Completes(phase, [m] + rest) <==> Completes(Receive(phase, m), rest)
    ensures Parse(phase, [m] + rest) == Parse(Receive(phase, m), rest)
    ensures Entries(phase, [m] + rest) == Emits(phase, m) + Entries(Receive(phase, m), rest)
  {
    assert ([m] + rest)[1..] == rest;
    hide Receive, Emits;
  }

  /** The parser reads the messages of a request to their end, and stops there without an error, exactly
      when the request gives at least one file and every file can be started and is not empty. */
  lemma {:induction false} CompletesExactly(files: seq<SourceFile>, i: nat, chunkSize: nat, codec: Codec)
    requires chunkSize > 0
    ensures Completes(WaitInfo, Messages(files, i, chunkSize, codec)) <==> Transferable(files)
    ensures Parse(WaitInfo, Messages(files, i, chunkSize, codec)).Finished? <==> Transferable(files)
  {
    if files != [] {
      var rest := Messages(files[1..], i + 1, chunkSize, codec);
      CompletesFile(files[0], i, chunkSize, codec, |files| == 1, rest);
      FirstMessage(files[1..], i + 1, chunkSize, codec);
      CompletesExactly(files[1..], i + 1, chunkSize, codec);
      FirstAndRest(files);
      hide FileMessages, Messages, Transferable, HasBytes, Completes, Parse;
      assert Messages(files, i, chunkSize, codec) == FileMessages(files[0], i, chunkSize, codec, |files| == 1) + rest by {
        MessagesFirst(files, i, chunkSize, codec);
      }
      if |files| == 1 {
        assert files[1..] == [];
        NoMessages(i + 1, chunkSize, codec);
      }
    }
  }

  lemma FirstAndRest(files: seq<SourceFile>)
    requires files != []
    ensures Transferable(files) <==> HasBytes(files[0]) && (|files| == 1 || Transferable(files[1..]))
  {
    hide HasBytes;
    assert forall i | 1 <= i < |files| :: files[i] == files[1..][i - 1];
  }

  lemma NoMessages(i: nat, chunkSize: nat, codec: Codec)
    requires chunkSize > 0
    ensures Messages([], i, chunkSize, codec) == [] && Completes(Finished, []) && Parse(Finished, []) == Finished
  {
  }

  /** No request's messages start with a chunk. */
  lemma FirstMessage(files: seq<SourceFile>, i: nat, chunkSize: nat, codec: Codec)
    requires chunkSize > 0
    ensures var ms := Messages(files, i, chunkSize, codec);
            ms == [] || ms[0].FileInfo? || ms[0].ErrorMessage?
  {
  }

  lemma CompletesFile(file: SourceFile, i: nat, chunkSize: nat, codec: Codec, lastFile: bool, rest: seq<Message>)
    requires chunkSize > 0
    requires rest == [] || rest[0].FileInfo? || rest[0].ErrorMessage?
    ensures Completes(WaitInfo, FileMessages(file, i, chunkSize, codec, lastFile) + rest)
            <==> HasBytes(file) && Completes(AfterFile(lastFile), rest)
    ensures Parse(WaitInfo, FileMessages(file, i, chunkSize, codec, lastFile) + rest).Finished?
            <==> HasBytes(file) && Parse(AfterFile(lastFile), rest).Finished?
  {
    hide Remaining;
    match file.content {
      case None => Reading(WaitInfo, ErrorMessage, rest);
      case Some(content) =>
        var info := FileInfo(file.name, |content|, chunkSize, lastFile);
        var ms := Remaining(content, i, 0, codec, chunkSize * 1024);
        assert FileMessages(file, i, chunkSize, codec, lastFile) + rest == [info] + (ms + rest);
        Reading(WaitInfo, info, ms + rest);
        CompletesContent(content, i, codec, chunkSize * 1024, lastFile, rest);
        hide Completes, Parse, FileMessages;
    }
  }

  lemma CompletesContent(content: seq<Byte>, i: nat, codec: Codec, size: nat, lastFile: bool, rest: seq<Message>)
    requires size > 0
    requires rest == [] || rest[0].FileInfo? || rest[0].ErrorMessage?
    ensures Completes(WaitHeader(lastFile), Remaining(content, i, 0, codec, size) + rest)
            <==> content != [] && Completes(AfterFile(lastFile), rest)
    ensures Parse(WaitHeader(lastFile), Remaining(content, i, 0, codec, size) + rest).Finished?
            <==> content != [] && Parse(AfterFile(lastFile), rest).Finished?
  {
    if content == [] {
      assert Remaining(content, i, 0, codec, size) + rest == rest;
    } else {
      assert Chunks(content, size) != [];
      hide Completes, Parse, ChunkMessages, Chunks;
      CompletesChunks(Chunks(content, size), i, 0, codec, Room(size), lastFile, rest);
    }
  }

  // ----- What arrives -----

  /** The packed bytes give back the chunk. */
  predicate Restores(d: Decoder, packed: Packed, data: seq<Byte>) {
    packed.compressor == COPY || d(packed.compressor, packed.bytes) == Whole(data)
  }

  predicate ChunksRestored(d: Decoder, chunks: seq<seq<Byte>>, i: nat, codec: Codec, room: nat) {
    forall j | 0 <= j < |chunks| :: Restores(d, Pack(chunks[j], codec(i, j, chunks[j]), room), chunks[j])
  }

  /** The files as the client should save them. */
  function Expected(files: seq<SourceFile>): seq<Saved>
    requires Transferable(files) || files == []
  {
    seq(|files|, i requires 0 <= i < |files| => assert HasBytes(files[i]); Saved(Base(files[i].name), files[i].content.value, true))
  }

  /** The scratch buffer has room for a whole chunk. */
  predicate Roomy(s: Sink, size: nat) {
    s.out.Some? && size <= s.capacity
  }

  /** A chunk of a file that is being written: the scratch buffer takes it, whatever packed it, and keeps
      its room if the chunk is a full one. */
  lemma ChunkArrives(s: Sink, packed: Packed, data: seq<Byte>, last: bool, d: Decoder, size: nat)
    requires Roomy(s, size) && |data| <= size && Restores(d, packed, data) && (packed.compressor == COPY ==> packed.bytes == data)
    ensures var t := Handle(s, Chunk(packed.compressor, last, packed.bytes), d);
            && t.scratch == data
            && (last ==> t.out == None && t.saved == s.saved + [Saved(s.out.value.name, s.out.value.bytes + data, |s.out.value.bytes + data| == s.out.value.size)])
            && (!last ==> t.saved == s.saved && t.out == Some(Open(s.out.value.name, s.out.value.bytes + data, s.out.value.size)))
            && (!last && |data| == size ==> Roomy(t, size))
  {
  }

  predicate Sized(chunks: seq<seq<Byte>>, size: nat) {
    && (forall j | 0 <= j < |chunks| :: |chunks[j]| <= size)
    && (forall j | 0 <= j < |chunks| - 1 :: |chunks[j]| == size)
  }

  predicate RestoredFrom(d: Decoder, chunks: seq<seq<Byte>>, i: nat, k: nat, codec: Codec, room: nat) {
    forall j | 0 <= j < |chunks| :: Restores(d, Pack(chunks[j], codec(i, k + j, chunks[j]), room), chunks[j])
  }

  lemma SizedRest(chunks: seq<seq<Byte>>, size: nat)
    requires Sized(chunks, size) && chunks != []
    ensures |chunks[0]| <= size && (|chunks| > 1 ==> |chunks[0]| == size) && Sized(chunks[1..], size)
  {
    assert forall j | 0 <= j < |chunks| - 1 :: chunks[1..][j] == chunks[j + 1];
  }

  lemma RestoredRest(d: Decoder, chunks: seq<seq<Byte>>, i: nat, k: nat, codec: Codec, room: nat)
    requires RestoredFrom(d, chunks, i, k, codec, room) && chunks != []
    ensures Restores(d, Pack(chunks[0], codec(i, k, chunks[0]), room), chunks[0]) && RestoredFrom(d, chunks[1..], i, k + 1, codec, room)
  {
    hide Restores, Pack;
    assert codec(i, k + 0, chunks[0]) == codec(i, k, chunks[0]);
    forall j | 0 <= j < |chunks[1..]|
      ensures Restores(d, Pack(chunks[1..][j], codec(i, k + 1 + j, chunks[1..][j]), room), chunks[1..][j])
    {
      var m := j + 1;
      assert chunks[1..][j] == chunks[m] && k + m == k + 1 + j;
      assert Restores(d, Pack(chunks[m], codec(i, k + m, chunks[m]), room), chunks[m]);
    }
  }

  /** The chunks of a file leave it saved, whatever comes after it. */
  lemma {:induction false} ChunksArrive(s: Sink, d: Decoder, chunks: seq<seq<Byte>>, i: nat, j: nat, codec: Codec, room: nat,
                                        size: nat, lastFile: bool, rest: seq<Message>) returns (t: Sink)
    requires chunks != [] && Roomy(s, size) && Sized(chunks, size) && RestoredFrom(d, chunks, i, j, codec, room)
    ensures HandleAll(s, Entries(WaitHeader(lastFile), ChunkMessages(chunks, i, j, codec, room) + rest), d)
            == HandleAll(t, Entries(AfterFile(lastFile), rest), d)
    ensures var bytes := s.out.value.bytes + Concat(chunks);
            t.saved == s.saved + [Saved(s.out.value.name, bytes, |bytes| == s.out.value.size)]
    decreases |chunks|
  {
    var data := chunks[0];
    var packed := Pack(data, codec(i, j, data), room);
    var last := |chunks| == 1;
    SizedRest(chunks, size);
    RestoredRest(d, chunks, i, j, codec, room);
    OneChunkEntry(chunks, i, j, codec, room, lastFile, rest);
    ChunkArrives(s, packed, data, last, d, size);
    var next := Handle(s, Chunk(packed.compressor, last, packed.bytes), d);
    ConcatFirst(chunks);
    hide Entries, ChunkMessages, Handle, Restores, RestoredFrom, Sized, Pack, Roomy, Concat;
    if last {
      t := next;
    } else {
      t := ChunksArrive(next, d, chunks[1..], i, j + 1, codec, room, size, lastFile, rest);
      InThree(s.out.value.bytes, data, Concat(chunks[1..]));
    }
  }

  /** A header and a body make one entry. */
  lemma OneChunkEntry(chunks: seq<seq<Byte>>, i: nat, j: nat, codec: Codec, room: nat, lastFile: bool, rest: seq<Message>)
    requires chunks != []
    ensures var packed := Pack(chunks[0], codec(i, j, chunks[0]), room);
            var last := |chunks| == 1;
            var next := if last then AfterFile(lastFile) else WaitHeader(lastFile);
            var after := if last then rest else ChunkMessages(chunks[1..], i, j + 1, codec, room) + rest;
            Entries(WaitHeader(lastFile), ChunkMessages(chunks, i, j, codec, room) + rest)
            == [Chunk(packed.compressor, last, packed.bytes)] + Entries(next, after)
  {
    hide Pack;
    var packed := Pack(chunks[0], codec(i, j, chunks[0]), room);
    var last := |chunks| == 1;
    var after := ChunkMessages(chunks[1..], i, j + 1, codec, room) + rest;
    assert ChunkMessages(chunks, i, j, codec, room) + rest
        == [ChunkHeader(packed.compressor, j, last)] + ([Body(packed.bytes)] + after);
    Reading(WaitHeader(lastFile), ChunkHeader(packed.compressor, j, last), [Body(packed.bytes)] + after);
    Reading(WaitBody(packed.compressor, last, lastFile), Body(packed.bytes), after);
    hide Entries;
    if last {
      assert chunks[1..] == [];
      assert after == rest;
    }
  }

  /** A file arrives whole. */
  lemma FileArrives(s: Sink, d: Decoder, file: SourceFile, i: nat, chunkSize: nat, codec: Codec, lastFile: bool, rest: seq<Message>)
    returns (t: Sink)
    requires chunkSize > 0 && HasBytes(file)
    requires ChunksRestored(d, Chunks(file.content.value, chunkSize * 1024), i, codec, Room(chunkSize * 1024))
    ensures HandleAll(s, Entries(WaitInfo, FileMessages(file, i, chunkSize, codec, lastFile) + rest), d)
            == HandleAll(t, Entries(AfterFile(lastFile), rest), d)
    ensures t.saved == s.saved + [Saved(Base(file.name), file.content.value, true)]
  {
    var content, size := file.content.value, chunkSize * 1024;
    var start := StartFile(file.name, |content|, chunkSize);
    var chunks := Chunks(content, size);
    ChunksAreContent(content, size);
    FileEntries(file, i, chunkSize, codec, lastFile, rest);
    var started := Handle(s, start, d);
    assert Roomy(started, size) && started.out == Some(Open(Base(file.name), [], |content|)) && started.saved == s.saved;
    hide Entries, ChunkMessages, Handle, Restores, Pack, Chunks, Concat, Roomy, Base;
    FromZero(d, chunks, i, codec, Room(size));
    t := ChunksArrive(started, d, chunks, i, 0, codec, Room(size), size, lastFile, rest);
    assert [] + content == content;
  }

  lemma FromZero(d: Decoder, chunks: seq<seq<Byte>>, i: nat, codec: Codec, room: nat)
    requires ChunksRestored(d, chunks, i, codec, room)
    ensures RestoredFrom(d, chunks, i, 0, codec, room)
  {
    hide Restores, Pack;
    assert forall j: nat | j < |chunks| :: codec(i, 0 + j, chunks[j]) == codec(i, j, chunks[j]);
  }

  /** The announcement makes the first entry of a file. */
  lemma FileEntries(file: SourceFile, i: nat, chunkSize: nat, codec: Codec, lastFile: bool, rest: seq<Message>)
    requires chunkSize > 0 && file.content.Some?
    ensures var content := file.content.value;
            Entries(WaitInfo, FileMessages(file, i, chunkSize, codec, lastFile) + rest)
            == [StartFile(file.name, |content|, chunkSize)]
               + Entries(WaitHeader(lastFile), ChunkMessages(Chunks(content, chunkSize * 1024), i, 0, codec, Room(chunkSize * 1024)) + rest)
  {
    hide ChunkMessages, Chunks, Room;
    var content := file.content.value;
    var info := FileInfo(file.name, |content|, chunkSize, lastFile);
    var ms := Remaining(content, i, 0, codec, chunkSize * 1024);
    assert FileMessages(file, i, chunkSize, codec, lastFile) + rest == [info] + (ms + rest);
    Reading(WaitInfo, info, ms + rest);
  }

  predicate RestoredFiles(d: Decoder, files: seq<SourceFile>, i: nat, chunkSize: nat, codec: Codec)
    requires chunkSize > 0
  {
    files == [] || (
      && (files[0].content.Some? ==>
            ChunksRestored(d, Chunks(files[0].content.value, chunkSize * 1024), i, codec, Room(chunkSize * 1024)))
      && RestoredFiles(d, files[1..], i + 1, chunkSize, codec))
  }

  /** The decompressors give back whatever the compressors packed. */
  ghost predicate Undoes(d: Decoder, codec: Codec) {
    forall i: nat, j: nat, data: seq<Byte> | codec(i, j, data).Coded? && codec(i, j, data).compressor != COPY ::
      d(codec(i, j, data).compressor, codec(i, j, data).bytes) == Whole(data)
  }

  /** Then they give back every chunk that any transfer sends, packed or not. */
  lemma {:induction false} AllRestored(d: Decoder, files: seq<SourceFile>, i: nat, chunkSize: nat, codec: Codec)
    requires chunkSize > 0 && Undoes(d, codec)
    ensures RestoredFiles(d, files, i, chunkSize, codec)
    decreases |files|
  {
    if files != [] {
      hide Chunks;
      AllRestored(d, files[1..], i + 1, chunkSize, codec);
    }
  }

  /** Whatever is chosen for each chunk, if the client's decompressors undo it, the files saved are the
      files sent. */
  lemma {:induction false} FilesArrive(s: Sink, d: Decoder, files: seq<SourceFile>, i: nat, chunkSize: nat, codec: Codec)
    requires chunkSize > 0 && Transferable(files) && RestoredFiles(d, files, i, chunkSize, codec)
    ensures HandleAll(s, Entries(WaitInfo, Messages(files, i, chunkSize, codec)), d).saved == s.saved + Expected(files)
    decreases |files|
  {
    var rest := Messages(files[1..], i + 1, chunkSize, codec);
    FirstAndRest(files);
    MessagesFirst(files, i, chunkSize, codec);
    hide FileMessages, Messages, ChunksRestored, Entries, Chunks, Base;
    var t := FileArrives(s, d, files[0], i, chunkSize, codec, |files| == 1, rest);
    if |files| == 1 {
      NothingAfter(t, d, rest);
      assert Expected(files) == [Saved(Base(files[0].name), files[0].content.value, true)];
    } else {
      FilesArrive(t, d, files[1..], i + 1, chunkSize, codec);
      ExpectedFirst(files);
    }
  }

  lemma NothingAfter(t: Sink, d: Decoder, rest: seq<Message>)
    ensures HandleAll(t, Entries(Finished, rest), d) == t
  {
  }

  lemma ExpectedFirst(files: seq<SourceFile>)
    requires Transferable(files) && Transferable(files[1..])
    ensures HasBytes(files[0])
    ensures Expected(files) == [Saved(Base(files[0].name), files[0].content.value, true)] + Expected(files[1..])
  {
    hide Base;
  }

  // ----- The scratch buffer always has room -----

  /** Whenever a chunk is handled, the scratch buffer can hold a whole one. */
  predicate AlwaysRoomy(s: Sink, entries: seq<Entry>, d: Decoder, size: nat)
    decreases |entries|
  {
    entries == [] || ((entries[0].Chunk? ==> Roomy(s, size)) && AlwaysRoomy(Handle(s, entries[0], d), entries[1..], d, size))
  }

  /** Any chunk but the last leaves room, even one whose bytes decompress to something else. */
  lemma StaysRoomy(s: Sink, packed: Packed, data: seq<Byte>, d: Decoder, size: nat)
    requires Roomy(s, size) && |data| == size && (packed.compressor == COPY ==> packed.bytes == data)
    ensures Roomy(Handle(s, Chunk(packed.compressor, false, packed.bytes), d), size)
  {
  }

  lemma {:induction false} ChunksRoomy(s: Sink, d: Decoder, chunks: seq<seq<Byte>>, i: nat, j: nat, codec: Codec, room: nat,
                                       size: nat, lastFile: bool, rest: seq<Message>)
    requires chunks != [] && Roomy(s, size) && Sized(chunks, size)
    requires forall t :: AlwaysRoomy(t, Entries(AfterFile(lastFile), rest), d, size)
    ensures AlwaysRoomy(s, Entries(WaitHeader(lastFile), ChunkMessages(chunks, i, j, codec, room) + rest), d, size)
    decreases |chunks|
  {
    var data := chunks[0];
    var packed := Pack(data, codec(i, j, data), room);
    SizedRest(chunks, size);
    OneChunkEntry(chunks, i, j, codec, room, lastFile, rest);
    if |chunks| > 1 {
      StaysRoomy(s, packed, data, d, size);
      hide Entries, ChunkMessages, Handle, Sized, Pack, Roomy;
      ChunksRoomy(Handle(s, Chunk(packed.compressor, false, packed.bytes), d), d, chunks[1..], i, j + 1, codec, room, size, lastFile, rest);
    } else {
      hide Entries, ChunkMessages, Handle, Sized, Pack, Roomy;
      assert AlwaysRoomy(Handle(s, Chunk(packed.compressor, true, packed.bytes), d), Entries(AfterFile(lastFile), rest), d, size);
    }
  }

  lemma {:induction false} FilesRoomy(s: Sink, d: Decoder, files: seq<SourceFile>, i: nat, chunkSize: nat, codec: Codec)
    requires chunkSize > 0
    ensures AlwaysRoomy(s, Entries(WaitInfo, Messages(files, i, chunkSize, codec)), d, chunkSize * 1024)
    decreases |files|
  {
    if files != [] {
      var rest := Messages(files[1..], i + 1, chunkSize, codec);
      MessagesFirst(files, i, chunkSize, codec);
      FirstMessage(files[1..], i + 1, chunkSize, codec);
      hide FileMessages, Messages, Entries, AlwaysRoomy;
      var entries := Entries(AfterFile(|files| == 1), rest);
      forall t
        ensures AlwaysRoomy(t, entries, d, chunkSize * 1024)
      {
        if |files| == 1 {
          NothingRoomy(t, rest, d, chunkSize * 1024);
        } else {
          FilesRoomy(t, d, files[1..], i + 1, chunkSize, codec);
        }
      }
      FileRoomy(s, d, files[0], i, chunkSize, codec, |files| == 1, rest);
    } else {
      assert Messages(files, i, chunkSize, codec) == [];
    }
  }

  lemma NothingRoomy(t: Sink, rest: seq<Message>, d: Decoder, size: nat)
    ensures AlwaysRoomy(t, Entries(Finished, rest), d, size)
  {
  }

  lemma FileRoomy(s: Sink, d: Decoder, file: SourceFile, i: nat, chunkSize: nat, codec: Codec, lastFile: bool, rest: seq<Message>)
    requires chunkSize > 0
    requires rest == [] || rest[0].FileInfo? || rest[0].ErrorMessage?
    requires forall t :: AlwaysRoomy(t, Entries(AfterFile(lastFile), rest), d, chunkSize * 1024)
    ensures AlwaysRoomy(s, Entries(WaitInfo, FileMessages(file, i, chunkSize, codec, lastFile) + rest), d, chunkSize * 1024)
  {
    var size := chunkSize * 1024;
    match file.content {
      case None =>
        Reading(WaitInfo, ErrorMessage, rest);
      case Some(content) =>
        FileEntries(file, i, chunkSize, codec, lastFile, rest);
        var started := Handle(s, StartFile(file.name, |content|, chunkSize), d);
        assert Roomy(started, size);
        var chunks := Chunks(content, size);
        hide FileMessages, Handle, Chunks, Roomy;
        if chunks == [] {
          assert ChunkMessages(chunks, i, 0, codec, Room(size)) + rest == rest;
        } else {
          hide Entries, ChunkMessages;
          ChunksAreContent(content, size);
          ChunksRoomy(started, d, chunks, i, 0, codec, Room(size), size, lastFile, rest);
        }
    }
  }

  // ----- The destination directory -----

  /** The directory after saving: a file replaces one of the same name. */
  function Directory(saved: seq<Saved>): map<string, seq<Byte>> {
    if saved == [] then map[]
    else
      var last := saved[|saved| - 1];
      Directory(saved[..|saved| - 1])[last.name := last.bytes]
  }

  predicate Holds(saved: seq<Saved>, i: nat)
    requires i < |saved|
  {
    saved[i].name in Directory(saved) && Directory(saved)[saved[i].name] == saved[i].bytes
  }

  /** What the directory holds under a name is the file saved last under it. */
  lemma {:induction false} LastOneStays(saved: seq<Saved>, i: nat)
    requires i < |saved| && forall j | i < j < |saved| :: saved[j].name != saved[i].name
    ensures Holds(saved, i)
  {
    if i < |saved| - 1 {
      LastOneStays(saved[..|saved| - 1], i);
      assert saved[|saved| - 1].name != saved[i].name;
    }
  }

  predicate Conflict(saved: seq<Saved>, i: nat, j: nat)
    requires i < |saved| && j < |saved|
  {
    saved[i].name == saved[j].name && saved[i].bytes != saved[j].bytes
  }

  lemma {:induction false} LastOfName(saved: seq<Saved>, i: nat) returns (last: nat)
    requires i < |saved|
    ensures i <= last < |saved| && saved[last].name == saved[i].name && Holds(saved, last)
    decreases |saved| - i
  {
    if j :| i < j < |saved| && saved[j].name == saved[i].name {
      last := LastOfName(saved, j);
    } else {
      LastOneStays(saved, i);
      last := i;
    }
  }

  /** All files saved are in the directory exactly when no two of them have the same name, without their
      directories, and different contents. */
  lemma AllHeldExactly(saved: seq<Saved>)
    ensures (forall i | 0 <= i < |saved| :: Holds(saved, i)) <==> (forall i, j | 0 <= i < |saved| && 0 <= j < |saved| :: !Conflict(saved, i, j))
  {
    hide Directory;
    if forall i | 0 <= i < |saved| :: Holds(saved, i) {
      forall i, j | 0 <= i < |saved| && 0 <= j < |saved|
        ensures !Conflict(saved, i, j)
      {
        assert Holds(saved, i) && Holds(saved, j);
      }
    }
    if forall i, j | 0 <= i < |saved| && 0 <= j < |saved| :: !Conflict(saved, i, j) {
      forall i | 0 <= i < |saved|
        ensures Holds(saved, i)
      {
        var last := LastOfName(saved, i);
        assert !Conflict(saved, i, last);
      }
    }
  }
}
