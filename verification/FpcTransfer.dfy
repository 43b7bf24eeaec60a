/** Transfers whose chunks all go through FPC: which files survive. */
module FpcTransfers {
  import opened Wrappers
  import opened Sequences
  import opened Words
  import opened FpcFormat
  import opened FpcRoundTrip
  import opened FpcBounds
  import opened FileProcessors
  import Clients

  /** The compressor of the platform at a level, with whatever it finds in the slot behind an odd block. */
  function FpcOutcome(level: Byte, slots: (nat, nat) -> Word, i: nat, j: nat, data: seq<Byte>): Outcome
    requires level <= 62
  {
    Coded(FPC, Encode(BLOCK_SIZE, level, data, slots(i, j)))
  }

  function FpcCodec(level: Byte, slots: (nat, nat) -> Word): Codec
    requires level <= 62
  {
    (i: nat, j: nat, data: seq<Byte>) => FpcOutcome(level, slots, i, j, data)
  }

  function FpcDecoded(compressor: Compressor, bytes: seq<Byte>): Clients.Decoded {
    if compressor != FPC then Clients.Broken([])
    else match Decode(BLOCK_SIZE, bytes)
      case Success(data) => Clients.Whole(data)
      case Failure(_) => Clients.Broken([])
  }

  function FpcDecoder(): Clients.Decoder {
    (compressor, bytes) => FpcDecoded(compressor, bytes)
  }

  predicate IsWords(data: seq<Byte>) {
    |data| % 8 == 0
  }

  /** What the decompressor gives for a chunk: its whole words, or an error if it has none. */
  function Back(data: seq<Byte>): Clients.Decoded {
    if |data| < 8 then Clients.Broken([]) else Clients.Whole(data[..|data| / 8 * 8])
  }

  predicate WholeWords(d: Clients.Decoder, packed: Packed, data: seq<Byte>) {
    packed.compressor != COPY && d(packed.compressor, packed.bytes) == Back(data)
  }

  /** Every chunk of up to `size` bytes of file `i` is treated so. */
  ghost predicate KeepsWords(d: Clients.Decoder, codec: Codec, i: nat, size: nat) {
    forall j: nat, data: seq<Byte> | 0 < |data| <= size :: WholeWords(d, Pack(data, codec(i, j, data), Room(size)), data)
  }

  lemma FpcBack(level: Byte, data: seq<Byte>, slot: Word)
    requires level <= 62 && data != []
    ensures WholeWords(FpcDecoder(), Packed(FPC, Encode(BLOCK_SIZE, level, data, slot)), data)
  {
    hide *;
    RoundTrip(BLOCK_SIZE, level, data, slot);
    BackOf(Encode(BLOCK_SIZE, level, data, slot), data);
  }

  lemma BackOf(bytes: seq<Byte>, data: seq<Byte>)
    requires Decode(BLOCK_SIZE, bytes) == if |data| < 8 then Failure(NotInFormat) else Success(data[..|data| / 8 * 8])
    ensures WholeWords(FpcDecoder(), Packed(FPC, bytes), data)
  {
    hide Decode;
    assert FpcDecoder()(FPC, bytes) == FpcDecoded(FPC, bytes);
  }

  lemma BackOfWords(data: seq<Byte>)
    requires data != []
    ensures IsWords(data) ==> Back(data) == Clients.Whole(data)
    ensures !IsWords(data) && Back(data).Whole? ==> |Back(data).data| < |data|
    ensures Back(data).Whole? ==> |Back(data).data| <= |data|
  {
    var n := |data| / 8 * 8;
    if IsWords(data) {
      assert n == |data| && data[..n] == data;
    } else {
      assert n < |data|;
    }
  }

  /** FPC does, and its bytes always fit the buffer for a chunk. */
  lemma FpcChunk(level: Byte, slots: (nat, nat) -> Word, i: nat, j: nat, data: seq<Byte>, size: nat)
    requires level <= 62 && size >= 1024 && size % 1024 == 0 && 0 < |data| <= size
    ensures WholeWords(FpcDecoder(), Pack(data, FpcCodec(level, slots)(i, j, data), Room(size)), data)
  {
    ChunkNeverRunsOut(level, data, size, slots(i, j));
    FpcBack(level, data, slots(i, j));
    hide Encode, WholeWords, FpcDecoder;
  }

  lemma FpcKeepsWords(level: Byte, slots: (nat, nat) -> Word, i: nat, size: nat)
    requires level <= 62 && size >= 1024 && size % 1024 == 0
    ensures KeepsWords(FpcDecoder(), FpcCodec(level, slots), i, size)
  {
    hide FpcDecoder, FpcCodec, Pack, WholeWords;
    forall j: nat, data: seq<Byte> | 0 < |data| <= size
      ensures WholeWords(FpcDecoder(), Pack(data, FpcCodec(level, slots)(i, j, data), Room(size)), data)
    {
      FpcChunk(level, slots, i, j, data, size);
    }
  }

  lemma OneKept(d: Clients.Decoder, codec: Codec, i: nat, j: nat, data: seq<Byte>, size: nat)
    requires KeepsWords(d, codec, i, size) && 0 < |data| <= size
    ensures WholeWords(d, Pack(data, codec(i, j, data), Room(size)), data)
  {
    hide Pack, WholeWords;
  }

  /** The last chunk of a file decides whether the file is made of whole words. */
  lemma {:induction false} LastChunk(content: seq<Byte>, size: nat)
    requires size >= 1024 && size % 1024 == 0 && content != []
    ensures var chunks := Chunks(content, size);
            chunks != [] && (IsWords(chunks[|chunks| - 1]) <==> IsWords(content))
  {
    if |content| > size {
      assert |content| % 8 == (|content| - size) % 8;
      LastChunk(content[size..], size);
      var rest := Chunks(content[size..], size);
      assert Chunks(content, size) == [content[..size]] + rest;
      hide Chunks;
      assert IsWords(content[size..]) <==> IsWords(content);
      hide IsWords;
      assert ([content[..size]] + rest)[|rest|] == rest[|rest| - 1];
    }
  }

  /** A file is saved under its name, as it should be or with another length. */
  predicate Arrived(x: Clients.Saved, out: Clients.Open, rest: seq<Byte>, whole: bool) {
    && x.name == out.name
    && x.complete == (|x.bytes| == out.size)
    && if whole then x.bytes == out.bytes + rest else |x.bytes| != |out.bytes + rest|
  }

  /** What the client writes for a last chunk: its whole words, or what was in the scratch buffer. */
  function LastWritten(data: seq<Byte>, scratch: seq<Byte>): seq<Byte> {
    match Back(data)
    case Whole(words) => words
    case Broken(written) => Clients.Overwritten(scratch, written)
  }

  /** What the client writes for chunks of which all but the last are full. */
  function AllWritten(chunks: seq<seq<Byte>>, scratch: seq<Byte>): seq<Byte>
    requires chunks != []
  {
    if |chunks| == 1 then LastWritten(chunks[0], scratch) else chunks[0] + AllWritten(chunks[1..], chunks[0])
  }

  /** The scratch buffer at a file's start or after a full chunk. */
  predicate Clean(s: Clients.Sink, size: nat) {
    Clients.Roomy(s, size) && (|s.scratch| == 0 || |s.scratch| == size)
  }

  /** A full chunk in mid-file arrives. */
  lemma FullChunk(s: Clients.Sink, d: Clients.Decoder, packed: Packed, data: seq<Byte>, size: nat) returns (t: Clients.Sink)
    requires Clean(s, size) && WholeWords(d, packed, data) && |data| == size > 0 && IsWords(data)
    ensures t == Clients.Handle(s, Clients.Chunk(packed.compressor, false, packed.bytes), d)
    ensures Clean(t, size) && t.saved == s.saved && t.scratch == data
    ensures t.out == Some(Clients.Open(s.out.value.name, s.out.value.bytes + data, s.out.value.size))
  {
    assert data != [];
    BackOfWords(data);
    hide Back;
    t := Clients.Handle(s, Clients.Chunk(packed.compressor, false, packed.bytes), d);
  }

  /** The last chunk arrives, or leaves the file too short or, with the chunk before it written again, too
      long. */
  lemma FinalChunk(s: Clients.Sink, d: Clients.Decoder, packed: Packed, data: seq<Byte>, size: nat) returns (t: Clients.Sink, x: Clients.Saved)
    requires Clean(s, size) && WholeWords(d, packed, data) && 0 < |data| <= size && 8 <= size
    ensures t == Clients.Handle(s, Clients.Chunk(packed.compressor, true, packed.bytes), d)
    ensures t.saved == s.saved + [x] && Arrived(x, s.out.value, data, IsWords(data))
    ensures x.bytes == s.out.value.bytes + LastWritten(data, s.scratch)
  {
    BackOfWords(data);
    assert |data| < 8 ==> Back(data) == Clients.Broken([]) && !IsWords(data);
    assert |data| >= 8 ==> Back(data).Whole?;
    hide Back, IsWords;
    t := Clients.Handle(s, Clients.Chunk(packed.compressor, true, packed.bytes), d);
    x := t.saved[|s.saved|];
  }

  lemma ArrivedLater(x: Clients.Saved, out: Clients.Open, next: Clients.Open, data: seq<Byte>, rest: seq<Byte>, whole: bool)
    requires next == Clients.Open(out.name, out.bytes + data, out.size) && Arrived(x, next, rest, whole)
    ensures Arrived(x, out, data + rest, whole)
  {
    assert out.bytes + data + rest == out.bytes + (data + rest);
  }

  /** What the client makes of a file's messages from a chunk on, and of those after the file. */
  function After(s: Clients.Sink, d: Clients.Decoder, phase: Clients.Phase, ms: seq<Message>): Clients.Sink {
    Clients.HandleAll(s, Clients.Entries(phase, ms), d)
  }

  predicate ChunksOf(chunks: seq<seq<Byte>>, size: nat) {
    && chunks != [] && Clients.Sized(chunks, size)
    && forall k | 0 <= k < |chunks| :: chunks[k] != []
  }

  lemma FirstChunks(chunks: seq<seq<Byte>>, size: nat)
    requires ChunksOf(chunks, size) && size % 1024 == 0
    ensures 0 < |chunks[0]| <= size && size >= 1024
    ensures |chunks| > 1 ==> |chunks[0]| == size && IsWords(chunks[0]) && ChunksOf(chunks[1..], size) && chunks[1..][|chunks| - 2] == chunks[|chunks| - 1]
  {
    Clients.SizedRest(chunks, size);
  }

  lemma NextEntry(s: Clients.Sink, d: Clients.Decoder, chunks: seq<seq<Byte>>, i: nat, j: nat, codec: Codec, room: nat, lastFile: bool, rest: seq<Message>)
    requires chunks != []
    ensures var packed := Pack(chunks[0], codec(i, j, chunks[0]), room);
            var last := |chunks| == 1;
            var t := Clients.Handle(s, Clients.Chunk(packed.compressor, last, packed.bytes), d);
            After(s, d, Clients.WaitHeader(lastFile), ChunkMessages(chunks, i, j, codec, room) + rest)
            == if last then After(t, d, Clients.AfterFile(lastFile), rest)
               else After(t, d, Clients.WaitHeader(lastFile), ChunkMessages(chunks[1..], i, j + 1, codec, room) + rest)
  {
    Clients.OneChunkEntry(chunks, i, j, codec, room, lastFile, rest);
    hide Clients.Handle, Clients.Entries, ChunkMessages, Pack;
  }

  /** The file is saved, whole exactly if its last chunk is made of whole words. */
  lemma {:induction false} ChunksKeepWords(s: Clients.Sink, d: Clients.Decoder, chunks: seq<seq<Byte>>, i: nat, j: nat, codec: Codec, size: nat,
                                           lastFile: bool, rest: seq<Message>) returns (t: Clients.Sink, x: Clients.Saved)
    requires size % 1024 == 0 && ChunksOf(chunks, size) && Clean(s, size) && KeepsWords(d, codec, i, size)
    ensures After(s, d, Clients.WaitHeader(lastFile), ChunkMessages(chunks, i, j, codec, Room(size)) + rest)
            == After(t, d, Clients.AfterFile(lastFile), rest)
    ensures t.saved == s.saved + [x]
    ensures Arrived(x, s.out.value, Concat(chunks), IsWords(chunks[|chunks| - 1]))
    ensures x.bytes == s.out.value.bytes + AllWritten(chunks, s.scratch)
    decreases |chunks|
  {
    assert chunks != [] && Clients.Roomy(s, size);
    hide *;
    var data := chunks[0];
    var packed := Pack(data, codec(i, j, data), Room(size));
    FirstChunks(chunks, size);
    OneKept(d, codec, i, j, data, size);
    NextEntry(s, d, chunks, i, j, codec, Room(size), lastFile, rest);
    ConcatFirst(chunks);
    WrittenFirst(chunks, s.scratch);
    if |chunks| == 1 {
      t, x := FinalChunk(s, d, packed, data, size);
    } else {
      var next := FullChunk(s, d, packed, data, size);
      StillRoomy(next, size);
      t, x := ChunksKeepWords(next, d, chunks[1..], i, j + 1, codec, size, lastFile, rest);
      InThree(s.out.value.bytes, data, AllWritten(chunks[1..], data));
      ArrivedLater(x, s.out.value, next.out.value, data, Concat(chunks[1..]), IsWords(chunks[|chunks| - 1]));
    }
  }

  lemma WrittenFirst(chunks: seq<seq<Byte>>, scratch: seq<Byte>)
    requires chunks != []
    ensures AllWritten(chunks, scratch)
            == if |chunks| == 1 then LastWritten(chunks[0], scratch) else chunks[0] + AllWritten(chunks[1..], chunks[0])
  {
    hide LastWritten;
  }

  lemma StillRoomy(s: Clients.Sink, size: nat)
    requires Clean(s, size)
    ensures s.out.Some?
  {
  }

  /** A file whose chunks all go through FPC arrives. */
  lemma FileKeepsWords(s: Clients.Sink, d: Clients.Decoder, file: SourceFile, i: nat, chunkSize: nat, codec: Codec, lastFile: bool, rest: seq<Message>)
    returns (t: Clients.Sink, x: Clients.Saved)
    requires chunkSize > 0 && Clients.HasBytes(file) && KeepsWords(d, codec, i, chunkSize * 1024)
    ensures After(s, d, Clients.WaitInfo, FileMessages(file, i, chunkSize, codec, lastFile) + rest)
            == After(t, d, Clients.AfterFile(lastFile), rest)
    ensures t.saved == s.saved + [x]
    ensures x == Clients.Saved(Clients.Base(file.name), file.content.value, true) <==> IsWords(file.content.value)
    ensures Chunks(file.content.value, chunkSize * 1024) != [] && x.bytes == AllWritten(Chunks(file.content.value, chunkSize * 1024), [])
  {
    var content, size := file.content.value, chunkSize * 1024;
    var start := Clients.StartFile(file.name, |content|, chunkSize);
    var chunks := Chunks(content, size);
    ChunksAreContent(content, size);
    LastChunk(content, size);
    Clients.FileEntries(file, i, chunkSize, codec, lastFile, rest);
    var started := Clients.Handle(s, start, d);
    assert Clean(started, size) && started.out == Some(Clients.Open(Clients.Base(file.name), [], |content|)) && started.saved == s.saved;
    hide Clients.Entries, ChunkMessages, Clients.Handle, Pack, Chunks, Concat, Clean, Clients.Base, KeepsWords, FileMessages;
    t, x := ChunksKeepWords(started, d, chunks, i, 0, codec, size, lastFile, rest);
    assert [] + content == content && [] + AllWritten(chunks, []) == AllWritten(chunks, []);
  }

  /** A file whose last chunk has fewer than eight bytes is saved without it, and with the chunk before it
      once more; if it has no other chunk, nothing is saved but what was in the scratch buffer. */
  lemma {:induction false} ShortEndRepeats(chunks: seq<seq<Byte>>, scratch: seq<Byte>)
    requires chunks != [] && |chunks[|chunks| - 1]| < 8
    ensures AllWritten(chunks, scratch)
            == Concat(chunks[..|chunks| - 1]) + if |chunks| == 1 then scratch else chunks[|chunks| - 2]
  {
    if |chunks| > 1 {
      var init := chunks[..|chunks| - 1];
      ShortEndRepeats(chunks[1..], chunks[0]);
      ConcatFirst(init);
      hide Concat, AllWritten;
      assert init[1..] == chunks[1..][..|chunks| - 2];
    }
  }

  /** Every file is made of whole words. */
  predicate AllWholeWords(files: seq<SourceFile>) {
    forall i | 0 <= i < |files| && files[i].content.Some? :: IsWords(files[i].content.value)
  }

  ghost predicate AllKeepWords(d: Clients.Decoder, codec: Codec, size: nat) {
    forall i: nat :: KeepsWords(d, codec, i, size)
  }

  /** The client saves these files, in order, from these messages. */
  predicate Saves(s: Clients.Sink, d: Clients.Decoder, phase: Clients.Phase, ms: seq<Message>, xs: seq<Clients.Saved>) {
    After(s, d, phase, ms).saved == s.saved + xs
  }

  lemma SavesOneMore(s: Clients.Sink, t: Clients.Sink, d: Clients.Decoder, phase: Clients.Phase, ms: seq<Message>, next: Clients.Phase,
                     rest: seq<Message>, x: Clients.Saved, ys: seq<Clients.Saved>)
    requires After(s, d, phase, ms) == After(t, d, next, rest) && t.saved == s.saved + [x] && Saves(t, d, next, rest, ys)
    ensures Saves(s, d, phase, ms, [x] + ys)
  {
    hide After;
    assert s.saved + [x] + ys == s.saved + ([x] + ys);
  }

  /** The first of the files, as far as the client is concerned with the others. */
  lemma FirstKeepsWords(s: Clients.Sink, d: Clients.Decoder, files: seq<SourceFile>, i: nat, chunkSize: nat, codec: Codec)
    returns (t: Clients.Sink, x: Clients.Saved)
    requires chunkSize > 0 && files != [] && Clients.HasBytes(files[0]) && AllKeepWords(d, codec, chunkSize * 1024)
    ensures After(s, d, Clients.WaitInfo, Messages(files, i, chunkSize, codec))
            == After(t, d, Clients.AfterFile(|files| == 1), Messages(files[1..], i + 1, chunkSize, codec))
    ensures t.saved == s.saved + [x]
    ensures x == Clients.Saved(Clients.Base(files[0].name), files[0].content.value, true) <==> IsWords(files[0].content.value)
  {
    MessagesFirst(files, i, chunkSize, codec);
    EachKeepsWords(d, codec, i, chunkSize * 1024);
    hide Messages, FileMessages, After, IsWords, Clients.Base, KeepsWords, AllKeepWords;
    t, x := FileKeepsWords(s, d, files[0], i, chunkSize, codec, |files| == 1, Messages(files[1..], i + 1, chunkSize, codec));
  }

  lemma {:induction false} FilesKeepWords(s: Clients.Sink, d: Clients.Decoder, files: seq<SourceFile>, i: nat, chunkSize: nat, codec: Codec)
    returns (xs: seq<Clients.Saved>)
    requires chunkSize > 0 && Clients.Transferable(files) && AllKeepWords(d, codec, chunkSize * 1024)
    ensures Saves(s, d, Clients.WaitInfo, Messages(files, i, chunkSize, codec), xs)
    ensures xs == Clients.Expected(files) <==> AllWholeWords(files)
    decreases |files|
  {
    assert files != [];
    hide *;
    var rest := Messages(files[1..], i + 1, chunkSize, codec);
    Clients.FirstAndRest(files);
    var t, x := FirstKeepsWords(s, d, files, i, chunkSize, codec);
    var ys := [];
    if |files| == 1 {
      LastFile(t, d, rest);
      OneExpected(files, x);
    } else {
      NotLastFile();
      ys := FilesKeepWords(t, d, files[1..], i + 1, chunkSize, codec);
      MoreExpected(files, x, ys);
    }
    SavesOneMore(s, t, d, Clients.WaitInfo, Messages(files, i, chunkSize, codec), Clients.AfterFile(|files| == 1), rest, x, ys);
    xs := [x] + ys;
  }

  lemma EachKeepsWords(d: Clients.Decoder, codec: Codec, i: nat, size: nat)
    requires AllKeepWords(d, codec, size)
    ensures KeepsWords(d, codec, i, size)
  {
    hide KeepsWords;
  }

  lemma LastFile(t: Clients.Sink, d: Clients.Decoder, rest: seq<Message>)
    ensures Saves(t, d, Clients.AfterFile(true), rest, [])
  {
  }

  lemma NotLastFile()
    ensures Clients.AfterFile(false) == Clients.WaitInfo
  {
  }

  lemma OneExpected(files: seq<SourceFile>, x: Clients.Saved)
    requires Clients.Transferable(files) && |files| == 1 && Clients.HasBytes(files[0])
    requires x == Clients.Saved(Clients.Base(files[0].name), files[0].content.value, true) <==> IsWords(files[0].content.value)
    ensures [x] + [] == Clients.Expected(files) <==> AllWholeWords(files)
  {
    hide Clients.Base, IsWords;
    assert Clients.Expected(files) == [Clients.Expected(files)[0]];
    assert [x] + [] == [x];
    WordsFirst(files);
  }

  lemma MoreExpected(files: seq<SourceFile>, x: Clients.Saved, ys: seq<Clients.Saved>)
    requires Clients.Transferable(files) && |files| > 1 && Clients.HasBytes(files[0]) && Clients.Transferable(files[1..])
    requires x == Clients.Saved(Clients.Base(files[0].name), files[0].content.value, true) <==> IsWords(files[0].content.value)
    requires ys == Clients.Expected(files[1..]) <==> AllWholeWords(files[1..])
    ensures [x] + ys == Clients.Expected(files) <==> AllWholeWords(files)
  {
    Clients.ExpectedFirst(files);
    WordsFirst(files);
    hide Clients.Base, IsWords, Clients.Expected, AllWholeWords;
    SameHeads(x, ys, Clients.Saved(Clients.Base(files[0].name), files[0].content.value, true), Clients.Expected(files[1..]));
  }

  lemma SameHeads(x: Clients.Saved, xs: seq<Clients.Saved>, y: Clients.Saved, ys: seq<Clients.Saved>)
    ensures [x] + xs == [y] + ys <==> x == y && xs == ys
  {
    if [x] + xs == [y] + ys {
      assert ([x] + xs)[0] == ([y] + ys)[0];
      assert ([x] + xs)[1..] == ([y] + ys)[1..];
    }
  }

  lemma WordsFirst(files: seq<SourceFile>)
    requires files != []
    ensures AllWholeWords(files)
            <==> (files[0].content.Some? ==> IsWords(files[0].content.value)) && (|files| == 1 || AllWholeWords(files[1..]))
  {
    if |files| > 1 && AllWholeWords(files[1..]) {
      assert forall i | 1 <= i < |files| :: files[i] == files[1..][i - 1];
    }
  }

  /** With every chunk compressed by FPC, of any level, the files saved are the files sent exactly when the
      size of every file is a multiple of eight. */
  lemma FpcTransferExactly(files: seq<SourceFile>, chunkSize: nat, level: Byte, slots: (nat, nat) -> Word)
    requires chunkSize > 0 && Clients.Transferable(files) && level <= 62
    ensures After(Clients.Start(), FpcDecoder(), Clients.WaitInfo, Messages(files, 0, chunkSize, FpcCodec(level, slots))).saved == Clients.Expected(files)
            <==> AllWholeWords(files)
  {
    var d, codec := FpcDecoder(), FpcCodec(level, slots);
    forall i: nat
      ensures KeepsWords(d, codec, i, chunkSize * 1024)
    {
      FpcKeepsWords(level, slots, i, chunkSize * 1024);
    }
    hide FpcDecoder, FpcCodec, KeepsWords, After, Clients.Expected, Clients.Transferable, AllWholeWords;
    var xs := FilesKeepWords(Clients.Start(), d, files, 0, chunkSize, codec);
  }
}
