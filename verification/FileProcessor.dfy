/** The sending half of a transfer: files are read in chunks, each chunk is packed by whatever compressor
    is chosen for it, and messages describe them. */
module FileProcessors {
  import opened Wrappers
  import opened Sequences
  import opened Words
  import opened Buffers
  import SynchronousQueues

  datatype Compressor = ZLIB | SNAPPY | LZO | BZIP2 | LZMA | FPC | COPY

  /** What a compressor did with a chunk. */
  datatype Outcome = Coded(compressor: Compressor, bytes: seq<Byte>) | Raised

  /** The outcome for a chunk, by file number, chunk number and data. It stands for every way of choosing a
      compressor. */
  type Codec = (nat, nat, seq<Byte>) -> Outcome

  /** A file found below the requested path; without content when it cannot be opened. */
  datatype SourceFile = SourceFile(name: string, content: Option<seq<Byte>>)

  datatype Message =
    | FileInfo(name: string, size: nat, chunkSize: nat, lastFile: bool)
    | ChunkHeader(compressor: Compressor, position: nat, lastChunk: bool)
    | Body(bytes: seq<Byte>)
    | ErrorMessage

  datatype Packed = Packed(compressor: Compressor, bytes: seq<Byte>)

  datatype Error = CannotOpen(name: string) | NothingOpen | NoMoreData

  /** One tenth more than a chunk. */
  function Room(chunkSizeBytes: nat): nat {
    11 * chunkSizeBytes / 10
  }

  function Max(a: nat, b: nat): nat {
    if a < b then b else a
  }

  /** What is sent for a chunk: the compressor's bytes, or the chunk itself when the compressor chose to
      copy, failed or ran out of room. */
  function Pack(data: seq<Byte>, outcome: Outcome, room: nat): Packed {
    if outcome.Coded? && outcome.compressor != COPY && |outcome.bytes| <= room then Packed(outcome.compressor, outcome.bytes)
    else Packed(COPY, data)
  }

  // ----- What a request sends -----

  function Chunks(content: seq<Byte>, size: nat): (chunks: seq<seq<Byte>>)
    requires size > 0
  {
    if content == [] then []
    else if |content| <= size then [content]
    else [content[..size]] + Chunks(content[size..], size)
  }

  /** The chunks are the content; none is empty, and none but the last falls short of the chunk size. */
  lemma {:induction false} ChunksAreContent(content: seq<Byte>, size: nat)
    requires size > 0
    ensures Concat(Chunks(content, size)) == content
    ensures forall j | 0 <= j < |Chunks(content, size)| :: 0 < |Chunks(content, size)[j]| <= size
    ensures forall j | 0 <= j < |Chunks(content, size)| - 1 :: |Chunks(content, size)[j]| == size
  {
    var chunks := Chunks(content, size);
    if 0 < |content| <= size {
      assert chunks[1..] == [];
    } else if content != [] {
      var rest := Chunks(content[size..], size);
      assert chunks == [content[..size]] + rest;
      hide Chunks;
      ChunksAreContent(content[size..], size);
      assert chunks[1..] == rest;
      assert content == content[..size] + content[size..];
      assert forall j | 1 <= j < |chunks| :: chunks[j] == rest[j - 1];
    }
  }

  function ChunkMessages(chunks: seq<seq<Byte>>, i: nat, j: nat, codec: Codec, room: nat): seq<Message> {
    if chunks == [] then []
    else OneChunk(chunks[0], i, j, codec, room, |chunks| == 1) + ChunkMessages(chunks[1..], i, j + 1, codec, room)
  }

  function OneChunk(data: seq<Byte>, i: nat, j: nat, codec: Codec, room: nat, last: bool): seq<Message> {
    var packed := Pack(data, codec(i, j, data), room);
    [ChunkHeader(packed.compressor, j, last), Body(packed.bytes)]
  }

  /** What is sent for the bytes of a file from chunk `j` on. */
  function Remaining(unread: seq<Byte>, i: nat, j: nat, codec: Codec, size: nat): seq<Message>
    requires size > 0
  {
    ChunkMessages(Chunks(unread, size), i, j, codec, Room(size))
  }

  lemma NextChunk(unread: seq<Byte>, i: nat, j: nat, codec: Codec, size: nat, data: seq<Byte>, rest: seq<Byte>)
    requires IsFirstChunk(unread, size, data, rest)
    ensures Remaining(unread, i, j, codec, size)
            == OneChunk(data, i, j, codec, Room(size), rest == []) + Remaining(rest, i, j + 1, codec, size)
    ensures |Chunks(rest, size)| < |Chunks(unread, size)|
  {
    hide OneChunk;
    assert data == unread[..|data|] && rest == unread[|data|..];
    if |unread| <= size {
      assert data == unread && rest == [];
    }
    assert Chunks(unread, size) == [data] + Chunks(rest, size);
    assert Chunks(rest, size) == [] <==> rest == [];
    assert Chunks(unread, size)[1..] == Chunks(rest, size);
  }

  predicate IsFirstChunk(unread: seq<Byte>, size: nat, data: seq<Byte>, rest: seq<Byte>) {
    && size > 0 && unread != [] && unread == data + rest
    && |data| == if size <= |unread| then size else |unread|
  }

  function FileMessages(file: SourceFile, i: nat, chunkSize: nat, codec: Codec, lastFile: bool): seq<Message>
    requires chunkSize > 0
  {
    match file.content
    case None => [ErrorMessage]
    case Some(content) =>
      [FileInfo(file.name, |content|, chunkSize, lastFile)]
      + Remaining(content, i, 0, codec, chunkSize * 1024)
  }

  /** The messages for the files from number `i` on. */
  function Messages(files: seq<SourceFile>, i: nat, chunkSize: nat, codec: Codec): seq<Message>
    requires chunkSize > 0
  {
    if files == [] then []
    else FileMessages(files[0], i, chunkSize, codec, |files| == 1) + Messages(files[1..], i + 1, chunkSize, codec)
  }

  // ----- The messages of a file, one by one -----

  /** Chunk `k` starts `k` chunk sizes into the content, and there are as many as needed. */
  lemma {:induction false} ChunkAt(content: seq<Byte>, size: nat, k: nat)
    requires size > 0 && k * size < |content|
    ensures k < |Chunks(content, size)|
    ensures Chunks(content, size)[k] == if (k + 1) * size <= |content| then content[k * size..(k + 1) * size] else content[k * size..]
    decreases k
  {
    if k > 0 {
      Before(k, size, |content|);
      var rest := content[size..];
      ChunkAt(rest, size, k - 1);
      assert Chunks(content, size)[k] == Chunks(rest, size)[k - 1];
      hide Chunks;
      SliceOfRest(content, size, k);
    }
  }

  lemma Before(k: nat, size: nat, n: nat)
    requires k > 0 && size > 0 && k * size < n
    ensures size < n && (k - 1) * size == k * size - size
  {
    assert k * size == (k - 1) * size + size;
    assert (k - 1) * size >= 0;
  }

  lemma SliceOfRest(content: seq<Byte>, size: nat, k: nat)
    requires k > 0 && size > 0 && k * size < |content| && size <= |content|
    ensures (k - 1) * size < |content| - size && k * size == (k - 1) * size + size
    ensures content[size..][(k - 1) * size..] == content[k * size..]
    ensures (k + 1) * size <= |content| ==> k * size <= |content| - size && content[size..][(k - 1) * size..k * size] == content[k * size..(k + 1) * size]
  {
    assert k * size == (k - 1) * size + size && (k + 1) * size == k * size + size;
  }

  lemma {:induction false} HowManyChunks(content: seq<Byte>, size: nat)
    requires size > 0
    ensures |content| <= |Chunks(content, size)| * size < |content| + size
    decreases |content|
  {
    if |content| > size {
      HowManyChunks(content[size..], size);
      var n := |Chunks(content[size..], size)|;
      assert (n + 1) * size == n * size + size;
    }
  }

  lemma {:induction false} ChunkMessageAt(chunks: seq<seq<Byte>>, i: nat, j: nat, codec: Codec, room: nat, k: nat)
    requires k < |chunks|
    ensures var ms := ChunkMessages(chunks, i, j, codec, room);
            && |ms| == 2 * |chunks|
            && var packed := Pack(chunks[k], codec(i, j + k, chunks[k]), room);
               ms[2 * k] == ChunkHeader(packed.compressor, j + k, k == |chunks| - 1) && ms[2 * k + 1] == Body(packed.bytes)
  {
    hide Pack;
    var rest := ChunkMessages(chunks[1..], i, j + 1, codec, room);
    assert ChunkMessages(chunks, i, j, codec, room) == OneChunk(chunks[0], i, j, codec, room, |chunks| == 1) + rest;
    if k > 0 {
      ChunkMessageAt(chunks[1..], i, j + 1, codec, room, k - 1);
      assert chunks[1..][k - 1] == chunks[k] && (j + 1) + (k - 1) == j + k;
    } else if |chunks| > 1 {
      ChunkMessageAt(chunks[1..], i, j + 1, codec, room, 0);
    } else {
      assert chunks[1..] == [];
      assert rest == [];
    }
  }

  /** The messages of a file: its name, size and chunk size, and then two for each chunk, which say what
      packed it, its number counted from zero, whether it is the last, and its packed bytes; a chunk is
      packed as its compressor left it, if that fits 1.1 times the chunk size, and otherwise as it is. */
  lemma FileMessageAt(file: SourceFile, i: nat, chunkSize: nat, codec: Codec, lastFile: bool, k: nat)
    requires chunkSize > 0 && file.content.Some? && k * (chunkSize * 1024) < |file.content.value|
    ensures var ms, content, size := FileMessages(file, i, chunkSize, codec, lastFile), file.content.value, chunkSize * 1024;
            && |content| <= (|ms| - 1) / 2 * size < |content| + size && |ms| % 2 == 1 && 2 * k + 2 < |ms|
            && ms[0] == FileInfo(file.name, |content|, chunkSize, lastFile)
            && ms[2 * k + 1].ChunkHeader? && ms[2 * k + 1].position == k && (ms[2 * k + 1].lastChunk <==> 2 * k + 3 == |ms|)
            && ms[2 * k + 2].Body?
            && var data := if (k + 1) * size <= |content| then content[k * size..(k + 1) * size] else content[k * size..];
               match codec(i, k, data)
               case Raised => ms[2 * k + 1].compressor == COPY && ms[2 * k + 2].bytes == data
               case Coded(c, bytes) =>
                 if c != COPY && 10 * |bytes| <= 11 * size then ms[2 * k + 1].compressor == c && ms[2 * k + 2].bytes == bytes
                 else ms[2 * k + 1].compressor == COPY && ms[2 * k + 2].bytes == data
  {
    hide *;
    var content, size := file.content.value, chunkSize * 1024;
    FileMessagesAre(file, i, chunkSize, codec, lastFile);
    HowManyChunks(content, size);
    ChunkAt(content, size, k);
    BehindInfo(FileInfo(file.name, |content|, chunkSize, lastFile), Chunks(content, size), i, codec, size, k);
  }

  /** The messages of chunk `k` behind the announcement. */
  lemma BehindInfo(info: Message, chunks: seq<seq<Byte>>, i: nat, codec: Codec, size: nat, k: nat)
    requires k < |chunks|
    ensures var ms := [info] + ChunkMessages(chunks, i, 0, codec, Room(size));
            && |ms| == 2 * |chunks| + 1 && ms[0] == info
            && ms[2 * k + 1].ChunkHeader? && ms[2 * k + 1].position == k && (ms[2 * k + 1].lastChunk <==> k == |chunks| - 1)
            && ms[2 * k + 2].Body?
            && match codec(i, k, chunks[k])
               case Raised => ms[2 * k + 1].compressor == COPY && ms[2 * k + 2].bytes == chunks[k]
               case Coded(c, bytes) =>
                 if c != COPY && 10 * |bytes| <= 11 * size then ms[2 * k + 1].compressor == c && ms[2 * k + 2].bytes == bytes
                 else ms[2 * k + 1].compressor == COPY && ms[2 * k + 2].bytes == chunks[k]
  {
    hide *;
    ChunkMessageAt(chunks, i, 0, codec, Room(size), k);
    assert 0 + k == k;
    PackIs(chunks[k], codec(i, k, chunks[k]), Room(size));
    RoomIs(size);
    BehindOne(info, ChunkMessages(chunks, i, 0, codec, Room(size)), k);
  }

  lemma FileMessagesAre(file: SourceFile, i: nat, chunkSize: nat, codec: Codec, lastFile: bool)
    requires chunkSize > 0 && file.content.Some?
    ensures var content, size := file.content.value, chunkSize * 1024;
            FileMessages(file, i, chunkSize, codec, lastFile)
            == [FileInfo(file.name, |content|, chunkSize, lastFile)] + ChunkMessages(Chunks(content, size), i, 0, codec, Room(size))
  {
    hide Chunks, ChunkMessages, Room;
  }

  lemma BehindOne(m: Message, ms: seq<Message>, k: nat)
    requires 2 * k + 1 < |ms|
    ensures ([m] + ms)[0] == m && ([m] + ms)[2 * k + 1] == ms[2 * k] && ([m] + ms)[2 * k + 2] == ms[2 * k + 1]
  {
  }

  // ----- The flags -----

  /** A header has its flag exactly when no other header comes behind its chunk. */
  predicate HeaderFlags(ms: seq<Message>) {
    forall k | 0 <= k < |ms| :: HeaderFlag(ms, k)
  }

  predicate HeaderFlag(ms: seq<Message>, k: nat)
    requires k < |ms|
  {
    ms[k].ChunkHeader? ==> (ms[k].lastChunk <==> (k + 2 >= |ms| || !ms[k + 2].ChunkHeader?))
  }

  /** What a file, or the failure to open one, begins with. */
  predicate Announces(m: Message) {
    m.FileInfo? || m.ErrorMessage?
  }

  predicate Quiet(ms: seq<Message>) {
    forall l | 0 <= l < |ms| :: !Announces(ms[l])
  }

  predicate QuietBehind(ms: seq<Message>, k: nat) {
    forall l | k < l < |ms| :: !Announces(ms[l])
  }

  /** A file's announcement has its flag exactly when nothing else is announced behind it. */
  predicate InfoFlags(ms: seq<Message>) {
    forall k | 0 <= k < |ms| :: InfoFlag(ms, k)
  }

  predicate InfoFlag(ms: seq<Message>, k: nat)
    requires k < |ms|
  {
    ms[k].FileInfo? ==> (ms[k].lastFile <==> QuietBehind(ms, k))
  }

  lemma PrependChunk(header: Message, body: Message, ms: seq<Message>)
    requires header.ChunkHeader? && body.Body? && (header.lastChunk <==> (ms == [] || !ms[0].ChunkHeader?))
    requires HeaderFlags(ms) && InfoFlags(ms)
    ensures HeaderFlags([header, body] + ms) && InfoFlags([header, body] + ms)
  {
    var all := [header, body] + ms;
    assert forall k | 2 <= k < |all| :: all[k] == ms[k - 2];
    InfosBehind([header, body], ms);
    hide InfoFlags;
    forall k | 0 <= k < |all|
      ensures HeaderFlag(all, k)
    {
      if k > 1 {
        assert HeaderFlag(ms, k - 2);
      }
    }
  }

  /** What is behind a message does not change when others are put in front. */
  lemma StillBehind(front: seq<Message>, ms: seq<Message>, k: nat)
    ensures QuietBehind(front + ms, |front| + k) <==> QuietBehind(ms, k)
  {
    var all, n := front + ms, |front|;
    assert forall l | n <= l < |all| :: all[l] == ms[l - n];
    assert forall l | 0 <= l < |ms| :: ms[l] == all[l + n];
    hide Announces;
  }

  /** Messages put in front that are no files' announcements leave the announcements' flags right. */
  lemma InfosBehind(front: seq<Message>, ms: seq<Message>)
    requires InfoFlags(ms) && forall k | 0 <= k < |front| :: InfoFlag(front + ms, k)
    ensures InfoFlags(front + ms)
  {
    hide QuietBehind;
    var all, n := front + ms, |front|;
    forall k | 0 <= k < |all|
      ensures InfoFlag(all, k)
    {
      if k >= n {
        assert InfoFlag(ms, k - n) && all[k] == ms[k - n];
        StillBehind(front, ms, k - n);
      }
    }
  }

  lemma PrependAnnouncement(m: Message, ms: seq<Message>)
    requires Announces(m) && HeaderFlags(ms) && InfoFlags(ms)
    requires m.FileInfo? ==> (m.lastFile <==> Quiet(ms))
    ensures HeaderFlags([m] + ms) && InfoFlags([m] + ms)
  {
    hide HeaderFlags, InfoFlags;
    HeadersBehind(m, ms);
    FirstBehind(m, ms);
    hide Quiet, QuietBehind;
    InfosBehind([m], ms);
  }

  lemma FirstBehind(m: Message, ms: seq<Message>)
    ensures QuietBehind([m] + ms, 0) <==> Quiet(ms)
  {
    var all := [m] + ms;
    assert forall l | 1 <= l < |all| :: all[l] == ms[l - 1];
    assert forall l | 0 <= l < |ms| :: ms[l] == all[l + 1];
    hide Announces;
  }

  lemma HeadersBehind(m: Message, ms: seq<Message>)
    requires !m.ChunkHeader? && HeaderFlags(ms)
    ensures HeaderFlags([m] + ms)
  {
    var all := [m] + ms;
    forall k | 0 <= k < |all|
      ensures HeaderFlag(all, k)
    {
      if k > 0 {
        assert HeaderFlag(ms, k - 1);
      }
    }
  }

  lemma {:induction false} ChunkFlags(chunks: seq<seq<Byte>>, i: nat, j: nat, codec: Codec, room: nat, rest: seq<Message>)
    requires HeaderFlags(rest) && InfoFlags(rest) && (rest == [] || Announces(rest[0]))
    ensures var ms := ChunkMessages(chunks, i, j, codec, room) + rest;
            && HeaderFlags(ms) && InfoFlags(ms)
            && (if chunks == [] then ms == rest else ms != [] && ms[0].ChunkHeader?)
            && (Quiet(ms) <==> rest == [])
  {
    if chunks == [] {
      assert ChunkMessages(chunks, i, j, codec, room) + rest == rest;
      assert rest != [] ==> Announces(rest[0]);
    } else {
      var packed := Pack(chunks[0], codec(i, j, chunks[0]), room);
      var header, body := ChunkHeader(packed.compressor, j, |chunks| == 1), Body(packed.bytes);
      var after := ChunkMessages(chunks[1..], i, j + 1, codec, room) + rest;
      assert ChunkMessages(chunks, i, j, codec, room) + rest == [header, body] + after;
      ChunkFlags(chunks[1..], i, j + 1, codec, room, rest);
      hide Pack, HeaderFlags, InfoFlags, ChunkMessages, Quiet;
      PrependChunk(header, body, after);
      StillQuiet(header, body, after);
    }
  }

  lemma StillQuiet(header: Message, body: Message, ms: seq<Message>)
    requires header.ChunkHeader? && body.Body?
    ensures Quiet([header, body] + ms) <==> Quiet(ms)
  {
    var all := [header, body] + ms;
    assert forall l | 0 <= l < |ms| :: ms[l] == all[l + 2];
  }

  /** In the messages of any request the last chunk of each file is flagged and no other, and the last file
      is flagged, if it can be opened, and no other. */
  lemma {:induction false} FlagsExactly(files: seq<SourceFile>, i: nat, chunkSize: nat, codec: Codec)
    requires chunkSize > 0
    ensures var ms := Messages(files, i, chunkSize, codec);
            && HeaderFlags(ms) && InfoFlags(ms)
            && (if files == [] then ms == [] else ms != [] && Announces(ms[0]))
  {
    if files != [] {
      var rest := Messages(files[1..], i + 1, chunkSize, codec);
      FlagsExactly(files[1..], i + 1, chunkSize, codec);
      hide HeaderFlags, HeaderFlag, InfoFlags, Messages;
      assert rest == [] <==> |files| == 1;
      FileFlags(files[0], i, chunkSize, codec, |files| == 1, rest);
      assert Messages(files, i, chunkSize, codec) == FileMessages(files[0], i, chunkSize, codec, |files| == 1) + rest by {
        MessagesFirst(files, i, chunkSize, codec);
      }
    } else {
      assert Messages(files, i, chunkSize, codec) == [];
    }
  }

  lemma MessagesFirst(files: seq<SourceFile>, i: nat, chunkSize: nat, codec: Codec)
    requires chunkSize > 0 && files != []
    ensures Messages(files, i, chunkSize, codec)
            == FileMessages(files[0], i, chunkSize, codec, |files| == 1) + Messages(files[1..], i + 1, chunkSize, codec)
  {
  }

  lemma FileFlags(file: SourceFile, i: nat, chunkSize: nat, codec: Codec, lastFile: bool, rest: seq<Message>)
    requires chunkSize > 0 && HeaderFlags(rest) && InfoFlags(rest) && (rest == [] || Announces(rest[0])) && (lastFile <==> rest == [])
    ensures var ms := FileMessages(file, i, chunkSize, codec, lastFile) + rest;
            HeaderFlags(ms) && InfoFlags(ms) && ms != [] && Announces(ms[0])
  {
    hide HeaderFlags, InfoFlags, Chunks, ChunkMessages;
    match file.content {
      case None => PrependAnnouncement(ErrorMessage, rest);
      case Some(content) =>
        var info := FileInfo(file.name, |content|, chunkSize, lastFile);
        var ms := Remaining(content, i, 0, codec, chunkSize * 1024);
        ChunkFlags(Chunks(content, chunkSize * 1024), i, 0, codec, Room(chunkSize * 1024), rest);
        PrependAnnouncement(info, ms + rest);
        assert FileMessages(file, i, chunkSize, codec, lastFile) + rest == [info] + (ms + rest);
    }
  }

  // ----- The file processor -----

  class FileProcessor {
    const chunkSize: nat
    const chunkSizeBytes: nat
    var files: seq<SourceFile>  // those the explorer has still to hand out
    var currentFileName: string
    var source: Option<seq<Byte>>  // the stream's content while it is open
    var position: nat              // the stream's position
    var eof: bool
    var currentFileSize: nat
    var currentFileReadBytes: nat

    /** What the stream has still to give. */
    function Unread(): seq<Byte>
      requires Valid()
      reads this
    {
      if source.Some? then source.value[position..] else []
    }

    predicate Valid()
      reads this
    {
      && chunkSize > 0 && chunkSizeBytes == chunkSize * 1024
      && match source
         case None => true
         case Some(content) =>
           && currentFileSize == |content|
           && currentFileReadBytes == position <= |content|
           && (eof ==> position == |content|)
    }

    constructor (chunkSize: nat, files: seq<SourceFile>)
      requires chunkSize > 0
      ensures Valid() && this.chunkSize == chunkSize && this.files == files && source == None
    {
      this.chunkSize, this.chunkSizeBytes, this.files := chunkSize, chunkSize * 1024, files;
      currentFileName, source, position, eof, currentFileSize, currentFileReadBytes := "", None, 0, false, 0, 0;
    }

    function HasNextFile(): bool
      reads this
    {
      files != []
    }

    function HasNextChunk(): bool
      reads this
    {
      source.Some? && !eof && currentFileReadBytes < currentFileSize
    }

    /** The next file, ready to be read from its start; an error when it cannot be opened. Nothing happens
        when there is none. */
    method OpenNextFile() returns (size: Result<nat, Error>)
      requires Valid()
      modifies this
      ensures Valid()
      ensures old(files) == [] ==> size == Success(0) && files == [] && source == old(source) && HasNextChunk() == old(HasNextChunk())
      ensures old(files) != [] ==> files == old(files)[1..] && source == old(files)[0].content && currentFileName == old(files)[0].name
      ensures old(files) != [] ==> (HasNextChunk() <==> Unread() != [])
      ensures old(files) != [] ==>
                match source
                case None => size == Failure(CannotOpen(old(files)[0].name))
                case Some(content) => size == Success(|content|) && Unread() == content
    {
      if !HasNextFile() {
        return Success(0);
      }
      source := None;
      currentFileName := files[0].name;
      source := files[0].content;
      files := files[1..];
      if source.None? {
        return Failure(CannotOpen(currentFileName));
      }
      position, eof := 0, false;
      currentFileSize := |source.value|;
      currentFileReadBytes := 0;
      size := Success(currentFileSize);
    }

    /** The stream's read: fewer bytes than wanted are the last ones. */
    method Read(wanted: nat) returns (data: seq<Byte>)
      requires Valid() && source.Some?
      modifies `position, `eof
      ensures position == old(position) + |data| <= |source.value|
      ensures old(Unread()) == data + source.value[position..]
      ensures |data| == if wanted <= |old(Unread())| then wanted else |old(Unread())|
      ensures eof == (old(eof) || |data| < wanted)
      ensures eof ==> position == |source.value|
    {
      var n := if position + wanted <= |source.value| then wanted else |source.value| - position;
      data := source.value[position..position + n];
      eof := eof || n < wanted;
      position := position + n;
    }

    /** The next chunk as it is in the file. */
    method ReadChunk() returns (inData: Buffer)
      requires Valid() && HasNextChunk()
      modifies this
      ensures Valid() && files == old(files) && source == old(source)
      ensures fresh(inData) && inData.Valid()
      ensures HasNextChunk() <==> Unread() != []
      ensures IsFirstChunk(old(Unread()), chunkSizeBytes, inData.Contents(), Unread())
    {
      inData := new Buffer(chunkSizeBytes);
      var bytes := Read(chunkSizeBytes);
      currentFileReadBytes := currentFileReadBytes + |bytes|;
      var ok := inData.SetData(bytes);
    }

    /** The next chunk, packed into the buffer, and the compressor that the client has to undo. */
    method GetNextChunk(chunk: Buffer, i: nat, j: nat, codec: Codec) returns (compressor: Result<Compressor, Error>, ghost data: seq<Byte>)
      requires Valid() && chunk.Valid()
      modifies this, chunk
      ensures Valid() && chunk.Valid() && files == old(files) && source == old(source)
      ensures compressor.Success? <==> old(HasNextChunk())
      ensures compressor.Success? ==> (HasNextChunk() <==> Unread() != [])
      ensures compressor.Success? ==> IsFirstChunk(old(Unread()), chunkSizeBytes, data, Unread())
      ensures compressor.Success? ==>
                Packed(compressor.value, chunk.Contents()) == Pack(data, codec(i, j, data), Max(old(chunk.capacity), Room(chunkSizeBytes)))
      ensures compressor.Success? ==>
                match codec(i, j, data)
                case Coded(k, bytes) =>
                  if k != COPY && (|bytes| <= old(chunk.capacity) || 10 * |bytes| <= 11 * chunkSizeBytes)
                  then compressor.value == k && chunk.Contents() == bytes
                  else compressor.value == COPY && chunk.Contents() == data
                case Raised => compressor.value == COPY && chunk.Contents() == data
    {
      if source.None? {
        return Failure(NothingOpen), [];
      }
      if !HasNextChunk() {
        return Failure(NoMoreData), [];
      }
      if chunk.capacity < Room(chunkSizeBytes) {
        chunk.Resize(Room(chunkSizeBytes));
      }
      RoomIs(chunkSizeBytes);
      ghost var capacity := chunk.capacity;
      hide Room, Pack, IsFirstChunk;
      var inData := ReadChunk();
      var bytes := inData.Contents();
      var used := Compress(bytes, codec(i, j, bytes), chunk);
      if used == COPY {
        chunk.Swap(inData);
      }
      compressor, data := Success(used), bytes;
      PackIs(bytes, codec(i, j, bytes), capacity);
    }
  }

  /** The room is the largest whole number of bytes within 1.1 times the chunk size. */
  lemma RoomIs(c: nat)
    ensures forall n: nat :: n <= Room(c) <==> 10 * n <= 11 * c
  {
  }

  lemma PackIs(data: seq<Byte>, outcome: Outcome, room: nat)
    ensures var packed := Pack(data, outcome, room);
            match outcome
            case Coded(k, bytes) =>
              if k != COPY && |bytes| <= room then packed == Packed(k, bytes) else packed == Packed(COPY, data)
            case Raised => packed == Packed(COPY, data)
  {
  }

  /** The compressor's call, where any of its errors stands for a copy. */
  method Compress(data: seq<Byte>, outcome: Outcome, chunk: Buffer) returns (used: Compressor)
    requires chunk.Valid()
    modifies chunk
    ensures chunk.Valid()
    ensures Pack(data, outcome, old(chunk.capacity)) == Packed(used, if used == COPY then data else chunk.Contents())
  {
    if outcome.Raised? {
      return COPY;
    }
    var fits := chunk.SetData(outcome.bytes);
    used := if fits then outcome.compressor else COPY;
  }

  // ----- The server's loop -----

  type Queue = SynchronousQueues.SynchronousQueue<Message>

  /** The next chunk of the open file behind its header. The buffer is moved into the queue. */
  method SendChunk(processor: FileProcessor, chunk: Buffer, i: nat, j: nat, codec: Codec, queue: Queue)
    requires processor.Valid() && processor.HasNextChunk() && chunk.Valid() && chunk.capacity <= Room(processor.chunkSizeBytes)
    modifies processor, queue, chunk
    ensures processor.Valid() && processor.files == old(processor.files)
    ensures processor.HasNextChunk() <==> processor.Unread() != []
    ensures chunk.Valid() && chunk.capacity == 0
    ensures |Chunks(processor.Unread(), processor.chunkSizeBytes)| < |Chunks(old(processor.Unread()), processor.chunkSizeBytes)|
    ensures queue.queue + Remaining(processor.Unread(), i, j + 1, codec, processor.chunkSizeBytes)
            == old(queue.queue) + Remaining(old(processor.Unread()), i, j, codec, processor.chunkSizeBytes)
  {
    hide Room, Remaining, Chunks, Pack;
    var compressor, data := processor.GetNextChunk(chunk, i, j, codec);
    NextChunk(old(processor.Unread()), i, j, codec, processor.chunkSizeBytes, data, processor.Unread());
    queue.Push(ChunkHeader(compressor.value, j, !processor.HasNextChunk()));
    var moved := new Buffer(0);
    moved.Swap(chunk);
    queue.Push(Body(moved.Contents()));
  }

  /** The chunks of the open file. */
  method SendChunks(processor: FileProcessor, i: nat, codec: Codec, queue: Queue)
    requires processor.Valid() && (processor.HasNextChunk() <==> processor.Unread() != [])
    modifies processor, queue
    ensures processor.Valid() && processor.files == old(processor.files)
    ensures queue.queue == old(queue.queue) + Remaining(old(processor.Unread()), i, 0, codec, processor.chunkSizeBytes)
  {
    hide Room, Remaining, Chunks;
    NothingRemains(i, codec, processor.chunkSizeBytes);
    var chunk := new Buffer(Room(processor.chunkSizeBytes));
    var nChunks := 0;
    while processor.HasNextChunk()
      invariant processor.Valid() && processor.files == old(processor.files)
      invariant fresh(chunk) && chunk.Valid() && chunk.capacity <= Room(processor.chunkSizeBytes)
      invariant processor.HasNextChunk() <==> processor.Unread() != []
      invariant queue.queue + Remaining(processor.Unread(), i, nChunks, codec, processor.chunkSizeBytes)
                == old(queue.queue) + Remaining(old(processor.Unread()), i, 0, codec, processor.chunkSizeBytes)
      decreases |Chunks(processor.Unread(), processor.chunkSizeBytes)|
    {
      SendChunk(processor, chunk, i, nChunks, codec, queue);
      nChunks := nChunks + 1;
    }
  }

  lemma NothingRemains(i: nat, codec: Codec, size: nat)
    requires size > 0
    ensures forall j: nat :: Remaining([], i, j, codec, size) == []
  {
  }

  /** One file, announced and sent; or the message that it cannot be opened. */
  method SendFile(processor: FileProcessor, i: nat, codec: Codec, queue: Queue)
    requires processor.Valid() && processor.HasNextFile()
    modifies processor, queue
    ensures processor.Valid() && processor.files == old(processor.files)[1..]
    ensures queue.queue
            == old(queue.queue) + FileMessages(old(processor.files)[0], i, processor.chunkSize, codec, |old(processor.files)| == 1)
  {
    hide Remaining;
    var size := processor.OpenNextFile();
    if size.Failure? {
      queue.Push(ErrorMessage);
    } else {
      queue.Push(FileInfo(processor.currentFileName, size.value, processor.chunkSize, !processor.HasNextFile()));
      SendChunks(processor, i, codec, queue);
    }
  }

  /** All files of a request: the queue gets exactly their messages. */
  method ProcessRequest(processor: FileProcessor, codec: Codec, queue: Queue)
    requires processor.Valid()
    modifies processor, queue
    ensures queue.queue == old(queue.queue) + Messages(old(processor.files), 0, processor.chunkSize, codec)
  {
    hide FileMessages;
    var i := 0;
    while processor.HasNextFile()
      invariant processor.Valid()
      invariant queue.queue + Messages(processor.files, i, processor.chunkSize, codec)
                == old(queue.queue) + Messages(old(processor.files), 0, processor.chunkSize, codec)
      decreases |processor.files|
    {
      SendFile(processor, i, codec, queue);
      i := i + 1;
    }
  }

  /** The transmission thread, once the request has put all its messages in the queue: it sends them in
      order and ends. */
  method Transmit(transmissionQueue: Queue, connection: Queue)
    requires transmissionQueue != connection
    modifies transmissionQueue, connection
    ensures transmissionQueue.queue == []
    ensures connection.queue == old(connection.queue) + old(transmissionQueue.queue)
  {
    var done := false;
    while !done
      invariant connection.queue + transmissionQueue.queue == old(connection.queue) + old(transmissionQueue.queue)
      invariant done ==> transmissionQueue.queue == []
      decreases !done, |transmissionQueue.queue|
    {
      ghost var queue, sent := transmissionQueue.queue, connection.queue;
      var m := transmissionQueue.Pop();
      done := transmissionQueue.IsEmpty();
      if m.Some? {
        connection.Push(m.value);
        assert queue == [queue[0]] + queue[1..];
      }
      assert connection.queue + transmissionQueue.queue == sent + queue;
    }
  }
}
