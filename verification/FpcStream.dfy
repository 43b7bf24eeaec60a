/** The stream program for the same format: it encodes or decodes its standard input to its standard output. */
module FpcStreams {
  import opened Wrappers
  import opened Words
  import opened FpcPredictor
  import opened FpcFormat
  import opened FpcRoundTrip
  import opened FpcEncoder
  import opened FpcDecoder
  import opened FpcBlocks

  const SIZE: BlockSize := 32768

  /** One end of the program: bytes come out in the order in which they went in. */
  class Stream {
    var bytes: seq<Byte>

    constructor (bytes: seq<Byte>)
      ensures this.bytes == bytes
    {
      this.bytes := bytes;
    }

    /** As many bytes as are wanted, or all that are left. */
    method Read(wanted: nat, into: array<Byte>) returns (n: nat)
      requires Min(|bytes|, wanted) <= into.Length
      modifies this, into
      ensures n == Min(|old(bytes)|, wanted)
      ensures into[..n] == old(bytes)[..n] && bytes == old(bytes)[n..]
    {
      n := if |bytes| < wanted then |bytes| else wanted;
      forall j | 0 <= j < n {
        into[j] := bytes[j];
      }
      bytes := bytes[n..];
    }

    method Write(more: seq<Byte>)
      modifies this
      ensures bytes == old(bytes) + more
    {
      bytes := bytes + more;
    }
  }

  /** As many whole values as there are, up to a block. Bytes that are not enough for a value are read and lost. */
  method ReadItems(stdin: Stream, inbuf: array<Byte>) returns (intot: nat)
    requires inbuf.Length == 8 * (SIZE + 1)
    modifies stdin, inbuf
    ensures AtBlock(SIZE, WordsOf(old(stdin.bytes)), inbuf[..], intot, stdin.bytes)
  {
    hide *;
    AtMost(|stdin.bytes|, 8 * SIZE);
    var r := stdin.Read(8 * SIZE, inbuf);
    BlockFilled(SIZE, old(stdin.bytes), r, inbuf[..]);
    intot := r / 8;
  }

  /** One block to the output. */
  method CompressBlock(level: Byte, t: Tables, inbuf: array<Byte>, intot: nat, outbuf: array<Byte>, stdout: Stream, ghost before: seq<Byte>,
                       ghost whole: seq<Byte>, ghost written: seq<Byte>, ghost ahead: seq<Word>, ghost rest: seq<Byte>, ghost slot: Word)
    returns (ghost written': seq<Byte>, ghost slot': Word)
    requires level <= 62 && t.Valid() && t.View().Valid() && stdout.bytes == before + written
    requires inbuf.Length == 8 * (SIZE + 1) && outbuf.Length == BlockBufferSize(SIZE) && inbuf != outbuf
    requires intot > 0 && AtBlock(SIZE, ahead, inbuf[..], intot, rest)
    requires Encoding(SIZE, level, whole, t.View(), written, ahead, slot)
    modifies t, t.fcm, t.dfcm, outbuf, stdout
    ensures t.Valid() && t.View().Valid() && stdout.bytes == before + written'
    ensures Encoding(SIZE, level, whole, t.View(), written', WordsOf(rest), slot') && |WordsOf(rest)| < |ahead|
  {
    hide *;
    ghost var p, buffered := t.View(), inbuf[..];
    BlockInBuffer(SIZE, ahead, buffered, intot, rest);
    var out;
    out, slot' := EncodeBlockInto(SIZE, t, inbuf, intot, outbuf);
    BlockWritten(SIZE, level, whole, p, written, ahead, slot, buffered, intot, rest, slot');
    written' := written + outbuf[..out];
    assert before + written + outbuf[..out] == before + written';
    stdout.Write(outbuf[..out]);
    ViewIsValid(t);
  }

  /** Encodes all input at a level. */
  method Compress(level: Byte, stdin: Stream, stdout: Stream) returns (ghost slot: Word)
    requires level <= 62 && stdin != stdout
    modifies stdin, stdout
    ensures stdout.bytes == old(stdout.bytes) + Encode(SIZE, level, old(stdin.bytes), slot)
  {
    hide *;
    ghost var whole, before := stdin.bytes, stdout.bytes;
    var inbuf, outbuf := new Byte[8 * (SIZE + 1)], new Byte[BlockBufferSize(SIZE)];
    stdout.Write([level]);
    var t := new Tables(level);
    ViewIsValid(t);
    EncodingStarts(SIZE, level, whole);
    ghost var written, ahead := [level], WordsOf(whole);
    slot := 0;
    var intot := ReadItems(stdin, inbuf);
    while 0 < intot
      invariant t.Valid() && t.View().Valid() && fresh(t) && fresh(t.fcm) && fresh(t.dfcm)
      invariant AtBlock(SIZE, ahead, inbuf[..], intot, stdin.bytes)
      invariant Encoding(SIZE, level, whole, t.View(), written, ahead, slot) && stdout.bytes == before + written
      decreases |ahead|
    {
      written, slot := CompressBlock(level, t, inbuf, intot, outbuf, stdout, before, whole, written, ahead, stdin.bytes, slot);
      ahead := WordsOf(stdin.bytes);
      intot := ReadItems(stdin, inbuf);
    }
    AllEncoded(SIZE, level, whole, t.View(), written, ahead, slot, inbuf[..], stdin.bytes);
  }

  /** One block and the header behind it. */
  method DecompressBlock(t: Tables, stdin: Stream, inbuf: array<Byte>, n: nat, len: nat, outbuf: array<Word>, stdout: Stream,
                         ghost before: seq<Byte>, ghost whole: seq<Byte>, ghost acc: seq<Word>) returns (n': nat, len': nat, ghost acc': seq<Word>)
    requires t.Valid() && t.View().Valid() && |whole| >= 7 && stdin != stdout && stdout.bytes == before + BytesOf(acc)
    requires inbuf.Length == BlockBufferSize(SIZE) && outbuf.Length == SIZE && outbuf != t.fcm && outbuf != t.dfcm
    requires Decoding(SIZE, whole, t.View(), stdin.bytes, n, len, acc)
    modifies t, t.fcm, t.dfcm, stdin, inbuf, outbuf, stdout
    ensures t.Valid() && t.View().Valid() && stdout.bytes == before + BytesOf(acc')
    ensures if n' > 0 then Decoding(SIZE, whole, t.View(), stdin.bytes, n', len', acc') && |stdin.bytes| < |old(stdin.bytes)|
            else Parse(SIZE, whole) == Some(acc')
  {
    hide *;
    ghost var p, rest := t.View(), stdin.bytes;
    BlockIsReadable(SIZE, whole, p, rest, n, len, acc);
    AtMost(|rest|, len);
    var end := stdin.Read(len, inbuf);
    n', len' := DecodeAndLookAhead(SIZE, t, inbuf, outbuf, n, len, end, rest);
    ViewIsValid(t);
    ghost var vals := outbuf[..n];
    acc' := acc + vals;
    BytesOfConcat(acc, vals);
    if n' > 0 {
      DecodingGoesOn(SIZE, whole, p, rest, n, len, acc, vals, t.View(), stdin.bytes, n', len');
    } else {
      DecodingEnds(SIZE, whole, p, rest, n, len, acc, vals);
    }
    stdout.Write(BytesOf(outbuf[..n]));
    assert before + (BytesOf(acc) + BytesOf(vals)) == before + BytesOf(acc) + BytesOf(vals);
  }

  /** What the program makes of a stream: nothing of a level byte alone, and it stops at an assertion when
      there is not even a whole header. */
  function StreamDecode(stream: seq<Byte>): Result<seq<Byte>, FpcError> {
    if |stream| == 1 then Success([]) else Decode(SIZE, stream)
  }

  /** Decodes all input, or stops before it has written anything. */
  method Decompress(stdin: Stream, stdout: Stream) returns (ok: bool)
    requires stdin != stdout && StreamDecode(stdin.bytes) != Failure(Unreadable)
    modifies stdin, stdout
    ensures ok <==> StreamDecode(old(stdin.bytes)).Success?
    ensures stdout.bytes == old(stdout.bytes) + if ok then StreamDecode(old(stdin.bytes)).value else []
  {
    hide Parse, BytesOf, Value, Initial, Decoding;
    ghost var whole, before := stdin.bytes, stdout.bytes;
    var inbuf, outbuf := new Byte[BlockBufferSize(SIZE)], new Word[SIZE];
    var ioc := stdin.Read(7, inbuf);
    if ioc == 1 {
      return true;
    }
    if ioc != 7 {
      return false;
    }
    DecodingStarts(SIZE, whole);
    assert inbuf[0] == inbuf[..7][0] == whole[..7][0];
    assert inbuf[1..4] == inbuf[..7][1..4] == whole[..7][1..4] == whole[1..4];
    assert inbuf[4..7] == inbuf[..7][4..7] == whole[..7][4..7] == whole[4..7];
    var t := new Tables(inbuf[0]);
    var n, len := ReadHeader(inbuf, 1);
    DecompressBlocks(t, stdin, inbuf, n, len, outbuf, stdout, whole);
    ok := true;
  }

  method DecompressBlocks(t: Tables, stdin: Stream, inbuf: array<Byte>, n0: nat, len0: nat, outbuf: array<Word>, stdout: Stream, ghost whole: seq<Byte>)
    requires t.Valid() && |whole| >= 7 && stdin != stdout
    requires inbuf.Length == BlockBufferSize(SIZE) && outbuf.Length == SIZE && outbuf != t.fcm && outbuf != t.dfcm
    requires Decoding(SIZE, whole, t.View(), stdin.bytes, n0, len0, [])
    modifies t, t.fcm, t.dfcm, stdin, inbuf, outbuf, stdout
    ensures Parse(SIZE, whole).Some? && stdout.bytes == old(stdout.bytes) + BytesOf(Parse(SIZE, whole).value)
  {
    hide *;
    ghost var before, acc := stdout.bytes, [];
    var n, len, more := n0, len0, true;
    NoBytes();
    ViewIsValid(t);
    while more
      invariant t.Valid() && t.View().Valid() && stdout.bytes == before + BytesOf(acc)
      invariant if more then Decoding(SIZE, whole, t.View(), stdin.bytes, n, len, acc) else Parse(SIZE, whole) == Some(acc)
      decreases more, |stdin.bytes|
    {
      n, len, acc := DecompressBlock(t, stdin, inbuf, n, len, outbuf, stdout, before, whole, acc);
      more := n > 0;
    }
  }

  /** What the decoding run makes of what an encoding run writes: the whole words of the input, however
      short it is. */
  lemma StreamRoundTrip(level: Byte, input: seq<Byte>, slot: Word)
    requires level <= 62
    ensures StreamDecode(Encode(SIZE, level, input, slot)) == Success(input[..|input| / 8 * 8])
  {
    hide Decode, Encode;
    RoundTrip(SIZE, level, input, slot);
    if |input| >= 8 {
      ParseEncoded(SIZE, level, input, slot);
    }
  }

  /** The program's decoding run on what its encoding run wrote gives the whole words of any input back, of
      the shortest ones too. */
  method CompressThenDecompress(level: Byte, input: seq<Byte>) returns (output: seq<Byte>)
    requires level <= 62
    ensures output == input[..|input| / 8 * 8]
  {
    hide Decode, Encode;
    var stdin := new Stream(input);
    var pipe := new Stream([]);
    var stdout := new Stream([]);
    var slot := Compress(level, stdin, pipe);
    StreamRoundTrip(level, input, slot);
    assert [] + Encode(SIZE, level, input, slot) == Encode(SIZE, level, input, slot);
    hide StreamDecode;
    var ok := Decompress(pipe, stdout);
    output := stdout.bytes;
    assert output == [] + input[..|input| / 8 * 8];
  }
}
