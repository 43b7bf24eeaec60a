/** The FPC compressor of the platform: whole buffers in, whole buffers out. */
module FpcCompressor {
  import opened Wrappers
  import opened Words
  import opened FpcPredictor
  import opened FpcFormat
  import opened FpcRoundTrip
  import opened FpcBounds
  import opened FpcEncoder
  import opened FpcDecoder
  import opened FpcBlocks
  import opened Buffers

  datatype CompressionError = OutOfSpace

  datatype DecompressionError = NotFpc | OutBufferFull

  /** The bytes of a buffer from a position on. The position only moves while bytes are left. */
  class Input {
    const bytes: seq<Byte>
    var pos: nat
    var left: nat

    predicate Valid()
      reads this
    {
      left <= |bytes| && (left > 0 ==> pos == |bytes| - left)
    }

    function Rest(): (rest: seq<Byte>)
      requires Valid()
      reads this
      ensures |rest| == left <= |bytes|
    {
      bytes[|bytes| - left..]
    }

    constructor (bytes: seq<Byte>, pos: nat)
      requires pos <= |bytes|
      ensures Valid() && Rest() == bytes[pos..]
    {
      this.bytes, this.pos, this.left := bytes, pos, |bytes| - pos;
    }

    /** At most `wanted` bytes, to the front of an array. */
    method Read(wanted: nat, into: array<Byte>) returns (n: nat)
      requires Valid() && Min(left, wanted) <= into.Length
      modifies this, into
      ensures Valid() && n == Min(|old(Rest())|, wanted)
      ensures into[..n] == old(Rest())[..n] && Rest() == old(Rest())[n..]
    {
      n := if left < wanted then left else wanted;
      forall j | 0 <= j < n {
        into[j] := bytes[pos + j];
      }
      left := left - n;
      if left != 0 {
        pos := pos + n;
      }
    }
  }

  /** A buffer filled from its front, with the bytes still available in it. */
  class Output {
    const buffer: Buffer
    var pos: nat
    var available: nat

    predicate Valid()
      reads this, buffer
    {
      && |buffer.data| == buffer.capacity && available <= buffer.capacity
      && (available > 0 ==> pos == buffer.capacity - available)
    }

    function Written(): seq<Byte>
      requires Valid()
      reads this, buffer
    {
      buffer.data[..buffer.capacity - available]
    }

    constructor (buffer: Buffer, pos: nat)
      requires |buffer.data| == buffer.capacity && pos <= buffer.capacity
      ensures Valid() && this.buffer == buffer && Written() == buffer.data[..pos]
    {
      this.buffer, this.pos, this.available := buffer, pos, buffer.capacity - pos;
    }

    lemma WrittenFits()
      requires Valid()
      ensures |Written()| <= buffer.capacity
    {
    }

    /** Copies bytes behind what has been written; refused, with nothing changed, when they do not fit. */
    method Write(bytes: seq<Byte>) returns (ok: bool)
      requires Valid()
      modifies this, buffer`data
      ensures Valid() && ok == (|old(Written())| + |bytes| <= buffer.capacity)
      ensures Written() == if ok then old(Written()) + bytes else old(Written())
    {
      if available < |bytes| {
        return false;
      }
      if bytes != [] {
        buffer.data := buffer.data[..pos] + bytes + buffer.data[pos + |bytes|..];
      }
      available := available - |bytes|;
      if available != 0 {
        pos := pos + |bytes|;
      }
      ok := true;
    }

    /** What has been written becomes the contents of the buffer. */
    method Finish()
      requires Valid()
      modifies buffer`actualSize
      ensures buffer.Valid() && buffer.Contents() == old(Written())
    {
      buffer.actualSize := buffer.capacity - available;
    }
  }

  class FPCCompressor {
    const BLOCK_SIZE: BlockSize
    const compressionLevel: Byte

    constructor (compressionLevel: Byte)
      requires 1 <= compressionLevel <= 28
      ensures this.compressionLevel == compressionLevel && BLOCK_SIZE == 32768
    {
      this.BLOCK_SIZE := 8 * 4096;
      this.compressionLevel := compressionLevel;
    }

    ghost predicate Valid() {
      1 <= compressionLevel <= 28
    }

    /** The next block of values, with room behind them. */
    method FillBlock(input: Input, inbuf: array<Byte>) returns (intot: nat)
      requires input.Valid() && inbuf.Length == 8 * (BLOCK_SIZE + 1)
      modifies input, inbuf
      ensures input.Valid() && AtBlock(BLOCK_SIZE, WordsOf(old(input.Rest())), inbuf[..], intot, input.Rest())
    {
      hide *;
      AtMost(|input.Rest()|, 8 * BLOCK_SIZE);
      var r := input.Read(8 * BLOCK_SIZE, inbuf);
      AtMost(|old(input.Rest())|, 8 * BLOCK_SIZE);
      BlockFilled(BLOCK_SIZE, old(input.Rest()), r, inbuf[..]);
      intot := r / 8;
    }

    /** Encodes the block in `inbuf`, behind which are the bytes in `rest`, and writes it out, if it fits. */
    method CompressBlock(t: Tables, inbuf: array<Byte>, intot: nat, outbuf: array<Byte>, output: Output,
                         ghost whole: seq<Byte>, ghost ahead: seq<Word>, ghost rest: seq<Byte>, ghost slot: Word) returns (ok: bool, ghost slot': Word)
      requires Valid() && t.Valid() && output.Valid() && t.View().Valid()
      requires inbuf.Length == 8 * (BLOCK_SIZE + 1) && outbuf.Length == BlockBufferSize(BLOCK_SIZE) && inbuf != outbuf
      requires intot > 0 && AtBlock(BLOCK_SIZE, ahead, inbuf[..], intot, rest)
      requires compressionLevel <= 62 && Encoding(BLOCK_SIZE, compressionLevel, whole, t.View(), output.Written(), ahead, slot)
      modifies t, t.fcm, t.dfcm, outbuf, output, output.buffer`data
      ensures t.Valid() && output.Valid() && t.View().Valid()
      ensures if ok then Encoding(BLOCK_SIZE, compressionLevel, whole, t.View(), output.Written(), WordsOf(rest), slot')
              else |Encode(BLOCK_SIZE, compressionLevel, whole, slot')| > output.buffer.capacity
      ensures |WordsOf(rest)| < |ahead|
    {
      hide *;
      ghost var p, written, buffered := t.View(), output.Written(), inbuf[..];
      BlockInBuffer(BLOCK_SIZE, ahead, buffered, intot, rest);
      var out;
      out, slot' := EncodeBlockInto(BLOCK_SIZE, t, inbuf, intot, outbuf);
      BlockWritten(BLOCK_SIZE, compressionLevel, whole, p, written, ahead, slot, buffered, intot, rest, slot');
      ok := output.Write(outbuf[..out]);
      ViewIsValid(t);
    }

    /** All blocks, after the level byte. */
    method CompressBlocks(t: Tables, input: Input, output: Output, ghost whole: seq<Byte>) returns (ok: bool, ghost slot: Word)
      requires Valid() && t.Valid() && input.Valid() && output.Valid() && compressionLevel <= 62
      requires t.View() == Initial(compressionLevel) && input.Rest() == whole && output.Written() == [compressionLevel]
      modifies t, t.fcm, t.dfcm, input, output, output.buffer`data
      ensures output.Valid()
      ensures if ok then output.Written() == Encode(BLOCK_SIZE, compressionLevel, whole, slot)
              else |Encode(BLOCK_SIZE, compressionLevel, whole, slot)| > output.buffer.capacity
    {
      hide *;
      var inbuf, outbuf := new Byte[8 * (BLOCK_SIZE + 1)], new Byte[BlockBufferSize(BLOCK_SIZE)];
      ghost var ahead := WordsOf(whole);
      EncodingStarts(BLOCK_SIZE, compressionLevel, whole);
      ViewIsValid(t);
      ok, slot := true, 0;
      var intot := FillBlock(input, inbuf);
      while 0 < intot
        invariant t.Valid() && input.Valid() && output.Valid()
        invariant AtBlock(BLOCK_SIZE, ahead, inbuf[..], intot, input.Rest())
        invariant t.View().Valid() && Encoding(BLOCK_SIZE, compressionLevel, whole, t.View(), output.Written(), ahead, slot)
        decreases |ahead|
      {
        ok, slot := CompressBlock(t, inbuf, intot, outbuf, output, whole, ahead, input.Rest(), slot);
        if !ok {
          return;
        }
        ahead := WordsOf(input.Rest());
        intot := FillBlock(input, inbuf);
      }
      AllEncoded(BLOCK_SIZE, compressionLevel, whole, t.View(), output.Written(), ahead, slot, inbuf[..], input.Rest());
      ok := true;
    }

    /** Writes the stream of the input to the output buffer, or reports that it does not fit. */
    method Compress(inData: Buffer, outData: Buffer) returns (r: Result<(), CompressionError>, ghost slot: Word)
      requires Valid() && inData.Valid() && outData.Valid() && inData != outData
      requires inData.actualSize < 0x8000_0000 && outData.capacity < 0x8000_0000
      modifies outData
      ensures outData.Valid() && outData.capacity == old(outData.capacity)
      ensures r.Success? <==> |Encode(BLOCK_SIZE, compressionLevel, inData.Contents(), slot)| <= outData.capacity
      ensures r.Success? ==> outData.Contents() == Encode(BLOCK_SIZE, compressionLevel, inData.Contents(), slot)
      ensures r.Failure? ==> outData.actualSize == old(outData.actualSize)
    {
      hide Encode, Initial, Tables.Valid, Tables.View, Input.Rest, Input.Valid;
      ghost var whole := inData.Contents();
      if outData.capacity == 0 {
        slot := 0;
        StartsWithLevel(BLOCK_SIZE, compressionLevel, whole, slot);
        return Failure(OutOfSpace), slot;
      }
      outData.data := [compressionLevel] + outData.data[1..];
      var input := new Input(inData.Contents(), 0);
      var output := new Output(outData, 1);
      var t := new Tables(compressionLevel);
      var ok;
      ok, slot := CompressBlocks(t, input, output, whole);
      if !ok {
        return Failure(OutOfSpace), slot;
      }
      output.WrittenFits();
      output.Finish();
      r := Success(());
    }

    /** Reads and decodes a block, looks at the header behind it and writes the values out, if they fit. */
    method DecompressBlock(t: Tables, input: Input, inbuf: array<Byte>, n: nat, len: nat, outbuf: array<Word>, output: Output,
                           ghost whole: seq<Byte>, ghost acc: seq<Word>) returns (ok: bool, n': nat, len': nat, ghost acc': seq<Word>)
      requires t.Valid() && input.Valid() && output.Valid() && t.View().Valid() && |whole| >= 7
      requires inbuf.Length == BlockBufferSize(BLOCK_SIZE) && outbuf.Length == BLOCK_SIZE && outbuf != t.fcm && outbuf != t.dfcm
      requires output.Written() == BytesOf(acc) && Decoding(BLOCK_SIZE, whole, t.View(), input.Rest(), n, len, acc)
      modifies t, t.fcm, t.dfcm, input, inbuf, outbuf, output, output.buffer`data
      ensures t.Valid() && input.Valid() && output.Valid() && t.View().Valid()
      ensures Parse(BLOCK_SIZE, whole).Some?
      ensures if ok then output.Written() == BytesOf(acc') else 8 * |Parse(BLOCK_SIZE, whole).value| > output.buffer.capacity
      ensures if n' > 0 then Decoding(BLOCK_SIZE, whole, t.View(), input.Rest(), n', len', acc') && input.left < old(input.left)
              else Parse(BLOCK_SIZE, whole) == Some(acc')
    {
      hide *;
      ghost var p, rest := t.View(), input.Rest();
      BlockIsReadable(BLOCK_SIZE, whole, p, rest, n, len, acc);
      var end := input.Read(len, inbuf);
      n', len' := DecodeAndLookAhead(BLOCK_SIZE, t, inbuf, outbuf, n, len, end, rest);
      ViewIsValid(t);
      ghost var vals := outbuf[..n];
      acc' := acc + vals;
      NoMoreThanAll(BLOCK_SIZE, whole, p, rest, n, len, acc, vals);
      BytesOfConcat(acc, vals);
      if n' > 0 {
        DecodingGoesOn(BLOCK_SIZE, whole, p, rest, n, len, acc, vals, t.View(), input.Rest(), n', len');
        AtMost(|rest|, len);
        assert |input.Rest()| == |rest| - end;
      } else {
        DecodingEnds(BLOCK_SIZE, whole, p, rest, n, len, acc, vals);
      }
      ok := output.Write(BytesOf(outbuf[..n]));
    }

    /** All blocks behind the first header, which says `n0` values and `len0` bytes. */
    method DecompressBlocks(t: Tables, input: Input, n0: nat, len0: nat, output: Output, ghost whole: seq<Byte>) returns (ok: bool)
      requires t.Valid() && input.Valid() && output.Valid() && |whole| >= 7 && output.Written() == []
      requires Decoding(BLOCK_SIZE, whole, t.View(), input.Rest(), n0, len0, [])
      modifies t, t.fcm, t.dfcm, input, output, output.buffer`data
      ensures output.Valid() && Parse(BLOCK_SIZE, whole).Some?
      ensures ok == (8 * |Parse(BLOCK_SIZE, whole).value| <= output.buffer.capacity)
      ensures ok ==> output.Written() == BytesOf(Parse(BLOCK_SIZE, whole).value)
    {
      hide *;
      var inbuf, outbuf := new Byte[BlockBufferSize(BLOCK_SIZE)], new Word[BLOCK_SIZE];
      var n, len, more := n0, len0, true;
      ghost var acc: seq<Word> := [];
      NoBytes();
      ViewIsValid(t);
      while more
        invariant t.Valid() && input.Valid() && output.Valid() && t.View().Valid() && output.Written() == BytesOf(acc)
        invariant if more then Decoding(BLOCK_SIZE, whole, t.View(), input.Rest(), n, len, acc) else Parse(BLOCK_SIZE, whole) == Some(acc)
        decreases more, input.left
      {
        ok, n, len, acc := DecompressBlock(t, input, inbuf, n, len, outbuf, output, whole, acc);
        if !ok {
          return;
        }
        more := n > 0;
      }
      output.WrittenFits();
      ok := true;
    }

    /** Writes the bytes of a stream's values to the output buffer, or reports that the input is too
        short to be a stream or that the bytes do not fit. */
    method Decompress(inData: Buffer, outData: Buffer) returns (r: Result<(), DecompressionError>)
      requires inData.Valid() && outData.Valid() && inData != outData
      requires inData.actualSize < 0x8000_0000 && outData.capacity < 0x8000_0000
      requires inData.actualSize >= 7 ==> Parse(BLOCK_SIZE, inData.Contents()).Some?
      modifies outData
      ensures outData.Valid() && outData.capacity == old(outData.capacity)
      ensures inData.actualSize < 7 ==> r == Failure(NotFpc)
      ensures inData.actualSize >= 7 ==>
              r == if 8 * |Parse(BLOCK_SIZE, inData.Contents()).value| <= outData.capacity then Success(()) else Failure(OutBufferFull)
      ensures r.Success? ==> outData.Contents() == BytesOf(Parse(BLOCK_SIZE, inData.Contents()).value)
      ensures r.Failure? ==> outData.actualSize == old(outData.actualSize)
    {
      hide Parse, BytesOf, Value, Initial, Decoding, Tables.Valid, Tables.View, Input.Rest, Input.Valid;
      var bytes := inData.Contents();
      if |bytes| < 7 {
        return Failure(NotFpc);
      }
      DecodingStarts(BLOCK_SIZE, bytes);
      var input := new Input(bytes, 7);
      var output := new Output(outData, 0);
      var t := new Tables(bytes[0]);
      var ok := DecompressBlocks(t, input, Value(bytes[1..4]), Value(bytes[4..7]), output, bytes);
      if !ok {
        return Failure(OutBufferFull);
      }
      output.Finish();
      r := Success(());
    }
  }

  /** With room enough on both sides, a buffer of one or more whole words comes back from another
      compressor object, of any level, without its last size % 8 bytes. */
  method CompressThenDecompress(sender: FPCCompressor, receiver: FPCCompressor, original: Buffer, compressed: Buffer, restored: Buffer)
    requires sender.Valid() && sender.BLOCK_SIZE == receiver.BLOCK_SIZE
    requires original.Valid() && compressed.Valid() && restored.Valid()
    requires original != compressed && original != restored && compressed != restored
    requires 8 <= original.actualSize < 0x8000_0000 && compressed.capacity < 0x8000_0000 && restored.capacity < 0x8000_0000
    requires compressed.capacity >= 1 + LongestBlocks(sender.BLOCK_SIZE, original.actualSize / 8)
    requires restored.capacity >= original.actualSize
    modifies compressed, restored
    ensures restored.Valid() && restored.Contents() == original.Contents()[..original.actualSize / 8 * 8]
  {
    hide Parse, BytesOf, Encode, WordsOf;
    ghost var input, b := original.Contents(), sender.BLOCK_SIZE;
    var r, slot := sender.Compress(original, compressed);
    EncodedFits(b, sender.compressionLevel, input, slot);
    ParseEncoded(b, sender.compressionLevel, input, slot);
    BytesOfWords(input);
    ghost var stream := compressed.Contents();
    assert Parse(b, stream) == Some(WordsOf(input));
    var r' := receiver.Decompress(compressed, restored);
    assert compressed.Contents() == stream;
  }

  lemma EncodedFits(b: BlockSize, level: Byte, input: seq<Byte>, slot: Word)
    requires level <= 62
    ensures |Encode(b, level, input, slot)| <= 1 + LongestBlocks(b, |input| / 8)
  {
    hide EncodeBlocks, Initial;
    BlocksFit(b, Initial(level), WordsOf(input), slot);
  }
}
