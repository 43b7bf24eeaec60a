/** The decoder of the in-memory FPC compressor, step by step on its tables and block buffers. */
module FpcDecoder {
  import opened Wrappers
  import opened Words
  import opened FpcPredictor
  import opened FpcFormat
  import opened FpcRoundTrip
  import opened FpcEncoder

  // ----- What a readable block allows -----

  lemma CursorStep(p: Predictor, body: seq<Byte>, n: nat, k: nat)
    requires p.Valid() && (n + 1) / 2 <= |body| && k < n
    requires ReadValues(p, body, n, k + 1).Some?
    ensures ReadValues(p, body, n, k).Some?
    ensures var c := ReadValues(p, body, n, k).value;
            && ReadValue(body, c.pos, c.p, NibbleOf(body, k)).Some?
            && ReadValues(p, body, n, k + 1).value.pos == c.pos + Width(LengthBits(NibbleOf(body, k)))
  {
    hide NibbleOf, ReadValue, DecoderUpdate, Width, LengthBits;
  }

  lemma {:induction false} ReadablePrefix(p: Predictor, body: seq<Byte>, n: nat, k: nat, m: nat)
    requires p.Valid() && (n + 1) / 2 <= |body| && k <= m <= n
    requires ReadValues(p, body, n, m).Some?
    ensures ReadValues(p, body, n, k).Some?
  {
    hide *;
    if k < m {
      CursorStep(p, body, n, m - 1);
      ReadablePrefix(p, body, n, k, m - 1);
    }
  }

  lemma {:induction false} CursorBound(p: Predictor, body: seq<Byte>, n: nat, k: nat)
    requires p.Valid() && (n + 1) / 2 <= |body| && k <= n
    requires ReadValues(p, body, n, k).Some?
    ensures ReadValues(p, body, n, k).value.pos <= (n + 1) / 2 + 8 * k
  {
    hide NibbleOf, Width, LengthBits;
    if k == 0 {
      assert ReadValues(p, body, n, 0).value.pos == (n + 1) / 2;
    } else {
      hide ReadValues;
      CursorStep(p, body, n, k - 1);
      CursorBound(p, body, n, k - 1);
      WidthValues(LengthBits(NibbleOf(body, k - 1)));
    }
  }

  /** Every word a decoder loads lies inside its buffer. */
  lemma LoadInBuffer(b: BlockSize, n: nat, k: nat, pos: nat)
    requires k <= n <= b && k < b && pos <= (n + 1) / 2 + 8 * k
    ensures Aligned(pos) + 16 <= BlockBufferSize(b)
  {
    StoreInBuffer(b, pos);
  }

  // ----- One value -----

  /** One value: splice out its residual, mask it, undo the prediction. */
  method DecodeValue(t: Tables, inbuf: array<Byte>, pos: nat, nibble: Byte) returns (val: Word, pos': nat)
    requires t.Valid() && Aligned(pos) + 16 <= inbuf.Length
    modifies t, t.fcm, t.dfcm
    ensures pos <= pos' == pos + Width(LengthBits(nibble)) <= pos + 8 <= inbuf.Length
    ensures val == Xor(FromLow(inbuf[pos..pos']), Prediction(old(t.View()), SecondBit(nibble)))
    ensures t.Valid() && t.View() == DecoderUpdate(old(t.View()), val)
  {
    hide Bytes, Xor, FromLow, Mask, And, Width, SecondBit, LengthBits, DecoderUpdate;
    var word := ReadUnaligned(inbuf, pos);
    var bcode := LengthBits(nibble);
    MaskedWord(word, bcode);
    pos' := pos + Width(bcode);
    assert inbuf[pos..pos + 8][..Width(bcode)] == inbuf[pos..pos'];
    val := t.Decode(And(word, Mask(bcode)), SecondBit(nibble));
  }

  /** The reader has the first `k` values of the block. */
  ghost predicate HasRead(p: Predictor, body: seq<Byte>, n: nat, k: nat, view: Predictor, pos: nat, out: seq<Word>)
    requires p.Valid() && (n + 1) / 2 <= |body|
  {
    k <= n && k <= |out| && ReadValues(p, body, n, k) == Some(Cursor(view, pos, out[..k]))
  }

  lemma NextIsReadable(p: Predictor, body: seq<Byte>, n: nat, k: nat, view: Predictor, pos: nat, out: seq<Word>)
    requires p.Valid() && (n + 1) / 2 <= |body| && k < n && HasRead(p, body, n, k, view, pos, out)
    requires ReadValues(p, body, n, n).Some?
    ensures ReadValue(body, pos, view, NibbleOf(body, k)).Some?
    ensures pos <= (n + 1) / 2 + 8 * k
  {
    hide NibbleOf, DecoderUpdate, ReadValue, ReadValues;
    CursorBound(p, body, n, k);
    ReadablePrefix(p, body, n, k + 1, n);
    CursorStep(p, body, n, k);
  }

  lemma ResidualInside(body: seq<Byte>, pos: nat, p: Predictor, nibble: Byte)
    requires ReadValue(body, pos, p, nibble).Some?
    ensures pos + Width(LengthBits(nibble)) <= |body|
  {
    hide Width, LengthBits, Xor, FromLow, Prediction;
  }

  lemma HasReadNext(p: Predictor, body: seq<Byte>, n: nat, k: nat, view: Predictor, pos: nat, out: seq<Word>, val: Word)
    requires p.Valid() && (n + 1) / 2 <= |body| && k < n && k < |out| && HasRead(p, body, n, k, view, pos, out)
    requires view.Valid() && ReadValue(body, pos, view, NibbleOf(body, k)) == Some(val)
    ensures HasRead(p, body, n, k + 1, DecoderUpdate(view, val), pos + Width(LengthBits(NibbleOf(body, k))), out[k := val])
  {
    hide NibbleOf, DecoderUpdate, ReadValue, ReadValues, Width, LengthBits;
    ReadNext(p, body, n, k, Cursor(view, pos, out[..k]), val);
    assert out[k := val][..k + 1] == out[..k] + [val];
  }

  /** The next value of a block. */
  method DecodeNext(b: BlockSize, t: Tables, inbuf: array<Byte>, n: nat, outbuf: array<Word>, k: nat, pos: nat, nibble: Byte,
                    ghost p: Predictor, ghost body: seq<Byte>) returns (pos': nat)
    requires k < n <= b && inbuf.Length == BlockBufferSize(b) && outbuf.Length == b
    requires (n + 1) / 2 <= |body| && body <= inbuf[..] && nibble == NibbleOf(body, k)
    requires p.Valid() && t.Valid() && ReadValues(p, body, n, n).Some?
    requires outbuf != t.fcm && outbuf != t.dfcm
    requires HasRead(p, body, n, k, t.View(), pos, outbuf[..])
    modifies t, t.fcm, t.dfcm, outbuf
    ensures t.Valid() && HasRead(p, body, n, k + 1, t.View(), pos', outbuf[..])
  {
    hide *;
    ghost var view, out := t.View(), outbuf[..];
    ViewIsValid(t);
    NextIsReadable(p, body, n, k, view, pos, out);
    ResidualInside(body, pos, view, nibble);
    LoadInBuffer(b, n, k, pos);
    var val;
    val, pos' := DecodeValue(t, inbuf, pos, nibble);
    assert inbuf[..][pos..pos'] == inbuf[pos..pos'];
    assert body[pos..pos'] == inbuf[..][pos..pos'];
    ReadValueIs(body, pos, view, nibble, body[pos..pos']);
    HasReadNext(p, body, n, k, view, pos, out, val);
    outbuf[k] := val;
  }

  /** The value after an odd last one: its code only moves the position. */
  method DecodePadding(b: BlockSize, t: Tables, inbuf: array<Byte>, n: nat, outbuf: array<Word>, pos: nat, nibble: Byte,
                       ghost p: Predictor, ghost body: seq<Byte>) returns (pos': nat)
    requires n < b && n % 2 == 1 && inbuf.Length == BlockBufferSize(b) && outbuf.Length == b
    requires (n + 1) / 2 <= |body| && nibble == NibbleOf(body, n)
    requires p.Valid() && t.Valid() && outbuf != t.fcm && outbuf != t.dfcm
    requires HasRead(p, body, n, n, t.View(), pos, outbuf[..])
    modifies t, t.fcm, t.dfcm, outbuf
    ensures t.Valid() && outbuf[..n] == old(outbuf[..n])
    ensures pos' == EndOfBlock(body, n, pos)
  {
    hide DecoderUpdate, Width, LengthBits, SecondBit, Xor, FromLow, NibbleOf;
    CursorBound(p, body, n, n);
    hide ReadValues;
    LoadInBuffer(b, n, n, pos);
    var val;
    val, pos' := DecodeValue(t, inbuf, pos, nibble);
    outbuf[n] := val;
  }

  /** The state of the block loop at value `i`: all values before it have been read, and after an odd
      last value the position has passed its padding. */
  ghost predicate AtValue(p: Predictor, body: seq<Byte>, n: nat, i: nat, view: Predictor, pos: nat, out: seq<Word>)
    requires p.Valid() && (n + 1) / 2 <= |body|
  {
    if i <= n then HasRead(p, body, n, i, view, pos, out)
    else
      && n % 2 == 1 && n <= |out| && ReadValues(p, body, n, n).Some?
      && out[..n] == ReadValues(p, body, n, n).value.vals
      && pos == EndOfBlock(body, n, ReadValues(p, body, n, n).value.pos)
  }

  /** The second value of a pair, or the padding of an odd block. */
  method DecodeSecond(b: BlockSize, t: Tables, inbuf: array<Byte>, n: nat, outbuf: array<Word>, i: nat, pos: nat, nibble: Byte,
                      ghost p: Predictor, ghost body: seq<Byte>) returns (pos': nat)
    requires i < n <= b && i % 2 == 0 && inbuf.Length == BlockBufferSize(b) && outbuf.Length == b
    requires (n + 1) / 2 <= |body| && body <= inbuf[..] && nibble == NibbleOf(body, i + 1)
    requires p.Valid() && t.Valid() && ReadValues(p, body, n, n).Some?
    requires outbuf != t.fcm && outbuf != t.dfcm
    requires HasRead(p, body, n, i + 1, t.View(), pos, outbuf[..])
    modifies t, t.fcm, t.dfcm, outbuf
    ensures t.Valid() && AtValue(p, body, n, i + 2, t.View(), pos', outbuf[..])
  {
    hide *;
    if i + 1 < n {
      pos' := DecodeNext(b, t, inbuf, n, outbuf, i + 1, pos, nibble, p, body);
      StillReading(p, body, n, i + 2, t.View(), pos', outbuf[..]);
    } else {
      OddEnd(b, n, i);
      ReadAll(p, body, n, t.View(), pos, outbuf[..]);
      pos' := DecodePadding(b, t, inbuf, n, outbuf, pos, nibble, p, body);
      PaddingRead(p, body, n, i + 2, t.View(), pos', outbuf[..]);
    }
  }

  lemma OddEnd(b: BlockSize, n: nat, i: nat)
    requires i < n <= b && i % 2 == 0 && n <= i + 1
    ensures n == i + 1 && n % 2 == 1 && n < b
  {
    BlockSizeIsEven(b);
  }

  lemma StillReading(p: Predictor, body: seq<Byte>, n: nat, i: nat, view: Predictor, pos: nat, out: seq<Word>)
    requires p.Valid() && (n + 1) / 2 <= |body| && i <= n && HasRead(p, body, n, i, view, pos, out)
    ensures AtValue(p, body, n, i, view, pos, out)
  {
  }

  lemma PaddingRead(p: Predictor, body: seq<Byte>, n: nat, i: nat, view: Predictor, pos: nat, out: seq<Word>)
    requires p.Valid() && (n + 1) / 2 <= |body| && i == n + 1 && n % 2 == 1 && n <= |out| && ReadValues(p, body, n, n).Some?
    requires out[..n] == ReadValues(p, body, n, n).value.vals && pos == EndOfBlock(body, n, ReadValues(p, body, n, n).value.pos)
    ensures AtValue(p, body, n, i, view, pos, out)
  {
    hide ReadValues, EndOfBlock;
  }

  /** One turn of the block loop: a code byte and the two values it is about. */
  method DecodePair(b: BlockSize, t: Tables, inbuf: array<Byte>, n: nat, outbuf: array<Word>, i: nat, pos: nat,
                    ghost p: Predictor, ghost body: seq<Byte>) returns (pos': nat)
    requires i < n <= b && i % 2 == 0 && inbuf.Length == BlockBufferSize(b) && outbuf.Length == b
    requires (n + 1) / 2 <= |body| && body <= inbuf[..]
    requires p.Valid() && t.Valid() && ReadValues(p, body, n, n).Some?
    requires outbuf != t.fcm && outbuf != t.dfcm
    requires AtValue(p, body, n, i, t.View(), pos, outbuf[..])
    modifies t, t.fcm, t.dfcm, outbuf
    ensures t.Valid() && AtValue(p, body, n, i + 2, t.View(), pos', outbuf[..])
  {
    assert HasRead(p, body, n, i, t.View(), pos, outbuf[..]);
    hide HighNibble, LowNibble, NibbleOf, DecoderUpdate, ReadValues, HasRead, EndOfBlock, AtValue;
    var code := inbuf[i / 2];
    CodeOf(inbuf[..], body, i);
    pos' := DecodeNext(b, t, inbuf, n, outbuf, i, pos, HighNibble(code), p, body);
    pos' := DecodeSecond(b, t, inbuf, n, outbuf, i, pos', LowNibble(code), p, body);
  }

  lemma CodeOf(buf: seq<Byte>, body: seq<Byte>, i: nat)
    requires body <= buf && i / 2 < |body| && i % 2 == 0
    ensures NibbleOf(body, i) == HighNibble(buf[i / 2]) && NibbleOf(body, i + 1) == LowNibble(buf[i / 2])
  {
    hide HighNibble, LowNibble;
    assert (i + 1) / 2 == i / 2 && (i + 1) % 2 == 1;
  }

  lemma ReadAll(p: Predictor, body: seq<Byte>, n: nat, view: Predictor, pos: nat, out: seq<Word>)
    requires p.Valid() && (n + 1) / 2 <= |body| && HasRead(p, body, n, n, view, pos, out)
    ensures ReadValues(p, body, n, n) == Some(Cursor(view, pos, out[..n]))
  {
  }

  /** A block: the values that the body in `inbuf` holds, and where the next header would be. */
  method DecodeBlock(b: BlockSize, t: Tables, inbuf: array<Byte>, end: nat, n: nat, outbuf: array<Word>) returns (next: nat)
    requires n <= b && inbuf.Length == BlockBufferSize(b) && outbuf.Length == b && end <= inbuf.Length
    requires (n + 1) / 2 <= end && t.Valid() && outbuf != t.fcm && outbuf != t.dfcm
    requires ReadValues(t.View(), inbuf[..end], n, n).Some?
    modifies t, t.fcm, t.dfcm, outbuf
    ensures t.Valid()
    ensures var c := old(ReadValues(t.View(), inbuf[..end], n, n)).value;
            && outbuf[..n] == c.vals
            && next == EndOfBlock(inbuf[..end], n, c.pos)
            && (n % 2 == 0 ==> t.View() == c.p)
  {
    hide *;
    ViewIsValid(t);
    ghost var p, body := t.View(), inbuf[..end];
    next := (n + 1) / 2;
    BlockBegins(p, body, n, outbuf[..]);
    var i := 0;
    while i < n
      invariant i % 2 == 0 && i <= n + 1
      invariant t.Valid() && AtValue(p, body, n, i, t.View(), next, outbuf[..])
    {
      next := DecodePair(b, t, inbuf, n, outbuf, i, next, p, body);
      i := i + 2;
    }
    BlockRead(p, body, n, i, t.View(), next, outbuf[..]);
  }

  lemma BlockBegins(p: Predictor, body: seq<Byte>, n: nat, out: seq<Word>)
    requires p.Valid() && (n + 1) / 2 <= |body|
    ensures AtValue(p, body, n, 0, p, (n + 1) / 2, out)
  {
    assert out[..0] == [];
  }

  lemma BlockRead(p: Predictor, body: seq<Byte>, n: nat, i: nat, view: Predictor, pos: nat, out: seq<Word>)
    requires p.Valid() && (n + 1) / 2 <= |body| && n <= i <= n + 1 && i % 2 == 0
    requires AtValue(p, body, n, i, view, pos, out)
    ensures n <= |out| && ReadValues(p, body, n, n).Some?
    ensures out[..n] == ReadValues(p, body, n, n).value.vals
    ensures pos == EndOfBlock(body, n, ReadValues(p, body, n, n).value.pos)
    ensures n % 2 == 0 ==> view == ReadValues(p, body, n, n).value.p
  {
    hide ReadValues;
  }

  // ----- A whole buffer -----

  /** What a readable stream says about its next block, and what is left after it. */
  lemma ReadableBlock(b: BlockSize, p: Predictor, stream: seq<Byte>, n: nat, len: nat)
    requires p.Valid() && ReadBlocks(b, p, stream, n, len).Some?
    ensures var end := Min(|stream|, len);
            && n <= b && end <= BlockBufferSize(b) && (n + 1) / 2 <= end <= |stream|
            && ReadValues(p, stream[..end], n, n).Some?
            && var c := ReadValues(p, stream[..end], n, n).value;
            var next := EndOfBlock(stream[..end], n, c.pos);
            if end < next + 6 || Value(stream[next..next + 3]) == 0 then
              ReadBlocks(b, p, stream, n, len) == Some(c.vals)
            else
              && n % 2 == 0
              && var more := ReadBlocks(b, c.p, stream[end..], Value(stream[next..next + 3]), Value(stream[next + 3..next + 6]));
              more.Some? && ReadBlocks(b, p, stream, n, len) == Some(c.vals + more.value)
  {
    hide ReadValues, EndOfBlock, Value;
    var end := Min(|stream|, len);
    var body := stream[..end];
    forall i, j | 0 <= i <= j <= end
      ensures body[i..j] == stream[i..j]
    {
    }
  }

  method ReadHeader(inbuf: array<Byte>, at: nat) returns (n: nat, len: nat)
    requires at + 6 <= inbuf.Length
    ensures n == Value(inbuf[at..at + 3]) && len == Value(inbuf[at + 3..at + 6])
  {
    n := Value(inbuf[at..at + 3]);
    len := Value(inbuf[at + 3..at + 6]);
  }

  /** Decodes the block in `inbuf` and reads the header after it, if there is room for one. */
  method DecodeAndLookAhead(b: BlockSize, t: Tables, inbuf: array<Byte>, outbuf: array<Word>, n: nat, len: nat, end: nat, ghost rest: seq<Byte>)
    returns (n': nat, len': nat)
    requires inbuf.Length == BlockBufferSize(b) && outbuf.Length == b && t.Valid() && outbuf != t.fcm && outbuf != t.dfcm
    requires ReadBlocks(b, t.View(), rest, n, len).Some? && end == Min(|rest|, len) <= inbuf.Length && inbuf[..end] == rest[..end]
    modifies t, t.fcm, t.dfcm, outbuf
    ensures t.Valid() && n <= b
    ensures n' == 0 ==> old(ReadBlocks(b, t.View(), rest, n, len)) == Some(outbuf[..n])
    ensures n' > 0 ==> end >= 6
    ensures n' > 0 ==> var more := ReadBlocks(b, t.View(), rest[end..], n', len');
                       more.Some? && old(ReadBlocks(b, t.View(), rest, n, len)) == Some(outbuf[..n] + more.value)
  {
    hide *;
    ViewIsValid(t);
    ReadableBlock(b, t.View(), rest, n, len);
    var next := DecodeBlock(b, t, inbuf, end, n, outbuf);
    n', len' := 0, len;
    if end >= next + 6 {
      n', len' := ReadHeader(inbuf, next);
      SameSlices(inbuf[..], rest, end, next);
    }
  }

  lemma SameSlices(buf: seq<Byte>, rest: seq<Byte>, end: nat, next: nat)
    requires next + 6 <= end <= |buf| && end <= |rest| && buf[..end] == rest[..end]
    ensures buf[next..next + 3] == rest[next..next + 3]
    ensures buf[next + 3..next + 6] == rest[next + 3..next + 6]
  {
    assert buf[next..next + 3] == buf[..end][next..next + 3] == rest[..end][next..next + 3];
    assert buf[next + 3..next + 6] == buf[..end][next + 3..next + 6] == rest[..end][next + 3..next + 6];
  }
}
