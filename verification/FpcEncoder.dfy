/** The encoder of the in-memory FPC compressor, step by step on its tables and block buffers. */
module FpcEncoder {
  import opened Words
  import opened FpcPredictor
  import opened FpcFormat
  import opened FpcRoundTrip

  /** The hash tables and registers that a run keeps from value to value and from block to block. */
  class Tables {
    const mask: Word
    const fcm: array<Word>
    const dfcm: array<Word>
    var hash: Word
    var dhash: Word
    var lastval: Word
    var pred1: Word
    var pred2: Word

    ghost function View(): Predictor
      reads this, fcm, dfcm
    {
      Predictor(mask, fcm[..], dfcm[..], hash, dhash, lastval, pred1, pred2)
    }

    ghost predicate Valid()
      reads this, fcm, dfcm
    {
      fcm != dfcm && View().Valid()
    }

    constructor (level: Byte)
      requires level <= 62
      ensures Valid() && fresh(fcm) && fresh(dfcm)
      ensures View() == Initial(level)
    {
      ZeroIndex();
      hide Index;
      mask := TableMask(level);
      fcm := new Word[Index(TableMask(level)) + 1](_ => 0);
      dfcm := new Word[Index(TableMask(level)) + 1](_ => 0);
      hash, dhash, lastval, pred1, pred2 := 0, 0, 0, 0, 0;
      new;
      assert fcm[..] == Initial(level).fcm;
      assert dfcm[..] == Initial(level).dfcm;
    }

    /** The encoder's part of a step: both candidate residuals, then the update. */
    method Encode(val: Word) returns (xor1: Word, xor2: Word)
      requires Valid()
      modifies this, fcm, dfcm
      ensures Valid() && View() == EncoderUpdate(old(View()), val)
      ensures xor1 == Xor1(old(View()), val) && xor2 == Xor2(old(View()), val)
    {
      hide Index, NextHash, NextDHash, Xor, Add, Sub, EncoderUpdate;
      ghost var p := View();
      xor1 := Xor(val, pred1);
      UpdateFcm(val);
      xor2 := Xor(val, Add(lastval, pred2));
      UpdateStride(val, p);
    }

    /** The second half of the encoder's update. */
    method UpdateStride(val: Word, ghost p: Predictor)
      requires Valid() && p.Valid() && lastval == p.lastval && dfcm[..] == p.dfcm && dhash == p.dhash
      requires mask == p.mask && fcm[..] == p.fcm[Index(p.hash) := val] && hash == NextHash(p.hash, val, p.mask) && pred1 == fcm[Index(hash)]
      modifies `lastval, `dhash, `pred2, dfcm
      ensures Valid() && View() == EncoderUpdate(p, val)
    {
      hide Index, NextHash, NextDHash, Sub, EncoderUpdate;
      var stride := Sub(val, lastval);
      lastval := val;
      UpdateDfcm(stride);
      pred2 := dfcm[Index(dhash)];
      EncoderUpdateIs(p, val, View());
    }

    /** The decoder's part of a step: the value from its residual, then the update. */
    method Decode(residual: Word, second: bool) returns (val: Word)
      requires Valid()
      modifies this, fcm, dfcm
      ensures val == Xor(residual, Prediction(old(View()), second))
      ensures Valid() && View() == DecoderUpdate(old(View()), val)
    {
      hide Index, NextHash, NextDHash, Xor, Add, Sub, DecoderUpdate;
      if second {
        pred1 := pred2;
      }
      val := Xor(residual, pred1);
      ghost var p := old(View());
      UpdateFcm(val);
      UpdateDfcm(Sub(val, lastval));
      pred2 := Add(val, dfcm[Index(dhash)]);
      lastval := val;
      DecoderUpdateIs(p, val, View());
    }

    /** The value goes where the hash points, and the prediction comes from where it points then. */
    method UpdateFcm(val: Word)
      requires Valid()
      modifies `hash, `pred1, fcm
      ensures Valid() && fcm[..] == old(fcm[..])[Index(old(hash)) := val] && dfcm[..] == old(dfcm[..])
      ensures hash == NextHash(old(hash), val, mask) && pred1 == fcm[Index(hash)]
    {
      hide Index, NextHash, NextDHash;
      HashesStayInTable(hash, val, mask);
      fcm[Index(hash)] := val;
      hash := NextHash(hash, val, mask);
      pred1 := fcm[Index(hash)];
    }

    method UpdateDfcm(stride: Word)
      requires Valid()
      modifies `dhash, dfcm
      ensures Valid() && dfcm[..] == old(dfcm[..])[Index(old(dhash)) := stride] && fcm[..] == old(fcm[..])
      ensures dhash == NextDHash(old(dhash), stride, mask)
    {
      hide Index, NextHash, NextDHash;
      HashesStayInTable(dhash, stride, mask);
      dfcm[Index(dhash)] := stride;
      dhash := NextDHash(dhash, stride, mask);
    }
  }

  /** The cascade of tests that picks a length code. */
  method PickLengthCode(residual: Word) returns (bcode: Byte)
    ensures bcode == LengthCode(residual)
  {
    bcode := 7;
    if residual >> 56 == 0 { bcode := 6; }
    if residual >> 48 == 0 { bcode := 5; }
    if residual >> 40 == 0 { bcode := 4; }
    if residual >> 24 == 0 { bcode := 3; }
    if residual >> 16 == 0 { bcode := 2; }
    if residual >> 8 == 0 { bcode := 1; }
    if residual == 0 { bcode := 0; }
  }

  /** A store at the last possible offset ends at the end of the block buffer. */
  lemma StoreInBuffer(b: BlockSize, out: nat)
    requires out <= 6 + b / 2 + 8 * (b - 1)
    ensures Aligned(out) + 16 <= BlockBufferSize(b)
  {
    HalfBlock(b);
    var words := b / 16 + b;
    LastWord(out, words - 1);
    assert BlockBufferSize(b) == 8 * words + 8;
  }

  lemma LastWord(out: nat, q: nat)
    requires out < 8 * q + 8
    ensures Aligned(out) <= 8 * q
  {
    assert out == 8 * (out / 8) + out % 8;
  }

  lemma BufferHolds(b: BlockSize, n: nat)
    requires n <= b
    ensures 6 + n / 2 <= BlockBufferSize(b)
  {
  }

  lemma ViewIsValid(t: Tables)
    requires t.Valid()
    ensures t.View().Valid()
  {
  }

  // ----- Encoding -----

  /** The 64-bit values in the input buffer of a block. */
  function ValuesIn(inbuf: seq<Byte>, n: nat): (vals: seq<Word>)
    requires 8 * n <= |inbuf|
    ensures |vals| == n
  {
    seq(n, i requires 0 <= i < n => Join(inbuf[8 * i..8 * i + 8]))
  }

  /** What one value adds to the block buffer: its residual bytes at `out`, zeros up to the end of the
      word that follows, nothing below `out`. */
  ghost predicate Appended(was: seq<Byte>, now: seq<Byte>, out: nat, bytes: seq<Byte>) {
    && out + |bytes| <= Aligned(out + |bytes|) + 8 <= |now| == |was|
    && now[..out] == was[..out]
    && now[out..out + |bytes|] == bytes
    && now[out + |bytes|..Aligned(out + |bytes|) + 8] == Zeros(Aligned(out + |bytes|) + 8 - (out + |bytes|))
  }

  lemma WordAppended(was: seq<Byte>, now: seq<Byte>, out: nat, residual: Word, n: nat)
    requires n <= 8 && Fits(residual, n) && Aligned(out) + 16 <= |was|
    requires now == was[..out] + Bytes(residual) + Zeros(Aligned(out) + 8 - out) + was[Aligned(out) + 16..]
    ensures Appended(was, now, out, Bytes(residual)[..n])
  {
    hide Bytes;
    assert Bytes(residual) == Bytes(residual)[..n] + Zeros(8 - n);
  }

  /** One value: predict, choose, append the residual. */
  method EncodeValue(t: Tables, val: Word, outbuf: array<Byte>, out: nat) returns (nibble: Byte, out': nat)
    requires t.Valid() && Aligned(out) + 16 <= outbuf.Length
    requires outbuf[out..Aligned(out) + 8] == Zeros(Aligned(out) + 8 - out)
    modifies t, t.fcm, t.dfcm, outbuf
    ensures t.Valid() && t.View() == EncoderUpdate(old(t.View()), val)
    ensures nibble == Nibble(old(t.View()), val)
    ensures out' == out + |ResidualBytes(old(t.View()), val)|
    ensures Appended(old(outbuf[..]), outbuf[..], out, ResidualBytes(old(t.View()), val))
  {
    hide Bytes, EncoderUpdate, Xor1, Xor2, Above, LengthCode, Width, Aligned, Fits, Appended, Zeros;
    var xor1, xor2 := t.Encode(val);
    var code: Byte := 0;
    if Above(xor1, xor2) {
      code := 0x8;
      xor1 := xor2;
    }
    var bcode := PickLengthCode(xor1);
    AppendResidual(outbuf, out, xor1);
    WidthValues(bcode);
    out' := out + Width(bcode);
    nibble := code | bcode;
    LengthCodeIsLeast(xor1, bcode);
    WordAppended(old(outbuf[..]), outbuf[..], out, xor1, Width(bcode));
  }

  /** After `i` values: their residual bytes lie between `start` and `out`, and the rest of the word
      at `out` is zero. */
  ghost predicate PayloadWritten(p: Predictor, vals: seq<Word>, i: nat, start: nat, buf: seq<Byte>, out: nat)
    requires p.Valid() && i <= |vals|
  {
    && out == start + |Payload(p, vals[..i])|
    && out <= Aligned(out) + 8 <= |buf|
    && buf[start..out] == Payload(p, vals[..i])
    && buf[out..Aligned(out) + 8] == Zeros(Aligned(out) + 8 - out)
  }

  lemma PayloadGrows(p: Predictor, vals: seq<Word>, i: nat, start: nat, was: seq<Byte>, out: nat, now: seq<Byte>)
    requires p.Valid() && i < |vals| && PayloadWritten(p, vals, i, start, was, out)
    requires Appended(was, now, out, ResidualBytes(After(p, vals[..i]), vals[i]))
    ensures PayloadWritten(p, vals, i + 1, start, now, out + |ResidualBytes(After(p, vals[..i]), vals[i])|)
    ensures now[..start] == was[..start]
  {
    hide Payload, ResidualBytes, After, Aligned, Zeros, Cost, Residual, EncoderUpdate, Index;
    PayloadNext(p, vals, i);
    SliceGrows(was, now, start, out, ResidualBytes(After(p, vals[..i]), vals[i]));
  }

  lemma SliceGrows(was: seq<Byte>, now: seq<Byte>, start: nat, out: nat, r: seq<Byte>)
    requires start <= out <= |was| && out + |r| <= |now|
    requires now[..out] == was[..out] && now[out..out + |r|] == r
    ensures now[start..out + |r|] == was[start..out] + r
    ensures now[..start] == was[..start]
  {
    assert now[start..out] == now[..out][start..] == was[start..out];
    assert now[..start] == now[..out][..start] == was[..start];
  }

  lemma PayloadKept(p: Predictor, vals: seq<Word>, i: nat, start: nat, was: seq<Byte>, out: nat, now: seq<Byte>)
    requires p.Valid() && i <= |vals| && PayloadWritten(p, vals, i, start, was, out)
    requires |now| == |was| && now[start..] == was[start..]
    ensures PayloadWritten(p, vals, i, start, now, out)
  {
    hide Payload, Aligned, Zeros;
    SameSlice(was, now, start, start, out);
    SameSlice(was, now, start, out, Aligned(out) + 8);
  }

  lemma SameSlice(was: seq<Byte>, now: seq<Byte>, start: nat, i: nat, j: nat)
    requires start <= i <= j <= |was| == |now| && now[start..] == was[start..]
    ensures now[i..j] == was[i..j]
  {
    forall k | i <= k < j
      ensures now[k] == was[k]
    {
      assert now[start..][k - start] == was[start..][k - start];
    }
  }

  lemma RoomForValue(b: BlockSize, p: Predictor, vals: seq<Word>, i: nat, out: nat)
    requires p.Valid() && i < |vals| <= b && |vals| % 2 == 0
    requires out == 6 + |vals| / 2 + |Payload(p, vals[..i])|
    ensures Aligned(out) + 16 <= BlockBufferSize(b)
  {
    hide Payload;
    StoreInBuffer(b, out);
  }

  /** The next value of a block. */
  method EncodeNext(b: BlockSize, t: Tables, val: Word, outbuf: array<Byte>, out: nat,
                    ghost p: Predictor, ghost vals: seq<Word>, ghost i: nat) returns (nibble: Byte, out': nat)
    requires i < |vals| <= b && |vals| % 2 == 0 && vals[i] == val
    requires t.Valid() && p.Valid() && t.View() == After(p, vals[..i])
    requires outbuf.Length == BlockBufferSize(b)
    requires PayloadWritten(p, vals, i, 6 + |vals| / 2, outbuf[..], out)
    modifies t, t.fcm, t.dfcm, outbuf
    ensures t.Valid() && t.View() == After(p, vals[..i + 1])
    ensures PayloadWritten(p, vals, i + 1, 6 + |vals| / 2, outbuf[..], out')
    ensures out <= out' == 6 + |vals| / 2 + |Payload(p, vals[..i + 1])|
    ensures outbuf[..6 + |vals| / 2] == old(outbuf[..6 + |vals| / 2])
    ensures nibble == Nibble(After(p, vals[..i]), val)
  {
    hide *;
    ghost var start, was := 6 + |vals| / 2, outbuf[..];
    WrittenFacts(p, vals, i, start, was, out);
    RoomForValue(b, p, vals, i, out);
    nibble, out' := EncodeValue(t, val, outbuf, out);
    PayloadGrows(p, vals, i, start, was, out, outbuf[..]);
    WrittenFacts(p, vals, i + 1, start, outbuf[..], out');
    AfterNext(p, vals, i);
  }

  /** Storing a code byte does not touch the residuals. */
  method PutCode(outbuf: array<Byte>, at: nat, code: Byte,
                 ghost p: Predictor, ghost vals: seq<Word>, ghost i: nat, ghost start: nat, ghost out: nat)
    requires p.Valid() && i <= |vals| && at < start <= outbuf.Length
    requires PayloadWritten(p, vals, i, start, outbuf[..], out)
    modifies outbuf
    ensures PayloadWritten(p, vals, i, start, outbuf[..], out)
    ensures outbuf[..] == old(outbuf[..])[at := code]
  {
    hide PayloadWritten;
    ghost var was := outbuf[..];
    outbuf[at] := code;
    PayloadKept(p, vals, i, start, was, out, outbuf[..]);
  }

  /** One turn of the block loop: two values, two residuals, one code byte. */
  method EncodePair(b: BlockSize, t: Tables, first: Word, second: Word, outbuf: array<Byte>, k: nat, out: nat,
                    ghost p: Predictor, ghost vals: seq<Word>, ghost start: nat) returns (out': nat, last: nat)
    requires 2 * k + 1 < |vals| <= b && |vals| % 2 == 0 && vals[2 * k] == first && vals[2 * k + 1] == second
    requires t.Valid() && p.Valid() && t.View() == After(p, vals[..2 * k])
    requires outbuf.Length == BlockBufferSize(b) && start == 6 + |vals| / 2
    requires PayloadWritten(p, vals, 2 * k, start, outbuf[..], out)
    modifies t, t.fcm, t.dfcm, outbuf
    ensures t.Valid() && t.View() == After(p, vals[..2 * k + 2])
    ensures PayloadWritten(p, vals, 2 * k + 2, start, outbuf[..], out')
    ensures last <= out' && out' - last == start + |Payload(p, vals[..2 * k + 1])|
    ensures outbuf[..6 + k] == old(outbuf[..6 + k])
    ensures outbuf[6 + k] == CodeByte(p, vals, k)
  {
    hide *;
    BufferHolds(b, |vals|);
    var high, mid := EncodeNext(b, t, first, outbuf, out, p, vals, 2 * k);
    var low;
    low, out' := EncodeNext(b, t, second, outbuf, mid, p, vals, 2 * k + 1);
    last := out' - mid;
    PairIs(p, vals, k);
    hide CodeByte;
    PrefixKept(old(outbuf[..]), outbuf[..], start, 6 + k);
    PutCode(outbuf, 6 + k, PairByte(high, low), p, vals, 2 * k + 2, start, out');
  }

  lemma PrefixKept(was: seq<Byte>, now: seq<Byte>, start: nat, at: nat)
    requires at <= start <= |was| == |now| && now[..start] == was[..start]
    ensures now[..at] == was[..at]
  {
    assert now[..start][..at] == was[..start][..at];
  }

  lemma WrittenFacts(p: Predictor, vals: seq<Word>, i: nat, start: nat, buf: seq<Byte>, out: nat)
    requires p.Valid() && i <= |vals| && PayloadWritten(p, vals, i, start, buf, out)
    ensures out == start + |Payload(p, vals[..i])|
    ensures out <= Aligned(out) + 8 <= |buf|
    ensures buf[out..Aligned(out) + 8] == Zeros(Aligned(out) + 8 - out)
  {
  }

  lemma PairIs(p: Predictor, vals: seq<Word>, k: nat)
    requires p.Valid() && 2 * k + 1 < |vals|
    ensures CodeByte(p, vals, k) == PairByte(Nibble(After(p, vals[..2 * k]), vals[2 * k]), Nibble(After(p, vals[..2 * k + 1]), vals[2 * k + 1]))
  {
    hide PairByte, Nibble, After;
  }

  ghost predicate CodesWritten(p: Predictor, vals: seq<Word>, k: nat, buf: seq<Byte>)
    requires p.Valid() && 2 * k <= |vals|
  {
    6 + k <= |buf| && forall j | 0 <= j < k :: buf[6 + j] == CodeByte(p, vals, j)
  }

  lemma CodesGrow(p: Predictor, vals: seq<Word>, k: nat, was: seq<Byte>, now: seq<Byte>)
    requires p.Valid() && 2 * k + 1 < |vals| && CodesWritten(p, vals, k, was)
    requires 6 + k < |now| && now[..6 + k] == was[..6 + k] && now[6 + k] == CodeByte(p, vals, k)
    ensures CodesWritten(p, vals, k + 1, now)
  {
    hide CodeByte;
    forall j | 0 <= j < k
      ensures now[6 + j] == CodeByte(p, vals, j)
    {
      assert now[6 + j] == now[..6 + k][6 + j] == was[..6 + k][6 + j];
    }
  }

  lemma PayloadStarts(p: Predictor, vals: seq<Word>, start: nat, buf: seq<Byte>)
    requires p.Valid() && Aligned(start) + 8 <= |buf|
    requires buf[Aligned(start)..Aligned(start) + 8] == Zeros(8)
    ensures PayloadWritten(p, vals, 0, start, buf, start)
  {
    assert vals[..0] == [];
    var a := Aligned(start);
    assert buf[start..a + 8] == buf[a..a + 8][start - a..];
  }

  /** A new block: the word that the first residual starts in is cleared. */
  method StartBlock(b: BlockSize, outbuf: array<Byte>, start: nat, ghost p: Predictor, ghost vals: seq<Word>)
    requires p.Valid() && 0 < |vals| <= b && |vals| % 2 == 0
    requires outbuf.Length == BlockBufferSize(b) && start == 6 + |vals| / 2
    modifies outbuf
    ensures PayloadWritten(p, vals, 0, start, outbuf[..], start)
  {
    hide Bytes, PayloadWritten;
    StoreWord(outbuf, Aligned(start), 0);
    ZeroBytes();
    PayloadStarts(p, vals, start, outbuf[..]);
  }

  method PutHeader(outbuf: array<Byte>, intot: nat, out: nat)
    requires 6 <= outbuf.Length
    modifies outbuf
    ensures outbuf[..] == Header24(intot) + Header24(out) + old(outbuf[6..])
  {
    hide ByteOf;
    outbuf[0] := ByteOf(intot % 256);
    outbuf[1] := ByteOf(intot / 256 % 256);
    outbuf[2] := ByteOf(intot / 65536 % 256);
    outbuf[3] := ByteOf(out % 256);
    outbuf[4] := ByteOf(out / 256 % 256);
    outbuf[5] := ByteOf(out / 65536 % 256);
  }

  /** Codes, residuals and header in the buffer make an encoded block, an odd one without the residual
      of its padding. */
  lemma BlockAssembled(p: Predictor, vals: seq<Word>, slot: Word, padded: seq<Word>, body: seq<Byte>, out': nat, buf: seq<Byte>, out: nat)
    requires p.Valid() && padded == Padded(vals, slot)
    requires CodesWritten(p, padded, |padded| / 2, body)
    requires PayloadWritten(p, padded, |padded|, 6 + |padded| / 2, body, out')
    requires out == 6 + |padded| / 2 + |Payload(p, vals)| && |body| >= 6
    requires buf == Header24(|vals|) + Header24(out) + body[6..]
    ensures out <= |buf| && buf[..out] == EncodeBlock(p, vals, slot)
  {
    hide Payload, CodesWritten, PayloadWritten, Header24, Codes, Padded;
    PaddedPrefix(vals, slot);
    WholePayload(p, padded, |vals|, 6 + |padded| / 2, body, out');
    CodesSlice(p, padded, body);
    Assembled(Header24(|vals|) + Header24(out), Codes(p, padded), Payload(p, padded), body, 6 + |padded| / 2, out', out, buf);
  }

  lemma PaddedPrefix(vals: seq<Word>, slot: Word)
    ensures |vals| <= |Padded(vals, slot)| && Padded(vals, slot)[..|vals|] == vals
    ensures |Padded(vals, slot)| / 2 == (|vals| + 1) / 2
  {
  }

  lemma WholePayload(p: Predictor, vals: seq<Word>, n: nat, start: nat, body: seq<Byte>, out': nat)
    requires p.Valid() && n <= |vals| && PayloadWritten(p, vals, |vals|, start, body, out')
    ensures start <= out' <= |body| && body[start..out'] == Payload(p, vals)
    ensures start + |Payload(p, vals[..n])| <= out'
    ensures Payload(p, vals)[..|Payload(p, vals[..n])|] == Payload(p, vals[..n])
  {
    hide Payload, Aligned, Zeros;
    assert vals[..|vals|] == vals;
    PayloadPrefix(p, vals, n);
  }

  lemma CodesSlice(p: Predictor, vals: seq<Word>, body: seq<Byte>)
    requires p.Valid() && CodesWritten(p, vals, |vals| / 2, body)
    ensures body[6..6 + |vals| / 2] == Codes(p, vals)
  {
    hide CodeByte;
  }

  lemma Assembled(head: seq<Byte>, codes: seq<Byte>, all: seq<Byte>, body: seq<Byte>, start: nat, out': nat, out: nat, buf: seq<Byte>)
    requires |head| == 6 <= start <= out <= out' <= |body|
    requires body[6..start] == codes && body[start..out'] == all && buf == head + body[6..]
    ensures out <= |buf| && buf[..out] == head + codes + all[..out - start]
  {
    assert body[start..out] == body[start..out'][..out - start];
    assert body[6..out] == body[6..start] + body[start..out];
    assert buf[..out] == head + body[6..out];
  }

  lemma PaddedValues(inbuf: seq<Byte>, n: nat)
    requires 8 * (n + 1) <= |inbuf|
    ensures Padded(ValuesIn(inbuf, n), Join(inbuf[8 * n..8 * n + 8])) == ValuesIn(inbuf, |inbuf| / 8)[..(n + 1) / 2 * 2]
  {
    hide Join;
  }

  /** The state of the block loop after `k` turns. */
  ghost predicate BlockState(p: Predictor, vals: seq<Word>, k: nat, view: Predictor, buf: seq<Byte>, out: nat, last: nat)
    requires p.Valid() && 2 * k <= |vals|
  {
    && view == After(p, vals[..2 * k])
    && PayloadWritten(p, vals, 2 * k, 6 + |vals| / 2, buf, out)
    && CodesWritten(p, vals, k, buf)
    && (k > 0 ==> last <= out && out - last == 6 + |vals| / 2 + |Payload(p, vals[..2 * k - 1])|)
  }

  method EncodeTurn(b: BlockSize, t: Tables, first: Word, second: Word, outbuf: array<Byte>, k: nat, out: nat,
                    ghost last: nat, ghost p: Predictor, ghost vals: seq<Word>) returns (out': nat, last': nat)
    requires 2 * k + 1 < |vals| <= b && |vals| % 2 == 0 && vals[2 * k] == first && vals[2 * k + 1] == second
    requires outbuf.Length == BlockBufferSize(b) && p.Valid() && t.Valid()
    requires BlockState(p, vals, k, t.View(), outbuf[..], out, last)
    modifies t, t.fcm, t.dfcm, outbuf
    ensures t.Valid() && BlockState(p, vals, k + 1, t.View(), outbuf[..], out', last')
  {
    hide Payload, After, CodeByte, PayloadWritten, CodesWritten;
    ghost var was := outbuf[..];
    out', last' := EncodePair(b, t, first, second, outbuf, k, out, p, vals, 6 + |vals| / 2);
    CodesGrow(p, vals, k, was, outbuf[..]);
  }

  method LoadValue(inbuf: array<Byte>, j: nat, n: nat) returns (w: Word)
    requires j < n && 8 * n == inbuf.Length
    ensures w == ValuesIn(inbuf[..], n)[j]
  {
    hide Join;
    w := LoadWord(inbuf, 8 * j);
    ValueAt(inbuf[..], n, j);
    assert inbuf[..][8 * j..8 * j + 8] == inbuf[8 * j..8 * j + 8];
  }

  /** The loop over the values of a block, two at a time. The value fetched ahead after the last one is
      whatever the input buffer holds. */
  method EncodeValues(b: BlockSize, t: Tables, inbuf: array<Byte>, intot: nat, outbuf: array<Byte>, ghost p: Predictor, ghost vals: seq<Word>)
    returns (out: nat, last: nat)
    requires 0 < intot <= b && inbuf.Length == 8 * (b + 1) && outbuf.Length == BlockBufferSize(b) && inbuf != outbuf
    requires p.Valid() && t.Valid() && t.View() == p
    requires |vals| == (intot + 1) / 2 * 2 <= b && vals == ValuesIn(inbuf[..], b + 1)[..|vals|]
    modifies t, t.fcm, t.dfcm, outbuf
    ensures t.Valid() && BlockState(p, vals, |vals| / 2, t.View(), outbuf[..], out, last)
  {
    hide *;
    BufferHolds(b, |vals|);
    ghost var all, k := ValuesIn(inbuf[..], b + 1), 0;
    var val := LoadValue(inbuf, 0, b + 1);
    out := 6 + (intot + 1) / 2;
    StartBlock(b, outbuf, out, p, vals);
    StartState(p, vals, outbuf[..], out);
    var i := 0;
    last := 0;
    while i < intot
      invariant i == 2 * k <= |vals|
      invariant t.Valid() && BlockState(p, vals, k, t.View(), outbuf[..], out, last)
      invariant val == all[i]
    {
      var next := LoadValue(inbuf, i + 1, b + 1);
      out, last := EncodeTurn(b, t, val, next, outbuf, i / 2, out, last, p, vals);
      val := LoadValue(inbuf, i + 2, b + 1);
      i, k := i + 2, k + 1;
    }
  }

  /** A block: `intot` values from the input buffer into the block buffer. The value that pads an odd
      block is whatever the input buffer holds after the last one. */
  method EncodeBlockInto(b: BlockSize, t: Tables, inbuf: array<Byte>, intot: nat, outbuf: array<Byte>) returns (out: nat, ghost slot: Word)
    requires 0 < intot <= b && inbuf.Length == 8 * (b + 1) && outbuf.Length == BlockBufferSize(b) && inbuf != outbuf
    requires t.Valid()
    modifies t, t.fcm, t.dfcm, outbuf
    ensures t.Valid() && t.View() == After(old(t.View()), Padded(ValuesIn(inbuf[..], intot), slot))
    ensures out <= outbuf.Length && outbuf[..out] == EncodeBlock(old(t.View()), ValuesIn(inbuf[..], intot), slot)
  {
    hide *;
    ViewIsValid(t);
    BufferHolds(b, intot);
    ghost var p, values := t.View(), ValuesIn(inbuf[..], intot);
    slot := Join(inbuf[8 * intot..8 * intot + 8]);
    ghost var padded := Padded(values, slot);
    PaddedValues(inbuf[..], intot);
    var last;
    out, last := EncodeValues(b, t, inbuf, intot, outbuf, p, padded);
    LastInside(p, padded, t.View(), outbuf[..], out, last);
    ghost var body, out' := outbuf[..], out;
    if intot % 2 != 0 {
      out := out - last;
    }
    PutHeader(outbuf, intot, out);
    BlockFinished(p, values, slot, t.View(), body, out', last, outbuf[..], out);
  }

  lemma LastInside(p: Predictor, vals: seq<Word>, view: Predictor, buf: seq<Byte>, out: nat, last: nat)
    requires p.Valid() && |vals| % 2 == 0 && vals != [] && BlockState(p, vals, |vals| / 2, view, buf, out, last)
    ensures last <= out
  {
    hide After, PayloadWritten, CodesWritten, Payload;
  }

  /** After the loop and the header the block is complete, an odd one cut before the residual of its
      padding. */
  lemma BlockFinished(p: Predictor, vals: seq<Word>, slot: Word, view: Predictor, body: seq<Byte>, out': nat, last: nat, buf: seq<Byte>, out: nat)
    requires p.Valid() && vals != [] && |body| >= 6
    requires BlockState(p, Padded(vals, slot), |Padded(vals, slot)| / 2, view, body, out', last)
    requires out == if |vals| % 2 == 0 then out' else out' - last
    requires buf == Header24(|vals|) + Header24(out) + body[6..]
    ensures view == After(p, Padded(vals, slot))
    ensures out <= |buf| && buf[..out] == EncodeBlock(p, vals, slot)
  {
    var padded := Padded(vals, slot);
    PaddedPrefix(vals, slot);
    assert padded[..|padded|] == padded;
    BlockEnd(p, padded, vals, view, body, out', last);
    hide *;
    BlockAssembled(p, vals, slot, padded, body, out', buf, out);
  }

  lemma BlockEnd(p: Predictor, padded: seq<Word>, vals: seq<Word>, view: Predictor, buf: seq<Byte>, out: nat, last: nat)
    requires p.Valid() && |padded| % 2 == 0 && vals != [] && BlockState(p, padded, |padded| / 2, view, buf, out, last)
    requires |vals| <= |padded| <= |vals| + 1 && padded[..|vals|] == vals && padded[..|padded|] == padded
    ensures view == After(p, padded) && CodesWritten(p, padded, |padded| / 2, buf)
    ensures PayloadWritten(p, padded, |padded|, 6 + |padded| / 2, buf, out)
    ensures 6 + |padded| / 2 + |Payload(p, vals)| == if |vals| == |padded| then out else out - last
  {
    hide CodesWritten, After, Payload;
    assert 2 * (|padded| / 2) == |padded|;
  }

  lemma StartState(p: Predictor, vals: seq<Word>, buf: seq<Byte>, out: nat)
    requires p.Valid() && 6 <= |buf| && PayloadWritten(p, vals, 0, 6 + |vals| / 2, buf, out)
    ensures BlockState(p, vals, 0, p, buf, out, 0)
  {
    hide PayloadWritten;
  }

  lemma ValueAt(inbuf: seq<Byte>, n: nat, j: nat)
    requires 8 * n <= |inbuf| && j < n
    ensures ValuesIn(inbuf, n)[j] == Join(inbuf[8 * j..8 * j + 8])
  {
    hide Join;
  }
}
