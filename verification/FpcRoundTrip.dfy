/** Reading an encoded stream gives the values back. */
module FpcRoundTrip {
  import opened Wrappers
  import opened Words
  import opened FpcPredictor
  import opened FpcFormat

  // ----- The code and residual bytes of one value inside a block -----

  /** The residuals of the first values come first. */
  lemma {:induction false} PayloadPrefix(p: Predictor, vals: seq<Word>, k: nat)
    requires p.Valid() && k <= |vals|
    ensures Payload(p, vals[..k]) <= Payload(p, vals)
  {
    hide ResidualBytes, After;
    if k < |vals| {
      PayloadPrefix(p, Init(vals), k);
      assert Init(vals)[..k] == vals[..k];
    } else {
      assert vals[..k] == vals;
    }
  }

  lemma PayloadNext(p: Predictor, vals: seq<Word>, k: nat)
    requires p.Valid() && k < |vals|
    ensures Payload(p, vals[..k + 1]) == Payload(p, vals[..k]) + ResidualBytes(After(p, vals[..k]), vals[k])
  {
    hide ResidualBytes, After;
    assert Init(vals[..k + 1]) == vals[..k] && Last(vals[..k + 1]) == vals[k];
  }

  lemma AfterNext(p: Predictor, vals: seq<Word>, k: nat)
    requires p.Valid() && k < |vals|
    ensures After(p, vals[..k + 1]) == EncoderUpdate(After(p, vals[..k]), vals[k])
  {
    hide EncoderUpdate;
    assert Init(vals[..k + 1]) == vals[..k] && Last(vals[..k + 1]) == vals[k];
  }

  lemma NibbleSmall(p: Predictor, vals: seq<Word>, k: nat)
    requires p.Valid() && k < |vals|
    ensures NibbleAt(p, vals, k) < 16
  {
    NibbleParts(After(p, vals[..k]), vals[k]);
    hide Nibble, After;
  }

  lemma CodesIndex(p: Predictor, vals: seq<Word>, i: nat)
    requires p.Valid() && 2 * i + 1 < |vals|
    ensures Codes(p, vals)[i] == CodeByte(p, vals, i)
  {
    hide CodeByte;
  }

  /** The reader finds the four bits of each value where the encoder put them. */
  lemma CodesAt(p: Predictor, vals: seq<Word>, rest: seq<Byte>, k: nat)
    requires p.Valid() && |vals| % 2 == 0 && k < |vals|
    ensures NibbleOf(Codes(p, vals) + rest, k) == NibbleAt(p, vals, k)
  {
    hide NibbleAt, HighNibble, LowNibble, PairByte, Codes;
    var i := k / 2;
    CodesIndex(p, vals, i);
    NibbleSmall(p, vals, 2 * i);
    NibbleSmall(p, vals, 2 * i + 1);
    PairParts(NibbleAt(p, vals, 2 * i), NibbleAt(p, vals, 2 * i + 1));
    assert (Codes(p, vals) + rest)[i] == CodeByte(p, vals, i);
  }

  lemma PaddedNibble(p: Predictor, vals: seq<Word>, slot: Word, k: nat)
    requires p.Valid() && k < |vals|
    ensures NibbleAt(p, Padded(vals, slot), k) == NibbleAt(p, vals, k)
  {
    hide Nibble, After;
    assert Padded(vals, slot)[..k] == vals[..k];
  }

  // ----- One block -----

  /** The bytes kept of a residual say what it was, and its nibble how many they are. */
  lemma ResidualKept(p: Predictor, val: Word)
    ensures |ResidualBytes(p, val)| <= 8 && FromLow(ResidualBytes(p, val)) == Residual(p, val)
    ensures Width(LengthBits(Nibble(p, val))) == |ResidualBytes(p, val)|
  {
    hide Bytes, FromLow, Width, LengthCode, Fits, Residual, Nibble, LengthBits, SecondBit, TakesSecond;
    var r := Residual(p, val);
    NibbleParts(p, val);
    LengthCodeIsLeast(r, LengthCode(r));
    FromLowFits(r, Cost(r));
  }

  lemma ReadValueIs(body: seq<Byte>, pos: nat, p: Predictor, nibble: Byte, r: seq<Byte>)
    requires pos + |r| <= |body| && body[pos..pos + |r|] == r && |r| <= 8
    requires Width(LengthBits(nibble)) == |r|
    ensures ReadValue(body, pos, p, nibble) == Some(Xor(FromLow(r), Prediction(p, SecondBit(nibble))))
  {
    hide Width, LengthBits, SecondBit, Xor, FromLow, Prediction;
  }

  /** The decoder in lockstep: it reads a residual and recovers the value. */
  lemma ReadOneBack(p: Predictor, val: Word, body: seq<Byte>, pos: nat)
    requires p.Valid()
    requires pos + |ResidualBytes(p, val)| <= |body|
    requires body[pos..pos + |ResidualBytes(p, val)|] == ResidualBytes(p, val)
    ensures ReadValue(body, pos, AsDecoder(p), Nibble(p, val)) == Some(val)
    ensures Width(LengthBits(Nibble(p, val))) == |ResidualBytes(p, val)|
    ensures DecoderUpdate(AsDecoder(p), val) == AsDecoder(EncoderUpdate(p, val))
  {
    hide *;
    NibbleParts(p, val);
    LockstepValue(p, val);
    ResidualKept(p, val);
    ReadValueIs(body, pos, AsDecoder(p), Nibble(p, val), ResidualBytes(p, val));
  }

  /** The body of an encoded block followed by anything. */
  function Body(p: Predictor, vals: seq<Word>, slot: Word, rest: seq<Byte>): (s: seq<Byte>)
    requires p.Valid()
    ensures |s| == (|vals| + 1) / 2 + |Payload(p, vals)| + |rest|
  {
    Codes(p, Padded(vals, slot)) + Payload(p, vals) + rest
  }

  lemma BodyNibble(p: Predictor, vals: seq<Word>, slot: Word, rest: seq<Byte>, k: nat)
    requires p.Valid() && k < |vals|
    ensures NibbleOf(Body(p, vals, slot, rest), k) == Nibble(After(p, vals[..k]), vals[k])
  {
    hide NibbleOf, Codes, Payload, Padded, Nibble, After;
    CodesAt(p, Padded(vals, slot), Payload(p, vals) + rest, k);
    PaddedNibble(p, vals, slot, k);
    assert Codes(p, Padded(vals, slot)) + Payload(p, vals) + rest == Codes(p, Padded(vals, slot)) + (Payload(p, vals) + rest);
  }

  lemma SliceOfConcat(c: seq<Byte>, q: seq<Byte>, r: seq<Byte>, payload: seq<Byte>, rest: seq<Byte>)
    requires q + r <= payload
    ensures |c| + |q| + |r| <= |c + payload + rest|
    ensures (c + payload + rest)[|c| + |q|..|c| + |q| + |r|] == r
  {
    assert payload == q + r + payload[|q| + |r|..];
  }

  lemma BodyResidual(p: Predictor, vals: seq<Word>, slot: Word, rest: seq<Byte>, k: nat)
    requires p.Valid() && k < |vals|
    ensures var pos := (|vals| + 1) / 2 + |Payload(p, vals[..k])|;
            var r := ResidualBytes(After(p, vals[..k]), vals[k]);
            && pos + |r| <= |Body(p, vals, slot, rest)|
            && Body(p, vals, slot, rest)[pos..pos + |r|] == r
            && pos + |r| == (|vals| + 1) / 2 + |Payload(p, vals[..k + 1])|
  {
    hide Codes, Padded, ResidualBytes, After, Payload;
    PayloadNext(p, vals, k);
    PayloadPrefix(p, vals, k + 1);
    SliceOfConcat(Codes(p, Padded(vals, slot)), Payload(p, vals[..k]), ResidualBytes(After(p, vals[..k]), vals[k]), Payload(p, vals), rest);
  }

  lemma ReadNext(p: Predictor, body: seq<Byte>, n: nat, k: nat, c: Cursor, val: Word)
    requires p.Valid() && (n + 1) / 2 <= |body| && k < n
    requires ReadValues(p, body, n, k) == Some(c)
    requires ReadValue(body, c.pos, c.p, NibbleOf(body, k)) == Some(val)
    ensures ReadValues(p, body, n, k + 1)
         == Some(Cursor(DecoderUpdate(c.p, val), c.pos + Width(LengthBits(NibbleOf(body, k))), c.vals + [val]))
  {
    hide NibbleOf, ReadValue, DecoderUpdate, Width, LengthBits;
  }

  /** Where the reader is, and what it has, after `k` values of an encoded block. */
  function CursorAt(p: Predictor, vals: seq<Word>, k: nat): (c: Cursor)
    requires p.Valid() && k <= |vals|
    ensures c.p.Valid()
  {
    Cursor(AsDecoder(After(p, vals[..k])), (|vals| + 1) / 2 + |Payload(p, vals[..k])|, vals[..k])
  }

  lemma ReadValueBack(p: Predictor, vals: seq<Word>, slot: Word, rest: seq<Byte>, k: nat)
    requires p.Valid() && k < |vals|
    ensures var body, c := Body(p, vals, slot, rest), CursorAt(p, vals, k);
            && ReadValue(body, c.pos, c.p, NibbleOf(body, k)) == Some(vals[k])
            && c.pos + Width(LengthBits(NibbleOf(body, k))) == CursorAt(p, vals, k + 1).pos
            && DecoderUpdate(c.p, vals[k]) == CursorAt(p, vals, k + 1).p
  {
    hide Body, NibbleOf, ReadValue, Nibble, EncoderUpdate, DecoderUpdate, AsDecoder, ResidualBytes, Width, LengthBits, After, Payload;
    BodyNibble(p, vals, slot, rest, k);
    BodyResidual(p, vals, slot, rest, k);
    ReadOneBack(After(p, vals[..k]), vals[k], Body(p, vals, slot, rest), CursorAt(p, vals, k).pos);
    AfterNext(p, vals, k);
  }

  lemma CursorStart(p: Predictor, vals: seq<Word>)
    requires p.Valid()
    ensures CursorAt(p, vals, 0) == Cursor(AsDecoder(p), (|vals| + 1) / 2, [])
  {
    hide AsDecoder;
    assert vals[..0] == [];
  }

  lemma CursorVals(p: Predictor, vals: seq<Word>, k: nat)
    requires p.Valid() && k < |vals|
    ensures CursorAt(p, vals, k + 1).vals == CursorAt(p, vals, k).vals + [vals[k]]
  {
    hide AsDecoder, After, Payload;
    assert vals[..k] + [vals[k]] == vals[..k + 1];
  }

  /** Before every value the reader's predictor is the encoder's, with the second prediction added
      up, and the reader has all values so far. */
  lemma {:induction false} ReadBlockBack(p: Predictor, vals: seq<Word>, slot: Word, rest: seq<Byte>, k: nat)
    requires p.Valid() && k <= |vals|
    ensures ReadValues(AsDecoder(p), Body(p, vals, slot, rest), |vals|, k) == Some(CursorAt(p, vals, k))
  {
    hide *;
    if k == 0 {
      CursorStart(p, vals);
      NothingRead(AsDecoder(p), Body(p, vals, slot, rest), |vals|);
    } else {
      ReadBlockBack(p, vals, slot, rest, k - 1);
      ReadValueBack(p, vals, slot, rest, k - 1);
      CursorVals(p, vals, k - 1);
      ReadNext(AsDecoder(p), Body(p, vals, slot, rest), |vals|, k - 1, CursorAt(p, vals, k - 1), vals[k - 1]);
    }
  }

  lemma NothingRead(p: Predictor, body: seq<Byte>, n: nat)
    requires p.Valid() && (n + 1) / 2 <= |body|
    ensures ReadValues(p, body, n, 0) == Some(Cursor(p, (n + 1) / 2, []))
  {
  }

  // ----- Chaining of blocks -----

  /** Length of a block as its header says it: header, code bytes and residual bytes. */
  function BlockBytes(p: Predictor, vals: seq<Word>): nat
    requires p.Valid()
  {
    6 + (|vals| + 1) / 2 + |Payload(p, vals)|
  }

  lemma BlockBytesFit(b: BlockSize, p: Predictor, vals: seq<Word>)
    requires p.Valid() && 0 < |vals| <= b
    ensures 6 < BlockBytes(p, vals) <= LongestBlock(b) < BlockBufferSize(b)
    ensures (|vals| + 1) / 2 <= BlockBytes(p, vals) - 6
  {
    hide Payload;
    LengthFits(b, |vals|, |Payload(p, vals)|);
  }

  lemma LengthFits(b: BlockSize, n: nat, payload: nat)
    requires 0 < n <= b && payload <= 8 * n
    ensures 6 + (n + 1) / 2 + payload <= LongestBlock(b) < BlockBufferSize(b)
  {
    BlockSizeIsEven(b);
    HalfGrows(n + 1, b);
  }

  /** Half of a number is at most half of an even one that is not below it, or one below. */
  lemma HalfGrows(n: nat, m: nat)
    requires n <= m + 1 && m % 2 == 0
    ensures n / 2 <= m / 2
  {
    assert m == 2 * (m / 2);
  }

  lemma BlocksUnfold(b: BlockSize, p: Predictor, vals: seq<Word>, slot: Word)
    requires p.Valid() && vals != []
    ensures var n := BlockLength(b, vals);
            EncodeBlocks(b, p, vals, slot) == EncodeBlock(p, vals[..n], slot) + EncodeBlocks(b, After(p, vals[..n]), vals[n..], slot)
  {
    hide EncodeBlock, After;
  }

  lemma BlockParts(p: Predictor, vals: seq<Word>, slot: Word, rest: seq<Byte>)
    requires p.Valid()
    ensures EncodeBlock(p, vals, slot) + rest == Header24(|vals|) + Header24(BlockBytes(p, vals)) + Body(p, vals, slot, rest)
  {
    hide Codes, Payload, Padded, Header24;
  }

  lemma HeaderParts(h: seq<Byte>, l: seq<Byte>, body: seq<Byte>)
    requires |h| == |l| == 3
    ensures var s := h + l + body; s[..3] == h && s[3..6] == l && s[6..] == body
  {
  }

  /** The header of the first block of a stream, and the part after it. */
  lemma EncodedBlockParts(b: BlockSize, p: Predictor, vals: seq<Word>, slot: Word)
    requires p.Valid() && vals != []
    ensures var n := BlockLength(b, vals);
            var s := EncodeBlocks(b, p, vals, slot);
            var rest := EncodeBlocks(b, After(p, vals[..n]), vals[n..], slot);
            && |s| == BlockBytes(p, vals[..n]) + |rest| && 6 < BlockBytes(p, vals[..n]) <= LongestBlock(b)
            && s[..3] == Header24(n) && s[3..6] == Header24(BlockBytes(p, vals[..n]))
            && s[6..] == Body(p, vals[..n], slot, rest)
  {
    hide After, EncodeBlocks, BlockLength, EncodeBlock, Header24;
    var n := BlockLength(b, vals);
    var rest := EncodeBlocks(b, After(p, vals[..n]), vals[n..], slot);
    BlocksUnfold(b, p, vals, slot);
    BlockParts(p, vals[..n], slot, rest);
    BlockBytesFit(b, p, vals[..n]);
    hide Body, LongestBlock;
    HeaderParts(Header24(n), Header24(BlockBytes(p, vals[..n])), Body(p, vals[..n], slot, rest));
  }

  /** With the body of a block and the next header in its buffer, the reader ends a non-final block
      exactly at that header, and ends the final block, odd or even, with no room left for one. */
  lemma BlockChaining(p: Predictor, vals: seq<Word>, slot: Word, header: seq<Byte>)
    requires p.Valid() && vals != []
    requires header == [] || (|header| == 6 && |vals| % 2 == 0)
    ensures var body := Body(p, vals, slot, header);
            var next := EndOfBlock(body, |vals|, CursorAt(p, vals, |vals|).pos);
            && (header == [] ==> |body| - 6 < next)
            && (header != [] ==> |body| - 6 == next && body[next..] == header)
  {
    hide After, Payload, Codes, Padded, AsDecoder, NibbleOf, Width, LengthBits;
    assert vals[..|vals|] == vals;
  }

  lemma ReadFinalBlock(b: BlockSize, d: Predictor, stream: seq<Byte>, n: nat, c: Cursor)
    requires d.Valid() && n <= b && |stream| <= BlockBufferSize(b) && (n + 1) / 2 <= |stream|
    requires ReadValues(d, stream, n, n) == Some(c)
    requires |stream| - 6 < EndOfBlock(stream, n, c.pos)
    ensures ReadBlocks(b, d, stream, n, |stream| + 6) == Some(c.vals)
  {
    hide ReadValues, EndOfBlock;
    assert stream[..|stream|] == stream;
  }

  lemma ReadInnerBlock(b: BlockSize, d: Predictor, stream: seq<Byte>, n: nat, len: nat, c: Cursor, n': nat, len': nat, rest: seq<Word>)
    requires d.Valid() && n <= b && n % 2 == 0 && 6 <= len <= |stream| && len <= BlockBufferSize(b) && (n + 1) / 2 <= len
    requires ReadValues(d, stream[..len], n, n) == Some(c) && c.pos == len - 6
    requires n' == Value(stream[len - 6..len - 3]) && len' == Value(stream[len - 3..len]) && 0 < n'
    requires c.p.Valid() && ReadBlocks(b, c.p, stream[len..], n', len') == Some(rest)
    ensures ReadBlocks(b, d, stream, n, len) == Some(c.vals + rest)
  {
    hide ReadValues, Value;
    assert stream[..len][len - 6..len - 3] == stream[len - 6..len - 3];
    assert stream[..len][len - 3..len] == stream[len - 3..len];
  }

  lemma FinalBlockBack(b: BlockSize, p: Predictor, vals: seq<Word>, slot: Word)
    requires p.Valid() && 0 < |vals| <= b
    ensures BlockBytes(p, vals) >= 6
    ensures ReadBlocks(b, AsDecoder(p), Body(p, vals, slot, []), |vals|, BlockBytes(p, vals)) == Some(vals)
  {
    hide ReadBlocks, ReadValues, Body, AsDecoder, EndOfBlock, CursorAt, Payload, After;
    ReadBlockBack(p, vals, slot, [], |vals|);
    CursorEnd(p, vals);
    BlockChaining(p, vals, slot, []);
    ReadFinalBlock(b, AsDecoder(p), Body(p, vals, slot, []), |vals|, CursorAt(p, vals, |vals|));
  }

  lemma CursorEnd(p: Predictor, vals: seq<Word>)
    requires p.Valid()
    ensures CursorAt(p, vals, |vals|) == Cursor(AsDecoder(After(p, vals)), BlockBytes(p, vals) - 6, vals)
  {
    hide AsDecoder, After, Payload;
    assert vals[..|vals|] == vals;
  }

  lemma BodySplit(p: Predictor, vals: seq<Word>, slot: Word, rest: seq<Byte>, k: nat)
    requires p.Valid() && k <= |rest|
    ensures var len := BlockBytes(p, vals) - 6 + k;
            var s := Body(p, vals, slot, rest);
            && len <= |s| && s[..len] == Body(p, vals, slot, rest[..k])
            && s[len..] == rest[k..]
  {
    hide Codes, Padded, Payload, After;
    var front := Codes(p, Padded(vals, slot)) + Payload(p, vals);
    assert front + rest == (front + rest[..k]) + rest[k..];
  }

  lemma HeaderAt(s: seq<Byte>, at: nat, rest: seq<Byte>)
    requires at <= |s| && |rest| >= 6 && s[at..] == rest
    ensures at + 6 <= |s| && s[at..at + 3] == rest[..3] && s[at + 3..at + 6] == rest[3..6]
  {
    assert s[at..at + 3] == s[at..][..3] && s[at + 3..at + 6] == s[at..][3..6];
  }

  /** A body and the header behind it. */
  lemma InnerParts(p: Predictor, vals: seq<Word>, slot: Word, rest: seq<Byte>)
    requires p.Valid() && |rest| >= 6
    ensures var s, k := Body(p, vals, slot, rest), BlockBytes(p, vals);
            && 6 <= k <= |s| && s[k - 6..k - 3] == rest[..3] && s[k - 3..k] == rest[3..6] && s[k..] == rest[6..]
            && s[..k] == Body(p, vals, slot, rest[..6])
  {
    hide *;
    BlockBytesAtLeast(p, vals);
    var s, k := Body(p, vals, slot, rest), BlockBytes(p, vals);
    BodySplit(p, vals, slot, rest, 0);
    HeaderAt(s, k - 6, rest);
    BodySplit(p, vals, slot, rest, 6);
  }

  lemma BlockBytesAtLeast(p: Predictor, vals: seq<Word>)
    requires p.Valid()
    ensures BlockBytes(p, vals) >= 6
  {
  }

  lemma InnerBlockBack(b: BlockSize, p: Predictor, vals: seq<Word>, slot: Word, rest: seq<Byte>, n: nat, len: nat, more: seq<Word>)
    requires p.Valid() && |vals| == b
    requires |rest| >= 6 && n == Value(rest[..3]) && len == Value(rest[3..6]) && 0 < n
    requires ReadBlocks(b, AsDecoder(After(p, vals)), rest[6..], n, len) == Some(more)
    ensures ReadBlocks(b, AsDecoder(p), Body(p, vals, slot, rest), |vals|, BlockBytes(p, vals)) == Some(vals + more)
  {
    hide *;
    BlockSizeIsEven(b);
    BlockBytesFit(b, p, vals);
    InnerParts(p, vals, slot, rest);
    InnerRead(p, vals, slot, rest);
    ReadInnerBlock(b, AsDecoder(p), Body(p, vals, slot, rest), |vals|, BlockBytes(p, vals), CursorAt(p, vals, |vals|), n, len, more);
  }

  lemma InnerRead(p: Predictor, vals: seq<Word>, slot: Word, rest: seq<Byte>)
    requires p.Valid() && |rest| >= 6
    ensures var c := CursorAt(p, vals, |vals|);
            && c == Cursor(AsDecoder(After(p, vals)), BlockBytes(p, vals) - 6, vals)
            && (|vals| + 1) / 2 <= |Body(p, vals, slot, rest[..6])|
            && ReadValues(AsDecoder(p), Body(p, vals, slot, rest[..6]), |vals|, |vals|) == Some(c)
  {
    hide *;
    ReadBlockBack(p, vals, slot, rest[..6], |vals|);
    CursorEnd(p, vals);
  }

  /** Reading the blocks that an encoder wrote gives its values back, and the predictors of both
      sides stay in step across blocks. */
  lemma {:induction false} ReadBlocksBack(b: BlockSize, p: Predictor, vals: seq<Word>, slot: Word)
    requires p.Valid() && vals != []
    ensures var s := EncodeBlocks(b, p, vals, slot);
            && |s| >= 6
            && Value(s[..3]) == BlockLength(b, vals)
            && ReadBlocks(b, AsDecoder(p), s[6..], BlockLength(b, vals), Value(s[3..6])) == Some(vals)
    decreases |vals|
  {
    hide ReadBlocks, Body, AsDecoder, Payload, After, Value, Header24, BlockBytes, EncodeBlock;
    var n := BlockLength(b, vals);
    var rest := EncodeBlocks(b, After(p, vals[..n]), vals[n..], slot);
    EncodedBlockParts(b, p, vals, slot);
    Header24Value(n);
    Header24Value(BlockBytes(p, vals[..n]));
    if n == |vals| {
      assert vals[..n] == vals && rest == [];
      hide EncodeBlocks;
      FinalBlockBack(b, p, vals, slot);
    } else {
      hide EncodeBlocks;
      ReadBlocksBack(b, After(p, vals[..n]), vals[n..], slot);
      InnerBlockBack(b, p, vals[..n], slot, rest, Value(rest[..3]), Value(rest[3..6]), vals[n..]);
      assert vals[..n] + vals[n..] == vals;
    }
  }

  /** Reading the stream of any input with at least one whole word gives its words back, at every
      level, whatever the padding slot held. */
  lemma ParseEncoded(b: BlockSize, level: Byte, input: seq<Byte>, slot: Word)
    requires level <= 62 && |input| >= 8
    ensures |Encode(b, level, input, slot)| >= 7
    ensures Parse(b, Encode(b, level, input, slot)) == Some(WordsOf(input))
  {
    hide ReadBlocks, EncodeBlocks, Initial, AsDecoder, Value, WordsOf;
    var s := EncodeBlocks(b, Initial(level), WordsOf(input), slot);
    ReadBlocksBack(b, Initial(level), WordsOf(input), slot);
    LockstepStart(level);
    var e := [level] + s;
    assert e[1..4] == s[..3] && e[4..7] == s[3..6] && e[7..] == s[6..];
  }

  // ----- Bytes in, bytes out -----

  lemma {:induction false} BytesOfWords(input: seq<Byte>)
    ensures BytesOf(WordsOf(input)) == input[..|input| / 8 * 8]
    decreases |input|
  {
    hide Bytes, Join;
    var vals, n := WordsOf(input), |input| / 8;
    if n > 0 {
      var front := input[..8 * (n - 1)];
      BytesOfWords(front);
      forall i | 0 <= i < n - 1
        ensures WordsOf(front)[i] == vals[i]
      {
        assert front[8 * i..8 * i + 8] == input[8 * i..8 * i + 8];
      }
      assert WordsOf(front) == Init(vals);
      var tail := input[8 * (n - 1)..8 * (n - 1) + 8];
      assert Last(vals) == Join(tail);
      BytesJoin(tail);
      assert front[..|front| / 8 * 8] + tail == input[..n * 8];
    }
  }

  /** Compressing and decompressing returns the input without its last |input| % 8 bytes, except that
      inputs shorter than one word become a single byte, which the decoder rejects. */
  lemma RoundTrip(b: BlockSize, level: Byte, input: seq<Byte>, slot: Word)
    requires level <= 62
    ensures |input| >= 8 ==> Decode(b, Encode(b, level, input, slot)) == Success(input[..|input| / 8 * 8])
    ensures |input| < 8 ==> Encode(b, level, input, slot) == [level]
    ensures |input| < 8 ==> Decode(b, Encode(b, level, input, slot)) == Failure(NotInFormat)
  {
    if |input| >= 8 {
      hide Parse, Encode, WordsOf, BytesOf;
      ParseEncoded(b, level, input, slot);
      BytesOfWords(input);
    } else {
      hide Parse, Initial;
      assert WordsOf(input) == [];
      NoBlocks(b, level, slot);
    }
  }

  lemma NoBlocks(b: BlockSize, level: Byte, slot: Word)
    requires level <= 62
    ensures EncodeBlocks(b, Initial(level), [], slot) == []
  {
    hide Initial;
  }

  /** Exactly the inputs of one or more whole words survive the round trip unchanged. */
  lemma LosslessExactly(b: BlockSize, level: Byte, input: seq<Byte>, slot: Word)
    requires level <= 62
    ensures Decode(b, Encode(b, level, input, slot)) == Success(input) <==> |input| >= 8 && |input| % 8 == 0
  {
    hide Decode, Encode;
    RoundTrip(b, level, input, slot);
    if |input| % 8 != 0 {
      assert |input[..|input| / 8 * 8]| < |input|;
    } else {
      assert input[..|input| / 8 * 8] == input;
    }
  }
}
