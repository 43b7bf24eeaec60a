/** How far a run of the codec has come, from block to block, whatever it reads from and writes to. */
module FpcBlocks {
  import opened Wrappers
  import opened Words
  import opened FpcPredictor
  import opened FpcFormat
  import opened FpcRoundTrip
  import opened FpcEncoder

  // ----- Encoding -----

  /** The stream is what has been written and what the values ahead will add. Only an odd last block
      depends on its padding. */
  ghost predicate Encoding(b: BlockSize, level: Byte, input: seq<Byte>, p: Predictor, written: seq<Byte>, ahead: seq<Word>, slot: Word)
    requires level <= 62 && p.Valid()
  {
    && (ahead != [] ==> forall s :: Encode(b, level, input, s) == written + EncodeBlocks(b, p, ahead, s))
    && (ahead == [] ==> Encode(b, level, input, slot) == written)
  }

  lemma EncodingStarts(b: BlockSize, level: Byte, input: seq<Byte>)
    requires level <= 62
    ensures Encoding(b, level, input, Initial(level), [level], WordsOf(input), 0)
  {
    hide WordsOf, Initial;
  }

  /** The padding of an even block does not show. */
  lemma PaddingHidden(p: Predictor, vals: seq<Word>, slot: Word, slot': Word)
    requires p.Valid() && |vals| % 2 == 0
    ensures Padded(vals, slot) == vals && EncodeBlock(p, vals, slot) == EncodeBlock(p, vals, slot')
  {
    hide Codes, Payload, Header24;
  }

  lemma StreamAhead(b: BlockSize, level: Byte, input: seq<Byte>, p: Predictor, written: seq<Byte>, ahead: seq<Word>, slot: Word, s: Word)
    requires level <= 62 && p.Valid() && Encoding(b, level, input, p, written, ahead, slot) && ahead != []
    ensures Encode(b, level, input, s) == written + EncodeBlocks(b, p, ahead, s)
  {
    hide Encode, EncodeBlocks;
  }

  lemma OneBlock(b: BlockSize, level: Byte, input: seq<Byte>, p: Predictor, written: seq<Byte>, ahead: seq<Word>, slot: Word, s: Word)
    requires level <= 62 && p.Valid() && Encoding(b, level, input, p, written, ahead, slot) && ahead != []
    ensures var blk, later := ahead[..BlockLength(b, ahead)], ahead[BlockLength(b, ahead)..];
            Encode(b, level, input, s) == written + EncodeBlock(p, blk, s) + EncodeBlocks(b, After(p, blk), later, s)
  {
    hide *;
    StreamAhead(b, level, input, p, written, ahead, slot, s);
    BlocksUnfold(b, p, ahead, s);
    var n := BlockLength(b, ahead);
    var x, y := EncodeBlock(p, ahead[..n], s), EncodeBlocks(b, After(p, ahead[..n]), ahead[n..], s);
    assert written + (x + y) == written + x + y;
  }

  /** A block written, with any padding: the rest of the stream is still ahead, and what is written is no
      longer than the whole. */
  lemma EncodingGoesOn(b: BlockSize, level: Byte, input: seq<Byte>, p: Predictor, written: seq<Byte>, ahead: seq<Word>, slot: Word, slot': Word)
    requires level <= 62 && p.Valid() && Encoding(b, level, input, p, written, ahead, slot) && ahead != []
    ensures var blk, later := ahead[..BlockLength(b, ahead)], ahead[BlockLength(b, ahead)..];
            && Encoding(b, level, input, After(p, Padded(blk, slot')), written + EncodeBlock(p, blk, slot'), later, slot')
            && |written| + |EncodeBlock(p, blk, slot')| <= |Encode(b, level, input, slot')|
  {
    hide *;
    OneBlock(b, level, input, p, written, ahead, slot, slot');
    var n := BlockLength(b, ahead);
    if n < |ahead| {
      InnerBlockIsEven(b, ahead);
      InnerBlock(b, level, input, p, written, ahead, slot, slot');
    } else {
      LastBlock(b, level, input, p, written, ahead, slot, slot');
    }
  }

  lemma InnerBlockIsEven(b: BlockSize, vals: seq<Word>)
    requires BlockLength(b, vals) < |vals|
    ensures BlockLength(b, vals) % 2 == 0
  {
    BlockSizeIsEven(b);
  }

  lemma InnerBlock(b: BlockSize, level: Byte, input: seq<Byte>, p: Predictor, written: seq<Byte>, ahead: seq<Word>, slot: Word, slot': Word)
    requires level <= 62 && p.Valid() && Encoding(b, level, input, p, written, ahead, slot)
    requires BlockLength(b, ahead) < |ahead| && BlockLength(b, ahead) % 2 == 0
    ensures var blk, later := ahead[..BlockLength(b, ahead)], ahead[BlockLength(b, ahead)..];
            Encoding(b, level, input, After(p, Padded(blk, slot')), written + EncodeBlock(p, blk, slot'), later, slot')
  {
    hide *;
    var n := BlockLength(b, ahead);
    var blk, later := ahead[..n], ahead[n..];
    forall s
      ensures Encode(b, level, input, s) == written + EncodeBlock(p, blk, slot') + EncodeBlocks(b, After(p, blk), later, s)
    {
      OneBlock(b, level, input, p, written, ahead, slot, s);
      PaddingHidden(p, blk, s, slot');
    }
    PaddingHidden(p, blk, slot', slot');
    StillAhead(b, level, input, After(p, blk), written + EncodeBlock(p, blk, slot'), later, slot');
  }

  lemma StillAhead(b: BlockSize, level: Byte, input: seq<Byte>, p: Predictor, written: seq<Byte>, ahead: seq<Word>, slot: Word)
    requires level <= 62 && p.Valid() && ahead != []
    requires forall s :: Encode(b, level, input, s) == written + EncodeBlocks(b, p, ahead, s)
    ensures Encoding(b, level, input, p, written, ahead, slot)
  {
  }

  lemma LastBlock(b: BlockSize, level: Byte, input: seq<Byte>, p: Predictor, written: seq<Byte>, ahead: seq<Word>, slot: Word, slot': Word)
    requires level <= 62 && p.Valid() && Encoding(b, level, input, p, written, ahead, slot) && ahead != []
    requires BlockLength(b, ahead) == |ahead|
    ensures var blk, later := ahead[..BlockLength(b, ahead)], ahead[BlockLength(b, ahead)..];
            Encoding(b, level, input, After(p, Padded(blk, slot')), written + EncodeBlock(p, blk, slot'), later, slot')
  {
    hide *;
    OneBlock(b, level, input, p, written, ahead, slot, slot');
    var n := BlockLength(b, ahead);
    assert ahead[n..] == [];
    NothingAhead(b, After(p, ahead[..n]), slot');
    AllWritten(b, level, input, After(p, Padded(ahead[..n], slot')), written + EncodeBlock(p, ahead[..n], slot'), slot');
  }

  lemma NothingAhead(b: BlockSize, p: Predictor, slot: Word)
    requires p.Valid()
    ensures EncodeBlocks(b, p, [], slot) == []
  {
  }

  lemma AllWritten(b: BlockSize, level: Byte, input: seq<Byte>, p: Predictor, written: seq<Byte>, slot: Word)
    requires level <= 62 && p.Valid() && Encode(b, level, input, slot) == written
    ensures Encoding(b, level, input, p, written, [], slot)
  {
  }

  /** The values ahead are those in the block buffer and those of the bytes not yet read. */
  ghost predicate AtBlock(b: BlockSize, ahead: seq<Word>, inbuf: seq<Byte>, intot: nat, rest: seq<Byte>) {
    && |inbuf| == 8 * (b + 1) && intot == BlockLength(b, ahead)
    && ValuesIn(inbuf, intot) == ahead[..intot] && WordsOf(rest) == ahead[intot..]
  }

  lemma AtMost(a: nat, b: nat)
    ensures Min(a, b) <= b && Min(a, b) <= a
  {
  }

  /** Bytes read, at most eight for each value of a block: the whole values among them are a block. Bytes
      that make no whole value come only at the end, and are lost. */
  lemma BlockFilled(b: BlockSize, rest: seq<Byte>, r: nat, inbuf: seq<Byte>)
    requires r == Min(|rest|, 8 * b) && |inbuf| == 8 * (b + 1) && inbuf[..r] == rest[..r]
    ensures AtBlock(b, WordsOf(rest), inbuf, r / 8, rest[r..])
  {
    hide Join;
    var n := r / 8;
    assert r == 8 * b || r == |rest|;
    forall i | 0 <= i < n
      ensures ValuesIn(inbuf, n)[i] == WordsOf(rest)[i]
    {
      assert inbuf[8 * i..8 * i + 8] == inbuf[..r][8 * i..8 * i + 8] == rest[..r][8 * i..8 * i + 8] == rest[8 * i..8 * i + 8];
    }
    WordsAfter(rest, r);
  }

  lemma BlockInBuffer(b: BlockSize, ahead: seq<Word>, inbuf: seq<Byte>, intot: nat, rest: seq<Byte>)
    requires AtBlock(b, ahead, inbuf, intot, rest) && intot > 0
    ensures intot <= b && |WordsOf(rest)| < |ahead|
  {
    hide ValuesIn, WordsOf;
  }

  /** The block in the buffer has been written; the values of the bytes not yet read are ahead. */
  lemma BlockWritten(b: BlockSize, level: Byte, input: seq<Byte>, p: Predictor, written: seq<Byte>, ahead: seq<Word>, slot: Word,
                     inbuf: seq<Byte>, intot: nat, rest: seq<Byte>, slot': Word)
    requires level <= 62 && p.Valid() && Encoding(b, level, input, p, written, ahead, slot)
    requires AtBlock(b, ahead, inbuf, intot, rest) && intot > 0
    ensures intot <= b && |WordsOf(rest)| < |ahead|
    ensures var blk := ValuesIn(inbuf, intot);
            && Encoding(b, level, input, After(p, Padded(blk, slot')), written + EncodeBlock(p, blk, slot'), WordsOf(rest), slot')
            && |written| + |EncodeBlock(p, blk, slot')| <= |Encode(b, level, input, slot')|
  {
    hide Encoding, Encode, EncodeBlock, ValuesIn, WordsOf, After, Padded;
    EncodingGoesOn(b, level, input, p, written, ahead, slot, slot');
  }

  lemma AllEncoded(b: BlockSize, level: Byte, input: seq<Byte>, p: Predictor, written: seq<Byte>, ahead: seq<Word>, slot: Word,
                   inbuf: seq<Byte>, rest: seq<Byte>)
    requires level <= 62 && p.Valid() && Encoding(b, level, input, p, written, ahead, slot) && AtBlock(b, ahead, inbuf, 0, rest)
    ensures Encode(b, level, input, slot) == written
  {
    hide Encode, ValuesIn, WordsOf;
  }

  lemma WordsAfter(input: seq<Byte>, r: nat)
    requires r <= |input| && (r % 8 == 0 || r == |input|)
    ensures r / 8 <= |WordsOf(input)| && WordsOf(input[r..]) == WordsOf(input)[r / 8..]
  {
    hide Join;
    if r < |input| {
      var n, rest := r / 8, input[r..];
      assert r == 8 * n && |rest| / 8 == |input| / 8 - n;
      forall i | 0 <= i < |rest| / 8
        ensures WordsOf(rest)[i] == WordsOf(input)[n..][i]
      {
        assert rest[8 * i..8 * i + 8] == input[8 * (n + i)..8 * (n + i) + 8];
      }
    }
  }

  lemma StartsWithLevel(b: BlockSize, level: Byte, input: seq<Byte>, slot: Word)
    requires level <= 62
    ensures |Encode(b, level, input, slot)| >= 1
  {
    hide EncodeBlocks, Initial, WordsOf;
  }

  // ----- Decoding -----

  /** What has been decoded and what the blocks in the rest of the stream hold are all values. The last
      header said `n` values and `len` bytes. */
  ghost predicate Decoding(b: BlockSize, input: seq<Byte>, view: Predictor, rest: seq<Byte>, n: nat, len: nat, acc: seq<Word>)
    requires |input| >= 7 && view.Valid()
  {
    var more := ReadBlocks(b, view, rest, n, len);
    more.Some? && Parse(b, input) == Some(acc + more.value)
  }

  lemma DecodingStarts(b: BlockSize, input: seq<Byte>)
    requires |input| >= 7 && Parse(b, input).Some?
    ensures input[0] <= 62
    ensures Decoding(b, input, Initial(input[0]), input[7..], Value(input[1..4]), Value(input[4..7]), [])
  {
    hide ReadBlocks, Initial, Value;
    var vals := Parse(b, input).value;
    assert [] + vals == vals;
  }

  lemma DecodingGoesOn(b: BlockSize, input: seq<Byte>, view: Predictor, rest: seq<Byte>, n: nat, len: nat, acc: seq<Word>,
                       vals: seq<Word>, view': Predictor, rest': seq<Byte>, n': nat, len': nat)
    requires |input| >= 7 && view.Valid() && view'.Valid() && Decoding(b, input, view, rest, n, len, acc)
    requires ReadBlocks(b, view', rest', n', len').Some?
    requires ReadBlocks(b, view, rest, n, len) == Some(vals + ReadBlocks(b, view', rest', n', len').value)
    ensures Decoding(b, input, view', rest', n', len', acc + vals)
  {
    hide ReadBlocks, Parse;
    var more := ReadBlocks(b, view', rest', n', len').value;
    assert acc + (vals + more) == (acc + vals) + more;
  }

  lemma DecodingEnds(b: BlockSize, input: seq<Byte>, view: Predictor, rest: seq<Byte>, n: nat, len: nat, acc: seq<Word>, vals: seq<Word>)
    requires |input| >= 7 && view.Valid() && Decoding(b, input, view, rest, n, len, acc)
    requires ReadBlocks(b, view, rest, n, len) == Some(vals)
    ensures Parse(b, input) == Some(acc + vals)
  {
    hide ReadBlocks, Parse;
  }

  /** The block announced by the last header can be read, and fits the buffer. */
  lemma BlockIsReadable(b: BlockSize, input: seq<Byte>, view: Predictor, rest: seq<Byte>, n: nat, len: nat, acc: seq<Word>)
    requires |input| >= 7 && view.Valid() && Decoding(b, input, view, rest, n, len, acc)
    ensures ReadBlocks(b, view, rest, n, len).Some? && Min(|rest|, len) <= BlockBufferSize(b)
  {
    hide ReadValues, EndOfBlock, Value, Parse;
  }

  /** What has been decoded and the block after it are no more than all. */
  lemma NoMoreThanAll(b: BlockSize, input: seq<Byte>, view: Predictor, rest: seq<Byte>, n: nat, len: nat, acc: seq<Word>, vals: seq<Word>)
    requires |input| >= 7 && view.Valid() && Decoding(b, input, view, rest, n, len, acc)
    requires vals <= ReadBlocks(b, view, rest, n, len).value
    ensures Parse(b, input).Some? && |acc| + |vals| <= |Parse(b, input).value|
  {
    hide ReadBlocks, Parse;
  }

  lemma {:induction false} BytesOfConcat(u: seq<Word>, v: seq<Word>)
    ensures BytesOf(u + v) == BytesOf(u) + BytesOf(v)
  {
    hide Bytes;
    if v == [] {
      assert u + v == u;
    } else {
      assert Init(u + v) == u + Init(v) && Last(u + v) == Last(v);
      BytesOfConcat(u, Init(v));
    }
  }

  lemma NoBytes()
    ensures BytesOf([]) == []
  {
  }
}
