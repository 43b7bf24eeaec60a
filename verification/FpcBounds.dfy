/** How long an FPC stream can get, and what the choice between two predictors buys. */
module FpcBounds {
  import opened Words
  import opened FpcPredictor
  import opened FpcFormat

  // ----- The choice of predictor -----

  /** Residual bytes that the values would take if every value used the first predictor. */
  function FirstOnly(p: Predictor, vals: seq<Word>): nat
    requires p.Valid()
  {
    if vals == [] then 0 else FirstOnly(p, Init(vals)) + Cost(Xor1(After(p, Init(vals)), Last(vals)))
  }

  /** Residual bytes that the values would take if every value used the second predictor. */
  function SecondOnly(p: Predictor, vals: seq<Word>): nat
    requires p.Valid()
  {
    if vals == [] then 0 else SecondOnly(p, Init(vals)) + Cost(Xor2(After(p, Init(vals)), Last(vals)))
  }

  /** Both predictors learn every value, whichever is chosen, so choosing value by value is never
      worse than either predictor alone. */
  lemma {:induction false} ChoosingIsBest(p: Predictor, vals: seq<Word>)
    requires p.Valid()
    ensures |Payload(p, vals)| <= FirstOnly(p, vals)
    ensures |Payload(p, vals)| <= SecondOnly(p, vals)
  {
    hide After, Cost, Residual, Xor1, Xor2;
    if vals != [] {
      ChoosingIsBest(p, Init(vals));
      ResidualIsShortest(After(p, Init(vals)), Last(vals));
    }
  }

  // ----- The longest stream -----

  /** The most bytes that the blocks of `w` values can take. */
  function LongestBlocks(b: BlockSize, w: nat): nat {
    if w == 0 then 0 else
      var n := Min(w, b);
      6 + (n + 1) / 2 + 8 * n + LongestBlocks(b, w - n)
  }

  lemma {:induction false} BlocksFit(b: BlockSize, p: Predictor, vals: seq<Word>, slot: Word)
    requires p.Valid()
    ensures |EncodeBlocks(b, p, vals, slot)| <= LongestBlocks(b, |vals|)
    decreases |vals|
  {
    hide After, Payload, EncodeBlock;
    if vals != [] {
      var n := BlockLength(b, vals);
      BlocksFit(b, After(p, vals[..n]), vals[n..], slot);
      assert |EncodeBlock(p, vals[..n], slot)| <= 6 + (n + 1) / 2 + 8 * n;
      hide EncodeBlocks;
    }
  }

  /** The block size of the platform. */
  const BLOCK_SIZE: BlockSize := 8 * 4096

  lemma {:induction false} LongestBlocksBound(w: nat, k: nat)
    requires w < 32768 * (k + 1)
    ensures 2 * LongestBlocks(BLOCK_SIZE, w) <= 12 * (k + 1) + 17 * w + 1
  {
    if w >= BLOCK_SIZE {
      LongestBlocksBound(w - BLOCK_SIZE, k - 1);
      assert LongestBlocks(BLOCK_SIZE, w) == 6 + 16384 + 8 * 32768 + LongestBlocks(BLOCK_SIZE, w - BLOCK_SIZE);
    } else if w > 0 {
      assert LongestBlocks(BLOCK_SIZE, 0) == 0;
    }
  }

  /** A chunk of up to `c` bytes, with `c` a whole number of kilobytes, always fits a buffer of 1.1
      times `c` bytes. */
  lemma ChunkNeverRunsOut(level: Byte, chunk: seq<Byte>, c: nat, slot: Word)
    requires level <= 62 && c >= 1024 && c % 1024 == 0 && |chunk| <= c
    ensures |Encode(BLOCK_SIZE, level, chunk, slot)| <= 11 * c / 10
  {
    hide EncodeBlocks, WordsOf, Initial, LongestBlocks;
    var w := |chunk| / 8;
    var k := w / 32768;
    BlocksFit(BLOCK_SIZE, Initial(level), WordsOf(chunk), slot);
    LongestBlocksBound(w, k);
    RoomEnough(c, w, k, LongestBlocks(BLOCK_SIZE, w));
  }

  lemma RoomEnough(c: nat, w: nat, k: nat, length: nat)
    requires c >= 1024 && 8 * w <= c && 32768 * k <= w && 2 * length <= 12 * (k + 1) + 17 * w + 1
    ensures 1 + length <= 11 * c / 10
  {
    assert 10 * (1 + length) <= 11 * c;
  }

  // ----- The bound is reached -----

  /** A value that both predictors get wrong in their top byte. */
  function HardValue(a: Word, c: Word): Word {
    if ((a ^ 0x100_0000_0000_0000) ^ c) >> 56 != 0 then a ^ 0x100_0000_0000_0000 else a ^ 0x200_0000_0000_0000
  }

  lemma HardValueCosts(a: Word, c: Word)
    ensures LengthCode(Xor(HardValue(a, c), a)) == 7
    ensures LengthCode(Xor(HardValue(a, c), c)) == 7
  {
  }

  /** `n` values, each the worst for the predictors at that point. */
  function HardValues(p: Predictor, n: nat): (vals: seq<Word>)
    requires p.Valid()
    ensures |vals| == n
  {
    if n == 0 then [] else
      var vals := HardValues(p, n - 1);
      var q := After(p, vals);
      vals + [HardValue(q.pred1, Add(q.lastval, q.pred2))]
  }

  lemma {:induction false} HardValuesCost(p: Predictor, n: nat)
    requires p.Valid()
    ensures |Payload(p, HardValues(p, n))| == 8 * n
  {
    hide After, HardValue, LengthCode, Xor, Add;
    if n > 0 {
      HardValuesCost(p, n - 1);
      var vals := HardValues(p, n);
      assert Init(vals) == HardValues(p, n - 1);
      HardLast(After(p, Init(vals)));
    }
  }

  lemma HardLast(q: Predictor)
    ensures Cost(Residual(q, HardValue(q.pred1, Add(q.lastval, q.pred2)))) == 8
  {
    HardValueCosts(q.pred1, Add(q.lastval, q.pred2));
    WidthValues(7);
    hide HardValue, LengthCode, Xor, Add;
  }

  /** The block buffers are as small as they can be: from any predictor state there is a block whose
      last store ends at the last byte of the buffer. */
  lemma BufferIsTight(b: BlockSize, p: Predictor) returns (vals: seq<Word>)
    requires p.Valid()
    ensures |vals| == b
    ensures Aligned(6 + b / 2 + |Payload(p, vals[..b - 1])|) + 16 == BlockBufferSize(b)
  {
    hide Payload, HardValues;
    vals := HardValues(p, b);
    HardValuesCost(p, b - 1);
    HardPrefix(p, b);
    LastStore(b);
  }

  lemma LastStore(b: BlockSize)
    ensures Aligned(6 + b / 2 + 8 * (b - 1)) + 16 == BlockBufferSize(b)
  {
    HalfBlock(b);
    var words := b / 16 + b - 1;
    Remainder(8 * words + 6, 8, words, 6);
  }

  lemma HardPrefix(p: Predictor, n: nat)
    requires p.Valid() && n > 0
    ensures HardValues(p, n)[..n - 1] == HardValues(p, n - 1)
  {
    hide After, HardValue, Add;
  }
}
