/** The two value predictors of FPC and how encoder and decoder use them.
    Both sides keep the same tables; the decoder stores the second prediction already added to the
    last value, the encoder adds it when it needs it. */
module FpcPredictor {
  import opened Words

  function Xor(a: Word, b: Word): Word {
    a ^ b
  }

  function Add(a: Word, b: Word): Word {
    a + b
  }

  function Sub(a: Word, b: Word): Word {
    a - b
  }

  lemma XorCancels(v: Word, p: Word)
    ensures Xor(Xor(v, p), p) == v
  {
  }

  function HashMix(hash: Word, val: Word): Word {
    (hash << 6) ^ (val >> 48)
  }

  function DHashMix(dhash: Word, stride: Word): Word {
    (dhash << 2) ^ (stride >> 40)
  }

  function NextHash(hash: Word, val: Word, mask: Word): Word {
    And(HashMix(hash, val), mask)
  }

  function NextDHash(dhash: Word, stride: Word, mask: Word): Word {
    And(DHashMix(dhash, stride), mask)
  }

  lemma HashesStayInTable(hash: Word, x: Word, mask: Word)
    ensures Index(NextHash(hash, x, mask)) <= Index(mask)
    ensures Index(NextDHash(hash, x, mask)) <= Index(mask)
  {
    hide Index, And, HashMix, DHashMix;
    MaskedIndex(HashMix(hash, x), mask);
    MaskedIndex(DHashMix(hash, x), mask);
  }

  datatype Predictor = Predictor(
    mask: Word, fcm: seq<Word>, dfcm: seq<Word>, hash: Word, dhash: Word,
    lastval: Word, pred1: Word, pred2: Word)
  {
    /** Both tables have the size the mask calls for, and both hashes point into them. */
    ghost predicate Valid() {
      |fcm| == |dfcm| == Index(mask) + 1 && Index(hash) <= Index(mask) && Index(dhash) <= Index(mask)
    }
  }

  /** The mask of a table with 2^level entries. */
  function TableMask(level: Byte): Word
    requires level <= 62
  {
    (1 << level) - 1
  }

  function Initial(level: Byte): (p: Predictor)
    requires level <= 62
    ensures p.Valid()
  {
    var mask := TableMask(level);
    var table := seq(Index(mask) + 1, i => 0 as Word);
    ZeroIndex();
    hide Index;
    Predictor(mask, table, table, 0, 0, 0, 0, 0)
  }

  lemma ZeroIndex()
    ensures Index(0) == 0
  {
    ZeroBytes();
    hide Bytes;
    ValueOfZeros(8);
  }

  lemma {:induction false} ValueOfZeros(n: nat)
    ensures Value(Zeros(n)) == 0
  {
    if n > 0 {
      assert Zeros(n)[1..] == Zeros(n - 1);
      ValueOfZeros(n - 1);
    }
  }

  /** What the encoder does to its predictors after each value. */
  function EncoderUpdate(p: Predictor, val: Word): (q: Predictor)
    requires p.Valid()
    ensures q.Valid() && q.mask == p.mask && q.lastval == val
  {
    hide Index, NextHash, NextDHash, Sub;
    var stride := Sub(val, p.lastval);
    var fcm := p.fcm[Index(p.hash) := val];
    var dfcm := p.dfcm[Index(p.dhash) := stride];
    var hash := NextHash(p.hash, val, p.mask);
    var dhash := NextDHash(p.dhash, stride, p.mask);
    HashesStayInTable(p.hash, val, p.mask);
    HashesStayInTable(p.dhash, stride, p.mask);
    Predictor(p.mask, fcm, dfcm, hash, dhash, val, fcm[Index(hash)], dfcm[Index(dhash)])
  }

  /** What the decoder does to its predictors after each value. */
  function DecoderUpdate(p: Predictor, val: Word): (q: Predictor)
    requires p.Valid()
    ensures q.Valid() && q.mask == p.mask
  {
    hide Index, NextHash, NextDHash, Sub, Add;
    var fcm := p.fcm[Index(p.hash) := val];
    var hash := NextHash(p.hash, val, p.mask);
    HashesStayInTable(p.hash, val, p.mask);
    var stride := Sub(val, p.lastval);
    var dfcm := p.dfcm[Index(p.dhash) := stride];
    var dhash := NextDHash(p.dhash, stride, p.mask);
    HashesStayInTable(p.dhash, stride, p.mask);
    Predictor(p.mask, fcm, dfcm, hash, dhash, val, fcm[Index(hash)], Add(val, dfcm[Index(dhash)]))
  }

  /** The tables and hashes that both updates lead to. */
  predicate Updated(p: Predictor, val: Word, q: Predictor)
    requires p.Valid() && q.Valid()
  {
    && q.mask == p.mask && q.lastval == val
    && q.fcm == p.fcm[Index(p.hash) := val] && q.dfcm == p.dfcm[Index(p.dhash) := Sub(val, p.lastval)]
    && q.hash == NextHash(p.hash, val, p.mask) && q.dhash == NextDHash(p.dhash, Sub(val, p.lastval), p.mask)
    && q.pred1 == q.fcm[Index(q.hash)]
  }

  lemma EncoderUpdateIs(p: Predictor, val: Word, q: Predictor)
    requires p.Valid() && q.Valid() && Updated(p, val, q) && q.pred2 == q.dfcm[Index(q.dhash)]
    ensures q == EncoderUpdate(p, val)
  {
    hide Index, NextHash, NextDHash, Sub;
  }

  lemma DecoderUpdateIs(p: Predictor, val: Word, q: Predictor)
    requires p.Valid() && q.Valid() && Updated(p, val, q) && q.pred2 == Add(val, q.dfcm[Index(q.dhash)])
    ensures q == DecoderUpdate(p, val)
  {
    hide Index, NextHash, NextDHash, Sub, Add;
  }

  // ----- Choosing a predictor -----

  function Xor1(p: Predictor, val: Word): Word {
    Xor(val, p.pred1)
  }

  function Xor2(p: Predictor, val: Word): Word {
    Xor(val, Add(p.lastval, p.pred2))
  }

  predicate TakesSecond(p: Predictor, val: Word) {
    Above(Xor1(p, val), Xor2(p, val))
  }

  /** What the encoder stores for a value. */
  function Residual(p: Predictor, val: Word): Word {
    if TakesSecond(p, val) then Xor2(p, val) else Xor1(p, val)
  }

  /** The prediction that the decoder XORs a residual with. */
  function Prediction(p: Predictor, second: bool): Word {
    if second then p.pred2 else p.pred1
  }

  /** The state of a decoder that has seen the same values as an encoder in state `p`. */
  function AsDecoder(p: Predictor): (q: Predictor)
    ensures p.Valid() ==> q.Valid()
  {
    hide Index, Add;
    p.(pred2 := Add(p.lastval, p.pred2))
  }

  /** One value keeps encoder and decoder in lockstep, and the decoder gets the value back. */
  lemma LockstepValue(p: Predictor, val: Word)
    requires p.Valid()
    ensures Xor(Residual(p, val), Prediction(AsDecoder(p), TakesSecond(p, val))) == val
    ensures DecoderUpdate(AsDecoder(p), val) == AsDecoder(EncoderUpdate(p, val))
  {
    hide Xor, Add, Sub, Above, Index, NextHash, NextDHash;
    XorCancels(val, p.pred1);
    XorCancels(val, Add(p.lastval, p.pred2));
  }

  /** A fresh encoder and a fresh decoder agree. */
  lemma LockstepStart(level: Byte)
    requires level <= 62
    ensures AsDecoder(Initial(level)) == Initial(level)
  {
    assert Add(0, 0) == 0;
    hide Index, Add;
  }

  // ----- The cost of a value -----

  function Cost(residual: Word): (n: nat)
    ensures n <= 8
  {
    WidthValues(LengthCode(residual));
    Width(LengthCode(residual))
  }

  lemma AboveIsStrict(a: Word, b: Word)
    ensures !(Above(a, b) && Above(b, a))
  {
  }

  /** The residual kept is never longer than either candidate. */
  lemma ResidualIsShortest(p: Predictor, val: Word)
    ensures Cost(Residual(p, val)) <= Cost(Xor1(p, val))
    ensures Cost(Residual(p, val)) <= Cost(Xor2(p, val))
  {
    var a, b := Xor1(p, val), Xor2(p, val);
    AboveIsStrict(a, b);
    hide Above, LengthCode, Width, Xor1, Xor2;
    if TakesSecond(p, val) {
      LengthCodeMonotone(b, a);
    } else {
      LengthCodeMonotone(a, b);
    }
  }

  // ----- Code bytes -----

  /** The four bits the encoder stores for a value: which predictor, and how long the residual is. */
  function Nibble(p: Predictor, val: Word): Byte {
    (if TakesSecond(p, val) then 0x8 else 0) | LengthCode(Residual(p, val))
  }

  /** The byte with the four bits of a value and those of the next one. */
  function PairByte(high: Byte, low: Byte): Byte {
    (high << 4) | low
  }

  function HighNibble(b: Byte): Byte {
    b >> 4
  }

  function LowNibble(b: Byte): Byte {
    b & 0xf
  }

  predicate SecondBit(nibble: Byte) {
    nibble & 0x8 != 0
  }

  function LengthBits(nibble: Byte): (bcode: Byte)
    ensures bcode < 8
  {
    nibble & 0x7
  }

  lemma PairParts(high: Byte, low: Byte)
    requires high < 16 && low < 16
    ensures HighNibble(PairByte(high, low)) == high
    ensures LowNibble(PairByte(high, low)) == low
  {
  }

  lemma NibbleParts(p: Predictor, val: Word)
    ensures Nibble(p, val) < 16
    ensures SecondBit(Nibble(p, val)) <==> TakesSecond(p, val)
    ensures LengthBits(Nibble(p, val)) == LengthCode(Residual(p, val))
  {
    var code := LengthCode(Residual(p, val));
    hide LengthCode, Residual, TakesSecond;
    assert (0x8 | code) & 0x7 == code && (0x8 | code) & 0x8 != 0 && (0x8 | code) < 16;
    assert (0 | code) & 0x7 == code && (0 | code) & 0x8 == 0 && (0 | code) < 16;
  }
}
