/** What the hashes and tables of FPC are for: which values a predictor has learnt to foresee. */
module FpcLearning {
  import Bits
  import opened Words
  import opened FpcPredictor
  import opened FpcFormat

  // ----- What a hash takes in -----

  /** What is mixed into something else can be told apart as far as a mask lets it through. */
  lemma SameMix(a: Word, b: Word, c: Word, mask: Word)
    ensures And(Xor(a, b), mask) == And(Xor(a, c), mask) <==> And(b, mask) == And(c, mask)
  {
    hide *;
    Mixed(a, b, mask);
    Mixed(a, c, mask);
    Mixed(b, 0, mask);
    Mixed(c, 0, mask);
    Bits.SameUnderMask(a, b, c, mask);
  }

  lemma Mixed(a: Word, b: Word, mask: Word)
    ensures And(Xor(a, b), mask) == (a ^ b) & mask && And(a, mask) == a & mask
  {
  }

  lemma MixIs(h: Word, v: Word)
    ensures HashMix(h, v) == Xor(h << 6, v >> 48) && DHashMix(h, v) == Xor(h << 2, v >> 40)
  {
  }

  /** Of a value, the first hash takes in its upper sixteen bits, as far as the table is large. */
  lemma SameHash(h: Word, v: Word, w: Word, mask: Word)
    ensures NextHash(h, v, mask) == NextHash(h, w, mask) <==> And(v >> 48, mask) == And(w >> 48, mask)
  {
    hide And, Xor, HashMix, DHashMix;
    MixIs(h, v);
    MixIs(h, w);
    SameMix(h << 6, v >> 48, w >> 48, mask);
  }

  /** Of a stride, the second hash takes in its upper 24 bits. */
  lemma SameDHash(h: Word, v: Word, w: Word, mask: Word)
    ensures NextDHash(h, v, mask) == NextDHash(h, w, mask) <==> And(v >> 40, mask) == And(w >> 40, mask)
  {
    hide And, Xor, HashMix, DHashMix;
    MixIs(h, v);
    MixIs(h, w);
    SameMix(h << 2, v >> 40, w >> 40, mask);
  }

  /** Differences of what goes in come out as they are: the hash is linear over exclusive or. */
  lemma HashIsLinear(h: Word, g: Word, v: Word, w: Word, mask: Word)
    ensures NextHash(h ^ g, v ^ w, mask) == NextHash(h, v, mask) ^ NextHash(g, w, mask)
  {
  }

  lemma DHashIsLinear(h: Word, g: Word, v: Word, w: Word, mask: Word)
    ensures NextDHash(h ^ g, v ^ w, mask) == NextDHash(h, v, mask) ^ NextDHash(g, w, mask)
  {
  }

  /** What a hash takes from a value alone, and what it keeps of itself. */
  lemma HashParts(h: Word, v: Word, mask: Word)
    ensures NextHash(0, v, mask) == And(v >> 48, mask) && NextHash(h, 0, mask) == And(h << 6, mask)
    ensures NextDHash(0, v, mask) == And(v >> 40, mask) && NextDHash(h, 0, mask) == And(h << 2, mask)
  {
    hide And, HashMix, DHashMix;
    MixWithZero(h, v);
  }

  lemma MixWithZero(h: Word, v: Word)
    ensures HashMix(0, v) == v >> 48 && HashMix(h, 0) == h << 6
    ensures DHashMix(0, v) == v >> 40 && DHashMix(h, 0) == h << 2
  {
  }

  /** The low `bits` bits set, for a shift of the hash at a time. */
  function SixBits(k: nat): Word {
    if k == 0 then 0 else (SixBits(k - 1) << 6) | 0x3f
  }

  function TwoBits(k: nat): Word {
    if k == 0 then 0 else (TwoBits(k - 1) << 2) | 0x3
  }

  predicate Agree(h: Word, g: Word, bits: Word) {
    h & bits == g & bits
  }

  lemma HashForgetsOne(h: Word, g: Word, v: Word, mask: Word, bits: Word)
    requires Agree(h, g, bits)
    ensures Agree(NextHash(h, v, mask), NextHash(g, v, mask), (bits << 6) | 0x3f)
  {
  }

  lemma DHashForgetsOne(h: Word, g: Word, v: Word, mask: Word, bits: Word)
    requires Agree(h, g, bits)
    ensures Agree(NextDHash(h, v, mask), NextDHash(g, v, mask), (bits << 2) | 0x3)
  {
  }

  function HashAfter(h: Word, vals: seq<Word>, mask: Word): Word {
    if vals == [] then h else NextHash(HashAfter(h, Init(vals), mask), Last(vals), mask)
  }

  function DHashAfter(h: Word, strides: seq<Word>, mask: Word): Word {
    if strides == [] then h else NextDHash(DHashAfter(h, Init(strides), mask), Last(strides), mask)
  }

  lemma {:induction false} HashAgrees(h: Word, g: Word, vals: seq<Word>, mask: Word)
    ensures Agree(HashAfter(h, vals, mask), HashAfter(g, vals, mask), SixBits(|vals|))
  {
    if vals == [] {
      NothingAgrees(h, g);
    } else {
      hide NextHash, Agree;
      HashAgrees(h, g, Init(vals), mask);
      HashForgetsOne(HashAfter(h, Init(vals), mask), HashAfter(g, Init(vals), mask), Last(vals), mask, SixBits(|vals| - 1));
    }
  }

  lemma {:induction false} DHashAgrees(h: Word, g: Word, strides: seq<Word>, mask: Word)
    ensures Agree(DHashAfter(h, strides, mask), DHashAfter(g, strides, mask), TwoBits(|strides|))
  {
    if strides == [] {
      NothingAgrees(h, g);
    } else {
      hide NextDHash, Agree;
      DHashAgrees(h, g, Init(strides), mask);
      DHashForgetsOne(DHashAfter(h, Init(strides), mask), DHashAfter(g, Init(strides), mask), Last(strides), mask, TwoBits(|strides| - 1));
    }
  }

  lemma NothingAgrees(h: Word, g: Word)
    ensures Agree(h, g, 0)
  {
  }

  predicate Covers(bits: Word, mask: Word) {
    mask & bits == mask
  }

  lemma SixMore(level: Byte)
    requires 6 <= level <= 62
    ensures TableMask(level) == (TableMask(level - 6) << 6) | 0x3f
  {
  }

  lemma TwoMore(level: Byte)
    requires 2 <= level <= 62
    ensures TableMask(level) == (TableMask(level - 2) << 2) | 0x3
  {
  }

  lemma FewBits(level: Byte)
    requires level <= 6
    ensures TableMask(level) & 0x3f == TableMask(level) && (level <= 2 ==> TableMask(level) & 0x3 == TableMask(level))
    ensures TableMask(0) == 0
  {
  }

  lemma CoversShifted(bits: Word, mask: Word)
    ensures Covers(bits, mask) ==> Covers((bits << 6) | 0x3f, (mask << 6) | 0x3f) && Covers((bits << 2) | 0x3, (mask << 2) | 0x3)
    ensures mask & 0x3f == mask ==> Covers((bits << 6) | 0x3f, mask)
    ensures mask & 0x3 == mask ==> Covers((bits << 2) | 0x3, mask)
  {
  }

  lemma {:induction false} SixBitsCover(level: Byte, k: nat)
    requires level <= 62 && level as nat <= 6 * k
    ensures Covers(SixBits(k), TableMask(level))
    decreases k
  {
    if k == 0 {
      FewBits(0);
      NoBits(SixBits(0));
    } else if level <= 6 {
      FewBits(level);
      hide TableMask, Covers;
      CoversShifted(SixBits(k - 1), TableMask(level));
    } else {
      var less := level - 6;
      Less(level);
      SixMore(level);
      hide TableMask, Covers;
      SixBitsCover(less, k - 1);
      CoversShifted(SixBits(k - 1), TableMask(less));
    }
  }

  lemma Less(level: Byte)
    ensures level >= 6 ==> (level - 6) as nat == level as nat - 6
    ensures level >= 2 ==> (level - 2) as nat == level as nat - 2
  {
  }

  lemma {:induction false} TwoBitsCover(level: Byte, k: nat)
    requires level <= 62 && level as nat <= 2 * k
    ensures Covers(TwoBits(k), TableMask(level))
    decreases k
  {
    if k == 0 {
      FewBits(0);
      NoBits(TwoBits(0));
    } else if level <= 2 {
      FewBits(level);
      hide TableMask, Covers;
      CoversShifted(TwoBits(k - 1), TableMask(level));
    } else {
      var less := level - 2;
      Less(level);
      TwoMore(level);
      hide TableMask, Covers;
      TwoBitsCover(less, k - 1);
      CoversShifted(TwoBits(k - 1), TableMask(less));
    }
  }

  lemma NoBits(bits: Word)
    ensures Covers(bits, 0)
  {
  }

  predicate InTable(h: Word, mask: Word) {
    h & mask == h
  }

  /** Hashes within a table that agree on all its bits are the same. */
  lemma CoveredAgree(h: Word, g: Word, bits: Word, mask: Word)
    requires Agree(h, g, bits) && Covers(bits, mask) && InTable(h, mask) && InTable(g, mask)
    ensures h == g
  {
  }

  lemma Masked(h: Word, v: Word, mask: Word)
    ensures InTable(NextHash(h, v, mask), mask) && InTable(NextDHash(h, v, mask), mask)
  {
  }

  lemma {:induction false} HashInTable(h: Word, vals: seq<Word>, mask: Word)
    requires vals != []
    ensures InTable(HashAfter(h, vals, mask), mask)
  {
    Masked(HashAfter(h, Init(vals), mask), Last(vals), mask);
    hide NextHash, InTable;
  }

  lemma {:induction false} DHashInTable(h: Word, strides: seq<Word>, mask: Word)
    requires strides != []
    ensures InTable(DHashAfter(h, strides, mask), mask)
  {
    Masked(DHashAfter(h, Init(strides), mask), Last(strides), mask);
    hide NextDHash;
  }

  /** At a level, the first hash depends on no more than the last level / 6 values, rounded up. */
  lemma HashForgets(level: Byte, h: Word, g: Word, vals: seq<Word>)
    requires level <= 62 && vals != [] && level as nat <= 6 * |vals|
    ensures HashAfter(h, vals, TableMask(level)) == HashAfter(g, vals, TableMask(level))
  {
    hide TableMask, Covers, Agree, HashAfter, InTable;
    var mask := TableMask(level);
    HashAgrees(h, g, vals, mask);
    SixBitsCover(level, |vals|);
    HashInTable(h, vals, mask);
    HashInTable(g, vals, mask);
    CoveredAgree(HashAfter(h, vals, mask), HashAfter(g, vals, mask), SixBits(|vals|), mask);
  }

  /** And the second hash on no more than the last level / 2 strides, rounded up. */
  lemma DHashForgets(level: Byte, h: Word, g: Word, strides: seq<Word>)
    requires level <= 62 && strides != [] && level as nat <= 2 * |strides|
    ensures DHashAfter(h, strides, TableMask(level)) == DHashAfter(g, strides, TableMask(level))
  {
    hide TableMask, Covers, Agree, DHashAfter, InTable;
    var mask := TableMask(level);
    DHashAgrees(h, g, strides, mask);
    TwoBitsCover(level, |strides|);
    DHashInTable(h, strides, mask);
    DHashInTable(g, strides, mask);
    CoveredAgree(DHashAfter(h, strides, mask), DHashAfter(g, strides, mask), TwoBits(|strides|), mask);
  }

  // ----- The size of the tables -----

  function PowerOfTwo(n: nat): nat {
    if n == 0 then 1 else 2 * PowerOfTwo(n - 1)
  }

  function DoubleAndOne(w: Word): Word {
    (w << 1) | 1
  }

  function DoubleByte(b: Byte, carry: Byte): Byte {
    (b << 1) | carry
  }

  function TopBit(b: Byte): (carry: Byte)
    ensures carry <= 1
  {
    b >> 7
  }

  /** Each byte of `c` is that of `b` doubled, with the top bit of the one below it. */
  predicate Doubled(b: seq<Byte>, c: seq<Byte>, carry: Byte)
    requires |b| == |c|
  {
    && (b == [] || c[0] == DoubleByte(b[0], carry))
    && (forall i | 1 <= i < |b| :: c[i] == DoubleByte(b[i], TopBit(b[i - 1])))
  }

  lemma LowerDoubled(w: Word)
    ensures (DoubleAndOne(w) & 0xff) as Byte == DoubleByte((w & 0xff) as Byte, 1)
    ensures ((DoubleAndOne(w) >> 8) & 0xff) as Byte == DoubleByte(((w >> 8) & 0xff) as Byte, TopBit((w & 0xff) as Byte))
    ensures ((DoubleAndOne(w) >> 16) & 0xff) as Byte == DoubleByte(((w >> 16) & 0xff) as Byte, TopBit(((w >> 8) & 0xff) as Byte))
    ensures ((DoubleAndOne(w) >> 24) & 0xff) as Byte == DoubleByte(((w >> 24) & 0xff) as Byte, TopBit(((w >> 16) & 0xff) as Byte))
  {
    Bits.LowerDoubled(w);
  }

  lemma UpperDoubled(w: Word)
    requires w >> 63 == 0
    ensures ((DoubleAndOne(w) >> 32) & 0xff) as Byte == DoubleByte(((w >> 32) & 0xff) as Byte, TopBit(((w >> 24) & 0xff) as Byte))
    ensures ((DoubleAndOne(w) >> 40) & 0xff) as Byte == DoubleByte(((w >> 40) & 0xff) as Byte, TopBit(((w >> 32) & 0xff) as Byte))
    ensures ((DoubleAndOne(w) >> 48) & 0xff) as Byte == DoubleByte(((w >> 48) & 0xff) as Byte, TopBit(((w >> 40) & 0xff) as Byte))
    ensures ((DoubleAndOne(w) >> 56) & 0xff) as Byte == DoubleByte(((w >> 56) & 0xff) as Byte, TopBit(((w >> 48) & 0xff) as Byte))
    ensures TopBit(((w >> 56) & 0xff) as Byte) == 0
  {
    Bits.UpperDoubled(w);
  }

  lemma DoubledList(b: seq<Byte>, c: seq<Byte>)
    requires |b| == |c| == 8
    requires c[0] == DoubleByte(b[0], 1) && c[1] == DoubleByte(b[1], TopBit(b[0])) && c[2] == DoubleByte(b[2], TopBit(b[1]))
    requires c[3] == DoubleByte(b[3], TopBit(b[2])) && c[4] == DoubleByte(b[4], TopBit(b[3])) && c[5] == DoubleByte(b[5], TopBit(b[4]))
    requires c[6] == DoubleByte(b[6], TopBit(b[5])) && c[7] == DoubleByte(b[7], TopBit(b[6]))
    ensures Doubled(b, c, 1)
  {
    hide DoubleByte, TopBit;
    forall i | 1 <= i < 8
      ensures c[i] == DoubleByte(b[i], TopBit(b[i - 1]))
    {
      if i <= 3 {
        assert i == 1 || i == 2 || i == 3;
      } else {
        assert i == 4 || i == 5 || i == 6 || i == 7;
      }
    }
  }

  lemma BytesAre(w: Word)
    ensures Bytes(w) == [(w & 0xff) as Byte, ((w >> 8) & 0xff) as Byte, ((w >> 16) & 0xff) as Byte, ((w >> 24) & 0xff) as Byte,
                         ((w >> 32) & 0xff) as Byte, ((w >> 40) & 0xff) as Byte, ((w >> 48) & 0xff) as Byte, ((w >> 56) & 0xff) as Byte]
  {
  }

  lemma DoubledBytes(w: Word)
    requires w >> 63 == 0
    ensures Doubled(Bytes(w), Bytes(DoubleAndOne(w)), 1) && TopBit(Bytes(w)[7]) == 0
  {
    hide *;
    BytesAre(w);
    BytesAre(DoubleAndOne(w));
    LowerDoubled(w);
    UpperDoubled(w);
    DoubledList(Bytes(w), Bytes(DoubleAndOne(w)));
  }

  lemma DoubledValueOfByte(b: Byte, carry: Byte)
    requires carry <= 1
    ensures DoubleByte(b, carry) as nat == 2 * (b as nat) + (carry as nat) - 256 * (TopBit(b) as nat)
  {
    Bits.DoubledByte(b, carry);
  }

  lemma {:induction false} DoubledValue(b: seq<Byte>, c: seq<Byte>, carry: Byte)
    requires |b| == |c| > 0 && Doubled(b, c, carry) && carry <= 1 && TopBit(b[|b| - 1]) == 0
    ensures Value(c) == 2 * Value(b) + carry as nat
  {
    hide DoubleByte, TopBit;
    DoubledValueOfByte(b[0], carry);
    var low, low', top := b[0] as nat, c[0] as nat, TopBit(b[0]) as nat;
    assert Value(b) == low + 256 * Value(b[1..]) && Value(c) == low' + 256 * Value(c[1..]);
    if |b| == 1 {
      assert top == 0 && Value([]) == 0;
    } else {
      DoubledValue(b[1..], c[1..], TopBit(b[0]));
    }
  }

  lemma IndexDoubles(w: Word)
    requires w >> 63 == 0
    ensures Index(DoubleAndOne(w)) == 2 * Index(w) + 1
  {
    DoubledBytes(w);
    hide Bytes, DoubleAndOne, Value, Doubled, TopBit;
    DoubledValue(Bytes(w), Bytes(DoubleAndOne(w)), 1);
  }

  lemma NextMask(level: Byte)
    requires 0 < level <= 62
    ensures TableMask(level) == DoubleAndOne(TableMask(level - 1)) && TableMask(level - 1) >> 63 == 0
  {
  }

  lemma OneLess(level: Byte)
    ensures level > 0 ==> (level - 1) as nat == level as nat - 1
  {
  }

  /** A table has two to the level entries. */
  lemma {:induction false} TableSize(level: Byte)
    requires level <= 62
    ensures |Initial(level).fcm| == |Initial(level).dfcm| == Index(TableMask(level)) + 1 == PowerOfTwo(level as nat)
    decreases level as nat
  {
    if level == 0 {
      FewBits(0);
      ZeroIndex();
    } else {
      OneLess(level);
      NextMask(level);
      hide TableMask, Index, DoubleAndOne;
      TableSize(level - 1);
      IndexDoubles(TableMask(level - 1));
    }
  }

  /** Different hashes are different places of a table. */
  lemma IndexInjective(v: Word, w: Word)
    ensures Index(v) == Index(w) <==> v == w
  {
    if Index(v) == Index(w) {
      ValueInjective(Bytes(v), Bytes(w));
      JoinBytes(v);
      JoinBytes(w);
      hide Bytes, Value;
    }
  }

  lemma {:induction false} ValueInjective(s: seq<Byte>, t: seq<Byte>)
    requires |s| == |t| && Value(s) == Value(t)
    ensures s == t
  {
    if s != [] {
      Bits.ByteOf(s[0]);
      Bits.ByteOf(t[0]);
      var x, y := s[0] as nat, t[0] as nat;
      assert x + 256 * Value(s[1..]) == y + 256 * Value(t[1..]);
      SameDigits(x, Value(s[1..]), y, Value(t[1..]));
      ValueInjective(s[1..], t[1..]);
      Bits.SameByte(s[0], t[0]);
      assert s == [s[0]] + s[1..] && t == [t[0]] + t[1..];
    }
  }

  lemma SameDigits(x: nat, m: nat, y: nat, n: nat)
    requires x < 256 && y < 256 && x + 256 * m == y + 256 * n
    ensures x == y && m == n
  {
  }
}
