/** 64-bit words, their little-endian bytes, and the word-at-a-time packing that FPC uses to write
    and read residuals at any byte offset. */
module Words {
  type Byte = bv8
  type Word = bv64

  /** The eight bytes of a word as they lie in memory, least significant first. */
  function Bytes(w: Word): (s: seq<Byte>)
    ensures |s| == 8
  {
    [(w & 0xff) as Byte, ((w >> 8) & 0xff) as Byte, ((w >> 16) & 0xff) as Byte, ((w >> 24) & 0xff) as Byte,
     ((w >> 32) & 0xff) as Byte, ((w >> 40) & 0xff) as Byte, ((w >> 48) & 0xff) as Byte, ((w >> 56) & 0xff) as Byte]
  }

  /** The word that eight consecutive bytes of memory hold. */
  function Join(b: seq<Byte>): Word
    requires |b| == 8
  {
    (b[0] as Word) | ((b[1] as Word) << 8) | ((b[2] as Word) << 16) | ((b[3] as Word) << 24) |
    ((b[4] as Word) << 32) | ((b[5] as Word) << 40) | ((b[6] as Word) << 48) | ((b[7] as Word) << 56)
  }

  lemma JoinBytes(w: Word)
    ensures Join(Bytes(w)) == w
  {
  }

  lemma BytesJoin(b: seq<Byte>)
    requires |b| == 8
    ensures Bytes(Join(b)) == b
  {
  }

  function Zeros(n: nat): (z: seq<Byte>)
    ensures |z| == n
  {
    seq(n, i => 0)
  }

  // ----- Shifts by whole bytes -----

  function ShiftLeftOne(w: Word): Word {
    w << 8
  }

  function ShiftRightOne(w: Word): Word {
    w >> 8
  }

  /** `w` shifted left by `k` bytes, that is by `8 * k` bits. */
  function ShiftLeft(w: Word, k: nat): Word {
    if k == 0 then w else ShiftLeftOne(ShiftLeft(w, k - 1))
  }

  /** `w` shifted right, without sign, by `k` bytes. */
  function ShiftRight(w: Word, k: nat): Word {
    if k == 0 then w else ShiftRightOne(ShiftRight(w, k - 1))
  }

  lemma ShiftLeftOneBytes(w: Word)
    ensures Bytes(ShiftLeftOne(w)) == [0] + Bytes(w)[..7]
  {
    var b := Bytes(w);
    assert Bytes(w << 8) == [0, b[0], b[1], b[2], b[3], b[4], b[5], b[6]];
  }

  lemma ShiftRightOneBytes(w: Word)
    ensures Bytes(ShiftRightOne(w)) == Bytes(w)[1..] + [0]
  {
    var b := Bytes(w);
    assert Bytes(w >> 8) == [b[1], b[2], b[3], b[4], b[5], b[6], b[7], 0];
  }

  lemma {:induction false} ShiftLeftBytes(w: Word, k: nat)
    requires k <= 8
    ensures Bytes(ShiftLeft(w, k)) == Zeros(k) + Bytes(w)[..8 - k]
  {
    hide Bytes, ShiftLeftOne;
    if k > 0 {
      ShiftLeftBytes(w, k - 1);
      ShiftLeftOneBytes(ShiftLeft(w, k - 1));
    }
  }

  lemma {:induction false} ShiftRightBytes(w: Word, k: nat)
    requires k <= 8
    ensures Bytes(ShiftRight(w, k)) == Bytes(w)[k..] + Zeros(k)
  {
    hide Bytes, ShiftRightOne;
    if k > 0 {
      ShiftRightBytes(w, k - 1);
      ShiftRightOneBytes(ShiftRight(w, k - 1));
    }
  }

  // ----- OR of words that do not overlap -----

  function Or(v: Word, w: Word): Word {
    v | w
  }

  function OrByte(a: Byte, b: Byte): Byte {
    a | b
  }

  lemma OrBytes(v: Word, w: Word)
    ensures Bytes(v | w) == [OrByte(Bytes(v)[0], Bytes(w)[0]), OrByte(Bytes(v)[1], Bytes(w)[1]),
                             OrByte(Bytes(v)[2], Bytes(w)[2]), OrByte(Bytes(v)[3], Bytes(w)[3]),
                             OrByte(Bytes(v)[4], Bytes(w)[4]), OrByte(Bytes(v)[5], Bytes(w)[5]),
                             OrByte(Bytes(v)[6], Bytes(w)[6]), OrByte(Bytes(v)[7], Bytes(w)[7])]
  {
  }

  lemma OrByteAt(v: Word, w: Word, j: nat)
    requires j < 8
    ensures Bytes(Or(v, w))[j] == OrByte(Bytes(v)[j], Bytes(w)[j])
  {
    OrBytes(v, w);
    assert Or(v, w) == v | w;
    hide Bytes, Or, OrByte;
    assert j == 0 || j == 1 || j == 2 || j == 3 || j == 4 || j == 5 || j == 6 || j == 7;
  }

  lemma OrWithZero(b: Byte)
    ensures OrByte(b, 0) == b && OrByte(0, b) == b
  {
  }

  /** OR-ing two words whose non-zero bytes do not overlap puts one after the other. */
  lemma OrDisjoint(v: Word, w: Word, k: nat, left: seq<Byte>, right: seq<Byte>)
    requires k <= 8 && |left| == k && |right| == 8 - k
    requires Bytes(v) == left + Zeros(8 - k)
    requires Bytes(w) == Zeros(k) + right
    ensures Bytes(Or(v, w)) == left + right
  {
    hide Bytes, Or, OrByte;
    forall j | 0 <= j < 8
      ensures Bytes(Or(v, w))[j] == (left + right)[j]
    {
      OrByteAt(v, w, j);
      OrWithZero(Bytes(v)[j]);
      OrWithZero(Bytes(w)[j]);
    }
  }

  // ----- AND: table indices and masks -----

  function And(v: Word, w: Word): Word {
    v & w
  }

  function AndByte(a: Byte, b: Byte): Byte {
    a & b
  }

  lemma AndBytes(v: Word, w: Word)
    ensures Bytes(v & w) == [AndByte(Bytes(v)[0], Bytes(w)[0]), AndByte(Bytes(v)[1], Bytes(w)[1]),
                             AndByte(Bytes(v)[2], Bytes(w)[2]), AndByte(Bytes(v)[3], Bytes(w)[3]),
                             AndByte(Bytes(v)[4], Bytes(w)[4]), AndByte(Bytes(v)[5], Bytes(w)[5]),
                             AndByte(Bytes(v)[6], Bytes(w)[6]), AndByte(Bytes(v)[7], Bytes(w)[7])]
  {
  }

  lemma AndByteAt(v: Word, w: Word, j: nat)
    requires j < 8
    ensures Bytes(And(v, w))[j] == AndByte(Bytes(v)[j], Bytes(w)[j])
  {
    AndBytes(v, w);
    assert And(v, w) == v & w;
    hide Bytes, And, AndByte;
    assert j == 0 || j == 1 || j == 2 || j == 3 || j == 4 || j == 5 || j == 6 || j == 7;
  }

  lemma AndByteAtMost(a: Byte, b: Byte)
    ensures AndByte(a, b) as nat <= b as nat
  {
  }

  lemma AndByteEnds(b: Byte)
    ensures AndByte(b, 0xff) == b && AndByte(b, 0) == 0
  {
  }

  /** The number that little-endian bytes stand for. */
  function Value(s: seq<Byte>): nat {
    if s == [] then 0 else s[0] as nat + 256 * Value(s[1..])
  }

  lemma {:induction false} ValueMonotone(s: seq<Byte>, t: seq<Byte>)
    requires |s| == |t|
    requires forall i | 0 <= i < |s| :: s[i] as nat <= t[i] as nat
    ensures Value(s) <= Value(t)
  {
    if s != [] {
      ValueMonotone(s[1..], t[1..]);
    }
  }

  /** The lowest byte of a number and the others make up the number. */
  lemma DigitStep(n: nat, m: nat)
    requires m > 0
    ensures n % 256 + 256 * (n / 256 % m) == n % (256 * m)
  {
    var q := n / 256;
    var low := n % 256 + 256 * (q % m);
    assert n == 256 * q + n % 256;
    assert q == m * (q / m) + q % m;
    assert 256 * (m * (q / m)) == (256 * m) * (q / m);
    Remainder(n, 256 * m, q / m, low);
  }

  lemma Remainder(n: nat, d: nat, q: nat, r: nat)
    requires d > 0 && n == d * q + r && r < d
    ensures n % d == r && n / d == q
  {
    var p := n / d;
    assert n == d * p + n % d;
    if p < q {
      assert d * p + d <= d * q by { LargerFactor(d, p + 1, q); }
    } else if q < p {
      assert d * q + d <= d * p by { LargerFactor(d, q + 1, p); }
    }
  }

  lemma LargerFactor(d: nat, p: nat, q: nat)
    requires p <= q
    ensures d * p <= d * q
  {
  }

  /** Cutting off two bytes at once or one after the other. */
  lemma TwoBytesOff(n: nat)
    ensures n / 256 / 256 == n / 0x1_0000
  {
    var q := n / 256;
    var r := n % 256 + 256 * (q % 256);
    assert n == 256 * q + n % 256 && q == 256 * (q / 256) + q % 256;
    Remainder(n, 0x1_0000, q / 256, r);
  }

  /** A word used as an array index. */
  function Index(w: Word): nat {
    Value(Bytes(w))
  }

  /** AND-ing with the table mask keeps a hash inside the table. */
  lemma MaskedIndex(x: Word, mask: Word)
    ensures Index(And(x, mask)) <= Index(mask)
  {
    hide Bytes, And, AndByte;
    forall i | 0 <= i < 8
      ensures Bytes(And(x, mask))[i] as nat <= Bytes(mask)[i] as nat
    {
      AndByteAt(x, mask, i);
      AndByteAtMost(Bytes(x)[i], Bytes(mask)[i]);
    }
    ValueMonotone(Bytes(And(x, mask)), Bytes(mask));
  }

  lemma DoubledByte(b: Byte)
    requires b as nat < 128
    ensures (b << 1) as nat == 2 * (b as nat)
    ensures ((b << 1) | 1) as nat == 2 * (b as nat) + 1
  {
  }

  /** The byte with value `n`, built from its binary digits. */
  function ByteOf(n: nat): (b: Byte)
    requires n < 256
    ensures b as nat == n
  {
    if n == 0 then 0 else
      var half := ByteOf(n / 2);
      DoubledByte(half);
      if n % 2 == 0 then half << 1 else (half << 1) | 1
  }

  // ----- Residual lengths -----

  /** Number of bytes that a three-bit length code stands for: 0, 1, 2, 3, 5, 6, 7 or 8. */
  function Width(bcode: Byte): nat {
    bcode as nat + (bcode >> 2) as nat
  }

  lemma WidthValues(bcode: Byte)
    requires bcode < 8
    ensures bcode == 0 || bcode == 1 || bcode == 2 || bcode == 3 || bcode == 4 || bcode == 5 || bcode == 6 || bcode == 7
    ensures Width(0) == 0 && Width(1) == 1 && Width(2) == 2 && Width(3) == 3
    ensures Width(4) == 5 && Width(5) == 6 && Width(6) == 7 && Width(7) == 8
    ensures Width(bcode) <= 8
  {
  }

  /** The length code that FPC picks for a residual. */
  function LengthCode(x: Word): (bcode: Byte)
    ensures bcode < 8
  {
    if x == 0 then 0
    else if x >> 8 == 0 then 1
    else if x >> 16 == 0 then 2
    else if x >> 24 == 0 then 3
    else if x >> 40 == 0 then 4
    else if x >> 48 == 0 then 5
    else if x >> 56 == 0 then 6
    else 7
  }

  /** `x` is zero above its low `n` bytes. */
  ghost predicate Fits(x: Word, n: nat)
    requires n <= 8
  {
    Bytes(x)[n..] == Zeros(8 - n)
  }

  lemma ShiftedOut(x: Word)
    ensures var b := Bytes(x);
            && (x == 0 <==> b[0] == b[1] == b[2] == b[3] == b[4] == b[5] == b[6] == b[7] == 0)
            && (x >> 8 == 0 <==> b[1] == b[2] == b[3] == b[4] == b[5] == b[6] == b[7] == 0)
            && (x >> 16 == 0 <==> b[2] == b[3] == b[4] == b[5] == b[6] == b[7] == 0)
            && (x >> 24 == 0 <==> b[3] == b[4] == b[5] == b[6] == b[7] == 0)
            && (x >> 40 == 0 <==> b[5] == b[6] == b[7] == 0)
            && (x >> 48 == 0 <==> b[6] == b[7] == 0)
            && (x >> 56 == 0 <==> b[7] == 0)
  {
  }

  /** The code picked is the smallest one whose width holds the residual. */
  lemma LengthCodeIsLeast(x: Word, bcode: Byte)
    requires bcode < 8
    ensures Width(bcode) <= 8
    ensures Fits(x, Width(bcode)) <==> LengthCode(x) <= bcode
  {
    WidthValues(bcode);
    ShiftedOut(x);
    hide Bytes, Width;
    FitsFrom(x, Width(bcode));
  }

  lemma FitsFrom(x: Word, n: nat)
    requires n <= 8
    ensures Fits(x, n) <==> forall j | n <= j < 8 :: Bytes(x)[j] == 0
  {
    hide Bytes;
    if Fits(x, n) {
      forall j | n <= j < 8
        ensures Bytes(x)[j] == 0
      {
        assert Bytes(x)[j] == Bytes(x)[n..][j - n];
      }
    }
  }

  predicate Above(a: Word, b: Word) {
    a > b
  }

  lemma LengthCodeMonotone(x: Word, y: Word)
    requires !Above(x, y)
    ensures Width(LengthCode(x)) <= Width(LengthCode(y))
  {
    WidthValues(LengthCode(x));
  }

  /** The masks that a decoder applies, one per length code. */
  function Mask(bcode: Byte): Word
    requires bcode < 8
  {
    if bcode == 0 then 0
    else if bcode == 1 then 0xff
    else if bcode == 2 then 0xffff
    else if bcode == 3 then 0xff_ffff
    else if bcode == 4 then 0xff_ffff_ffff
    else if bcode == 5 then 0xffff_ffff_ffff
    else if bcode == 6 then 0xff_ffff_ffff_ffff
    else 0xffff_ffff_ffff_ffff
  }

  lemma MaskBytes(bcode: Byte)
    requires bcode < 8
    ensures Width(bcode) <= 8
    ensures Bytes(Mask(bcode)) == seq(8, j => if j < Width(bcode) then 0xff else 0)
  {
    WidthValues(bcode);
    hide Width;
  }

  /** The word whose low bytes are `s` and whose other bytes are zero. */
  function FromLow(s: seq<Byte>): Word
    requires |s| <= 8
  {
    Join(s + Zeros(8 - |s|))
  }

  lemma FromLowFits(x: Word, n: nat)
    requires n <= 8 && Fits(x, n)
    ensures FromLow(Bytes(x)[..n]) == x
  {
    hide Bytes, Join;
    JoinBytes(x);
    assert Bytes(x)[..n] + Zeros(8 - n) == Bytes(x);
  }

  /** Masking a word by its length code leaves its low bytes. */
  lemma MaskedWord(w: Word, bcode: Byte)
    requires bcode < 8
    ensures Width(bcode) <= 8
    ensures And(w, Mask(bcode)) == FromLow(Bytes(w)[..Width(bcode)])
  {
    MaskBytes(bcode);
    hide Bytes, Join, And, AndByte, Mask, Width;
    var n := Width(bcode);
    MaskedBytes(w, Mask(bcode), n);
    JoinBytes(And(w, Mask(bcode)));
  }

  lemma MaskedBytes(w: Word, mask: Word, n: nat)
    requires n <= 8 && Bytes(mask) == seq(8, j => if j < n then 0xff else 0)
    ensures Bytes(And(w, mask)) == Bytes(w)[..n] + Zeros(8 - n)
  {
    hide Bytes, And, AndByte;
    var masked := Bytes(And(w, mask));
    forall j | 0 <= j < 8
      ensures masked[j] == (Bytes(w)[..n] + Zeros(8 - n))[j]
    {
      AndByteAt(w, mask, j);
      AndByteEnds(Bytes(w)[j]);
    }
  }

  // ----- Word access to byte buffers -----

  /** The start of the aligned word that byte `i` of a buffer belongs to. */
  function Aligned(i: nat): nat {
    i / 8 * 8
  }

  method LoadWord(a: array<Byte>, i: nat) returns (w: Word)
    requires i + 8 <= a.Length
    ensures w == Join(a[i..i + 8]) && Bytes(w) == a[i..i + 8]
  {
    w := Join(a[i..i + 8]);
    BytesJoin(a[i..i + 8]);
  }

  method StoreWord(a: array<Byte>, i: nat, w: Word)
    requires i + 8 <= a.Length
    modifies a
    ensures a[..] == old(a[..i]) + Bytes(w) + old(a[i + 8..])
  {
    var b := Bytes(w);
    forall j | 0 <= j < 8 {
      a[i + j] := b[j];
    }
    hide Bytes;
  }

  /** The two words that hold the bytes of `residual` from offset `k` of the first one on. */
  lemma SplitResidual(current: Word, residual: Word, k: nat, left: seq<Byte>)
    requires k < 8 && |left| == k && Bytes(current) == left + Zeros(8 - k)
    ensures Bytes(Or(current, ShiftLeft(residual, k))) == left + Bytes(residual)[..8 - k]
    ensures Bytes(ShiftRight(if k == 0 then 0 else residual, 8 - k)) == Bytes(residual)[8 - k..] + Zeros(8 - k)
  {
    hide Bytes, ShiftLeft, ShiftRight, Or;
    ShiftLeftBytes(residual, k);
    OrDisjoint(current, ShiftLeft(residual, k), k, left, Bytes(residual)[..8 - k]);
    if k == 0 {
      ShiftRightBytes(0, 8);
    } else {
      ShiftRightBytes(residual, 8 - k);
    }
  }

  lemma ZeroBytes()
    ensures Bytes(0) == Zeros(8)
  {
  }

  lemma StoresAppend(was: seq<Byte>, first: seq<Byte>, second: seq<Byte>, out: nat, base: nat, b: seq<Byte>)
    requires base <= out < base + 8 && base + 16 <= |was| && |b| == 8
    requires first == was[..base] + (was[base..out] + b[..8 - (out - base)]) + was[base + 8..]
    requires second == first[..base + 8] + (b[8 - (out - base)..] + Zeros(8 - (out - base))) + first[base + 16..]
    ensures second == was[..out] + b + Zeros(8 - (out - base)) + was[base + 16..]
  {
    hide Zeros;
    var k := out - base;
    assert first[..base + 8] == was[..out] + b[..8 - k];
    assert first[base + 16..] == was[base + 16..];
    assert b[..8 - k] + b[8 - k..] == b;
  }

  /** OR-ing a residual into the current word and overwriting the next one appends the eight bytes
      of the residual at `out`, whatever the alignment, and leaves only zeros after them. */
  method AppendResidual(outbuf: array<Byte>, out: nat, residual: Word)
    requires Aligned(out) + 16 <= outbuf.Length
    requires outbuf[out..Aligned(out) + 8] == Zeros(Aligned(out) + 8 - out)
    modifies outbuf
    ensures outbuf[..] == old(outbuf[..out]) + Bytes(residual) + Zeros(Aligned(out) + 8 - out) + old(outbuf[Aligned(out) + 16..])
  {
    hide Bytes, ShiftLeft, ShiftRight, Or, Join, Zeros;
    var base, k := Aligned(out), out % 8;
    var current := LoadWord(outbuf, base);
    ghost var was := outbuf[..];
    assert was[base..base + 8] == was[base..out] + was[out..base + 8];
    SplitResidual(current, residual, k, was[base..out]);
    StoreWord(outbuf, base, Or(current, ShiftLeft(residual, k)));
    ghost var first := outbuf[..];
    StoreWord(outbuf, base + 8, ShiftRight(if k == 0 then 0 else residual, 8 - k));
    StoresAppend(was, first, outbuf[..], out, base, Bytes(residual));
  }

  lemma SpliceWords(first: Word, second: Word, k: nat)
    requires k < 8
    ensures Bytes(Or(ShiftRight(first, k), if k == 0 then 0 else ShiftLeft(second, 8 - k))) == Bytes(first)[k..] + Bytes(second)[..k]
  {
    hide Bytes, ShiftLeft, ShiftRight, Or;
    ShiftRightBytes(first, k);
    if k == 0 {
      ZeroBytes();
      OrDisjoint(ShiftRight(first, 0), 0, 8, Bytes(first), []);
    } else {
      ShiftLeftBytes(second, 8 - k);
      OrDisjoint(ShiftRight(first, k), ShiftLeft(second, 8 - k), 8 - k, Bytes(first)[k..], Bytes(second)[..k]);
    }
  }

  lemma SliceAcross(s: seq<Byte>, base: nat, k: nat)
    requires k < 8 && base + 16 <= |s|
    ensures s[base..base + 8][k..] + s[base + 8..base + 16][..k] == s[base + k..base + k + 8]
  {
  }

  /** Splicing two aligned words reads the eight bytes that start at `i`, whatever the alignment. */
  method ReadUnaligned(inbuf: array<Byte>, i: nat) returns (val: Word)
    requires Aligned(i) + 16 <= inbuf.Length
    ensures Bytes(val) == inbuf[i..i + 8]
  {
    hide Bytes, Join, ShiftLeft, ShiftRight, Or;
    var base, k := Aligned(i), i % 8;
    val := LoadWord(inbuf, base);
    var next := LoadWord(inbuf, base + 8);
    SpliceWords(val, next, k);
    SliceAcross(inbuf[..], base, k);
    assert inbuf[..][base..base + 8] == inbuf[base..base + 8] && inbuf[..][base + 8..base + 16] == inbuf[base + 8..base + 16];
    val := ShiftRight(val, k);
    next := ShiftLeft(next, 8 - k);
    if k == 0 {
      next := 0;
    }
    val := Or(val, next);
  }
}
