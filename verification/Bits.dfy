/** Facts about the bits of 64-bit words, on the operators themselves. */
module Bits {

  lemma SameUnderMask(a: bv64, b: bv64, c: bv64, mask: bv64)
    ensures (a ^ b) & mask == (a ^ c) & mask <==> b & mask == c & mask
  {
    LikeMixes(a, b, c, mask);
    UnlikeMixes(a, b, c, mask);
  }

  lemma LikeMixes(a: bv64, b: bv64, c: bv64, mask: bv64)
    ensures b & mask == c & mask ==> (a ^ b) & mask == (a ^ c) & mask
  {
  }

  lemma UnlikeMixes(a: bv64, b: bv64, c: bv64, mask: bv64)
    ensures (a ^ b) & mask == (a ^ c) & mask ==> b & mask == c & mask
  {
  }

  lemma SameOrDifferent(a: bv64, b: bv64)
    ensures a ^ b == 0 <==> a == b
  {
  }

  /** A byte doubled, with the bit carried into it, and the bit carried out of it. */
  lemma DoubledByte(b: bv8, c: bv8)
    requires c <= 1
    ensures ((b << 1) | c) as nat == 2 * (b as nat) + (c as nat) - 256 * ((b >> 7) as nat)
    ensures (b >> 7) <= 1
  {
  }

  /** The bytes of a doubled word take in the top bits of the ones below them. */
  lemma LowerDoubled(w: bv64)
    ensures (((w << 1) | 1) & 0xff) as bv8 == (((w & 0xff) as bv8) << 1) | 1
    ensures ((((w << 1) | 1) >> 8) & 0xff) as bv8 == ((((w >> 8) & 0xff) as bv8) << 1) | (((w & 0xff) as bv8) >> 7)
    ensures ((((w << 1) | 1) >> 16) & 0xff) as bv8 == ((((w >> 16) & 0xff) as bv8) << 1) | ((((w >> 8) & 0xff) as bv8) >> 7)
    ensures ((((w << 1) | 1) >> 24) & 0xff) as bv8 == ((((w >> 24) & 0xff) as bv8) << 1) | ((((w >> 16) & 0xff) as bv8) >> 7)
  {
  }

  lemma UpperDoubled(w: bv64)
    ensures ((((w << 1) | 1) >> 32) & 0xff) as bv8 == ((((w >> 32) & 0xff) as bv8) << 1) | ((((w >> 24) & 0xff) as bv8) >> 7)
    ensures ((((w << 1) | 1) >> 40) & 0xff) as bv8 == ((((w >> 40) & 0xff) as bv8) << 1) | ((((w >> 32) & 0xff) as bv8) >> 7)
    ensures ((((w << 1) | 1) >> 48) & 0xff) as bv8 == ((((w >> 48) & 0xff) as bv8) << 1) | ((((w >> 40) & 0xff) as bv8) >> 7)
    ensures ((((w << 1) | 1) >> 56) & 0xff) as bv8 == ((((w >> 56) & 0xff) as bv8) << 1) | ((((w >> 48) & 0xff) as bv8) >> 7)
    ensures w >> 63 == 0 ==> (((w >> 56) & 0xff) as bv8) >> 7 == 0
  {
  }

  /** Two halves of a byte side by side. */
  lemma Halves(high: bv8, low: bv8)
    requires high < 16 && low < 16
    ensures ((high << 4) | low) as nat == 16 * (high as nat) + low as nat
  {
  }

  lemma Flagged(code: bv8)
    requires code < 8
    ensures (0x8 | code) as nat == 8 + code as nat && 0 | code == code
  {
  }

  lemma ByteOf(b: bv8)
    ensures b as nat < 256
  {
  }

  lemma SameByte(a: bv8, b: bv8)
    ensures a as nat == b as nat ==> a == b
  {
  }
}
