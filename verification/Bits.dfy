/** Single bits of a 64-bit mask, as the data plane uses them for core masks
    and for the side bitmap of the lookup table. */
module Bits {

  predicate HasBit(m: bv64, c: bv6) {
    (m >> c) & 1 == 1
  }

  function SetBit(m: bv64, c: bv6): bv64 {
    m | (1 << c)
  }

  function FlipBit(m: bv64, c: bv6): bv64 {
    m ^ (1 << c)
  }

  function FlipAll(m: bv64): bv64 {
    m ^ 0xFFFF_FFFF_FFFF_FFFF
  }

  lemma EmptyMask(c: bv6)
    ensures !HasBit(0, c)
  {
  }

  lemma SetBitMember(m: bv64, c: bv6, d: bv6)
    ensures HasBit(SetBit(m, c), d) <==> d == c || HasBit(m, d)
  {
  }

  lemma FlipBitMember(m: bv64, c: bv6, d: bv6)
    ensures HasBit(FlipBit(m, c), d) <==> ((d == c) != HasBit(m, d))
  {
  }

  lemma FlipAllMember(m: bv64, d: bv6)
    ensures HasBit(FlipAll(m), d) <==> !HasBit(m, d)
  {
  }

  /** A non-zero mask has a set bit; found by halving. */
  lemma SomeBit(m: bv64) returns (c: bv6)
    requires m != 0
    ensures HasBit(m, c)
  {
    c := 0;
    if (m >> c) & 0xFFFF_FFFF == 0 { c := c + 32; }
    if (m >> c) & 0xFFFF == 0 { c := c + 16; }
    if (m >> c) & 0xFF == 0 { c := c + 8; }
    if (m >> c) & 0xF == 0 { c := c + 4; }
    if (m >> c) & 0x3 == 0 { c := c + 2; }
    if (m >> c) & 0x1 == 0 { c := c + 1; }
  }

  lemma XorBit(a: bv64, b: bv64, c: bv6)
    ensures HasBit(a ^ b, c) <==> HasBit(a, c) != HasBit(b, c)
  {
  }

  /** Two masks with the same members are the same word. */
  lemma SameBits(a: bv64, b: bv64)
    requires forall c: bv6 :: HasBit(a, c) <==> HasBit(b, c)
    ensures a == b
  {
    if a ^ b != 0 {
      var c := SomeBit(a ^ b);
      XorBit(a, b, c);
    }
  }
}
