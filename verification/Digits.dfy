/** Telephony digits: numbers packed two decimal digits to a byte, low nibble
    first, with 0xf as filler. */
module Digits {
  import opened Octets

  type Digit = d: int | 0 <= d < 10
  type U64 = n: int | 0 <= n < 0x1_0000_0000_0000_0000

  const NO_NUMBER: U64 := 0xffff_ffff_ffff_ffff

  /** The decimal digits of a number, as %llu prints them. */
  function Dec(n: nat): (r: seq<Digit>)
    ensures |r| >= 1
  {
    if n < 10 then [n] else Dec(n / 10) + [n % 10]
  }

  function Value(ds: seq<Digit>): nat {
    if ds == [] then 0 else 10 * Value(ds[..|ds| - 1]) + ds[|ds| - 1]
  }

  lemma {:induction false} ValueOfDec(n: nat)
    ensures Value(Dec(n)) == n
  {
    if n >= 10 {
      ValueOfDec(n / 10);
      var ds := Dec(n);
      assert ds[..|ds| - 1] == Dec(n / 10);
    }
  }

  function Pow10(k: nat): nat {
    if k == 0 then 1 else 10 * Pow10(k - 1)
  }

  lemma {:induction false} DecLength(n: nat, k: nat)
    requires k >= 1 && n < Pow10(k)
    ensures |Dec(n)| <= k
    decreases k
  {
    assert Pow10(0) == 1;
    if n >= 10 {
      DecLength(n / 10, k - 1);
    }
  }

  /** The 32-byte print buffer holds every 64-bit number. */
  lemma DecFits(n: U64)
    ensures |Dec(n)| <= 20
  {
    assert Pow10(5) == 100000;
    assert Pow10(10) == 10000000000;
    assert Pow10(15) == 1000000000000000;
    assert Pow10(20) == 100000000000000000000;
    DecLength(n, 20);
  }

  // -------------------------------------------------------------------------- packing

  /** A byte with one nibble replaced. */
  function WithLow(b: Byte, d: Digit): Byte {
    b / 16 * 16 + d
  }

  function WithHigh(b: Byte, d: Digit): Byte {
    var high: int := d;
    16 * high + b % 16
  }

  lemma Nibbles(low: Digit, high: Digit)
    ensures WithLow(0xff, low) == 0xf0 + low
    ensures WithLow(0xff, low) / 16 == 15 && WithLow(0xff, low) % 16 == low
    ensures WithHigh(WithLow(0xff, low), high) / 16 == high && WithHigh(WithLow(0xff, low), high) % 16 == low
  {
  }

  /** Byte i of the packed form. */
  function PackedByte(ds: seq<Digit>, i: nat): Byte {
    if 2 * i + 1 < |ds| then WithHigh(WithLow(0xff, ds[2 * i]), ds[2 * i + 1])
    else if 2 * i < |ds| then WithLow(0xff, ds[2 * i])
    else 0xff
  }

  function Packed(ds: seq<Digit>, len: nat): (r: seq<Byte>)
    ensures |r| == len
  {
    seq(len, i requires 0 <= i < len => PackedByte(ds, i))
  }

  /** gtpc_digits_set. The array is filled with 0xff even if the number is too long. */
  method Set(digits: array<Byte>, len: Word, digit: U64) returns (ok: bool)
    requires len <= digits.Length
    modifies digits
    ensures ok == (|Dec(digit)| <= 2 * len)
    ensures digits[..len] == Packed(if ok then Dec(digit) else [], len)
    ensures digits[len..] == old(digits[len..])
  {
    var bf := Dec(digit);
    forall i | 0 <= i < len {
      digits[i] := 0xff;
    }
    ok := |bf| <= 2 * len;
    if ok {
      var n, i := 0, 0;
      while n < |bf|
        invariant 0 <= i <= len && n == 2 * i
        invariant forall k | 0 <= k < i :: digits[k] == PackedByte(bf, k)
        invariant forall k | i <= k < len :: digits[k] == 0xff
        invariant digits[len..] == old(digits[len..])
      {
        SetPair(digits, i, bf, n);
        n, i := n + 2, i + 1;
      }
    }
  }

  method SetPair(digits: array<Byte>, i: nat, bf: seq<Digit>, n: nat)
    requires i < digits.Length && digits[i] == 0xff && n == 2 * i < |bf|
    modifies digits
    ensures digits[i] == PackedByte(bf, i)
    ensures forall k | 0 <= k < digits.Length && k != i :: digits[k] == old(digits[k])
  {
    var b := WithLow(digits[i], bf[n]);
    digits[i] := b;
    if n + 1 < |bf| {
      b := WithHigh(b, bf[n + 1]);
      digits[i] := b;
    }
    PackedPair(bf, i, b);
  }

  lemma PackedPair(bf: seq<Digit>, i: nat, b: Byte)
    requires 2 * i < |bf|
    requires b == if 2 * i + 1 < |bf| then WithHigh(WithLow(0xff, bf[2 * i]), bf[2 * i + 1])
                  else WithLow(0xff, bf[2 * i])
    ensures b == PackedByte(bf, i)
  {
  }

  // ------------------------------------------------------------------------ unpacking

  /** What %d prints for a nibble. */
  function Show(d: nat): seq<Digit>
    requires d < 16
  {
    if d < 10 then [d] else [1, d - 10]
  }

  lemma ShowIsDec(d: nat)
    requires d < 16
    ensures Show(d) == Dec(d)
  {
    if d >= 10 {
      assert d / 10 == 1 && Dec(1) == [1];
    }
  }

  function Piece(b: Byte): seq<Digit> {
    var high, low := b / 16, b % 16;
    if high == 15 && low == 15 then []
    else if high == 15 then Show(low)
    else if low == 15 then Show(high)
    else Show(low) + Show(high)
  }

  /** snprintf keeps at most 126 characters. */
  function Clip(s: seq<Digit>): seq<Digit> {
    if |s| <= 126 then s else s[..126]
  }

  /** The text gtpc_digits_get collects. */
  function Text(bs: seq<Byte>): seq<Digit> {
    if bs == [] then []
    else Clip(Text(bs[..|bs| - 1]) + Piece(bs[|bs| - 1]))
  }

  /** strtoull, with the error flag it raises. */
  function Parse(s: seq<Digit>): (r: (U64, bool)) {
    if Value(s) < 0x1_0000_0000_0000_0000 then (Value(s), false) else (NO_NUMBER, true)
  }

  /** gtpc_digits_get. `range` says whether errno is ERANGE on entry: it is looked
      at after the conversion and never cleared. */
  method Get(digits: seq<Byte>, len: Word, range: bool) returns (r: U64)
    requires len <= |digits|
    ensures var p := Parse(Text(digits[..len]));
            r == if range || p.1 then NO_NUMBER else p.0
  {
    var bf, tbf: seq<Digit> := [], [];
    for n := 0 to len
      invariant bf == tbf == Text(digits[..n]) && |bf| <= 126
    {
      assert digits[..n + 1][..n] == digits[..n];
      var high, low := digits[n] / 16, digits[n] % 16;
      if !(high == 15 && low == 15) {
        if high == 15 {
          bf := Clip(tbf + Show(low));
        } else if low == 15 {
          bf := Clip(tbf + Show(high));
        } else {
          bf := Clip(tbf + (Show(low) + Show(high)));
        }
        tbf := bf;
      } else {
        assert tbf + [] == tbf;
      }
    }
    var p := Parse(bf);
    r := if range || p.1 then NO_NUMBER else p.0;
  }

  // ----------------------------------------------------------------------- round trip

  function Min(a: nat, b: nat): nat {
    if a <= b then a else b
  }

  lemma PieceOfPacked(ds: seq<Digit>, i: nat)
    ensures ds[..Min(2 * i, |ds|)] + Piece(PackedByte(ds, i)) == ds[..Min(2 * i + 2, |ds|)]
  {
    var b := PackedByte(ds, i);
    if 2 * i + 1 < |ds| {
      Nibbles(ds[2 * i], ds[2 * i + 1]);
      assert ds[..2 * i + 2] == ds[..2 * i] + [ds[2 * i], ds[2 * i + 1]];
    } else if 2 * i < |ds| {
      Nibbles(ds[2 * i], 0);
      assert ds == ds[..2 * i] + [ds[2 * i]];
    } else {
      assert Piece(b) == [];
    }
  }

  /** Reading collects the digits, two to a byte, and skips the filler. */
  lemma {:induction false} TextOfPacked(ds: seq<Digit>, len: nat, i: nat)
    requires |ds| <= 126 && i <= len
    ensures Text(Packed(ds, len)[..i]) == ds[..Min(2 * i, |ds|)]
    decreases i
  {
    if i > 0 {
      var p := Packed(ds, len);
      TextOfPacked(ds, len, i - 1);
      assert p[..i][..i - 1] == p[..i - 1] && p[..i][i - 1] == PackedByte(ds, i - 1);
      PieceOfPacked(ds, i - 1);
    }
  }

  lemma ReadsBack(n: U64, len: Word)
    requires |Dec(n)| <= 2 * len
    ensures Text(Packed(Dec(n), len)) == Dec(n) && Parse(Text(Packed(Dec(n), len))) == (n, false)
  {
    DecFits(n);
    TextOfPacked(Dec(n), len, len);
    assert Packed(Dec(n), len)[..len] == Packed(Dec(n), len);
    ValueOfDec(n);
  }

  /** Set, then get: the number comes back for every array length that holds its
      digits, exactly if errno was not left at ERANGE or the number is 2^64 - 1. */
  method RoundTrip(digits: array<Byte>, len: Word, n: U64, range: bool) returns (r: U64)
    requires len <= digits.Length && |Dec(n)| <= 2 * len
    modifies digits
    ensures r == n <==> !range || n == 0xffff_ffff_ffff_ffff
  {
    var ok := Set(digits, len, n);
    ReadsBack(n, len);
    r := Get(digits[..len], len, range);
    assert digits[..len][..len] == digits[..len];
  }
}
