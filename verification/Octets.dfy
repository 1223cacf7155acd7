/** Bytes, and 16-bit big-endian words in them. */
module Octets {
  type Byte = x: int | 0 <= x < 256
  type Word = x: int | 0 <= x < 0x1_0000

  /** The word at a position. */
  function WordAt(d: seq<Byte>, i: nat): Word
    requires i + 1 < |d|
  {
    var hi: int, lo: int := d[i], d[i + 1];
    256 * hi + lo
  }

  /** The low 16 bits of a number. */
  function Be16(n: int): (b: seq<Byte>)
    ensures |b| == 2
  {
    [n / 256 % 256, n % 256]
  }

  lemma WordOfBe16(d: seq<Byte>, i: nat, n: Word)
    requires i + 1 < |d| && d[i] == Be16(n)[0] && d[i + 1] == Be16(n)[1]
    ensures WordAt(d, i) == n
  {
  }

  lemma Be16OfWord(d: seq<Byte>, i: nat)
    requires i + 1 < |d|
    ensures Be16(WordAt(d, i)) == [d[i], d[i + 1]]
  {
  }

  // ---------------------------------------------------------------------- slices

  lemma Subslice(s: seq<Byte>, i: nat, j: nat, a: nat, b: nat)
    requires i <= j <= |s| && a <= b <= j - i
    ensures s[i..j][a..b] == s[i + a..i + b]
  {
    assert forall k | 0 <= k < b - a :: s[i..j][a..b][k] == s[i + a..i + b][k];
  }

  lemma Join(s: seq<Byte>, i: nat, m: nat, j: nat)
    requires i <= m <= j <= |s|
    ensures s[i..m] + s[m..j] == s[i..j]
  {
  }

  lemma TakeOfDrop(s: seq<Byte>, i: nat, n: nat)
    requires i + n <= |s|
    ensures s[i..][..n] == s[i..i + n]
  {
    assert s[i..|s|] == s[i..];
    Subslice(s, i, |s|, 0, n);
  }

  lemma Split(s: seq<Byte>, at: nat, a: seq<Byte>, b: seq<Byte>)
    requires at + |a| + |b| <= |s| && s[at..at + |a| + |b|] == a + b
    ensures s[at..at + |a|] == a && s[at + |a|..at + |a| + |b|] == b
  {
    var c := s[at..at + |a| + |b|];
    assert c[..|a|] == a && c[|a|..] == b;
    Subslice(s, at, at + |a| + |b|, 0, |a|);
    Subslice(s, at, at + |a| + |b|, |a|, |a| + |b|);
  }
}
