/** The Internet checksum of the data plane, and RFC 1071's end-around-carry sum
    it is measured against. */
module Checksum {
  import opened Octets

  /** The sum of the first n words. */
  function WordSum(d: seq<Byte>, n: nat): nat
    requires 2 * n <= |d|
  {
    if n == 0 then 0 else WordSum(d, n - 1) + WordAt(d, 2 * n - 2)
  }

  /** Addition with end-around carry, on 16 bits. */
  function OnesAdd(a: Word, b: Word): Word {
    if a + b < 0x1_0000 then a + b else a + b - 0xffff
  }

  function OnesSum(d: seq<Byte>, n: nat): Word
    requires 2 * n <= |d|
  {
    if n == 0 then 0 else OnesAdd(OnesSum(d, n - 1), WordAt(d, 2 * n - 2))
  }

  /** Folding the high half back in until it is empty. */
  function Fold(x: nat): (r: Word)
    ensures r == 0 <==> x == 0
  {
    if x < 0x1_0000 then x else Fold(x % 0x1_0000 + x / 0x1_0000)
  }

  /** Folding takes whole turns of 65535 away. */
  lemma {:induction false} FoldTurns(x: nat) returns (q: nat)
    ensures x == Fold(x) + 0xffff * q
  {
    if x < 0x1_0000 {
      q := 0;
    } else {
      var q' := FoldTurns(x % 0x1_0000 + x / 0x1_0000);
      q := q' + x / 0x1_0000;
    }
  }

  /** A 16-bit value is fixed up to such turns by being zero or not. */
  lemma FoldUnique(x: nat, w: Word, q: nat)
    requires w == 0 <==> x == 0
    requires x == w + 0xffff * q
    ensures Fold(x) == w
  {
    var q' := FoldTurns(x);
    assert -1 <= q - q' <= 1;
    assert q == q' ==> Fold(x) == w;
  }

  lemma FoldAdd(x: nat, w: Word)
    ensures Fold(x + w) == OnesAdd(Fold(x), w)
  {
    var q := FoldTurns(x);
    FoldUnique(x + w, OnesAdd(Fold(x), w), if Fold(x) + w < 0x1_0000 then q else q + 1);
  }

  /** The folded plain sum is the end-around-carry sum. */
  lemma {:induction false} FoldIsOnesSum(d: seq<Byte>, n: nat)
    requires 2 * n <= |d|
    ensures Fold(WordSum(d, n)) == OnesSum(d, n)
  {
    if n > 0 {
      FoldIsOnesSum(d, n - 1);
      FoldAdd(WordSum(d, n - 1), WordAt(d, 2 * n - 2));
    }
  }

  lemma {:induction false} WordSumBound(d: seq<Byte>, n: nat)
    requires 2 * n <= |d|
    ensures WordSum(d, n) <= 0xffff * n
  {
    if n > 0 {
      WordSumBound(d, n - 1);
    }
  }

  /** The number of words read: an odd length reads one byte past it. */
  function Words(len: Word): nat {
    (len + 1) / 2
  }

  /** 32-bit accumulation. */
  function Add(a: nat, b: nat): nat {
    (a + b) % 0x1_0000_0000
  }

  /** From a zero start no 16-bit length makes the accumulator wrap. */
  lemma NoWrap(d: seq<Byte>, n: nat)
    requires n <= 0x8000 && 2 * n <= |d|
    ensures WordSum(d, n) < 0x1_0000_0000
  {
    WordSumBound(d, n);
  }

  /** The accumulator after n words. */
  function Acc(d: seq<Byte>, n: nat, start: nat): nat
    requires 2 * n <= |d|
  {
    if n == 0 then start else Add(Acc(d, n - 1, start), WordAt(d, 2 * n - 2))
  }

  lemma AddMod(a: nat, b: nat)
    ensures Add(a % 0x1_0000_0000, b) == (a + b) % 0x1_0000_0000
  {
  }

  lemma {:induction false} AccIsSum(d: seq<Byte>, n: nat, start: nat)
    requires 2 * n <= |d| && start < 0x1_0000_0000
    ensures Acc(d, n, start) == (start + WordSum(d, n)) % 0x1_0000_0000
  {
    if n > 0 {
      AccIsSum(d, n - 1, start);
      AddMod(start + WordSum(d, n - 1), WordAt(d, 2 * n - 2));
    }
  }

  method FoldUp(total: nat) returns (sum: nat)
    ensures sum == Fold(total)
  {
    sum := total;
    while sum / 0x1_0000 != 0
      invariant Fold(sum) == Fold(total)
      decreases sum
    {
      sum := sum % 0x1_0000 + sum / 0x1_0000;
    }
  }

  /** The complement of the folded 32-bit sum, for any start value. From a zero
      start its low half is RFC 1071's checksum. */
  method Sum(d: seq<Byte>, len: Word, start: nat) returns (r: nat)
    requires 2 * Words(len) <= |d| && start < 0x1_0000_0000
    ensures r == 0xffff_ffff - Fold((start + WordSum(d, Words(len))) % 0x1_0000_0000)
    ensures start == 0 ==> r == 0xffff_ffff - OnesSum(d, Words(len))
  {
    var sum, count, addr := start, len, 0;
    while count > 1
      invariant 0 <= count <= len && 2 * addr + count == len
      invariant sum == Acc(d, addr, start)
    {
      sum := Add(sum, WordAt(d, 2 * addr));
      addr := addr + 1;
      count := count - 2;
    }
    if count > 0 {
      sum := Add(sum, WordAt(d, 2 * addr));
      addr := addr + 1;
    }
    assert addr == Words(len);
    sum := FoldUp(sum);
    SumIsChecksum(d, addr, start);
    r := 0xffff_ffff - sum;
  }

  lemma Small(x: nat)
    requires x < 0x1_0000_0000
    ensures (0 + x) % 0x1_0000_0000 == x
  {
  }

  lemma SumIsChecksum(d: seq<Byte>, n: nat, start: nat)
    requires n <= 0x8000 && 2 * n <= |d| && start < 0x1_0000_0000
    ensures Acc(d, n, start) == (start + WordSum(d, n)) % 0x1_0000_0000
    ensures start == 0 ==> Fold(Acc(d, n, start)) == OnesSum(d, n)
  {
    AccIsSum(d, n, start);
    NoWrap(d, n);
    Small(WordSum(d, n));
    FoldIsOnesSum(d, n);
  }

  /** The sum with one word replaced. */
  lemma {:induction false} WordSumUpdate(d: seq<Byte>, n: nat, at: nat, hi: Byte, lo: Byte)
    requires 2 * n <= |d| && 2 * at + 1 < |d|
    ensures WordSum(d[2 * at := hi][2 * at + 1 := lo], n) ==
            WordSum(d, n) + (if at < n then 256 * hi + lo - WordAt(d, 2 * at) else 0)
  {
    if n > 0 {
      WordSumUpdate(d, n - 1, at, hi, lo);
    }
  }

  /** An IPv4 header verifies: its ten words sum to all ones. */
  predicate Verifies(h: seq<Byte>) {
    |h| == 20 && OnesSum(h, 10) == 0xffff
  }

  /** Storing the complement of the sum into the zeroed field makes it verify. */
  lemma StoredVerifies(h: seq<Byte>, c: Word)
    requires |h| == 20 && WordAt(h, 10) == 0 && c == 0xffff - OnesSum(h, 10)
    ensures Verifies(h[10 := c / 256][11 := c % 256])
  {
    var h' := h[10 := c / 256][11 := c % 256];
    WordSumUpdate(h, 10, 5, c / 256, c % 256);
    FoldIsOnesSum(h, 10);
    FoldIsOnesSum(h', 10);
    var q := FoldTurns(WordSum(h, 10));
    FoldUnique(WordSum(h', 10), 0xffff, q);
  }

  /** The way both header builders do it: clear, sum twenty bytes, store. */
  method Seal(h: seq<Byte>) returns (r: seq<Byte>)
    requires |h| == 20
    ensures Verifies(r) && r[..10] == h[..10] && r[12..] == h[12..]
  {
    r := h[10 := 0][11 := 0];
    var sum := Sum(r, 20, 0);
    var c := sum % 0x1_0000;
    StoredVerifies(r, c);
    r := r[10 := c / 256][11 := c % 256];
  }
}
