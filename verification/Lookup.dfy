/** The double-buffered lookup table: two record arrays, a packed bitmap that
    says which side of each key is current, and a virtual clock that limits the
    writer. It is proved to be a plain partial map. */
module Lookup {
  import opened Bits

  datatype Record<T> = Record(on: bool, data: T)

  /** What Find returns: the end mark or a place in one of the record arrays. */
  datatype Place = End | InA(key: nat) | InB(key: nat)

  datatype Outcome = Done | Refused | Thrown

  function Word(k: nat): nat { k / 64 }

  function BitOf(k: nat): bv6 { (k % 64) as bv6 }

  lemma BitValue(k: nat)
    ensures BitOf(k) as nat == k % 64
  {
  }

  lemma SameBit(k: nat, j: nat)
    requires Word(k) == Word(j) && BitOf(k) == BitOf(j)
    ensures k == j
  {
    BitValue(k);
    BitValue(j);
    assert k % 64 == j % 64;
  }

  /** Does the bitmap name side A as the current side of key k? */
  predicate OnA(bmp: seq<bv64>, k: nat)
    requires k < 64 * |bmp|
  {
    HasBit(bmp[Word(k)], BitOf(k))
  }

  /** Flipping the bit of one key leaves the side of every other key alone,
      including the 63 that share its word. */
  lemma FlipOne(bmp: seq<bv64>, k: nat, j: nat)
    requires k < 64 * |bmp| && j < 64 * |bmp|
    ensures OnA(bmp[Word(k) := FlipBit(bmp[Word(k)], BitOf(k))], j) == (OnA(bmp, j) != (j == k))
  {
    FlipBitMember(bmp[Word(k)], BitOf(k), BitOf(j));
    if Word(k) == Word(j) && BitOf(k) == BitOf(j) {
      SameBit(k, j);
    }
  }

  // ------------------------------------------------- the map the table stands for

  datatype Op<T> = AddOp(key: nat, value: T, check: bool) | DelOp(key: nat, check: bool) | Tick

  datatype Abs<T> = Abs(contents: map<nat, T>, clock: nat, prev: nat)

  /** A checked write is refused until the clock has moved past the last one. */
  predicate Admits<T>(s: Abs<T>, check: bool) {
    check ==> s.clock > s.prev
  }

  function Apply<T>(s: Abs<T>, size: nat, op: Op<T>): Abs<T> {
    match op
    case AddOp(k, v, check) =>
      if !Admits(s, check) then s
      else Abs(if k < size then s.contents[k := v] else s.contents,
               s.clock, if check then s.clock else s.prev)
    case DelOp(k, check) =>
      if !Admits(s, check) then s
      else Abs(if k < size then s.contents - {k} else s.contents,
               s.clock, if check then s.clock else s.prev)
    case Tick => s.(clock := s.clock + 1)
  }

  function ApplyAll<T>(s: Abs<T>, size: nat, ops: seq<Op<T>>): Abs<T> {
    if ops == [] then s else Apply(ApplyAll(s, size, ops[..|ops| - 1]), size, ops[|ops| - 1])
  }

  class Table<T(0)> {
    const size: nat
    const a: array<Record<T>>
    const b: array<Record<T>>
    const bmp: array<bv64>
    var clock: nat
    var prev: nat

    ghost predicate Valid() {
      && a != b && size % 64 == 0
      && a.Length == b.Length == size && 64 * bmp.Length == size
    }

    ghost function Current(k: nat): Record<T>
      requires Valid() && k < size
      reads a, b, bmp
    {
      if OnA(bmp[..], k) then a[k] else b[k]
    }

    ghost function Spare(k: nat): Record<T>
      requires Valid() && k < size
      reads a, b, bmp
    {
      if OnA(bmp[..], k) then b[k] else a[k]
    }

    ghost function Contents(): map<nat, T>
      requires Valid()
      reads a, b, bmp
    {
      map k: nat | k < size && Current(k).on :: Current(k).data
    }

    ghost function View(): Abs<T>
      requires Valid()
      reads this, a, b, bmp
    {
      Abs(Contents(), clock, prev)
    }

    constructor (words: nat, zero: T)
      ensures Valid() && size == 64 * words && fresh(a) && fresh(b) && fresh(bmp)
      ensures View() == Abs(map[], 0, 0)
    {
      size := 64 * words;
      a := new Record<T>[64 * words](_ => Record(false, zero));
      b := new Record<T>[64 * words](_ => Record(false, zero));
      bmp := new bv64[words](_ => 0);
      clock, prev := 0, 0;
    }

    method Clock()
      requires Valid()
      modifies this
      ensures Valid() && View() == Apply(old(View()), size, Tick)
    {
      clock := clock + 1;
    }

    method Clear(zero: T)
      requires Valid()
      modifies this, a, b, bmp
      ensures Valid() && View() == Abs(map[], 0, 0)
    {
      for n := 0 to bmp.Length {
        bmp[n] := 0;
      }
      for n := 0 to size
        invariant forall k :: 0 <= k < n ==> a[k] == b[k] == Record(false, zero)
      {
        a[n], b[n] := Record(false, zero), Record(false, zero);
      }
      clock, prev := 0, 0;
    }

    /** flag: the spare side, whatever it holds; no flag: the current side if on. */
    method Find(k: nat, flag: bool) returns (p: Place)
      requires Valid()
      ensures k >= size ==> p == End
      ensures k < size && flag ==> p == if OnA(bmp[..], k) then InB(k) else InA(k)
      ensures k < size && !flag ==>
                p == if !Current(k).on then End else if OnA(bmp[..], k) then InA(k) else InB(k)
      ensures !flag ==> (p == End <==> k !in Contents())
      ensures !flag && p.InA? ==> p.key == k < size && a[k] == Record(true, Contents()[k])
      ensures !flag && p.InB? ==> p.key == k < size && b[k] == Record(true, Contents()[k])
    {
      if k >= size {
        return End;
      }
      var bit := HasBit(bmp[Word(k)], BitOf(k));
      if flag {
        return if !bit then InA(k) else InB(k);
      } else if bit {
        if a[k].on { return InA(k); }
      } else {
        if b[k].on { return InB(k); }
      }
      return End;
    }

    method SwapSide(k: nat)
      requires Valid() && k < size
      modifies bmp
      ensures forall j: nat | j < size :: OnA(bmp[..], j) == (old(OnA(bmp[..], j)) != (j == k))
    {
      ghost var was := bmp[..];
      bmp[Word(k)] := FlipBit(bmp[Word(k)], BitOf(k));
      forall j: nat | j < size ensures OnA(bmp[..], j) == (OnA(was, j) != (j == k)) {
        assert bmp[..] == was[Word(k) := FlipBit(was[Word(k)], BitOf(k))];
        FlipOne(was, k, j);
      }
    }

    /** Writes the spare side of the key and makes it current. */
    method Install(k: nat, r: Record<T>)
      requires Valid() && k < size
      modifies a, b, bmp
      ensures Current(k) == r && Spare(k) == old(Current(k))
      ensures forall j: nat | j < size && j != k ::
                Current(j) == old(Current(j)) && Spare(j) == old(Spare(j))
      ensures Contents() == if r.on then old(Contents())[k := r.data] else old(Contents()) - {k}
    {
      var p := Find(k, true);
      match p {
        case InA(i) => a[i] := r;
        case InB(i) => b[i] := r;
      }
      SwapSide(k);
    }

    /** The clock test: a checked write claims the current clock period. */
    method Claim(check: bool) returns (admitted: bool)
      modifies this`prev
      ensures admitted == (check ==> clock > old(prev))
      ensures prev == if check && admitted then clock else old(prev)
    {
      if check {
        if clock <= prev {
          return false;
        }
        prev := clock;
      }
      admitted := true;
    }

    method Add(k: nat, item: T, check: bool) returns (r: Outcome)
      requires Valid()
      modifies this, a, b, bmp
      ensures Valid() && View() == Apply(old(View()), size, AddOp(k, item, check))
      ensures r == if !Admits(old(View()), check) then Refused else if k >= size then Thrown else Done
      ensures r == Done ==> Current(k) == Record(true, item) && Spare(k) == old(Current(k))
      ensures forall j: nat | j < size && (j != k || r != Done) ::
                Current(j) == old(Current(j)) && Spare(j) == old(Spare(j))
    {
      var admitted := Claim(check);
      if !admitted {
        return Refused;
      }
      var p := Find(k, true);
      if p == End {
        return Thrown;
      }
      Install(k, Record(true, item));
      return Done;
    }

    method Del(k: nat, check: bool) returns (r: Outcome)
      requires Valid()
      modifies this, a, b, bmp
      ensures Valid() && View() == Apply(old(View()), size, DelOp(k, check))
      ensures r == if !Admits(old(View()), check) then Refused else if k >= size then Thrown else Done
      ensures r == Done ==> !Current(k).on && Spare(k) == old(Current(k))
      ensures forall j: nat | j < size && (j != k || r != Done) ::
                Current(j) == old(Current(j)) && Spare(j) == old(Spare(j))
    {
      var admitted := Claim(check);
      if !admitted {
        return Refused;
      }
      var p := Find(k, true);
      if p == End {
        return Thrown;
      }
      Install(k, (if p.InA? then a[k] else b[k]).(on := false));
      return Done;
    }

    /** Every run of writes and clock ticks is the run on the plain map. */
    method RunOps(ops: seq<Op<T>>)
      requires Valid()
      modifies this, a, b, bmp
      ensures Valid() && View() == ApplyAll(old(View()), size, ops)
    {
      ghost var start := View();
      for n := 0 to |ops|
        invariant Valid() && View() == ApplyAll(start, size, ops[..n])
      {
        var op := ops[n];
        match op {
          case AddOp(k, v, check) => var _ := Add(k, v, check);
          case DelOp(k, check) => var _ := Del(k, check);
          case Tick => Clock();
        }
        assert ops[..n + 1][..n] == ops[..n];
      }
      assert ops[..|ops|] == ops;
    }

    // ------------------------------------------------------------- batch update

    /** First loop: the spare side of every key from 1 on becomes the updated
        copy of its current record; no current record and no side changes. */
    method CopyToSpare(f: T -> T)
      requires Valid()
      modifies a, b
      ensures forall k: nat | k < size :: Current(k) == old(Current(k))
      ensures forall k: nat | 1 <= k < size :: Spare(k) == Record(true, f(old(Current(k)).data))
      ensures size > 0 ==> Spare(0) == old(Spare(0))
    {
      var k := 1;
      while k < size
        invariant 1 <= k && (size > 0 ==> k <= size)
        invariant forall j: nat | j < size :: Current(j) == old(Current(j))
        invariant forall j: nat | 1 <= j < size && j < k :: Spare(j) == Record(true, f(old(Current(j)).data))
        invariant size > 0 ==> Spare(0) == old(Spare(0))
      {
        if HasBit(bmp[Word(k)], BitOf(k)) {
          b[k] := Record(true, f(a[k].data));
        } else {
          a[k] := Record(true, f(b[k].data));
        }
        k := k + 1;
      }
    }

    /** Second loop: every word of the bitmap is turned over. */
    method FlipWords()
      requires Valid()
      modifies bmp
      ensures forall k: nat | k < size :: OnA(bmp[..], k) != old(OnA(bmp[..], k))
    {
      for n := 0 to bmp.Length
        invariant forall j :: 0 <= j < bmp.Length ==>
                    bmp[j] == if j < n then FlipAll(old(bmp[j])) else old(bmp[j])
      {
        bmp[n] := FlipAll(bmp[n]);
      }
      forall k: nat | k < size ensures OnA(bmp[..], k) != old(OnA(bmp[..], k)) {
        FlipAllMember(old(bmp[Word(k)]), BitOf(k));
      }
    }

    /** Afterwards every key from 1 on is present with the function applied to
        its former current record. Key 0 is turned over without a copy: it shows
        whatever its spare side held. */
    method EnumerateForUpdate(f: T -> T)
      requires Valid()
      modifies a, b, bmp
      ensures Valid() && clock == old(clock) && prev == old(prev)
      ensures forall k: nat | 1 <= k < size ::
                Current(k) == Record(true, f(old(Current(k)).data)) && Spare(k) == old(Current(k))
      ensures size > 0 ==> Current(0) == old(Spare(0)) && Spare(0) == old(Current(0))
      ensures Contents() == map k: nat | k < size && (k == 0 ==> old(Spare(0)).on) ::
                if k == 0 then old(Spare(0)).data else f(old(Current(k)).data)
    {
      CopyToSpare(f);
      FlipWords();
    }
  }
}
