/** Traffic counters: the sixteen aggregation maps, the blocks they are packed
    into, and what "bytes of a key in a mode" means for each of them. */
module Counting {

  type U32 = x: int | 0 <= x < 0x1_0000_0000
  type U16 = x: int | 0 <= x < 0x1_0000
  type Key = U32

  const BLOCK: nat := 64            // TRANSFER_RING_BURST
  const RING_BLOCKS: nat := 1024    // TRANSFER_RING_SZ
  const CALL_LIMIT: nat := 10000    // DCOUNTER_LIMIT
  const THRESHOLD: nat := 0x10_0000 // THRESHOLD_TRANSFER

  /** POLICER_MODE_3G is 1, POLICER_MODE_LOW is 2, everything else is counted as LTE. */
  datatype Mode = Lte | G3 | Low

  function ModeOf(m: nat): Mode {
    if m == 2 then Low else if m == 1 then G3 else Lte
  }

  datatype Item = Item(stamp: U32, lte: U32, g3: U32, low: U32)

  datatype Rec = Rec(key: Key, lte: U32, g3: U32, low: U32)

  /** A counting packet; its count field is the number of items. */
  datatype Block = Block(kind: nat, items: seq<Rec>)

  function Bytes(i: Item, m: Mode): U32 {
    match m case Lte => i.lte case G3 => i.g3 case Low => i.low
  }

  function RecBytes(r: Rec, m: Mode): U32 {
    match m case Lte => r.lte case G3 => r.g3 case Low => r.low
  }

  function Charge(i: Item, m: Mode, used: U16): Item {
    match m
    case Lte => i.(lte := (i.lte + used) % 0x1_0000_0000)
    case G3  => i.(g3 := (i.g3 + used) % 0x1_0000_0000)
    case Low => i.(low := (i.low + used) % 0x1_0000_0000)
  }

  /** Due for transfer: enough LTE bytes, or older than a minute. */
  predicate Due(i: Item, now: nat) {
    i.lte > THRESHOLD || i.stamp < now - 60
  }

  // -------------------------------------------------------------- the sixteen maps

  type Maps = seq<map<Key, Item>>

  /** Every key sits in the map of its remainder. */
  predicate Filed(ms: Maps) {
    |ms| == 16 && forall i, k | 0 <= i < 16 && k in ms[i] :: k % 16 == i
  }

  predicate Has(ms: Maps, k: Key)
    requires |ms| == 16
  {
    k in ms[k % 16]
  }

  function Entry(ms: Maps, k: Key): Item
    requires |ms| == 16 && Has(ms, k)
  {
    ms[k % 16][k]
  }

  /** Bytes still waiting in the maps. */
  function Held(ms: Maps, k: Key, m: Mode): nat
    requires |ms| == 16
  {
    if Has(ms, k) then Bytes(Entry(ms, k), m) else 0
  }

  ghost function DueKeys(ms: Maps, now: nat): set<Key>
    requires |ms| == 16
  {
    set k: Key | 0 <= k < 0x1_0000_0000 && Has(ms, k) && Due(Entry(ms, k), now)
  }

  /** The keys with more than a megabyte of LTE traffic, or first counted more than a
      minute before `now`. */
  ghost function Ripe(ms: Maps, now: nat): set<Key>
    requires |ms| == 16
  {
    set k: Key |
      0 <= k < 0x1_0000_0000 && Has(ms, k) && (Entry(ms, k).lte > 1048576 || Entry(ms, k).stamp + 60 < now)
  }

  lemma RipeIsDue(ms: Maps, now: nat)
    requires |ms| == 16
    ensures Ripe(ms, now) == DueKeys(ms, now)
  {
  }

  function Put(ms: Maps, k: Key, i: Item): Maps
    requires |ms| == 16
  {
    var m: map<Key, Item> := ms[k % 16][k := i];
    ms[k % 16 := m]
  }

  lemma PutEntry(ms: Maps, k: Key, i: Item, j: Key)
    requires Filed(ms)
    ensures Filed(Put(ms, k, i))
    ensures Has(Put(ms, k, i), j) <==> Has(ms, j) || j == k
    ensures Has(Put(ms, k, i), j) ==> Entry(Put(ms, k, i), j) == if j == k then i else Entry(ms, j)
  {
  }

  function Erase(ms: Maps, k: Key): Maps
    requires |ms| == 16
  {
    ms[k % 16 := ms[k % 16] - {k}]
  }

  lemma ErasedEntry(ms: Maps, k: Key, j: Key)
    requires Filed(ms)
    ensures Filed(Erase(ms, k))
    ensures Has(Erase(ms, k), j) <==> Has(ms, j) && j != k
    ensures Has(ms, j) && j != k ==> Entry(Erase(ms, k), j) == Entry(ms, j)
  {
  }

  lemma ErasedDue(ms: Maps, k: Key, now: nat)
    requires Filed(ms)
    ensures DueKeys(Erase(ms, k), now) == DueKeys(ms, now) - {k}
  {
    forall j: Key
      ensures Has(Erase(ms, k), j) <==> Has(ms, j) && j != k
      ensures Has(ms, j) && j != k ==> Entry(Erase(ms, k), j) == Entry(ms, j)
    {
      ErasedEntry(ms, k, j);
    }
  }

  // ------------------------------------------------------------------------- sums

  /** Bytes in a list of records. */
  function Sum(rs: seq<Rec>, k: Key, m: Mode): nat {
    if rs == [] then 0
    else Sum(rs[..|rs| - 1], k, m) +
         (if rs[|rs| - 1].key == k then RecBytes(rs[|rs| - 1], m) else 0)
  }

  lemma {:induction false} SumAppend(a: seq<Rec>, b: seq<Rec>, k: Key, m: Mode)
    ensures Sum(a + b, k, m) == Sum(a, k, m) + Sum(b, k, m)
  {
    if b == [] {
      assert a + b == a;
    } else {
      var n := |b| - 1;
      assert (a + b)[..|a + b| - 1] == a + b[..n];
      SumAppend(a, b[..n], k, m);
    }
  }

  /** The records of a list of blocks, in order. */
  function Records(bs: seq<Block>): seq<Rec> {
    if bs == [] then [] else Records(bs[..|bs| - 1]) + bs[|bs| - 1].items
  }

  lemma {:induction false} RecordsAppend(a: seq<Block>, b: seq<Block>)
    ensures Records(a + b) == Records(a) + Records(b)
  {
    if b == [] {
      assert a + b == a;
    } else {
      var n := |b| - 1;
      assert (a + b)[..|a + b| - 1] == a + b[..n];
      RecordsAppend(a, b[..n]);
    }
  }

  /** Bytes in blocks handed on. */
  function Handed(bs: seq<Block>, k: Key, m: Mode): nat {
    Sum(Records(bs), k, m)
  }

  /** One call of Counting, and the bytes charged by a history of calls. */
  datatype Use = Use(key: Key, used: U16, mode: Mode)

  function Charged(log: seq<Use>, k: Key, m: Mode): nat {
    if log == [] then 0
    else
      var u := log[|log| - 1];
      Charged(log[..|log| - 1], k, m) + (if u.key == k && u.mode == m then u.used else 0)
  }

  /** How often the counter of (k, m) went past 32 bits. */
  function Wraps(ws: seq<(Key, Mode)>, k: Key, m: Mode): nat {
    if ws == [] then 0
    else Wraps(ws[..|ws| - 1], k, m) + (if ws[|ws| - 1] == (k, m) then 1 else 0)
  }

  /** Charging an item moves only its own mode, and loses bytes exactly on a wrap. */
  lemma ChargeBytes(i: Item, m: Mode, used: U16, n: Mode)
    ensures Bytes(Charge(i, m, used), n) ==
            Bytes(i, n) + (if n != m then 0 else if Bytes(i, m) + used < 0x1_0000_0000 then used
                           else used - 0x1_0000_0000)
  {
  }

  /** The maps after one call of Counting. */
  function CountInto(ms: Maps, key: Key, used: U16, m: Mode, now: nat): Maps
    requires |ms| == 16
  {
    var item := if Has(ms, key) then Entry(ms, key) else Item(now % 0x1_0000_0000, 0, 0, 0);
    Put(ms, key, Charge(item, m, used))
  }

  predicate WrapsAt(ms: Maps, key: Key, used: U16, m: Mode)
    requires |ms| == 16
  {
    Held(ms, key, m) + used >= 0x1_0000_0000
  }

  lemma HeldAfter(ms: Maps, key: Key, used: U16, m: Mode, now: nat, k: Key, n: Mode)
    requires Filed(ms)
    ensures Filed(CountInto(ms, key, used, m, now))
    ensures Held(CountInto(ms, key, used, m, now), k, n) ==
            Held(ms, k, n) + (if k != key || n != m then 0 else if WrapsAt(ms, key, used, m)
                              then used - 0x1_0000_0000 else used)
  {
    var item := if Has(ms, key) then Entry(ms, key) else Item(now % 0x1_0000_0000, 0, 0, 0);
    PutEntry(ms, key, Charge(item, m, used), k);
    ChargeBytes(item, m, used, n);
  }

  /** Nothing is lost but whole 32-bit turns: the bytes charged are the bytes
      held, the bytes handed on, and 2^32 per wrap. */
  predicate Balanced(log: seq<Use>, ms: Maps, bs: seq<Block>, ws: seq<(Key, Mode)>, k: Key, m: Mode)
    requires |ms| == 16
  {
    Charged(log, k, m) == Held(ms, k, m) + Handed(bs, k, m) + 0x1_0000_0000 * Wraps(ws, k, m)
  }

  lemma CountBalanced(log: seq<Use>, ms: Maps, bs: seq<Block>, ws: seq<(Key, Mode)>,
                      u: Use, now: nat, k: Key, m: Mode)
    requires Filed(ms) && Balanced(log, ms, bs, ws, k, m)
    ensures Balanced(log + [u], CountInto(ms, u.key, u.used, u.mode, now), bs,
                     if WrapsAt(ms, u.key, u.used, u.mode) then ws + [(u.key, u.mode)] else ws, k, m)
  {
    HeldAfter(ms, u.key, u.used, u.mode, now, k, m);
    assert (log + [u])[..|log|] == log;
    assert (ws + [(u.key, u.mode)])[..|ws|] == ws;
  }

  function RecOf(k: Key, i: Item): Rec {
    Rec(k, i.lte, i.g3, i.low)
  }

  lemma HandedPlus(bs: seq<Block>, b: Block, k: Key, m: Mode)
    ensures Handed(bs + [b], k, m) == Handed(bs, k, m) + Sum(b.items, k, m)
  {
    assert (bs + [b])[..|bs|] == bs;
    SumAppend(Records(bs), b.items, k, m);
  }

  /** Copying a record into the open block and erasing it keeps the balance. */
  lemma MoveBalanced(log: seq<Use>, ms: Maps, bs: seq<Block>, ws: seq<(Key, Mode)>,
                     kind: nat, open: seq<Rec>, key: Key, k: Key, m: Mode)
    requires Filed(ms) && Has(ms, key)
    requires Balanced(log, ms, bs + [Block(kind, open)], ws, k, m)
    ensures Balanced(log, Erase(ms, key), bs + [Block(kind, open + [RecOf(key, Entry(ms, key))])], ws, k, m)
  {
    var r := RecOf(key, Entry(ms, key));
    ErasedEntry(ms, key, k);
    HandedPlus(bs, Block(kind, open), k, m);
    HandedPlus(bs, Block(kind, open + [r]), k, m);
    assert (open + [r])[..|open|] == open;
  }

  /** So does starting or leaving off an empty block. */
  lemma EmptyBalanced(log: seq<Use>, ms: Maps, bs: seq<Block>, ws: seq<(Key, Mode)>, kind: nat, k: Key, m: Mode)
    requires |ms| == 16
    ensures Balanced(log, ms, bs + [Block(kind, [])], ws, k, m) <==> Balanced(log, ms, bs, ws, k, m)
  {
    HandedPlus(bs, Block(kind, []), k, m);
  }

  /** Only due records leave the maps; what stays is unchanged. */
  ghost predicate OnlyDueLeft(was: Maps, ms: Maps, now: nat)
    requires |was| == 16 && |ms| == 16
  {
    forall k: Key ::
      && (Has(ms, k) ==> Has(was, k) && Entry(ms, k) == Entry(was, k))
      && (Has(was, k) && !Due(Entry(was, k), now) ==> Has(ms, k))
  }

  /** The maps after a transfer at `now`: a key that is not ripe stays as it is, at most
      10000 ripe ones leave, and none is left if there are no more. */
  ghost predicate Transferred(was: Maps, ms: Maps, now: nat)
    requires |was| == 16 && |ms| == 16
  {
    && (forall k: Key | Has(ms, k) :: Has(was, k) && Entry(ms, k) == Entry(was, k))
    && (forall k: Key | Has(was, k) && k !in Ripe(was, now) :: Has(ms, k))
    && (|Ripe(was, now)| <= 10000 ==> forall k | k in Ripe(was, now) :: !Has(ms, k))
    && |Ripe(ms, now)| == if |Ripe(was, now)| > 10000 then |Ripe(was, now)| - 10000 else 0
  }

  lemma KeptIsDue(was: Maps, ms: Maps, now: nat, k: Key)
    requires |was| == 16 && |ms| == 16 && OnlyDueLeft(was, ms, now) && k in DueKeys(was, now)
    ensures Has(ms, k) <==> k in DueKeys(ms, now)
  {
  }

  lemma TransferOfDue(was: Maps, ms: Maps, now: nat)
    requires |was| == 16 && |ms| == 16 && OnlyDueLeft(was, ms, now)
    requires var due := |DueKeys(was, now)|;
             |DueKeys(ms, now)| == if due > CALL_LIMIT then due - CALL_LIMIT else 0
    ensures Transferred(was, ms, now)
  {
    RipeIsDue(was, now);
    RipeIsDue(ms, now);
    forall k: Key | Has(was, k) && k !in Ripe(was, now) ensures Has(ms, k) {
      assert !Due(Entry(was, k), now);
    }
    if |Ripe(was, now)| <= 10000 {
      assert DueKeys(ms, now) == {};
      forall k | k in Ripe(was, now) ensures !Has(ms, k) {
        KeptIsDue(was, ms, now, k);
      }
    }
  }

  /** A call that hands on all due records, or as many as it may. */
  lemma TransferOfCall(was: Maps, ms: Maps, emitted: nat, now: nat)
    requires |was| == 16 && |ms| == 16 && OnlyDueLeft(was, ms, now)
    requires |DueKeys(ms, now)| + emitted == |DueKeys(was, now)| && emitted <= CALL_LIMIT
    requires emitted < CALL_LIMIT ==> DueKeys(ms, now) == {}
    ensures Transferred(was, ms, now)
    ensures emitted == if |Ripe(was, now)| < 10000 then |Ripe(was, now)| else 10000
  {
    RipeIsDue(was, now);
    TransferOfDue(was, ms, now);
  }

  lemma EraseDue(was: Maps, ms: Maps, now: nat, key: Key)
    requires Filed(ms) && |was| == 16 && OnlyDueLeft(was, ms, now) && Has(ms, key) && Due(Entry(ms, key), now)
    ensures OnlyDueLeft(was, Erase(ms, key), now)
    ensures |DueKeys(Erase(ms, key), now)| == |DueKeys(ms, now)| - 1
  {
    forall k: Key
      ensures Has(Erase(ms, key), k) <==> Has(ms, k) && k != key
      ensures Has(ms, k) && k != key ==> Entry(Erase(ms, key), k) == Entry(ms, k)
    {
      ErasedEntry(ms, key, k);
    }
    ErasedDue(ms, key, now);
    assert key in DueKeys(ms, now);
  }

  /** No record of map i is due. */
  ghost predicate Drained(ms: Maps, i: nat, now: nat)
    requires |ms| == 16 && i < 16
  {
    forall k | k in ms[i] :: !Due(ms[i][k], now)
  }

  lemma StillDrained(was: Maps, ms: Maps, i: nat, now: nat)
    requires Filed(was) && Filed(ms) && i < 16 && OnlyDueLeft(was, ms, now) && Drained(was, i, now)
    ensures Drained(ms, i, now)
  {
    forall k | k in ms[i] ensures !Due(ms[i][k], now) {
      assert Has(ms, k);
    }
  }

  /** A visit to every map leaves nothing due. */
  lemma AllDrained(ms: Maps, order: seq<nat>, now: nat)
    requires Filed(ms) && |order| == 16 && forall i | 0 <= i < 16 :: order[i] < 16 && i in order
    requires forall v | 0 <= v < 16 :: Drained(ms, order[v], now)
    ensures DueKeys(ms, now) == {}
  {
    forall k: Key | Has(ms, k) ensures !Due(Entry(ms, k), now) {
      assert k % 16 in order;
      assert Drained(ms, k % 16, now);
    }
  }

  lemma OnlyDueLeftTrans(a: Maps, b: Maps, c: Maps, now: nat)
    requires |a| == |b| == |c| == 16 && OnlyDueLeft(a, b, now) && OnlyDueLeft(b, c, now)
    ensures OnlyDueLeft(a, c, now)
  {
  }

  /** Blocks as a call leaves them: of the worker's kind, full. */
  predicate FullBlocks(bs: seq<Block>, kind: nat) {
    forall b | b in bs :: b.kind == kind && |b.items| == BLOCK
  }

  // ------------------------------------------------------------ the visiting order

  /** The map order of a call: from the current map round to the one before it,
      every map exactly once. */
  method BuildOrder(cur: nat) returns (order: array<nat>)
    requires cur < 16
    ensures fresh(order) && order.Length == 16
    ensures forall i | 0 <= i < 16 :: order[i] == (cur + i) % 16
    ensures forall i, j | 0 <= i < j < 16 :: order[i] != order[j]
    ensures forall v | 0 <= v < 16 :: v in order[..]
  {
    order := new nat[16](_ => 0);
    var m, n := 0, cur;
    while n < 16
      invariant cur <= n <= 16 && m == n - cur
      invariant forall i | 0 <= i < m :: order[i] == cur + i
    {
      order[m] := n;
      n, m := n + 1, m + 1;
    }
    n := 0;
    while n < cur
      invariant 0 <= n <= cur && m == 16 - cur + n
      invariant forall i | 0 <= i < 16 - cur :: order[i] == cur + i
      invariant forall i | 16 - cur <= i < m :: order[i] == cur + i - 16
    {
      order[m] := n;
      n, m := n + 1, m + 1;
    }
    forall v | 0 <= v < 16 ensures v in order[..] {
      assert order[..][(v - cur) % 16] == v;
    }
  }

  /** The position after a call, for any value of the tail: 32-bit unsigned
      addition, then the remainder. */
  function Advance(cur: nat, tail: int): (r: nat)
    requires cur < 16 && -0x8000_0000 <= tail < 0x8000_0000
    ensures r < 16
    ensures r == if tail == 16 then 0 else (cur + tail) % 16
  {
    if tail == 16 then 0
    else
      var next := (cur + tail) % 0x1_0000_0000;
      if next >= 16 then next % 16 else next
  }
}
