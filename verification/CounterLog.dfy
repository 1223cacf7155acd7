/** The log worker: counting blocks become database rows. */
module CounterLog {
  import opened Counting
  import CounterWorker

  const COUNTER_EGRESS: nat := 0xff

  /** teid, used_s5, used_sgi, type: 0 is LTE, 1 is 3G, 2 is low speed. */
  datatype Row = Row(teid: Key, s5: U32, sgi: U32, kind: nat)

  /** A buffer as it arrives: whether its length is that of a counting packet. */
  datatype Arrival = Arrival(sized: bool, block: Block)

  /** The bytes a row books for a key, a mode and a direction. */
  function Booked(r: Row, k: Key, m: Mode, egress: bool): nat {
    if r.teid == k && r.kind == (match m case Lte => 0 case G3 => 1 case Low => 2)
    then (if egress then r.sgi else r.s5) else 0
  }

  function BookedAll(rs: seq<Row>, k: Key, m: Mode, egress: bool): nat {
    if rs == [] then 0
    else BookedAll(rs[..|rs| - 1], k, m, egress) + Booked(rs[|rs| - 1], k, m, egress)
  }

  lemma {:induction false} BookedAppend(a: seq<Row>, b: seq<Row>, k: Key, m: Mode, egress: bool)
    ensures BookedAll(a + b, k, m, egress) == BookedAll(a, k, m, egress) + BookedAll(b, k, m, egress)
  {
    if b == [] {
      assert a + b == a;
    } else {
      var n := |b| - 1;
      assert (a + b)[..|a + b| - 1] == a + b[..n];
      BookedAppend(a, b[..n], k, m, egress);
    }
  }

  /** The row of one mode of a record, if it has any bytes. */
  function RowOf(r: Rec, m: Mode, kind: nat): seq<Row> {
    var used := RecBytes(r, m);
    var code := match m case Lte => 0 case G3 => 1 case Low => 2;
    if used == 0 then []
    else if kind == COUNTER_EGRESS then [Row(r.key, 0, used, code)]
    else [Row(r.key, used, 0, code)]
  }

  function RowsOfRec(r: Rec, kind: nat): seq<Row> {
    RowOf(r, Lte, kind) + RowOf(r, G3, kind) + RowOf(r, Low, kind)
  }

  function RowsOfItems(rs: seq<Rec>, kind: nat): seq<Row> {
    if rs == [] then [] else RowsOfItems(rs[..|rs| - 1], kind) + RowsOfRec(rs[|rs| - 1], kind)
  }

  function RowsOf(bs: seq<Block>): seq<Row> {
    if bs == [] then []
    else RowsOf(bs[..|bs| - 1]) + RowsOfItems(bs[|bs| - 1].items, bs[|bs| - 1].kind)
  }

  lemma RowBooked(r: Rec, of: Mode, kind: nat, k: Key, m: Mode, egress: bool)
    ensures BookedAll(RowOf(r, of, kind), k, m, egress) ==
            if r.key == k && of == m && (kind == 0xff) == egress then RecBytes(r, m) else 0
  {
    var rows := RowOf(r, of, kind);
    if rows != [] {
      assert BookedAll(rows, k, m, egress) == Booked(rows[0], k, m, egress);
    }
  }

  /** One record books its bytes in its own direction, and nothing in the other. */
  lemma RecBooked(r: Rec, kind: nat, k: Key, m: Mode, egress: bool)
    ensures BookedAll(RowsOfRec(r, kind), k, m, egress) ==
            if r.key == k && (kind == 0xff) == egress then RecBytes(r, m) else 0
  {
    var a, b, c := RowOf(r, Lte, kind), RowOf(r, G3, kind), RowOf(r, Low, kind);
    BookedAppend(a + b, c, k, m, egress);
    BookedAppend(a, b, k, m, egress);
    RowBooked(r, Lte, kind, k, m, egress);
    RowBooked(r, G3, kind, k, m, egress);
    RowBooked(r, Low, kind, k, m, egress);
  }

  lemma {:induction false} ItemsBooked(rs: seq<Rec>, kind: nat, k: Key, m: Mode, egress: bool)
    ensures BookedAll(RowsOfItems(rs, kind), k, m, egress) ==
            if (kind == 0xff) == egress then Sum(rs, k, m) else 0
  {
    if rs != [] {
      var n := |rs| - 1;
      ItemsBooked(rs[..n], kind, k, m, egress);
      RecBooked(rs[n], kind, k, m, egress);
      BookedAppend(RowsOfItems(rs[..n], kind), RowsOfRec(rs[n], kind), k, m, egress);
    }
  }

  /** The blocks of one direction: those of the egress counter, or the others. */
  function Side(bs: seq<Block>, egress: bool): seq<Block> {
    if bs == [] then []
    else
      var b := bs[|bs| - 1];
      Side(bs[..|bs| - 1], egress) + (if (b.kind == 0xff) == egress then [b] else [])
  }

  /** The rows of any mix of blocks book, per key, mode and direction, exactly the
      bytes the blocks of that direction carry. */
  lemma {:induction false} RowsBooked(bs: seq<Block>, k: Key, m: Mode, egress: bool)
    ensures BookedAll(RowsOf(bs), k, m, egress) == Handed(Side(bs, egress), k, m)
  {
    if bs != [] {
      var n := |bs| - 1;
      RowsBooked(bs[..n], k, m, egress);
      ItemsBooked(bs[n].items, bs[n].kind, k, m, egress);
      BookedAppend(RowsOf(bs[..n]), RowsOfItems(bs[n].items, bs[n].kind), k, m, egress);
      HandedPlus(Side(bs[..n], egress), bs[n], k, m);
      if (bs[n].kind == 0xff) != egress {
        assert Side(bs, egress) == Side(bs[..n], egress);
      }
    }
  }

  /** No row is empty, and none books both directions. */
  lemma {:induction false} RowsOneSided(bs: seq<Block>)
    ensures forall r | r in RowsOf(bs) :: (r.s5 == 0) != (r.sgi == 0)
  {
    if bs != [] {
      RowsOneSided(bs[..|bs| - 1]);
      ItemsOneSided(bs[|bs| - 1].items, bs[|bs| - 1].kind);
    }
  }

  lemma {:induction false} ItemsOneSided(rs: seq<Rec>, kind: nat)
    ensures forall r | r in RowsOfItems(rs, kind) :: (r.s5 == 0) != (r.sgi == 0)
  {
    if rs != [] {
      ItemsOneSided(rs[..|rs| - 1], kind);
    }
  }

  function Blocks(arrivals: seq<Arrival>): seq<Block> {
    seq(|arrivals|, i requires 0 <= i < |arrivals| => arrivals[i].block)
  }

  /** The arrivals before the first one of a wrong length. */
  function Sized(arrivals: seq<Arrival>): (r: seq<Arrival>)
    ensures r <= arrivals && (forall a | a in r :: a.sized)
    ensures |r| < |arrivals| ==> !arrivals[|r|].sized
  {
    if arrivals == [] || !arrivals[0].sized then [] else [arrivals[0]] + Sized(arrivals[1..])
  }

  class LogWorker {
    var stored: seq<Row>       // rows the database took
    var transferCount: nat

    constructor ()
      ensures stored == [] && transferCount == 0
    {
      stored, transferCount := [], 0;
    }

    /** Renders the rows of one record after the rows already collected. */
    method AddRows(r: Rec, kind: nat, rows0: seq<Row>) returns (rows: seq<Row>)
      modifies this`transferCount
      ensures rows == rows0 + RowsOfRec(r, kind)
      ensures transferCount == old(transferCount) + |RowsOfRec(r, kind)|
    {
      rows := rows0;
      var s5: U32, sgi: U32 := 0, 0;
      if kind == COUNTER_EGRESS { sgi := r.lte; } else { s5 := r.lte; }
      if s5 != 0 || sgi != 0 {
        rows := rows + [Row(r.key, s5, sgi, 0)];
        transferCount := transferCount + 1;
      }
      s5, sgi := 0, 0;
      if kind == COUNTER_EGRESS { sgi := r.g3; } else { s5 := r.g3; }
      if s5 != 0 || sgi != 0 {
        rows := rows + [Row(r.key, s5, sgi, 1)];
        transferCount := transferCount + 1;
      }
      s5, sgi := 0, 0;
      if kind == COUNTER_EGRESS { sgi := r.low; } else { s5 := r.low; }
      if s5 != 0 || sgi != 0 {
        rows := rows + [Row(r.key, s5, sgi, 2)];
        transferCount := transferCount + 1;
      }
    }

    method AddBlock(b: Block, rows0: seq<Row>) returns (rows: seq<Row>)
      modifies this`transferCount
      ensures rows == rows0 + RowsOfItems(b.items, b.kind)
      ensures transferCount == old(transferCount) + |rows| - |rows0|
    {
      rows := rows0;
      for m := 0 to |b.items|
        invariant rows == rows0 + RowsOfItems(b.items[..m], b.kind)
        invariant transferCount == old(transferCount) + |rows| - |rows0|
      {
        rows := AddRows(b.items[m], b.kind, rows);
        assert b.items[..m + 1][..m] == b.items[..m];
      }
      assert b.items[..|b.items|] == b.items;
    }

    /** One turn. The whole burst is stored by one insert, or none of it is: a
        buffer of the wrong length ends the turn before the insert. */
    method VirtualCycle(arrivals: seq<Arrival>, database: bool) returns (ok: bool)
      modifies this
      ensures ok == (arrivals == [] || (Sized(arrivals) == arrivals && database))
      ensures stored == if ok then old(stored) + RowsOf(Blocks(arrivals)) else old(stored)
      ensures transferCount == old(transferCount) + |RowsOf(Blocks(Sized(arrivals)))|
    {
      if |arrivals| == 0 {
        return true;
      }
      var rows := [];
      for n := 0 to |arrivals|
        invariant n <= |Sized(arrivals)|
        invariant rows == RowsOf(Blocks(arrivals[..n]))
        invariant transferCount == old(transferCount) + |rows|
        invariant stored == old(stored)
      {
        if !arrivals[n].sized {
          assert arrivals[n] !in Sized(arrivals);
          assert n == |Sized(arrivals)| && Sized(arrivals) == arrivals[..n];
          return false;
        }
        rows := AddBlock(arrivals[n].block, rows);
        assert Blocks(arrivals[..n + 1])[..n] == Blocks(arrivals[..n]);
      }
      assert arrivals[..|arrivals|] == arrivals;
      assert Sized(arrivals) == arrivals;
      if !database {
        return false;
      }
      stored := stored + rows;
      ok := true;
    }
  }

  /** End to end, for one counter worker and the rows of the blocks it sent: the
      bytes of its packets are booked or still held, but for 2^32 per wrap of a
      32-bit counter; they match exactly when no counter of the key wrapped. */
  lemma BooksMatch(c: CounterWorker.Counter, k: Key, m: Mode)
    requires c.Valid()
    ensures var booked := BookedAll(RowsOf(c.sent), k, m, c.kind == 0xff);
            && Charged(c.log, k, m) == Held(c.maps, k, m) + booked + 0x1_0000_0000 * Wraps(c.wraps, k, m)
            && (Charged(c.log, k, m) == Held(c.maps, k, m) + booked <==> (k, m) !in c.wraps)
  {
    SideAll(c.sent, c.kind);
    RowsBooked(c.sent, k, m, c.kind == 0xff);
    assert Balanced(c.log, c.maps, c.sent, c.wraps, k, m);
    NoWraps(c.wraps, k, m);
  }

  lemma {:induction false} SideAll(bs: seq<Block>, kind: nat)
    requires forall b | b in bs :: b.kind == kind
    ensures Side(bs, kind == 0xff) == bs
  {
    if bs != [] {
      assert bs[|bs| - 1] in bs;
      SideAll(bs[..|bs| - 1], kind);
    }
  }

  lemma {:induction false} NoWraps(ws: seq<(Key, Mode)>, k: Key, m: Mode)
    ensures Wraps(ws, k, m) == 0 <==> (k, m) !in ws
  {
    if ws != [] {
      NoWraps(ws[..|ws| - 1], k, m);
      assert ws == ws[..|ws| - 1] + [ws[|ws| - 1]];
    }
  }
}
