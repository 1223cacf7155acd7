/** The packet queues between the control plane's threads: a doubly linked tail
    queue, where each element points back at the pointer cell that points at it,
    behind a bounded enqueue and a burst dequeue. */
module TailQueue {

  const RING_SIZE_MAX: nat := 20 * 1024

  // ------------------------------------------------------------------ what it stands for

  /** The queue as a value: what waits, what was taken out, how many were dropped. */
  datatype Fifo<T> = Fifo(items: seq<T>, out: seq<T>, drops: nat)

  datatype Op<T> = Enq(packet: T) | DeqBurst(length: nat)

  /** How many a burst takes; a burst of length 0 still takes one. */
  function Burst(length: nat, waiting: nat): nat {
    var want := if length == 0 then 1 else length;
    if want <= waiting then want else waiting
  }

  function Step<T>(q: Fifo<T>, op: Op<T>): Fifo<T> {
    match op
    case Enq(p) =>
      if |q.items| >= RING_SIZE_MAX then q.(drops := q.drops + 1) else q.(items := q.items + [p])
    case DeqBurst(n) =>
      var k := Burst(n, |q.items|);
      Fifo(q.items[k..], q.out + q.items[..k], q.drops)
  }

  function Run<T>(q: Fifo<T>, ops: seq<Op<T>>): Fifo<T>
    decreases |ops|
  {
    if ops == [] then q else Run(Step(q, ops[0]), ops[1..])
  }

  /** The packets a run takes in, in order. */
  function Accepted<T>(q: Fifo<T>, ops: seq<Op<T>>): seq<T>
    decreases |ops|
  {
    if ops == [] then []
    else
      (if ops[0].Enq? && |q.items| < 20480 then [ops[0].packet] else [])
      + Accepted(Step(q, ops[0]), ops[1..])
  }

  function Offered<T>(ops: seq<Op<T>>): nat {
    if ops == [] then 0 else (if ops[0].Enq? then 1 else 0) + Offered(ops[1..])
  }

  /** Over every run: what was taken in is what came out followed by what waits, in
      order; every other packet offered is counted as dropped; the limit holds. */
  lemma {:induction false} RunIsFifo<T>(q: Fifo<T>, ops: seq<Op<T>>)
    requires |q.items| <= 20480
    ensures var r := Run(q, ops);
            && r.out + r.items == q.out + q.items + Accepted(q, ops)
            && r.drops + |Accepted(q, ops)| == q.drops + Offered(ops)
            && |r.items| <= 20480
    decreases |ops|
  {
    if ops != [] {
      var q' := Step(q, ops[0]);
      RunIsFifo(q', ops[1..]);
      var first := if ops[0].Enq? && |q.items| < RING_SIZE_MAX then [ops[0].packet] else [];
      assert q'.out + q'.items == q.out + q.items + first;
      assert q.out + q.items + first + Accepted(q', ops[1..]) == q.out + q.items + (first + Accepted(q', ops[1..]));
    } else {
      assert q.out + q.items + Accepted(q, ops) == q.out + q.items;
    }
  }

  // --------------------------------------------------------------------- the linked form

  /** The address of a pointer cell: the head's first pointer, or an element's next. */
  datatype Slot = First | NextOf(p: Packet)

  class Packet {
    var next: Packet?
    var prev: Slot

    constructor ()
    {
      next, prev := null, First;
    }
  }

  class Queue {
    var first: Packet?
    var last: Slot
    var count: nat
    var drops: nat
    ghost var contents: seq<Packet>
    ghost var out: seq<Packet>

    constructor ()
      ensures Valid() && View() == Fifo([], [], 0)
    {
      first, last, count, drops := null, First, 0, 0;
      contents, out := [], [];
    }

    ghost function View(): Fifo<Packet>
      reads this
    {
      Fifo(contents, out, drops)
    }

    static ghost predicate Distinct(c: seq<Packet>) {
      forall i, j {:trigger c[i], c[j]} | 0 <= i < j < |c| :: c[i] != c[j]
    }

    /** The pointers spell the contents: forward through next, back through prev. */
    ghost predicate Linked()
      reads this, contents
    {
      var n := |contents|;
      && Distinct(contents)
      && (forall i, j {:trigger contents[i], contents[j]} | 0 <= i < n && j == i + 1 < n ::
            contents[i].next == contents[j] && contents[j].prev == NextOf(contents[i]))
      && (if n == 0 then first == null && last == First
          else && first == contents[0] && contents[0].prev == First
               && last == NextOf(contents[n - 1]) && contents[n - 1].next == null)
    }

    ghost predicate Valid()
      reads this, contents
    {
      Linked() && count == |contents| <= RING_SIZE_MAX
    }

    /** Stores through a pointer cell. */
    method StoreAt(s: Slot, p: Packet?)
      modifies if s.First? then {this} else {s.p}
      ensures s.First? ==> first == p && last == old(last) && count == old(count) && drops == old(drops)
                           && contents == old(contents) && out == old(out)
      ensures s.NextOf? ==> s.p.next == p && s.p.prev == old(s.p.prev)
    {
      match s {
        case First => first := p;
        case NextOf(q) => q.next := p;
      }
    }

    /** TAILQ_INSERT_TAIL. */
    method InsertTail(p: Packet)
      requires Linked() && p !in contents
      modifies this, p, contents
      ensures Linked() && contents == old(contents) + [p]
      ensures count == old(count) && drops == old(drops) && out == old(out)
    {
      p.next := null;
      p.prev := last;
      StoreAt(last, p);
      last := NextOf(p);
      contents := contents + [p];
    }

    /** The pointers lead around element i of a list. */
    ghost predicate Around(c: seq<Packet>, i: nat)
      requires i < |c|
      reads this, c
    {
      var n := |c|;
      && (forall k, j {:trigger c[k], c[j]} | 0 <= k < n && j == k + 1 < n && k != i && j != i ::
            c[k].next == c[j] && c[j].prev == NextOf(c[k]))
      && (if i == 0 then n > 1 ==> first == c[1] && c[1].prev == First
          else first == c[0] && c[0].prev == First)
      && (if i == n - 1 then n > 1 ==> last == NextOf(c[n - 2]) && c[n - 2].next == null
          else last == NextOf(c[n - 1]) && c[n - 1].next == null)
      && (0 < i < n - 1 ==> c[i - 1].next == c[i + 1] && c[i + 1].prev == NextOf(c[i - 1]))
      && (n == 1 ==> first == null && last == First)
    }

    lemma AroundLinked(c: seq<Packet>, i: nat)
      requires i < |c| && Distinct(c) && Around(c, i) && contents == c[..i] + c[i + 1..]
      ensures Linked()
    {
      assert forall k | 0 <= k < |contents| :: contents[k] == c[if k < i then k else k + 1];
    }

    /** TAILQ_REMOVE of the element at position i. */
    method Remove(p: Packet, ghost i: nat)
      requires Linked() && i < |contents| && contents[i] == p
      modifies this, contents
      ensures Linked() && contents == old(contents)[..i] + old(contents)[i + 1..]
      ensures count == old(count) && drops == old(drops) && out == old(out)
    {
      ghost var c, n := contents, |contents|;
      assert i + 1 < n ==> p.next == c[i + 1] && c[i + 1].prev == NextOf(p);
      assert 0 < i ==> p.prev == NextOf(c[i - 1]) && c[i - 1].next == p;
      if p.next != null {
        p.next.prev := p.prev;
      } else {
        last := p.prev;
      }
      StoreAt(p.prev, p.next);
      assert Around(c, i);
      contents := c[..i] + c[i + 1..];
      AroundLinked(c, i);
    }

    /** pgw_enq; a packet that is already linked must not be enqueued again. */
    method Enq(p: Packet)
      requires Valid() && p !in contents
      modifies this, p, contents
      ensures Valid() && View() == Step(old(View()), Op.Enq(p))
    {
      if count >= RING_SIZE_MAX {
        drops := drops + 1;
      } else {
        count := count + 1;
        InsertTail(p);
      }
    }

    /** pgw_deq_burst: the oldest packets, at most `length` of them but one even
        for length 0. */
    method DeqBurst(packets: array<Packet?>, length: nat) returns (ret: nat)
      requires Valid() && length <= packets.Length && 1 <= packets.Length
      modifies this, contents, packets
      ensures Valid() && View() == Step(old(View()), Op.DeqBurst(length))
      ensures ret <= |old(contents)| && (ret <= length || ret == 1)
      ensures ret == |old(contents)| || ret == length || (length == 0 && ret == 1)
      ensures old(contents) != [] ==> ret >= 1
      ensures contents == old(contents)[ret..]
      ensures forall k | 0 <= k < ret :: packets[k] == old(contents)[k]
    {
      ghost var c0 := contents;
      ret := Drain(packets, length);
      count := count - ret;
      out := out + c0[..ret];
    }

    /** The dequeue loop. */
    method Drain(packets: array<Packet?>, length: nat) returns (ret: nat)
      requires Linked() && length <= packets.Length && 1 <= packets.Length
      modifies this, contents, packets
      ensures Linked() && ret == Burst(length, |old(contents)|) && contents == old(contents)[ret..]
      ensures count == old(count) && drops == old(drops) && out == old(out)
      ensures forall k | 0 <= k < ret :: packets[k] == old(contents)[k]
    {
      ghost var c0 := contents;
      ret := 0;
      var cur := first;
      while cur != null
        invariant Linked() && cur == first && ret <= |c0| && contents == c0[ret..]
        invariant ret < length || ret == 0
        invariant count == old(count) && drops == old(drops) && out == old(out)
        invariant forall k | 0 <= k < ret :: packets[k] == c0[k]
        decreases |c0| - ret
      {
        var next := cur.next;
        TakeFirst(cur, next, packets, ret);
        ret := ret + 1;
        if ret >= length {
          break;
        }
        cur := next;
      }
    }

    /** One turn of the dequeue loop: the first element goes to the caller's array,
        and the queue is left at the second. */
    method TakeFirst(p: Packet, next: Packet?, packets: array<Packet?>, at: nat)
      requires Linked() && first == p && p.next == next && at < packets.Length
      modifies this, contents, packets
      ensures Linked() && old(contents) != [] && contents == old(contents)[1..]
      ensures first == next && count == old(count) && drops == old(drops) && out == old(out)
      ensures packets[at] == old(contents)[0]
      ensures forall k | 0 <= k < packets.Length && k != at :: packets[k] == old(packets[k])
    {
      packets[at] := p;
      RemoveFirst(p);
    }

    method RemoveFirst(p: Packet)
      requires Linked() && first == p
      modifies this, contents
      ensures Linked() && old(contents) != [] && old(contents)[0] == p && contents == old(contents)[1..]
      ensures first == old(p.next) && count == old(count) && drops == old(drops) && out == old(out)
    {
      ghost var c := contents;
      assert |c| > 1 ==> c[0].next == c[1];
      Remove(p, 0);
      assert c[..0] + c[1..] == c[1..];
    }
  }

  lemma {:induction false} RunSnoc<T>(q: Fifo<T>, ops: seq<Op<T>>, op: Op<T>)
    ensures Run(q, ops + [op]) == Step(Run(q, ops), op)
    decreases |ops|
  {
    if ops == [] {
      assert (ops + [op])[1..] == [];
    } else {
      assert (ops + [op])[1..] == ops[1..] + [op];
      RunSnoc(Step(q, ops[0]), ops[1..], op);
    }
  }

  /** The packets a list of operations offers. */
  ghost function Packets(ops: seq<Op<Packet>>): set<Packet> {
    set i | 0 <= i < |ops| && ops[i].Enq? :: ops[i].packet
  }

  method Perform(q: Queue, op: Op<Packet>)
    requires q.Valid() && (op.Enq? ==> op.packet !in q.contents)
    modifies q, q.contents, if op.Enq? then {op.packet} else {}
    ensures q.Valid() && q.View() == Step(old(q.View()), op)
  {
    match op {
      case Enq(p) => q.Enq(p);
      case DeqBurst(length) =>
        var packets := new Packet?[length + 1](_ => null);
        var ret := q.DeqBurst(packets, length);
    }
  }

  /** Any list of operations on a queue does what it does to the value, as long as
      no packet is offered while it waits in the queue. It may be offered again once
      it was taken out or dropped, with whatever its links then hold. */
  method Execute(q: Queue, ops: seq<Op<Packet>>)
    requires q.Valid()
    requires forall n | 0 <= n < |ops| && ops[n].Enq? :: ops[n].packet !in Run(q.View(), ops[..n]).items
    modifies q, q.contents, Packets(ops)
    ensures q.Valid() && q.View() == Run(old(q.View()), ops)
  {
    ghost var c0, v0 := q.contents, q.View();
    for n := 0 to |ops|
      invariant q.Valid() && q.View() == Run(v0, ops[..n])
      invariant forall p | p in q.contents :: p in c0 || p in Packets(ops)
    {
      assert ops[..n + 1] == ops[..n] + [ops[n]];
      RunSnoc(v0, ops[..n], ops[n]);
      assert ops[n].Enq? ==> ops[n].packet in Packets(ops);
      Perform(q, ops[n]);
    }
    assert ops[..|ops|] == ops;
  }
}
