/** The counter workers' pass-through buffer and their polling cycle: policing,
    counting, passing on, and the periodic flush. */
module CounterCycle {
  import opened Counting
  import opened CounterWorker

  /** A packet, seen through its user data word. */
  datatype Packet = Packet(id: nat, flag: nat, size: U12, color: nat, mode: nat, teid: Key)

  type U12 = x: int | 0 <= x < 0x1000

  /** An enqueue of buffered packets: into the ring as a whole, or not at all. */
  datatype Batch = Batch(ok: bool, packets: seq<Packet>)

  /** The packets of the batches with a given outcome, in order. */
  function Packed(bs: seq<Batch>, ok: bool): seq<Packet> {
    if bs == [] then []
    else Packed(bs[..|bs| - 1], ok) + (if bs[|bs| - 1].ok == ok then bs[|bs| - 1].packets else [])
  }

  function Flat(bs: seq<Batch>): seq<Packet> {
    if bs == [] then [] else Flat(bs[..|bs| - 1]) + bs[|bs| - 1].packets
  }

  /** Batches partition: what was enqueued and what was dropped is everything. */
  lemma {:induction false} BatchesPartition(bs: seq<Batch>)
    ensures multiset(Flat(bs)) == multiset(Packed(bs, true)) + multiset(Packed(bs, false))
  {
    if bs != [] {
      BatchesPartition(bs[..|bs| - 1]);
    }
  }

  class Outlet {
    const attached: bool              // a ring is attached
    const burstTo: nat
    var out: seq<Packet>
    var ring: seq<Packet>             // everything enqueued so far
    var dropped: seq<Packet>
    var dropCount: nat
    ghost var passed: seq<Packet>     // everything accepted from the cycle
    ghost var batches: seq<Batch>

    constructor (attached: bool, burstTo: nat)
      requires 1 <= burstTo
      ensures Valid() && this.attached == attached && this.burstTo == burstTo
      ensures passed == [] && out == []
    {
      this.attached, this.burstTo := attached, burstTo;
      out, ring, dropped, dropCount, passed, batches := [], [], [], 0, [], [];
    }

    /** What was accepted is the batches in order, then the buffer; the ring holds
        the batches that fitted, and the drops are the others. */
    ghost predicate Valid()
      reads this
    {
      && 1 <= burstTo && |out| < burstTo
      && passed == Flat(batches) + out
      && ring == Packed(batches, true) && dropped == Packed(batches, false)
      && dropCount == |dropped|
      && (forall b | b in batches :: 1 <= |b.packets| <= burstTo)
      && (!attached ==> passed == [])
    }

    /** One enqueue attempt for the whole buffer; `room` is the ring's answer. */
    method Enqueue(room: bool)
      requires attached && 1 <= |out| <= burstTo && 1 <= burstTo
      requires passed == Flat(batches) + out
      requires ring == Packed(batches, true) && dropped == Packed(batches, false) && dropCount == |dropped|
      requires forall b | b in batches :: 1 <= |b.packets| <= burstTo
      modifies this`out, this`ring, this`dropped, this`dropCount, this`batches
      ensures Valid() && out == []
      ensures batches == old(batches) + [Batch(room, old(out))]
    {
      if room {
        ring := ring + out;
      } else {
        dropped := dropped + out;
        dropCount := dropCount + |out|;
      }
      batches := batches + [Batch(room, out)];
      out := [];
      assert batches[..|batches| - 1] == old(batches);
    }

    method SendOrBuffer(p: Packet, room: bool)
      requires Valid()
      modifies this`out, this`ring, this`dropped, this`dropCount, this`passed, this`batches
      ensures Valid()
      ensures passed == if attached then old(passed) + [p] else old(passed)
      ensures batches == if attached && |old(out)| + 1 == burstTo
                         then old(batches) + [Batch(room, old(out) + [p])] else old(batches)
    {
      if !attached {
        return;
      }
      passed := passed + [p];
      out := out + [p];
      assert passed == Flat(batches) + out;
      if |out| < burstTo {
        return;
      }
      Enqueue(room);
    }

    method Flush(room: bool)
      requires Valid()
      modifies this`out, this`ring, this`dropped, this`dropCount, this`batches
      ensures Valid() && out == []
      ensures batches == if old(out) == [] then old(batches) else old(batches) + [Batch(room, old(out))]
    {
      if |out| == 0 {
        return;
      }
      if !attached {
        assert false;
      }
      Enqueue(room);
    }

    /** Every accepted packet is buffered, enqueued or dropped and counted, once. */
    lemma Accounted()
      requires Valid()
      ensures multiset(passed) == multiset(ring) + multiset(dropped) + multiset(out)
      ensures |passed| == |ring| + dropCount + |out|
    {
      BatchesPartition(batches);
      assert |passed| == |multiset(passed)|;
      assert |multiset(ring) + multiset(dropped) + multiset(out)| == |ring| + |dropped| + |out|;
    }
  }

  // ------------------------------------------------------------------- the cycle

  /** Freed by the policer: low speed and not green, or 3G and red. */
  predicate Policed(p: Packet) {
    (p.mode == 2 && p.color != 0) || (p.mode == 1 && p.color == 2)
  }

  predicate Pdu(p: Packet) {
    p.flag % 2 == 1
  }

  /** What a burst means for the three outputs: freed, passed on, charged. */
  function Freed(ps: seq<Packet>): seq<Packet> {
    if ps == [] then []
    else Freed(ps[..|ps| - 1]) + (if Policed(ps[|ps| - 1]) then [ps[|ps| - 1]] else [])
  }

  function Passed(ps: seq<Packet>): seq<Packet> {
    if ps == [] then []
    else Passed(ps[..|ps| - 1]) + (if Policed(ps[|ps| - 1]) then [] else [ps[|ps| - 1]])
  }

  function Uses(ps: seq<Packet>): seq<Use> {
    if ps == [] then []
    else
      var p := ps[|ps| - 1];
      Uses(ps[..|ps| - 1]) +
      (if Policed(p) || !Pdu(p) then [] else [Use(p.teid, p.size, ModeOf(p.mode))])
  }

  /** The maps after the burst, packet n counted at clock[n]. */
  function MapsAfter(ms: Maps, ps: seq<Packet>, clock: seq<nat>): (r: Maps)
    requires |ms| == 16 && |ps| <= |clock|
    ensures |r| == 16
    decreases |ps|
  {
    if ps == [] then ms
    else
      var n := |ps| - 1;
      var before := MapsAfter(ms, ps[..n], clock);
      if Policed(ps[n]) || !Pdu(ps[n]) then before
      else CountInto(before, ps[n].teid, ps[n].size, ModeOf(ps[n].mode), clock[n])
  }

  lemma MultisetSnoc(ps: seq<Packet>, p: Packet)
    ensures multiset(ps + [p]) == multiset(ps) + multiset{p}
  {
  }

  /** One more packet on either side. */
  lemma PolicingStep(all: seq<Packet>, ps: seq<Packet>, p: Packet, freed: seq<Packet>, passed: seq<Packet>)
    requires all == ps + [p] && multiset(ps) == multiset(freed) + multiset(passed)
    ensures multiset(all) == multiset(freed + [p]) + multiset(passed)
    ensures multiset(all) == multiset(freed) + multiset(passed + [p])
  {
    MultisetSnoc(ps, p);
    MultisetSnoc(freed, p);
    MultisetSnoc(passed, p);
  }

  lemma PolicedLast(ps: seq<Packet>)
    requires ps != []
    ensures var front, p := ps[..|ps| - 1], ps[|ps| - 1];
            && ps == front + [p]
            && (if Policed(p) then Freed(ps) == Freed(front) + [p] && Passed(ps) == Passed(front)
                else Freed(ps) == Freed(front) && Passed(ps) == Passed(front) + [p])
  {
    var front := ps[..|ps| - 1];
    assert Passed(front) + [] == Passed(front) && Freed(front) + [] == Freed(front);
  }

  /** No packet is lost or doubled by the policing. */
  lemma {:induction false} PolicingPartition(ps: seq<Packet>)
    ensures multiset(ps) == multiset(Freed(ps)) + multiset(Passed(ps))
  {
    if ps == [] {
      assert Freed(ps) == [] && Passed(ps) == [];
    } else {
      var front, p := ps[..|ps| - 1], ps[|ps| - 1];
      PolicingPartition(front);
      PolicedLast(ps);
      PolicingStep(ps, front, p, Freed(front), Passed(front));
    }
  }

  /** Only packets that are passed on are charged: the bytes of a key and mode in
      a burst are the sizes of its user packets among the passed ones. */
  lemma {:induction false} ChargesArePassed(ps: seq<Packet>)
    ensures Uses(ps) == Uses(Passed(ps))
  {
    if ps != [] {
      var n := |ps| - 1;
      ChargesArePassed(ps[..n]);
      if Policed(ps[n]) {
        assert Passed(ps) == Passed(ps[..n]) && Uses(ps) == Uses(ps[..n]);
      } else {
        var qs := Passed(ps);
        assert qs[..|qs| - 1] == Passed(ps[..n]) && qs[|qs| - 1] == ps[n];
      }
    }
  }

  /** The policing of a burst, mode by mode: LTE traffic and green packets always go on,
      low-speed ones only if green, 3G ones unless red. */
  ghost predicate PolicedByMode(ps: seq<Packet>, lost: seq<Packet>, kept: seq<Packet>) {
    forall p | p in ps ::
      && (p.mode != 1 && p.mode != 2 ==> p in kept)
      && (p.color == 0 ==> p in kept)
      && (p.mode == 2 ==> (p in kept <==> p.color == 0))
      && (p.mode == 1 ==> (p in lost <==> p.color == 2))
      && (p in kept <==> p !in lost)
  }

  lemma {:induction false} SplitByPolicer(ps: seq<Packet>, p: Packet)
    ensures p in Freed(ps) <==> p in ps && Policed(p)
    ensures p in Passed(ps) <==> p in ps && !Policed(p)
  {
    if ps != [] {
      PolicedLast(ps);
      SplitByPolicer(ps[..|ps| - 1], p);
    }
  }

  lemma BurstPoliced(ps: seq<Packet>)
    ensures PolicedByMode(ps, Freed(ps), Passed(ps))
  {
    forall p | p in ps
      ensures (p in Freed(ps) <==> Policed(p)) && (p in Passed(ps) <==> !Policed(p))
    {
      SplitByPolicer(ps, p);
    }
  }

  /** A packet that goes on in one colour goes on in every better one. */
  lemma BetterColourPasses(ps: seq<Packet>, qs: seq<Packet>, p: Packet, color: nat)
    requires p in Passed(ps) && color <= p.color <= 2 && p.(color := color) in qs
    ensures p.(color := color) in Passed(qs)
  {
    SplitByPolicer(ps, p);
    SplitByPolicer(qs, p.(color := color));
  }

  /** What a packet costs a key in a mode: its size, if it is a user packet of that key
      and mode that is not freed. */
  function CostOf(p: Packet, k: Key, m: Mode): nat {
    var counted := match m
                   case Lte => p.mode != 1 && p.mode != 2
                   case G3 => p.mode == 1 && p.color != 2
                   case Low => p.mode == 2 && p.color == 0;
    if counted && p.teid == k && p.flag % 2 == 1 then p.size else 0
  }

  /** What a burst costs it. */
  function Cost(ps: seq<Packet>, k: Key, m: Mode): nat {
    if ps == [] then 0 else Cost(ps[..|ps| - 1], k, m) + CostOf(ps[|ps| - 1], k, m)
  }

  lemma {:induction false} ChargedAppend(a: seq<Use>, b: seq<Use>, k: Key, m: Mode)
    ensures Charged(a + b, k, m) == Charged(a, k, m) + Charged(b, k, m)
  {
    if b == [] {
      assert a + b == a;
    } else {
      assert (a + b)[..|a + b| - 1] == a + b[..|b| - 1];
      ChargedAppend(a, b[..|b| - 1], k, m);
    }
  }

  lemma UseOfPacket(p: Packet, k: Key, m: Mode)
    ensures var us := if Policed(p) || !Pdu(p) then [] else [Use(p.teid, p.size, ModeOf(p.mode))];
            Charged(us, k, m) == CostOf(p, k, m)
  {
    var u := Use(p.teid, p.size, ModeOf(p.mode));
    assert [u][..0] == [];
    assert Charged([u], k, m) == if u.key == k && u.mode == m then u.used else 0;
  }

  /** A burst charges what it costs. */
  lemma {:induction false} ChargesAreCost(ps: seq<Packet>, k: Key, m: Mode)
    ensures Charged(Uses(ps), k, m) == Cost(ps, k, m)
  {
    if ps != [] {
      var front, p := ps[..|ps| - 1], ps[|ps| - 1];
      var us: seq<Use> := if Policed(p) || !Pdu(p) then [] else [Use(p.teid, p.size, ModeOf(p.mode))];
      ChargesAreCost(front, k, m);
      ChargedAppend(Uses(front), us, k, m);
      UseOfPacket(p, k, m);
    }
  }

  /** The four outputs of the cycle. */
  datatype Output = Output(freed: seq<Packet>, passed: seq<Packet>, log: seq<Use>, maps: Maps)

  /** What a packet handled at `now` does to the outputs. */
  function After(o: Output, p: Packet, now: nat, attached: bool): Output
    requires |o.maps| == 16
  {
    if Policed(p) then o.(freed := o.freed + [p])
    else
      var o' := if !Pdu(p) then o
                else o.(log := o.log + [Use(p.teid, p.size, ModeOf(p.mode))],
                        maps := CountInto(o.maps, p.teid, p.size, ModeOf(p.mode), now));
      if attached then o'.(passed := o'.passed + [p]) else o'
  }

  /** What a burst does to them. */
  function AfterBurst(o: Output, ps: seq<Packet>, clock: seq<nat>, attached: bool): Output
    requires |o.maps| == 16 && |ps| <= |clock|
  {
    Output(o.freed + Freed(ps), o.passed + (if attached then Passed(ps) else []),
           o.log + Uses(ps), MapsAfter(o.maps, ps, clock))
  }

  lemma BurstStep(o: Output, ps: seq<Packet>, n: nat, clock: seq<nat>, attached: bool)
    requires |o.maps| == 16 && n < |ps| <= |clock|
    ensures AfterBurst(o, ps[..n + 1], clock, attached) ==
            After(AfterBurst(o, ps[..n], clock, attached), ps[n], clock[n], attached)
  {
    assert ps[..n + 1][..n] == ps[..n];
  }

  class Worker {
    const counter: Counter
    const outlet: Outlet
    const flushDelay: nat
    var freed: seq<Packet>

    constructor (counter: Counter, outlet: Outlet, flushDelay: nat)
      ensures this.counter == counter && this.outlet == outlet && this.flushDelay == flushDelay
      ensures freed == []
    {
      this.counter, this.outlet, this.flushDelay, freed := counter, outlet, flushDelay, [];
    }

    ghost predicate Valid()
      reads this, counter, outlet
    {
      counter.Valid() && outlet.Valid()
    }

    ghost function View(): Output
      reads this, counter, outlet
    {
      Output(freed, outlet.passed, counter.log, counter.maps)
    }

    /** One packet of the burst. */
    method Handle(p: Packet, now: nat, room: bool)
      requires Valid()
      modifies this, counter`maps, counter`countingCount, counter`trafficBytes, counter`log, counter`wraps
      modifies outlet`out, outlet`ring, outlet`dropped, outlet`dropCount, outlet`passed, outlet`batches
      ensures Valid() && View() == After(old(View()), p, now, outlet.attached)
    {
      if p.mode == 2 && p.color != 0 {
        freed := freed + [p];
      } else if p.mode == 1 && p.color == 2 {
        freed := freed + [p];
      } else {
        if p.flag % 2 == 1 {
          counter.Counting(p.teid, p.size, p.mode, now);
        }
        outlet.SendOrBuffer(p, room);
      }
    }

    method Step(ps: seq<Packet>, n: nat, clock: seq<nat>, room: bool, ghost start: Output)
      requires Valid() && n < |ps| <= |clock| && |start.maps| == 16
      requires View() == AfterBurst(start, ps[..n], clock, outlet.attached)
      modifies this, counter`maps, counter`countingCount, counter`trafficBytes, counter`log, counter`wraps
      modifies outlet`out, outlet`ring, outlet`dropped, outlet`dropCount, outlet`passed, outlet`batches
      ensures Valid() && View() == AfterBurst(start, ps[..n + 1], clock, outlet.attached)
    {
      BurstStep(start, ps, n, clock, outlet.attached);
      Handle(ps[n], clock[n], room);
    }

    /** The first loop: all but the last three packets, while prefetching. */
    method HandleFront(ps: seq<Packet>, clock: seq<nat>, room: seq<bool>) returns (n: nat)
      requires Valid() && |ps| <= |clock| && |ps| <= |room|
      modifies this, counter`maps, counter`countingCount, counter`trafficBytes, counter`log, counter`wraps
      modifies outlet`out, outlet`ring, outlet`dropped, outlet`dropCount, outlet`passed, outlet`batches
      ensures Valid() && n <= |ps| && View() == AfterBurst(old(View()), ps[..n], clock, outlet.attached)
    {
      n := 0;
      ghost var start := View();
      while |ps| > 3 && n < |ps| - 3   // the unsigned difference is read only where it does not wrap
        invariant 0 <= n <= |ps| && Valid()
        invariant View() == AfterBurst(start, ps[..n], clock, outlet.attached)
      {
        Step(ps, n, clock, room[n], start);
        n := n + 1;
      }
    }

    /** The second loop, from where the first ended. */
    method HandleRest(ps: seq<Packet>, from: nat, clock: seq<nat>, room: seq<bool>, ghost start: Output)
      requires Valid() && from <= |ps| <= |clock| && |ps| <= |room| && |start.maps| == 16
      requires View() == AfterBurst(start, ps[..from], clock, outlet.attached)
      modifies this, counter`maps, counter`countingCount, counter`trafficBytes, counter`log, counter`wraps
      modifies outlet`out, outlet`ring, outlet`dropped, outlet`dropCount, outlet`passed, outlet`batches
      ensures Valid() && View() == AfterBurst(start, ps[..|ps|], clock, outlet.attached)
    {
      for n := from to |ps|
        invariant Valid() && View() == AfterBurst(start, ps[..n], clock, outlet.attached)
      {
        Step(ps, n, clock, room[n], start);
      }
    }

    /** The whole burst: each packet once and in order, however it is split. */
    method HandleBurst(ps: seq<Packet>, clock: seq<nat>, room: seq<bool>)
      requires Valid() && |ps| <= |clock| && |ps| <= |room|
      modifies this, counter`maps, counter`countingCount, counter`trafficBytes, counter`log, counter`wraps
      modifies outlet`out, outlet`ring, outlet`dropped, outlet`dropCount, outlet`passed, outlet`batches
      ensures Valid() && View() == AfterBurst(old(View()), ps, clock, outlet.attached)
    {
      ghost var start := View();
      var n := HandleFront(ps, clock, room);
      HandleRest(ps, n, clock, room, start);
      assert ps[..|ps|] == ps;
    }

    /** The maps after a turn, given the maps after its counting. */
    ghost predicate Flushed(counted: Maps, now: nat, flush: bool)
      requires |counted| == 16
      reads this, counter, outlet
    {
      && |counter.maps| == 16
      && if flush then
           outlet.out == [] && Transferred(counted, counter.maps, now)
         else counter.maps == counted
    }

    /** The end of a turn: at or past the flush delay it hands on up to 10000 due
        records, empties the pass-through buffer and restarts the turn count. */
    method EndTurn(now: nat, room: bool, cnt: nat) returns (cnt': nat)
      requires Valid()
      modifies counter`maps, counter`cur, counter`sent, counter`forwardCount
      modifies outlet`out, outlet`ring, outlet`dropped, outlet`dropCount, outlet`batches
      ensures Valid() && Flushed(old(counter.maps), now, cnt >= flushDelay)
      ensures old(counter.sent) <= counter.sent && (cnt < flushDelay ==> counter.sent == old(counter.sent))
      ensures cnt' == if cnt >= flushDelay then 0 else cnt
    {
      cnt' := cnt;
      if cnt >= flushDelay {
        counter.ForwardTransfer(now);
        outlet.Flush(room);
        cnt' := 0;
      }
    }

    /** One polling turn with the burst taken from the input ring. */
    method Cycle(ps: seq<Packet>, clock: seq<nat>, room: seq<bool>, cnt: nat) returns (cnt': nat)
      requires Valid() && |ps| < |clock| && |ps| < |room|
      modifies this, counter, outlet
      ensures Valid()
      ensures View() == AfterBurst(old(View()), ps, clock, outlet.attached).(maps := counter.maps)
      ensures exists lost, kept ::
                && PolicedByMode(ps, lost, kept)
                && freed == old(freed) + lost
                && outlet.passed == old(outlet.passed) + if outlet.attached then kept else []
      ensures forall k: Key, m: Mode ::
                Charged(counter.log, k, m) == Charged(old(counter.log), k, m) + Cost(ps, k, m)
      ensures Flushed(MapsAfter(old(counter.maps), ps, clock), clock[|ps|], cnt >= flushDelay)
      ensures old(counter.sent) <= counter.sent && (cnt < flushDelay ==> counter.sent == old(counter.sent))
      ensures cnt' == if cnt >= flushDelay then 0 else cnt
    {
      BurstPoliced(ps);
      forall k: Key, m: Mode
        ensures Charged(old(counter.log) + Uses(ps), k, m) == Charged(old(counter.log), k, m) + Cost(ps, k, m)
      {
        ChargedAppend(old(counter.log), Uses(ps), k, m);
        ChargesAreCost(ps, k, m);
      }
      if |ps| == 0 {
        cnt' := EndTurn(clock[0], room[0], cnt);
        return;
      }
      HandleBurst(ps, clock, room);
      cnt' := EndTurn(clock[|ps|], room[|ps|], cnt);
    }
  }
}
