/** A counter worker core: it counts user packets into sixteen maps, packs due
    records into blocks for the log worker, and passes the packets on. */
module CounterWorker {
  import opened Counting

  class Counter {
    const kind: nat                 // 0xfe ingress, 0xff egress
    var maps: Maps
    var cur: nat
    var sent: seq<Block>            // blocks handed on by SendOrBuffer
    var countingCount: nat
    var trafficBytes: nat
    var forwardCount: nat
    ghost var log: seq<Use>         // every call of Counting
    ghost var wraps: seq<(Key, Mode)>  // the calls whose 32-bit counter wrapped

    constructor (kind: nat)
      ensures Valid() && this.kind == kind && cur == 0 && sent == [] && log == [] && wraps == []
      ensures forall k: Key :: !Has(maps, k)
    {
      this.kind := kind;
      maps := seq(16, _ => map[]);
      cur, sent := 0, [];
      countingCount, trafficBytes, forwardCount := 0, 0, 0;
      log, wraps := [], [];
    }

    ghost predicate Conserved()
      requires |maps| == 16
      reads this
    {
      forall k: Key, m: Mode :: Balanced(log, maps, sent, wraps, k, m)
    }

    ghost predicate Valid()
      reads this
    {
      Filed(maps) && cur < 16 && Conserved() && forall b | b in sent :: b.kind == kind
    }

    method Counting(key: Key, used: U16, mode: nat, now: nat)
      requires Valid()
      modifies this`maps, this`countingCount, this`trafficBytes, this`log, this`wraps
      ensures Valid()
      ensures maps == CountInto(old(maps), key, used, ModeOf(mode), now)
      ensures log == old(log) + [Use(key, used, ModeOf(mode))]
      ensures wraps == if WrapsAt(old(maps), key, used, ModeOf(mode))
                       then old(wraps) + [(key, ModeOf(mode))] else old(wraps)
      ensures countingCount == old(countingCount) + 1 && trafficBytes == old(trafficBytes) + used
    {
      ghost var m := ModeOf(mode);
      var idx := key % 16;
      if key in maps[idx] {
        maps := Put(maps, key, Charge(maps[idx][key], ModeOf(mode), used));
      } else {
        maps := Put(maps, key, Charge(Item(now % 0x1_0000_0000, 0, 0, 0), ModeOf(mode), used));
      }
      countingCount := countingCount + 1;
      trafficBytes := trafficBytes + used;
      log := log + [Use(key, used, m)];
      wraps := if WrapsAt(old(maps), key, used, m) then wraps + [(key, m)] else wraps;
      HeldAfter(old(maps), key, used, m, now, key, m);
      forall k: Key, n: Mode ensures Balanced(log, maps, sent, wraps, k, n) {
        assert Balanced(old(log), old(maps), sent, old(wraps), k, n);
        CountBalanced(old(log), old(maps), sent, old(wraps), Use(key, used, m), now, k, n);
      }
    }

    /** The balance with the open block counted in. */
    ghost predicate OpenBalanced(open: seq<Rec>)
      requires |maps| == 16
      reads this
    {
      forall k: Key, m: Mode :: Balanced(log, maps, sent + [Block(kind, open)], wraps, k, m)
    }

    /** Copies the record of a key into the open block, sends the block once it
        is full, and erases the record. The exit for a full ring of blocks,
        which would leave the copied record in its map, is never reached. */
    method Take(key: Key, open: seq<Rec>, emitted: nat, ringid: nat)
      returns (open': seq<Rec>, emitted': nat, ringid': nat)
      requires Filed(maps) && Has(maps, key) && OpenBalanced(open)
      requires |open| < BLOCK && emitted == BLOCK * ringid + |open| < CALL_LIMIT
      modifies this`maps, this`sent
      ensures maps == Erase(old(maps), key) && Filed(maps) && OpenBalanced(open')
      ensures emitted' == emitted + 1 == BLOCK * ringid' + |open'| && |open'| < BLOCK
      ensures sent == old(sent) + (if |open| + 1 < BLOCK then []
                                   else [Block(kind, open + [RecOf(key, old(Entry(maps, key)))])])
      ensures ringid' == ringid + |sent| - |old(sent)|
    {
      ghost var was, bs := maps, sent;
      var r := RecOf(key, maps[key % 16][key]);
      open' := open + [r];
      emitted' := emitted + 1;
      ringid' := ringid;
      ghost var full := Block(kind, open');
      if |open'| >= BLOCK {
        sent := sent + [Block(kind, open')];
        open' := [];
        ringid' := ringid + 1;
        if ringid' >= RING_BLOCKS {
          assert false;
        }
      }
      maps := Erase(maps, key);
      ErasedEntry(was, key, key);
      forall k: Key, m: Mode ensures Balanced(log, maps, sent + [Block(kind, open')], wraps, k, m) {
        assert Balanced(log, was, bs + [Block(kind, open)], wraps, k, m);
        MoveBalanced(log, was, bs, wraps, kind, open, key, k, m);
        EmptyBalanced(log, maps, bs + [full], wraps, kind, k, m);
      }
    }

    /** The inner loop: one map, its records in any order. */
    method DrainMap(i: nat, now: nat, open0: seq<Rec>, emitted0: nat, ringid0: nat)
      returns (open: seq<Rec>, emitted: nat, ringid: nat, skip: bool, looped: bool)
      requires i < 16 && Filed(maps) && OpenBalanced(open0)
      requires |open0| < BLOCK && emitted0 == BLOCK * ringid0 + |open0| < CALL_LIMIT
      modifies this`maps, this`sent
      ensures Filed(maps) && OpenBalanced(open)
      ensures |open| < BLOCK && emitted == BLOCK * ringid + |open| <= CALL_LIMIT
      ensures old(sent) <= sent && FullBlocks(sent[|old(sent)|..], kind)
      ensures ringid == ringid0 + |sent| - |old(sent)|
      ensures OnlyDueLeft(old(maps), maps, now)
      ensures |DueKeys(maps, now)| + emitted == |DueKeys(old(maps), now)| + emitted0
      ensures skip <==> emitted == CALL_LIMIT
      ensures !skip ==> Drained(maps, i, now)
    {
      open, emitted, ringid, skip, looped := open0, emitted0, ringid0, false, false;
      var rest := maps[i].Keys;
      while rest != {} && !skip
        invariant Filed(maps) && OpenBalanced(open)
        invariant |open| < BLOCK && emitted == BLOCK * ringid + |open| <= CALL_LIMIT
        invariant old(sent) <= sent && FullBlocks(sent[|old(sent)|..], kind)
        invariant ringid == ringid0 + |sent| - |old(sent)|
        invariant OnlyDueLeft(old(maps), maps, now)
        invariant |DueKeys(maps, now)| + emitted == |DueKeys(old(maps), now)| + emitted0
        invariant skip <==> emitted == CALL_LIMIT
        invariant rest <= maps[i].Keys
        invariant forall k | k in maps[i] && k !in rest :: !Due(maps[i][k], now)
        decreases rest
      {
        var k: Key :| k in rest;
        rest := rest - {k};
        assert Has(maps, k) && Entry(maps, k) == maps[i][k];
        if Due(maps[i][k], now) {
          EraseDue(old(maps), maps, now, k);
          open, emitted, ringid := Take(k, open, emitted, ringid);
          if emitted >= CALL_LIMIT {
            skip := true;
            break;
          }
        }
        looped := true;
      }
    }

    /** The blocks one call hands on: full ones of the worker's kind, and at most
        one shorter, non-empty block at the end. */
    static ghost predicate CallBlocks(bs: seq<Block>, kind: nat, records: nat) {
      && (forall b | b in bs :: b.kind == kind && 1 <= |b.items| <= 64)
      && (forall i | 0 <= i < |bs| - 1 :: |bs[i].items| == 64)
      && |Records(bs)| == records
      && |bs| <= 157
    }

    lemma {:induction false} FullRecords(bs: seq<Block>)
      requires FullBlocks(bs, kind)
      ensures |Records(bs)| == BLOCK * |bs|
    {
      if bs != [] {
        assert forall b | b in bs[..|bs| - 1] :: b in bs;
        assert bs[|bs| - 1] in bs;
        FullRecords(bs[..|bs| - 1]);
      }
    }

    /** The outer loop: the maps in the order given, until the limit. */
    method DrainMaps(order: seq<nat>, now: nat, tail0: int)
      returns (open: seq<Rec>, emitted: nat, tail: int)
      requires Filed(maps) && OpenBalanced([]) && -0x8000_0000 <= tail0 < 0x8000_0000
      requires |order| == 16 && (forall i | 0 <= i < 16 :: order[i] < 16 && i in order)
      modifies this`maps, this`sent
      ensures Filed(maps) && OpenBalanced(open) && -0x8000_0000 <= tail < 0x8000_0000
      ensures old(sent) <= sent && FullBlocks(sent[|old(sent)|..], kind)
      ensures |open| < BLOCK && emitted == BLOCK * (|sent| - |old(sent)|) + |open| <= CALL_LIMIT
      ensures OnlyDueLeft(old(maps), maps, now)
      ensures |DueKeys(maps, now)| + emitted == |DueKeys(old(maps), now)|
      ensures emitted < CALL_LIMIT ==> DueKeys(maps, now) == {}
    {
      open, emitted, tail := [], 0, tail0;
      var ringid, skip, n := 0, false, 0;
      while n < 16 && !skip
        invariant 0 <= n <= 16 && -0x8000_0000 <= tail < 0x8000_0000
        invariant Filed(maps) && OpenBalanced(open)
        invariant |open| < BLOCK && emitted == BLOCK * ringid + |open| <= CALL_LIMIT
        invariant old(sent) <= sent && FullBlocks(sent[|old(sent)|..], kind)
        invariant ringid == |sent| - |old(sent)|
        invariant OnlyDueLeft(old(maps), maps, now)
        invariant |DueKeys(maps, now)| + emitted == |DueKeys(old(maps), now)|
        invariant skip <==> emitted == CALL_LIMIT
        invariant !skip ==> forall v | 0 <= v < n :: Drained(maps, order[v], now)
      {
        ghost var was := maps;
        var looped;
        open, emitted, ringid, skip, looped := DrainMap(order[n], now, open, emitted, ringid);
        OnlyDueLeftTrans(old(maps), was, maps, now);
        forall v | 0 <= v < n && !skip ensures Drained(maps, order[v], now) {
          StillDrained(was, maps, order[v], now);
        }
        if looped {
          tail := n + 1;
        }
        n := n + 1;
      }
      if !skip {
        AllDrained(maps, order, now);
      }
    }

    /** All maps, from the current one round. */
    method DrainFrom(now: nat) returns (open: seq<Rec>, emitted: nat, tail: int)
      requires Filed(maps) && cur < 16 && OpenBalanced([])
      modifies this`maps, this`sent
      ensures Filed(maps) && OpenBalanced(open) && -0x8000_0000 <= tail < 0x8000_0000
      ensures old(sent) <= sent && FullBlocks(sent[|old(sent)|..], kind)
      ensures |open| < BLOCK && emitted == BLOCK * (|sent| - |old(sent)|) + |open| <= CALL_LIMIT
      ensures OnlyDueLeft(old(maps), maps, now) && Transferred(old(maps), maps, now)
      ensures emitted == if |Ripe(old(maps), now)| < 10000 then |Ripe(old(maps), now)| else 10000
    {
      var order := BuildOrder(cur);
      tail :| -0x8000_0000 <= tail < 0x8000_0000;   // has no initial value
      open, emitted, tail := DrainMaps(order[..], now, tail);
      TransferOfCall(old(maps), maps, emitted, now);
    }

    /** Hands on the due records, at most 10000 per call: all of them if they are
        fewer, exactly 10000 otherwise. */
    method ForwardTransfer(now: nat)
      requires Valid()
      modifies this`maps, this`cur, this`sent, this`forwardCount
      ensures Valid()
      ensures Transferred(old(maps), maps, now) && OnlyDueLeft(old(maps), maps, now)
      ensures old(sent) <= sent
      ensures var ripe := |Ripe(old(maps), now)|;
              var n := if ripe < 10000 then ripe else 10000;
              && CallBlocks(sent[|old(sent)|..], kind, n)
              && forwardCount == old(forwardCount) + n
    {
      OpenCall();
      var open, emitted, tail := DrainFrom(now);
      SendRest(open, old(sent), emitted);
      forwardCount := forwardCount + emitted;
      cur := Advance(cur, tail);
    }

    /** With nothing counted in between, n calls hand on the due records 10000 at
        a time: they are gone exactly from the call that reaches their number. */
    method DrainCalls(calls: nat, now: nat)
      requires Valid()
      modifies this`maps, this`cur, this`sent, this`forwardCount
      ensures Valid() && OnlyDueLeft(old(maps), maps, now)
      ensures var ripe := |Ripe(old(maps), now)|;
              |Ripe(maps, now)| == if ripe > 10000 * calls then ripe - 10000 * calls else 0
    {
      ghost var ripe := |Ripe(maps, now)|;
      for n := 0 to calls
        invariant Valid() && OnlyDueLeft(old(maps), maps, now)
        invariant |Ripe(maps, now)| == if ripe > 10000 * n then ripe - 10000 * n else 0
      {
        ghost var was := maps;
        ForwardTransfer(now);
        OnlyDueLeftTrans(old(maps), was, maps, now);
      }
    }

    /** A call starts with an empty open block. */
    lemma OpenCall()
      requires Valid()
      ensures OpenBalanced([])
    {
      forall k: Key, m: Mode ensures Balanced(log, maps, sent + [Block(kind, [])], wraps, k, m) {
        assert Balanced(log, maps, sent, wraps, k, m);
        EmptyBalanced(log, maps, sent, wraps, kind, k, m);
      }
    }

    /** And ends with sending what the open block holds. */
    method SendRest(open: seq<Rec>, ghost was: seq<Block>, ghost emitted: nat)
      requires Filed(maps) && OpenBalanced(open)
      requires was <= sent && FullBlocks(sent[|was|..], kind) && forall b | b in was :: b.kind == kind
      requires |open| < BLOCK && emitted == BLOCK * (|sent| - |was|) + |open| <= CALL_LIMIT
      modifies this`sent
      ensures was <= sent && CallBlocks(sent[|was|..], kind, emitted)
      ensures Conserved() && forall b | b in sent :: b.kind == kind
    {
      CloseCall(was, open, emitted);
      if |open| > 0 {
        sent := sent + [Block(kind, open)];
      }
      assert sent == was + sent[|was|..];
    }

    /** Sending the open block, if it holds anything, completes the call. */
    lemma CloseCall(was: seq<Block>, open: seq<Rec>, emitted: nat)
      requires |maps| == 16 && OpenBalanced(open)
      requires was <= sent && FullBlocks(sent[|was|..], kind)
      requires |open| < BLOCK && emitted == BLOCK * (|sent| - |was|) + |open| <= CALL_LIMIT
      ensures var bs := if |open| > 0 then sent + [Block(kind, open)] else sent;
              && was <= bs && CallBlocks(bs[|was|..], kind, emitted)
              && forall k: Key, m: Mode :: Balanced(log, maps, bs, wraps, k, m)
    {
      var news := sent[|was|..];
      FullRecords(news);
      if |open| > 0 {
        assert (sent + [Block(kind, open)])[|was|..] == news + [Block(kind, open)];
        RecordsAppend(news, [Block(kind, open)]);
        assert Records([Block(kind, open)]) == open;
      } else {
        forall k: Key, m: Mode ensures Balanced(log, maps, sent, wraps, k, m) {
          assert Balanced(log, maps, sent + [Block(kind, open)], wraps, k, m);
          EmptyBalanced(log, maps, sent, wraps, kind, k, m);
        }
      }
    }
  }
}
