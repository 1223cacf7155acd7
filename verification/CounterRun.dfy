/** Runs of a counter worker's calls, for one key: what its record holds, and when it
    leaves the maps. */
module CounterRun {
  import opened Counting
  import opened CounterWorker
  import opened Wrappers

  datatype Call = Count(key: Key, used: U16, mode: nat, now: nat) | Forward(now: nat)

  /** When a key was counted first. */
  function First(calls: seq<Call>, k: Key): (r: Option<nat>) {
    if calls == [] then None
    else
      var n := |calls| - 1;
      var before := First(calls[..n], k);
      if before.None? && calls[n].Count? && calls[n].key == k then Some(calls[n].now) else before
  }

  /** The bytes counted for a key in a mode. */
  function Total(calls: seq<Call>, k: Key, m: Mode): nat {
    if calls == [] then 0
    else
      var n := |calls| - 1;
      var counts := calls[n].Count? && calls[n].key == k && InMode(calls[n].mode, m);
      Total(calls[..n], k, m) + (if counts then calls[n].used else 0)
  }

  /** Mode numbers of the policer. */
  predicate InMode(code: nat, m: Mode) {
    match m
    case Lte => code != 1 && code != 2
    case G3 => code == 1
    case Low => code == 2
  }

  /** No call gives a reason for the record to leave or wrap: every transfer comes within
      a minute of the first count, with at most a megabyte of LTE traffic. */
  predicate Calm(calls: seq<Call>, k: Key) {
    calls == [] ||
    var n := |calls| - 1;
    && Calm(calls[..n], k)
    && match calls[n]
       case Count(_, _, _, _) => Total(calls, k, Lte) < 0x1_0000_0000 && Total(calls, k, G3) < 0x1_0000_0000
                                 && Total(calls, k, Low) < 0x1_0000_0000
       case Forward(now) => First(calls[..n], k).Some? ==> Stays(calls[..n], k, now)
  }

  predicate Stays(calls: seq<Call>, k: Key, now: nat)
    requires First(calls, k).Some?
  {
    now <= First(calls, k).value % 0x1_0000_0000 + 60 && Total(calls, k, Lte) <= 1048576
  }

  /** The record of a key that was not there before the calls. */
  ghost predicate Recorded(ms: Maps, calls: seq<Call>, k: Key)
    requires |ms| == 16
  {
    match First(calls, k)
    case None => !Has(ms, k)
    case Some(t) =>
      && Has(ms, k) && Entry(ms, k).stamp == t % 0x1_0000_0000
      && forall m: Mode :: Bytes(Entry(ms, k), m) == Total(calls, k, m)
  }

  lemma CountRecorded(ms: Maps, calls: seq<Call>, c: Call, k: Key)
    requires Filed(ms) && c.Count? && Recorded(ms, calls, k) && Calm(calls + [c], k)
    ensures Recorded(CountInto(ms, c.key, c.used, ModeOf(c.mode), c.now), calls + [c], k)
  {
    assert (calls + [c])[..|calls|] == calls;
    var item := if Has(ms, c.key) then Entry(ms, c.key) else Item(c.now % 0x1_0000_0000, 0, 0, 0);
    PutEntry(ms, c.key, Charge(item, ModeOf(c.mode), c.used), k);
    if c.key == k {
      if First(calls, k).None? {
        NeverCounted(calls, k);
      }
      forall m: Mode ensures Bytes(Charge(item, ModeOf(c.mode), c.used), m) == Total(calls + [c], k, m) {
        ChargeBytes(item, ModeOf(c.mode), c.used, m);
      }
    }
  }

  lemma {:induction false} NeverCounted(calls: seq<Call>, k: Key)
    requires First(calls, k).None?
    ensures forall m: Mode :: Total(calls, k, m) == 0
  {
    if calls != [] {
      NeverCounted(calls[..|calls| - 1], k);
    }
  }

  lemma ForwardRecorded(was: Maps, ms: Maps, calls: seq<Call>, now: nat, k: Key)
    requires |was| == 16 && |ms| == 16 && Transferred(was, ms, now)
    requires Recorded(was, calls, k) && Calm(calls + [Forward(now)], k)
    ensures Recorded(ms, calls + [Forward(now)], k)
  {
    assert (calls + [Forward(now)])[..|calls|] == calls;
    if First(calls, k).Some? {
      assert Bytes(Entry(was, k), Lte) == Total(calls, k, Lte);
    }
  }

  method Serve(c: Counter, call: Call)
    requires c.Valid()
    modifies c
    ensures c.Valid()
    ensures match call
            case Count(key, used, mode, now) => c.maps == CountInto(old(c.maps), key, used, ModeOf(mode), now)
            case Forward(now) => Transferred(old(c.maps), c.maps, now)
  {
    match call
    case Count(key, used, mode, now) => c.Counting(key, used, mode, now);
    case Forward(now) => c.ForwardTransfer(now);
  }

  /** Over every run of calls, a key that was not there is in the maps from its first
      count on, with that time and the bytes counted since, as long as the run is calm. */
  method ServeAll(c: Counter, calls: seq<Call>)
    requires c.Valid()
    modifies c
    ensures c.Valid()
    ensures forall k: Key | !Has(old(c.maps), k) && Calm(calls, k) :: Recorded(c.maps, calls, k)
  {
    for n := 0 to |calls|
      invariant c.Valid()
      invariant forall k: Key | !Has(old(c.maps), k) && Calm(calls[..n], k) :: Recorded(c.maps, calls[..n], k)
    {
      ghost var was, front := c.maps, calls[..n];
      Serve(c, calls[n]);
      assert calls[..n + 1] == front + [calls[n]];
      forall k: Key | !Has(old(c.maps), k) && Calm(calls[..n + 1], k)
        ensures Recorded(c.maps, calls[..n + 1], k)
      {
        assert calls[..n + 1][..n] == front;
        if calls[n].Count? {
          CountRecorded(was, front, calls[n], k);
        } else {
          ForwardRecorded(was, c.maps, front, calls[n].now, k);
        }
      }
    }
    assert calls[..|calls|] == calls;
  }

  /** And then a transfer with at most 10000 ripe keys takes it out exactly if a minute
      has passed since the first count or there is more than a megabyte. */
  method ServeThenForward(c: Counter, calls: seq<Call>, now: nat) returns (ghost ripe: nat)
    requires c.Valid()
    modifies c
    ensures c.Valid()
    ensures forall k: Key | !Has(old(c.maps), k) && Calm(calls, k) && First(calls, k).Some? && ripe <= 10000 ::
              Has(c.maps, k) <==> Stays(calls, k, now)
  {
    ServeAll(c, calls);
    ghost var was := c.maps;
    ripe := |Ripe(was, now)|;
    c.ForwardTransfer(now);
    forall k: Key | !Has(old(c.maps), k) && Calm(calls, k) && First(calls, k).Some? && ripe <= 10000
      ensures Has(c.maps, k) <==> Stays(calls, k, now)
    {
      assert Recorded(was, calls, k);
      assert Bytes(Entry(was, k), Lte) == Total(calls, k, Lte);
    }
  }
}
