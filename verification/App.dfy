/** The data plane application at the level of its shared 64-bit words. Every
    turn of a thread is a sequence of the word operations and is proved to be
    the corresponding step of the protocol in module Reload. */
module App {
  import opened Reload
  import opened Bits
  import W = StatusWord

  function Code(st: Status): bv64 {
    match st
    case DC => W.DC
    case INIT => W.INIT
    case PREPARE => W.PREPARE
    case BUSYLOOP => W.BUSYLOOP
    case CFGLOAD => W.CFGLOAD
    case CFGACK => W.CFGACK
    case CFGSWAP => W.CFGSWAP
  }

  function Decode(w: bv64): Status {
    var code := W.Stat(w);
    if code == W.DC then DC
    else if code == W.INIT then INIT
    else if code == W.PREPARE then PREPARE
    else if code == W.BUSYLOOP then BUSYLOOP
    else if code == W.CFGLOAD then CFGLOAD
    else if code == W.CFGACK then CFGACK
    else CFGSWAP
  }

  /** The low byte holds one of the seven status codes. */
  predicate Coded(w: bv64) {
    W.Stat(w) == Code(Decode(w))
  }

  predicate Pending(w: bv64) {
    W.Signals(w) != 0
  }

  /** A status store keeps the pending signals. */
  method StoreStatus(w: bv64, st: Status) returns (r: bv64)
    ensures Coded(r) && Decode(r) == st && Pending(r) == Pending(w)
  {
    r := W.WithStat(w, Code(st));
    W.StatStore(w, Code(st));
    assert W.Stat(Code(st)) == Code(st);
  }

  /** Signal stores keep the status. */
  method StoreSignal(w: bv64, sig: bv64) returns (r: bv64)
    requires Coded(w) && (sig == W.SIGUSR1 || sig == W.SIGUSR2)
    ensures Coded(r) && Decode(r) == Decode(w) && Pending(r)
  {
    r := W.WithSignal(w, sig);
    W.SignalStore(w, sig);
  }

  method ClearSignal(w: bv64) returns (r: bv64)
    requires Coded(w)
    ensures Coded(r) && Decode(r) == Decode(w) && !Pending(r)
  {
    r := W.WithoutSignals(w);
    W.SignalReset(w);
  }

  function Bit(c: CoreId): bv6 { c as bv6 }

  lemma BitOnto(b: bv6)
    ensures Bit(b as nat) == b
  {
  }

  lemma BitValue(c: CoreId)
    ensures Bit(c) as nat == c
  {
  }

  lemma BitInjective(c: CoreId, d: CoreId)
    requires Bit(c) == Bit(d)
    ensures c == d
  {
    BitValue(c);
    BitValue(d);
  }

  predicate In(m: bv64, c: CoreId) { HasBit(m, Bit(c)) }

  /** The members of a core mask. */
  function Members(m: bv64): set<CoreId> {
    set c: CoreId | 0 <= c < 64 && In(m, c)
  }

  lemma InSet(m: bv64, c: CoreId, d: CoreId)
    ensures In(SetBit(m, Bit(c)), d) <==> d == c || In(m, d)
  {
    SetBitMember(m, Bit(c), Bit(d));
    if Bit(c) == Bit(d) {
      BitInjective(c, d);
    }
  }

  lemma MembersSet(m: bv64, c: CoreId)
    ensures Members(SetBit(m, Bit(c))) == Members(m) + {c}
  {
    forall d: CoreId ensures In(SetBit(m, Bit(c)), d) <==> d == c || In(m, d) {
      InSet(m, c, d);
    }
  }

  lemma MembersEmpty()
    ensures Members(0) == {}
  {
    forall c: CoreId ensures !In(0, c) {
      EmptyMask(Bit(c));
    }
  }

  /** The equality test of two masks is equality of the core sets. */
  lemma MembersExact(a: bv64, b: bv64)
    ensures a == b <==> Members(a) == Members(b)
  {
    if Members(a) == Members(b) {
      forall c: bv6 ensures HasBit(a, c) <==> HasBit(b, c) {
        BitOnto(c);
        assert (c as nat) in Members(a) <==> (c as nat) in Members(b);
      }
      SameBits(a, b);
    }
  }

  datatype Sig = SigUsr1 | SigUsr2 | SigInt

  class DataPlane {
    // the shared words
    var status: bv64
    var used: bv64
    var prepared: bv64
    var ack: bv64
    var quit: bool
    // where each thread stands, and what SwapConfig has installed
    var cores: map<CoreId, CorePc>
    var changer: ChangerPc
    var config: nat

    ghost predicate Valid()
      reads this
    {
      Coded(status)
    }

    ghost function View(): State
      requires Valid()
      reads this
    {
      State(Decode(status), Pending(status), Members(used), Members(prepared), Members(ack),
            cores, changer, config, quit)
    }

    // ------------------------------------------------------ the word operations

    method ReadStatus() returns (st: Status)
      requires Valid()
      ensures st == View().stat
    {
      st := Decode(status);
    }

    method SetStatus(st: Status)
      requires Valid()
      modifies this`status
      ensures Valid() && View() == old(View()).(stat := st)
    {
      status := StoreStatus(status, st);
    }

    method SetSignal(sig: bv64)
      requires Valid() && (sig == W.SIGUSR1 || sig == W.SIGUSR2)
      modifies this`status
      ensures Valid() && View() == old(View()).(signal := true)
    {
      status := StoreSignal(status, sig);
    }

    method ResetSignal()
      requires Valid()
      modifies this`status
      ensures Valid() && View() == old(View()).(signal := false)
    {
      status := ClearSignal(status);
    }

    method SetPrepare(c: CoreId)
      requires Valid()
      modifies this`prepared
      ensures Valid() && View() == old(View()).(prepared := old(View()).prepared + {c})
    {
      MembersSet(prepared, c);
      prepared := SetBit(prepared, Bit(c));
    }

    method SetAck(c: CoreId)
      requires Valid()
      modifies this`ack
      ensures Valid() && View() == old(View()).(ack := old(View()).ack + {c})
    {
      MembersSet(ack, c);
      ack := SetBit(ack, Bit(c));
    }

    method ResetAck()
      requires Valid()
      modifies this`ack
      ensures Valid() && View() == old(View()).(ack := {})
    {
      MembersEmpty();
      ack := 0;
    }

    // ------------------------------------------------------------- thread turns

    /** Commit: the used mask collects the registered core ids. */
    constructor Commit(ids: seq<CoreId>)
      ensures Valid() && Init(View())
      ensures View().used == (set c | c in ids) && !View().signal
    {
      status := Code(DC);
      quit := false;
      cores := map c | c in ids :: Preparing;
      changer := Sleeping;
      config := 0;
      used, prepared, ack := 0, 0, 0;
      new;
      MembersEmpty();
      var n := 0;
      while n < |ids|
        invariant 0 <= n <= |ids|
        invariant Members(used) == set c | c in ids[..n]
        invariant prepared == ack == 0 && status == Code(DC) && !quit && config == 0
        invariant changer == Sleeping && cores == map c | c in ids :: Preparing
      {
        MembersSet(used, ids[n]);
        used := SetBit(used, Bit(ids[n]));
        assert ids[..n + 1] == ids[..n] + [ids[n]];
        n := n + 1;
      }
      assert ids[..n] == ids;
      assert Coded(Code(DC)) && Decode(Code(DC)) == DC && !Pending(Code(DC));
    }

    /** One turn of a worker core's Dispatch loop. */
    method CoreTurn(c: CoreId)
      requires Valid()
      modifies this
      ensures Valid() && View() == Exec(old(View()), Core(c))
    {
      if c !in cores {
        return;
      }
      match cores[c]
      case Preparing =>
        SetPrepare(c);
        cores := cores[c := Looping];
      case Looping =>
        cores := cores[c := if quit then Stopped else Reading];
      case Reading =>
        var stat := ReadStatus();
        if stat == BUSYLOOP || stat == CFGLOAD {
          cores := cores[c := Bursting(BURST, config)];
        } else {
          cores := cores[c := Delaying(stat)];
        }
      case Bursting(left, began) =>
        cores := cores[c := if left > 1 then Bursting(left - 1, began) else Looping];
      case Delaying(stat) =>
        if stat == CFGACK {
          SetAck(c);
        }
        cores := cores[c := Looping];
      case Stopped =>
    }

    /** The arm the state changer takes once awake. */
    method ArmTurn()
      requires Valid() && changer == Awake
      modifies this
      ensures Valid() && View() == ArmStep(old(View()))
    {
      var stat := ReadStatus();
      match stat
      case DC =>
        SetStatus(INIT);
        changer := Sleeping;
      case INIT =>
        MembersExact(used, prepared);
        changer := if used == prepared then AllPrepared else Sleeping;
      case PREPARE =>
        ResetAck();
        changer := RunAckCleared;
      case BUSYLOOP =>
        changer := if Pending(status) then SignalSeen else Sleeping;
      case CFGLOAD =>
        changer := Loading;
      case CFGACK =>
        MembersExact(used, ack);
        changer := if used == ack then AllAcked else Sleeping;
      case CFGSWAP =>
        changer := Swapping;
    }

    /** One turn of the state changer. */
    method ChangerTurn()
      requires Valid()
      modifies this
      ensures Valid() && View() == Exec(old(View()), Changer)
    {
      match changer
      case Sleeping =>
        changer := if quit then Halted else Awake;
      case Awake =>
        ArmTurn();
      case AllPrepared =>
        SetStatus(PREPARE);
        changer := Sleeping;
      case RunAckCleared =>
        SetStatus(BUSYLOOP);
        changer := Sleeping;
      case SignalSeen =>
        SetStatus(CFGLOAD);
        changer := Sleeping;
      case Loading =>
        ResetSignal();
        changer := SignalCleared;
      case SignalCleared =>
        ResetAck();
        changer := AckCleared;
      case AckCleared =>
        SetStatus(CFGACK);
        changer := Sleeping;
      case AllAcked =>
        SetStatus(CFGSWAP);
        changer := Sleeping;
      case Swapping =>
        config := config + 1;
        changer := Swapped;
      case Swapped =>
        SetStatus(PREPARE);
        changer := Sleeping;
      case Halted =>
    }

    /** The signal handler. */
    method Signal(sig: Sig)
      requires Valid()
      modifies this
      ensures Valid() && View() == Exec(old(View()), if sig == SigInt then Interrupt else Raise)
    {
      match sig
      case SigUsr1 => SetSignal(W.SIGUSR1);
      case SigUsr2 => SetSignal(W.SIGUSR2);
      case SigInt => quit := true;
    }

    /** Any schedule of turns on the words is the protocol run of that schedule. */
    method RunSchedule(sched: seq<Actor>)
      requires Valid()
      modifies this
      ensures Valid() && View() == Run(old(View()), sched)
    {
      ghost var start := View();
      var n := 0;
      while n < |sched|
        invariant 0 <= n <= |sched|
        invariant Valid() && View() == Run(start, sched[..n])
      {
        ghost var before := View();
        match sched[n] {
          case Changer => ChangerTurn();
          case Core(c) => CoreTurn(c);
          case Raise => Signal(SigUsr1);
          case Interrupt => Signal(SigInt);
        }
        assert sched[..n + 1] == sched[..n] + [sched[n]];
        RunAppend(start, sched[..n], [sched[n]]);
        assert Run(before, [sched[n]]) == Exec(before, sched[n]);
        n := n + 1;
      }
      assert sched[..n] == sched;
    }
  }
}
