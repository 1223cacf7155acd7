/** The reload protocol of the data plane: one state changer and the worker
    cores in `used` share a status, a pending signal and three core masks.

    Every test and every store of a shared word is a step of its own, so a
    schedule (a sequence of actors) ranges over all interleavings. The status is
    stored by the changer only, and the used mask by nobody, so the changer's
    reads of these are part of the step they lead to. A step of an actor is a
    function of the state; what a run does depends on the schedule only. */
module Reload {

  /** Core ids index a 64-bit mask. */
  type CoreId = c: nat | c < 64

  datatype Status = DC | INIT | PREPARE | BUSYLOOP | CFGLOAD | CFGACK | CFGSWAP

  /** Cycle calls per burst (APP_STAT_BURST). */
  const BURST: nat := 0x4_0000

  datatype CorePc =
    | Preparing                          // in BeforeCycle
    | Looping                            // about to test the quit flag
    | Reading                            // about to read the status
    | Bursting(left: nat, config: nat)   // `left` Cycle calls to go, burst begun under `config`
    | Delaying(seen: Status)             // sleeping on a status read earlier, ack not yet posted
    | Stopped

  datatype ChangerPc =
    | Sleeping          // about to test the quit flag
    | Awake             // about to act on the status
    | AllPrepared       // INIT arm, after the masks compared equal
    | RunAckCleared     // PREPARE arm, after RESET_ACK
    | SignalSeen        // BUSYLOOP arm, after a signal was found
    | Loading           // CFGLOAD arm, inside LoadConfig
    | SignalCleared     // CFGLOAD arm, after RESET_SIGNAL
    | AckCleared        // CFGLOAD arm, after RESET_ACK and before the store of CFGACK
    | AllAcked          // CFGACK arm, after the masks compared equal
    | Swapping          // CFGSWAP arm, inside SwapConfig
    | Swapped           // CFGSWAP arm, after SwapConfig
    | Halted

  datatype State = State(
    stat: Status,
    signal: bool,
    used: set<CoreId>,
    prepared: set<CoreId>,
    ack: set<CoreId>,
    cores: map<CoreId, CorePc>,
    changer: ChangerPc,
    config: nat,        // how often SwapConfig has completed
    quit: bool)

  datatype Actor = Changer | Core(id: CoreId) | Raise | Interrupt

  predicate Init(s: State) {
    && s.stat == DC
    && s.prepared == {} && s.ack == {}
    && s.cores.Keys == s.used
    && (forall c | c in s.used :: s.cores[c] == Preparing)
    && s.changer == Sleeping
    && !s.quit
  }

  function CoreStep(s: State, c: CoreId): State
    requires c in s.cores
  {
    match s.cores[c]
    case Preparing =>
      s.(prepared := s.prepared + {c}, cores := s.cores[c := Looping])
    case Looping =>
      s.(cores := s.cores[c := if s.quit then Stopped else Reading])
    case Reading =>
      if s.stat == BUSYLOOP || s.stat == CFGLOAD then
        s.(cores := s.cores[c := Bursting(BURST, s.config)])
      else
        s.(cores := s.cores[c := Delaying(s.stat)])
    case Bursting(left, config) =>
      s.(cores := s.cores[c := if left > 1 then Bursting(left - 1, config) else Looping])
    case Delaying(seen) =>
      s.(ack := if seen == CFGACK then s.ack + {c} else s.ack, cores := s.cores[c := Looping])
    case Stopped => s
  }

  function ArmStep(s: State): State {
    match s.stat
    case DC       => s.(stat := INIT, changer := Sleeping)
    case INIT     => s.(changer := if s.used == s.prepared then AllPrepared else Sleeping)
    case PREPARE  => s.(ack := {}, changer := RunAckCleared)
    case BUSYLOOP => s.(changer := if s.signal then SignalSeen else Sleeping)
    case CFGLOAD  => s.(changer := Loading)
    case CFGACK   => s.(changer := if s.used == s.ack then AllAcked else Sleeping)
    case CFGSWAP  => s.(changer := Swapping)
  }

  function ChangerStep(s: State): State {
    match s.changer
    case Sleeping      => s.(changer := if s.quit then Halted else Awake)
    case Awake         => ArmStep(s)
    case AllPrepared   => s.(stat := PREPARE, changer := Sleeping)
    case RunAckCleared => s.(stat := BUSYLOOP, changer := Sleeping)
    case SignalSeen    => s.(stat := CFGLOAD, changer := Sleeping)
    case Loading       => s.(signal := false, changer := SignalCleared)
    case SignalCleared => s.(ack := {}, changer := AckCleared)
    case AckCleared    => s.(stat := CFGACK, changer := Sleeping)
    case AllAcked      => s.(stat := CFGSWAP, changer := Sleeping)
    case Swapping      => s.(config := s.config + 1, changer := Swapped)
    case Swapped       => s.(stat := PREPARE, changer := Sleeping)
    case Halted        => s
  }

  function Exec(s: State, a: Actor): State {
    match a
    case Changer   => ChangerStep(s)
    case Core(c)   => if c in s.cores then CoreStep(s, c) else s
    case Raise     => s.(signal := true)
    case Interrupt => s.(quit := true)
  }

  function Run(s: State, sched: seq<Actor>): State
    decreases sched
  {
    if sched == [] then s else Run(Exec(s, sched[0]), sched[1..])
  }

  lemma {:induction false} RunAppend(s: State, a: seq<Actor>, b: seq<Actor>)
    ensures Run(s, a + b) == Run(Run(s, a), b)
    decreases a
  {
    if a == [] {
      assert a + b == b;
    } else {
      assert (a + b)[1..] == a[1..] + b;
      RunAppend(Exec(s, a[0]), a[1..], b);
    }
  }

  // ---------------------------------------------------------------- safety

  /** The statuses in which no worker may be inside a burst. */
  predicate Quiet(st: Status) {
    st in {DC, INIT, PREPARE, CFGSWAP}
  }

  /** What the protocol is for: SwapConfig never overlaps a burst, and after it
      no burst begins before the status is BUSYLOOP again. Every Cycle call of
      a burst then runs under the configuration the burst began with. */
  predicate Safe(s: State) {
    && (s.changer == Swapping ==> s.stat == CFGSWAP)
    && (Quiet(s.stat) ==> forall c | c in s.cores :: !s.cores[c].Bursting?)
    && (forall c | c in s.cores && s.cores[c].Bursting? :: s.cores[c].config == s.config)
  }

  predicate ArmMatches(s: State) {
    match s.changer
    case AllPrepared => s.stat == INIT && s.used <= s.prepared
    case RunAckCleared => s.stat == PREPARE
    case SignalSeen => s.stat == BUSYLOOP
    case Loading | SignalCleared | AckCleared => s.stat == CFGLOAD
    case AllAcked => s.stat == CFGACK && s.used <= s.ack
    case Swapping | Swapped => s.stat == CFGSWAP
    case _ => true
  }

  predicate CoreInv(s: State, c: CoreId)
    requires c in s.cores
  {
    && (c in s.prepared <==> s.cores[c] != Preparing)
    && (s.cores[c] == Preparing ==> s.stat == DC || s.stat == INIT)
    && (s.cores[c] == Stopped ==> s.quit)
    && (s.changer == AckCleared && c in s.ack ==>
          s.quit && (s.cores[c] == Looping || s.cores[c] == Stopped))
    && (s.cores[c].Bursting? ==>
          && !Quiet(s.stat)
          && (s.stat == CFGACK ==> c !in s.ack)
          && 1 <= s.cores[c].left <= BURST
          && s.cores[c].config == s.config)
  }

  predicate Inv(s: State) {
    && s.cores.Keys == s.used
    && s.prepared <= s.used && s.ack <= s.used
    && ArmMatches(s)
    && (s.changer == Halted ==> s.quit)
    && (forall c | c in s.cores :: CoreInv(s, c))
  }

  /** A core posting, while the changer is between RESET_ACK and the store of
      CFGACK, an ack for a status it read in an earlier round. */
  predicate WindowAck(s: State, a: Actor) {
    !s.quit && s.changer == AckCleared && a.Core? && a.id in s.cores && s.cores[a.id] == Delaying(CFGACK)
  }

  predicate NoWindowAck(s: State, sched: seq<Actor>)
    decreases sched
  {
    sched == [] || (!WindowAck(s, sched[0]) && NoWindowAck(Exec(s, sched[0]), sched[1..]))
  }

  lemma InitInv(s: State)
    requires Init(s)
    ensures Inv(s) && Safe(s)
  {
  }

  lemma CoreStepKeeps(s: State, c: CoreId, d: CoreId)
    requires Inv(s) && c in s.cores && d in s.cores && !WindowAck(s, Core(c))
    ensures CoreInv(CoreStep(s, c), d)
  {
    assert CoreInv(s, c) && CoreInv(s, d);
  }

  lemma CoreStepInv(s: State, c: CoreId)
    requires Inv(s) && c in s.cores && !WindowAck(s, Core(c))
    ensures Inv(CoreStep(s, c))
  {
    forall d | d in s.cores ensures CoreInv(CoreStep(s, c), d) {
      CoreStepKeeps(s, c, d);
    }
    assert CoreInv(s, c);
  }

  lemma ArmStepInv(s: State)
    requires Inv(s) && s.changer == Awake
    ensures Inv(ArmStep(s))
  {
    var t := ArmStep(s);
    forall c | c in t.cores ensures CoreInv(t, c) {
      assert CoreInv(s, c);
    }
  }

  lemma ChangerStepInv(s: State)
    requires Inv(s)
    ensures Inv(ChangerStep(s))
  {
    if s.changer == Awake {
      ArmStepInv(s);
    } else {
      var t := ChangerStep(s);
      forall c | c in t.cores ensures CoreInv(t, c) {
        assert CoreInv(s, c);
      }
    }
  }

  lemma StepInv(s: State, a: Actor)
    requires Inv(s) && !WindowAck(s, a)
    ensures Inv(Exec(s, a))
  {
    match a
    case Changer => ChangerStepInv(s);
    case Core(c) => if c in s.cores { CoreStepInv(s, c); }
    case Raise | Interrupt =>
      var t := Exec(s, a);
      forall c | c in t.cores ensures CoreInv(t, c) {
        assert CoreInv(s, c);
      }
  }

  lemma {:induction false} RunInv(s: State, sched: seq<Actor>)
    requires Inv(s) && NoWindowAck(s, sched)
    ensures Inv(Run(s, sched)) && Safe(Run(s, sched))
    decreases sched
  {
    if sched == [] {
      InvSafe(s);
    } else {
      StepInv(s, sched[0]);
      RunInv(Exec(s, sched[0]), sched[1..]);
    }
  }

  lemma InvSafe(s: State)
    requires Inv(s)
    ensures Safe(s)
  {
    forall c | c in s.cores
      ensures Quiet(s.stat) ==> !s.cores[c].Bursting?
      ensures s.cores[c].Bursting? ==> s.cores[c].config == s.config
    {
      assert CoreInv(s, c);
    }
  }

  /** Safety of every run, over any number of reload rounds. */
  lemma ReloadSafety(s: State, sched: seq<Actor>)
    requires Init(s) && NoWindowAck(s, sched)
    ensures Safe(Run(s, sched))
  {
    InitInv(s);
    RunInv(s, sched);
  }

  // ------------------------------------------- sufficient conditions on runs

  /** The CFGLOAD arm taken as one step: no core moves between RESET_ACK and
      the store of CFGACK. */
  predicate ArmAtomic(s: State, sched: seq<Actor>)
    decreases sched
  {
    sched == [] ||
    ((s.changer == AckCleared ==> !sched[0].Core?) && ArmAtomic(Exec(s, sched[0]), sched[1..]))
  }

  lemma {:induction false} AtomicArmSafety(s: State, sched: seq<Actor>)
    requires Inv(s) && ArmAtomic(s, sched)
    ensures NoWindowAck(s, sched) && Safe(Run(s, sched))
    decreases sched
  {
    if sched == [] {
      InvSafe(s);
    } else {
      StepInv(s, sched[0]);
      AtomicArmSafety(Exec(s, sched[0]), sched[1..]);
    }
  }

  /** Some core has read CFGACK and not yet posted its ack. */
  predicate Outstanding(s: State) {
    exists c | c in s.cores :: s.cores[c] == Delaying(CFGACK)
  }

  /** Every RESET_ACK of the CFGLOAD arm finds no ack outstanding: what the
      short core delay against the long changer delay is meant to give. */
  predicate ResetsClean(s: State, sched: seq<Actor>)
    decreases sched
  {
    sched == [] ||
    ((s.changer == SignalCleared && sched[0] == Changer ==> !Outstanding(s)) &&
     ResetsClean(Exec(s, sched[0]), sched[1..]))
  }

  lemma StaysClean(s: State, a: Actor)
    requires Inv(s)
    requires s.changer == AckCleared ==> !Outstanding(s)
    requires s.changer == SignalCleared && a == Changer ==> !Outstanding(s)
    ensures Exec(s, a).changer == AckCleared ==> !Outstanding(Exec(s, a))
  {
    var t := Exec(s, a);
    if t.changer == AckCleared {
      forall c | c in t.cores ensures t.cores[c] != Delaying(CFGACK) {
        assert s.stat == CFGLOAD && s.cores[c] != Delaying(CFGACK);
      }
    }
  }

  lemma {:induction false} CleanResetSafety(s: State, sched: seq<Actor>)
    requires Inv(s) && ResetsClean(s, sched)
    requires s.changer == AckCleared ==> !Outstanding(s)
    ensures NoWindowAck(s, sched) && Safe(Run(s, sched))
    decreases sched
  {
    if sched == [] {
      InvSafe(s);
    } else {
      StepInv(s, sched[0]);
      StaysClean(s, sched[0]);
      CleanResetSafety(Exec(s, sched[0]), sched[1..]);
    }
  }

  // ------------------------------------------- the start-up barrier, all runs

  predicate CoreBarrier(s: State, c: CoreId)
    requires c in s.cores
  {
    && (c in s.prepared <==> s.cores[c] != Preparing)
    && (s.stat == DC || s.stat == INIT ==> !s.cores[c].Bursting?)
    && (s.stat != DC && s.stat != INIT ==> s.cores[c] != Preparing)
  }

  predicate BarrierInv(s: State) {
    && s.cores.Keys == s.used && s.prepared <= s.used
    && ArmMatches(s)
    && (forall c | c in s.cores :: CoreBarrier(s, c))
  }

  lemma CoreStepBarrier(s: State, c: CoreId, d: CoreId)
    requires BarrierInv(s) && c in s.cores && d in s.cores
    ensures CoreBarrier(CoreStep(s, c), d)
  {
    assert CoreBarrier(s, c) && CoreBarrier(s, d);
  }

  lemma CoreBarrierStep(s: State, c: CoreId)
    requires BarrierInv(s) && c in s.cores
    ensures BarrierInv(CoreStep(s, c))
  {
    forall d | d in s.cores ensures CoreBarrier(CoreStep(s, c), d) {
      CoreStepBarrier(s, c, d);
    }
  }

  lemma ChangerStepBarrier(s: State, c: CoreId)
    requires BarrierInv(s) && c in s.cores
    ensures CoreBarrier(ChangerStep(s), c)
  {
    assert CoreBarrier(s, c);
  }

  lemma ChangerBarrierStep(s: State)
    requires BarrierInv(s)
    ensures BarrierInv(ChangerStep(s))
  {
    forall c | c in s.cores ensures CoreBarrier(ChangerStep(s), c) {
      ChangerStepBarrier(s, c);
    }
  }

  lemma BarrierStep(s: State, a: Actor)
    requires BarrierInv(s)
    ensures BarrierInv(Exec(s, a))
  {
    match a
    case Changer => ChangerBarrierStep(s);
    case Core(c) => if c in s.cores { CoreBarrierStep(s, c); }
    case Raise | Interrupt =>
      forall c | c in s.cores ensures CoreBarrier(Exec(s, a), c) {
        assert CoreBarrier(s, c);
      }
  }

  lemma {:induction false} BarrierRun(s: State, sched: seq<Actor>)
    requires BarrierInv(s)
    ensures BarrierInv(Run(s, sched))
    decreases sched
  {
    if sched != [] {
      BarrierStep(s, sched[0]);
      BarrierRun(Exec(s, sched[0]), sched[1..]);
    }
  }

  /** No core calls Cycle until every used core has finished BeforeCycle. */
  lemma StartBarrier(s: State, sched: seq<Actor>, c: CoreId, d: CoreId)
    requires Init(s)
    requires var t := Run(s, sched); c in t.cores && t.cores[c].Bursting? && d in t.cores
    ensures Run(s, sched).cores[d] != Preparing
  {
    BarrierRun(s, sched);
  }

  // ------------------------------------------------ pending signals, all runs

  /** The changer starts LoadConfig at step k of the schedule. */
  predicate LoadStarts(s: State, sched: seq<Actor>, k: nat)
    requires k < |sched|
  {
    var t := Run(s, sched[..k]);
    sched[k] == Changer && t.changer == Awake && t.stat == CFGLOAD
  }

  /** A pending signal is consumed only by a LoadConfig that starts after it. */
  lemma {:induction false} SignalKept(s: State, sched: seq<Actor>)
    requires s.signal && s.changer != Loading
    ensures Run(s, sched).signal || exists k | 0 <= k < |sched| :: LoadStarts(s, sched, k)
    decreases sched
  {
    if sched != [] {
      var t := Exec(s, sched[0]);
      if t.changer == Loading {
        assert sched[..0] == [];
        assert LoadStarts(s, sched, 0);
      } else {
        SignalKept(t, sched[1..]);
        if !Run(s, sched).signal {
          var k :| 0 <= k < |sched| - 1 && LoadStarts(t, sched[1..], k);
          assert sched[..k + 1][1..] == sched[1..][..k];
          assert LoadStarts(s, sched, k + 1);
        }
      }
    }
  }

  /** Whatever the schedule, a signal pending in s is there until LoadConfig starts. */
  ghost predicate Kept(s: State) {
    forall sched :: Run(s, sched).signal || exists k | 0 <= k < |sched| :: LoadStarts(s, sched, k)
  }

  /** A signal raised while LoadConfig runs is lost at the changer's next step,
      whatever the others do before it, and no LoadConfig starts for it. */
  lemma {:induction false} RaisedInLoadingIsLost(s: State, sched: seq<Actor>)
    requires s.changer == Loading && Changer in sched
    ensures exists n | 0 < n <= |sched| ::
              !Run(s, sched[..n]).signal && forall k | 0 <= k < n :: !LoadStarts(s, sched, k)
    decreases sched
  {
    assert sched[..0] == [];
    if sched[0] == Changer {
      assert sched[..1] == [Changer] && [Changer][1..] == [];
      assert !Run(s, sched[..1]).signal && !LoadStarts(s, sched, 0);
    } else {
      var t := Exec(s, sched[0]);
      RaisedInLoadingIsLost(t, sched[1..]);
      var n :| 0 < n <= |sched| - 1 &&
               !Run(t, sched[1..][..n]).signal && forall k | 0 <= k < n :: !LoadStarts(t, sched[1..], k);
      assert sched[..n + 1][1..] == sched[1..][..n];
      forall k | 0 <= k < n + 1 ensures !LoadStarts(s, sched, k) {
        if k > 0 {
          assert sched[..k][1..] == sched[1..][..k - 1];
          assert !LoadStarts(t, sched[1..], k - 1);
        }
      }
    }
  }

  /** A signal raised now is kept in every run exactly when the changer is not
      between the start of LoadConfig and RESET_SIGNAL. */
  lemma RaiseSurvivesExactly(s: State)
    ensures Kept(Exec(s, Raise)) <==> s.changer != Loading
  {
    var t := Exec(s, Raise);
    if s.changer != Loading {
      forall sched ensures Run(t, sched).signal || exists k | 0 <= k < |sched| :: LoadStarts(t, sched, k) {
        SignalKept(t, sched);
      }
    } else {
      RaisedInLoadingIsLost(t, [Changer]);
      var n :| 0 < n <= 1 && !Run(t, [Changer][..n]).signal && forall k | 0 <= k < n :: !LoadStarts(t, [Changer], k);
      assert [Changer][..n] == [Changer];
    }
  }
}
