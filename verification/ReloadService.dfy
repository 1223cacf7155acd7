/** What the reload protocol leaves of the service: how many Cycle calls a worker
    makes, when it makes none, that every worker serves under a new configuration
    after its reload, and that quitting stops everybody. */
module ReloadService {
  import opened Reload
  import opened ReloadProgress

  /** How often an actor has a turn. */
  function Turns(sched: seq<Actor>, a: Actor): nat
    decreases sched
  {
    if sched == [] then 0 else (if sched[0] == a then 1 else 0) + Turns(sched[1..], a)
  }

  /** The Cycle calls core c makes: its turns inside a burst. */
  function Calls(s: State, sched: seq<Actor>, c: CoreId): nat
    decreases sched
  {
    if sched == [] then 0
    else
      (if sched[0] == Core(c) && c in s.cores && s.cores[c].Bursting? then 1 else 0)
      + Calls(Exec(s, sched[0]), sched[1..], c)
  }

  /** Those of bursts begun under configuration `config`. */
  function CallsUnder(s: State, sched: seq<Actor>, c: CoreId, config: nat): nat
    decreases sched
  {
    if sched == [] then 0
    else
      (if sched[0] == Core(c) && c in s.cores && s.cores[c].Bursting? && s.cores[c].config == config then 1 else 0)
      + CallsUnder(Exec(s, sched[0]), sched[1..], c, config)
  }

  /** The status is BUSYLOOP or CFGLOAD at every step, and nobody quits. */
  predicate StaysServing(s: State, sched: seq<Actor>)
    decreases sched
  {
    && (s.stat == BUSYLOOP || s.stat == CFGLOAD) && !s.quit
    && (sched == [] || StaysServing(Exec(s, sched[0]), sched[1..]))
  }

  /** The status is one under which no burst begins, at every step. */
  predicate StaysHeld(s: State, sched: seq<Actor>)
    decreases sched
  {
    && s.stat in {DC, INIT, PREPARE, CFGACK, CFGSWAP}
    && (sched == [] || StaysHeld(Exec(s, sched[0]), sched[1..]))
  }

  // -------------------------------------------------------------------- accounting

  /** What a core is behind, in units of which a turn costs 2^18 and a call pays
      2^18 + 2: a loop of 2^18 calls takes two more turns. */
  function Debt(pc: CorePc): int {
    match pc
    case Delaying(_) => 3 * 0x4_0000
    case Looping => 2 * 0x4_0000
    case Reading => 0x4_0000
    case Bursting(left, _) => 2 * 0x4_0000 - 2 * left
    case Preparing | Stopped => 0
  }

  lemma ServingCore(s: State, c: CoreId)
    requires LiveInv(s) && c in s.cores && !s.quit && (s.stat == BUSYLOOP || s.stat == CFGLOAD)
    ensures s.cores[c] != Preparing && s.cores[c] != Stopped
    ensures s.cores[c].Bursting? ==> 1 <= s.cores[c].left <= 0x4_0000
  {
    assert CoreLive(s, c) && CoreBarrier(s, c);
  }

  lemma DebtStep(s: State, a: Actor, c: CoreId)
    requires LiveInv(s) && c in s.cores && !s.quit && (s.stat == BUSYLOOP || s.stat == CFGLOAD)
    ensures var t, call := Exec(s, a), a == Core(c) && s.cores[c].Bursting?;
            c in t.cores && Debt(t.cores[c]) - Debt(s.cores[c]) ==
            (if call then 0x4_0000 + 2 else 0) - (if a == Core(c) then 0x4_0000 else 0)
  {
    ServingCore(s, c);
  }

  /** The exact account of every schedule under which the status stays serving. */
  lemma {:induction false} ServiceAccount(s: State, sched: seq<Actor>, c: CoreId)
    requires LiveInv(s) && c in s.cores && StaysServing(s, sched)
    ensures var t := Run(s, sched);
            && c in t.cores
            && 0x4_0000 * Turns(sched, Core(c)) + Debt(t.cores[c]) ==
               (0x4_0000 + 2) * Calls(s, sched, c) + Debt(s.cores[c])
    decreases sched
  {
    if sched != [] {
      DebtStep(s, sched[0], c);
      LiveStep(s, sched[0]);
      ServiceAccount(Exec(s, sched[0]), sched[1..], c);
    }
  }

  /** From every reachable state, while the status stays BUSYLOOP or CFGLOAD a used
      core makes 2^18 Cycle calls in every 2^18 + 2 of its turns, after at most three
      turns to get there, whatever the others do. */
  lemma ServiceBound(boot: State, before: seq<Actor>, sched: seq<Actor>, c: CoreId)
    requires Init(boot) && c in boot.used && StaysServing(Run(boot, before), sched)
    ensures 0x4_0000 * Turns(sched, Core(c)) <= (0x4_0000 + 2) * Calls(Run(boot, before), sched, c) + 3 * 0x4_0000
  {
    LiveRun(boot, before);
    UsedStays(boot, before);
    var s := Run(boot, before);
    ServiceAccount(s, sched, c);
    LiveRun(s, sched);
    var t := Run(s, sched);
    assert CoreLive(t, c) && CoreLive(s, c) && CoreBarrier(s, c);
    ServingCore(s, c);
  }

  lemma {:induction false} UsedStays(s: State, sched: seq<Actor>)
    ensures Run(s, sched).used == s.used
    decreases sched
  {
    if sched != [] {
      StepKeeps(s, sched[0]);
      UsedStays(Exec(s, sched[0]), sched[1..]);
    }
  }

  /** Under every other status a core outside a burst makes no call. */
  lemma {:induction false} HeldMakesNoCall(s: State, sched: seq<Actor>, c: CoreId)
    requires StaysHeld(s, sched) && c in s.cores && !s.cores[c].Bursting?
    ensures Calls(s, sched, c) == 0
    decreases sched
  {
    if sched != [] {
      HeldMakesNoCall(Exec(s, sched[0]), sched[1..], c);
    }
  }

  // ------------------------------------------------------- under a new configuration

  /** Turns before the first call of a burst begun under the present configuration. */
  function Lag(s: State, c: CoreId): nat
    requires c in s.cores
  {
    match s.cores[c]
    case Delaying(_) => 3
    case Looping => 2
    case Reading => 1
    case Bursting(left, config) => if config == s.config then 0 else left + 2
    case Preparing | Stopped => 0
  }

  lemma LagStep(s: State, a: Actor, c: CoreId)
    requires LiveInv(s) && c in s.cores && !s.quit && (s.stat == BUSYLOOP || s.stat == CFGLOAD)
    requires !(a == Core(c) && s.cores[c].Bursting? && s.cores[c].config == s.config)
    ensures var t := Exec(s, a);
            && c in t.cores && t.config == s.config
            && Lag(t, c) == if a == Core(c) then Lag(s, c) - 1 else Lag(s, c)
  {
    ServingCore(s, c);
  }

  lemma {:induction false} FreshCall(s: State, sched: seq<Actor>, c: CoreId)
    requires LiveInv(s) && c in s.cores && StaysServing(s, sched) && Turns(sched, Core(c)) > Lag(s, c)
    ensures CallsUnder(s, sched, c, s.config) >= 1
    decreases sched
  {
    var a := sched[0];
    if !(a == Core(c) && s.cores[c].Bursting? && s.cores[c].config == s.config) {
      LagStep(s, a, c);
      LiveStep(s, a);
      FreshCall(Exec(s, a), sched[1..], c);
    }
  }

  /** What the milestones say of the configuration, from `config` on. */
  predicate Fresher(s: State, met: nat, config: nat) {
    s.config >= config && (met == 2 && Stage(s) != 14 ==> s.config > config)
  }

  lemma TrackStep(s: State, met: nat, a: Actor, config: nat)
    requires LiveInv(s) && !s.quit && a != Interrupt && OnTrack(s, met) && met < 3 && Fresher(s, met, config)
    ensures var t := Exec(s, a); var m := Milestone(t, met);
            && !t.quit && OnTrack(t, m) && (if m < 3 then Fresher(t, m, config) else t.config > config)
  {
    if a == Changer {
      ChangerMoves(s, met);
    }
  }

  /** A schedule that meets all milestones passes a state in BUSYLOOP under a later
      configuration. */
  lemma {:induction false} Arrives(s: State, met: nat, sched: seq<Actor>, config: nat) returns (n: nat)
    requires LiveInv(s) && !s.quit && Interrupt !in sched
    requires OnTrack(s, met) && met < 3 && Fresher(s, met, config) && Track(s, met, sched) == 3
    ensures n <= |sched|
    ensures var t := Run(s, sched[..n]); t.stat == BUSYLOOP && t.config > config && !t.quit
    decreases sched
  {
    assert Milestone(s, met) == met;
    var t := Exec(s, sched[0]);
    var m := Milestone(t, met);
    LiveStep(s, sched[0]);
    TrackStep(s, met, sched[0], config);
    if m == 3 {
      n := 1;
      assert sched[..1][1..] == [];
    } else {
      TrackStart(t, met, sched[1..]);
      var k := Arrives(t, m, sched[1..], config);
      n := k + 1;
      assert sched[..n][1..] == sched[1..][..k];
    }
  }

  /** A reload serves: the rounds that complete a pending reload pass a state in
      BUSYLOOP under a later configuration, from which every used core makes a Cycle
      call under it once it has had 2^18 + 3 turns with the status serving. */
  lemma ReloadServes(boot: State, before: seq<Actor>, rounds: seq<seq<Actor>>) returns (n: nat)
    requires Init(boot)
    requires var s := Run(boot, before); s.signal && !s.quit && |rounds| >= ReloadRounds(s)
    requires forall r | r in rounds :: Complete(Run(boot, before).used, r)
    ensures n <= |Flat(rounds)|
    ensures var s := Run(boot, before); var t := Run(s, Flat(rounds)[..n]);
            && t.stat == BUSYLOOP && t.config > s.config
            && forall c, after | c in boot.used && StaysServing(t, after) && Turns(after, Core(c)) >= 0x4_0000 + 3 ::
                 CallsUnder(t, after, c, t.config) >= 1
  {
    var s := Run(boot, before);
    var sched := Flat(rounds);
    ReloadCompletes(boot, before, rounds);
    LiveRun(boot, before);
    NoInterrupt(s.used, rounds);
    var m := Milestone(s, 0);
    TrackStart(s, 0, sched);
    n := Arrives(s, m, sched, s.config);
    var t := Run(s, sched[..n]);
    LiveRun(s, sched[..n]);
    UsedStays(boot, before);
    UsedStays(s, sched[..n]);
    forall c, after | c in boot.used && StaysServing(t, after) && Turns(after, Core(c)) >= 0x4_0000 + 3
      ensures CallsUnder(t, after, c, t.config) >= 1
    {
      ServingCore(t, c);
      FreshCall(t, after, c);
    }
  }

  lemma {:induction false} NoInterrupt(used: set<CoreId>, rounds: seq<seq<Actor>>)
    requires forall r | r in rounds :: Complete(used, r)
    ensures Interrupt !in Flat(rounds)
  {
    if rounds != [] {
      assert rounds[0] in rounds && forall r | r in rounds[1..] :: r in rounds;
      NoInterrupt(used, rounds[1..]);
    }
  }

  // ------------------------------------------------------------------------ quitting

  /** Turns a core still needs to stop once the quit flag is set. */
  function ToStop(pc: CorePc): nat {
    match pc
    case Preparing => 2
    case Looping => 1
    case Reading => 0x4_0000 + 2
    case Bursting(left, _) => left + 1
    case Delaying(_) => 2
    case Stopped => 0
  }

  lemma StopStep(s: State, a: Actor, c: CoreId)
    requires LiveInv(s) && s.quit && c in s.cores
    ensures var t := Exec(s, a);
            && t.quit && c in t.cores
            && ToStop(t.cores[c]) <= ToStop(s.cores[c])
            && (a == Core(c) && s.cores[c] != Stopped ==> ToStop(t.cores[c]) < ToStop(s.cores[c]))
  {
    assert CoreLive(s, c);
  }

  /** After SIGINT every used core stops within 2^18 + 2 of its turns. */
  lemma {:induction false} QuitStops(s: State, sched: seq<Actor>, c: CoreId)
    requires LiveInv(s) && s.quit && c in s.cores && Turns(sched, Core(c)) >= ToStop(s.cores[c])
    ensures var t := Run(s, sched); c in t.cores && t.cores[c] == Stopped
    ensures ToStop(s.cores[c]) <= 0x4_0000 + 2
    decreases sched
  {
    assert CoreLive(s, c);
    if sched != [] {
      StopStep(s, sched[0], c);
      LiveStep(s, sched[0]);
      QuitStops(Exec(s, sched[0]), sched[1..], c);
    }
  }

  /** Turns the changer still needs. */
  function ToHalt(pc: ChangerPc): nat {
    match pc
    case Halted => 0
    case Sleeping => 1
    case AllPrepared | RunAckCleared | SignalSeen | AckCleared | AllAcked | Swapped => 2
    case SignalCleared | Swapping => 3
    case Loading => 4
    case Awake => 5
  }

  lemma {:induction false} QuitHalts(s: State, sched: seq<Actor>)
    requires s.quit && Turns(sched, Changer) >= ToHalt(s.changer)
    ensures Run(s, sched).changer == Halted
    decreases sched
  {
    if sched != [] {
      QuitHalts(Exec(s, sched[0]), sched[1..]);
    }
  }

  /** And from boot, whatever came before SIGINT and whatever the others do: the changer
      halts within five of its turns, and every used core stops. */
  lemma InterruptStops(boot: State, before: seq<Actor>, sched: seq<Actor>)
    requires Init(boot)
    ensures var t := Run(Exec(Run(boot, before), Interrupt), sched);
            && (Turns(sched, Changer) >= 5 ==> t.changer == Halted)
            && forall c | c in boot.used && Turns(sched, Core(c)) >= 0x4_0000 + 2 ::
                 c in t.cores && t.cores[c] == Stopped
  {
    var s := Run(boot, before);
    LiveRun(boot, before);
    UsedStays(boot, before);
    LiveStep(s, Interrupt);
    var q := Exec(s, Interrupt);
    if Turns(sched, Changer) >= 5 {
      QuitHalts(q, sched);
    }
    forall c | c in boot.used && Turns(sched, Core(c)) >= 0x4_0000 + 2
      ensures c in Run(q, sched).cores && Run(q, sched).cores[c] == Stopped
    {
      assert CoreLive(s, c);
      QuitStops(q, sched, c);
    }
  }
}
