/** Progress of the reload protocol: a pending reload is loaded, swapped in and
    followed by BUSYLOOP within a bounded number of rounds, a round being any
    stretch of the schedule in which the changer and every used core move. */
module ReloadProgress {
  import opened Reload

  // ---------------------------------------------------- an invariant of all runs

  predicate CoreLive(s: State, c: CoreId)
    requires c in s.cores
  {
    && (s.cores[c] == Stopped ==> s.quit)
    && (s.cores[c].Bursting? ==> 1 <= s.cores[c].left <= BURST)
  }

  predicate LiveInv(s: State) {
    && BarrierInv(s) && s.ack <= s.used
    && (s.changer == Halted ==> s.quit)
    && (forall c | c in s.cores :: CoreLive(s, c))
  }

  lemma CoreLiveStep(s: State, c: CoreId)
    requires LiveInv(s) && c in s.cores
    ensures LiveInv(CoreStep(s, c))
  {
    CoreBarrierStep(s, c);
    var t := CoreStep(s, c);
    assert CoreLive(s, c);
    forall d | d in t.cores ensures CoreLive(t, d) {
      assert CoreLive(s, d);
    }
  }

  lemma LiveStep(s: State, a: Actor)
    requires LiveInv(s)
    ensures LiveInv(Exec(s, a))
  {
    BarrierStep(s, a);
    match a
    case Core(c) => if c in s.cores { CoreLiveStep(s, c); }
    case _ =>
      forall c | c in s.cores ensures CoreLive(Exec(s, a), c) {
        assert CoreLive(s, c);
      }
  }

  lemma {:induction false} LiveRun(s: State, sched: seq<Actor>)
    requires LiveInv(s)
    ensures LiveInv(Run(s, sched))
    decreases sched
  {
    if sched != [] {
      LiveStep(s, sched[0]);
      LiveRun(Exec(s, sched[0]), sched[1..]);
    }
  }

  // ------------------------------------------------------------ the stage reached

  /** The changer's place in the cycle; Sleeping and Awake share one. */
  function Stage(s: State): nat {
    match s.changer
    case AllPrepared => 2
    case RunAckCleared => 4
    case SignalSeen => 6
    case Loading => 8
    case SignalCleared => 9
    case AckCleared => 10
    case AllAcked => 12
    case Swapping => 14
    case Swapped => 15
    case Sleeping | Awake | Halted =>
      match s.stat
      case DC => 0
      case INIT => 1
      case PREPARE => 3
      case BUSYLOOP => 5
      case CFGLOAD => 7
      case CFGACK => 11
      case CFGSWAP => 13
  }

  /** How many of the three milestones have been met: LoadConfig started, then
      SwapConfig started, then BUSYLOOP. */
  function Milestone(s: State, met: nat): nat {
    if (met == 0 && Stage(s) == 8) || (met == 1 && Stage(s) == 14) || (met == 2 && Stage(s) == 5)
    then met + 1 else met
  }

  function Track(s: State, met: nat, sched: seq<Actor>): nat
    decreases sched
  {
    if sched == [] then Milestone(s, met)
    else Track(Exec(s, sched[0]), Milestone(s, met), sched[1..])
  }

  lemma {:induction false} TrackAppend(s: State, met: nat, a: seq<Actor>, b: seq<Actor>)
    ensures Track(s, met, a + b) == Track(Run(s, a), Track(s, met, a), b)
    decreases a
  {
    if a == [] {
      assert a + b == b;
      assert Milestone(s, Milestone(s, met)) == Milestone(s, met);
    } else {
      assert (a + b)[1..] == a[1..] + b;
      TrackAppend(Exec(s, a[0]), Milestone(s, met), a[1..], b);
    }
  }

  /** Where the changer can be, given the milestones met so far. */
  predicate OnTrack(s: State, met: nat) {
    match met
    case 0 => s.signal && Stage(s) != 8
    case 1 => 8 <= Stage(s) <= 13
    case 2 => Stage(s) == 14 || Stage(s) == 15 || Stage(s) == 3 || Stage(s) == 4
    case 3 => true
    case _ => false
  }

  /** Stages to go until the third milestone; PREPARE follows the last stage. */
  function Togo(s: State, met: nat): nat {
    match met
    case 0 => if Stage(s) <= 8 then 18 - Stage(s) else 31 - Stage(s)
    case 1 => if Stage(s) <= 18 then 18 - Stage(s) else 0
    case 2 => if Stage(s) >= 14 then 18 - Stage(s) else if Stage(s) <= 5 then 5 - Stage(s) else 0
    case _ => 0
  }

  // --------------------------------------------------------- what a stage waits for

  const MAX_WAIT: nat := BURST + 3

  /** Own steps core c needs before the changer need not wait for it. */
  function Wait(s: State, c: CoreId): nat
    requires c in s.cores
  {
    if Stage(s) == 1 then
      if s.cores[c] == Preparing then 1 else 0
    else if Stage(s) == 11 && c !in s.ack then
      match s.cores[c]
      case Delaying(seen) => if seen == CFGACK then 1 else 4
      case Reading => 2
      case Looping => 3
      case Bursting(left, _) => 3 + left
      case Preparing | Stopped => 0
    else 0
  }

  /** Within j rounds the changer leaves the stage it is in, or it is already
      past the stage with d to go. */
  predicate Within(s: State, met: nat, d: nat, j: nat) {
    Togo(s, met) < d ||
    (Togo(s, met) == d &&
     (forall c | c in s.cores :: Wait(s, c) <= (if j == 0 then 0 else j - 1)) &&
     (j == 0 ==> s.changer != Sleeping))
  }

  /** The same in the middle of a round: `moved` cores have had a step, and
      `woken` tells whether the changer has. */
  predicate MidRound(s: State, met: nat, d: nat, j: nat, moved: set<CoreId>, woken: bool) {
    Togo(s, met) < d ||
    (Togo(s, met) == d &&
     (j == 0 ==> !woken && s.changer != Sleeping) &&
     (j == 1 ==> woken ==> s.changer != Sleeping) &&
     (forall c | c in s.cores ::
        Wait(s, c) <= (if j == 0 then 0 else if j == 1 || c !in moved then j - 1 else j - 2)))
  }

  lemma WaitBound(s: State, c: CoreId)
    requires LiveInv(s) && c in s.cores
    ensures Wait(s, c) <= MAX_WAIT
  {
    assert CoreLive(s, c);
  }

  lemma CoreMoves(s: State, c: CoreId, d: CoreId)
    requires LiveInv(s) && !s.quit && c in s.cores && d in s.cores
    ensures Wait(CoreStep(s, c), d) <= if c == d && Wait(s, d) > 0 then Wait(s, d) - 1 else Wait(s, d)
  {
    assert CoreLive(s, c) && CoreLive(s, d) && CoreBarrier(s, c) && CoreBarrier(s, d);
  }

  lemma ChangerMoves(s: State, met: nat)
    requires LiveInv(s) && !s.quit && OnTrack(s, met) && met < 3
    ensures var t := ChangerStep(s); var m := Milestone(t, met);
            && OnTrack(t, m)
            && (Togo(t, m) < Togo(s, met) ||
                (Togo(t, m) == Togo(s, met) && m == met && t.stat == s.stat
                 && Stage(t) == Stage(s) && t.cores == s.cores && t.ack == s.ack
                 && (s.changer == Sleeping ==> t.changer == Awake)))
            && (s.changer != Sleeping && (forall c | c in s.cores :: Wait(s, c) == 0) ==>
                  Togo(t, m) < Togo(s, met))
  {
    if forall c | c in s.cores :: Wait(s, c) == 0 {
      NothingToWaitFor(s);
    }
  }

  lemma NothingToWaitFor(s: State)
    requires LiveInv(s) && !s.quit
    requires forall c | c in s.cores :: Wait(s, c) == 0
    ensures Stage(s) == 1 ==> s.used == s.prepared
    ensures Stage(s) == 11 ==> s.used == s.ack
  {
    forall c | c in s.used
      ensures Stage(s) == 1 ==> c in s.prepared
      ensures Stage(s) == 11 ==> c in s.ack
    {
      assert CoreLive(s, c) && CoreBarrier(s, c) && Wait(s, c) == 0;
    }
  }

  // -------------------------------------------------------------------- rounds

  /** A round of the schedule: the changer and every used core move at least
      once, in any order and any number of times, and nobody quits. */
  predicate Complete(used: set<CoreId>, r: seq<Actor>) {
    Changer in r && (forall c | c in used :: Core(c) in r) && Interrupt !in r
  }

  function Flat(rounds: seq<seq<Actor>>): seq<Actor> {
    if rounds == [] then [] else rounds[0] + Flat(rounds[1..])
  }

  function Movers(r: seq<Actor>): set<CoreId> {
    set c: CoreId | Core(c) in r
  }

  lemma ChangerMid(s: State, met: nat, d: nat, j: nat, moved: set<CoreId>, woken: bool)
    requires LiveInv(s) && !s.quit
    requires OnTrack(s, met) && met < 3 && MidRound(s, met, d, j, moved, woken)
    ensures var t := ChangerStep(s); var m := Milestone(t, met);
            t.used == s.used && !t.quit && OnTrack(t, m) && MidRound(t, m, d, j, moved, true)
  {
    var t := ChangerStep(s);
    var m := Milestone(t, met);
    ChangerMoves(s, met);
    if Togo(t, m) == d {
      forall c | c in t.cores ensures Wait(t, c) == Wait(s, c) {}
    }
  }

  lemma CoreMid(s: State, met: nat, c: CoreId, d: nat, j: nat, moved: set<CoreId>, woken: bool)
    requires LiveInv(s) && !s.quit && c in s.cores
    requires OnTrack(s, met) && met < 3 && MidRound(s, met, d, j, moved, woken)
    ensures var t := CoreStep(s, c);
            && t.used == s.used && !t.quit && t.cores.Keys == s.cores.Keys
            && Stage(t) == Stage(s) && Milestone(t, met) == met && OnTrack(t, met)
            && MidRound(t, met, d, j, moved + {c}, woken)
  {
    var t := CoreStep(s, c);
    assert Stage(t) == Stage(s) && t.changer == s.changer;
    if Togo(s, met) == d {
      forall e | e in t.cores
        ensures Wait(t, e) <=
          (if j == 0 then 0 else if j == 1 || e !in moved + {c} then j - 1 else j - 2)
      {
        CoreMoves(s, c, e);
      }
    }
  }

  lemma StepMid(s: State, met: nat, a: Actor, d: nat, j: nat, moved: set<CoreId>, woken: bool)
    requires LiveInv(s) && !s.quit && a != Interrupt
    requires OnTrack(s, met) && met < 3 && MidRound(s, met, d, j, moved, woken)
    ensures var t := Exec(s, a); var m := Milestone(t, met);
            && t.used == s.used && !t.quit && OnTrack(t, m)
            && MidRound(t, m, d, j, moved + Movers([a]), woken || a == Changer)
  {
    match a
    case Changer =>
      assert moved + Movers([a]) == moved;
      ChangerMid(s, met, d, j, moved, woken);
    case Core(c) =>
      assert Movers([a]) == {c};
      if c in s.cores {
        CoreMid(s, met, c, d, j, moved, woken);
      } else {
        MoreMoved(s, met, d, j, moved, c, woken);
      }
    case Raise =>
      assert moved + Movers([a]) == moved;
      forall c | c in s.cores ensures Wait(Exec(s, a), c) == Wait(s, c) {}
  }

  /** A turn of a core that is not used changes nothing. */
  lemma MoreMoved(s: State, met: nat, d: nat, j: nat, moved: set<CoreId>, c: CoreId, woken: bool)
    requires MidRound(s, met, d, j, moved, woken) && c !in s.cores
    ensures MidRound(s, met, d, j, moved + {c}, woken)
  {
  }

  lemma {:induction false} RoundMid(s: State, met: nat, r: seq<Actor>, d: nat, j: nat,
                                    moved: set<CoreId>, woken: bool)
    requires LiveInv(s) && !s.quit && Interrupt !in r
    requires OnTrack(s, met) && met <= 3 && MidRound(s, met, d, j, moved, woken)
    ensures var t := Run(s, r); var m := Track(s, met, r);
            && LiveInv(t) && t.used == s.used && !t.quit && OnTrack(t, m) && m <= 3
            && (m == 3 || MidRound(t, m, d, j, moved + Movers(r), woken || Changer in r))
    decreases r
  {
    if r == [] {
      assert Movers(r) == {};
      assert moved + {} == moved;
    } else {
      var t := Exec(s, r[0]);
      LiveStep(s, r[0]);
      assert r == [r[0]] + r[1..];
      if met == 3 {
        AlreadyDone(s, r);
      } else {
        StepMid(s, met, r[0], d, j, moved, woken);
        RoundMid(t, Milestone(t, met), r[1..], d, j, moved + Movers([r[0]]), woken || r[0] == Changer);
        assert Movers(r) == Movers([r[0]]) + Movers(r[1..]);
        assert moved + Movers(r) == moved + Movers([r[0]]) + Movers(r[1..]);
        TrackStart(t, met, r[1..]);
      }
    }
  }

  /** Counting the milestone of the first state once or twice is the same. */
  lemma TrackStart(s: State, met: nat, sched: seq<Actor>)
    ensures Track(s, Milestone(s, met), sched) == Track(s, met, sched)
  {
    assert Milestone(s, Milestone(s, met)) == Milestone(s, met);
  }

  lemma StepKeeps(s: State, a: Actor)
    ensures Exec(s, a).used == s.used && (a != Interrupt ==> Exec(s, a).quit == s.quit)
  {
  }

  lemma {:induction false} AlreadyDone(s: State, r: seq<Actor>)
    requires LiveInv(s) && !s.quit && Interrupt !in r
    ensures Track(s, 3, r) == 3
    ensures var t := Run(s, r); LiveInv(t) && t.used == s.used && !t.quit
    decreases r
  {
    if r != [] {
      LiveStep(s, r[0]);
      StepKeeps(s, r[0]);
      AlreadyDone(Exec(s, r[0]), r[1..]);
    }
  }

  /** A complete round uses up one unit of waiting or passes a stage. */
  lemma RoundProgress(s: State, met: nat, r: seq<Actor>, d: nat, j: nat)
    requires LiveInv(s) && !s.quit && Complete(s.used, r)
    requires OnTrack(s, met) && met < 3 && Within(s, met, d, j)
    ensures var t := Run(s, r); var m := Track(s, met, r);
            && LiveInv(t) && t.used == s.used && !t.quit && OnTrack(t, m) && m <= 3
            && (m == 3 || Togo(t, m) < d || (j > 0 && Within(t, m, d, j - 1)))
  {
    RoundMid(s, met, r, d, j, {}, false);
    var t := Run(s, r);
    assert forall c | c in t.cores :: c in Movers(r);
    assert {} + Movers(r) == Movers(r);
  }

  function Budget(stages: nat): nat {
    if stages == 0 then 0 else MAX_WAIT + 2 + Budget(stages - 1)
  }

  lemma {:induction false} Progress(s: State, met: nat, rounds: seq<seq<Actor>>, d: nat, j: nat)
    requires LiveInv(s) && !s.quit && OnTrack(s, met) && met <= 3
    requires met < 3 ==> d > 0 && Within(s, met, d, j) && |rounds| >= Budget(d) + j
    requires forall r | r in rounds :: Complete(s.used, r)
    ensures Track(s, met, Flat(rounds)) == 3
    decreases |rounds|
  {
    if rounds == [] {
      assert met == 3;
    } else {
      var r := rounds[0];
      assert r in rounds && forall x | x in rounds[1..] :: x in rounds;
      var t, m := Run(s, r), Track(s, met, r);
      TrackAppend(s, met, r, Flat(rounds[1..]));
      if met == 3 {
        AlreadyDone(s, r);
        Progress(t, m, rounds[1..], 0, 0);
      } else {
        RoundProgress(s, met, r, d, j);
        if m == 3 {
          Progress(t, m, rounds[1..], 0, 0);
        } else if Togo(t, m) < d {
          forall c | c in t.cores ensures Wait(t, c) <= MAX_WAIT { WaitBound(t, c); }
          assert Togo(t, m) > 0;
          Progress(t, m, rounds[1..], d - 1, MAX_WAIT + 1);
        } else {
          Progress(t, m, rounds[1..], d, j - 1);
        }
      }
    }
  }

  /** Rounds after which a reload pending in s has been loaded, swapped in and
      followed by BUSYLOOP. */
  function ReloadRounds(s: State): nat {
    Budget(Togo(s, Milestone(s, 0))) + MAX_WAIT + 1
  }

  /** From every reachable state with a signal pending, every schedule with
      enough rounds starts LoadConfig, then SwapConfig, then reaches BUSYLOOP. */
  lemma ReloadCompletes(boot: State, before: seq<Actor>, rounds: seq<seq<Actor>>)
    requires Init(boot)
    requires var s := Run(boot, before); s.signal && !s.quit && |rounds| >= ReloadRounds(s)
    requires forall r | r in rounds :: Complete(Run(boot, before).used, r)
    ensures Track(Run(boot, before), 0, Flat(rounds)) == 3
  {
    var s := Run(boot, before);
    LiveRun(boot, before);
    var m := Milestone(s, 0);
    forall c | c in s.cores ensures Wait(s, c) <= MAX_WAIT { WaitBound(s, c); }
    Progress(s, m, rounds, Togo(s, m), MAX_WAIT + 1);
    TrackStart(s, 0, Flat(rounds));
  }
}
