/** The reload protocol is not safe in every interleaving: an ack for an
    earlier round, posted between RESET_ACK and the store of CFGACK, counts for
    the new round. This module shows the failing run, and that an ack posted or
    owed at that point is exactly what decides whether the round is safe, in
    every reachable state. */
module ReloadExact {
  import opened Reload
  import opened ReloadProgress

  // ----------------------------------------------------------- a failing run

  /** A data plane with core 1 only. */
  const BOOT: State :=
    State(DC, false, {1}, {}, {}, map[1 := Preparing], Sleeping, 0, false)

  /** One changer wake-up: the quit test and the arm of the current status. */
  const WAKE: seq<Actor> := [Changer, Changer]

  lemma Woken(s: State)
    requires !s.quit && s.changer == Sleeping
    ensures Run(s, WAKE) == ArmStep(s.(changer := Awake))
  {
    assert WAKE[1..] == [Changer];
    assert Run(Exec(s, Changer), [Changer]) == Exec(Exec(s, Changer), Changer);
  }

  /** The same and the step after it: the store behind a test, or the next. */
  const WAKE_ON: seq<Actor> := WAKE + [Changer]

  lemma WokenOn(s: State)
    requires !s.quit && s.changer == Sleeping
    ensures Run(s, WAKE_ON) == ChangerStep(ArmStep(s.(changer := Awake)))
  {
    Woken(s);
    RunAppend(s, WAKE, [Changer]);
    Single(Run(s, WAKE), Changer);
  }

  lemma Single(s: State, a: Actor)
    ensures Run(s, [a]) == Exec(s, a)
  {
  }

  /** Extends a run by a fragment. */
  lemma Extend(s: State, sched: seq<Actor>, more: seq<Actor>) returns (r: seq<Actor>, t: State)
    ensures r == sched + more && t == Run(s, r) == Run(Run(s, sched), more)
  {
    RunAppend(s, sched, more);
    r := sched + more;
    t := Run(s, r);
  }

  /** From PREPARE through BUSYLOOP and a raised signal to just after the
      RESET_ACK of the CFGLOAD arm, the cores standing still. */
  lemma ToWindow(s: State) returns (r: seq<Actor>)
    requires !s.quit && s.changer == Sleeping && s.stat == PREPARE
    ensures Run(s, r) == s.(stat := CFGLOAD, signal := false, ack := {}, changer := AckCleared)
  {
    var t;
    r, t := Extend(s, [], WAKE_ON);  WokenOn(s);
    var u := t;
    r, t := Extend(s, r, [Raise]);  Single(u, Raise); u := t;
    r, t := Extend(s, r, WAKE_ON);  WokenOn(u); u := t;
    r, t := Extend(s, r, WAKE_ON);  WokenOn(u); u := t;
    r, t := Extend(s, r, [Changer]);  Single(u, Changer);
  }

  // --------------------------------------------- a core left alone posts its ack

  function StepsToAck(pc: CorePc): nat {
    match pc
    case Delaying(seen) => if seen == CFGACK then 1 else 4
    case Reading => 2
    case Looping => 3
    case Bursting(left, _) => 3 + left
    case Preparing | Stopped => 0
  }

  predicate CanAck(pc: CorePc) {
    pc != Preparing && pc != Stopped && (pc.Bursting? ==> pc.left >= 1)
  }

  lemma {:induction false} CoreAcks(s: State, d: CoreId) returns (r: seq<Actor>)
    requires s.stat == CFGACK && !s.quit && d in s.cores && CanAck(s.cores[d])
    ensures Run(s, r) == s.(ack := s.ack + {d}, cores := s.cores[d := Looping])
    ensures forall a | a in r :: a == Core(d)
    decreases StepsToAck(s.cores[d])
  {
    if s.cores[d] == Delaying(CFGACK) {
      r := [Core(d)];
      Single(s, Core(d));
    } else {
      var t := Exec(s, Core(d));
      var rest := CoreAcks(t, d);
      r := [Core(d)] + rest;
      assert r[1..] == rest;
      assert t.cores[d := Looping] == s.cores[d := Looping];
    }
  }

  lemma {:induction false} AllAck(s: State, todo: set<CoreId>) returns (r: seq<Actor>)
    requires s.stat == CFGACK && !s.quit && todo <= s.cores.Keys
    requires forall d | d in todo :: CanAck(s.cores[d])
    ensures Run(s, r).(cores := map[]) == s.(ack := s.ack + todo, cores := map[])
    ensures Run(s, r).cores.Keys == s.cores.Keys
    ensures forall c | c in s.cores && c !in todo :: Run(s, r).cores[c] == s.cores[c]
    ensures forall a | a in r :: a.Core?
    decreases todo
  {
    if todo == {} {
      r := [];
    } else {
      var d :| d in todo;
      var mine := CoreAcks(s, d);
      var t := Run(s, mine);
      var rest := AllAck(t, todo - {d});
      RunAppend(s, mine, rest);
      r := mine + rest;
      assert s.ack + todo == t.ack + (todo - {d});
    }
  }

  // ------------------------------------------------------- one round of reload

  /** The schedule does not bring the changer back to just after RESET_ACK. */
  predicate SameRound(s: State, sched: seq<Actor>)
    decreases sched
  {
    sched == [] ||
    var t := Exec(s, sched[0]);
    (t.changer == AckCleared ==> s.changer == AckCleared) && SameRound(t, sched[1..])
  }

  /** Every continuation of s within its round is safe. */
  ghost predicate RoundSafe(s: State) {
    forall sched :: SameRound(s, sched) ==> Safe(Run(s, sched))
  }

  lemma {:induction false} SameRoundAppend(s: State, a: seq<Actor>, b: seq<Actor>)
    requires SameRound(s, a) && SameRound(Run(s, a), b)
    ensures SameRound(s, a + b)
    decreases a
  {
    if a == [] {
      assert a + b == b;
    } else {
      assert (a + b)[1..] == a[1..] + b;
      SameRoundAppend(Exec(s, a[0]), a[1..], b);
    }
  }

  lemma {:induction false} CoresKeepRound(s: State, r: seq<Actor>)
    requires forall a | a in r :: a.Core?
    ensures SameRound(s, r)
    decreases r
  {
    if r != [] {
      assert r[0] in r && forall a | a in r[1..] :: a in r;
      CoresKeepRound(Exec(s, r[0]), r[1..]);
    }
  }

  /** Under CFGLOAD a core left alone begins a burst, posting on the way the ack
      it owed. */
  lemma {:induction false} ToBurst(s: State, c: CoreId) returns (r: seq<Actor>)
    requires s.stat == CFGLOAD && !s.quit && c in s.cores && CanAck(s.cores[c])
    ensures forall a | a in r :: a == Core(c)
    ensures var t := Run(s, r);
            && t.(cores := map[], ack := {}) == s.(cores := map[], ack := {})
            && t.cores.Keys == s.cores.Keys && t.cores[c].Bursting?
            && (forall d | d in s.cores && d != c :: t.cores[d] == s.cores[d])
            && s.ack <= t.ack <= s.ack + {c}
            && (s.cores[c] == Delaying(CFGACK) ==> c in t.ack)
    decreases match s.cores[c] case Delaying(_) => 3 case Looping => 2 case Reading => 1 case _ => 0
  {
    if s.cores[c].Bursting? {
      r := [];
    } else {
      var t := Exec(s, Core(c));
      var rest := ToBurst(t, c);
      r := [Core(c)] + rest;
      assert r[1..] == rest;
    }
  }

  /** A core whose ack is posted or owed between RESET_ACK and the store of CFGACK
      may burst under CFGLOAD, and the round goes on to SwapConfig without waiting
      for it. */
  lemma LateAckOverlaps(s: State, c: CoreId) returns (r: seq<Actor>)
    requires LiveInv(s) && !s.quit && s.changer == AckCleared
    requires c in s.cores && (c in s.ack || s.cores[c] == Delaying(CFGACK))
    ensures SameRound(s, r) && !Safe(Run(s, r))
  {
    forall d | d in s.cores ensures CanAck(s.cores[d]) {
      assert CoreLive(s, d) && CoreBarrier(s, d);
    }
    var post := ToBurst(s, c);
    CoresKeepRound(s, post);
    var s1 := Run(s, post);
    var s2 := Exec(s1, Changer);
    var acks := AllAck(s2, s2.used - s2.ack);
    CoresKeepRound(s2, acks);
    var s3 := Run(s2, acks);
    assert s3.used == s3.ack;
    Swaps(s3);
    var tail := [Changer] + (acks + SWAP);
    SameRoundAppend(s2, acks, SWAP);
    RunAppend(s2, acks, SWAP);
    assert tail[1..] == acks + SWAP;
    SameRoundAppend(s, post, tail);
    RunAppend(s, post, tail);
    r := post + tail;
    assert Run(s, r).cores[c].Bursting?;
  }

  const SWAP: seq<Actor> := WAKE_ON + WAKE

  lemma Swaps(s: State)
    requires !s.quit && s.changer == Sleeping && s.stat == CFGACK && s.used == s.ack
    ensures Run(s, SWAP) == s.(stat := CFGSWAP, changer := Swapping)
    ensures SameRound(s, SWAP)
  {
    WokenOn(s);
    RunAppend(s, WAKE_ON, WAKE);
    Woken(Run(s, WAKE_ON));
    SameRoundWake(s);
    Woken(s);
    assert SameRound(Run(s, WAKE), [Changer]) by {
      assert [Changer][1..] == [];
      assert SameRound(Exec(Run(s, WAKE), Changer), []);
    }
    SameRoundAppend(s, WAKE, [Changer]);
    SameRoundWake(Run(s, WAKE_ON));
    SameRoundAppend(s, WAKE_ON, WAKE);
  }

  lemma SameRoundWake(s: State)
    requires !s.quit && s.changer == Sleeping
    ensures SameRound(s, WAKE)
  {
    assert WAKE[1..] == [Changer] && [Changer][1..] == [];
    var t := Exec(s, Changer);
    assert SameRound(Exec(t, Changer), []);
    assert SameRound(t, [Changer]);
  }

  lemma {:induction false} CleanRoundSafe(s: State, sched: seq<Actor>)
    requires Inv(s) && SameRound(s, sched)
    requires s.changer == AckCleared && !s.quit ==> !Outstanding(s)
    ensures Safe(Run(s, sched))
    decreases sched
  {
    InvSafe(s);
    if sched != [] {
      StepInv(s, sched[0]);
      CleanStep(s, sched[0]);
      CleanRoundSafe(Exec(s, sched[0]), sched[1..]);
    }
  }

  lemma CleanStep(s: State, a: Actor)
    requires Inv(s)
    requires s.changer == AckCleared && !s.quit ==> !Outstanding(s)
    requires Exec(s, a).changer == AckCleared ==> s.changer == AckCleared
    ensures Exec(s, a).changer == AckCleared && !Exec(s, a).quit ==> !Outstanding(Exec(s, a))
  {
    if !s.quit && s.changer == AckCleared {
      StaysClean(s, a);
    }
  }

  lemma SafeIsInv(s: State)
    requires LiveInv(s) && Safe(s) && s.changer == AckCleared && s.ack == {}
    ensures Inv(s)
  {
    forall c | c in s.cores ensures CoreInv(s, c) {
      assert CoreLive(s, c) && CoreBarrier(s, c);
    }
  }

  /** A quitting data plane: the changer stores CFGACK at most and halts. */
  predicate Quitting(s: State) {
    && s.quit && Safe(s)
    && (if s.changer == AckCleared then s.stat == CFGLOAD
        else s.stat == CFGACK && (s.changer == Sleeping || s.changer == Halted))
  }

  lemma QuittingStep(s: State, a: Actor)
    requires Quitting(s)
    ensures Quitting(Exec(s, a))
  {
  }

  lemma {:induction false} QuittingSafe(s: State, sched: seq<Actor>)
    requires Quitting(s)
    ensures Safe(Run(s, sched))
    decreases sched
  {
    if sched != [] {
      QuittingStep(s, sched[0]);
      QuittingSafe(Exec(s, sched[0]), sched[1..]);
    }
  }

  /** In every reachable state just after RESET_ACK, stale acks of earlier rounds
      included: the rest of the round is safe in every interleaving exactly when the
      state is, and no ack is posted or owed or the data plane is quitting. */
  lemma RoundSafeExactly(boot: State, before: seq<Actor>)
    requires Init(boot) && Run(boot, before).changer == AckCleared
    ensures var s := Run(boot, before);
            RoundSafe(s) <==> Safe(s) && (s.quit || (!Outstanding(s) && s.ack == {}))
  {
    var s := Run(boot, before);
    LiveRun(boot, before);
    if RoundSafe(s) {
      assert SameRound(s, []) && Run(s, []) == s;
      if !s.quit && s.ack != {} {
        var c :| c in s.ack;
        var r := LateAckOverlaps(s, c);
      } else if !s.quit && Outstanding(s) {
        var c :| c in s.cores && s.cores[c] == Delaying(CFGACK);
        var r := LateAckOverlaps(s, c);
      }
    }
    if Safe(s) && (s.quit || (!Outstanding(s) && s.ack == {})) {
      forall sched | SameRound(s, sched) ensures Safe(Run(s, sched)) {
        if s.quit {
          QuittingSafe(s, sched);
        } else {
          SafeIsInv(s);
          CleanRoundSafe(s, sched);
        }
      }
    }
  }

  /** The failing run, from boot: SwapConfig of the second reload overlaps a
      burst of core 1. */
  lemma StaleAckRun() returns (r: seq<Actor>)
    ensures Init(BOOT) && !Safe(Run(BOOT, r))
  {
    var t, u, more;
    r, t := Extend(BOOT, [], [Core(1)]);  Single(BOOT, Core(1)); u := t;
    r, t := Extend(BOOT, r, WAKE);  Woken(u); u := t;
    r, t := Extend(BOOT, r, WAKE_ON);  WokenOn(u); u := t;
    more := ToWindow(u);
    r, t := Extend(BOOT, r, more);  u := t;
    r, t := Extend(BOOT, r, [Changer]);  Single(u, Changer); u := t;
    assert u.stat == CFGACK && u.cores == map[1 := Looping] && u.used == {1} && u.ack == {};
    more := SecondRound(u);
    r, t := Extend(BOOT, r, more);
    var first := r;
    LiveRun(BOOT, first);
    more := LateAckOverlaps(t, 1);
    r, t := Extend(BOOT, first, more);
  }

  /** Core 1 acks, reads CFGACK once more, and stands still until after the next
      round's RESET_ACK. */
  lemma SecondRound(s: State) returns (r: seq<Actor>)
    requires s.stat == CFGACK && s.cores == map[1 := Looping] && s.used == {1} && s.ack == {}
    requires !s.quit && s.changer == Sleeping
    ensures var t := Run(s, r);
            !t.quit && t.changer == AckCleared && 1 in t.cores && t.cores[1] == Delaying(CFGACK)
  {
    var t, u, more;
    r := CoreAcks(s, 1);
    u := Run(s, r);
    r, t := Extend(s, r, [Core(1)]);  Single(u, Core(1)); u := t;
    r, t := Extend(s, r, [Core(1)]);  Single(u, Core(1)); u := t;
    assert u.cores[1] == Delaying(CFGACK) && u.used == u.ack == {1};
    r, t := Extend(s, r, SWAP);  Swaps(u); u := t;
    r, t := Extend(s, r, [Changer]);  Single(u, Changer); u := t;
    r, t := Extend(s, r, [Changer]);  Single(u, Changer); u := t;
    more := ToWindow(u);
    r, t := Extend(s, r, more);
  }
}
