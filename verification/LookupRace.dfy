/** A reader and a writer sharing the lookup table. A write is split into the
    clock test, the record store and the side flip, and the reader may move in
    between. What Find handed out stays as it was until the next Clock exactly if
    no store aims at a side that is still held. Writes that use the clock test and
    are not cut by a Clock have that; writes without the test need not. */
module LookupRace {
  import opened Lookup

  datatype Change<T> = Put(value: T) | Drop

  datatype Writer<T> =
    | Idle
    | Claimed(key: nat, change: Change<T>)   // past the clock test
    | Stored(key: nat)                       // record stored, side not yet flipped

  /** A record found by the reader: its place and what it showed. */
  datatype Handle<T> = Handle(onA: bool, key: nat, seen: Record<T>)

  /** onA[k]: the current side of key k is side A. */
  datatype State<T(==)> = State(
    a: seq<Record<T>>, b: seq<Record<T>>, onA: seq<bool>,
    clock: nat, prev: nat, writer: Writer<T>, held: set<Handle<T>>)

  datatype Action<T> =
    | Look(key: nat)
    | ClockStep
    | Begin(key: nat, change: Change<T>, check: bool)
    | Store
    | Flip

  predicate Sized<T(==)>(s: State<T>) {
    && |s.a| == |s.b| == |s.onA|
    && (!s.writer.Idle? ==> s.writer.key < |s.a|)
    && (forall h | h in s.held :: h.key < |s.a|)
  }

  function At<T(==)>(s: State<T>, onA: bool, k: nat): Record<T>
    requires Sized(s) && k < |s.a|
  {
    if onA then s.a[k] else s.b[k]
  }

  function Exec<T(==)>(s: State<T>, x: Action<T>): (t: State<T>)
    requires Sized(s)
    ensures Sized(t)
  {
    match x
    case Look(k) =>
      if k < |s.a| && At(s, s.onA[k], k).on
      then s.(held := s.held + {Handle(s.onA[k], k, At(s, s.onA[k], k))}) else s
    case ClockStep =>
      s.(clock := s.clock + 1, held := {})
    case Begin(k, change, check) =>
      if !s.writer.Idle? || (check && s.clock <= s.prev) then s
      else
        var claimed := if check then s.(prev := s.clock) else s;
        if k < |s.a| then claimed.(writer := Claimed(k, change)) else claimed
    case Store =>
      if !s.writer.Claimed? then s
      else
        var k := s.writer.key;
        var spare := At(s, !s.onA[k], k);
        var r := if s.writer.change.Put? then Record(true, s.writer.change.value) else spare.(on := false);
        var t := if s.onA[k] then s.(b := s.b[k := r]) else s.(a := s.a[k := r]);
        t.(writer := Stored(k))
    case Flip =>
      if !s.writer.Stored? then s
      else s.(onA := s.onA[s.writer.key := !s.onA[s.writer.key]], writer := Idle)
  }

  function Run<T(==)>(s: State<T>, xs: seq<Action<T>>): (t: State<T>)
    requires Sized(s)
    ensures Sized(t)
    decreases xs
  {
    if xs == [] then s else Run(Exec(s, xs[0]), xs[1..])
  }

  /** Writes ask for the clock test, and none is in progress at a Clock. */
  predicate Disciplined<T(==)>(s: State<T>, xs: seq<Action<T>>)
    requires Sized(s)
    decreases xs
  {
    xs == [] ||
    (&& (xs[0].Begin? ==> xs[0].check)
     && (xs[0].ClockStep? ==> s.writer.Idle?)
     && Disciplined(Exec(s, xs[0]), xs[1..]))
  }

  /** Every record handed out since the last Clock still shows what it showed. */
  predicate Intact<T(==)>(s: State<T>)
    requires Sized(s)
  {
    forall h | h in s.held :: At(s, h.onA, h.key) == h.seen
  }

  // ------------------------------------------------------ exactly when it holds

  /** The spare side of key k is still held. */
  predicate SpareHeld<T(==)>(s: State<T>, k: nat)
    requires Sized(s) && k < |s.a|
  {
    exists h | h in s.held :: h.key == k && h.onA != s.onA[k]
  }

  /** The step does not store into a side that is held. */
  predicate Clear<T(==)>(s: State<T>, x: Action<T>)
    requires Sized(s)
  {
    x.Store? && s.writer.Claimed? ==> !SpareHeld(s, s.writer.key)
  }

  predicate NoSpareStore<T(==)>(s: State<T>, xs: seq<Action<T>>)
    requires Sized(s)
    decreases xs
  {
    xs == [] || (Clear(s, xs[0]) && NoSpareStore(Exec(s, xs[0]), xs[1..]))
  }

  /** Every state of the run is intact. */
  predicate AllIntact<T(==)>(s: State<T>, xs: seq<Action<T>>)
    requires Sized(s)
    decreases xs
  {
    Intact(s) && (xs == [] || AllIntact(Exec(s, xs[0]), xs[1..]))
  }

  /** Find hands out records that are on. */
  predicate HeldOn<T(==)>(s: State<T>) {
    forall h | h in s.held :: h.seen.on
  }

  /** Every step but a store into a held side keeps what is held. */
  lemma StepIntact<T>(s: State<T>, x: Action<T>)
    requires Sized(s) && Intact(s) && HeldOn(s) && Clear(s, x)
    ensures Intact(Exec(s, x)) && HeldOn(Exec(s, x))
  {
  }

  /** A store keeps what is held, whatever is stored, exactly if its side is not. */
  lemma StoreIntactExactly<T>(s: State<T>, k: nat)
    requires Sized(s) && Intact(s) && HeldOn(s) && k < |s.a|
    ensures (forall change :: Intact(Exec(s.(writer := Claimed(k, change)), Store))) <==> !SpareHeld(s, k)
  {
    if SpareHeld(s, k) {
      var h :| h in s.held && h.key == k && h.onA != s.onA[k];
      var t := Exec(s.(writer := Claimed(k, Drop)), Store);
      assert h in t.held && At(t, h.onA, k) != h.seen;
    } else {
      forall change ensures Intact(Exec(s.(writer := Claimed(k, change)), Store)) {
        StepIntact(s.(writer := Claimed(k, change)), Store);
      }
    }
  }

  lemma {:induction false} NoSpareStoreIntact<T>(s: State<T>, xs: seq<Action<T>>)
    requires Sized(s) && Intact(s) && HeldOn(s) && NoSpareStore(s, xs)
    ensures AllIntact(s, xs) && Intact(Run(s, xs))
    decreases xs
  {
    if xs != [] {
      StepIntact(s, xs[0]);
      NoSpareStoreIntact(Exec(s, xs[0]), xs[1..]);
    }
  }

  /** The same actions with other values put. */
  predicate Alike<T(==)>(x: Action<T>, y: Action<T>) {
    x == y || (x.Begin? && y.Begin? && x.key == y.key && x.check == y.check && x.change.Put? && y.change.Put?)
  }

  predicate SameShape<T(==)>(xs: seq<Action<T>>, ys: seq<Action<T>>)
    decreases xs
  {
    |xs| == |ys| && (xs == [] || (Alike(xs[0], ys[0]) && SameShape(xs[1..], ys[1..])))
  }

  function Places<T(==)>(s: State<T>): set<(bool, nat)> {
    set h | h in s.held :: (h.onA, h.key)
  }

  /** States that differ in stored values only. */
  predicate Twins<T(==)>(s: State<T>, t: State<T>)
    requires Sized(s) && Sized(t)
  {
    && |s.a| == |t.a| && s.onA == t.onA && s.clock == t.clock && s.prev == t.prev
    && (forall k | 0 <= k < |s.a| :: s.a[k].on == t.a[k].on && s.b[k].on == t.b[k].on)
    && Places(s) == Places(t)
    && (s.writer == t.writer ||
        (s.writer.Claimed? && t.writer.Claimed? && s.writer.key == t.writer.key
         && s.writer.change.Put? && t.writer.change.Put?))
  }

  lemma SpareByPlace<T>(s: State<T>, k: nat)
    requires Sized(s) && k < |s.a|
    ensures SpareHeld(s, k) <==> (!s.onA[k], k) in Places(s)
  {
  }

  lemma TwinsClear<T>(s: State<T>, t: State<T>, x: Action<T>)
    requires Sized(s) && Sized(t) && Twins(s, t) && Clear(s, x)
    ensures Clear(t, x)
  {
    if x.Store? && t.writer.Claimed? {
      SpareByPlace(s, t.writer.key);
      SpareByPlace(t, t.writer.key);
    }
  }

  lemma TwinsStep<T>(s: State<T>, t: State<T>, x: Action<T>, y: Action<T>)
    requires Sized(s) && Sized(t) && Twins(s, t) && Alike(x, y)
    ensures Twins(Exec(s, x), Exec(t, y))
  {
    var s', t' := Exec(s, x), Exec(t, y);
    if x.Look? && x.key < |s.a| && At(s, s.onA[x.key], x.key).on {
      assert Places(s') == Places(s) + {(s.onA[x.key], x.key)};
      assert Places(t') == Places(t) + {(t.onA[x.key], x.key)};
    }
  }

  lemma {:induction false} TwinsNoSpareStore<T>(s: State<T>, t: State<T>, xs: seq<Action<T>>, ys: seq<Action<T>>)
    requires Sized(s) && Sized(t) && Twins(s, t) && SameShape(xs, ys) && NoSpareStore(s, xs)
    ensures NoSpareStore(t, ys)
    decreases xs
  {
    if xs != [] {
      TwinsClear(s, t, xs[0]);
      TwinsStep(s, t, xs[0], ys[0]);
      TwinsNoSpareStore(Exec(s, xs[0]), Exec(t, ys[0]), xs[1..], ys[1..]);
    }
  }

  /** The claimed write with another value. */
  function Recharge<T(==)>(s: State<T>, c: T): State<T> {
    if s.writer.Claimed? && s.writer.change.Put? then s.(writer := Claimed(s.writer.key, Put(c))) else s
  }

  lemma BreakNow<T>(s: State<T>, v: T, w: T) returns (c: T)
    requires Sized(s) && HeldOn(s) && !Clear(s, Store) && v != w
    ensures !Intact(Exec(Recharge(s, c), Store))
  {
    var h :| h in s.held && h.key == s.writer.key && h.onA != s.onA[h.key];
    c := if h.seen.data == v then w else v;
    var u := Exec(Recharge(s, c), Store);
    assert h in u.held && At(u, h.onA, h.key) != h.seen;
  }

  /** A step after which the claimed value is c', from a twin of its start. */
  lemma ShapeStep<T>(s: State<T>, x: Action<T>, c': T) returns (c: T, y: Action<T>)
    requires Sized(s)
    ensures Alike(x, y) && Exec(Recharge(s, c), y) == Recharge(Exec(s, x), c')
  {
    c, y := c', x;
    if x.Begin? && s.writer.Idle? && x.change.Put? {
      y := x.(change := Put(c'));
    } else if x.Store? && s.writer.Claimed? && s.writer.change.Put? {
      c := s.writer.change.value;
    }
  }

  /** A store into a held side breaks the run for some values put, given two. */
  lemma {:induction false} SpareStoreBreaks<T>(s: State<T>, xs: seq<Action<T>>, v: T, w: T)
    returns (c: T, ys: seq<Action<T>>)
    requires Sized(s) && HeldOn(s) && !NoSpareStore(s, xs) && v != w
    ensures SameShape(xs, ys) && !AllIntact(Recharge(s, c), ys)
    decreases xs
  {
    if !Clear(s, xs[0]) {
      c := BreakNow(s, v, w);
      ys := xs;
      SameShapeSelf(xs);
    } else {
      var c', zs := SpareStoreBreaks(Exec(s, xs[0]), xs[1..], v, w);
      var y;
      c, y := ShapeStep(s, xs[0], c');
      ys := [y] + zs;
      assert ys[1..] == zs;
    }
  }

  lemma {:induction false} SameShapeSelf<T>(xs: seq<Action<T>>)
    ensures SameShape(xs, xs)
    decreases xs
  {
    if xs != [] {
      SameShapeSelf(xs[1..]);
    }
  }

  /** The law of the table, for checked and unchecked writes: what Find handed out
      stays intact throughout a run, whatever values are put, exactly if no store of
      the run aims at a side that is held at that moment. */
  lemma IntactExactly<T>(s: State<T>, xs: seq<Action<T>>, v: T, w: T)
    requires Sized(s) && Intact(s) && HeldOn(s) && !s.writer.Claimed? && v != w
    ensures (forall ys | SameShape(xs, ys) :: AllIntact(s, ys)) <==> NoSpareStore(s, xs)
  {
    if NoSpareStore(s, xs) {
      forall ys | SameShape(xs, ys) ensures AllIntact(s, ys) {
        TwinsNoSpareStore(s, s, xs, ys);
        NoSpareStoreIntact(s, ys);
      }
    } else {
      var c, ys := SpareStoreBreaks(s, xs, v, w);
    }
  }

  // ------------------------------------------------------- clock-checked writes

  /** A write may still begin only while everything held is current; a write in
      progress aims away from everything held. */
  predicate HandleSafe<T(==)>(s: State<T>, h: Handle<T>)
    requires Sized(s) && h.key < |s.a|
  {
    && h.seen.on && At(s, h.onA, h.key) == h.seen
    && (s.prev < s.clock ==> h.onA == s.onA[h.key])
    && (s.writer.Claimed? && s.writer.key == h.key ==> h.onA == s.onA[h.key])
  }

  predicate Inv<T(==)>(s: State<T>)
    requires Sized(s)
  {
    && (!s.writer.Idle? ==> s.prev == s.clock)
    && s.prev <= s.clock
    && (forall h | h in s.held :: HandleSafe(s, h))
  }

  lemma StepInv<T>(s: State<T>, x: Action<T>)
    requires Sized(s) && Inv(s)
    requires (x.Begin? ==> x.check) && (x.ClockStep? ==> s.writer.Idle?)
    ensures Clear(s, x) && Inv(Exec(s, x))
  {
    var t := Exec(s, x);
    forall h | h in s.held ensures HandleSafe(s, h) {}
    forall h | h in t.held ensures HandleSafe(t, h) {
      assert h in s.held ==> HandleSafe(s, h);
    }
  }

  /** Disciplined writes never store into a side that is held. */
  lemma {:induction false} DisciplinedIsClear<T>(s: State<T>, xs: seq<Action<T>>)
    requires Sized(s) && Inv(s) && Disciplined(s, xs)
    ensures NoSpareStore(s, xs)
    decreases xs
  {
    if xs != [] {
      StepInv(s, xs[0]);
      DisciplinedIsClear(Exec(s, xs[0]), xs[1..]);
    }
  }

  /** So in every disciplined run no held record changes before the next Clock. */
  lemma HeldRecordsIntact<T>(s: State<T>, xs: seq<Action<T>>)
    requires Sized(s) && Inv(s) && Disciplined(s, xs)
    ensures AllIntact(s, xs) && Intact(Run(s, xs))
  {
    forall h | h in s.held ensures h.seen.on && At(s, h.onA, h.key) == h.seen {
      assert HandleSafe(s, h);
    }
    DisciplinedIsClear(s, xs);
    NoSpareStoreIntact(s, xs);
  }

  // ------------------------------------------------ an uncut write is a table write

  function View<T(==)>(s: State<T>): Abs<T>
    requires Sized(s)
  {
    Abs(map k: nat | k < |s.a| && Shown(s, k).on :: Shown(s, k).data, s.clock, s.prev)
  }

  function Shown<T(==)>(s: State<T>, k: nat): Record<T>
    requires Sized(s) && k < |s.a|
  {
    At(s, s.onA[k], k)
  }

  lemma StoreAndFlip<T>(s: State<T>, j: nat)
    requires Sized(s) && s.writer.Claimed? && j < |s.a|
    ensures var t := Exec(Exec(s, Store), Flip);
            && t.writer.Idle? && |t.a| == |s.a| && t.clock == s.clock && t.prev == s.prev
            && (j != s.writer.key ==> Shown(t, j) == Shown(s, j))
            && (j == s.writer.key ==>
                  match s.writer.change
                  case Put(v) => Shown(t, j) == Record(true, v)
                  case Drop => !Shown(t, j).on)
  {
  }

  lemma ContentsAfter<T>(s: State<T>, t: State<T>, k: nat)
    requires Sized(s) && Sized(t) && |t.a| == |s.a| && k < |s.a|
    requires forall j: nat | j < |s.a| && j != k :: Shown(t, j) == Shown(s, j)
    ensures View(t).contents ==
            if Shown(t, k).on then View(s).contents[k := Shown(t, k).data] else View(s).contents - {k}
  {
  }

  /** The three parts of a write, taken together, are the table's own Add or Del. */
  lemma WriteIsApply<T>(s: State<T>, k: nat, change: Change<T>, check: bool)
    requires Sized(s) && s.writer.Idle?
    ensures var t := Exec(Exec(Exec(s, Begin(k, change, check)), Store), Flip);
            && t.writer.Idle?
            && View(t) == Apply(View(s), |s.a|,
                                match change case Put(v) => AddOp(k, v, check) case Drop => DelOp(k, check))
  {
    var c := Exec(s, Begin(k, change, check));
    if c.writer.Claimed? {
      var t := Exec(Exec(c, Store), Flip);
      StoreAndFlip(c, k);
      forall j: nat | j < |s.a| && j != k ensures Shown(t, j) == Shown(s, j) {
        StoreAndFlip(c, j);
      }
      ContentsAfter(s, t, k);
    } else {
      assert k < |s.a| ==> !Admits(View(s), check);
    }
  }

  // ------------------------------------------ each half of the discipline is needed

  lemma Cons<T>(s: State<T>, x: Action<T>, xs: seq<Action<T>>)
    requires Sized(s)
    ensures NoSpareStore(s, [x] + xs) <==> Clear(s, x) && NoSpareStore(Exec(s, x), xs)
  {
    assert ([x] + xs)[1..] == xs;
  }

  lemma Three<T>(s: State<T>, k: nat, change: Change<T>, check: bool, xs: seq<Action<T>>)
    requires Sized(s) && s.writer.Idle? && k < |s.a| && (check ==> s.prev < s.clock)
    ensures var c := Exec(s, Begin(k, change, check));
            NoSpareStore(s, [Begin(k, change, check)] + ([Store] + ([Flip] + xs)))
            <==> !SpareHeld(s, k) && NoSpareStore(Exec(Exec(c, Store), Flip), xs)
  {
    var c := Exec(s, Begin(k, change, check));
    var d := Exec(c, Store);
    Cons(s, Begin(k, change, check), [Store] + ([Flip] + xs));
    Cons(c, Store, [Flip] + xs);
    Cons(d, Flip, xs);
    assert SpareHeld(c, k) == SpareHeld(s, k);
  }

  /** Two writes to a key without the clock test, as every caller in the data plane
      makes them: clear exactly if no record of the key is held before them. */
  lemma UncheckedPairExactly<T>(s: State<T>, k: nat, one: Change<T>, two: Change<T>)
    requires Sized(s) && s.writer.Idle? && k < |s.a|
    ensures NoSpareStore(s, [Begin(k, one, false)] + ([Store] + ([Flip] +
                            ([Begin(k, two, false)] + ([Store] + ([Flip] + []))))))
            <==> forall h | h in s.held :: h.key != k
  {
    var c := Exec(s, Begin(k, one, false));
    var t := Exec(Exec(c, Store), Flip);
    Three(s, k, one, false, [Begin(k, two, false)] + ([Store] + ([Flip] + [])));
    Three(t, k, two, false, []);
    assert t.held == s.held && t.onA[k] != s.onA[k];
    if h :| h in s.held && h.key == k {
      assert SpareHeld(s, k) || SpareHeld(t, k);
    }
  }

  /** A checked write cut by a Clock lets a second one through in the new period:
      clear exactly if the key shows nothing for the reader to find in between. */
  lemma CutWriteExactly<T>(s: State<T>, k: nat, one: Change<T>, two: Change<T>)
    requires Sized(s) && s.writer.Idle? && k < |s.a| && s.prev < s.clock
    ensures NoSpareStore(s, [Begin(k, one, true)] + ([ClockStep] + ([Look(k)] + ([Store] + ([Flip] +
                            ([Begin(k, two, true)] + ([Store] + ([Flip] + []))))))))
            <==> !Shown(s, k).on
  {
    var rest := [Begin(k, two, true)] + ([Store] + ([Flip] + []));
    var c := Exec(Exec(s, Begin(k, one, true)), ClockStep);
    var d := Exec(c, Look(k));
    var e := Exec(d, Store);
    var f := Exec(e, Flip);
    Cons(s, Begin(k, one, true), [ClockStep] + ([Look(k)] + ([Store] + ([Flip] + rest))));
    Cons(Exec(s, Begin(k, one, true)), ClockStep, [Look(k)] + ([Store] + ([Flip] + rest)));
    Cons(c, Look(k), [Store] + ([Flip] + rest));
    Cons(d, Store, [Flip] + rest);
    Cons(e, Flip, rest);
    Three(f, k, two, true, []);
    assert f.held == d.held && f.onA[k] != s.onA[k] && c.held == {};
    if Shown(s, k).on {
      assert Handle(s.onA[k], k, Shown(s, k)) in f.held;
      assert SpareHeld(f, k);
    }
  }

  // ------------------------------------------------------------------- two examples

  lemma Then<T>(s: State<T>, x: Action<T>, xs: seq<Action<T>>)
    requires Sized(s) && !AllIntact(Exec(s, x), xs)
    ensures !AllIntact(s, [x] + xs)
  {
    assert ([x] + xs)[1..] == xs;
  }

  /** One key that shows 7 on side A, the clock one ahead. */
  const SHOWN: State<int> :=
    State([Record(true, 7)], [Record(false, 0)], [true], 1, 0, Idle, {})

  /** A held 7 is overwritten by the second of two unchecked writes. */
  lemma UncheckedWritesOverwrite()
    ensures !AllIntact(Exec(SHOWN, Look(0)),
                       [Begin(0, Put(8), false)] + ([Store] + ([Flip] + ([Begin(0, Put(9), false)] + ([Store] + [])))))
  {
    var s := Exec(SHOWN, Look(0));
    var t := Exec(Exec(Exec(s, Begin(0, Put(8), false)), Store), Flip);
    var u := Exec(t, Begin(0, Put(9), false));
    assert Handle(true, 0, Record(true, 7)) in Exec(u, Store).held;
    Then(u, Store, []);
    Then(t, Begin(0, Put(9), false), [Store] + []);
    var rest := [Begin(0, Put(9), false)] + ([Store] + []);
    Then(Exec(Exec(s, Begin(0, Put(8), false)), Store), Flip, rest);
    Then(Exec(s, Begin(0, Put(8), false)), Store, [Flip] + rest);
    Then(s, Begin(0, Put(8), false), [Store] + ([Flip] + rest));
  }

  /** A checked write cut by a Clock, and one more in the new period, overwrite a 7
      found between them. */
  lemma CutWriteOverwrites()
    ensures !AllIntact(Exec(Exec(Exec(SHOWN, Begin(0, Put(8), true)), ClockStep), Look(0)),
                       [Store] + ([Flip] + ([Begin(0, Put(9), true)] + ([Store] + []))))
  {
    var s := Exec(Exec(Exec(SHOWN, Begin(0, Put(8), true)), ClockStep), Look(0));
    var t := Exec(Exec(s, Store), Flip);
    var u := Exec(t, Begin(0, Put(9), true));
    assert Handle(true, 0, Record(true, 7)) in Exec(u, Store).held;
    Then(u, Store, []);
    Then(t, Begin(0, Put(9), true), [Store] + []);
    var rest := [Begin(0, Put(9), true)] + ([Store] + []);
    Then(Exec(s, Store), Flip, rest);
    Then(s, Store, [Flip] + rest);
  }
}
