/** A GTP-C message end to end: built, received, parsed and walked, it leaves the
    last information element of each number in the field of that number. */
module GtpcReceive {
  import opened Octets
  import Digits
  import opened GtpcWire
  import opened Wrappers
  import opened GtpcPacket
  import opened GtpcState
  import opened GtpcTree

  // -------------------------------------------------------------- elements by number

  /** Sizes of an encoded element. */
  datatype Sizes = UpTo(max: nat) | Either(small: nat, large: nat) {
    predicate Has(n: nat) {
      match this
      case UpTo(max) => n <= max
      case Either(small, large) => n == small || n == large
    }

    function Max(): nat {
      match this
      case UpTo(max) => max
      case Either(small, large) => if small < large then large else small
    }
  }

  /** The last element of this number and one of these sizes. */
  function LastOf(ies: seq<Ie>, kind: Byte, sizes: Sizes): (r: Option<seq<Byte>>) {
    if ies == [] then None
    else
      var later := LastOf(ies[1..], kind, sizes);
      if later.Some? then later
      else if ies[0].kind == kind && sizes.Has(|Encode(ies[0])|) then Some(Encode(ies[0]))
      else None
  }

  /** The last one among the leaves of a message. */
  function LastLeaf(ns: seq<Node>, kind: Byte, sizes: Sizes): (r: Option<seq<Byte>>) {
    if ns == [] then None
    else
      var later := LastLeaf(ns[1..], kind, sizes);
      if later.Some? || ns[0].Context? then later else LastOf([ns[0].ie], kind, sizes)
  }

  /** The last one among the children of all Bearer Contexts of a message. */
  function LastNested(ns: seq<Node>, kind: Byte, sizes: Sizes): (r: Option<seq<Byte>>) {
    if ns == [] then None
    else
      var later := LastNested(ns[1..], kind, sizes);
      if later.Some? || ns[0].Leaf? then later else LastOf(ns[0].kids, kind, sizes)
  }

  /** Whether there is a Bearer Context; it leaves no bytes. */
  function AnyContext(ns: seq<Node>): (r: Option<seq<Byte>>) {
    if exists n | n in ns :: n.Context? then Some([]) else None
  }

  lemma {:induction false} OfSize(ies: seq<Ie>, kind: Byte, sizes: Sizes)
    ensures LastOf(ies, kind, sizes).Some? ==> |LastOf(ies, kind, sizes).value| <= sizes.Max()
  {
    if ies != [] {
      OfSize(ies[1..], kind, sizes);
    }
  }

  lemma {:induction false} LeafSize(ns: seq<Node>, kind: Byte, sizes: Sizes)
    ensures LastLeaf(ns, kind, sizes).Some? ==> |LastLeaf(ns, kind, sizes).value| <= sizes.Max()
  {
    if ns != [] {
      LeafSize(ns[1..], kind, sizes);
      if ns[0].Leaf? {
        OfSize([ns[0].ie], kind, sizes);
      }
    }
  }

  lemma {:induction false} NestedSize(ns: seq<Node>, kind: Byte, sizes: Sizes)
    ensures LastNested(ns, kind, sizes).Some? ==> |LastNested(ns, kind, sizes).value| <= sizes.Max()
  {
    if ns != [] {
      NestedSize(ns[1..], kind, sizes);
      if ns[0].Context? {
        OfSize(ns[0].kids, kind, sizes);
      }
    }
  }

  // --------------------------------------------------- the walks' tables by number

  /** A field that takes elements of this number and these sizes, and no others. */
  ghost predicate Takes(f: Field, sizes: Sizes) {
    sizes.Max() <= SizeOf(f) && forall n: nat :: Accepts(f, n) <==> sizes.Has(n)
  }

  ghost predicate RootRow(f: Field, kind: Byte, sizes: Sizes) {
    !Nested(f) && f != BearerContext && Takes(f, sizes) && forall k: Byte :: RootField(k) == Some(f) <==> k == kind
  }

  ghost predicate NestedRow(f: Field, kind: Byte, sizes: Sizes) {
    Nested(f) && Takes(f, sizes) && forall k: Byte :: BearerField(k) == Some(f) <==> k == kind
  }

  /** The last of two. */
  function Later(early: Option<seq<Byte>>, late: Option<seq<Byte>>): Option<seq<Byte>> {
    if late.Some? then late else early
  }

  lemma StepLast(fs: seq<Feed>, g: Option<Field>, ie: Ie, f: Field, kind: Byte, sizes: Sizes)
    requires Takes(f, sizes) && (g == Some(f) <==> ie.kind == kind)
    ensures Last(FeedStep(fs, g, ie), f) == Later(Last(fs, f), LastOf([ie], kind, sizes))
  {
    if g.Some? {
      LastSnoc(fs, Feed(g.value, Encode(ie)), f);
    }
  }

  lemma {:induction false} KidsLast(fs: seq<Feed>, kids: seq<Ie>, f: Field, kind: Byte, sizes: Sizes)
    requires NestedRow(f, kind, sizes)
    ensures Last(FeedKids(fs, kids), f) == Later(Last(fs, f), LastOf(kids, kind, sizes))
    decreases |kids|
  {
    if kids != [] {
      var g := BearerField(kids[0].kind);
      StepLast(fs, g, kids[0], f, kind, sizes);
      KidsLast(FeedStep(fs, g, kids[0]), kids[1..], f, kind, sizes);
    }
  }

  /** A root field's last feed is the last leaf of its number. */
  lemma {:induction false} RootLast(fs: seq<Feed>, ns: seq<Node>, f: Field, kind: Byte, sizes: Sizes)
    requires RootRow(f, kind, sizes)
    ensures Last(Feeds(fs, ns), f) == Later(Last(fs, f), LastLeaf(ns, kind, sizes))
    decreases |ns|
  {
    if ns != [] {
      if ns[0].Leaf? {
        StepLast(fs, RootField(ns[0].ie.kind), ns[0].ie, f, kind, sizes);
      } else {
        NeverMixed(fs, ns[0], f);
      }
      RootLast(FeedNode(fs, ns[0]), ns[1..], f, kind, sizes);
    }
  }

  /** A nested field's is the last child of its number. */
  lemma {:induction false} NestedLast(fs: seq<Feed>, ns: seq<Node>, f: Field, kind: Byte, sizes: Sizes)
    requires NestedRow(f, kind, sizes)
    ensures Last(Feeds(fs, ns), f) == Later(Last(fs, f), LastNested(ns, kind, sizes))
    decreases |ns|
  {
    if ns != [] {
      if ns[0].Leaf? {
        NeverMixed(fs, ns[0], f);
      } else {
        LastSnoc(fs, Feed(BearerContext, []), f);
        KidsLast(fs + [Feed(BearerContext, [])], ns[0].kids, f, kind, sizes);
      }
      NestedLast(FeedNode(fs, ns[0]), ns[1..], f, kind, sizes);
    }
  }

  lemma {:induction false} ContextLast(fs: seq<Feed>, ns: seq<Node>)
    ensures Last(Feeds(fs, ns), BearerContext) == Later(Last(fs, BearerContext), AnyContext(ns))
    decreases |ns|
  {
    if ns != [] {
      assert ns[0] in ns && forall n | n in ns :: n == ns[0] || n in ns[1..];
      if ns[0].Leaf? {
        NeverMixed(fs, ns[0], BearerContext);
      } else {
        LastSnoc(fs, Feed(BearerContext, []), BearerContext);
        FeedKidsLast(fs + [Feed(BearerContext, [])], ns[0].kids, BearerContext);
      }
      ContextLast(FeedNode(fs, ns[0]), ns[1..]);
    }
  }

  // ---------------------------------------------------------------------- end to end

  /** What a message leaves of one field, `last` being the last element for it. */
  predicate Left(st: State, r: State, f: Field, last: Option<seq<Byte>>)
    requires st.Valid() && r.Valid()
  {
    && (f in r.flags <==> f in st.flags || last.Some?)
    && (if last.Some? then last.value <= r.fields[f] else r.fields[f] == st.fields[f])
  }

  lemma LeftBy(st: State, r: State, f: Field, fs: seq<Feed>)
    requires st.Valid() && r.Valid() && Holds(st, r, fs, f)
    requires Last(fs, f).Some? ==> |Last(fs, f).value| <= SizeOf(f)
    ensures Left(st, r, f, Last(fs, f))
  {
    LastOnTop(st.fields[f], fs, f);
  }

  /** The element a field stands for: its number and sizes, at the root of a message or
      below a Bearer Context. */
  datatype Element = AtRoot(kind: Byte, sizes: Sizes) | Below(kind: Byte, sizes: Sizes) | Whole

  function ElementOf(f: Field): Element {
    match f
    case Imsi => AtRoot(1, UpTo(12))
    case Cause => AtRoot(2, Either(6, 10))
    case Recovery => AtRoot(3, Either(5, 5))
    case AmbrRoot => AtRoot(72, Either(12, 12))
    case EbiRoot => AtRoot(73, Either(5, 5))
    case Mei => AtRoot(75, UpTo(12))
    case Msisdn => AtRoot(76, UpTo(10))
    case Pco => AtRoot(78, UpTo(257))
    case Paa => AtRoot(79, UpTo(26))
    case BqosRoot => AtRoot(80, Either(26, 26))
    case Rat => AtRoot(82, Either(5, 5))
    case CTeid => AtRoot(87, Either(13, 25))
    case Charging => AtRoot(94, Either(8, 8))
    case Pdn => AtRoot(99, Either(5, 5))
    case ApnRestriction => AtRoot(127, Either(5, 5))
    case AmbrBearer => Below(72, Either(12, 12))
    case EbiBearer => Below(73, Either(5, 5))
    case BqosBearer => Below(80, Either(26, 26))
    case UTeid => Below(87, Either(13, 25))
    case BearerContext => Whole
  }

  /** The last element for a field in a message. */
  function LastFor(ns: seq<Node>, f: Field): Option<seq<Byte>> {
    match ElementOf(f)
    case AtRoot(kind, sizes) => LastLeaf(ns, kind, sizes)
    case Below(kind, sizes) => LastNested(ns, kind, sizes)
    case Whole => AnyContext(ns)
  }

  /** The callbacks and the size checks follow that table. */
  lemma TableHolds(f: Field)
    ensures match ElementOf(f)
            case AtRoot(kind, sizes) => RootRow(f, kind, sizes)
            case Below(kind, sizes) => NestedRow(f, kind, sizes)
            case Whole => f == BearerContext
  {
  }

  /** The last feed of every field is the last element for it in the message. */
  lemma LastByNumber(ns: seq<Node>, f: Field)
    ensures Last(Feeds([], ns), f) == LastFor(ns, f)
    ensures LastFor(ns, f).Some? ==> |LastFor(ns, f).value| <= SizeOf(f)
  {
    TableHolds(f);
    match ElementOf(f)
    case AtRoot(kind, sizes) =>
      RootLast([], ns, f, kind, sizes);
      LeafSize(ns, kind, sizes);
    case Below(kind, sizes) =>
      NestedLast([], ns, f, kind, sizes);
      NestedSize(ns, kind, sizes);
    case Whole =>
      ContextLast([], ns);
  }

  /** Build a message from up to 255 well-formed nodes, receive it, parse it and walk
      it: the walk succeeds, every field shows the last element of its number on top,
      and is the overlay of all elements fed to it. */
  method Receive(kind: Byte, ns: seq<Node>, cap: nat, pad: seq<Byte>, behind: seq<Byte>, st: State)
    returns (ps: ParseState, ok: bool)
    requires Supported(kind) && 12 < cap <= 0xffff && |pad| >= cap + 3 && |behind| >= 300 && st.Valid()
    requires |ns| <= MAX_ITEMS && AllSound(ns) && HeaderLen(kind) + |EncodeAll(IesOfNodes(ns))| < cap
    ensures ok && State(ps.flags, ps.fields).Valid()
    ensures forall f: Field :: Left(st, State(ps.flags, ps.fields), f, LastFor(ns, f))
    ensures forall f: Field :: Holds(st, State(ps.flags, ps.fields), Feeds([], ns), f)
  {
    var ies, h := IesOfNodes(ns), HeaderLen(kind);
    var q := RoundTrip(kind, ies, cap, pad);
    var mem := q.bytes[..] + behind;
    assert q.offset == h + |EncodeAll(ies)|;
    assert At(mem, h, EncodeAll(ies)) by {
      assert mem[h..q.offset] == q.Body();
      AtSlice(mem, h, EncodeAll(ies));
    }
    ItemsEncoded(mem, h, ns, []);
    ps := new ParseState(mem, st);
    ok := ps.Iterate(q.items);
    MatchTree(mem, [], [], h, ns);
    MatchFits(mem, ps.stored, Feeds([], ns));
    ghost var r := State(ps.flags, ps.fields);
    forall f: Field ensures Holds(st, r, Feeds([], ns), f) && Left(st, r, f, LastFor(ns, f)) {
      LastWins(mem, st, ps.stored, Feeds([], ns), f);
      LastByNumber(ns, f);
      LeftBy(st, r, f, Feeds([], ns));
    }
  }

  // ------------------------------------------------------------- subscriber numbers

  /** The IE gtpc_imsi_set, gtpc_msisdn_set and gtpc_mei_set build. */
  function NumberIe(kind: Byte, len: Word, n: Digits.U64): Ie {
    Ie(kind, 0, Digits.Packed(Digits.Dec(n), len))
  }

  predicate NumberField(f: Field, kind: Byte, len: Word) {
    || (f == Imsi && kind == 1 && len == 8)
    || (f == Msisdn && kind == 76 && len == 6)
    || (f == Mei && kind == 75 && len == 8)
  }

  /** A subscriber number that is the last of its kind in a message is the number
      read from the field after the walk. */
  method ReceiveNumber(msg: Byte, ns: seq<Node>, cap: nat, pad: seq<Byte>, behind: seq<Byte>, st: State,
                       f: Field, kind: Byte, len: Word, n: Digits.U64) returns (r: Digits.U64)
    requires Supported(msg) && 12 < cap <= 0xffff && |pad| >= cap + 3 && |behind| >= 300 && st.Valid()
    requires |ns| <= MAX_ITEMS && AllSound(ns) && HeaderLen(msg) + |EncodeAll(IesOfNodes(ns))| < cap
    requires NumberField(f, kind, len) && |Digits.Dec(n)| <= 2 * len
    requires LastLeaf(ns, kind, UpTo(4 + len)) == Some(Encode(NumberIe(kind, len, n)))
    ensures r == n
  {
    var ps, ok := Receive(msg, ns, cap, pad, behind, st);
    assert Left(st, State(ps.flags, ps.fields), f, LastFor(ns, f));
    var digits := ps.fields[f][4..];
    assert digits == Digits.Packed(Digits.Dec(n), len);
    Digits.ReadsBack(n, len);
    assert digits[..len] == digits;
    r := Digits.Get(digits, len, false);
  }
}
