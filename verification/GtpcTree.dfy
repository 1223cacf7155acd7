/** Well-formed GTP-C messages: walked, they feed each field with the information
    elements that stand for it, in wire order. */
module GtpcTree {
  import opened Octets
  import opened GtpcWire
  import opened Wrappers
  import opened GtpcPacket
  import opened GtpcState

  /** A well-formed root IE: a leaf, or a Bearer Context around other IEs. */
  datatype Node = Leaf(ie: Ie) | Context(inst: Byte, kids: seq<Ie>)

  function IeOf(n: Node): Ie {
    match n
    case Leaf(ie) => ie
    case Context(inst, kids) => Ie(93, inst, EncodeAll(kids))
  }

  predicate Sound(n: Node) {
    match n
    case Leaf(ie) => ie.kind != 93
    case Context(_, kids) => 1 <= |kids| <= 255
  }

  predicate AllSound(ns: seq<Node>) {
    ns == [] || (Sound(ns[0]) && AllSound(ns[1..]))
  }

  function IesOfNodes(ns: seq<Node>): (r: seq<Ie>)
    ensures |r| == |ns|
  {
    if ns == [] then [] else [IeOf(ns[0])] + IesOfNodes(ns[1..])
  }

  // ------------------------------------------------------------- bytes in the memory

  /** Bytes that lie at a position of the memory. */
  ghost predicate At(mem: seq<Byte>, at: nat, b: seq<Byte>)
    decreases |b|
  {
    at <= |mem| && (b == [] || (at < |mem| && mem[at] == b[0] && At(mem, at + 1, b[1..])))
  }

  lemma {:induction false} AtSlice(mem: seq<Byte>, at: nat, b: seq<Byte>)
    ensures At(mem, at, b) <==> at + |b| <= |mem| && mem[at..at + |b|] == b
    decreases |b|
  {
    if b != [] && at < |mem| {
      AtSlice(mem, at + 1, b[1..]);
      if at + |b| <= |mem| {
        var c := mem[at..at + |b|];
        assert c == [mem[at]] + mem[at + 1..at + |b|] && b == [b[0]] + b[1..];
        assert c == b ==> c[0] == b[0] && c[1..] == b[1..];
        assert c[1..] == mem[at + 1..at + |b|];
      }
    }
  }

  lemma AtSplit(mem: seq<Byte>, at: nat, a: seq<Byte>, b: seq<Byte>)
    requires At(mem, at, a + b)
    ensures At(mem, at, a) && At(mem, at + |a|, b)
  {
    AtSlice(mem, at, a + b);
    var c := mem[at..at + |a| + |b|];
    assert c[..|a|] == a && c[|a|..] == b;
    assert mem[at..at + |a|] == c[..|a|] && mem[at + |a|..at + |a| + |b|] == c[|a|..];
    AtSlice(mem, at, a);
    AtSlice(mem, at + |a|, b);
  }

  /** The first node and the others, in memory. */
  lemma TreeSplit(mem: seq<Byte>, at: nat, ns: seq<Node>)
    requires ns != [] && At(mem, at, EncodeAll(IesOfNodes(ns)))
    ensures var e, b := Encode(IeOf(ns[0])), EncodeAll(IesOfNodes(ns[1..]));
            At(mem, at, e) && At(mem, at + |e|, b) && |e| + |b| == |EncodeAll(IesOfNodes(ns))|
  {
    var e, b := Encode(IeOf(ns[0])), EncodeAll(IesOfNodes(ns[1..]));
    assert IesOfNodes(ns)[1..] == IesOfNodes(ns[1..]);
    AtSplit(mem, at, e, b);
  }

  lemma KidsSplit(mem: seq<Byte>, at: nat, kids: seq<Ie>)
    requires kids != [] && At(mem, at, EncodeAll(kids))
    ensures At(mem, at, Encode(kids[0])) && At(mem, at + |Encode(kids[0])|, EncodeAll(kids[1..]))
  {
    AtSplit(mem, at, Encode(kids[0]), EncodeAll(kids[1..]));
  }

  /** The header of an encoded IE in memory. */
  lemma EncodedAt(mem: seq<Byte>, at: nat, ie: Ie)
    requires At(mem, at, Encode(ie)) && |ie.value| <= 65535
    ensures at + |Encode(ie)| <= |mem| && WordAt(mem, at + 1) == |ie.value| && At(mem, at + 4, ie.value)
  {
    var e := Encode(ie);
    AtSlice(mem, at, e);
    var c := mem[at..at + |e|];
    assert mem[at + 1] == c[1] && mem[at + 2] == c[2];
    WordOfBe16(mem, at + 1, |ie.value|);
    assert e == e[..4] + ie.value;
    AtSplit(mem, at, e[..4], ie.value);
  }

  // ----------------------------------------------------------- where the walks store

  function NodeStore(es: seq<Event>, n: Node, at: nat): seq<Event> {
    match n
    case Leaf(ie) => Step(es, RootField(ie.kind), Item(ie.kind, |Encode(ie)|, at))
    case Context(_, kids) => StoreKids(es + [ContextEvent(at)], ItemsOf(kids, at + 4))
  }

  function TreeStore(es: seq<Event>, ns: seq<Node>, at: nat): seq<Event>
    decreases |ns|
  {
    if ns == [] then es
    else TreeStore(NodeStore(es, ns[0], at), ns[1..], at + |Encode(IeOf(ns[0]))|)
  }

  /** The children of a chain of items are those items. */
  lemma {:induction false} ChildrenOfChain(mem: seq<Byte>, base: nat, len: nat, cur: nat, items: seq<Item>,
                                           acc: seq<Item>)
    requires base + len + 300 <= |mem| && len <= 65535
    requires 1 <= |items| <= MAX_ITEMS - |acc| && Chain(mem, items, base + cur, base + len)
    ensures Children(mem, base, len, cur, acc) == (true, acc + items)
    decreases |items|
  {
    var n := items[0].len;
    ChainEnd(mem, items[1..], base + cur + n, base + len);
    var acc' := acc + [items[0]];
    assert (cur + n) % 0x1_0000 == cur + n;
    if |items| == 1 {
      assert acc + items == acc';
    } else {
      ChildrenOfChain(mem, base, len, cur + n, items[1..], acc');
      assert acc' + items[1..] == acc + items;
    }
  }

  lemma BearerChain(mem: seq<Byte>, off: nat, kids: seq<Ie>, n: nat)
    requires 1 <= |kids| <= MAX_ITEMS && n == |EncodeAll(kids)| && At(mem, off + 4, EncodeAll(kids))
    requires off + 4 + n + 300 <= |mem| && off + 4 + n < 0x1_0000
    requires WordAt(mem, off + 1) == n
    ensures Bearer(mem, off) == (true, ItemsOf(kids, off + 4))
  {
    assert Chain(mem, ItemsOf(kids, off + 4), off + 4, off + 4 + n) by {
      AtSlice(mem, off + 4, EncodeAll(kids));
      EncodedIsChain(mem, kids, off + 4, off + 4 + n);
    }
    var none: seq<Item> := [];
    ChildrenOfChain(mem, off + 4, n, 0, ItemsOf(kids, off + 4), none);
    assert none + ItemsOf(kids, off + 4) == ItemsOf(kids, off + 4);
  }

  lemma RootEncoded(mem: seq<Byte>, off: nat, n: Node, es: seq<Event>)
    requires Sound(n) && At(mem, off, Encode(IeOf(n)))
    requires off + |Encode(IeOf(n))| < 0x1_0000 && off + |Encode(IeOf(n))| + 300 <= |mem|
    ensures var it := Item(IeOf(n).kind, |Encode(IeOf(n))|, off);
            Readable(mem, it) && Root(mem, it, es) == (true, NodeStore(es, n, off))
  {
    if n.Context? {
      EncodedAt(mem, off, IeOf(n));
      BearerChain(mem, off, n.kids, |EncodeAll(n.kids)|);
    }
  }

  lemma ItemsCons(mem: seq<Byte>, it: Item, items: seq<Item>, es: seq<Event>)
    requires Readable(mem, it) && Root(mem, it, es).0 && AllReadable(mem, items)
    ensures AllReadable(mem, [it] + items)
    ensures Items(mem, [it] + items, es) == Items(mem, items, Root(mem, it, es).1)
  {
    assert ([it] + items)[1..] == items;
  }

  lemma NodeItems(ns: seq<Node>, at: nat)
    requires ns != []
    ensures var ie, n := IeOf(ns[0]), |Encode(IeOf(ns[0]))|;
            ItemsOf(IesOfNodes(ns), at) == [Item(ie.kind, n, at)] + ItemsOf(IesOfNodes(ns[1..]), at + n)
  {
    assert IesOfNodes(ns)[1..] == IesOfNodes(ns[1..]);
  }

  lemma ItemsStep(mem: seq<Byte>, off: nat, ns: seq<Node>, es: seq<Event>, rest: seq<Item>)
    requires ns != [] && Sound(ns[0]) && At(mem, off, Encode(IeOf(ns[0])))
    requires off + |Encode(IeOf(ns[0]))| < 0x1_0000 && off + |Encode(IeOf(ns[0]))| + 300 <= |mem|
    requires rest == ItemsOf(IesOfNodes(ns[1..]), off + |Encode(IeOf(ns[0]))|) && AllReadable(mem, rest)
    ensures AllReadable(mem, ItemsOf(IesOfNodes(ns), off))
    ensures Items(mem, ItemsOf(IesOfNodes(ns), off), es) == Items(mem, rest, NodeStore(es, ns[0], off))
  {
    var it := Item(IeOf(ns[0]).kind, |Encode(IeOf(ns[0]))|, off);
    RootEncoded(mem, off, ns[0], es);
    ItemsCons(mem, it, rest, es);
    NodeItems(ns, off);
  }

  /** Walking a well-formed message stores what its nodes stand for, in order. */
  lemma {:induction false} ItemsEncoded(mem: seq<Byte>, off: nat, ns: seq<Node>, es: seq<Event>)
    requires AllSound(ns) && At(mem, off, EncodeAll(IesOfNodes(ns)))
    requires off + |EncodeAll(IesOfNodes(ns))| < 0x1_0000 && off + |EncodeAll(IesOfNodes(ns))| + 300 <= |mem|
    ensures AllReadable(mem, ItemsOf(IesOfNodes(ns), off))
    ensures Items(mem, ItemsOf(IesOfNodes(ns), off), es) == (true, TreeStore(es, ns, off))
    decreases |ns|
  {
    if ns != [] {
      var n := |Encode(IeOf(ns[0]))|;
      TreeSplit(mem, off, ns);
      ItemsEncoded(mem, off + n, ns[1..], NodeStore(es, ns[0], off));
      ItemsStep(mem, off, ns, es, ItemsOf(IesOfNodes(ns[1..]), off + n));
    }
  }

  // -------------------------------------------------------- what the message stands for

  /** A field and the bytes an IE brings to it. */
  datatype Feed = Feed(field: Field, data: seq<Byte>)

  function FeedStep(fs: seq<Feed>, f: Option<Field>, ie: Ie): seq<Feed> {
    if f.Some? && Accepts(f.value, |Encode(ie)|) then fs + [Feed(f.value, Encode(ie))] else fs
  }

  function FeedKids(fs: seq<Feed>, kids: seq<Ie>): seq<Feed>
    decreases |kids|
  {
    if kids == [] then fs else FeedKids(FeedStep(fs, BearerField(kids[0].kind), kids[0]), kids[1..])
  }

  function FeedNode(fs: seq<Feed>, n: Node): seq<Feed> {
    match n
    case Leaf(ie) => FeedStep(fs, RootField(ie.kind), ie)
    case Context(_, kids) => FeedKids(fs + [Feed(BearerContext, [])], kids)
  }

  /** The feeds of a message, root elements and nested ones in wire order. */
  function Feeds(fs: seq<Feed>, ns: seq<Node>): seq<Feed>
    decreases |ns|
  {
    if ns == [] then fs else Feeds(FeedNode(fs, ns[0]), ns[1..])
  }

  /** The last bytes fed to a field. */
  function Last(fs: seq<Feed>, f: Field): Option<seq<Byte>> {
    if fs == [] then None
    else if fs[|fs| - 1].field == f then Some(fs[|fs| - 1].data)
    else Last(fs[..|fs| - 1], f)
  }

  lemma LastSnoc(fs: seq<Feed>, fd: Feed, f: Field)
    ensures Last(fs + [fd], f) == if fd.field == f then Some(fd.data) else Last(fs, f)
  {
    assert (fs + [fd])[..|fs|] == fs;
  }

  /** The fields below a Bearer Context. */
  predicate Nested(f: Field) {
    f in {UTeid, BqosBearer, EbiBearer, AmbrBearer}
  }

  lemma FeedStepLast(fs: seq<Feed>, g: Option<Field>, ie: Ie, f: Field)
    requires g != Some(f)
    ensures Last(FeedStep(fs, g, ie), f) == Last(fs, f)
  {
    if g.Some? {
      LastSnoc(fs, Feed(g.value, Encode(ie)), f);
    }
  }

  lemma {:induction false} FeedKidsLast(fs: seq<Feed>, kids: seq<Ie>, f: Field)
    requires !Nested(f)
    ensures Last(FeedKids(fs, kids), f) == Last(fs, f)
    decreases |kids|
  {
    if kids != [] {
      FeedStepLast(fs, BearerField(kids[0].kind), kids[0], f);
      FeedKidsLast(FeedStep(fs, BearerField(kids[0].kind), kids[0]), kids[1..], f);
    }
  }

  /** Never mixed: a leaf leaves the nested fields and the context flag alone, and a
      Bearer Context every other field. */
  lemma NeverMixed(fs: seq<Feed>, n: Node, f: Field)
    requires if n.Leaf? then Nested(f) || f == BearerContext else !Nested(f) && f != BearerContext
    ensures Last(FeedNode(fs, n), f) == Last(fs, f)
  {
    if n.Leaf? {
      FeedStepLast(fs, RootField(n.ie.kind), n.ie, f);
    } else {
      LastSnoc(fs, Feed(BearerContext, []), f);
      FeedKidsLast(fs + [Feed(BearerContext, [])], n.kids, f);
    }
  }

  // ---------------------------------------------------------------- stores bring feeds

  ghost predicate Brings(mem: seq<Byte>, e: Event, fd: Feed) {
    e.field == fd.field && e.item.len == |fd.data| <= SizeOf(fd.field) && At(mem, e.item.off, fd.data)
  }

  /** The stores bring the bytes of the feeds, one by one. */
  ghost predicate Match(mem: seq<Byte>, es: seq<Event>, fs: seq<Feed>)
    decreases |es|
  {
    if es == [] then fs == []
    else
      var n := |es| - 1;
      |fs| == n + 1 && Brings(mem, es[n], fs[n]) && Match(mem, es[..n], fs[..n])
  }

  lemma MatchSnoc(mem: seq<Byte>, es: seq<Event>, fs: seq<Feed>, e: Event, fd: Feed)
    requires Match(mem, es, fs) && Brings(mem, e, fd)
    ensures Match(mem, es + [e], fs + [fd])
  {
    assert (es + [e])[..|es|] == es && (fs + [fd])[..|fs|] == fs;
    assert |es| == |fs|;
  }

  lemma MatchStep(mem: seq<Byte>, es: seq<Event>, fs: seq<Feed>, f: Option<Field>, at: nat, ie: Ie)
    requires Match(mem, es, fs) && At(mem, at, Encode(ie))
    ensures Match(mem, Step(es, f, Item(ie.kind, |Encode(ie)|, at)), FeedStep(fs, f, ie))
  {
    if f.Some? && Accepts(f.value, |Encode(ie)|) {
      AcceptedFits(f.value, |Encode(ie)|);
      MatchSnoc(mem, es, fs, Event(f.value, Item(ie.kind, |Encode(ie)|, at)), Feed(f.value, Encode(ie)));
    }
  }

  lemma {:induction false} MatchKids(mem: seq<Byte>, es: seq<Event>, fs: seq<Feed>, at: nat, kids: seq<Ie>)
    requires Match(mem, es, fs) && At(mem, at, EncodeAll(kids))
    ensures Match(mem, StoreKids(es, ItemsOf(kids, at)), FeedKids(fs, kids))
    decreases |kids|
  {
    if kids != [] {
      var n := |Encode(kids[0])|;
      var it, f := Item(kids[0].kind, n, at), BearerField(kids[0].kind);
      assert Match(mem, Step(es, f, it), FeedStep(fs, f, kids[0])) by {
        KidsSplit(mem, at, kids);
        MatchStep(mem, es, fs, f, at, kids[0]);
      }
      assert Match(mem, StoreKids(Step(es, f, it), ItemsOf(kids[1..], at + n)), FeedKids(fs, kids)) by {
        KidsSplit(mem, at, kids);
        MatchKids(mem, Step(es, f, it), FeedStep(fs, f, kids[0]), at + n, kids[1..]);
      }
      assert ItemsOf(kids, at)[1..] == ItemsOf(kids[1..], at + n);
    }
  }

  lemma MatchNode(mem: seq<Byte>, es: seq<Event>, fs: seq<Feed>, at: nat, n: Node)
    requires Match(mem, es, fs) && At(mem, at, Encode(IeOf(n))) && |IeOf(n).value| <= 65535
    ensures Match(mem, NodeStore(es, n, at), FeedNode(fs, n))
  {
    if n.Leaf? {
      MatchStep(mem, es, fs, RootField(n.ie.kind), at, n.ie);
    } else {
      EncodedAt(mem, at, IeOf(n));
      MatchSnoc(mem, es, fs, ContextEvent(at), Feed(BearerContext, []));
      MatchKids(mem, es + [ContextEvent(at)], fs + [Feed(BearerContext, [])], at + 4, n.kids);
    }
  }

  lemma {:induction false} MatchTree(mem: seq<Byte>, es: seq<Event>, fs: seq<Feed>, at: nat, ns: seq<Node>)
    requires Match(mem, es, fs)
    requires At(mem, at, EncodeAll(IesOfNodes(ns))) && |EncodeAll(IesOfNodes(ns))| <= 65535
    ensures Match(mem, TreeStore(es, ns, at), Feeds(fs, ns))
    decreases |ns|
  {
    if ns != [] {
      assert Match(mem, NodeStore(es, ns[0], at), FeedNode(fs, ns[0])) by {
        TreeSplit(mem, at, ns);
        MatchNode(mem, es, fs, at, ns[0]);
      }
      var n, b := |Encode(IeOf(ns[0]))|, EncodeAll(IesOfNodes(ns[1..]));
      assert At(mem, at + n, b) && |b| <= 65535 by {
        TreeSplit(mem, at, ns);
      }
      MatchTree(mem, NodeStore(es, ns[0], at), FeedNode(fs, ns[0]), at + n, ns[1..]);
    }
  }

  lemma {:induction false} MatchFits(mem: seq<Byte>, es: seq<Event>, fs: seq<Feed>)
    requires Match(mem, es, fs)
    ensures Fits(mem, es)
    decreases |es|
  {
    if es != [] {
      var n := |es| - 1;
      MatchFits(mem, es[..n], fs[..n]);
      AtSlice(mem, es[n].item.off, fs[n].data);
      assert forall e | e in es :: e == es[n] || e in es[..n];
    }
  }

  // --------------------------------------------------------------------- the last wins

  /** A field after a list of feeds: each feed overlays the front and leaves what
      earlier ones left behind it. */
  function Overlay(base: seq<Byte>, fs: seq<Feed>, f: Field): (r: seq<Byte>)
    ensures |r| == |base|
  {
    if fs == [] then base
    else
      var fd, below := fs[|fs| - 1], Overlay(base, fs[..|fs| - 1], f);
      if fd.field == f && |fd.data| <= |below| then fd.data + below[|fd.data|..] else below
  }

  lemma OverlaySnoc(base: seq<Byte>, fs: seq<Feed>, fd: Feed, f: Field)
    ensures var below := Overlay(base, fs, f);
            Overlay(base, fs + [fd], f) ==
            if fd.field == f && |fd.data| <= |below| then fd.data + below[|fd.data|..] else below
  {
    assert (fs + [fd])[..|fs|] == fs;
  }

  /** The flag of a field is up exactly if it was or something was fed to it, and
      the field is the overlay of everything fed to it. */
  predicate Holds(st: State, r: State, fs: seq<Feed>, f: Field)
    requires st.Valid() && r.Valid()
  {
    && (f in r.flags <==> f in st.flags || Last(fs, f).Some?)
    && r.fields[f] == Overlay(st.fields[f], fs, f)
  }

  /** The last feed lies on top, and is all of the field if it has its size; a field
      nothing was fed to keeps its bytes. */
  lemma {:induction false} LastOnTop(base: seq<Byte>, fs: seq<Feed>, f: Field)
    ensures var r, last := Overlay(base, fs, f), Last(fs, f);
            && (last.Some? && |last.value| <= |base| ==> last.value <= r)
            && (last.Some? && |last.value| == |base| ==> r == last.value)
            && (last.None? ==> r == base)
  {
    if fs != [] && fs[|fs| - 1].field != f {
      LastOnTop(base, fs[..|fs| - 1], f);
    }
  }

  /** A shorter element after a full one shows the tail of the full one. */
  lemma TailShows(base: seq<Byte>, fs: seq<Feed>, f: Field, long: seq<Byte>, short: seq<Byte>)
    requires |short| <= |long| == |base|
    ensures Overlay(base, fs + [Feed(f, long)] + [Feed(f, short)], f) == short + long[|short|..]
  {
    OverlaySnoc(base, fs, Feed(f, long), f);
    OverlaySnoc(base, fs + [Feed(f, long)], Feed(f, short), f);
    assert long + Overlay(base, fs, f)[|long|..] == long;
  }

  lemma AppliedField(mem: seq<Byte>, st: State, e: Event, data: seq<Byte>, f: Field)
    requires st.Valid() && Fits(mem, [e]) && |data| == e.item.len && At(mem, e.item.off, data)
    ensures |data| <= SizeOf(e.field)
    ensures var r := Apply(mem, st, e);
            && r.flags == st.flags + {e.field}
            && r.fields[f] == if f == e.field then data + st.fields[f][|data|..] else st.fields[f]
  {
    assert e in [e];
    AtSlice(mem, e.item.off, data);
  }

  lemma HoldsStep(st: State, mid: State, r: State, fs: seq<Feed>, fd: Feed, f: Field)
    requires st.Valid() && mid.Valid() && r.Valid() && Holds(st, mid, fs, f) && |fd.data| <= SizeOf(fd.field)
    requires r.flags == mid.flags + {fd.field}
    requires r.fields[f] == if f == fd.field then fd.data + mid.fields[f][|fd.data|..] else mid.fields[f]
    ensures Holds(st, r, fs + [fd], f)
  {
    LastSnoc(fs, fd, f);
    OverlaySnoc(st.fields[f], fs, fd, f);
  }

  lemma {:induction false} LastWins(mem: seq<Byte>, st: State, es: seq<Event>, fs: seq<Feed>, f: Field)
    requires st.Valid() && Fits(mem, es) && Match(mem, es, fs)
    ensures Holds(st, ApplyAll(mem, st, es), fs, f)
    decreases |es|
  {
    if es != [] {
      var n := |es| - 1;
      assert fs == fs[..n] + [fs[n]];
      LastWins(mem, st, es[..n], fs[..n], f);
      var mid := ApplyAll(mem, st, es[..n]);
      AppliedField(mem, mid, es[n], fs[n].data, f);
      HoldsStep(st, mid, ApplyAll(mem, st, es), fs[..n], fs[n], f);
    }
  }
}
