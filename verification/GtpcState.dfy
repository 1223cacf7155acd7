/** The parse state: walking the items of a packet, and those of a nested Bearer
    Context, into one field per information element. */
module GtpcState {
  import opened Octets
  import opened GtpcWire
  import opened Wrappers

  datatype Field =
    | Msisdn | Imsi | Recovery | Cause | Mei | CTeid | AmbrRoot | Charging | EbiRoot
    | Rat | Pco | Paa | ApnRestriction | BqosRoot | Pdn | BearerContext
    | UTeid | BqosBearer | EbiBearer | AmbrBearer

  function SizeOf(f: Field): nat {
    match f
    case Msisdn => 10
    case Imsi => 12 case Mei => 12 case AmbrRoot => 12 case AmbrBearer => 12
    case Cause => 10
    case CTeid => 25 case UTeid => 25
    case Charging => 8
    case Pco => 258
    case Paa => 26 case BqosRoot => 26 case BqosBearer => 26
    case BearerContext => 0
    case Recovery => 5 case EbiRoot => 5 case EbiBearer => 5
    case Rat => 5 case ApnRestriction => 5 case Pdn => 5
  }

  /** Which sizes are taken for a field; other sizes are passed over. */
  predicate Accepts(f: Field, n: nat) {
    match f
    case Msisdn => n <= 10
    case Imsi => n <= 12
    case Mei => n <= 12
    case Paa => n <= 26
    case Pco => n < 258
    case Cause => n == 10 || n == 6
    case CTeid => n == 25 || n == 13
    case UTeid => n == 25 || n == 13
    case _ => n == SizeOf(f)
  }

  lemma AcceptedFits(f: Field, n: nat)
    requires Accepts(f, n)
    ensures n <= SizeOf(f) < 300
  {
  }

  function RootField(kind: Byte): Option<Field> {
    if kind == 76 then Some(Msisdn) else if kind == 1 then Some(Imsi)
    else if kind == 3 then Some(Recovery) else if kind == 2 then Some(Cause)
    else if kind == 75 then Some(Mei) else if kind == 87 then Some(CTeid)
    else if kind == 72 then Some(AmbrRoot) else if kind == 94 then Some(Charging)
    else if kind == 73 then Some(EbiRoot) else if kind == 82 then Some(Rat)
    else if kind == 78 then Some(Pco) else if kind == 79 then Some(Paa)
    else if kind == 127 then Some(ApnRestriction) else if kind == 80 then Some(BqosRoot)
    else if kind == 99 then Some(Pdn) else None
  }

  function BearerField(kind: Byte): Option<Field> {
    if kind == 87 then Some(UTeid) else if kind == 80 then Some(BqosBearer)
    else if kind == 73 then Some(EbiBearer) else if kind == 72 then Some(AmbrBearer)
    else None
  }

  const BEARER_CTX: Byte := 93

  /** An item stored into a field: its bytes go to the front of the field. */
  datatype Event = Event(field: Field, item: Item)

  /** The flags and the fields. */
  datatype State = State(flags: set<Field>, fields: map<Field, seq<Byte>>) {
    predicate Valid() {
      forall f: Field :: f in fields && |fields[f]| == SizeOf(f)
    }
  }

  predicate Fits(mem: seq<Byte>, es: seq<Event>) {
    forall e | e in es :: e.item.len <= SizeOf(e.field) && e.item.off + e.item.len <= |mem|
  }

  /** A shorter value leaves the rest of its field as it was. */
  function Apply(mem: seq<Byte>, st: State, e: Event): (r: State)
    requires st.Valid() && Fits(mem, [e])
    ensures r.Valid()
  {
    assert e in [e];
    var data := mem[e.item.off..e.item.off + e.item.len];
    State(st.flags + {e.field}, st.fields[e.field := data + st.fields[e.field][|data|..]])
  }

  function ApplyAll(mem: seq<Byte>, st: State, es: seq<Event>): (r: State)
    requires st.Valid() && Fits(mem, es)
    ensures r.Valid()
    decreases |es|
  {
    if es == [] then st
    else
      var n := |es| - 1;
      Apply(mem, ApplyAll(mem, st, es[..n]), es[n])
  }

  lemma ApplySnoc(mem: seq<Byte>, st: State, es: seq<Event>, e: Event)
    requires st.Valid() && Fits(mem, es) && Fits(mem, [e])
    ensures Fits(mem, es + [e]) && ApplyAll(mem, st, es + [e]) == Apply(mem, ApplyAll(mem, st, es), e)
  {
    assert (es + [e])[..|es|] == es;
    assert forall x | x in es + [e] :: x in es || x in [e];
  }

  /** An item handed to a callback: stored if it has a field that takes its size. */
  function Step(es: seq<Event>, f: Option<Field>, it: Item): seq<Event> {
    if f.Some? && Accepts(f.value, it.len) then es + [Event(f.value, it)] else es
  }

  // ---------------------------------------------------------- what the walks compute

  /** The children gtpc_iterate_bearer_ctx_item hands on from position `cur` of
      `len`, after `acc`, and its result. A child is handed on before the end is
      checked, and the position is a 16-bit number. */
  function Children(mem: seq<Byte>, base: nat, len: nat, cur: nat, acc: seq<Item>): (bool, seq<Item>)
    requires base + len + 300 <= |mem|
    decreases MAX_ITEMS - |acc|
  {
    if cur >= len || |acc| >= MAX_ITEMS then (false, acc)
    else
      var n := Declared(mem, base + cur);
      var acc' := acc + [Item(mem[base + cur], n, base + cur)];
      var cur' := (cur + n) % 0x1_0000;
      if cur' > len then (false, acc')
      else if cur' == len then (true, acc')
      else Children(mem, base, len, cur', acc')
  }

  /** The children handed to on_gtpc_parse_bearer_context, one by one. */
  function StoreKids(es: seq<Event>, items: seq<Item>): seq<Event>
    decreases |items|
  {
    if items == [] then es
    else StoreKids(Step(es, BearerField(items[0].kind), items[0]), items[1..])
  }

  lemma {:induction false} StoreKidsSnoc(es: seq<Event>, items: seq<Item>, it: Item)
    ensures StoreKids(es, items + [it]) == Step(StoreKids(es, items), BearerField(it.kind), it)
    decreases |items|
  {
    if items == [] {
      assert ([] + [it])[1..] == [];
    } else {
      assert (items + [it])[1..] == items[1..] + [it];
      StoreKidsSnoc(Step(es, BearerField(items[0].kind), items[0]), items[1..], it);
    }
  }

  /** The children of a Bearer Context at `off`. */
  function Bearer(mem: seq<Byte>, off: nat): (bool, seq<Item>)
    requires off + 300 <= |mem| && off + 4 + WordAt(mem, off + 1) + 300 <= |mem|
  {
    Children(mem, off + 4, WordAt(mem, off + 1), 0, [])
  }

  /** The walk reads inside `mem`. */
  predicate Readable(mem: seq<Byte>, it: Item) {
    && it.off + 300 <= |mem|
    && (it.kind == BEARER_CTX ==> it.off + 4 + WordAt(mem, it.off + 1) + 300 <= |mem|)
  }

  predicate AllReadable(mem: seq<Byte>, items: seq<Item>) {
    items == [] || (Readable(mem, items[0]) && AllReadable(mem, items[1..]))
  }

  /** The flag a Bearer Context raises; it stores no bytes. */
  function ContextEvent(off: nat): Event {
    Event(BearerContext, Item(BEARER_CTX, 0, off))
  }

  /** on_gtpc_parse_root: its result, and the stores after it. */
  function Root(mem: seq<Byte>, it: Item, es: seq<Event>): (bool, seq<Event>)
    requires Readable(mem, it)
  {
    if it.kind == BEARER_CTX
    then (Bearer(mem, it.off).0, StoreKids(es + [ContextEvent(it.off)], Bearer(mem, it.off).1))
    else (true, Step(es, RootField(it.kind), it))
  }

  /** gtpc_iterate_item: the items in order, up to the first error. */
  function Items(mem: seq<Byte>, items: seq<Item>, es: seq<Event>): (bool, seq<Event>)
    requires AllReadable(mem, items)
    decreases |items|
  {
    if items == [] then (true, es)
    else
      var r := Root(mem, items[0], es);
      if !r.0 then r else Items(mem, items[1..], r.1)
  }

  // ------------------------------------------------------------------- the callbacks

  class ParseState {
    const mem: seq<Byte>              // the packet, and what lies behind it
    var flags: set<Field>
    var fields: map<Field, seq<Byte>>
    ghost const start: State
    ghost var stored: seq<Event>

    constructor (mem: seq<Byte>, st: State)
      requires st.Valid()
      ensures Valid() && start == st && this.mem == mem && stored == []
    {
      this.mem, flags, fields, start, stored := mem, st.flags, st.fields, st, [];
    }

    /** The state is the start with every store applied. */
    ghost predicate Valid()
      reads this
    {
      start.Valid() && Fits(mem, stored) && State(flags, fields) == ApplyAll(mem, start, stored)
    }

    method Store(f: Field, it: Item)
      requires Valid() && Accepts(f, it.len) && it.off + 300 <= |mem|
      modifies this
      ensures Valid() && stored == old(stored) + [Event(f, it)]
    {
      var data := mem[it.off..it.off + it.len];
      flags := flags + {f};
      fields := fields[f := data + fields[f][|data|..]];
      AcceptedFits(f, it.len);
      ApplySnoc(mem, start, stored, Event(f, it));
      stored := stored + [Event(f, it)];
    }

    method StoreIf(f: Option<Field>, it: Item)
      requires Valid() && it.off + 300 <= |mem|
      modifies this
      ensures Valid() && stored == Step(old(stored), f, it)
    {
      if f.Some? && Accepts(f.value, it.len) {
        Store(f.value, it);
      }
    }

    /** One turn of the loop over a Bearer Context's children. */
    method NextChild(base: nat, len: nat, cur: nat, ghost kids: seq<Item>, ghost before: seq<Event>)
      returns (cur': nat, ghost kids': seq<Item>)
      requires Valid() && base + len + 300 <= |mem| && cur < len && |kids| < MAX_ITEMS
      requires stored == StoreKids(before, kids)
      modifies this
      ensures Valid() && |kids'| == |kids| + 1 && stored == StoreKids(before, kids')
      ensures Children(mem, base, len, cur, kids) ==
              if cur' > len then (false, kids') else if cur' == len then (true, kids')
              else Children(mem, base, len, cur', kids')
    {
      var n := Declared(mem, base + cur);
      var it := Item(mem[base + cur], n, base + cur);
      StoreIf(BearerField(it.kind), it);
      StoreKidsSnoc(before, kids, it);
      kids' := kids + [it];
      cur' := (cur + n) % 0x1_0000;
    }

    method IterateBearer(off: nat) returns (ok: bool)
      requires Valid() && off + 300 <= |mem| && off + 4 + WordAt(mem, off + 1) + 300 <= |mem|
      modifies this
      ensures Valid() && ok == Bearer(mem, off).0 && stored == StoreKids(old(stored), Bearer(mem, off).1)
    {
      var cur, cnt, len, base := 0, 0, WordAt(mem, off + 1), off + 4;
      ghost var kids: seq<Item> := [];
      while cur < len && cnt < MAX_ITEMS
        invariant Valid() && 0 <= cur && cnt == |kids| <= MAX_ITEMS
        invariant Children(mem, base, len, 0, []) == Children(mem, base, len, cur, kids)
        invariant stored == StoreKids(old(stored), kids)
        decreases MAX_ITEMS - cnt
      {
        cur, kids := NextChild(base, len, cur, kids, old(stored));
        if cur > len {
          return false;
        } else if cur == len {
          return true;
        }
        cnt := cnt + 1;
      }
      ok := false;
    }

    /** on_gtpc_parse_root. */
    method OnRoot(it: Item) returns (ok: bool)
      requires Valid() && Readable(mem, it)
      modifies this
      ensures Valid() && (ok, stored) == Root(mem, it, old(stored))
    {
      if it.kind == BEARER_CTX {
        Store(BearerContext, Item(BEARER_CTX, 0, it.off));
        ok := IterateBearer(it.off);
      } else {
        StoreIf(RootField(it.kind), it);
        ok := true;
      }
    }

    method Iterate(items: seq<Item>) returns (ok: bool)
      requires Valid() && AllReadable(mem, items)
      modifies this
      ensures Valid() && (ok, stored) == Items(mem, items, old(stored))
    {
      for n := 0 to |items|
        invariant Valid() && AllReadable(mem, items[n..])
        invariant Items(mem, items, old(stored)) == Items(mem, items[n..], stored)
      {
        ok := OnRoot(items[n]);
        if !ok {
          return;
        }
        assert items[n..][1..] == items[n + 1..];
      }
      ok := true;
    }
  }
}
