/** The GTP-C packet object: building it item by item, and rebuilding it from a
    received payload. */
module GtpcPacket {
  import opened Octets
  import opened GtpcWire
  import opened Wrappers

  /** Items that lie end to end from `from` to `to`, none empty. */
  ghost predicate Tiled(items: seq<Item>, from: nat, to: nat) {
    if items == [] then from == to
    else
      var last := items[|items| - 1];
      last.len > 0 && last.off + last.len == to && Tiled(items[..|items| - 1], from, last.off)
  }

  lemma BodyGrows(was: seq<Byte>, mid: seq<Byte>, now: seq<Byte>, h: nat, o: nat, data: seq<Byte>)
    requires 4 <= h <= o && o + |data| <= |was| == |mid| == |now|
    requires mid[..o] == was[..o] && mid[o..o + |data|] == data && now[4..] == mid[4..]
    ensures now[h..o + |data|] == was[h..o] + data
  {
    var e := o + |data|;
    assert now[4..|now|] == mid[4..|mid|];
    Subslice(now, 4, |now|, h - 4, e - 4);
    Subslice(mid, 4, |mid|, h - 4, e - 4);
    Subslice(mid, 0, o, h, o);
    Subslice(was, 0, o, h, o);
    Join(mid, h, o, e);
  }

  class Packet {
    const kind: Byte
    const cap: nat                  // ETHER_MAX_LEN
    const bytes: array<Byte>        // the packet, and four guard bytes
    var offset: nat
    var items: seq<Item>

    constructor (kind: Byte, cap: nat)
      requires 12 < cap <= 0xffff
      ensures Valid() && fresh(bytes) && this.kind == kind && this.cap == cap
      ensures items == [] && offset == HeaderLen(kind)
      ensures forall i | 4 <= i < 12 :: bytes[i] == 0
    {
      this.kind, this.cap := kind, cap;
      var b := new Byte[cap + 4](_ => 0);
      b[cap], b[cap + 1], b[cap + 2], b[cap + 3] := 0xde, 0xad, 0xc0, 0xde;
      if kind == 1 || kind == 2 {
        offset := 8;
        b[0], b[1], b[2], b[3] := 0x40, kind, 0, 4;
      } else {
        offset := 12;
        b[0], b[1], b[2], b[3] := 0x48, kind, 0, 8;
      }
      bytes, items := b, [];
    }

    /** The header length field plus 4 is the write offset, which stays below the
        capacity; the items tile the body; the guard is intact. */
    ghost predicate Valid()
      reads this, bytes
    {
      && 12 < cap <= 0xffff && bytes.Length == cap + 4
      && HeaderLen(kind) <= offset < cap
      && bytes[0] == (if HeaderLen(kind) == 8 then 0x40 else 0x48)
      && bytes[1] == kind && WordAt(bytes[..], 2) + 4 == offset
      && Tiled(items, HeaderLen(kind), offset)
      && bytes[cap..] == [0xde, 0xad, 0xc0, 0xde]
    }

    ghost function Body(): seq<Byte>
      requires Valid()
      reads this, bytes
    {
      bytes[HeaderLen(kind)..offset]
    }

    /** gtpc_append_item: refuses an empty item and one that reaches the capacity. */
    method Append(kind: Byte, data: seq<Byte>, len: Word) returns (ok: bool)
      requires Valid() && (len > 0 && offset + len < cap ==> len <= |data|)
      modifies this, bytes
      ensures Valid() && ok == (len > 0 && old(offset) + len < cap)
      ensures !ok ==> offset == old(offset) && items == old(items) && bytes[..] == old(bytes[..])
      ensures ok ==>
        && items == old(items) + [Item(kind, len, old(offset))] && offset == old(offset) + len
        && len <= |data| && Body() == old(Body()) + data[..len]
    {
      if len == 0 || offset + len >= cap {
        return false;
      }
      items := items + [Item(kind, len, offset)];
      assert items[..|items| - 1] == old(items);
      ghost var was := bytes[..];
      Copy(data[..len]);
      ghost var mid := bytes[..];
      offset := offset + len;
      SetLength(len);
      BodyGrows(was, mid, bytes[..], HeaderLen(this.kind), old(offset), data[..len]);
      ok := true;
    }

    /** One turn of the parse loop. */
    method TakeItem(buf: seq<Byte>, at: nat, len: Word) returns (ok: bool, n: Word)
      requires Valid() && cap + 3 <= |buf| && offset == at < len && Body() == buf[HeaderLen(kind)..at]
      requires |items| < MAX_ITEMS
      modifies this, bytes
      ensures Valid() && |items| == |old(items)| + (if ok then 1 else 0)
      ensures ok ==> at + n < cap && offset == at + n && Body() == buf[HeaderLen(kind)..at + n]
      ensures Walk(buf, at, len, cap, old(items)) ==
              if !ok || at + n > len then None
              else if at + n == len then Some(items) else Walk(buf, at + n, len, cap, items)
    {
      n := Declared(buf, at);
      ok := Append(buf[at], buf[at..], n);
      if ok {
        TakeOfDrop(buf, at, n);
        Join(buf, HeaderLen(kind), at, at + n);
      }
    }

    /** The parse loop, from a packet without items. */
    method TakeItems(buf: seq<Byte>, len: Word) returns (ok: bool)
      requires Valid() && items == [] && cap + 3 <= |buf| && offset == HeaderLen(kind) < len
      modifies this, bytes
      ensures Valid() && ok == Walk(buf, HeaderLen(kind), len, cap, []).Some?
      ensures ok ==> Some(items) == Walk(buf, HeaderLen(kind), len, cap, [])
      ensures ok ==> offset == len <= |buf| && Body() == buf[HeaderLen(kind)..len]
    {
      var cnt, at := 0, offset;
      ghost var h := HeaderLen(kind);
      while at < len && cnt < MAX_ITEMS
        invariant Valid() && h <= offset == at < len && at < cap && cnt == |items| <= MAX_ITEMS
        invariant Body() == buf[h..at]
        invariant Walk(buf, h, len, cap, []) == Walk(buf, at, len, cap, items)
        decreases MAX_ITEMS - cnt
      {
        var n;
        ok, n := TakeItem(buf, at, len);
        if !ok {
          break;
        }
        at := at + n;
        if at > len {
          return false;
        } else if at == len {
          return true;
        }
        cnt := cnt + 1;
      }
      ok := false;
    }

    /** The message of a list of IEs. */
    ghost predicate Holds(ies: seq<Ie>)
      requires Valid()
      reads this, bytes
    {
      Body() == EncodeAll(ies) && items == ItemsOf(ies, HeaderLen(kind))
    }

    method AppendIe(ie: Ie, ghost done: seq<Ie>) returns (ok: bool)
      requires Valid() && |ie.value| <= 65531 && Holds(done)
      modifies this, bytes
      ensures Valid() && ok == (HeaderLen(kind) + |EncodeAll(done + [ie])| < cap)
      ensures ok ==> Holds(done + [ie])
    {
      var e := Encode(ie);
      EncodeSnoc(done, ie, HeaderLen(kind));
      ok := Append(ie.kind, e, |e|);
      assert e[..|e|] == e;
    }

    method Copy(data: seq<Byte>)
      requires 12 < cap && bytes.Length == cap + 4 && 8 <= offset && offset + |data| < cap
      modifies bytes
      ensures bytes[..offset] == old(bytes[..offset]) && bytes[offset..offset + |data|] == data
      ensures bytes[cap..] == old(bytes[cap..])
    {
      forall i | 0 <= i < |data| {
        bytes[offset + i] := data[i];
      }
    }

    method SetLength(len: Word)
      requires 12 < cap <= 0xffff && bytes.Length == cap + 4
      requires WordAt(bytes[..], 2) + len <= 0xffff
      modifies bytes
      ensures WordAt(bytes[..], 2) == old(WordAt(bytes[..], 2)) + len
      ensures bytes[..2] == old(bytes[..2]) && bytes[4..] == old(bytes[4..])
    {
      var n := (WordAt(bytes[..], 2) + len) % 0x1_0000;
      bytes[2], bytes[3] := n / 256, n % 256;
    }
  }

  /** gtpc_alloc_packet_from_payload, on a receive buffer that holds `len` bytes. */
  method Parse(buf: seq<Byte>, len: Word, cap: nat) returns (r: Packet?)
    requires 12 < cap <= 0xffff && cap + 3 <= |buf|
    ensures r != null <==> Accepted(buf, len, cap)
    ensures r != null ==> r.Valid() && fresh(r) && fresh(r.bytes) && r.kind == buf[1] && r.cap == cap
    ensures r != null ==> r.items == AcceptedItems(buf, len, cap) && r.offset == len
    ensures r != null ==> HeaderLen(buf[1]) <= len <= |buf| && r.Body() == buf[HeaderLen(buf[1])..len]
  {
    if len == 0 || !HeaderOk(buf) || WordAt(buf, 2) + 4 != len {
      return null;
    }
    var offset := HeaderLen(buf[1]);
    if offset > len {
      return null;
    }
    var p := new Packet(buf[1], cap);
    if offset == len {
      return p;
    }
    var ok := p.TakeItems(buf, len);
    r := if ok then p else null;
  }

  // ------------------------------------------------------------------- build and parse

  lemma {:induction false} ChainSnoc(buf: seq<Byte>, items: seq<Item>, off: nat, mid: nat, x: Item)
    requires mid + x.len + 2 < |buf| && Chain(buf, items, off, mid)
    requires x == Item(buf[mid], Declared(buf, mid), mid) && x.len > 0
    ensures Chain(buf, items + [x], off, mid + x.len)
    decreases |items|
  {
    if items == [] {
      assert (items + [x])[1..] == [];
    } else {
      ChainSnoc(buf, items[1..], off + items[0].len, mid, x);
      ChainEnd(buf, items[1..], off + items[0].len, mid);
      assert (items + [x])[1..] == items[1..] + [x];
    }
  }

  /** Every item says its own type and length. */
  ghost predicate Truthful(buf: seq<Byte>, items: seq<Item>) {
    forall it | it in items ::
      it.off + 2 < |buf| && it.kind == buf[it.off] && it.len == Declared(buf, it.off)
  }

  lemma {:induction false} TiledChain(buf: seq<Byte>, items: seq<Item>, from: nat, to: nat)
    requires to + 2 < |buf| && Tiled(items, from, to) && Truthful(buf, items)
    ensures Chain(buf, items, from, to)
    decreases |items|
  {
    if items != [] {
      var n := |items| - 1;
      assert items[n] in items && items == items[..n] + [items[n]];
      TiledChain(buf, items[..n], from, items[n].off);
      ChainSnoc(buf, items[..n], from, items[n].off, items[n]);
    }
  }

  lemma {:induction false} ChainTruthful(buf: seq<Byte>, items: seq<Item>, from: nat, to: nat)
    requires to + 2 < |buf| && Chain(buf, items, from, to)
    ensures Truthful(buf, items)
    decreases |items|
  {
    if items != [] {
      ChainTruthful(buf, items[1..], from + items[0].len, to);
      forall it | it in items
        ensures it.off + 2 < |buf| && it.kind == buf[it.off] && it.len == Declared(buf, it.off)
      {
        assert it == items[0] || it in items[1..];
      }
    }
  }

  /** A built message of a supported type and at most 255 items parses back to its
      own items exactly if every item says its own type and length. */
  lemma ReparsesExactly(p: Packet, buf: seq<Byte>)
    requires p.Valid() && Supported(p.kind) && |p.items| <= MAX_ITEMS
    requires p.cap + 3 <= |buf| && buf[..p.offset] == p.bytes[..p.offset]
    ensures (Accepted(buf, p.offset, p.cap) && AcceptedItems(buf, p.offset, p.cap) == p.items)
            <==> Truthful(buf, p.items)
  {
    assert forall i | 0 <= i < 4 :: buf[i] == buf[..p.offset][i] == p.bytes[i];
    assert WordAt(buf, 2) == WordAt(p.bytes[..], 2);
    AcceptedExactly(buf, p.offset, p.cap, p.items);
    if Truthful(buf, p.items) {
      TiledChain(buf, p.items, HeaderLen(p.kind), p.offset);
    }
    if Chain(buf, p.items, HeaderLen(p.kind), p.offset) {
      ChainTruthful(buf, p.items, HeaderLen(p.kind), p.offset);
    }
  }

  lemma Assoc<T>(a: seq<T>, b: seq<T>, c: seq<T>)
    ensures a + b + c == a + (b + c)
  {
  }

  lemma Unfold(ie: Ie, rest: seq<Ie>, off: nat)
    ensures EncodeAll([ie] + rest) == Encode(ie) + EncodeAll(rest)
    ensures var n := |Encode(ie)|;
            ItemsOf([ie] + rest, off) == [Item(ie.kind, n, off)] + ItemsOf(rest, off + n)
  {
    assert ([ie] + rest)[1..] == rest;
  }

  lemma {:induction false} EncodeSnoc(ies: seq<Ie>, ie: Ie, off: nat)
    ensures EncodeAll(ies + [ie]) == EncodeAll(ies) + Encode(ie)
    ensures ItemsOf(ies + [ie], off) ==
            ItemsOf(ies, off) + [Item(ie.kind, |Encode(ie)|, off + |EncodeAll(ies)|)]
    decreases |ies|
  {
    if ies == [] {
      assert ies + [ie] == [ie] + [];
      Unfold(ie, [], off);
    } else {
      var e, rest := ies[0], ies[1..];
      var n := |Encode(e)|;
      assert ies == [e] + rest;
      EncodeSnoc(rest, ie, off + n);
      SnocStep(e, rest, ie, off);
    }
  }

  lemma SnocStep(e: Ie, rest: seq<Ie>, ie: Ie, off: nat)
    requires EncodeAll(rest + [ie]) == EncodeAll(rest) + Encode(ie)
    requires var o := off + |Encode(e)|;
             ItemsOf(rest + [ie], o) == ItemsOf(rest, o) + [Item(ie.kind, |Encode(ie)|, o + |EncodeAll(rest)|)]
    ensures EncodeAll([e] + rest + [ie]) == EncodeAll([e] + rest) + Encode(ie)
    ensures ItemsOf([e] + rest + [ie], off) ==
            ItemsOf([e] + rest, off) + [Item(ie.kind, |Encode(ie)|, off + |EncodeAll([e] + rest)|)]
  {
    var o := off + |Encode(e)|;
    Assoc([e], rest, [ie]);
    Unfold(e, rest, off);
    Unfold(e, rest + [ie], off);
    Assoc(Encode(e), EncodeAll(rest), Encode(ie));
    Assoc([Item(e.kind, |Encode(e)|, off)], ItemsOf(rest, o), [Item(ie.kind, |Encode(ie)|, o + |EncodeAll(rest)|)]);
  }

  lemma {:induction false} EncodeMonotone(ies: seq<Ie>, n: nat)
    requires n <= |ies|
    ensures |EncodeAll(ies[..n])| <= |EncodeAll(ies)|
    ensures n < |ies| ==> |EncodeAll(ies[..n + 1])| == |EncodeAll(ies[..n])| + |Encode(ies[n])|
    decreases |ies| - n
  {
    if n < |ies| {
      EncodeSnoc(ies[..n], ies[n], 0);
      assert ies[..n] + [ies[n]] == ies[..n + 1];
      EncodeMonotone(ies, n + 1);
    } else {
      assert ies[..n] == ies;
    }
  }

  /** A message from a list of IEs: it succeeds exactly if all of it stays below the
      capacity, and then the body is the encoded list. */
  method Build(kind: Byte, ies: seq<Ie>, cap: nat) returns (p: Packet, ok: bool)
    requires 12 < cap <= 0xffff && forall ie | ie in ies :: |ie.value| <= 65531
    ensures fresh(p) && fresh(p.bytes) && p.Valid() && p.kind == kind && p.cap == cap
    ensures ok <==> HeaderLen(kind) + |EncodeAll(ies)| < cap
    ensures ok ==> p.Body() == EncodeAll(ies) && p.items == ItemsOf(ies, HeaderLen(kind))
  {
    p := new Packet(kind, cap);
    for n := 0 to |ies|
      invariant p.Valid() && p.kind == kind && p.cap == cap && fresh(p) && fresh(p.bytes)
      invariant p.Holds(ies[..n])
      modifies p, p.bytes
    {
      EncodeMonotone(ies, n + 1);
      assert ies[..n] + [ies[n]] == ies[..n + 1];
      ok := p.AppendIe(ies[n], ies[..n]);
      if !ok {
        return;
      }
    }
    assert ies[..|ies|] == ies;
    ok := true;
  }

  /** Build, receive, parse: up to 255 IEs below capacity come back, in order. */
  method RoundTrip(kind: Byte, ies: seq<Ie>, cap: nat, pad: seq<Byte>) returns (q: Packet?)
    requires Supported(kind) && 12 < cap <= 0xffff && |pad| >= cap + 3
    requires |ies| <= MAX_ITEMS && HeaderLen(kind) + |EncodeAll(ies)| < cap
    ensures q != null && q.Valid() && q.kind == kind
    ensures q.items == ItemsOf(ies, HeaderLen(kind)) && q.Body() == EncodeAll(ies)
  {
    forall ie | ie in ies ensures |ie.value| <= 65531 {
      var n :| 0 <= n < |ies| && ies[n] == ie;
      EncodeMonotone(ies, n);
      EncodeMonotone(ies, n + 1);
    }
    var p, ok := Build(kind, ies, cap);
    var buf := p.bytes[..p.offset] + pad;
    assert buf[HeaderLen(kind)..p.offset] == p.Body();
    EncodedIsChain(buf, ies, HeaderLen(kind), p.offset);
    ChainTruthful(buf, p.items, HeaderLen(kind), p.offset);
    ReparsesExactly(p, buf);
    q := Parse(buf, p.offset, cap);
    assert buf[1] == kind by { assert buf[1] == buf[..p.offset][1]; }
  }

  // ------------------------------------------------------------------ Bearer Contexts

  /** A Bearer Context under construction: 256 bytes for its children. */
  class BearerBuilder {
    const child: array<Byte>
    var offset: nat
    var length: Word                 // the header's length field

    constructor ()
      ensures Valid() && fresh(child) && Children() == []
    {
      child := new Byte[256](_ => 0);
      offset, length := 0, 0;
    }

    ghost predicate Valid()
      reads this
    {
      child.Length == 256 && offset < 256 && length == offset
    }

    ghost function Children(): seq<Byte>
      requires Valid()
      reads this, child
    {
      child[..offset]
    }

    /** gtpc_bearer_ctx_add_child. */
    method AddChild(data: seq<Byte>, len: Word) returns (ok: bool)
      requires Valid() && (offset + len < 256 ==> len <= |data|)
      modifies this, child
      ensures Valid() && ok == (old(offset) + len < 256)
      ensures ok ==> len <= |data|
      ensures Children() == if ok then old(Children()) + data[..len] else old(Children())
    {
      if offset + len >= 256 {
        return false;
      }
      length := (length + len) % 0x1_0000;
      forall i | 0 <= i < len {
        child[offset + i] := data[i];
      }
      offset := offset + len;
      ok := true;
    }

    /** The first gtpc_bearer_ctx_length bytes of the object are one encoded IE. */
    method Wire() returns (b: seq<Byte>)
      requires Valid()
      ensures b == Encode(Ie(93, 0, Children()))
    {
      b := [93] + Be16(length) + [0] + child[..offset];
    }

    /** Adding IEs one by one gives the context around them. */
    method AddAll(kids: seq<Ie>) returns (ok: bool)
      requires Valid() && Children() == [] && forall k | k in kids :: |k.value| <= 65531
      modifies this, child
      ensures Valid() && ok == (|EncodeAll(kids)| < 256)
      ensures ok ==> Children() == EncodeAll(kids)
    {
      for n := 0 to |kids|
        invariant Valid() && Children() == EncodeAll(kids[..n])
      {
        var e := Encode(kids[n]);
        EncodeSnoc(kids[..n], kids[n], 0);
        EncodeMonotone(kids, n + 1);
        assert kids[..n] + [kids[n]] == kids[..n + 1];
        ok := AddChild(e, |e|);
        if !ok {
          return;
        }
        assert e[..|e|] == e;
      }
      assert kids[..|kids|] == kids;
      ok := true;
    }
  }
}
