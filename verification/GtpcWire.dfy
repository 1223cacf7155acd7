/** GTPv2-C messages on the wire: information elements, the header checks, and
    the walk that splits a body into items. */
module GtpcWire {
  import opened Octets
  import opened Wrappers

  const MAX_ITEMS: nat := 255      // GTPC_CAPABILITY_ITEM_COUNT

  /** An information element (IE): type, instance octet, value. */
  datatype Ie = Ie(kind: Byte, inst: Byte, value: seq<Byte>)

  /** An entry of the packet's item list. */
  datatype Item = Item(kind: Byte, len: nat, off: nat)

  function Encode(ie: Ie): (b: seq<Byte>)
    ensures |b| == 4 + |ie.value|
  {
    [ie.kind] + Be16(|ie.value|) + [ie.inst] + ie.value
  }

  function EncodeAll(ies: seq<Ie>): seq<Byte> {
    if ies == [] then [] else Encode(ies[0]) + EncodeAll(ies[1..])
  }

  /** The items of a body that starts at `off`. */
  function ItemsOf(ies: seq<Ie>, off: nat): (r: seq<Item>)
    ensures |r| == |ies|
  {
    if ies == [] then []
    else
      var n := |Encode(ies[0])|;
      [Item(ies[0].kind, n, off)] + ItemsOf(ies[1..], off + n)
  }

  // ------------------------------------------------------------------------- header

  /** Echo messages carry no tunnel id. */
  function HeaderLen(kind: Byte): (n: nat)
    ensures n == 8 || n == 12
  {
    if kind == 1 || kind == 2 then 8 else 12
  }

  predicate Supported(kind: Byte) {
    kind in {1, 2, 3, 32, 33, 34, 35, 36, 37, 99, 100, 162, 164}
  }

  /** gtpc_validate_header. Version 1 is let through without a look at the type. */
  predicate HeaderOk(buf: seq<Byte>)
    requires |buf| >= 12
  {
    && WordAt(buf, 2) >= 4
    && (buf[0] / 32 == 2 ==> buf[0] / 16 % 2 == 0)
    && (buf[0] / 32 == 1 || Supported(buf[1]))
  }

  // --------------------------------------------------------------------------- walk

  /** The length of the item at a position: its length field plus 4, in 16 bits. */
  function Declared(buf: seq<Byte>, off: nat): Word
    requires off + 2 < |buf|
  {
    (WordAt(buf, off + 1) + 4) % 0x1_0000
  }

  /** The loop of gtpc_alloc_packet_from_payload from `off`, with `acc`
      collected in as many turns: an item must fit the capacity before the end of
      the payload is looked at. */
  function Walk(buf: seq<Byte>, off: nat, len: nat, cap: nat, acc: seq<Item>): Option<seq<Item>>
    requires off < cap && cap + 3 <= |buf|
    decreases MAX_ITEMS - |acc|
  {
    if off >= len || |acc| >= MAX_ITEMS then None
    else
      var n := Declared(buf, off);
      if n == 0 || off + n >= cap then None
      else
        var acc' := acc + [Item(buf[off], n, off)];
        if off + n > len then None
        else if off + n == len then Some(acc')
        else Walk(buf, off + n, len, cap, acc')
  }

  /** Items that lie end to end from `off` to `len`, each as long as it says. */
  ghost predicate Chain(buf: seq<Byte>, items: seq<Item>, off: nat, len: nat)
    requires len + 2 < |buf|
    decreases |items|
  {
    if items == [] then off == len
    else
      && off < len
      && items[0] == Item(buf[off], Declared(buf, off), off)
      && items[0].len > 0
      && Chain(buf, items[1..], off + items[0].len, len)
  }

  /** The walk accepts exactly the non-empty chains of at most 255 items below
      capacity. */
  lemma {:induction false} WalkFindsChain(buf: seq<Byte>, items: seq<Item>, off: nat, len: nat, cap: nat,
                                          acc: seq<Item>)
    requires off < cap && len < cap && cap + 3 <= |buf|
    requires 1 <= |items| <= MAX_ITEMS - |acc| && Chain(buf, items, off, len)
    ensures Walk(buf, off, len, cap, acc) == Some(acc + items)
    decreases MAX_ITEMS - |acc|
  {
    ChainEnd(buf, items[1..], off + items[0].len, len);
    var acc' := acc + [items[0]];
    if |items| == 1 {
      assert acc + items == acc';
    } else {
      assert items[1] == items[1..][0];
      WalkFindsChain(buf, items[1..], off + items[0].len, len, cap, acc');
      assert acc' + items[1..] == acc + items;
    }
  }

  lemma {:induction false} ChainEnd(buf: seq<Byte>, items: seq<Item>, off: nat, len: nat)
    requires len + 2 < |buf| && Chain(buf, items, off, len)
    ensures off <= len && (off == len <==> items == [])
  {
  }

  lemma {:induction false} WalkIsChain(buf: seq<Byte>, off: nat, len: nat, cap: nat, acc: seq<Item>)
    requires off < cap && cap + 3 <= |buf|
    requires Walk(buf, off, len, cap, acc).Some?
    ensures var items := Walk(buf, off, len, cap, acc).value;
            && acc <= items && |acc| < |items| <= MAX_ITEMS
            && len < cap && Chain(buf, items[|acc|..], off, len)
    decreases MAX_ITEMS - |acc|
  {
    var n := Declared(buf, off);
    var acc' := acc + [Item(buf[off], n, off)];
    var items := Walk(buf, off, len, cap, acc).value;
    if off + n == len {
      assert items[|acc|..] == [Item(buf[off], n, off)];
    } else {
      WalkIsChain(buf, off + n, len, cap, acc');
      assert items[|acc|..][1..] == items[|acc'|..];
    }
  }

  /** An encoded IE says its own type and length. */
  lemma EncodedHead(buf: seq<Byte>, off: nat, ie: Ie)
    requires off + |Encode(ie)| <= |buf| && |Encode(ie)| < 0x1_0000
    requires buf[off..off + |Encode(ie)|] == Encode(ie)
    ensures buf[off] == ie.kind && Declared(buf, off) == |Encode(ie)|
  {
    var e, b := Encode(ie), buf[off..off + |Encode(ie)|];
    assert buf[off] == b[0] == e[0] && buf[off + 1] == b[1] == e[1] && buf[off + 2] == b[2] == e[2];
    WordOfBe16(buf, off + 1, |ie.value|);
  }

  lemma EncodedSplit(buf: seq<Byte>, ies: seq<Ie>, off: nat, len: nat)
    requires ies != [] && off <= len < 0x1_0000 && len + 2 < |buf| && buf[off..len] == EncodeAll(ies)
    ensures var n := |Encode(ies[0])|;
            && off + n <= len && buf[off + n..len] == EncodeAll(ies[1..])
            && buf[off] == ies[0].kind && Declared(buf, off) == n
  {
    var e, b := Encode(ies[0]), EncodeAll(ies[1..]);
    assert off + |e| + |b| == len;
    Split(buf, off, e, b);
    EncodedHead(buf, off, ies[0]);
  }

  lemma ChainCons(buf: seq<Byte>, it: Item, items: seq<Item>, off: nat, len: nat)
    requires off < len && len + 2 < |buf| && it == Item(buf[off], Declared(buf, off), off) && it.len > 0
    requires Chain(buf, items, off + it.len, len)
    ensures Chain(buf, [it] + items, off, len)
  {
    assert ([it] + items)[1..] == items;
  }

  /** An encoded list of IEs is a chain. */
  lemma {:induction false} EncodedIsChain(buf: seq<Byte>, ies: seq<Ie>, off: nat, len: nat)
    requires off <= len && len + 2 < |buf| && len < 0x1_0000
    requires buf[off..len] == EncodeAll(ies)
    ensures Chain(buf, ItemsOf(ies, off), off, len)
    decreases |ies|
  {
    if ies != [] {
      var n := |Encode(ies[0])|;
      EncodedSplit(buf, ies, off, len);
      EncodedIsChain(buf, ies[1..], off + n, len);
      ChainCons(buf, Item(ies[0].kind, n, off), ItemsOf(ies[1..], off + n), off, len);
    }
  }

  /** The IE an item of at least four bytes holds. */
  function IeAt(buf: seq<Byte>, it: Item): Ie {
    if it.len < 4 || it.off + it.len > |buf| then Ie(0, 0, [])
    else Ie(buf[it.off], buf[it.off + 3], buf[it.off + 4..it.off + it.len])
  }

  function IesOf(buf: seq<Byte>, items: seq<Item>): (r: seq<Ie>)
    ensures |r| == |items|
  {
    if items == [] then [] else [IeAt(buf, items[0])] + IesOf(buf, items[1..])
  }

  /** No item shorter than its own header. */
  predicate NoShort(items: seq<Item>) {
    items == [] || (items[0].len >= 4 && NoShort(items[1..]))
  }

  /** A chain without short items is an encoded list of IEs, and its items say so. */
  lemma {:induction false} ChainIsEncoded(buf: seq<Byte>, items: seq<Item>, off: nat, len: nat)
    requires len + 2 < |buf| && Chain(buf, items, off, len) && NoShort(items)
    ensures off <= len && buf[off..len] == EncodeAll(IesOf(buf, items)) && items == ItemsOf(IesOf(buf, items), off)
    decreases |items|
  {
    if items != [] {
      var it, rest := items[0], items[1..];
      ChainIsEncoded(buf, rest, off + it.len, len);
      EncodedItem(buf, off);
      EncodeCons(buf, off, it.len, len, IeAt(buf, it), IesOf(buf, rest));
      assert items == [it] + rest;
    }
  }

  lemma EncodeCons(buf: seq<Byte>, off: nat, n: nat, len: nat, e: Ie, rest: seq<Ie>)
    requires off + n <= len <= |buf|
    requires buf[off..off + n] == Encode(e) && buf[off + n..len] == EncodeAll(rest)
    ensures buf[off..len] == EncodeAll([e] + rest)
    ensures ItemsOf([e] + rest, off) == [Item(e.kind, n, off)] + ItemsOf(rest, off + n)
  {
    assert ([e] + rest)[1..] == rest;
    assert |Encode(e)| == n;
    Join(buf, off, off + n, len);
  }

  lemma EncodedItem(buf: seq<Byte>, off: nat)
    requires off + 2 < |buf| && Declared(buf, off) >= 4 && off + Declared(buf, off) <= |buf|
    ensures buf[off..off + Declared(buf, off)] == Encode(IeAt(buf, Item(buf[off], Declared(buf, off), off)))
  {
    var n := Declared(buf, off);
    var v := buf[off + 4..off + n];
    ShortByLength(buf, off);
    Be16OfWord(buf, off + 1);
    Join(buf, off, off + 4, off + n);
    assert buf[off..off + 4] == [buf[off]] + [buf[off + 1], buf[off + 2]] + [buf[off + 3]];
  }

  // ------------------------------------------------------------------------ payloads

  /** Which payloads gtpc_alloc_packet_from_payload takes. */
  predicate Accepted(buf: seq<Byte>, len: Word, cap: nat)
    requires 12 < cap && cap + 3 <= |buf|
  {
    && len != 0 && HeaderOk(buf) && WordAt(buf, 2) + 4 == len && HeaderLen(buf[1]) <= len
    && (HeaderLen(buf[1]) == len || Walk(buf, HeaderLen(buf[1]), len, cap, []).Some?)
  }

  function AcceptedItems(buf: seq<Byte>, len: Word, cap: nat): seq<Item>
    requires 12 < cap && cap + 3 <= |buf| && Accepted(buf, len, cap)
  {
    if HeaderLen(buf[1]) == len then [] else Walk(buf, HeaderLen(buf[1]), len, cap, []).value
  }

  /** What the header of a payload of `len` bytes must say: a known message type, or
      version 1; in version 2 no piggybacked message; and its own length. */
  predicate Framed(buf: seq<Byte>, len: Word)
    requires |buf| >= 12
  {
    && (buf[0] / 32 == 1 || buf[1] in {1, 2, 3, 32, 33, 34, 35, 36, 37, 99, 100, 162, 164})
    && (buf[0] / 32 == 2 ==> buf[0] / 16 % 2 == 0)
    && WordAt(buf, 2) + 4 == len && len >= if buf[1] in {1, 2} then 8 else 12
  }

  /** A payload within capacity is taken with these items exactly if it is framed, and
      the items chain through the body, which starts behind 8 bytes in an echo message
      and behind 12 in any other, and there are at most 255 of them. */
  lemma AcceptedExactly(buf: seq<Byte>, len: Word, cap: nat, items: seq<Item>)
    requires 12 < cap && cap + 3 <= |buf| && len < cap
    ensures (Accepted(buf, len, cap) && AcceptedItems(buf, len, cap) == items)
            <==> Framed(buf, len) && |items| <= 255 && Chain(buf, items, if buf[1] in {1, 2} then 8 else 12, len)
  {
    if !Framed(buf, len) {
      return;
    }
    var h := HeaderLen(buf[1]);
    if Chain(buf, items, h, len) {
      ChainEnd(buf, items, h, len);
      if 1 <= |items| <= MAX_ITEMS {
        WalkFindsChain(buf, items, h, len, cap, []);
        assert [] + items == items;
      } else if items != [] && h < len && Walk(buf, h, len, cap, []).Some? {
        WalkIsChain(buf, h, len, cap, []);
      }
    } else if h < len && Walk(buf, h, len, cap, []).Some? {
      WalkIsChain(buf, h, len, cap, []);
      assert items[0..] == items;
    }
  }

  /** Nothing as long as the capacity is taken. */
  lemma CapacityRefuses(buf: seq<Byte>, len: Word, cap: nat)
    requires 12 < cap && cap + 3 <= |buf| && Accepted(buf, len, cap)
    ensures len < cap
  {
    if HeaderLen(buf[1]) < len {
      WalkIsChain(buf, HeaderLen(buf[1]), len, cap, []);
    }
  }

  /** Walking the body by its own length fields, none of them is 65532 or more,
      where adding the header would leave 16 bits. */
  predicate PlainLengths(buf: seq<Byte>, off: nat, len: nat)
    requires len + 2 < |buf|
    decreases len - off
  {
    off >= len ||
    (WordAt(buf, off + 1) <= 65531 && PlainLengths(buf, off + 4 + WordAt(buf, off + 1), len))
  }

  lemma {:induction false} PlainIsNoShort(buf: seq<Byte>, items: seq<Item>, off: nat, len: nat)
    requires len + 2 < |buf| && Chain(buf, items, off, len)
    ensures NoShort(items) <==> PlainLengths(buf, off, len)
    decreases |items|
  {
    if items != [] {
      ShortByLength(buf, off);
      PlainIsNoShort(buf, items[1..], off + items[0].len, len);
      assert items == [items[0]] + items[1..];
    }
  }

  lemma ShortByLength(buf: seq<Byte>, off: nat)
    requires off + 2 < |buf| && Declared(buf, off) > 0
    ensures Declared(buf, off) >= 4 <==> WordAt(buf, off + 1) <= 65531
    ensures WordAt(buf, off + 1) <= 65531 ==> Declared(buf, off) == WordAt(buf, off + 1) + 4
  {
  }

  /** Well-formed means an encoded list of at most 255 IEs. */
  ghost predicate WellFormed(buf: seq<Byte>, len: Word)
    requires |buf| >= 12 && HeaderLen(buf[1]) <= len <= |buf|
  {
    exists ies: seq<Ie> :: |ies| <= MAX_ITEMS && buf[HeaderLen(buf[1])..len] == EncodeAll(ies)
  }

  /** Every well-formed framed payload in capacity is taken, with no short item. */
  lemma WellFormedTaken(buf: seq<Byte>, len: Word, cap: nat)
    requires 12 < cap && cap + 3 <= |buf| && len < cap && Framed(buf, len) && WellFormed(buf, len)
    ensures Accepted(buf, len, cap) && NoShort(AcceptedItems(buf, len, cap))
  {
    var h := HeaderLen(buf[1]);
    var ies: seq<Ie> :| |ies| <= MAX_ITEMS && buf[h..len] == EncodeAll(ies);
    EncodedIsChain(buf, ies, h, len);
    AcceptedExactly(buf, len, cap, ItemsOf(ies, h));
    ItemsNotShort(ies, h);
  }

  /** The payloads the parser takes though they are not well-formed are exactly those
      in which some length field on the way is 65532 or more. */
  lemma WellFormedExactly(buf: seq<Byte>, len: Word, cap: nat)
    requires 12 < cap && cap + 3 <= |buf| && len < cap && Framed(buf, len) && Accepted(buf, len, cap)
    ensures WellFormed(buf, len) <==> PlainLengths(buf, HeaderLen(buf[1]), len)
  {
    var h, items := HeaderLen(buf[1]), AcceptedItems(buf, len, cap);
    AcceptedExactly(buf, len, cap, items);
    PlainIsNoShort(buf, items, h, len);
    if WellFormed(buf, len) {
      WellFormedTaken(buf, len, cap);
    }
    if NoShort(items) {
      ChainIsEncoded(buf, items, h, len);
      assert |IesOf(buf, items)| <= MAX_ITEMS;
    }
  }

  lemma {:induction false} ItemsNotShort(ies: seq<Ie>, off: nat)
    ensures NoShort(ItemsOf(ies, off))
  {
    if ies != [] {
      ItemsNotShort(ies[1..], off + |Encode(ies[0])|);
    }
  }

  /** Short items exist: a length field of 65533 wraps to one byte. The message has
      a one-byte body, which no list of IEs encodes to. */
  lemma ShortItemAccepted(rest: seq<Byte>, cap: nat)
    requires 12 < cap && cap <= |rest|
    ensures var buf := [0x40, 1, 0, 5, 0, 0, 0, 0, 3, 0xff, 0xfd] + rest;
            && Accepted(buf, 9, cap) && AcceptedItems(buf, 9, cap) == [Item(3, 1, 8)]
            && forall ies: seq<Ie> :: EncodeAll(ies) != buf[8..9]
  {
    var buf := [0x40, 1, 0, 5, 0, 0, 0, 0, 3, 0xff, 0xfd] + rest;
    assert WordAt(buf, 2) == 5 && WordAt(buf, 9) == 0xfffd && Declared(buf, 8) == 1;
    assert buf[8] == 3;
    var none: seq<Item> := [];
    assert none + [Item(3, 1, 8)] == [Item(3, 1, 8)];
    assert Walk(buf, 8, 9, cap, none) == Some([Item(3, 1, 8)]);
    forall ies: seq<Ie> ensures EncodeAll(ies) != buf[8..9] {
      assert ies != [] ==> |EncodeAll(ies)| >= 4;
    }
  }
}
