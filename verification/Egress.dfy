/** The egress distributor: a capsule is addressed to the serving gateway of the
    subscriber its inner packet is for. */
module Egress {
  import opened Checksum
  import opened Mbuf
  import opened Octets
  import opened Tunnel
  import opened TunnelTrip
  import opened Wrappers

  type Quad = s: seq<Byte> | |s| == 4 witness [0, 0, 0, 0]

  /** The lookup record's addresses and tunnel id, as they lie in memory. */
  datatype Entry = Entry(sgwTeid: Quad, sgwIpv4: Quad, pgwIpv4: Quad)

  /** The lookup key: an address with its first byte cleared. */
  function Key(a: Quad): Quad {
    [0] + a[1..]
  }

  /** The subscriber address inside a capsule, by the inner version nibble. */
  function Subscriber(room: seq<Byte>): (r: Option<Quad>)
    requires |room| >= 90
  {
    if room[50] / 16 == 4 then Some(room[66..70])
    else if room[50] / 16 == 6 then Some(room[78..82])
    else None
  }

  /** The capsule redirected to an entry: addresses, ports, tunnel id and MACs
      change, the header verifies, and everything else stays. */
  ghost predicate Redirected(was: seq<Byte>, out: seq<Byte>, e: Entry) {
    && |was| == |out| >= 90
    && out[..6] == was[6..12] && out[6..12] == was[..6] && out[12..14] == was[12..14]
    && out[14..24] == was[14..24] && Verifies(out[14..34]) && out[26..34] == e.pgwIpv4 + e.sgwIpv4
    && out[34..38] == Be16(2152) + Be16(2152) && out[38..46] == was[38..46]
    && out[46..50] == e.sgwTeid && out[50..] == was[50..]
  }

  /** is_pdu: a GTP-U user packet for the standard port. */
  predicate IsPdu(room: seq<Byte>)
    requires |room| >= 44
  {
    room[12..14] == TYPE_IPV4 && room[23] == 17 && room[36..38] == Be16(2152) && room[43] == 255
  }

  lemma RedirectedFrom(was: seq<Byte>, macs: seq<Byte>, ip: seq<Byte>, e: Entry, out: seq<Byte>)
    requires |was| >= 90 && macs == was[6..12] + was[..6]
    requires Verifies(ip) && ip[..10] == was[14..24] && ip[12..] == e.pgwIpv4 + e.sgwIpv4
    requires out == macs + was[12..14] + ip + Be16(2152) + Be16(2152) + was[38..46] + e.sgwTeid + was[50..]
    ensures Redirected(was, out, e)
  {
    assert out[..12] == macs && out[12..14] == was[12..14] && out[14..34] == ip;
    assert out[..6] == macs[..6] && out[6..12] == macs[6..];
    assert out[14..24] == ip[..10] && out[26..34] == ip[12..];
    assert out[34..38] == Be16(2152) + Be16(2152);
    assert out[38..46] == was[38..46] && out[46..50] == e.sgwTeid && out[50..] == was[50..];
  }

  lemma FieldsInPlace(r: seq<Byte>, tid: Quad, ip: seq<Byte>, macs: seq<Byte>)
    requires |r| >= 90 && |ip| == 20 && |macs| == 12
    ensures Over(Over(Over(Over(r, 46, tid), 34, Be16(2152) + Be16(2152)), 14, ip), 0, macs) ==
            macs + r[12..14] + ip + Be16(2152) + Be16(2152) + r[38..46] + tid + r[50..]
  {
    var ports := Be16(2152) + Be16(2152);
    assert Over(r, 46, tid) == r[..46] + tid + r[50..];
    assert Over(r[..46] + tid + r[50..], 34, ports) == r[..34] + ports + r[38..46] + tid + r[50..];
    assert Over(r[..34] + ports + r[38..46] + tid + r[50..], 14, ip) ==
           r[..14] + ip + ports + r[38..46] + tid + r[50..];
    assert Over(r[..14] + ip + ports + r[38..46] + tid + r[50..], 0, macs) ==
           macs + r[12..14] + ip + ports + r[38..46] + tid + r[50..];
  }

  datatype Fate = Delivered | ErrorIndicated | Dropped

  class EgressDistributor {
    var dropped: nat

    constructor ()
      ensures dropped == 0
    {
      dropped := 0;
    }

    /** `contents` is what the lookup table shows. */
    method ModifyPacket(m: Buffer, contents: map<Quad, Entry>) returns (fate: Fate)
      requires m.Valid() && |m.Room()| >= 90
      modifies this, m.buf
      ensures fate == match Subscriber(old(m.Room()))
                      case None => Dropped
                      case Some(a) => if [0] + a[1..] in contents then Delivered else ErrorIndicated
      ensures dropped == if fate == Delivered then old(dropped) else old(dropped) + 1
      ensures if fate == Delivered
              then Redirected(old(m.Room()), m.Room(), contents[[0] + Subscriber(old(m.Room())).value[1..]])
              else m.Room() == old(m.Room())
    {
      ghost var was := m.Room();
      var key;
      if m.Room()[50] / 16 == 4 {
        key := Key(m.Room()[66..70]);
      } else if m.Room()[50] / 16 == 6 {
        key := Key(m.Room()[78..82]);
      } else {
        dropped := dropped + 1;
        return Dropped;
      }
      if key !in contents {
        dropped := dropped + 1;
        return ErrorIndicated;
      }
      var e := contents[key];
      Redirect(m, e);
      fate := Delivered;
    }

    /** The outer addresses and checksum. */
    method Readdress(m: Buffer, e: Entry) returns (ghost ip: seq<Byte>)
      requires m.Valid() && |m.Room()| >= 90
      modifies m.buf
      ensures Verifies(ip) && ip[..10] == old(m.Room())[14..24] && ip[12..] == e.pgwIpv4 + e.sgwIpv4
      ensures m.Room() == Over(old(m.Room()), 14, ip)
    {
      var h := m.Room()[14..26] + e.pgwIpv4 + e.sgwIpv4;
      assert h[..10] == m.Room()[14..24] && h[12..] == e.pgwIpv4 + e.sgwIpv4;
      h := Seal(h);
      m.Write(14, h);
      ip := h;
    }

    method SwapMacs(m: Buffer)
      requires m.Valid() && |m.Room()| >= 90
      modifies m.buf
      ensures m.Room() == Over(old(m.Room()), 0, old(m.Room())[6..12] + old(m.Room())[..6])
    {
      m.Write(0, m.Room()[6..12] + m.Room()[..6]);
    }

    method Redirect(m: Buffer, e: Entry)
      requires m.Valid() && |m.Room()| >= 90
      modifies m.buf
      ensures Redirected(old(m.Room()), m.Room(), e)
    {
      ghost var was := m.Room();
      m.Write(46, e.sgwTeid);
      m.Write(34, Be16(2152) + Be16(2152));
      ghost var ip := Readdress(m, e);
      SwapMacs(m);
      Untouched(was, e.sgwTeid, Be16(2152) + Be16(2152), ip);
      FieldsInPlace(was, e.sgwTeid, ip, was[6..12] + was[..6]);
      RedirectedFrom(was, was[6..12] + was[..6], ip, e, m.Room());
    }
  }

  /** The stores do not reach the fields that are read after them. */
  lemma Untouched(r: seq<Byte>, tid: Quad, ports: seq<Byte>, ip: seq<Byte>)
    requires |r| >= 90 && |ports| == 4 && |ip| == 20
    ensures var r2 := Over(Over(r, 46, tid), 34, ports);
            && r2[14..24] == r[14..24]
            && Over(r2, 14, ip)[..6] == r[..6] && Over(r2, 14, ip)[6..12] == r[6..12]
  {
    var r1 := Over(r, 46, tid);
    var r2 := Over(r1, 34, ports);
    OverKeeps(r, 46, tid, 14, 24);
    OverKeeps(r1, 34, ports, 14, 24);
    OverKeeps(r, 46, tid, 0, 6);
    OverKeeps(r1, 34, ports, 0, 6);
    OverKeeps(r2, 14, ip, 0, 6);
    OverKeeps(r, 46, tid, 6, 12);
    OverKeeps(r1, 34, ports, 6, 12);
    OverKeeps(r2, 14, ip, 6, 12);
  }

  /** The key found inside a capsule is the outer destination it was built with,
      if the packet type and the version nibble of the user packet agree. */
  lemma KeyOfCapsule(room: seq<Byte>, v4: bool, out: seq<Byte>, eth: seq<Byte>, src: seq<Byte>, n: nat)
    requires |room| >= 54
    requires Capsule(out, eth, src, OuterDst(v4, room), room[14..], n)
    requires room[14] / 16 == if v4 then 4 else 6
    ensures |out| >= 90 && Subscriber(out).Some? && Key(Subscriber(out).value) == Key(OuterDst(v4, room))
  {
    assert |room[14..]| == |out| - 50;
    assert out[50] == room[14..][0];
    assert out[66..70] == room[14..][16..20] == room[30..34];
    assert out[78..82] == room[14..][28..32] == room[42..46];
  }

  /** What a delivered packet looks like: a GTP-U user packet to the gateway, with
      nested lengths, a verifying header and the user packet untouched. */
  ghost predicate ToGateway(out: seq<Byte>, e: Entry, rest: seq<Byte>, n: nat) {
    && |out| >= 90 && IsPdu(out)
    && out[14] == 0x45 && out[16..18] == Be16(n - 14) && Verifies(out[14..34])
    && out[26..34] == e.pgwIpv4 + e.sgwIpv4
    && out[38..40] == Be16(n - 34) && out[44..46] == Be16(n - 50)
    && out[46..50] == e.sgwTeid && out[50..] == rest
  }

  lemma RedirectedCapsule(was: seq<Byte>, out: seq<Byte>, e: Entry, eth: seq<Byte>,
                          src: seq<Byte>, dst: seq<Byte>, rest: seq<Byte>, n: nat)
    requires Capsule(was, eth, src, dst, rest, n) && Redirected(was, out, e)
    requires eth[12..14] == TYPE_IPV4
    ensures ToGateway(out, e, rest, n)
  {
    Subslice(was, 0, 14, 12, 14);
    Subslice(out, 14, 24, 2, 4);
    assert out[14..24][2..4] == Be16(n - 14);
    assert out[14] == out[14..24][0] && out[23] == out[14..24][9];
    LengthsOf(was, n);
    Subslice(out, 38, 46, 0, 2);
    Subslice(out, 38, 46, 6, 8);
    assert out[43] == out[38..46][5];
    Subslice(out, 34, 38, 2, 4);
  }

  lemma LengthsOf(was: seq<Byte>, n: nat)
    requires |was| >= 50
    requires was[34..42] == Be16(50999) + Be16(50999) + Be16(n - 34) + [0, 0]
    requires was[42..50] == [0x30, 255] + Be16(n - 50) + [0, 0, 0, 0]
    ensures was[38..46][..2] == Be16(n - 34) && was[38..46][5] == 255 && was[38..46][6..8] == Be16(n - 50)
  {
    Subslice(was, 34, 42, 4, 6);
    Subslice(was, 42, 50, 2, 4);
    assert was[38..46][..2] == was[38..40] && was[38..46][6..8] == was[44..46];
    assert was[38..46][5] == was[42..50][1];
  }

  /** Encapsulation followed by distribution: a user packet whose type and version
      agree reaches the gateway of its own destination address, or raises an
      error indication if the table does not hold that address. */
  method Deliver(w: EncapWorker, d: EgressDistributor, m: Buffer, contents: map<Quad, Entry>) returns (fate: Fate)
    requires w.Valid() && m.Valid() && |m.Room()| >= 78
    requires Untagged(m.ptype) && UserFrame(m.Room())
    requires m.off >= TUNNEL && (IsV4(m.ptype) || IsV6(m.ptype))
    requires m.Room()[14] / 16 == if IsV4(m.ptype) then 4 else 6
    requires IsV4(m.ptype) ==> m.Room()[12..14] == TYPE_IPV4
    modifies w, d, m, m.buf
    ensures m.Valid() && m.len == old(m.len) + TUNNEL
    ensures var room := old(m.Room());
            var key: Quad := [0] + if IsV4(old(m.ptype)) then room[31..34] else room[43..46];
            if key in contents
            then fate == Delivered && ToGateway(m.Room(), contents[key], room[14..], m.len)
            else fate == ErrorIndicated
  {
    ghost var room, v4 := m.Room(), IsV4(m.ptype);
    var ok := EncapTurn(w, m);
    ghost var was := m.Room();
    ghost var eth := if v4 then room[..14] else room[..12] + TYPE_IPV4;
    KeyOfCapsule(room, v4, was, eth, w.src, m.len);
    fate := d.ModifyPacket(m, contents);
    if fate == Delivered {
      ghost var e := contents[Key(OuterDst(v4, room))];
      RedirectedCapsule(was, m.Room(), e, eth, w.src, OuterDst(v4, room), room[14..], m.len);
    }
  }
}
