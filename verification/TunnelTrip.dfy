/** A packet through encapsulation, the GRE rewrite and the GRE termination. */
module TunnelTrip {
  import opened Mbuf
  import opened Octets
  import opened Tunnel

  /** The next worker's classifier takes the rewriting branch for a capsule. */
  lemma CapsuleIsRewritten(out: seq<Byte>, eth: seq<Byte>, src: seq<Byte>, dst: seq<Byte>, rest: seq<Byte>, n: nat)
    requires Capsule(out, eth, src, dst, rest, n) && |out| >= 78
    requires eth[12..14] == TYPE_IPV4 || eth[12..14] == TYPE_IPV6
    ensures Untagged(0x210) && UserFrame(out)
  {
    assert out[12..14] == eth[12..14];
    var h := out[14..24];
    assert out[14] == h[0] && out[20] == h[6] && out[23] == h[9];
    var udp := out[34..42];
    assert out[36] == udp[2] && out[37] == udp[3];
    assert Be16(50999) == [199, 55];
  }

  /** And the last one's takes the decapsulating branch, if the type is IPv4. */
  lemma GreIsTerminated(out: seq<Byte>, pgw: seq<Byte>)
    requires |out| >= 51 && |pgw| == 4
    requires out[12..14] == TYPE_IPV4 || out[12..14] == TYPE_IPV6
    ensures IsGreFrame(0x2010, Gre(out, pgw)) <==> out[12..14] == TYPE_IPV4
    ensures !Tagged(0x2010, Gre(out, pgw)) && !Open(0x2010, Gre(out, pgw))
    ensures Gre(out, pgw)[23] == 47 && Gre(out, pgw)[14] % 16 == 8
  {
    var g := Gre(out, pgw);
    assert g[12..14] == out[12..14];
    assert g[14] == 0x48 && g[23] == 47;
  }

  /** Termination brings back the packet, under the type its version stands for. */
  lemma TerminatedCapsule(out: seq<Byte>, eth: seq<Byte>, src: seq<Byte>, dst: seq<Byte>, rest: seq<Byte>,
                          n: nat, pgw: seq<Byte>)
    requires Capsule(out, eth, src, dst, rest, n) && |out| >= 51 && |pgw| == 4
    ensures |rest| >= 1 && Gre(out, pgw)[50] == rest[0]
    ensures Terminated(Gre(out, pgw)) == (if rest[0] / 16 == 4 then eth else eth[..12] + TYPE_IPV6) + rest
  {
    assert rest == out[50..] && |rest| == |out| - 50;
    var g := Gre(out, pgw);
    assert g[..14] == eth && g[50..] == rest;
    assert g[50] == g[50..][0];
    assert g[..12] == eth[..12];
  }

  // ------------------------------------------------------------ one packet per worker

  method EncapTurn(w: EncapWorker, m: Buffer) returns (sent: bool)
    requires w.Valid() && m.Valid() && |m.Room()| >= 78
    modifies w, m, m.buf
    ensures w.Valid() && m.Valid()
    ensures w.dropped == if sent then old(w.dropped) else old(w.dropped) + 1
    ensures var v4, room := IsV4(old(m.ptype)), old(m.Room());
            if Untagged(old(m.ptype)) && UserFrame(room) then
              && sent == (old(m.off) >= TUNNEL && (v4 || IsV6(old(m.ptype))))
              && (sent ==>
                  && m.off == old(m.off) - TUNNEL && m.len == old(m.len) + TUNNEL && m.ptype == 0x210
                  && Capsule(m.Room(), if v4 then room[..14] else room[..12] + TYPE_IPV4,
                             w.src, OuterDst(v4, room), room[14..], m.len))
            else
              && sent == !Tagged(old(m.ptype), room) && m.Room() == room
              && m.off == old(m.off) && m.len == old(m.len) && m.ptype == old(m.ptype)
  {
    var verdict := IsArpOrInnerIcmp(m.ptype, m.Room());
    ClassifiedExactly(m.ptype, m.Room());
    if verdict == Pass {
      return true;
    } else if verdict == Vlan {
      w.dropped := w.dropped + 1;
      return false;
    }
    sent := w.ModifyPacket(m);
  }

  /** A frame whose last verdict the source leaves open. */
  predicate Open(p: bv32, d: seq<Byte>)
    requires |d| >= 24
  {
    Untagged(p) && d[12..14] == [0x08, 0x00] && d[23] == 17
  }

  method GreTurn(w: Gtpu2GreWorker, m: Buffer) returns (sent: bool)
    requires |w.pgw| == 4 && m.Valid() && |m.Room()| >= 78
    modifies m`ptype, m.buf
    ensures m.Valid()
    ensures var user := Untagged(old(m.ptype)) && UserFrame(old(m.Room()));
            && sent == !Tagged(old(m.ptype), old(m.Room()))
            && m.Room() == (if user then Gre(old(m.Room()), w.pgw) else old(m.Room()))
            && m.ptype == if user then 0x2010 else old(m.ptype)
  {
    var verdict := IsArpOrInnerIcmp(m.ptype, m.Room());
    ClassifiedExactly(m.ptype, m.Room());
    if verdict == Pass {
      return true;
    } else if verdict == Vlan {
      return false;
    }
    w.ModifyPacket(m);
    sent := true;
  }

  /** An untagged IPv4 frame of protocol 47. */
  predicate IsGreFrame(p: bv32, d: seq<Byte>)
    requires |d| >= 24
  {
    Untagged(p) && d[12..14] == [0x08, 0x00] && d[23] == 47
  }

  ghost predicate AsBefore(room: seq<Byte>, off: nat, len: nat, p: bv32, m: Buffer)
    requires m.Valid()
    reads m, m.buf
  {
    m.Room() == room && m.off == off && m.len == len && m.ptype == p
  }

  method TermTurn(w: GretermWorker, m: Buffer, udp: PacketType) returns (sent: bool)
    requires m.Valid() && |m.Room()| >= 51
    modifies w, m, m.buf
    ensures m.Valid()
    ensures w.dropped == if sent then old(w.dropped) else old(w.dropped) + 1
    ensures var p, room := old(m.ptype), old(m.Room());
            if Tagged(p, room) || (Open(p, room) && udp == Vlan) then
              !sent && AsBefore(room, old(m.off), old(m.len), p, m)
            else if IsGreFrame(p, room) || (Open(p, room) && udp != Pass) then
              && sent == (room[23] == 47 && room[14] % 16 == 8 && old(m.len) >= TUNNEL)
              && (sent ==>
                  && m.off == old(m.off) + TUNNEL && m.len == old(m.len) - TUNNEL
                  && m.Room() == Terminated(room) && m.ptype == InnerType(p, room[50] / 16 == 4))
            else sent && AsBefore(room, old(m.off), old(m.len), p, m)
  {
    var verdict := CheckDecapability(m.ptype, m.Room(), udp);
    DecapExactly(m.ptype, m.Room(), udp);
    if verdict == Pass {
      return true;
    } else if verdict == Vlan {
      w.dropped := w.dropped + 1;
      return false;
    }
    sent := w.ModifyPacket(m);
  }

  // ------------------------------------------------------------------- the whole trip

  /** When a frame comes out of the chain as it went in. A passed frame does, but
      for one whose last verdict is open, where that verdict decides; a tagged one is
      dropped; and a user frame does exactly if it has headroom and its packet type,
      Ethernet type and version nibble agree. */
  predicate Restores(p: bv32, room: seq<Byte>, headroom: nat, udp: PacketType)
    requires |room| >= 78
  {
    if Untagged(p) && UserFrame(room) then
      && headroom >= 36
      && var v4Inside, v4Type := room[14] / 16 == 4, room[12..14] == [0x08, 0x00];
         if IsV4(p) then v4Inside && v4Type else IsV6(p) && v4Inside == v4Type
    else !Tagged(p, room) && (Open(p, room) ==> udp == Pass)
  }

  /** The frame a terminated capsule is compared with. */
  lemma SameFrame(room: seq<Byte>, v4: bool)
    requires |room| >= 78 && (room[12..14] == TYPE_IPV4 || room[12..14] == TYPE_IPV6)
    requires v4 ==> room[12..14] == TYPE_IPV4
    ensures var eth := if v4 then room[..14] else room[..12] + TYPE_IPV4;
            (if room[14] / 16 == 4 then eth else eth[..12] + TYPE_IPV6) + room[14..] == room
            <==> (room[14] / 16 == 4) == (room[12..14] == TYPE_IPV4)
  {
    var eth := if v4 then room[..14] else room[..12] + TYPE_IPV4;
    var head := if room[14] / 16 == 4 then eth else eth[..12] + TYPE_IPV6;
    assert eth[..12] == room[..12] && |head| == 14 && head[..12] == room[..12];
    assert head[12..14] == if room[14] / 16 == 4 then TYPE_IPV4 else TYPE_IPV6;
    assert (head + room[14..])[12..14] == head[12..14];
    assert room == room[..12] + room[12..14] + room[14..];
    assert head == head[..12] + head[12..14];
  }

  /** The rewrite and the termination of a capsule: the packet comes back under the
      type its version stands for, if the capsule's own type is IPv4. */
  method Unwrap(g: Gtpu2GreWorker, t: GretermWorker, m: Buffer, udp: PacketType,
                ghost eth: seq<Byte>, ghost src: seq<Byte>, ghost dst: seq<Byte>, ghost rest: seq<Byte>)
    returns (sent: bool)
    requires |g.pgw| == 4 && m.Valid() && |m.Room()| >= 78 && m.len >= TUNNEL && m.ptype == 0x210
    requires Capsule(m.Room(), eth, src, dst, rest, m.len) && |eth| == 14
    requires eth[12..14] == TYPE_IPV4 || eth[12..14] == TYPE_IPV6
    modifies t, m, m.buf
    ensures m.Valid() && sent && |rest| >= 1
    ensures if eth[12..14] != TYPE_IPV4 then m.off == old(m.off)
            else
              && m.off == old(m.off) + TUNNEL && m.len == old(m.len) - TUNNEL
              && m.Room() == (if rest[0] / 16 == 4 then eth else eth[..12] + TYPE_IPV6) + rest
              && m.ptype == if rest[0] / 16 == 4 then 0x2010 else 0x2040
  {
    ghost var out := m.Room();
    CapsuleIsRewritten(out, eth, src, dst, rest, m.len);
    TerminatedCapsule(out, eth, src, dst, rest, m.len, g.pgw);
    assert out[12..14] == eth[12..14] by {
      Subslice(out, 0, 14, 12, 14);
    }
    GreIsTerminated(out, g.pgw);
    InnerTypeBits(0x2010, rest[0] / 16 == 4);
    sent := GreTurn(g, m);
    sent := TermTurn(t, m, udp);
  }

  method Traverse(e: EncapWorker, g: Gtpu2GreWorker, t: GretermWorker, m: Buffer, udp: PacketType)
    returns (sent: bool)
    requires e.Valid() && |g.pgw| == 4 && m.Valid() && |m.Room()| >= 78
    modifies e, t, m, m.buf
    ensures m.Valid()
    ensures (sent && m.off == old(m.off) && m.len == old(m.len) && m.Room() == old(m.Room()))
            <==> Restores(old(m.ptype), old(m.Room()), old(m.off), udp)
    ensures var p, room := old(m.ptype), old(m.Room());
            Restores(p, room, old(m.off), udp) ==>
            m.ptype == if !Untagged(p) || !UserFrame(room) then p else if room[14] / 16 == 4 then 0x2010 else 0x2040
  {
    ghost var room, v4 := m.Room(), IsV4(m.ptype);
    var user := Untagged(m.ptype) && UserFrame(m.Room());
    sent := EncapTurn(e, m);
    if !sent {
      return;
    }
    if user {
      ghost var eth := if v4 then room[..14] else room[..12] + TYPE_IPV4;
      sent := Unwrap(g, t, m, udp, eth, e.src, OuterDst(v4, room), room[14..]);
      if !v4 || room[12..14] == TYPE_IPV4 {
        SameFrame(room, v4);
      }
    } else {
      sent := GreTurn(g, m);
      sent := TermTurn(t, m, udp);
    }
  }
}
