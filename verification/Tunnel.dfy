/** The user-plane tunnel: IPv4/UDP/GTP-U encapsulation, the rewrite of the
    capsule to GRE in place, and the GRE termination that undoes both. */
module Tunnel {
  import opened Checksum
  import opened Mbuf
  import opened Octets

  const TUNNEL: nat := 36          // IPv4 20, UDP 8, GTP-U 8
  const TYPE_IPV4: seq<Byte> := [0x08, 0x00]
  const TYPE_IPV6: seq<Byte> := [0x86, 0xdd]

  /** RTE_ETH_IS_IPV4_HDR and RTE_ETH_IS_IPV6_HDR. */
  predicate IsV4(p: bv32) { p & 0x10 != 0 }
  predicate IsV6(p: bv32) { p & 0x40 != 0 }

  // ----------------------------------------------------------------- classification

  datatype PacketType = Pass | Encap | Decap | Vlan

  /** The checks on the packet type word that both classifiers start with. */
  function L2Verdict(p: bv32): PacketType {
    if p & 0xf == 1 || p & 0xf == 0 then Encap
    else if p & 0xf == 6 then Vlan
    else Pass
  }

  /** is_arp_or_innericmp. Ports are read behind the IP header length field. */
  function IsArpOrInnerIcmp(p: bv32, d: seq<Byte>): PacketType
    requires |d| >= 78
  {
    if L2Verdict(p) != Encap then L2Verdict(p)
    else if d[12..14] == TYPE_IPV4 then
      var l4 := 14 + 4 * (d[14] % 16);
      if d[23] == 6 then
        if (WordAt(d, l4 + 2) == 179 || WordAt(d, l4) == 179) && d[30] != 0x0a then Pass else Encap
      else if d[23] == 17 then
        if WordAt(d, l4 + 2) == 3784 && d[22] == 255 then Pass else Encap
      else if d[23] == 89 then Pass
      else if d[23] == 1 then
        if d[30] != 0x0a then Pass else Encap
      else Encap
    else if d[12..14] == TYPE_IPV6 then
      if d[20] == 58 && d[21] == 0xff then Pass else Encap
    else if d[12..14] == [0x81, 0x00] then Vlan
    else Pass
  }

  /** check_decapability of the GRE build. For UDP the source ends without a return
      value; `udp` stands for whatever the caller then sees. */
  function CheckDecapability(p: bv32, d: seq<Byte>, udp: PacketType): PacketType
    requires |d| >= 24
  {
    if L2Verdict(p) != Encap then L2Verdict(p)
    else if d[12..14] == TYPE_IPV4 then
      if d[23] == 17 then udp else if d[23] == 47 then Decap else Pass
    else if d[12..14] == [0x81, 0x00] then Vlan
    else Pass
  }

  // The same verdicts, by what a frame is.

  /** An Ethernet frame without a tag, by the packet type word. */
  predicate Untagged(p: bv32) {
    p & 0xf == 0 || p & 0xf == 1
  }

  /** A tagged frame, by the packet type word or the Ethernet type. */
  predicate Tagged(p: bv32, d: seq<Byte>)
    requires |d| >= 14
  {
    p & 0xf == 6 || (Untagged(p) && d[12..14] == [0x81, 0x00])
  }

  /** A frame that is tunnelled: IP, but neither BGP nor ICMP to outside of 10/8, nor BFD
      with a time to live of 255, nor OSPF, nor ICMPv6 with a hop limit of 255. */
  predicate UserFrame(d: seq<Byte>)
    requires |d| >= 78
  {
    if d[12..14] == [0x08, 0x00] then
      var ports := 14 + 4 * (d[14] % 16);
      && (d[23] == 6 ==> (WordAt(d, ports) != 179 && WordAt(d, ports + 2) != 179) || d[30] == 10)
      && (d[23] == 17 ==> WordAt(d, ports + 2) != 3784 || d[22] != 255)
      && (d[23] == 1 ==> d[30] == 10)
      && d[23] != 89
    else d[12..14] == [0x86, 0xdd] && (d[20] == 58 ==> d[21] != 255)
  }

  /** The encapsulating classifier tells user, tagged and other frames apart. */
  lemma ClassifiedExactly(p: bv32, d: seq<Byte>)
    requires |d| >= 78
    ensures IsArpOrInnerIcmp(p, d) == Encap <==> Untagged(p) && UserFrame(d)
    ensures IsArpOrInnerIcmp(p, d) == Vlan <==> Tagged(p, d)
    ensures IsArpOrInnerIcmp(p, d) != Decap
  {
    assert [0x81, 0x00][0] == 0x81 && [0x08, 0x00][0] == 0x08 && [0x86, 0xdd][0] == 0x86;
  }

  /** The terminating one sends GRE on to be stripped, and lets the rest pass. */
  lemma DecapExactly(p: bv32, d: seq<Byte>, udp: PacketType)
    requires |d| >= 24
    ensures CheckDecapability(p, d, udp) ==
            if Tagged(p, d) then Vlan
            else if Untagged(p) && d[12..14] == [0x08, 0x00] && d[23] in {17, 47} then
              if d[23] == 47 then Decap else udp
            else Pass
  {
    assert [0x81, 0x00][0] == 0x81 && [0x08, 0x00][0] == 0x08;
  }

  // ---------------------------------------------------------------------- encapsulate

  function Bytes32(x: nat): (b: seq<Byte>)
    ensures |b| == 4
  {
    [x / 0x100_0000 % 256, x / 0x1_0000 % 256, x / 256 % 256, x % 256]
  }

  /** The outer destination: the inner one, or for IPv6 the third and fourth
      16-bit groups of the inner one with 10 as first byte. */
  function OuterDst(v4: bool, room: seq<Byte>): (r: seq<Byte>)
    requires |room| >= 54
    ensures |r| == 4
  {
    if v4 then room[30..34] else [0x0a] + room[43..46]
  }

  /** A room that starts with a complete capsule around a packet: the outer
      header verifies, and the three length fields nest. */
  ghost predicate Capsule(out: seq<Byte>, eth: seq<Byte>, src: seq<Byte>, dst: seq<Byte>, rest: seq<Byte>,
                          pktlen: nat)
  {
    && |out| >= 50
    && out[..14] == eth
    && out[14..24] == [0x45, 0] + Be16(pktlen - 14) + [1, 0, 0, 0, 64, 17]
    && Verifies(out[14..34])
    && out[26..34] == src + dst
    && out[34..42] == Be16(50999) + Be16(50999) + Be16(pktlen - 34) + [0, 0]
    && out[42..50] == [0x30, 255] + Be16(pktlen - 50) + [0, 0, 0, 0]
    && out[50..] == rest
  }

  lemma HeadersInPlace(r: seq<Byte>, eth: seq<Byte>, ip: seq<Byte>, udp: seq<Byte>, gtpu: seq<Byte>)
    requires |r| >= 50 && |eth| == 14 && |ip| == 20 && |udp| == 8 && |gtpu| == 8
    requires r[..14] == eth
    ensures Over(Over(Over(r, 14, ip), 34, udp), 42, gtpu) == eth + ip + udp + gtpu + r[50..]
  {
    assert Over(r, 14, ip) == eth + ip + r[34..];
    assert Over(eth + ip + r[34..], 34, udp) == eth + ip + udp + r[42..];
    assert Over(eth + ip + udp + r[42..], 42, gtpu) == eth + ip + udp + gtpu + r[50..];
  }

  lemma CapsuleFrom(out: seq<Byte>, eth: seq<Byte>, ip: seq<Byte>, udp: seq<Byte>, gtpu: seq<Byte>,
                    src: seq<Byte>, dst: seq<Byte>, rest: seq<Byte>, n: nat)
    requires |eth| == 14 && |src| == |dst| == 4
    requires |ip| == 20 && Verifies(ip) && ip[12..] == src + dst
    requires ip[..10] == [0x45, 0] + Be16(n - 14) + [1, 0, 0, 0, 64, 17]
    requires udp == Be16(50999) + Be16(50999) + Be16(n - 34) + [0, 0]
    requires gtpu == [0x30, 255] + Be16(n - 50) + [0, 0, 0, 0]
    requires out == eth + ip + udp + gtpu + rest
    ensures Capsule(out, eth, src, dst, rest, n)
  {
    assert out[..14] == eth && out[14..34] == ip && out[34..42] == udp && out[42..50] == gtpu && out[50..] == rest;
    assert out[14..24] == ip[..10] && out[26..34] == ip[12..];
  }

  /** The Ethernet header copied to the front, and the packet where it was. */
  lemma CopiedFront(r: seq<Byte>, room: seq<Byte>)
    requires |room| >= 54 && |r| == |room| + TUNNEL && r[TUNNEL..] == room
    ensures var s := Over(r, 0, r[TUNNEL..TUNNEL + 14]);
            && s[..14] == room[..14] && s[50..] == room[14..]
            && s[66..70] == room[30..34] && s[79..82] == room[43..46]
  {
    var n, s := |r|, Over(r, 0, r[TUNNEL..TUNNEL + 14]);
    assert r[TUNNEL..n] == room;
    Subslice(r, TUNNEL, n, 0, 14);
    Subslice(r, TUNNEL, n, 14, n - TUNNEL);
    Subslice(r, TUNNEL, n, 30, 34);
    Subslice(r, TUNNEL, n, 43, 46);
    OverKeeps(r, 0, r[TUNNEL..TUNNEL + 14], 50, n);
    OverKeeps(r, 0, r[TUNNEL..TUNNEL + 14], 66, 70);
    OverKeeps(r, 0, r[TUNNEL..TUNNEL + 14], 79, 82);
    assert s[50..n] == s[50..] && room[14..n - TUNNEL] == room[14..];
  }

  /** The Ethernet type set to IPv4. */
  lemma TypedFront(r: seq<Byte>)
    requires |r| >= 50
    ensures var s := Over(r, 12, TYPE_IPV4); s[..14] == r[..14][..12] + TYPE_IPV4 && s[50..] == r[50..]
  {
    var s := Over(r, 12, TYPE_IPV4);
    OverKeeps(r, 12, TYPE_IPV4, 50, |r|);
    assert s[50..|r|] == s[50..] && r[50..|r|] == r[50..];
    Subslice(r, 0, 14, 0, 12);
    assert s[..14] == r[..12] + TYPE_IPV4;
  }

  class EncapWorker {
    const src: seq<Byte>
    var iph: seq<Byte>
    var udph: seq<Byte>
    var gtpuh: seq<Byte>
    var dropped: nat

    constructor (srcipv4: nat)
      ensures Valid() && src == Bytes32(srcipv4) && dropped == 0
    {
      src := Bytes32(srcipv4);
      iph := [0x45, 0, 0, 0, 1, 0, 0, 0, 64, 17, 0, 0] + Bytes32(srcipv4) + [0, 0, 0, 0];
      udph := Be16(50999) + Be16(50999) + [0, 0, 0, 0];
      gtpuh := [0x30, 255, 0, 0, 0, 0, 0, 0];
      dropped := 0;
    }

    /** The header templates; lengths, checksum and destination vary per packet. */
    ghost predicate Valid()
      reads this
    {
      && |src| == 4
      && |iph| == 20 && iph[..2] == [0x45, 0] && iph[4..10] == [1, 0, 0, 0, 64, 17] && iph[12..16] == src
      && |udph| == 8 && udph[..4] == Be16(50999) + Be16(50999)
      && |gtpuh| == 8 && gtpuh[..2] == [0x30, 255] && gtpuh[4..] == [0, 0, 0, 0]
    }

    /** Fills in the templates for a packet of n bytes. */
    method FillHeaders(dst: seq<Byte>, n: nat)
      requires Valid() && |dst| == 4
      modifies this`iph, this`udph, this`gtpuh
      ensures Valid()
      ensures Verifies(iph) && iph[12..] == src + dst
      ensures iph[..10] == [0x45, 0] + Be16(n - 14) + [1, 0, 0, 0, 64, 17]
      ensures udph == Be16(50999) + Be16(50999) + Be16(n - 34) + [0, 0]
      ensures gtpuh == [0x30, 255] + Be16(n - 50) + [0, 0, 0, 0]
    {
      var ip := iph[..2] + Be16(n - 14) + iph[4..16] + dst;
      assert ip[..10] == [0x45, 0] + Be16(n - 14) + [1, 0, 0, 0, 64, 17];
      assert ip[12..] == src + dst;
      iph := Seal(ip);
      assert iph[..2] == ip[..10][..2] && iph[4..10] == ip[..10][4..] && iph[12..16] == ip[12..][..4];
      udph := udph[..4] + Be16(n - 34) + [0, 0];
      gtpuh := gtpuh[..2] + Be16(n - 50) + gtpuh[4..];
    }

    /** Encapsulates a packet, or drops it: no headroom, or neither IP version. */
    method ModifyPacket(m: Buffer) returns (ok: bool)
      requires Valid() && m.Valid() && |m.Room()| >= 54
      modifies this, m, m.buf
      ensures Valid() && m.Valid()
      ensures ok == (old(m.off) >= TUNNEL && (IsV4(old(m.ptype)) || IsV6(old(m.ptype))))
      ensures dropped == if ok then old(dropped) else old(dropped) + 1
      ensures ok ==>
        && m.off == old(m.off) - TUNNEL && m.len == old(m.len) + TUNNEL && m.ptype == 0x210
        && |m.Room()| >= 50 && |old(m.Room())| >= 54
        && var v4, room := IsV4(old(m.ptype)), old(m.Room());
           Capsule(m.Room(), if v4 then room[..14] else room[..12] + TYPE_IPV4,
                   src, OuterDst(v4, room), room[14..], m.len)
    {
      ghost var room := m.Room();
      ok := m.Prepend(TUNNEL);
      if !ok {
        dropped := dropped + 1;
        return;
      }
      ghost var r1 := m.Room();
      m.Write(0, m.Room()[TUNNEL..TUNNEL + 14]);
      CopiedFront(r1, room);
      var dst;
      if m.ptype & 0x10 != 0 {
        dst := m.Room()[66..70];
      } else if m.ptype & 0x40 != 0 {
        dst := [0x0a] + m.Room()[79..82];
        ghost var r := m.Room();
        m.Write(12, TYPE_IPV4);
        TypedFront(r);
      } else {
        dropped := dropped + 1;
        ok := false;
        return;
      }
      ghost var r2 := m.Room();
      FillHeaders(dst, m.len);
      m.Write(14, iph);
      m.Write(34, udph);
      m.Write(42, gtpuh);
      m.ptype := 0x210;
      HeadersInPlace(r2, r2[..14], iph, udph, gtpuh);
      CapsuleFrom(m.Room(), r2[..14], iph, udph, gtpuh, src, dst, r2[50..], m.len);
    }
  }

  // ------------------------------------------------------- rewrite the capsule to GRE

  /** The capsule as a GRE tunnel to the gateway: a 32-byte IPv4 header whose
      options are no-ops, then the GRE header, over the same 36 bytes. */
  function Gre(room: seq<Byte>, pgw: seq<Byte>): (r: seq<Byte>)
    requires |room| >= 50 && |pgw| == 4
    ensures |r| == |room|
  {
    room[..14] + [0x48] + room[15..23] + [47, 0, 0] + room[26..30] + pgw
    + [1, 1, 1, 1, 1, 1, 1, 1, 1, 1, 1, 1] + [0, 0, 0x80, 0] + room[50..]
  }

  lemma GreAddressed(r: seq<Byte>, pgw: seq<Byte>)
    requires |r| >= 50 && |pgw| == 4
    ensures Over(Over(r, 14, [0x48]), 30, pgw) == r[..14] + [0x48] + r[15..30] + pgw + r[34..]
  {
    OverParts(r, 14, r[..14], [r[14]], r[15..], [0x48]);
    OverParts(r[..14] + [0x48] + r[15..], 30, r[..14] + [0x48] + r[15..30], r[30..34], r[34..], pgw);
  }

  lemma GreProtocol(x: seq<Byte>, y: seq<Byte>, z: seq<Byte>)
    requires |x| == 15 && |y| == 15
    ensures Over(Over(x + y + z, 23, [47]), 24, [0, 0]) == x + y[..8] + [47, 0, 0] + y[11..] + z
  {
    OverParts(x + y + z, 23, x + y[..8], [y[8]], y[9..] + z, [47]);
    assert x + y[..8] + [47] + (y[9..] + z) == x + y[..8] + [47] + y[9..11] + (y[11..] + z);
    OverParts(x + y[..8] + [47] + (y[9..] + z), 24, x + y[..8] + [47], y[9..11], y[11..] + z, [0, 0]);
  }

  lemma GreOptions(head: seq<Byte>, z: seq<Byte>)
    requires |head| == 34 && |z| >= 16
    ensures Over(Over(head + z, 34, [1, 1, 1, 1, 1, 1, 1, 1, 1, 1, 1, 1]), 46, [0, 0, 0x80, 0]) ==
            head + [1, 1, 1, 1, 1, 1, 1, 1, 1, 1, 1, 1] + [0, 0, 0x80, 0] + z[16..]
  {
    var nops: seq<Byte> := [1, 1, 1, 1, 1, 1, 1, 1, 1, 1, 1, 1];
    OverParts(head + z, 34, head, z[..12], z[12..], nops);
    OverParts(head + nops + z[12..], 46, head + nops, z[12..16], z[16..], [0, 0, 0x80, 0]);
  }

  lemma GreInPlace(r: seq<Byte>, pgw: seq<Byte>)
    requires |r| >= 50 && |pgw| == 4
    ensures Over(Over(Over(Over(Over(Over(r, 14, [0x48]), 30, pgw), 23, [47]), 24, [0, 0]),
                      34, [1, 1, 1, 1, 1, 1, 1, 1, 1, 1, 1, 1]), 46, [0, 0, 0x80, 0]) == Gre(r, pgw)
  {
    var x, y := r[..14] + [0x48], r[15..30];
    GreAddressed(r, pgw);
    assert x + y + pgw + r[34..] == x + y + (pgw + r[34..]);
    GreProtocol(x, y, pgw + r[34..]);
    assert y[..8] == r[15..23] && y[11..] == r[26..30];
    var head := x + r[15..23] + [47, 0, 0] + r[26..30] + pgw;
    assert x + y[..8] + [47, 0, 0] + y[11..] + (pgw + r[34..]) == head + r[34..];
    GreOptions(head, r[34..]);
    assert r[34..][16..] == r[50..];
  }

  /** A store that replaces the middle of three parts. */
  lemma OverParts(s: seq<Byte>, at: nat, x: seq<Byte>, y: seq<Byte>, z: seq<Byte>, b: seq<Byte>)
    requires s == x + y + z && |x| == at && |b| == |y|
    ensures Over(s, at, b) == x + b + z
  {
    assert s[..at] == x && s[at + |b|..] == z;
  }

  class Gtpu2GreWorker {
    const pgw: seq<Byte>            // the configured address, as it lies in memory

    constructor (pgw: seq<Byte>)
      requires |pgw| == 4
      ensures this.pgw == pgw
    {
      this.pgw := pgw;
    }

    method ModifyPacket(m: Buffer)
      requires |pgw| == 4 && m.Valid() && |m.Room()| >= 50
      modifies m`ptype, m.buf
      ensures m.Valid() && m.Room() == Gre(old(m.Room()), pgw) && m.ptype == 0x2010
    {
      m.Write(14, [0x48]);
      m.Write(30, pgw);
      m.Write(23, [47]);
      m.Write(24, [0, 0]);
      m.Write(34, [1, 1, 1, 1, 1, 1, 1, 1, 1, 1, 1, 1]);
      m.Write(46, [0, 0, 0x80, 0]);
      m.ptype := 0x2010;
      GreInPlace(old(m.Room()), pgw);
    }
  }

  // -------------------------------------------------------------------- terminate GRE

  /** What termination leaves: the Ethernet header, with the type corrected for
      a non-IPv4 inner packet, and the inner packet. */
  function Terminated(room: seq<Byte>): (r: seq<Byte>)
    requires |room| >= 51
    ensures |r| == |room| - TUNNEL
  {
    (if room[50] / 16 == 4 then room[..14] else room[..12] + TYPE_IPV6) + room[50..]
  }

  lemma TerminatedInPlace(room: seq<Byte>, eh: seq<Byte>)
    requires |room| >= 51
    requires eh == if room[TUNNEL..][14] / 16 == 4 then room[..14] else room[..14][..12] + TYPE_IPV6
    ensures room[TUNNEL..][14] == room[50]
    ensures Over(room[TUNNEL..], 0, eh) == Terminated(room)
  {
    assert room[..14][..12] == room[..12];
    assert room[TUNNEL..][14..] == room[50..];
  }

  function InnerType(p: bv32, v4: bool): bv32 {
    if v4 then p | 0x10 else (p & !0x10) | 0x40
  }

  /** The new type says IPv4, or else IPv6 only; and for the GRE worker's own type it
      is the plain one. */
  lemma InnerTypeBits(p: bv32, v4: bool)
    ensures IsV4(InnerType(p, v4)) == v4 && (v4 || IsV6(InnerType(p, v4)))
    ensures InnerType(0x2010, v4) == if v4 then 0x2010 else 0x2040
  {
  }

  /** A GRE capsule: protocol 47 behind a header of eight 32-bit words. */
  predicate IsGre(room: seq<Byte>)
    requires |room| >= 51
  {
    room[23] == 47 && 4 * (room[14] % 16) == 32
  }

  class GretermWorker {
    var dropped: nat

    constructor ()
      ensures dropped == 0
    {
      dropped := 0;
    }

    /** The part after the checks: strip 36 bytes and put the header back. */
    method Strip(m: Buffer) returns (ok: bool)
      requires m.Valid() && |m.Room()| >= 51
      modifies m, m.buf
      ensures m.Valid() && ok == (old(m.len) >= TUNNEL)
      ensures ok ==> m.off == old(m.off) + TUNNEL && m.len == old(m.len) - TUNNEL
      ensures ok ==> m.Room() == Terminated(old(m.Room()))
      ensures ok ==> m.ptype == InnerType(old(m.ptype), old(m.Room())[50] / 16 == 4)
    {
      ghost var room := m.Room();
      var eh := m.Room()[..14];
      ok := m.Adj(TUNNEL);
      if !ok {
        return;
      }
      var v4 := m.Room()[14] / 16 == 4;
      m.ptype := InnerType(m.ptype, v4);
      if !v4 {
        eh := eh[..12] + TYPE_IPV6;
      }
      m.Write(0, eh);
      TerminatedInPlace(room, eh);
    }

    /** Anything but GRE behind a 32-byte IPv4 header is dropped. */
    method ModifyPacket(m: Buffer) returns (ok: bool)
      requires m.Valid() && |m.Room()| >= 51
      modifies this, m, m.buf
      ensures m.Valid()
      ensures ok == (old(m.Room())[23] == 47 && old(m.Room())[14] % 16 == 8 && old(m.len) >= 36)
      ensures dropped == if ok then old(dropped) else old(dropped) + 1
      ensures ok ==> m.off == old(m.off) + TUNNEL && m.len == old(m.len) - TUNNEL
      ensures ok ==> m.Room() == Terminated(old(m.Room()))
      ensures ok ==> m.ptype == InnerType(old(m.ptype), old(m.Room())[50] / 16 == 4)
    {
      ok := false;
      if IsGre(m.Room()) {
        ok := Strip(m);
      }
      if !ok {
        dropped := dropped + 1;
      }
    }
  }
}
