/** A packet buffer: a byte array, the position and length of the packet in it,
    and the packet type word. */
module Mbuf {
  import opened Octets

  /** Bytes written over part of a sequence. */
  function Over(s: seq<Byte>, at: nat, b: seq<Byte>): (r: seq<Byte>)
    requires at + |b| <= |s|
    ensures |r| == |s|
  {
    s[..at] + b + s[at + |b|..]
  }

  lemma OverKeeps(s: seq<Byte>, at: nat, b: seq<Byte>, i: nat, j: nat)
    requires at + |b| <= |s| && i <= j <= |s| && (j <= at || at + |b| <= i)
    ensures Over(s, at, b)[i..j] == s[i..j]
  {
  }

  class Buffer {
    const buf: array<Byte>
    var off: nat
    var len: nat
    var ptype: bv32

    constructor (buf: array<Byte>, off: nat, len: nat, ptype: bv32)
      requires off + len <= buf.Length
      ensures this.buf == buf && this.off == off && this.len == len && this.ptype == ptype && Valid()
    {
      this.buf, this.off, this.len, this.ptype := buf, off, len, ptype;
    }

    predicate Valid()
      reads this
    {
      off + len <= buf.Length
    }

    /** The bytes from the start of the packet to the end of the buffer. */
    function Room(): (r: seq<Byte>)
      requires Valid()
      reads this, buf
      ensures |r| == buf.Length - off && len <= |r|
    {
      buf[off..]
    }

    /** rte_pktmbuf_prepend: the packet grows into the headroom, if it fits. */
    method Prepend(n: nat) returns (ok: bool)
      requires Valid()
      modifies this`off, this`len
      ensures Valid() && ok == (n <= old(off))
      ensures if ok then off == old(off) - n && len == old(len) + n else off == old(off) && len == old(len)
      ensures ok ==> Room()[n..] == old(Room())
    {
      ok := n <= off;
      if ok {
        off, len := off - n, len + n;
      }
    }

    /** rte_pktmbuf_adj: the packet loses its first bytes, if it has them. */
    method Adj(n: nat) returns (ok: bool)
      requires Valid()
      modifies this`off, this`len
      ensures Valid() && ok == (n <= old(len))
      ensures if ok then off == old(off) + n && len == old(len) - n else off == old(off) && len == old(len)
      ensures ok ==> Room() == old(Room())[n..]
    {
      ok := n <= len;
      if ok {
        off, len := off + n, len - n;
      }
    }

    method Write(at: nat, b: seq<Byte>)
      requires Valid() && at + |b| <= |Room()|
      modifies buf
      ensures Room() == Over(old(Room()), at, b)
    {
      forall i | 0 <= i < |b| {
        buf[off + at + i] := b[i];
      }
      assert Room() == Over(old(Room()), at, b);
    }
  }
}
