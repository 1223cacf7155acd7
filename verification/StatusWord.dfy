/** The shared status word: a status code in the low byte, pending signals in
    the two top bits. */
module StatusWord {

  const DC: bv64       := 0x01
  const INIT: bv64     := 0x02
  const PREPARE: bv64  := 0x04
  const BUSYLOOP: bv64 := 0x08
  const CFGLOAD: bv64  := 0x10
  const CFGACK: bv64   := 0x20
  const CFGSWAP: bv64  := 0x40

  const SIGUSR1: bv64 := 0x4000_0000_0000_0000
  const SIGUSR2: bv64 := 0x8000_0000_0000_0000

  /** The status code: the low byte. */
  function Stat(w: bv64): bv64 { w & 0xFF }

  /** The pending signals: the two top bits. */
  function Signals(w: bv64): bv64 { w & 0xC000_0000_0000_0000 }

  function WithStat(w: bv64, c: bv64): bv64 {
    (w & 0xFFFF_FFFF_FFFF_FF00) | (c & 0xFF)
  }

  function WithSignal(w: bv64, s: bv64): bv64 {
    (w & 0x3FFF_FFFF_FFFF_FFFF) | (s & 0xC000_0000_0000_0000)
  }

  function WithoutSignals(w: bv64): bv64 {
    w & 0x3FFF_FFFF_FFFF_FFFF
  }

  /** Status stores and signal stores act on disjoint fields. */
  lemma StatStore(w: bv64, c: bv64)
    ensures Signals(WithStat(w, c)) == Signals(w)
    ensures Stat(WithStat(w, c)) == Stat(c)
  {
  }

  lemma SignalStore(w: bv64, s: bv64)
    ensures Stat(WithSignal(w, s)) == Stat(w)
    ensures Signals(WithSignal(w, s)) == Signals(s)
  {
  }

  lemma SignalReset(w: bv64)
    ensures Stat(WithoutSignals(w)) == Stat(w)
    ensures Signals(WithoutSignals(w)) == 0
  {
  }

  /** A status store and a signal store commute: neither can undo the other. */
  lemma StoresCommute(w: bv64, c: bv64, s: bv64)
    ensures WithStat(WithSignal(w, s), c) == WithSignal(WithStat(w, c), s)
  {
  }
}
