/** The 64-bit time stamp: 34 bits of seconds above 30 bits of nanoseconds. */
module Timestamps {
  import opened Bits

  const BITS_NANO: nat := 30
  const MASK_NANO: nat := 0x3FFFFFFF
  const MASK_SECS: nat := 0x3FFFFFFFF

  /** `(sec << 30) + nsec`; sec below 2^33 keeps the signed shift of the source in range. */
  function Pack(sec: UnixSec, nsec: nat): uint64
    requires nsec < 0x4000_0000
  {
    sec * 0x4000_0000 + nsec
  }

  /** log2mem_ts_to_timespec, seconds and sub-second part. */
  function Seconds(ts: uint64): nat {
    And(Shr(ts, BITS_NANO), MASK_SECS)
  }

  function Nanos(ts: uint64): nat {
    And(ts, MASK_NANO)
  }

  /** The microseconds of log2mem_ts_to_timeval. */
  function Micros(ts: uint64): nat {
    Nanos(ts) / 1000
  }

  // The clock sources of the row options
  const GETTIMEOFDAY: nat := 0x04
  const CLOCKGETTIME: nat := 0x08
  const RDTSC: nat := 0x0C

  /** Seconds for which the signed shift of the source stays in range, and valid parts of a second. */
  type UnixSec = s: int | 0 <= s < 0x2_0000_0000
  type Usec = u: int | 0 <= u < 1_000_000
  type Nsec = n: int | 0 <= n < 1_000_000_000

  /** What the clocks read at one moment: the cycle counter, gettimeofday and clock_gettime. */
  datatype Clock = Clock(tsc: uint64, sec: UnixSec, usec: Usec, nsec: Nsec)

  /** The stamp of each clock source: clock_gettime directly, gettimeofday scaled to nanoseconds. */
  function FromTimespec(sec: UnixSec, nsec: Nsec): uint64 {
    Pack(sec, nsec)
  }

  function FromTimeval(sec: UnixSec, usec: Usec): uint64 {
    Pack(sec, usec * 1000)
  }

  /** log2mem_time. */
  function Stamp(source: nat, c: Clock): uint64 {
    if source == RDTSC then c.tsc
    else if source == GETTIMEOFDAY then FromTimeval(c.sec, c.usec)
    else if source == CLOCKGETTIME then FromTimespec(c.sec, c.nsec)
    else 0
  }

  lemma MaskValues()
    ensures Pow2(30) - 1 == MASK_NANO && Pow2(34) - 1 == MASK_SECS
  {
    Pow2Add(15, 15);
    assert Pow2(15) == 0x8000;
    Pow2Add(30, 4);
    assert Pow2(4) == 16;
  }

  lemma Unpack(sec: UnixSec, nsec: nat)
    requires nsec < 0x4000_0000
    ensures Seconds(Pack(sec, nsec)) == sec && Nanos(Pack(sec, nsec)) == nsec
  {
    hide And, Shr, Pow2;
    MaskValues();
    var ts := Pack(sec, nsec);
    DivModUnique(ts, 0x4000_0000, sec, nsec);
    ShrIsDiv(ts, BITS_NANO);
    MaskIsMod(ts, 30);
    MaskIsMod(sec, 34);
    DivModUnique(sec, 0x4_0000_0000, 0, sec);
  }

  /** The parts of any stamp: above bit 30, and below. */
  lemma StampParts(ts: uint64)
    ensures Seconds(ts) == ts / 0x4000_0000 && Nanos(ts) == ts % 0x4000_0000
  {
    hide And, Shr, Pow2;
    MaskValues();
    ShrIsDiv(ts, BITS_NANO);
    MaskIsMod(ts, 30);
    MaskIsMod(ts / 0x4000_0000, 34);
    DivModUnique(ts / 0x4000_0000, 0x4_0000_0000, 0, ts / 0x4000_0000);
  }

  /** For either clock, unpacking gives back the packed time. */
  lemma TimespecRoundTrip(sec: UnixSec, nsec: Nsec)
    ensures Seconds(FromTimespec(sec, nsec)) == sec && Nanos(FromTimespec(sec, nsec)) == nsec
  {
    Unpack(sec, nsec);
  }

  lemma TimevalRoundTrip(sec: UnixSec, usec: Usec)
    ensures Seconds(FromTimeval(sec, usec)) == sec && Micros(FromTimeval(sec, usec)) == usec
  {
    Unpack(sec, usec * 1000);
    DivModUnique(usec * 1000, 1000, usec, 0);
  }

  /** Comparing stamps as numbers compares times. */
  lemma OrderIsTimeOrder(sec: UnixSec, nsec: nat, sec': UnixSec, nsec': nat)
    requires nsec < 0x4000_0000 && nsec' < 0x4000_0000
    ensures Pack(sec, nsec) < Pack(sec', nsec') <==> (sec < sec' || (sec == sec' && nsec < nsec'))
  {
  }
}
