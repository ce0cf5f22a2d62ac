/**
  The integer utilities of fairport/util/util.h: conversion between a Win32
  FILETIME (100 ns ticks since 1601-01-01) and a time_t (seconds since
  1970-01-01), and the test of one bit in a byte buffer.
 */
module Util {
  import opened Primitives
  import Calendar

  // ---------------------------------------------------------------------------
  // FILETIME <-> time_t
  // ---------------------------------------------------------------------------

  /** A FILETIME tick is 100 ns. */
  const TicksPerSecond: int := 10_000_000

  /** The FILETIME of 1970-01-01 00:00 UTC (the local `jan1970` of both conversions). */
  const Jan1970: uint64 := 116_444_736_000_000_000

  /** Whole seconds from 1601-01-01 to 1970-01-01. */
  const EpochSeconds: int := Jan1970 / TicksPerSecond

  /** The constant is the calendar distance between the two epochs, in ticks. */
  lemma Jan1970IsEpochDistance()
    ensures Jan1970 == Calendar.SecondsFrom1601To1970() * TicksPerSecond
    ensures EpochSeconds == Calendar.SecondsFrom1601To1970()
  {
  }

  /**
    The signed 64-bit product `time * 10000000` does not overflow. Signed
    overflow is undefined behaviour in C, so callers of TimeTToFiletime owe it.
   */
  predicate ProductFits(t: int64) {
    INT64_MIN <= t * TicksPerSecond <= INT64_MAX
  }

  /** `t` is not before 1601 and its product fits: the domain where the conversion is exact. */
  predicate Representable(t: int64) {
    ProductFits(t) && -EpochSeconds <= t
  }

  /**
    filetime_to_time_t as written: the subtraction is on unsigned 64-bit values,
    so it wraps modulo 2^64 for a FILETIME before 1970, and the unsigned quotient
    is then read as a time_t (it always fits, being below 2^64 / 10^7).
   */
  function FiletimeToTimeT(filetime: uint64): (t: int64)
    // From 1970 on: the number of whole seconds elapsed since 1970 (rounded down).
    ensures Jan1970 <= filetime ==>
      t * TicksPerSecond <= filetime - Jan1970 < (t + 1) * TicksPerSecond
    // Before 1970: the wrapped difference is counted instead, never a negative time.
    ensures filetime < Jan1970 ==>
      0 <= t && t * TicksPerSecond <= filetime - Jan1970 + TWO_TO_64 < (t + 1) * TicksPerSecond
  {
    Wrap64(filetime - Jan1970) / TicksPerSecond
  }

  /**
    time_t_to_filetime as written: a signed multiply (which must not overflow);
    the product is converted to unsigned modulo 2^64, which wraps every negative
    time_t, and the unsigned add of `jan1970` wraps it back for instants from
    1601 up to 1970 (see AddWrapsExactlyFrom1601To1970). The net result differs
    from the integer sum only before 1601.
   */
  function TimeTToFiletime(t: int64): (filetime: uint64)
    requires ProductFits(t)
    // From 1601 on: the exact number of ticks since 1601-01-01.
    ensures -EpochSeconds <= t ==>
      filetime == (Calendar.SecondsFrom1601To1970() + t) * TicksPerSecond
    // Before 1601: the negative tick count taken modulo 2^64.
    ensures t < -EpochSeconds ==>
      filetime == TWO_TO_64 + (Calendar.SecondsFrom1601To1970() + t) * TicksPerSecond
  {
    Jan1970IsEpochDistance();
    Wrap64(Wrap64(t * TicksPerSecond) + Jan1970)
  }

  /** The unsigned add in time_t_to_filetime overflows exactly for instants from 1601 up to 1970. */
  lemma AddWrapsExactlyFrom1601To1970(t: int64)
    requires ProductFits(t)
    ensures Wrap64(t * TicksPerSecond) + Jan1970 >= TWO_TO_64 <==> -EpochSeconds <= t < 0
  {
  }

  /** The Unix epoch maps to the constant in both directions. */
  lemma UnixEpoch()
    ensures TimeTToFiletime(0) == 116_444_736_000_000_000
    ensures FiletimeToTimeT(116_444_736_000_000_000) == 0
  {
  }

  /** Every non-negative time_t whose product fits survives the round trip. */
  lemma RoundTrip(t: int64)
    requires 0 <= t && ProductFits(t)
    ensures FiletimeToTimeT(TimeTToFiletime(t)) == t
  {
  }

  /** All FILETIMEs within one second from 1970 on give the same time_t. */
  lemma SameSecondSameTimeT(filetime: uint64, k: nat)
    requires Jan1970 + k * TicksPerSecond <= filetime < Jan1970 + (k + 1) * TicksPerSecond
    ensures FiletimeToTimeT(filetime) == k
  {
  }

  /**
    Converting back gives the start of the FILETIME's second: never later than
    the original, and less than one second earlier.
   */
  lemma LowerRoundTrip(filetime: uint64)
    requires Jan1970 <= filetime && ProductFits(FiletimeToTimeT(filetime))
    ensures TimeTToFiletime(FiletimeToTimeT(filetime)) <= filetime
    ensures filetime - TimeTToFiletime(FiletimeToTimeT(filetime)) < TicksPerSecond
  {
  }

  /**
    From 1970 on the two conversions form a Galois connection: a time_t is at or
    before a FILETIME exactly when it is at or before that FILETIME's time_t.
   */
  lemma GaloisConnection(t: int64, filetime: uint64)
    requires 0 <= t && ProductFits(t) && Jan1970 <= filetime
    ensures TimeTToFiletime(t) <= filetime <==> t <= FiletimeToTimeT(filetime)
  {
  }

  /** time_t_to_filetime is strictly increasing where it does not wrap. */
  lemma TimeTToFiletimeStrictlyIncreasing(t1: int64, t2: int64)
    requires Representable(t1) && Representable(t2) && t1 < t2
    ensures TimeTToFiletime(t1) < TimeTToFiletime(t2)
  {
  }

  /** filetime_to_time_t never decreases from 1970 on. */
  lemma FiletimeToTimeTMonotone(ft1: uint64, ft2: uint64)
    requires Jan1970 <= ft1 <= ft2
    ensures FiletimeToTimeT(ft1) <= FiletimeToTimeT(ft2)
  {
  }

  /**
    The unsigned wrap breaks every negative time_t: the round trip adds
    floor(2^64 / 10^7) seconds instead of returning the original.
   */
  lemma PreEpochRoundTripFails(t: int64)
    requires t < 0 && ProductFits(t)
    ensures FiletimeToTimeT(TimeTToFiletime(t)) == t + 1_844_674_407_370
  {
  }

  /** One second before 1970 comes back as a time in the year 60000-odd. */
  lemma OneSecondBefore1970()
    ensures TimeTToFiletime(-1) == 116_444_735_990_000_000
    ensures FiletimeToTimeT(116_444_735_990_000_000) == 1_844_674_407_369
  {
  }

  /** One tick before 1970 converts to a later time than 1970 itself. */
  lemma NotMonotoneAcross1970()
    ensures FiletimeToTimeT(Jan1970 - 1) > FiletimeToTimeT(Jan1970)
  {
  }

  /**
    filetime_to_time_t as evidently intended: the signed difference from 1970
    in whole seconds, truncated toward zero, computed without any wrap.
   */
  function FiletimeToTimeTSigned(filetime: uint64): (t: int64)
    ensures Jan1970 <= filetime ==>
      t * TicksPerSecond <= filetime - Jan1970 < (t + 1) * TicksPerSecond
    ensures filetime < Jan1970 ==>
      t <= 0 && (t - 1) * TicksPerSecond < filetime - Jan1970 <= t * TicksPerSecond
  {
    if Jan1970 <= filetime then (filetime - Jan1970) / TicksPerSecond
    else
      var before := Jan1970 - filetime;
      assert before / TicksPerSecond <= EpochSeconds;
      -(before / TicksPerSecond)
  }

  /** The corrected conversion inverts time_t_to_filetime on every time_t from 1601 on whose product fits. */
  lemma SignedRoundTrip(t: int64)
    requires Representable(t)
    ensures FiletimeToTimeTSigned(TimeTToFiletime(t)) == t
  {
  }

  /** The corrected conversion changes nothing from 1970 on. */
  lemma SignedAgreesFrom1970(filetime: uint64)
    requires Jan1970 <= filetime
    ensures FiletimeToTimeTSigned(filetime) == FiletimeToTimeT(filetime)
  {
  }

  /** The corrected conversion never decreases, over the whole FILETIME range. */
  lemma SignedMonotone(ft1: uint64, ft2: uint64)
    requires ft1 <= ft2
    ensures FiletimeToTimeTSigned(ft1) <= FiletimeToTimeTSigned(ft2)
  {
  }

  // ---------------------------------------------------------------------------
  // test_bit
  // ---------------------------------------------------------------------------

  /** Binary digit `k` of the natural number `n` (digit 0 is the least significant). */
  predicate BitOf(n: nat, k: nat) {
    if k == 0 then n % 2 == 1 else BitOf(n / 2, k - 1)
  }

  /**
    test_bit: bit `bit` of the buffer, most significant bit of each byte first.
    For an unsigned index `bit >> 3` is `bit / 8` and `bit & 7` is `bit % 8`.
    The original does no bound check, so the byte it reads must exist.
   */
  function TestBit(bytes: seq<byte>, bit: uint32): (isSet: bool)
    requires bit / 8 < |bytes|
    ensures isSet == BitOf(bytes[bit / 8] as int, 7 - bit % 8)
  {
    MaskSelectsBit(bytes[bit / 8], bit % 8);
    bytes[bit / 8] & (0x80 >> (bit % 8)) != 0
  }

  lemma ShiftRightOneHalves(x: byte)
    ensures (x >> 1) as int == x as int / 2
  {
  }

  lemma ShiftRightSplits(x: byte, k: nat)
    requires 1 <= k < 8
    ensures x >> k == (x >> 1) >> (k - 1)
  {
  }

  lemma LowBitIsParity(x: byte)
    ensures (x & 1 == 1) <==> (x as int) % 2 == 1
  {
  }

  /** Shifting a byte right by `k` brings its binary digit `k` to the bottom. */
  lemma {:induction false} ShiftedLowBit(x: byte, k: nat)
    requires k < 8
    ensures ((x >> k) & 1 == 1) <==> BitOf(x as int, k)
  {
    if k == 0 {
      LowBitIsParity(x);
    } else {
      ShiftRightOneHalves(x);
      ShiftRightSplits(x, k);
      ShiftedLowBit(x >> 1, k - 1);
    }
  }

  /** The mask `0x80 >> s` selects binary digit `7 - s` of the byte. */
  lemma MaskSelectsBit(x: byte, s: nat)
    requires s < 8
    ensures (x & (0x80 >> s) != 0) <==> BitOf(x as int, 7 - s)
  {
    assert (x & (0x80 >> s) != 0) <==> (x >> (7 - s)) & 1 == 1;
    ShiftedLowBit(x, 7 - s);
  }

  /** Bits are numbered from the most significant bit of byte 0, across byte boundaries. */
  lemma MostSignificantBitFirst()
    ensures TestBit([0x80], 0) && !TestBit([0x80], 7)
    ensures TestBit([0x01], 7) && !TestBit([0x01], 0)
    ensures TestBit([0x00, 0x80], 8) && !TestBit([0x80, 0x00], 8)
    ensures TestBit([0x01, 0x80], 7) && TestBit([0x01, 0x80], 8)
    ensures !TestBit([0x80, 0x01], 7) && !TestBit([0x80, 0x01], 8)
  {
  }

  /** test_bit looks at byte `bit / 8` only: buffers agreeing there agree on the bit. */
  lemma TestBitReadsOneByte(a: seq<byte>, b: seq<byte>, bit: uint32)
    requires bit / 8 < |a| && bit / 8 < |b| && a[bit / 8] == b[bit / 8]
    ensures TestBit(a, bit) == TestBit(b, bit)
  {
  }

  /** The low eight binary digits of `n` and `m` agree. */
  predicate SameLowByteDigits(n: nat, m: nat) {
    forall k: nat | k < 8 :: BitOf(n, k) == BitOf(m, k)
  }

  /** A byte is determined by its eight binary digits. */
  lemma BitsDetermineByte(x: byte, y: byte)
    requires SameLowByteDigits(x as int, y as int)
    ensures x == y
  {
    ShiftedLowBit(x, 0); ShiftedLowBit(y, 0);
    ShiftedLowBit(x, 1); ShiftedLowBit(y, 1);
    ShiftedLowBit(x, 2); ShiftedLowBit(y, 2);
    ShiftedLowBit(x, 3); ShiftedLowBit(y, 3);
    ShiftedLowBit(x, 4); ShiftedLowBit(y, 4);
    ShiftedLowBit(x, 5); ShiftedLowBit(y, 5);
    ShiftedLowBit(x, 6); ShiftedLowBit(y, 6);
    ShiftedLowBit(x, 7); ShiftedLowBit(y, 7);
    assert BitOf(x as int, 0) == BitOf(y as int, 0) && BitOf(x as int, 1) == BitOf(y as int, 1);
    assert BitOf(x as int, 2) == BitOf(y as int, 2) && BitOf(x as int, 3) == BitOf(y as int, 3);
    assert BitOf(x as int, 4) == BitOf(y as int, 4) && BitOf(x as int, 5) == BitOf(y as int, 5);
    assert BitOf(x as int, 6) == BitOf(y as int, 6) && BitOf(x as int, 7) == BitOf(y as int, 7);
  }

  lemma BitIndexSplits(i: nat, j: nat)
    requires j < 8
    ensures (8 * i + j) / 8 == i && (8 * i + j) % 8 == j
  {
  }

  /**
    test_bit loses nothing: two equally long buffers (every bit addressable by a
    32-bit index) that agree on every bit are equal.
   */
  lemma TestBitDeterminesBuffer(a: seq<byte>, b: seq<byte>)
    requires |a| == |b| <= TWO_TO_32 / 8
    requires forall bit: uint32 | bit < 8 * |a| :: TestBit(a, bit) == TestBit(b, bit)
    ensures a == b
  {
    forall i | 0 <= i < |a| ensures a[i] == b[i] {
      var x, y := a[i] as int, b[i] as int;
      forall k: nat | k < 8 ensures BitOf(x, k) == BitOf(y, k) {
        BitIndexSplits(i, 7 - k);
        var bit: uint32 := 8 * i + (7 - k);
        assert TestBit(a, bit) == TestBit(b, bit);
      }
      BitsDetermineByte(a[i], b[i]);
    }
  }
}
