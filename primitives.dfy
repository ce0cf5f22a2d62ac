/**
  Fixed-width integer types used by the utility layer.

  The original declares them in fairport/util/primatives.h, which is not part
  of this model; their widths are the ones of the usual MS-PST toolchains:
  `byte` is an unsigned 8-bit value, `ulong` an unsigned 32-bit value,
  `ulonglong` an unsigned 64-bit value and `time_t` a signed 64-bit value.
  Integers here are unbounded, so every width is a subset of `int` and every
  wrap-around is written out where the original relies on it.
 */
module Primitives {

  const TWO_TO_32: int := 0x1_0000_0000
  const TWO_TO_64: int := 0x1_0000_0000_0000_0000
  const INT64_MIN: int := -0x8000_0000_0000_0000
  const INT64_MAX: int := 0x7FFF_FFFF_FFFF_FFFF

  /** An unsigned 8-bit byte; bit operations on it are those of `bv8`. */
  type byte = bv8

  /** `ulong`: unsigned 32-bit. */
  type uint32 = x: int | 0 <= x < TWO_TO_32

  /** `ulonglong`: unsigned 64-bit. */
  type uint64 = x: int | 0 <= x < TWO_TO_64

  /** `time_t`: signed 64-bit seconds. */
  type int64 = x: int | INT64_MIN <= x <= INT64_MAX

  /** Reduction modulo 2^64: what an unsigned 64-bit register keeps of `x`. */
  function Wrap64(x: int): (r: uint64)
    ensures (r - x) % TWO_TO_64 == 0
    ensures 0 <= x < TWO_TO_64 ==> r == x
  {
    x % TWO_TO_64
  }
}
