# fairport utility integers in Dafny

This project models the integer utilities of `fairport/util/util.h` from the
fairport MS-PST reader:

- `filetime_to_time_t` and `time_t_to_filetime` convert between a Win32
  FILETIME and a time_t. A FILETIME counts 100 ns ticks since 1601-01-01. A
  time_t counts seconds since 1970-01-01. Both conversions go through the
  constant `jan1970 = 116444736000000000`, the FILETIME of the Unix epoch.
- `test_bit` tests one bit of a byte buffer. Bits are numbered from the most
  significant bit of byte 0.

Files:

- `primitives.dfy` (module `Primitives`): the fixed-width types. `byte` is
  `bv8`. `ulong`, `ulonglong` and `time_t` are subsets of `int` of 32, 64 and
  signed 64 bits. `Wrap64` is reduction modulo 2^64, used wherever the C code
  relies on unsigned wrap-around.
- `calendar.dfy` (module `Calendar`): a Gregorian calendar reference. It
  proves that 1601-01-01 is 11644473600 seconds before 1970-01-01
  (369 years, 89 of them leap years). This checks the `jan1970` constant
  independently of the code.
- `util.dfy` (module `Util`): the three functions and their properties.

Modelling choices:

- `filetime_to_time_t` is modelled exactly as written. The subtraction
  `filetime - jan1970` is on unsigned 64-bit values. It therefore wraps modulo
  2^64 for a FILETIME before 1970, and the model writes out that wrap.
- In `time_t_to_filetime`, `time * 10000000` is a signed 64-bit multiply.
  Signed overflow is undefined behaviour in C, so the model makes "the product
  fits" (`ProductFits`) a precondition. The product is then converted to
  unsigned modulo 2^64, which wraps every negative time_t. The unsigned
  `+ jan1970` wraps it back for instants from 1601 up to 1970. The net result
  differs from the integer sum only before 1601, where it is the negative tick
  count plus 2^64. The model writes out both wraps.
- `test_bit` reads through a raw pointer with no bound check. The model takes
  the buffer as a `seq<byte>` and requires that byte `bit / 8` exists. For the
  unsigned 32-bit index, `bit >> 3` is `bit / 8` and `bit & 7` is `bit % 8`.
  The model writes it that way. The byte-and-mask step is the `bv8`
  expression `b & (0x80 >> s)`.
- `BitOf(n, k)` is an independent arithmetic definition of binary digit `k`
  of a number. `TestBit` is proved to return exactly `BitOf` of digit
  `7 - bit % 8` of byte `bit / 8`.

## Model

| member | source | states |
|---|---|---|
| `Util.FiletimeToTimeT` | fairport/util/util.h:193-198 | From 1970 on, the result is the number of whole seconds since 1970, rounded down. Before 1970, it counts the difference wrapped modulo 2^64, so it is never negative. |
| `Util.TimeTToFiletime` | fairport/util/util.h:200-205 | From 1601 on, the result is the exact number of 100 ns ticks since 1601-01-01, using the calendar distance between the epochs. Before 1601, it is that negative count plus 2^64. The signed product must not overflow. |
| `Util.Jan1970IsEpochDistance` | fairport/util/util.h:195 | The `jan1970` constant equals the Gregorian distance from 1601-01-01 to 1970-01-01, in ticks. |
| `Calendar.SecondsFrom1601To1970` | fairport/util/util.h:72-73 | The Gregorian calendar puts 11644473600 seconds between 1601-01-01 and 1970-01-01. |
| `Util.AddWrapsExactlyFrom1601To1970` | fairport/util/util.h:204 | After the product is converted to unsigned, adding `jan1970` overflows 64 bits exactly when the time_t is from 1601 on and negative. |
| `Util.UnixEpoch` | fairport/util/util.h:195-204 | time_t 0 maps to 116444736000000000. That FILETIME maps back to 0. |
| `Util.RoundTrip` | fairport/util/util.h:193-205 | Every non-negative time_t whose product fits converts to a FILETIME and back unchanged. |
| `Util.SameSecondSameTimeT` | fairport/util/util.h:193-198 | Every FILETIME in the k-th second after 1970 converts to time_t k, so sub-second ticks are truncated. |
| `Util.LowerRoundTrip` | fairport/util/util.h:193-205 | From 1970 on, converting a FILETIME to time_t and back gives a value at most the original and less than one second below it. |
| `Util.GaloisConnection` | fairport/util/util.h:193-205 | From 1970 on, for a time_t t and a FILETIME f: `TimeTToFiletime(t) <= f` holds if and only if `t <= FiletimeToTimeT(f)`. |
| `Util.TimeTToFiletimeStrictlyIncreasing` | fairport/util/util.h:200-205 | On instants from 1601 on whose product fits, a later time_t gives a strictly larger FILETIME. |
| `Util.FiletimeToTimeTMonotone` | fairport/util/util.h:193-198 | From 1970 on, a larger FILETIME never gives a smaller time_t. |
| `Util.PreEpochRoundTripFails` | fairport/util/util.h:193-205 | For every negative time_t, the round trip returns `t + 1844674407370` instead of `t`. |
| `Util.OneSecondBefore1970` | fairport/util/util.h:193-205 | time_t -1 becomes FILETIME 116444735990000000, and that FILETIME converts to 1844674407369. |
| `Util.NotMonotoneAcross1970` | fairport/util/util.h:193-198 | One tick before 1970 converts to a later time_t than 1970 itself. |
| `Util.FiletimeToTimeTSigned` | fairport/util/util.h:193-198 | Corrected conversion: the signed whole seconds from 1970, truncated toward zero, for FILETIMEs on both sides of 1970. |
| `Util.SignedRoundTrip` | fairport/util/util.h:193-205 | The corrected conversion inverts `TimeTToFiletime` on every instant from 1601 on whose product fits, including negative time_t. |
| `Util.SignedAgreesFrom1970` | fairport/util/util.h:193-198 | From 1970 on, the corrected conversion equals the original one. |
| `Util.SignedMonotone` | fairport/util/util.h:193-198 | Over the whole FILETIME range, the corrected conversion never decreases. |
| `Util.TestBit` | fairport/util/util.h:217-220 | The result is true exactly when binary digit `7 - bit % 8` of byte `bit / 8` is 1. That byte must exist. |
| `Util.MaskSelectsBit` | fairport/util/util.h:219 | The mask `0x80 >> s` is non-zero in a byte exactly when the byte's binary digit `7 - s` is 1. |
| `Util.MostSignificantBitFirst` | fairport/util/util.h:217-220 | Bit 0 is mask 0x80 of byte 0, bit 7 is mask 0x01 of byte 0, and bit 8 is mask 0x80 of byte 1. This includes bits 7 and 8 of two-byte buffers. |
| `Util.TestBitReadsOneByte` | fairport/util/util.h:217-220 | The result depends only on byte `bit / 8`. Two buffers that agree on that byte agree on the bit. |
| `Util.TestBitDeterminesBuffer` | fairport/util/util.h:110-115 | Two equally long buffers, all of whose bits fit a 32-bit index, are equal when they agree on every bit. |

## Findings

| source | as written | input that shows it | evidently intended | confidence | as-written member | corrected member |
|---|---|---|---|---|---|---|
| fairport/util/util.h:193-198 | `(filetime - jan1970) / 10000000` subtracts in unsigned 64-bit arithmetic. A FILETIME before 1970 wraps to a huge positive time_t. So every negative time_t fails the round trip through `time_t_to_filetime`. | time_t -1 (1969-12-31 23:59:59) gives FILETIME 116444735990000000, which converts back to 1844674407369 instead of -1. | A signed count of seconds from 1970, so that every time_t from 1601 on whose product fits round-trips. | medium, not executed | `Util.OneSecondBefore1970` | `Util.FiletimeToTimeTSigned` |

The as-written conversion `Util.FiletimeToTimeT` is the model of the code.
`Util.PreEpochRoundTripFails` gives the general form of the discrepancy:
every negative time_t comes back shifted by `floor(2^64 / 10^7)` seconds.
`Util.NotMonotoneAcross1970` shows that the result also drops at 1970.
The corrected conversion is proved to round-trip on every time_t from 1601
on whose product fits (`Util.SignedRoundTrip`). It is proved to agree with the code from 1970
on (`Util.SignedAgreesFrom1970`) and to be monotone everywhere
(`Util.SignedMonotone`). Rounding toward zero matches a signed C division.
Rounding down would also satisfy these properties.

## Left out

- The `fairport::file` class (fairport/util/util.h:31-67, 119-191) is left out: constructor, move operations, destructor, `read`, `write`. It is file I/O through `fopen`, `fseek`/`_fseeki64`, `fread`, `fwrite` and `fclose`. Its out-of-range errors come from the C library, not from a bound check in the code.
- `vt_date_to_time_t` and `time_t_to_vt_date` (fairport/util/util.h:98, 108, 207-215) are left out. They work on `double`, and their bodies only throw `not_implemented`.
- `fairport/util/primatives.h` and `fairport/util/errors.h` are not part of this model. The integer widths are assumed: 8-bit `byte`, 32-bit `ulong`, 64-bit `ulonglong` and 64-bit signed `time_t`. A platform with a 32-bit `time_t` is not modelled.
- The node/block database layer (block tree, node tree, subnode trees, block reader, indirection chains) is not part of this model.
- Util.TimeTToFiletime: requires that `time * 10000000` fits in a signed 64-bit value. Overflow there is undefined behaviour in C, so no result is modelled for it.
- Util.TestBit: requires the byte at index `bit / 8` to exist. The C code reads past the buffer without a check, which is undefined behaviour.
- Util.RoundTrip: covers only non-negative time_t. For negative time_t, the code does not round-trip (see Findings).
