/**
  A Gregorian calendar reference, used only to pin down the distance between
  the two epochs the utility layer converts between: 1601-01-01, where a
  FILETIME counts from, and 1970-01-01, where a time_t counts from.
 */
module Calendar {

  const SecondsPerDay: int := 86_400

  /** Gregorian rule: every fourth year, except centuries not divisible by 400. */
  predicate IsLeapYear(y: int) {
    y % 4 == 0 && (y % 100 != 0 || y % 400 == 0)
  }

  function DaysInYear(y: int): (d: int)
    ensures d == 365 || d == 366
  {
    if IsLeapYear(y) then 366 else 365
  }

  /** Number of days from January 1st of year `lo` to January 1st of year `hi`. */
  function DaysBetween(lo: int, hi: int): int
    decreases hi - lo
  {
    if hi <= lo then 0 else DaysBetween(lo, hi - 1) + DaysInYear(hi - 1)
  }

  /** Number of leap years among years 1..y (for y >= 0), by the usual counting formula. */
  function LeapYearsThrough(y: int): int {
    y / 4 - y / 100 + y / 400
  }

  /** The counting formula grows by one exactly at a leap year. */
  lemma LeapStep(y: int)
    ensures LeapYearsThrough(y) - LeapYearsThrough(y - 1) == if IsLeapYear(y) then 1 else 0
  {
    assert y / 4 - (y - 1) / 4 == if y % 4 == 0 then 1 else 0;
    assert y / 100 - (y - 1) / 100 == if y % 100 == 0 then 1 else 0;
    assert y / 400 - (y - 1) / 400 == if y % 400 == 0 then 1 else 0;
    assert y % 400 == 0 ==> y % 100 == 0;
    assert y % 100 == 0 ==> y % 4 == 0;
  }

  /** Closed form of DaysBetween: 365 days a year plus one per leap year in between. */
  lemma {:induction false} DaysBetweenClosedForm(lo: int, hi: int)
    requires lo <= hi
    ensures DaysBetween(lo, hi) == 365 * (hi - lo) + LeapYearsThrough(hi - 1) - LeapYearsThrough(lo - 1)
    decreases hi - lo
  {
    if lo < hi {
      DaysBetweenClosedForm(lo, hi - 1);
      LeapStep(hi - 1);
    }
  }

  /** Seconds from 1601-01-01 00:00 UTC to 1970-01-01 00:00 UTC. */
  function SecondsFrom1601To1970(): (s: int)
    ensures s == 11_644_473_600
  {
    DaysBetweenClosedForm(1601, 1970);
    DaysBetween(1601, 1970) * SecondsPerDay
  }
}
