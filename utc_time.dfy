/**
 * UTC calendar days over timestamps.
 *
 * A timestamp is a whole number of milliseconds since the Unix epoch, as
 * `Date.prototype.getTime` gives it. The UTC calendar day of a timestamp is
 * the number of whole days since the epoch, rounded down; the `YYYY-MM-DD`
 * string that `getDateStringFromUTC` produces is a one-to-one rendering of
 * that number, so two such strings are equal exactly when the day numbers are.
 */
module UtcTime {

  /** 1000 ms * 60 s * 60 min * 24 h. */
  const MsPerDay: int := 86400000

  /** The UTC calendar day of `ts` (the day number behind `getDateStringFromUTC`). */
  function UtcDay(ts: int): (d: int)
    ensures d * MsPerDay <= ts < (d + 1) * MsPerDay
  {
    ts / MsPerDay
  }

  /** `Date.UTC(y, m, d)` of the timestamp's own UTC date: its UTC midnight. */
  function UtcMidnight(ts: int): (m: int)
    ensures m <= ts < m + MsPerDay
    ensures m % MsPerDay == 0
  {
    UtcDay(ts) * MsPerDay
  }

  function Abs(x: int): nat
  {
    if x < 0 then -x else x
  }

  /**
   * `getDaysDifference`: the two UTC midnights are subtracted, the difference
   * in milliseconds is divided by the length of a day and rounded down
   * (`Math.floor`, which for a positive divisor is Dafny's `/`), and the
   * absolute value is taken. The result is the distance between UTC day
   * numbers, not elapsed time.
   */
  function DaysDifference(t1: int, t2: int): (r: nat)
    ensures r == Abs(UtcDay(t1) - UtcDay(t2))
  {
    var diffTime := UtcMidnight(t1) - UtcMidnight(t2);
    MultipleDiv(UtcDay(t1) - UtcDay(t2));
    var diffDays := diffTime / MsPerDay;
    Abs(diffDays)
  }

  lemma MultipleDiv(k: int)
    ensures (k * MsPerDay) / MsPerDay == k
  {
  }

  /** The distance is symmetric and zero exactly on the same UTC day. */
  lemma DaysDifferenceSymmetric(t1: int, t2: int)
    ensures DaysDifference(t1, t2) == DaysDifference(t2, t1)
    ensures DaysDifference(t1, t2) == 0 <==> UtcDay(t1) == UtcDay(t2)
  {
  }

  /**
   * Two instants less than a day apart are at most one UTC day apart, and
   * one UTC day apart whenever a UTC midnight lies between them; conversely
   * instants more than a day apart are never on the same UTC day.
   */
  lemma DaysDifferenceVersusElapsed(t1: int, t2: int)
    requires t1 <= t2
    ensures t2 - t1 < MsPerDay ==> DaysDifference(t1, t2) <= 1
    ensures t2 - t1 < MsPerDay && UtcMidnight(t2) > t1 ==> DaysDifference(t1, t2) == 1
    ensures t2 - t1 >= MsPerDay ==> DaysDifference(t1, t2) >= 1
  {
  }
}
