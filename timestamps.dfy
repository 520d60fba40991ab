/**
 * Operations on `getTime()` values, the milliseconds since the epoch:
 * `pendingTime`, `refactorFromTimestamp`, `refactorFromDays`,
 * `refactorFromMonth`, `timeDifference` and the comparison predicates, plus
 * `isSameWeight` on the wall-clock fields.
 */
module Timestamps {
  import Calendar

  /** The `Miliseconds` table: fixed magnitudes, a month being 30 days and a year 365. */
  const Second: int := 1000
  const Minute: int := 60000
  const Hour: int := 3600000
  const Day: int := 86400000
  const Week: int := 604800000
  const Month: int := 2592000000
  const Year: int := 31536000000

  /** Each magnitude is a whole number of the next smaller one. */
  lemma MagnitudeRatios()
    ensures Minute == 60 * Second && Hour == 60 * Minute && Day == 24 * Hour
    ensures Week == 7 * Day && Month == 30 * Day && Year == 365 * Day
  {
  }

  /** The `PendingTime` record. */
  datatype Pending = Pending(years: int, months: int, weeks: int, days: int,
                             hours: int, minutes: int, seconds: int)

  /** `q` is the floor of `n / d`: the largest whole number of `d` not above `n`. */
  predicate IsFloorQuotient(q: int, n: int, d: int) {
    d * q <= n < d * q + d
  }

  /**
   * `pendingTime(initial, future)`: the difference in every unit, each the
   * floor of the whole difference by that unit, independently of the others,
   * so negative when `future` is before `initial`.
   */
  function PendingTime(initial: int, future: int): (p: Pending)
    ensures var diff := future - initial;
            && IsFloorQuotient(p.years, diff, Year)
            && IsFloorQuotient(p.months, diff, Month)
            && IsFloorQuotient(p.weeks, diff, Week)
            && IsFloorQuotient(p.days, diff, Day)
            && IsFloorQuotient(p.hours, diff, Hour)
            && IsFloorQuotient(p.minutes, diff, Minute)
            && IsFloorQuotient(p.seconds, diff, Second)
  {
    var difference := future - initial;
    Pending(difference / Year, difference / Month, difference / Week, difference / Day,
            difference / Hour, difference / Minute, difference / Second)
  }

  /** No difference, no pending time. */
  lemma PendingTimeZero(t: int)
    ensures PendingTime(t, t) == Pending(0, 0, 0, 0, 0, 0, 0)
  {
  }

  /** One millisecond before: every field is -1, as floor division rounds down. */
  lemma PendingTimeNegative(t: int)
    ensures PendingTime(t, t - 1) == Pending(-1, -1, -1, -1, -1, -1, -1)
  {
  }

  /** Floor division twice is floor division by the product. */
  lemma DivDiv(n: int, a: int, b: int)
    requires a > 0 && b > 0
    ensures n / a / b == n / (a * b)
  {
    var q, r := n / a, n % a;
    var q2, r2 := q / b, q % b;
    assert n == a * q + r;
    assert q == b * q2 + r2;
    assert n == (a * b) * q2 + (a * r2 + r) by {
      assert a * q == a * (b * q2) + a * r2;
      assert a * (b * q2) == (a * b) * q2;
    }
    assert a * r2 <= a * (b - 1) by { Calendar.MulLe(a, r2, b - 1); }
    assert a * (b - 1) == a * b - a;
    Calendar.DivUnique(n, a * b, q2, a * r2 + r);
  }

  /**
   * The fields are independent totals, yet consistent with one another:
   * each coarser field is the floor of a finer one by the unit ratio.
   */
  lemma PendingTimeConsistent(initial: int, future: int)
    ensures var p := PendingTime(initial, future);
            && p.minutes == p.seconds / 60 && p.hours == p.minutes / 60
            && p.days == p.hours / 24 && p.weeks == p.days / 7
            && p.months == p.days / 30 && p.years == p.days / 365
  {
    var diff := future - initial;
    DivDiv(diff, Second, 60);
    DivDiv(diff, Minute, 60);
    DivDiv(diff, Hour, 24);
    DivDiv(diff, Day, 7);
    DivDiv(diff, Day, 30);
    DivDiv(diff, Day, 365);
  }

  /** A year and a month ahead: 1 year, but 13 months, not the 1 left after the year. */
  lemma PendingTimeNotCascading(t: int)
    ensures PendingTime(t, t + Year + Month).years == 1
    ensures PendingTime(t, t + Year + Month).months == 13
    ensures PendingTime(t, t + Year + Month).days == 395
  {
  }

  /** `timeDifference(date, compare)`. */
  function TimeDifference(date: int, compare: int): int {
    date - compare
  }

  /** `refactorFromTimestamp`: the instant `timestamp` milliseconds later. */
  function RefactorFromTimestamp(date: int, timestamp: int): (r: int)
    ensures TimeDifference(r, date) == timestamp
  {
    date + timestamp
  }

  /** `refactorFromDays`: the instant `days` fixed 24-hour days later, one by default. */
  function RefactorFromDays(date: int, days: int := 1): (r: int)
    ensures TimeDifference(r, date) == days * Day
    ensures PendingTime(date, r).days == days && PendingTime(date, r).hours == 24 * days
  {
    RefactorFromTimestamp(date, days * Day)
  }

  /** `refactorFromMonth`: the instant `months` fixed 30-day months later, one by default. */
  function RefactorFromMonth(date: int, months: int := 1): (r: int)
    ensures TimeDifference(r, date) == months * Month
    ensures PendingTime(date, r).months == months && PendingTime(date, r).days == 30 * months
  {
    RefactorFromTimestamp(date, months * Month)
  }

  /** `isEquals`. */
  predicate IsEquals(date: int, compare: int) {
    date == compare
  }

  /** `isBefore(date, compare)`: true when `compare` comes before `date`. */
  predicate IsBefore(date: int, compare: int) {
    date > compare
  }

  /** `isBeforeOrEquals`. */
  predicate IsBeforeOrEquals(date: int, compare: int) {
    date >= compare
  }

  /** `isAfter(date, compare)`: true when `compare` comes after `date`. */
  predicate IsAfter(date: int, compare: int) {
    date < compare
  }

  /** `isAfterOrEquals`. */
  predicate IsAfterOrEquals(date: int, compare: int) {
    date <= compare
  }

  /**
   * The comparisons in terms of the difference: the names read `compare`
   * relative to `date`, so `IsBefore` holds when the difference is positive.
   */
  lemma ComparisonsByDifference(date: int, compare: int)
    ensures IsEquals(date, compare) <==> TimeDifference(date, compare) == 0
    ensures IsBefore(date, compare) <==> TimeDifference(date, compare) > 0
    ensures IsAfter(date, compare) <==> TimeDifference(date, compare) < 0
    ensures IsBeforeOrEquals(date, compare) <==> IsBefore(date, compare) || IsEquals(date, compare)
    ensures IsAfterOrEquals(date, compare) <==> IsAfter(date, compare) || IsEquals(date, compare)
  {
  }

  /** Exactly one of before, after and equal holds, and before and after are converse. */
  lemma ComparisonsTrichotomy(a: int, b: int)
    ensures (if IsBefore(a, b) then 1 else 0) + (if IsAfter(a, b) then 1 else 0)
            + (if IsEquals(a, b) then 1 else 0) == 1
    ensures IsBefore(a, b) <==> IsAfter(b, a)
  {
  }

  /** `isBetween(minDate, maxDate, compare)`: `compare` strictly inside the range. */
  predicate IsBetween(minDate: int, maxDate: int, compare: int) {
    IsAfter(minDate, compare) && IsBefore(maxDate, compare)
  }

  /** `IsBetween` is exactly strict inclusion in the open interval. */
  lemma IsBetweenInterval(minDate: int, maxDate: int, compare: int)
    ensures IsBetween(minDate, maxDate, compare) <==> minDate < compare < maxDate
  {
  }

  /**
   * `isBetweenOrEquals` as written: the two bounds are joined by `||`, so
   * one bound being met is enough.
   */
  predicate IsBetweenOrEquals(minDate: int, maxDate: int, compare: int) {
    IsAfterOrEquals(minDate, compare) || IsBeforeOrEquals(maxDate, compare)
  }

  /**
   * As written, `isBetweenOrEquals` holds of EVERY instant once the range is
   * ordered, for instance of 30 for the range 10 to 20.
   */
  lemma IsBetweenOrEqualsAlwaysHolds(minDate: int, maxDate: int, compare: int)
    requires minDate <= maxDate
    ensures IsBetweenOrEquals(minDate, maxDate, compare)
    ensures IsBetweenOrEquals(10, 20, 30) && !(10 <= 30 <= 20)
  {
  }

  /** The evidently intended `isBetweenOrEquals`: both bounds met, in the closed range. */
  predicate IsWithinOrEquals(minDate: int, maxDate: int, compare: int) {
    IsAfterOrEquals(minDate, compare) && IsBeforeOrEquals(maxDate, compare)
  }

  /** The corrected predicate is inclusion in the closed interval and contains `IsBetween`. */
  lemma IsWithinOrEqualsInterval(minDate: int, maxDate: int, compare: int)
    ensures IsWithinOrEquals(minDate, maxDate, compare) <==> minDate <= compare <= maxDate
    ensures IsBetween(minDate, maxDate, compare) ==> IsWithinOrEquals(minDate, maxDate, compare)
    ensures !IsWithinOrEquals(10, 20, 30)
  {
  }

  /** `isSameWeight`: both dates have the same coarse day number. */
  predicate IsSameWeight(date: Calendar.Civil, compare: Calendar.Civil) {
    Calendar.Weight(date) == Calendar.Weight(compare)
  }

  /**
   * Two instants of the same calendar day have the same weight; the converse
   * fails (see `Calendar.WeightCollision`), and a strictly later day never
   * has a smaller weight.
   */
  lemma IsSameWeightSameDay(date: Calendar.Civil, compare: Calendar.Civil)
    requires date.Valid() && compare.Valid()
    ensures (date.year, date.month, date.day) == (compare.year, compare.month, compare.day) ==>
              IsSameWeight(date, compare)
    ensures Calendar.DayNotAfter(date, compare) ==> Calendar.Weight(date) <= Calendar.Weight(compare)
  {
    if Calendar.DayNotAfter(date, compare) {
      Calendar.WeightMonotone(date, compare);
    }
  }
}
