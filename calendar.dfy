/**
 * Gregorian calendar knowledge and the wall-clock fields of a date.
 *
 * A date is a `Civil` value: year, month 0..11, day of month, hours,
 * minutes, seconds and milliseconds, as the getters of a JavaScript `Date`
 * report them in local time. The weekday is not stored: as in JavaScript it
 * follows from year, month and day.
 */
module Calendar {
  import opened Wrappers

  /** The `MonthDay` table: the length of every month in a common year. */
  const MonthDays: seq<int> := [31, 28, 31, 30, 31, 30, 31, 31, 30, 31, 30, 31]

  /**
   * The Gregorian rule. Only divisibility is tested, so JavaScript's
   * truncating `%` and Dafny's Euclidean `%` agree here for every year.
   */
  predicate IsLeapYear(year: int) {
    year % 4 == 0 && (year % 100 != 0 || year % 400 == 0)
  }

  /** `fetchMonthDays`: the number of days of `month` (0-based) in `year`. */
  function FetchMonthDays(year: int, month: int): (days: int)
    requires 0 <= month < 12
    ensures 28 <= days <= 31
    ensures days == 29 <==> month == 1 && IsLeapYear(year)
    ensures days == 28 <==> month == 1 && !IsLeapYear(year)
  {
    if month == 1 && IsLeapYear(year) then 29 else MonthDays[month]
  }

  /** Leap years for four sample years: 2000 and 2024 are leap years, 1900 and 2023 are not. */
  lemma LeapYearSamples()
    ensures IsLeapYear(2000) && !IsLeapYear(1900) && IsLeapYear(2024) && !IsLeapYear(2023)
  {
  }

  /** Only February depends on the year; every other month has a fixed length. */
  lemma MonthLengthFixed(y1: int, y2: int, month: int)
    requires 0 <= month < 12 && month != 1
    ensures FetchMonthDays(y1, month) == FetchMonthDays(y2, month) == MonthDays[month]
  {
  }

  /**
   * The weekday (0 = Sunday) of a Gregorian date, by Sakamoto's method; the
   * floor division that Dafny's `/` is for a positive divisor makes it valid
   * for years before 1 as well.
   */
  function DayOfWeek(year: int, month: int, day: int): (w: int)
    requires 0 <= month < 12
    ensures 0 <= w < 7
  {
    (YearOffset(if month < 2 then year - 1 else year) + MonthOffset[month] + day) % 7
  }

  /** Sakamoto's month offsets. */
  const MonthOffset: seq<int> := [0, 3, 2, 5, 0, 3, 5, 1, 4, 6, 2, 4]

  /** The year's contribution to the weekday: one per year and one per leap day. */
  function YearOffset(y: int): int {
    y + y / 4 - y / 100 + y / 400
  }

  /** Consecutive years' offsets differ by one more day when the later year is a leap year. */
  lemma YearOffsetStep(y: int)
    ensures YearOffset(y) == YearOffset(y - 1) + 1 + (if IsLeapYear(y) then 1 else 0)
  {
    DivStep(y, 4);
    DivStep(y, 100);
    DivStep(y, 400);
    DivisibilityChain(y);
  }

  lemma ModSeven(x: int, k: int)
    ensures (x + 7 * k) % 7 == x % 7
    ensures (x + 1) % 7 == (x % 7 + 1) % 7
  {
  }

  /** The number of multiples of `k` in `(y - 1, y]`. */
  lemma DivStep(y: int, k: int)
    requires k > 0
    ensures y / k - (y - 1) / k == if y % k == 0 then 1 else 0
  {
    var q, r := (y - 1) / k, (y - 1) % k;
    assert y - 1 == k * q + r && 0 <= r < k;
    if r == k - 1 {
      assert y == k * (q + 1) + 0;
      DivUnique(y, k, q + 1, 0);
    } else {
      assert y == k * q + (r + 1);
      DivUnique(y, k, q, r + 1);
    }
  }

  /** Quotient and remainder are determined by the division equation. */
  lemma DivUnique(n: int, d: int, q: int, r: int)
    requires d > 0 && 0 <= r < d && n == d * q + r
    ensures n / d == q && n % d == r
  {
    var q', r' := n / d, n % d;
    assert n == d * q' + r' && 0 <= r' < d;
    if q' < q {
      assert d * q' + d <= d * q by { MulLe(d, q' + 1, q); }
    } else if q' > q {
      assert d * q + d <= d * q' by { MulLe(d, q + 1, q'); }
    }
  }

  lemma MulLe(d: int, a: int, b: int)
    requires d > 0 && a <= b
    ensures d * a <= d * b
  {
  }

  /** Years divisible by 100 are divisible by 4, and those divisible by 400 by 100. */
  lemma DivisibilityChain(y: int)
    ensures y % 100 == 0 ==> y % 4 == 0
    ensures y % 400 == 0 ==> y % 100 == 0
  {
    if y % 100 == 0 {
      DivUnique(y, 4, 25 * (y / 100), 0);
    }
    if y % 400 == 0 {
      DivUnique(y, 100, 4 * (y / 400), 0);
    }
  }

  /**
   * The weekday advances by exactly one from each valid day to the next,
   * across month ends, February in leap and common years and the year end.
   */
  lemma {:induction false} WeekdayAdvances(year: int, month: int, day: int)
    requires 0 <= month < 12 && 1 <= day <= FetchMonthDays(year, month)
    ensures day < FetchMonthDays(year, month) ==>
              DayOfWeek(year, month, day + 1) == (DayOfWeek(year, month, day) + 1) % 7
    ensures day == FetchMonthDays(year, month) && month < 11 ==>
              DayOfWeek(year, month + 1, 1) == (DayOfWeek(year, month, day) + 1) % 7
    ensures day == FetchMonthDays(year, month) && month == 11 ==>
              DayOfWeek(year + 1, 0, 1) == (DayOfWeek(year, month, day) + 1) % 7
  {
    var x := YearOffset(if month < 2 then year - 1 else year) + MonthOffset[month] + day;
    ModSeven(x, 0);
    if day == FetchMonthDays(year, month) {
      if month == 1 {
        YearOffsetStep(year);
        ModSeven(x + 1, -4);
      } else if month < 11 {
        ModSeven(x + 1, (MonthOffset[month + 1] - MonthOffset[month] - day) / 7);
      } else {
        ModSeven(x + 1, -5);
      }
    }
  }

  /** The wall-clock fields of a date. */
  datatype Civil = Civil(year: int, month: int, day: int,
                         hours: int, minutes: int, seconds: int, millis: int)
  {
    /** Fields a JavaScript `Date` can report: no overflowed day, hour or minute. */
    predicate Valid() {
      && 0 <= month < 12
      && 1 <= day <= FetchMonthDays(year, month)
      && 0 <= hours < 24 && 0 <= minutes < 60 && 0 <= seconds < 60
      && 0 <= millis < 1000
    }

    /** `getDay()`: 0 for Sunday through 6 for Saturday. */
    function Weekday(): (w: int)
      requires Valid()
      ensures 0 <= w < 7
    {
      DayOfWeek(year, month, day)
    }
  }

  /** 1 January 1970 was a Thursday. */
  lemma EpochIsThursday()
    ensures Civil(1970, 0, 1, 0, 0, 0, 0).Weekday() == 4
  {
  }

  /**
   * What `verifyDayYear` does to the fields: the day is checked against the
   * TARGET year's month and lowered to its last day if it does not fit,
   * then the year is set.
   */
  function WithYear(c: Civil, year: int): (r: Civil)
    requires c.Valid()
    ensures r.Valid()
    ensures r == c.(year := year, day := r.day)
    ensures r.day <= c.day && (r.day == c.day || r.day == FetchMonthDays(year, c.month))
  {
    var days := FetchMonthDays(year, c.month);
    var clamped := if days < c.day then c.(day := days) else c;
    clamped.(year := year)
  }

  /**
   * What `verifyDayMonth` does to the fields: the day is checked against the
   * TARGET month of the same year and lowered if needed, then the month is set.
   */
  function WithMonth(c: Civil, month: int): (r: Civil)
    requires c.Valid() && 0 <= month < 12
    ensures r.Valid()
    ensures r == c.(month := month, day := r.day)
    ensures r.day <= c.day && (r.day == c.day || r.day == FetchMonthDays(c.year, month))
  {
    var days := FetchMonthDays(c.year, month);
    var clamped := if days < c.day then c.(day := days) else c;
    clamped.(month := month)
  }

  function Min(a: int, b: int): int {
    if a <= b then a else b
  }

  /** The day after a year change is the old day capped at the target month's length. */
  lemma WithYearDay(c: Civil, year: int)
    requires c.Valid()
    ensures WithYear(c, year).day == Min(c.day, FetchMonthDays(year, c.month))
    ensures WithYear(c, year).day == c.day <==> c.day <= FetchMonthDays(year, c.month)
  {
  }

  /** The day after a month change is the old day capped at the target month's length. */
  lemma WithMonthDay(c: Civil, month: int)
    requires c.Valid() && 0 <= month < 12
    ensures WithMonth(c, month).day == Min(c.day, FetchMonthDays(c.year, month))
    ensures WithMonth(c, month).day == c.day <==> c.day <= FetchMonthDays(c.year, month)
  {
  }

  /** 29 February 2024 moved to 2023 becomes 28 February 2023. */
  lemma LeapDayToCommonYear()
    ensures WithYear(Civil(2024, 1, 29, 10, 30, 0, 0), 2023) == Civil(2023, 1, 28, 10, 30, 0, 0)
  {
  }

  /** 31 January 2023 moved to April becomes 30 April 2023. */
  lemma JanuaryEndToApril()
    ensures WithMonth(Civil(2023, 0, 31, 8, 0, 0, 0), 3) == Civil(2023, 3, 30, 8, 0, 0, 0)
  {
  }

  /** Moving to a year and back restores the date whenever no clamping happened. */
  lemma WithYearRoundTrip(c: Civil, year: int)
    requires c.Valid() && c.day <= FetchMonthDays(year, c.month)
    ensures WithYear(WithYear(c, year), c.year) == c
  {
  }

  /** Moving to a month and back restores the date whenever no clamping happened. */
  lemma WithMonthRoundTrip(c: Civil, month: int)
    requires c.Valid() && 0 <= month < 12 && c.day <= FetchMonthDays(c.year, month)
    ensures WithMonth(WithMonth(c, month), c.month) == c
  {
  }

  /** `setDate(day)` on a date whose month has that day: nothing else changes. */
  function WithDay(c: Civil, day: int): (r: Civil)
    requires c.Valid() && 1 <= day <= FetchMonthDays(c.year, c.month)
    ensures r.Valid() && r.day == day
    ensures r == c.(day := day)
  {
    c.(day := day)
  }

  /**
   * JavaScript truthiness of an optional numeric argument: a missing
   * argument and 0 are both false.
   */
  predicate Truthy(x: Option<int>) {
    x.Some? && x.value != 0
  }

  /**
   * The fields after the year and month steps of `createDate`: the clock's
   * day is capped first by its month in the new year, then by the new month.
   */
  function CreatedYearMonth(now: Civil, year: Option<int>, month: Option<int>): (r: Civil)
    requires now.Valid()
    requires Truthy(month) ==> 0 <= month.value < 12
    ensures r.Valid()
    ensures r.year == if Truthy(year) then year.value else now.year
    ensures r.month == if Truthy(month) then month.value else now.month
    ensures r.day == Min(Min(now.day, FetchMonthDays(r.year, now.month)), FetchMonthDays(r.year, r.month))
    ensures r == now.(year := r.year, month := r.month, day := r.day)
  {
    var afterYear := if Truthy(year) then WithYear(now, year.value) else now;
    if Truthy(month) then WithMonth(afterYear, month.value) else afterYear
  }

  /** What `createDate` may be given: a real month and a day its month has. */
  predicate CreateAllowed(now: Civil, year: Option<int>, month: Option<int>, day: Option<int>) {
    && now.Valid()
    && (Truthy(month) ==> 0 <= month.value < 12)
    && (Truthy(day) ==>
          1 <= day.value <= FetchMonthDays(CreatedYearMonth(now, year, month).year,
                                           CreatedYearMonth(now, year, month).month))
  }

  /**
   * The fields `createDate` produces from the clock reading `now`: year,
   * then month, then day, each applied only when truthy.
   */
  function CreatedFields(now: Civil, year: Option<int>, month: Option<int>, day: Option<int>): (r: Civil)
    requires CreateAllowed(now, year, month, day)
    ensures r.Valid()
    ensures r.year == if Truthy(year) then year.value else now.year
    ensures r.month == if Truthy(month) then month.value else now.month
    ensures Truthy(day) ==> r.day == day.value
    ensures !Truthy(day) ==> r.day == Min(Min(now.day, FetchMonthDays(r.year, now.month)), FetchMonthDays(r.year, r.month))
    ensures r.hours == now.hours && r.minutes == now.minutes && r.seconds == now.seconds
    ensures r.millis == now.millis
  {
    var c := CreatedYearMonth(now, year, month);
    if Truthy(day) then WithDay(c, day.value) else c
  }

  /**
   * Without a truthy day, the clock's day is kept exactly when it fits both
   * its month in the new year and the new month; otherwise it is lowered.
   */
  lemma CreatedDayWithoutDay(now: Civil, year: Option<int>, month: Option<int>)
    requires CreateAllowed(now, year, month, None)
    ensures var r := CreatedFields(now, year, month, None);
            r.day == now.day <==>
            now.day <= FetchMonthDays(r.year, now.month) && now.day <= FetchMonthDays(r.year, r.month)
    ensures CreatedFields(now, year, month, None).day <= now.day
    ensures !Truthy(year) && !Truthy(month) ==> CreatedFields(now, year, month, None) == now
  {
  }

  /** Month 0 (January) counts as absent: the clock's month is kept. */
  lemma CreateIgnoresJanuary()
    ensures CreatedFields(Civil(2024, 5, 15, 9, 0, 0, 0), Some(2025), Some(0), Some(10))
            == Civil(2025, 5, 10, 9, 0, 0, 0)
  {
  }

  /**
   * The year is applied before the month: from 31 March 2023, year 2024 and
   * February give 29 February 2024, whereas applying the month first would
   * clamp against 2023 and give the 28th.
   */
  lemma CreateAppliesYearFirst()
    ensures CreatedFields(Civil(2023, 2, 31, 0, 0, 0, 0), Some(2024), Some(1), None).day == 29
    ensures WithYear(WithMonth(Civil(2023, 2, 31, 0, 0, 0, 0), 1), 2024).day == 28
  {
  }

  /**
   * `weight`: a coarse day number, every month counted as 30 days and every
   * year as 365.
   */
  function Weight(c: Civil): int {
    c.year * 365 + (c.month + 1) * 30 + c.day
  }

  /** Calendar order on the date part: year, then month, then day. */
  predicate DayNotAfter(a: Civil, b: Civil) {
    a.year < b.year || (a.year == b.year && (a.month < b.month || (a.month == b.month && a.day <= b.day)))
  }

  /** The weight never decreases in calendar order. */
  lemma WeightMonotone(a: Civil, b: Civil)
    requires a.Valid() && b.Valid() && DayNotAfter(a, b)
    ensures Weight(a) <= Weight(b)
  {
    if a.year < b.year {
      assert a.year * 365 + 365 <= b.year * 365;
    }
  }

  /** Different days can share a weight: 31 January and 1 February of any year. */
  lemma WeightCollision(year: int)
    ensures Weight(Civil(year, 0, 31, 0, 0, 0, 0)) == Weight(Civil(year, 1, 1, 0, 0, 0, 0))
  {
  }

  /** Milliseconds since local midnight. */
  function TimeOfDay(c: Civil): int {
    ((c.hours * 60 + c.minutes) * 60 + c.seconds) * 1000 + c.millis
  }

  /** `normalizeMinTime`: the same day at 00:00:00.000. */
  function MinTime(c: Civil): (r: Civil)
    requires c.Valid()
    ensures r.Valid() && TimeOfDay(r) == 0
    ensures (r.year, r.month, r.day) == (c.year, c.month, c.day)
  {
    c.(hours := 0, minutes := 0, seconds := 0, millis := 0)
  }

  /** `normalizeMaxTime`: the same day at 23:59:59.000, the milliseconds set to 0. */
  function MaxTime(c: Civil): (r: Civil)
    requires c.Valid()
    ensures r.Valid() && TimeOfDay(r) == 86399000
    ensures (r.year, r.month, r.day) == (c.year, c.month, c.day)
  {
    c.(hours := 23, minutes := 59, seconds := 59, millis := 0)
  }

  /** Only a time inside the day's last second lies after `normalizeMaxTime`. */
  lemma MaxTimeLastSecond(c: Civil)
    requires c.Valid()
    ensures TimeOfDay(c) <= TimeOfDay(MaxTime(c)) <==>
            !(c.hours == 23 && c.minutes == 59 && c.seconds == 59 && c.millis > 0)
  {
  }
}
