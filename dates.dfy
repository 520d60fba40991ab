/**
 * The mutable JavaScript `Date` and the operations that copy one and then
 * change it step by step: `verifyDayYear`, `verifyDayMonth`, `refactorYear`,
 * `refactorMonth`, `refactorDay`, `createDate`, `normalizeMinTime` and
 * `normalizeMaxTime`.
 */
module Dates {
  import opened Wrappers
  import opened Calendar

  /**
   * A `Date` seen through its local-time getters and setters. The setters
   * are given only values that need no roll-over into the next month or day.
   */
  class Date {
    var year: int
    var month: int
    var day: int
    var hours: int
    var minutes: int
    var seconds: int
    var millis: int

    /** The fields the getters report. */
    function Fields(): Civil
      reads this
    {
      Civil(year, month, day, hours, minutes, seconds, millis)
    }

    predicate Valid()
      reads this
    {
      Fields().Valid()
    }

    /** `new Date(...)` holding the given fields. */
    constructor FromFields(c: Civil)
      requires c.Valid()
      ensures Valid() && Fields() == c
    {
      year, month, day := c.year, c.month, c.day;
      hours, minutes, seconds, millis := c.hours, c.minutes, c.seconds, c.millis;
    }

    /** `setDate(d)` with a day the current month has. */
    method SetDate(d: int)
      requires Valid() && 1 <= d <= FetchMonthDays(year, month)
      modifies this
      ensures Valid() && Fields() == old(Fields()).(day := d)
    {
      day := d;
    }

    /** `setFullYear(y)` when the current day exists in that year's month. */
    method SetFullYear(y: int)
      requires Valid() && day <= FetchMonthDays(y, month)
      modifies this
      ensures Valid() && Fields() == old(Fields()).(year := y)
    {
      year := y;
    }

    /** `setMonth(m)` when the current day exists in month `m`. */
    method SetMonth(m: int)
      requires Valid() && 0 <= m < 12 && day <= FetchMonthDays(year, m)
      modifies this
      ensures Valid() && Fields() == old(Fields()).(month := m)
    {
      month := m;
    }

    /** `setHours`, `setMinutes`, `setSeconds` and `setMilliseconds` in one step. */
    method SetTime(h: int, mi: int, s: int, ms: int)
      requires Valid() && 0 <= h < 24 && 0 <= mi < 60 && 0 <= s < 60 && 0 <= ms < 1000
      modifies this
      ensures Valid()
      ensures Fields() == old(Fields()).(hours := h, minutes := mi, seconds := s, millis := ms)
    {
      hours, minutes, seconds, millis := h, mi, s, ms;
    }
  }

  /**
   * `verifyDayYear`: lower the day to the last day of the month in the
   * target year if it does not fit there, then set the year.
   */
  method VerifyDayYear(date: Date, year: int)
    requires date.Valid()
    modifies date
    ensures date.Valid() && date.Fields() == WithYear(old(date.Fields()), year)
  {
    var days := FetchMonthDays(year, date.month);
    if days < date.day {
      date.SetDate(days);
    }
    date.SetFullYear(year);
  }

  /**
   * `verifyDayMonth`: lower the day to the last day of the target month of
   * the same year if it does not fit there, then set the month.
   */
  method VerifyDayMonth(date: Date, month: int)
    requires date.Valid() && 0 <= month < 12
    modifies date
    ensures date.Valid() && date.Fields() == WithMonth(old(date.Fields()), month)
  {
    var days := FetchMonthDays(date.year, month);
    if days < date.day {
      date.SetDate(days);
    }
    date.SetMonth(month);
  }

  /** `refactorYear`: a new date in `year`, the day clamped; the argument is untouched. */
  method RefactorYear(date: Date, year: int) returns (r: Date)
    requires date.Valid()
    ensures fresh(r) && r.Valid() && r.Fields() == WithYear(date.Fields(), year)
    ensures unchanged(date)
  {
    r := new Date.FromFields(date.Fields());
    VerifyDayYear(r, year);
    r.SetFullYear(year);
  }

  /** `refactorMonth`: a new date in `month`, the day clamped; the argument is untouched. */
  method RefactorMonth(date: Date, month: int) returns (r: Date)
    requires date.Valid() && 0 <= month < 12
    ensures fresh(r) && r.Valid() && r.Fields() == WithMonth(date.Fields(), month)
    ensures unchanged(date)
  {
    r := new Date.FromFields(date.Fields());
    VerifyDayMonth(r, month);
    r.SetMonth(month);
  }

  /**
   * `refactorDay`: a new date on `day`, set with no clamping (so the day must
   * exist in the date's month); the argument is untouched.
   */
  method RefactorDay(date: Date, day: int) returns (r: Date)
    requires date.Valid() && 1 <= day <= FetchMonthDays(date.year, date.month)
    ensures fresh(r) && r.Valid() && r.Fields() == WithDay(date.Fields(), day)
    ensures unchanged(date)
  {
    r := new Date.FromFields(date.Fields());
    r.SetDate(day);
  }

  /**
   * `createDate`: start from the clock reading `now` and apply the year,
   * then the month, then the day, each only when it is truthy.
   */
  method CreateDate(now: Civil, year: Option<int>, month: Option<int>, day: Option<int>) returns (r: Date)
    requires CreateAllowed(now, year, month, day)
    ensures fresh(r) && r.Valid() && r.Fields() == CreatedFields(now, year, month, day)
  {
    r := new Date.FromFields(now);
    if Truthy(year) {
      VerifyDayYear(r, year.value);
    }
    if Truthy(month) {
      VerifyDayMonth(r, month.value);
    }
    assert r.Fields() == CreatedYearMonth(now, year, month);
    if Truthy(day) {
      r.SetDate(day.value);
    }
  }

  /** `normalizeMinTime`: a copy at the start of the same day. */
  method NormalizeMinTime(date: Date) returns (r: Date)
    requires date.Valid()
    ensures fresh(r) && r.Valid() && r.Fields() == MinTime(date.Fields())
    ensures unchanged(date)
  {
    r := new Date.FromFields(date.Fields());
    r.SetTime(0, 0, 0, 0);
  }

  /** `normalizeMaxTime`: a copy at 23:59:59.000 of the same day. */
  method NormalizeMaxTime(date: Date) returns (r: Date)
    requires date.Valid()
    ensures fresh(r) && r.Valid() && r.Fields() == MaxTime(date.Fields())
    ensures unchanged(date)
  {
    r := new Date.FromFields(date.Fields());
    r.SetTime(23, 59, 59, 0);
  }
}
