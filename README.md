# typescript-date, modelled in Dafny

A Dafny model of the date utility library's core module, `src/index.ts`, in
its static Spanish form. The library formats dates from templates of
two-letter keys, names elapsed times in words ("Falta 2 horas",
"Hace 1 segundo"), moves a date to another year, month or day while keeping
the day of the month valid, and compares instants.

The model has five modules for the parts of `src/index.ts` (`Calendar`, `Dates`, `Formatting`, `Timestamps`, `Humanize`) and two support modules (`Wrappers`, `Text`):

- `Wrappers` (wrappers.dfy): `Option`, which stands for optional arguments.
- `Text` (text.dfy): the JavaScript string built-ins the code calls. These are `toString` of an integer, `padStart`, `includes`, and `replace` with a string pattern, which replaces only the first occurrence.
- `Calendar` (calendar.dfy): the leap-year rule, month lengths and the weekday. It also holds `Civil`, the wall-clock fields of a date as value, so year, month 0..11, day, hours, minutes, seconds and milliseconds. Beside them are the functions that specify the clamping of `verifyDayYear` and `verifyDayMonth`, the result of `createDate`, `normalizeMinTime` and `normalizeMaxTime`, and `weight`.
- `Dates` (dates.dfy): the mutable `Date` as a class with local-time fields and the setters the code uses. It holds the imperative operations that copy a date and then change it step by step.
- `Formatting` (formatting.dfy): `formatComplet`, `formatHour`, the name tables, `FORMATTERS` and the `formatDate` loop.
- `Timestamps` (timestamps.dfy): `getTime()` values. These are the `Miliseconds` magnitudes, `pendingTime`, `refactorFrom*`, `timeDifference`, the comparison predicates and `isSameWeight`.
- `Humanize` (humanize.dfy): `ELAPSED_TIMES` and the `formatForHumans` loop, plus `differenceForHumans`.

The clock (`new Date()`) is a parameter: `now` for `createDate`, and an explicit
`compare`/`future` instant for the comparisons and `pendingTime`. Milliseconds
and fields are mathematical integers. Dafny's `/` with a positive divisor is
floor division, which is what `Math.floor(a / b)` computes for the code's positive magnitudes.

The model follows the code in these points:

- The module uses fixed Spanish tables. It has no locale registry or language switch.
- Template keys are bare two-letter substrings of the pattern.
- `DAYS_NAME_MIN` holds two-letter abbreviations.
- `formatComplet` of a negative number pads JavaScript's `"-…"` numeral, the minus sign included.
- The `mn` key looks up the month name by the weekday.
- `isBetweenOrEquals` joins its bounds with `||`.

## Model

| member | source | states |
|---|---|---|
| Text.NatToString | src/index.ts:1-3 | the numeral of a non-negative number is non-empty, all digits, and starts with '0' only when it is exactly "0", the numeral of 0 |
| Text.IntToString | src/index.ts:1-3 | `toString` is all digits exactly for non-negative values, reads back as the value and has no leading zero unless it is "0"; a negative value gives '-' followed by the digits of its magnitude, with no leading zero |
| Text.ParseNatToString | src/index.ts:1-3 | the numeral reads back as the number (round trip) |
| Text.NatToStringInjective | src/index.ts:1-3 | distinct numbers have distinct numerals |
| Text.ParseLeadingZeros | src/index.ts:1-3 | padding with leading zeros does not change the value a numeral reads as |
| Text.PadStart | src/index.ts:2 | `padStart` result has length max(len, size), ends with the input and is fill before it |
| Text.PadZeros | src/index.ts:2 | padding a numeral with '0' keeps it all digits and of the same value |
| Text.IndexOfFrom | src/index.ts:391-392 | the first index at or after `from` where the key occurs, or none when it occurs nowhere there |
| Text.Includes | src/index.ts:391 | `includes` holds iff the key occurs at some index |
| Text.ReplaceFirst | src/index.ts:392 | only the first occurrence is replaced; a string without the key is unchanged |
| Text.FirstOccurrenceUnique | src/index.ts:392 | the occurrence `replace` picks is unique |
| Calendar.IsLeapYear | src/index.ts:383-385 | definition: divisible by 4 and not by 100 unless by 400 (samples in `LeapYearSamples`) |
| Calendar.FetchMonthDays | src/index.ts:379-381 | every month has 28..31 days; the length is 29 iff February of a leap year and 28 iff February of a common year |
| Calendar.LeapYearSamples | src/index.ts:383-385 | 2000 and 2024 are leap years, 1900 and 2023 are not |
| Calendar.MonthLengthFixed | src/index.ts:95-108 | every month but February has its `MONTH_DAYS` length in every year |
| Calendar.DayOfWeek | src/index.ts:164-175 | the weekday `getDay()` reports is in 0..6 |
| Calendar.WeekdayAdvances | src/index.ts:164-175 | the weekday advances by one, mod 7, from every valid day to the next, across month, leap-February and year ends |
| Calendar.EpochIsThursday | src/index.ts:164-175 | 1 January 1970 is weekday 4 (Thursday) |
| Calendar.Civil.Weekday | src/index.ts:164-175 | a valid date's weekday is in 0..6 |
| Calendar.WithYear | src/index.ts:140-148 | after a year change the date is valid and only year and day change. The day is the old day, or the target month's last day when the old day does not fit |
| Calendar.WithMonth | src/index.ts:150-158 | after a month change the date is valid and only month and day change. The day is the old day, or the target month's last day |
| Calendar.WithYearDay | src/index.ts:140-148 | the new day is min(old day, length of the month in the TARGET year), and is kept iff it fits |
| Calendar.WithMonthDay | src/index.ts:150-158 | the new day is min(old day, length of the TARGET month), and is kept iff it fits |
| Calendar.LeapDayToCommonYear | src/index.ts:140-148 | 29 February 2024 moved to 2023 is 28 February 2023 |
| Calendar.JanuaryEndToApril | src/index.ts:150-158 | 31 January 2023 moved to April is 30 April 2023 |
| Calendar.WithYearRoundTrip | src/index.ts:140-148 | moving to a year and back restores the date when no clamping happened |
| Calendar.WithMonthRoundTrip | src/index.ts:150-158 | moving to a month and back restores the date when no clamping happened |
| Calendar.WithDay | src/index.ts:441-447 | `setDate` on the fields: the day is set, nothing else changes, the date stays valid |
| Calendar.CreatedYearMonth | src/index.ts:404-412 | after the year and month steps of `createDate` the date is valid, year and month are the truthy arguments or the clock's, the day is the clock's day capped first by its month in the new year and then by the new month, and the time is the clock's |
| Calendar.CreatedFields | src/index.ts:399-419 | `createDate` gives a valid date. Year and month are the arguments when truthy and the clock's otherwise; the day is the argument when truthy and otherwise the clock's day capped by both steps in turn; the time of day is the clock's |
| Calendar.CreatedDayWithoutDay | src/index.ts:404-419 | without a day, the clock's day is kept iff it fits both its month in the new year and the new month, and it never grows. With no truthy argument the result is the clock reading |
| Calendar.CreateIgnoresJanuary | src/index.ts:410-412 | month 0 (January) is falsy and keeps the clock's month |
| Calendar.CreateAppliesYearFirst | src/index.ts:406-412 | the year is applied before the month: from 31 March 2023, 2024 and February give the 29th, while month first would give the 28th |
| Calendar.Weight | src/index.ts:375-377 | definition: year·365 + (month + 1)·30 + day; its properties are `WeightMonotone` and `WeightCollision` |
| Calendar.WeightMonotone | src/index.ts:375-377 | `weight` never decreases in calendar order |
| Calendar.WeightCollision | src/index.ts:375-377 | 31 January and 1 February have the same weight |
| Calendar.MinTime | src/index.ts:353-362 | same day, time 00:00:00.000 |
| Calendar.MaxTime | src/index.ts:364-373 | same day, time 23:59:59.000 |
| Calendar.MaxTimeLastSecond | src/index.ts:364-373 | only a time inside the day's last second with milliseconds lies after `normalizeMaxTime` |
| Dates.Date.FromFields | src/index.ts:422 | a new `Date` holding the given valid fields |
| Dates.Date.SetDate | src/index.ts:144 | `setDate` changes only the day |
| Dates.Date.SetFullYear | src/index.ts:147 | `setFullYear` changes only the year |
| Dates.Date.SetMonth | src/index.ts:157 | `setMonth` changes only the month |
| Dates.Date.SetTime | src/index.ts:356-359 | the four time setters change only hours, minutes, seconds, milliseconds |
| Dates.VerifyDayYear | src/index.ts:140-148 | the date is changed in place to `WithYear` of its old fields |
| Dates.VerifyDayMonth | src/index.ts:150-158 | the date is changed in place to `WithMonth` of its old fields |
| Dates.RefactorYear | src/index.ts:421-429 | a fresh date with `WithYear` of the argument's fields; the argument is unchanged |
| Dates.RefactorMonth | src/index.ts:431-439 | a fresh date with `WithMonth` of the argument's fields; the argument is unchanged |
| Dates.RefactorDay | src/index.ts:441-447 | a fresh date with the day set, no clamping; the argument is unchanged |
| Dates.CreateDate | src/index.ts:399-419 | a fresh date whose fields are `CreatedFields` of the clock reading and the arguments |
| Dates.NormalizeMinTime | src/index.ts:353-362 | a fresh copy at `MinTime`; the argument is unchanged |
| Dates.NormalizeMaxTime | src/index.ts:364-373 | a fresh copy at `MaxTime`; the argument is unchanged |
| Formatting.FormatComplet | src/index.ts:1-3 | the padded numeral has length max(numeral length, size) |
| Formatting.FormatCompletNat | src/index.ts:1-3 | for v ≥ 0 the result is all digits. It has length max(digits, size), ends with v's numeral, has only zeros before it and reads back as v |
| Formatting.FormatCompletSamples | src/index.ts:1-3 | (5, 2) gives "05" and (123, 2) gives "123" |
| Formatting.TwoDigits | src/index.ts:1-3 | a value in 0..99 padded to 2 is exactly two digits reading back as the value |
| Formatting.FormatHour | src/index.ts:134-138 | for hour 0..23 the 12-hour value is in 1..12 and congruent to the hour mod 12 |
| Formatting.Key | src/index.ts:160-197 | every key is two lower-case letters |
| Formatting.FormattersTable | src/index.ts:160-197 | the table has twelve keys, every token once, all spelled differently |
| Formatting.Render | src/index.ts:160-197 | definition: the fragment of each `FORMATTERS` entry; its properties are the `Render…` lemmas below |
| Formatting.RenderTwoDigit | src/index.ts:161-193 | `dd`, `mm`, `hh`, `ii`, `ss`, `hz` give two digits reading back as day, month + 1, hour, minute, second, 12-hour hour |
| Formatting.RenderYear | src/index.ts:179-181 | `aa` is at least four characters; for a non-negative year it is exactly max(4, digits of the year) long, all digits, and reads back as the year |
| Formatting.RenderMeridiem | src/index.ts:194-196 | `zz` is "PM" iff hour > 11, else "AM" |
| Formatting.RenderMonthName | src/index.ts:173-178 | `mn` is the month name at the weekday's index, so one of the first seven names; `mx` is the label of the date's month |
| Formatting.MonthNameQuirkSample | src/index.ts:173-175 | Sunday 31 December 2023 renders `mn` as "Enero" |
| Formatting.RenderHasNoDollar | src/index.ts:160-197 | no fragment contains `$`, so `replace` inserts each literally |
| Formatting.Step | src/index.ts:390-394 | definition: one `forEach` step, replacing the first occurrence of the key when `includes` finds it |
| Formatting.Apply | src/index.ts:387-397 | definition: the steps for the keys, in table order; specifies `FormatDate` |
| Formatting.ApplyNoKey | src/index.ts:387-397 | a pattern containing no key is returned unchanged |
| Formatting.FirstOccurrenceOnly | src/index.ts:387-397 | "dd/dd" becomes the two-digit day followed by "/dd": only the first occurrence is replaced |
| Formatting.FormatDate | src/index.ts:387-397 | the loop visits the keys in table order, replacing the first occurrence of each present key with its fragment; a pattern without keys is returned unchanged |
| Timestamps.MagnitudeRatios | src/index.ts:122-130 | minute = 60 s, hour = 60 min, day = 24 h, week = 7 d, month = 30 d, year = 365 d |
| Timestamps.PendingTime | src/index.ts:271-286 | every field is the floor of the whole difference by its unit: q·unit ≤ diff < (q+1)·unit |
| Timestamps.PendingTimeZero | src/index.ts:271-286 | a zero difference gives all fields 0 |
| Timestamps.PendingTimeNegative | src/index.ts:271-286 | a difference of -1 ms gives every field -1 |
| Timestamps.PendingTimeConsistent | src/index.ts:271-286 | each coarser field is the floor of a finer one by the unit ratio |
| Timestamps.PendingTimeNotCascading | src/index.ts:271-286 | a year and a month ahead is 1 year, 13 months and 395 days |
| Timestamps.RefactorFromTimestamp | src/index.ts:296-298 | the difference between the result and the date is the offset |
| Timestamps.RefactorFromDays | src/index.ts:288-290 | the result is exactly `days`·86400000 ms after the date, so `pendingTime` gives `days` days and 24·`days` hours |
| Timestamps.RefactorFromMonth | src/index.ts:292-294 | the result is exactly `months`·2592000000 ms after the date, so `pendingTime` gives `months` months and 30·`months` days |
| Timestamps.TimeDifference | src/index.ts:342-344 | definition: `date - compare` in milliseconds |
| Timestamps.IsEquals | src/index.ts:300-302 | definition: same instant; characterised in `ComparisonsByDifference` |
| Timestamps.IsBefore | src/index.ts:308-310 | definition: `compare` earlier than `date`; characterised in `ComparisonsByDifference` |
| Timestamps.IsBeforeOrEquals | src/index.ts:312-314 | definition: `compare` not later than `date`; characterised in `ComparisonsByDifference` |
| Timestamps.IsAfter | src/index.ts:316-318 | definition: `compare` later than `date`; characterised in `ComparisonsByDifference` |
| Timestamps.IsAfterOrEquals | src/index.ts:320-322 | definition: `compare` not earlier than `date`; characterised in `ComparisonsByDifference` |
| Timestamps.IsBetween | src/index.ts:324-330 | definition: after `minDate` and before `maxDate`; characterised in `IsBetweenInterval` |
| Timestamps.IsBetweenOrEquals | src/index.ts:332-340 | definition: the two bounds joined by `||`, as written; see `IsBetweenOrEqualsAlwaysHolds` |
| Timestamps.IsSameWeight | src/index.ts:304-306 | definition: equal `weight`; see `IsSameWeightSameDay` |
| Timestamps.ComparisonsByDifference | src/index.ts:300-344 | equal iff difference 0, `isBefore` iff difference > 0, `isAfter` iff < 0; the OrEquals forms add equality |
| Timestamps.ComparisonsTrichotomy | src/index.ts:300-322 | exactly one of before, after, equal holds; `isBefore(a, b)` iff `isAfter(b, a)` |
| Timestamps.IsBetweenInterval | src/index.ts:324-330 | `isBetween(min, max, c)` iff min < c < max |
| Timestamps.IsBetweenOrEqualsAlwaysHolds | src/index.ts:332-340 | as written, `isBetweenOrEquals` holds for every instant once min ≤ max, e.g. 30 in 10..20 |
| Timestamps.IsWithinOrEqualsInterval | src/index.ts:332-340 | the intended form holds iff min ≤ c ≤ max and contains `isBetween` |
| Timestamps.IsSameWeightSameDay | src/index.ts:304-306 | instants on the same day have the same weight; a later day never has a smaller weight |
| Humanize.CreateElapsedTime | src/index.ts:216-232 | the plural is the given one unless missing or empty, then singular + `charPlural` |
| Humanize.ElapsedTimes | src/index.ts:234-242 | the seven units, coarsest first; `ElapsedTimesBuilt` and `ElapsedTimesTable` state what they hold |
| Humanize.ElapsedTimesBuilt | src/index.ts:234-242 | the table is what the seven `createElapsedTime` calls build |
| Humanize.ElapsedTimesTable | src/index.ts:234-242 | seven units of strictly decreasing magnitude down to 1000 ms, with these singular and plural names |
| Humanize.Prefix | src/index.ts:245 | "Falta" iff ms > 0, "Hace" iff ms ≤ 0 |
| Humanize.CoarsestFrom | src/index.ts:255-266 | the first unit at or after `from` whose quotient is ≥ 1; all units before it have quotient 0 |
| Humanize.CoarsestUnit | src/index.ts:255-266 | the first unit in table order with quotient ≥ 1; every larger unit has quotient 0 |
| Humanize.UnitPhrase | src/index.ts:257-262 | definition: prefix, the floor quotient and the singular name when it is 1, plural otherwise |
| Humanize.HumanPhrase | src/index.ts:244-269 | the phrase is never empty and starts with the sign's prefix and a space |
| Humanize.HumanPhraseSubSecond | src/index.ts:248-250 | under a second either way gives "<prefix> 1 segundo" |
| Humanize.HumanPhraseSelectsCoarsest | src/index.ts:255-266 | from 1000 ms the phrase is the one for the unit with quotient ≥ 1 whose larger units all have quotient 0 (its singular name when the quotient is 1, its plural otherwise) |
| Humanize.HumanPhraseSubSecondSamples | src/index.ts:244-250 | 500 gives "Falta 1 segundo", 0 gives "Hace 1 segundo" |
| Humanize.HumanPhraseMinuteSample | src/index.ts:255-266 | 90000 ms gives "Falta 1 minuto" |
| Humanize.HumanPhraseDaySample | src/index.ts:255-266 | 25 hours gives "Falta 1 día" |
| Humanize.HumanPhrasePluralSamples | src/index.ts:255-266 | 2 hours gives "Falta 2 horas", -2 days gives "Hace 2 dias" |
| Humanize.FormatForHumans | src/index.ts:244-269 | the `while` scan returns exactly `HumanPhrase`, never the empty string |
| Humanize.DifferenceForHumans | src/index.ts:346-351 | the phrase for `date - compare` |

## Left out

- src/i18n.ts is not part of this model. It is a data table for an external translation library, and `src/index.ts` does not import it.
- rollup.config.js is not part of this model. It is build configuration.
- Converting an epoch timestamp to local fields and back is left out, because it depends on the time zone and daylight saving. Comparisons, `pendingTime`, `refactorFrom*`, `timeDifference`, `formatForHumans` and `differenceForHumans` work on `getTime()` integers; `isSameWeight` and everything else work on the fields.
- JavaScript's roll-over of out-of-range values in `setDate` and `setMonth` is left out. Instead, `RefactorDay` and `CreateDate` require a day the month has, and `FetchMonthDays`, `DayOfWeek`, `WithMonth`, `VerifyDayMonth`, `RefactorMonth` and `CreateDate` require a month in 0..11. `fetchMonthDays` with such a month would read outside `MONTH_DAYS` and get `undefined`.
- `new Date()` defaults are explicit parameters, and the clock itself is left out.
- IEEE-754 numbers are left out: fractional milliseconds, NaN, infinities and the `Date` range limit. All values are integers.
- The `label` field of `ElapsedTime` is never read and is not modelled.
- The weekday is computed from year, month and day, as JavaScript does, rather than stored.
- Dates.Date.SetTime: one method stands for the four calls `setHours`, `setMinutes`, `setSeconds`, `setMilliseconds`. They run back to back with nothing in between.

## Findings

| source | as written | input that shows it | evidently intended | confidence | as-written member | corrected member |
|---|---|---|---|---|---|---|
| src/index.ts:332-340 | `isAfterOrEquals(minDate, compare) \|\| isBeforeOrEquals(maxDate, compare)` | min 10, max 20, compare 30 gives true | both bounds met (`&&`), i.e. min ≤ compare ≤ max, like `isBetween` | high; not executed | Timestamps.IsBetweenOrEqualsAlwaysHolds | Timestamps.IsWithinOrEqualsInterval |
