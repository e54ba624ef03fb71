# time_utility: ISO weeks and datetime differences in Dafny

This project models the integer core of the `time_utility` Python package:

- `TimeUtilityWeek(od)` (time_utility/week.py): stores a date with its ISO-8601
  week number and the Monday (`week_start`) and Sunday (`week_end`) of its week;
- `TimeUtility.is_leap_year`, `adjust_offset`, `difference` and `get_week`
  (time_utility/main.py), and the time-unit constants `MICROSECOND`, `SECOND`,
  `MINUTE`, `HOUR` and `DAY`.

Modules, one per file:

- `Wrappers` (wrappers.dfy): `Option`, `Result` and the two Python exceptions
  the core raises, `OverflowError` and `ValueError`.
- `Calendar` (calendar.dfy): the proleptic Gregorian calendar of Python's
  `date` for years 1..9999. A `Date` is its day ordinal, as `date.toordinal()`
  gives it (0001-01-01 is day 1). `FromYmd` builds a date from year, month and
  day and refuses invalid ones with ValueError; `ToYmd` reads them back. The two
  are proved inverse, and the (year, month, day) order is proved to be the
  ordinal order, so comparing or shifting ordinals is comparing or shifting
  dates. `AddDays` is `date ± timedelta(days=k)`, with OverflowError outside
  years 1..9999. `IsLeapYear` is the rule of `is_leap_year`.
- `IsoCalendar` (iso_calendar.dfy): `isoweekday()` and `isocalendar()` by the
  Thursday rule of ISO 8601: a week belongs to the ISO year holding its Thursday,
  and week 1 is the week holding that year's first Thursday.
- `Week` (week.dfy): `TimeUtilityWeek` as a datatype built by `FromDate`, with
  the properties of the constructor.
- `TimeUtility` (time_utility.dfy): the time units, `adjust_offset`,
  `difference` and `get_week`. A `datetime` is its wall-clock time in
  microseconds since 0001-01-01T00:00 plus an optional fixed UTC offset (absent
  when naive); a `timedelta` is Python's normalised (days, seconds,
  microseconds) triple with 0 <= seconds < 86400 and 0 <= microseconds < 10^6.

`difference` returns one component of that normalised triple, so its results
behave as the code is written: `SECOND` drops whole days, `MINUTE` and `HOUR`
are taken from the seconds component only, and `DAY` of a negative difference
counts the days rounded down (a difference of minus one second gives 1 day and
86399 seconds).

## Model

| member | source | states |
|---|---|---|
| Calendar.IsLeapYear | time_utility/main.py:272 | `is_leap_year`: years divisible by 400 are leap years, other century years are not, other multiples of 4 are, and no other year is |
| Calendar.LeapYearLength | time_utility/main.py:272 | a year satisfies the leap rule exactly when it has 366 days, 365 otherwise |
| Calendar.LeapYearFebruary | time_utility/main.py:272 | February 29 of a year in 1..9999 is a valid date if and only if the leap rule holds for that year |
| Calendar.LeapYearsClosedForm | time_utility/main.py:272 | the number of years 1..p the leap rule accepts is p/4 - p/100 + p/400 |
| Calendar.ToOrdinal | time_utility/week.py:7-8 | a valid date's ordinal lies within its own year's days and within 1..3652059 |
| Calendar.FromYmd | time_utility/week.py:7-8 | a year, month and day give a date exactly when they form a valid Gregorian date in years 1..9999, otherwise ValueError; the date is the ordinal of that day |
| Calendar.ToYmd | time_utility/week.py:7-8 | every date in range reads back as a valid year, month and day whose ordinal is that date |
| Calendar.YmdRoundTrip | time_utility/week.py:7-8 | reading back a built date gives the year, month and day it was built from |
| Calendar.DateRoundTrip | time_utility/week.py:7-8 | building a date from the year, month and day read from it gives the same date |
| Calendar.BeforeIffOrdinal | time_utility/week.py:10-11 | one date is earlier than another by year, month and day exactly when its ordinal is smaller, and equal exactly when the ordinals are equal |
| Calendar.AddDays | time_utility/week.py:10-11 | adding k days moves the ordinal by k, and raises OverflowError exactly when the result leaves years 1..9999 |
| IsoCalendar.IsoWeekday | time_utility/week.py:10-11 | `isoweekday()` is a day of the week in 1..7, the weekday of the date's ordinal |
| IsoCalendar.WeekdayNext | time_utility/week.py:10-11 | the ISO weekday advances by one from each day to the next, Sunday wrapping to Monday; with the first day a Monday this fixes the weekday of every date |
| IsoCalendar.FirstDayIsMonday | time_utility/week.py:10-11 | 0001-01-01 has ISO weekday 1 |
| IsoCalendar.MondayOrdinal | time_utility/week.py:10 | a day's week starts on a Monday at most six days before it |
| IsoCalendar.IsoYearOf | time_utility/week.py:9 | the ISO year of a day is the Gregorian year holding the Thursday of its week, within 1..9999 |
| IsoCalendar.IsoYear | time_utility/week.py:9 | `isocalendar()[0]` of a date is `IsoYearOf` of its ordinal, within 1..9999 |
| IsoCalendar.IsoYearNearYear | time_utility/week.py:9 | a date's ISO year differs from its calendar year by at most one |
| IsoCalendar.IsoWeekNumber | time_utility/week.py:9 | `isocalendar()[1]` lies in 1..53 and is the week number of the date's ordinal (`WeekNumberOf`) |
| IsoCalendar.WeekOneMonday | time_utility/week.py:9 | the Monday of week 1 is a Monday whose Thursday is among January 1..7 |
| IsoCalendar.WeekNumberFromWeekOneMonday | time_utility/week.py:9 | a date lies between the week-1 Monday of its ISO year and that of the next, and its week number counts whole weeks from the former, plus one |
| IsoCalendar.SameWeekSameNumber | time_utility/week.py:9 | two dates of the same Monday-to-Sunday week have the same ISO year and week number |
| IsoCalendar.WeekOfJanuaryFourth | time_utility/week.py:9 | every date in the week of January 4 of year y has ISO year y and week number 1 |
| IsoCalendar.WeekNumberAdvance | time_utility/week.py:9 | seven days later the ISO year is the same or the next, and the week number is one more, or 1 in the next ISO year |
| IsoCalendar.LongYearEnd | time_utility/week.py:9 | when a year ends on a Thursday, that Thursday and the three days after it are in week 53 of that year |
| IsoCalendar.Week53Example | time_utility/week.py:9 | 2020-12-31 is a Thursday and 2021-01-03 is in week 53 of ISO year 2020 |
| Week.FromDate | time_utility/week.py:7-11 | the week stores the date unchanged, its ISO week number in 1..53, the Monday and Sunday of its week with start <= date <= end and end = start + 6; OverflowError exactly when that Sunday is after 9999-12-31 |
| Week.SameSpanSameWeek | time_utility/week.py:9-11 | every date from a week's start to its end gives the same week number, start and end |
| Week.JanuaryFourthWeekIsWeekOne | time_utility/week.py:9 | the week of January 4 of any year 1..9999 exists and is week 1 |
| Week.NextWeekNumber | time_utility/week.py:9-11 | the week of the date seven days later starts seven days later and has the next week number, or 1 when the ISO year changed |
| TimeUtility.UnitName | time_utility/main.py:22-26 | each time unit is one of the five constant strings |
| TimeUtility.ParseTimeUnit | time_utility/main.py:22-26 | a string names a unit exactly when it is one of the five constants, and the unit found has that name |
| TimeUtility.ParseUnitName | time_utility/main.py:22-26 | the five constants are distinct: each unit's name gives back that unit |
| TimeUtility.AdjustOffset | time_utility/main.py:199-203 | local-to-UTC subtracts the offset in minutes and UTC-to-local adds it, keeping the time zone; OverflowError exactly when the result leaves years 1..9999 |
| TimeUtility.AdjustOffsetRoundTrip | time_utility/main.py:199-203 | converting local to UTC and back with the same offset restores the datetime |
| TimeUtility.AdjustOffsetRoundTripBack | time_utility/main.py:199-203 | converting UTC to local and back with the same offset restores the datetime |
| TimeUtility.AdjustOffsetZero | time_utility/main.py:199-203 | a zero offset returns the datetime unchanged, in both directions |
| TimeUtility.AwareOrUtc | time_utility/main.py:243-244 | an aware datetime is kept and a naive one gets UTC attached |
| TimeUtility.MakeAware | time_utility/main.py:47-54 | with the default zone the wall-clock time is kept and the offset becomes zero |
| TimeUtility.Elapsed | time_utility/main.py:243-255 | `final_large - final_small`: for two aware datetimes the difference of their UTC instants, which is the wall-clock difference when the offsets are equal (as Python subtracts datetimes sharing a tzinfo); a naive datetime is compared by its wall-clock time as UTC |
| TimeUtility.FromMicros | time_utility/main.py:246-255 | the timedelta of a difference is normalised and adds up to the difference |
| TimeUtility.NormalizedUnique | time_utility/main.py:246-255 | a normalised timedelta is determined by its total, so the components are well defined |
| TimeUtility.ShiftByDays | time_utility/main.py:246-255 | adding whole days to a difference changes only the days component |
| TimeUtility.Difference | time_utility/main.py:243-257 | ValueError exactly when the unit is none of the five constants; otherwise a non-negative number |
| TimeUtility.DifferenceSeconds | time_utility/main.py:246-247 | SECOND is the seconds component of the normalised difference, in 0..86399 |
| TimeUtility.DifferenceMicroseconds | time_utility/main.py:248-249 | MICROSECOND is the microseconds component, in 0..999999 |
| TimeUtility.DifferenceDays | time_utility/main.py:250-251 | DAY is the magnitude of the difference's whole days rounded down |
| TimeUtility.ReversedSecond | time_utility/main.py:246-251 | a difference of minus one second gives DAY 1 and SECOND 86399 |
| TimeUtility.DifferenceMinutesHours | time_utility/main.py:252-255 | MINUTE and HOUR are the SECOND result divided by 60 and by 3600, in 0..1439 and 0..23 |
| TimeUtility.SecondsIgnoreWholeDays | time_utility/main.py:246-255 | adding whole days to the difference leaves SECOND, MICROSECOND, MINUTE and HOUR unchanged |
| TimeUtility.DifferenceRecombines | time_utility/main.py:246-251 | for a non-negative difference, DAY, SECOND and MICROSECOND together add up to all of it |
| TimeUtility.NaiveIsUtc | time_utility/main.py:243-244 | a naive `large_time` or `small_time` gives the same differences as the same wall-clock time in UTC, whatever the other datetime is; two naive datetimes differ by their wall-clock times |
| TimeUtility.DifferenceDefaultUnit | time_utility/main.py:234 | leaving out the unit gives the SECOND result, in 0..86399 |
| TimeUtility.GetWeek | time_utility/main.py:275-276 | `get_week` is the week of the date: the date, its ISO week number and its Monday, or OverflowError when its Sunday is past 9999-12-31 |

## Left out

- `get_week_by_week_number` and `get_four_week_period` (time_utility/main.py:279-284): they call `TimeUtilityWeek.get_week_from_week_number` and `TimeUtilityWeek.get_four_week_period`, whose code is not part of this model; time_utility/week.py defines only the constructor.
- `now`, `today`, `get_date_start`/`get_date_end`, `get_month_start`/`get_month_end` and `get_year_start`/`get_year_end`: they read the wall clock and use pytz time zones.
- `get_period` (time_utility/main.py:206-231): it is built on those clock-reading helpers, so it is left out with them. The period constants `DAILY`, `MONTHLY` and `ANNUAL` are used only there.
- `is_naive`, `is_aware` and `make_aware`: modelled only as far as `difference` uses them, as "a naive datetime is UTC" (`AwareOrUtc`, `MakeAware` with its default zone).
- `is_leap_year` with `None` (reads the current year from the clock) or with a non-`int` argument (raises ValueError): the model takes an integer year.
- Time zones are fixed UTC offsets. A pytz zone whose offset changes with the date, `fold` and leap seconds are not modelled. Python subtracts two datetimes that share one `tzinfo` object by wall-clock time; with a fixed offset that is the same as subtracting the UTC instants, which is what `Elapsed` does.
- TimeUtility.Difference: `MINUTE` and `HOUR` use integer division where the source computes `int(seconds / 60)` in floating point; for seconds in 0..86399 the two agree.
- TimeUtility.AdjustOffset: the offset is any integer; the OverflowError that `timedelta(minutes=offset)` itself raises for offsets beyond 999999999 days is covered by the range check, since such a shift always leaves years 1..9999.
- Week.FromDate: the argument is a `date`; passing a `datetime` (a subclass of `date`) is not modelled.
- setup.py (packaging) and the test file, whose only test reads the clock.
