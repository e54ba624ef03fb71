/**
 * The integer core of `TimeUtility` in time_utility/main.py: the time-unit
 * constants, `adjust_offset`, `difference` and the `get_week` pass-through
 * (`is_leap_year` is `Calendar.IsLeapYear`).
 *
 * A `datetime` is its wall-clock time as microseconds since 0001-01-01T00:00
 * together with its UTC offset in microseconds, absent for a naive datetime. A
 * `timedelta` is Python's normalised (days, seconds, microseconds) triple.
 */
module TimeUtility {
  import opened Wrappers
  import opened Calendar
  import IsoCalendar
  import Week

  const MicrosPerSecond := 1_000_000
  const SecondsPerDay := 86_400
  const MicrosPerMinute := 60 * MicrosPerSecond
  const MicrosPerDay := SecondsPerDay * MicrosPerSecond

  // ---------------------------------------------------------------------------
  // Time units

  /** The time-unit constants of `TimeUtility`. */
  datatype TimeUnit = Microsecond | Second | Minute | Hour | Day

  const MICROSECOND: string := "microsecond"
  const SECOND: string := "second"
  const MINUTE: string := "minute"
  const HOUR: string := "hour"
  const DAY: string := "day"

  /** The string each constant holds. */
  function UnitName(u: TimeUnit): (s: string)
    ensures s in {MICROSECOND, SECOND, MINUTE, HOUR, DAY}
  {
    match u
    case Microsecond => MICROSECOND
    case Second => SECOND
    case Minute => MINUTE
    case Hour => HOUR
    case Day => DAY
  }

  /** The unit a string names, if any. */
  function ParseTimeUnit(s: string): (r: Option<TimeUnit>)
    ensures r.Some? ==> UnitName(r.value) == s
    ensures r.None? <==> s !in {MICROSECOND, SECOND, MINUTE, HOUR, DAY}
  {
    if s == MICROSECOND then Some(Microsecond)
    else if s == SECOND then Some(Second)
    else if s == MINUTE then Some(Minute)
    else if s == HOUR then Some(Hour)
    else if s == DAY then Some(Day)
    else None
  }

  /** Each unit's name parses back to that unit: the five names are distinct. */
  lemma ParseUnitName(u: TimeUnit)
    ensures ParseTimeUnit(UnitName(u)) == Some(u)
  {
  }

  // ---------------------------------------------------------------------------
  // datetime and timedelta

  /**
   * A `datetime`: `micros` is the wall-clock time in microseconds since
   * 0001-01-01T00:00; `utcOffset` is the offset from UTC in microseconds, or
   * None for a naive datetime.
   */
  datatype DateTime = DateTime(micros: int, utcOffset: Option<int>)

  /** Years 1..9999, and an offset strictly within one day, as Python requires. */
  predicate ValidDateTime(t: DateTime) {
    && 0 <= t.micros < MaxOrdinal * MicrosPerDay
    && (t.utcOffset.Some? ==> -MicrosPerDay < t.utcOffset.value < MicrosPerDay)
  }

  /** `make_aware` with its default timezone: the same wall-clock time in UTC. */
  function MakeAware(t: DateTime): (r: DateTime)
    ensures r.micros == t.micros && r.utcOffset == Some(0)
  {
    DateTime(t.micros, Some(0))
  }

  /** Lines 243-244 of `difference`: a naive datetime is taken to be UTC. */
  function AwareOrUtc(t: DateTime): (r: DateTime)
    ensures r.utcOffset.Some?
    ensures t.utcOffset.Some? ==> r == t
    ensures t.utcOffset.None? ==> r == MakeAware(t)
  {
    if t.utcOffset.Some? then t else MakeAware(t)
  }

  /** The instant an aware datetime denotes, in microseconds since 0001-01-01T00:00 UTC. */
  function UtcMicros(t: DateTime): int
    requires t.utcOffset.Some?
  {
    t.micros - t.utcOffset.value
  }

  /**
   * `final_large - final_small` in microseconds: the difference of the UTC
   * instants. Python subtracts two datetimes with the same tzinfo by wall-clock
   * time instead; with a fixed offset the two agree.
   */
  function Elapsed(large: DateTime, small: DateTime): (r: int)
    ensures AwareOrUtc(large).utcOffset == AwareOrUtc(small).utcOffset ==> r == large.micros - small.micros
    ensures large.utcOffset.None? && small.utcOffset.Some? ==> r == large.micros - UtcMicros(small)
    ensures large.utcOffset.Some? && small.utcOffset.None? ==> r == UtcMicros(large) - small.micros
    ensures large.utcOffset.Some? && small.utcOffset.Some? ==> r == UtcMicros(large) - UtcMicros(small)
  {
    UtcMicros(AwareOrUtc(large)) - UtcMicros(AwareOrUtc(small))
  }

  datatype Timedelta = Timedelta(days: int, seconds: int, microseconds: int)

  /** The normal form Python keeps a `timedelta` in. */
  predicate Normalized(d: Timedelta) {
    0 <= d.seconds < SecondsPerDay && 0 <= d.microseconds < MicrosPerSecond
  }

  function TotalMicros(d: Timedelta): int {
    d.days * MicrosPerDay + d.seconds * MicrosPerSecond + d.microseconds
  }

  /** `timedelta(microseconds=delta)`: whole days rounded towards minus infinity. */
  function FromMicros(delta: int): (d: Timedelta)
    ensures Normalized(d) && TotalMicros(d) == delta
  {
    var days := delta / MicrosPerDay;
    var rest := delta % MicrosPerDay;
    Timedelta(days, rest / MicrosPerSecond, rest % MicrosPerSecond)
  }

  /** The normal form is unique: a normalised timedelta is the one `FromMicros` builds. */
  lemma NormalizedUnique(d: Timedelta)
    requires Normalized(d)
    ensures FromMicros(TotalMicros(d)) == d
  {
    var e := FromMicros(TotalMicros(d));
    var r := d.seconds * MicrosPerSecond + d.microseconds;
    var s := e.seconds * MicrosPerSecond + e.microseconds;
    assert 0 <= r < MicrosPerDay && 0 <= s < MicrosPerDay;
    assert (d.days - e.days) * MicrosPerDay == s - r;
    DaysAgree(d.days - e.days, s - r);
    assert d.seconds * MicrosPerSecond + d.microseconds == e.seconds * MicrosPerSecond + e.microseconds;
    SecondsAgree(d.seconds - e.seconds, e.microseconds - d.microseconds);
  }

  lemma DaysAgree(k: int, x: int)
    requires k * MicrosPerDay == x && -MicrosPerDay < x < MicrosPerDay
    ensures k == 0
  {
  }

  lemma SecondsAgree(k: int, x: int)
    requires k * MicrosPerSecond == x && -MicrosPerSecond < x < MicrosPerSecond
    ensures k == 0
  {
  }

  /** Adding whole days changes only the days of a timedelta. */
  lemma ShiftByDays(delta: int, k: int)
    ensures FromMicros(delta + k * MicrosPerDay)
         == Timedelta(FromMicros(delta).days + k, FromMicros(delta).seconds, FromMicros(delta).microseconds)
  {
    var d := FromMicros(delta);
    var e := Timedelta(d.days + k, d.seconds, d.microseconds);
    assert TotalMicros(e) == delta + k * MicrosPerDay;
    NormalizedUnique(e);
  }

  // ---------------------------------------------------------------------------
  // adjust_offset

  /**
   * `adjust_offset`: subtracts `offset` minutes from a local time to reach UTC,
   * or adds them to a UTC time to reach local time. The tzinfo is kept; leaving
   * years 1..9999 raises OverflowError.
   */
  function AdjustOffset(t: DateTime, offset: int, localToUtc: bool): (r: Result<DateTime>)
    ensures var shifted := if localToUtc then t.micros - offset * MicrosPerMinute
                           else t.micros + offset * MicrosPerMinute;
            && (r.Ok? <==> 0 <= shifted < MaxOrdinal * MicrosPerDay)
            && (r.Ok? ==> r.value == DateTime(shifted, t.utcOffset))
    ensures r.Err? ==> r.error == OverflowError
  {
    var delta := offset * MicrosPerMinute;
    var shifted := if localToUtc then t.micros - delta else t.micros + delta;
    if 0 <= shifted < MaxOrdinal * MicrosPerDay then Ok(DateTime(shifted, t.utcOffset))
    else Err(OverflowError)
  }

  /** Converting local time to UTC and back with the same offset restores the datetime. */
  lemma AdjustOffsetRoundTrip(t: DateTime, offset: int)
    requires ValidDateTime(t) && AdjustOffset(t, offset, true).Ok?
    ensures AdjustOffset(AdjustOffset(t, offset, true).value, offset, false) == Ok(t)
  {
  }

  /** ... and so does converting UTC to local time and back. */
  lemma AdjustOffsetRoundTripBack(t: DateTime, offset: int)
    requires ValidDateTime(t) && AdjustOffset(t, offset, false).Ok?
    ensures AdjustOffset(AdjustOffset(t, offset, false).value, offset, true) == Ok(t)
  {
  }

  /** A zero offset changes nothing. */
  lemma AdjustOffsetZero(t: DateTime, localToUtc: bool)
    requires ValidDateTime(t)
    ensures AdjustOffset(t, 0, localToUtc) == Ok(t)
  {
  }

  // ---------------------------------------------------------------------------
  // difference

  function Abs(x: int): (r: int)
    ensures r >= 0 && (r == x || r == -x)
  {
    if x < 0 then -x else x
  }

  /**
   * `difference`: one component of the normalised `final_large - final_small`,
   * chosen by name; ValueError for any other name. Minutes and hours are taken
   * from the seconds component alone.
   */
  function Difference(large: DateTime, small: DateTime, timeSpan: string := SECOND): (r: Result<int>)
    ensures r.Err? <==> ParseTimeUnit(timeSpan).None?
    ensures r.Err? ==> r.error == ValueError
    ensures r.Ok? ==> r.value >= 0
  {
    var delta := FromMicros(Elapsed(large, small));
    if timeSpan == SECOND then Ok(Abs(delta.seconds))
    else if timeSpan == MICROSECOND then Ok(Abs(delta.microseconds))
    else if timeSpan == DAY then Ok(Abs(delta.days))
    else if timeSpan == MINUTE then Ok(Abs(delta.seconds) / 60)
    else if timeSpan == HOUR then Ok(Abs(delta.seconds) / 3600)
    else Err(ValueError)
  }

  /** SECOND is the seconds component, within one day. */
  lemma DifferenceSeconds(large: DateTime, small: DateTime)
    ensures Difference(large, small, SECOND) == Ok(FromMicros(Elapsed(large, small)).seconds)
    ensures 0 <= Difference(large, small, SECOND).value <= 86399
  {
  }

  /** MICROSECOND is the microseconds component, within one second. */
  lemma DifferenceMicroseconds(large: DateTime, small: DateTime)
    ensures Difference(large, small, MICROSECOND) == Ok(FromMicros(Elapsed(large, small)).microseconds)
    ensures 0 <= Difference(large, small, MICROSECOND).value <= 999_999
  {
  }

  /** MINUTE and HOUR are the SECOND result in whole minutes and whole hours. */
  lemma DifferenceMinutesHours(large: DateTime, small: DateTime)
    ensures Difference(large, small, MINUTE) == Ok(Difference(large, small, SECOND).value / 60)
    ensures Difference(large, small, HOUR) == Ok(Difference(large, small, SECOND).value / 3600)
    ensures 0 <= Difference(large, small, MINUTE).value <= 1439
    ensures 0 <= Difference(large, small, HOUR).value <= 23
  {
  }

  /**
   * DAY is the number of whole days by which the difference is rounded down, in
   * absolute value: the days `n` with n days <= delta < n + 1 days when `large`
   * is not earlier, and -n days <= delta < -n + 1 days otherwise.
   */
  lemma DifferenceDays(large: DateTime, small: DateTime)
    ensures var n := Difference(large, small, DAY).value;
            var delta := Elapsed(large, small);
            && Difference(large, small, DAY).Ok?
            && (delta >= 0 ==> n * MicrosPerDay <= delta < (n + 1) * MicrosPerDay)
            && (delta < 0 ==> -n * MicrosPerDay <= delta < (-n + 1) * MicrosPerDay)
  {
    var d := FromMicros(Elapsed(large, small));
    if Elapsed(large, small) >= 0 {
      assert d.days >= 0;
    } else {
      assert d.days < 0;
    }
  }

  /** One second in the wrong order counts as a whole day, and as 86399 seconds. */
  lemma ReversedSecond(large: DateTime, small: DateTime)
    requires Elapsed(large, small) == -MicrosPerSecond
    ensures Difference(large, small, DAY) == Ok(1)
    ensures Difference(large, small, SECOND) == Ok(86399)
  {
    assert FromMicros(-MicrosPerSecond) == Timedelta(-1, 86399, 0);
  }

  /** Whole days between the datetimes change DAY only, never SECOND, MICROSECOND, MINUTE or HOUR. */
  lemma SecondsIgnoreWholeDays(large: DateTime, small: DateTime, later: DateTime, k: int, u: TimeUnit)
    requires Elapsed(later, small) == Elapsed(large, small) + k * MicrosPerDay
    requires u != Day
    ensures Difference(later, small, UnitName(u)) == Difference(large, small, UnitName(u))
  {
    ShiftByDays(Elapsed(large, small), k);
  }

  /** For a non-negative difference, DAY, SECOND and MICROSECOND together make up all of it. */
  lemma DifferenceRecombines(large: DateTime, small: DateTime)
    requires Elapsed(large, small) >= 0
    ensures Difference(large, small, DAY).value * MicrosPerDay
          + Difference(large, small, SECOND).value * MicrosPerSecond
          + Difference(large, small, MICROSECOND).value == Elapsed(large, small)
  {
    var d := FromMicros(Elapsed(large, small));
    assert d.days >= 0;
  }

  /**
   * A naive datetime gives the same differences as the same wall-clock time in
   * UTC, whether the other datetime is naive or aware.
   */
  lemma NaiveIsUtc(large: DateTime, small: DateTime, timeSpan: string)
    ensures large.utcOffset.None? ==> Difference(large, small, timeSpan) == Difference(MakeAware(large), small, timeSpan)
    ensures small.utcOffset.None? ==> Difference(large, small, timeSpan) == Difference(large, MakeAware(small), timeSpan)
    ensures large.utcOffset.None? && small.utcOffset.None? ==> Elapsed(large, small) == large.micros - small.micros
  {
  }

  /** Leaving out `time_span` asks for SECOND. */
  lemma DifferenceDefaultUnit(large: DateTime, small: DateTime)
    ensures Difference(large, small) == Difference(large, small, SECOND)
    ensures 0 <= Difference(large, small).value <= 86399
  {
  }

  // ---------------------------------------------------------------------------
  // get_week

  /**
   * `get_week`: the `TimeUtilityWeek` of a date, which holds the date, its ISO
   * week number and its Monday, or OverflowError when the Sunday is past 9999-12-31.
   */
  function GetWeek(d: Date): (r: Result<Week.TimeUtilityWeek>)
    requires Valid(d)
    ensures r.Ok? <==> IsoCalendar.MondayOrdinal(d.ordinal) + 6 <= MaxOrdinal
    ensures r.Ok? ==> && r.value.od == d && Week.WellFormed(r.value)
                      && r.value.weekNumber == IsoCalendar.IsoWeekNumber(d)
                      && r.value.weekStart.ordinal == IsoCalendar.MondayOrdinal(d.ordinal)
    ensures r.Err? ==> r.error == OverflowError
  {
    Week.FromDate(d)
  }
}
