/**
 * `TimeUtilityWeek` of time_utility/week.py: a date together with its ISO week
 * number and the Monday and Sunday that bound its week. The constructor assigns
 * the fields once and nothing changes them afterwards, so the class is a value here.
 */
module Week {
  import opened Wrappers
  import opened Calendar
  import opened IsoCalendar

  datatype TimeUtilityWeek = TimeUtilityWeek(od: Date, weekNumber: int, weekStart: Date, weekEnd: Date)

  /** What every constructed week satisfies. */
  predicate WellFormed(w: TimeUtilityWeek) {
    && Valid(w.od) && Valid(w.weekStart) && Valid(w.weekEnd)
    && w.weekStart.ordinal <= w.od.ordinal <= w.weekEnd.ordinal
    && w.weekEnd.ordinal == w.weekStart.ordinal + 6
    && IsoWeekday(w.weekStart) == 1 && IsoWeekday(w.weekEnd) == 7
    && 1 <= w.weekNumber <= 53
  }

  /** The Monday and Sunday of day `n`'s week, as the constructor reaches them from `n`. */
  lemma WeekBounds(n: int)
    requires n >= 1
    ensures n - (WeekdayOf(n) - 1) == MondayOrdinal(n) >= 1
    ensures n + (7 - WeekdayOf(n)) == MondayOrdinal(n) + 6
    ensures WeekdayOf(MondayOrdinal(n) + 6) == 7
  {
  }

  /**
   * `TimeUtilityWeek(od)`: the week's Monday and Sunday are those of the week
   * holding `od`. Subtracting to the Monday never leaves the calendar
   * (0001-01-01 is a Monday); adding to the Sunday raises OverflowError in the
   * last week of year 9999, whose Sunday would be in year 10000.
   */
  function FromDate(od: Date): (r: Result<TimeUtilityWeek>)
    requires Valid(od)
    ensures r.Ok? <==> MondayOrdinal(od.ordinal) + 6 <= MaxOrdinal
    ensures r.Err? ==> r.error == OverflowError
    ensures r.Ok? ==> r.value.od == od && r.value.weekNumber == IsoWeekNumber(od) && WellFormed(r.value)
    ensures r.Ok? ==> r.value.weekStart.ordinal == MondayOrdinal(od.ordinal)
  {
    WeekBounds(od.ordinal);
    var weekNumber := IsoWeekNumber(od);
    var weekStart := AddDays(od, -(IsoWeekday(od) - 1)).value;
    var weekEnd := AddDays(od, 7 - IsoWeekday(od));
    match weekEnd
    case Err(e) => Err(e)
    case Ok(sunday) => Ok(TimeUtilityWeek(od, weekNumber, weekStart, sunday))
  }

  /** Days from a week's Monday to its Sunday all have that Monday. */
  lemma MondayOfSpan(n: int, k: int)
    requires MondayOrdinal(n) <= k <= MondayOrdinal(n) + 6
    ensures MondayOrdinal(k) == MondayOrdinal(n)
  {
    WeekdayAfterMonday(MondayOrdinal(n), k - MondayOrdinal(n));
  }

  /**
   * Every date between a week's Monday and Sunday yields the same week number,
   * Monday and Sunday.
   */
  lemma SameSpanSameWeek(a: Date, b: Date)
    requires Valid(a) && Valid(b) && FromDate(a).Ok?
    requires FromDate(a).value.weekStart.ordinal <= b.ordinal <= FromDate(a).value.weekEnd.ordinal
    ensures FromDate(b).Ok?
    ensures FromDate(b).value.weekNumber == FromDate(a).value.weekNumber
    ensures FromDate(b).value.weekStart == FromDate(a).value.weekStart
    ensures FromDate(b).value.weekEnd == FromDate(a).value.weekEnd
  {
    MondayOfSpan(a.ordinal, b.ordinal);
    SameWeekSameNumber(a, b);
  }

  /** The week holding January 4 is week 1 (and by SameSpanSameWeek, so is every date in it). */
  lemma JanuaryFourthWeekIsWeekOne(y: int)
    requires MinYear <= y <= MaxYear
    ensures FromYmd(Ymd(y, 1, 4)).Ok?
    ensures FromDate(FromYmd(Ymd(y, 1, 4)).value).Ok?
    ensures FromDate(FromYmd(Ymd(y, 1, 4)).value).value.weekNumber == 1
  {
    var j4 := Date(DaysBeforeYear(y) + 4);
    JanuaryFourthOrdinal(y);
    LastOrdinal();
    DaysBeforeYearMonotone(y + 1, MaxYear + 1);
    WeekOfJanuaryFourth(y, j4);
  }

  /** A week later, the Monday is a week later too. */
  lemma MondayNextWeek(n: int)
    ensures MondayOrdinal(n + 7) == MondayOrdinal(n) + 7
  {
  }

  /**
   * The date seven days later has the next week number, or week 1 when the
   * ISO year has ended in between; its week starts seven days later.
   */
  lemma NextWeekNumber(od: Date, later: Date)
    requires Valid(od) && Valid(later) && later.ordinal == od.ordinal + 7
    requires FromDate(later).Ok?
    ensures FromDate(od).Ok?
    ensures FromDate(later).value.weekNumber ==
      if IsoYear(later) == IsoYear(od) then FromDate(od).value.weekNumber + 1 else 1
    ensures FromDate(later).value.weekStart.ordinal == FromDate(od).value.weekStart.ordinal + 7
  {
    MondayNextWeek(od.ordinal);
    WeekNumberAdvance(od, later);
  }
}
