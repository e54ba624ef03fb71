/**
 * The ISO 8601 week calendar on top of Python's dates: `date.isoweekday` and the
 * week number and week-year of `date.isocalendar`. Weeks run Monday..Sunday and
 * week 1 of a year is the week that holds the year's first Thursday (equivalently
 * January 4); the ISO year of a date is the Gregorian year of its week's Thursday.
 * The functions work on day ordinals; the `Date` forms read the date's ordinal.
 */
module IsoCalendar {
  import opened Wrappers
  import opened Calendar

  /** The ISO weekday of day ordinal `n`; ordinal 1 (0001-01-01) is a Monday. */
  function WeekdayOf(n: int): (w: int)
    ensures 1 <= w <= 7
  {
    (n + 6) % 7 + 1
  }

  /** Python's `date.isoweekday`: 1 is Monday, 7 is Sunday. */
  function IsoWeekday(d: Date): (w: int)
    ensures 1 <= w <= 7 && w == WeekdayOf(d.ordinal)
  {
    WeekdayOf(d.ordinal)
  }

  /** The weekday advances by one, Sunday wrapping to Monday, from each day to the next. */
  lemma WeekdayNext(n: int)
    ensures WeekdayOf(n + 1) == WeekdayOf(n) % 7 + 1
  {
  }

  lemma FirstDayIsMonday()
    ensures FromYmd(Ymd(1, 1, 1)).Ok? && IsoWeekday(FromYmd(Ymd(1, 1, 1)).value) == 1
  {
  }

  /** The ordinal of the Monday of the week holding day `n`. */
  function MondayOrdinal(n: int): (m: int)
    ensures WeekdayOf(m) == 1 && m <= n < m + 7
  {
    n - WeekdayOf(n) + 1
  }

  /** The ordinal of the Thursday of the week holding day `n`. */
  function ThursdayOrdinal(n: int): (t: int)
    ensures WeekdayOf(t) == 4 && n - 3 <= t <= n + 3
    ensures 1 <= n <= MaxOrdinal ==> 1 <= t <= MaxOrdinal
  {
    MondayOrdinal(n) + 3
  }

  /** Two dates lie in the same Monday..Sunday week. */
  predicate SameIsoWeek(a: Date, b: Date) {
    MondayOrdinal(a.ordinal) == MondayOrdinal(b.ordinal)
  }

  /** The ISO week-year of day `n`: the Gregorian year of its week's Thursday. */
  function IsoYearOf(n: int): (y: int)
    requires 1 <= n <= MaxOrdinal
    ensures MinYear <= y <= MaxYear
    ensures DaysBeforeYear(y) < ThursdayOrdinal(n) <= DaysBeforeYear(y + 1)
  {
    var t := ThursdayOrdinal(n);
    YearOfInRange(t);
    YearOf(t)
  }

  /** The week number of day `n`: whole weeks from its ISO year's start to its Thursday. */
  function WeekNumberOf(n: int): (w: int)
    requires 1 <= n <= MaxOrdinal
    ensures 1 <= w <= 53
  {
    var y := IsoYearOf(n);
    LeapYearLength(y);
    (ThursdayOrdinal(n) - DaysBeforeYear(y) - 1) / 7 + 1
  }

  /** The ISO year of `date.isocalendar()`; at most one year away from the date's own. */
  function IsoYear(d: Date): (y: int)
    requires Valid(d)
    ensures MinYear <= y <= MaxYear && y == IsoYearOf(d.ordinal)
  {
    IsoYearOf(d.ordinal)
  }

  /** A day's week-year and calendar year differ by at most one. */
  lemma IsoYearNear(n: int, y: int, c: int)
    requires y >= 1 && DaysBeforeYear(y) < ThursdayOrdinal(n) <= DaysBeforeYear(y + 1)
    requires c >= 1 && DaysBeforeYear(c) < n <= DaysBeforeYear(c + 1)
    ensures c - 1 <= y <= c + 1
  {
    if y < c - 1 {
      DaysBeforeYearMonotone(y + 1, c);
    } else if y > c + 1 {
      DaysBeforeYearMonotone(c + 1, y);
    }
  }

  /** The ISO year of a date is its own year, the one before or the one after. */
  lemma IsoYearNearYear(d: Date)
    requires Valid(d)
    ensures ToYmd(d).year - 1 <= IsoYear(d) <= ToYmd(d).year + 1
  {
    IsoYearNear(d.ordinal, IsoYearOf(d.ordinal), YearOf(d.ordinal));
  }

  /** The week number of `date.isocalendar()`, always 1..53. */
  function IsoWeekNumber(d: Date): (w: int)
    requires Valid(d)
    ensures 1 <= w <= 53 && w == WeekNumberOf(d.ordinal)
  {
    WeekNumberOf(d.ordinal)
  }

  /** The day `j` days after a Monday, within the week, has weekday `j + 1`. */
  lemma WeekdayAfterMonday(m: int, j: int)
    requires WeekdayOf(m) == 1 && 0 <= j < 7
    ensures WeekdayOf(m + j) == j + 1
  {
    var q := (m + 6) / 7;
    assert m + j + 6 == 7 * q + j;
  }

  /** Three days after a Monday is a Thursday. */
  lemma MondayToThursday(m: int)
    requires WeekdayOf(m) == 1
    ensures WeekdayOf(m + 3) == 4
  {
  }

  /**
   * The ordinal of the Monday of week 1 of ISO year `y`: the Monday of the week
   * holding January 4, whose Thursday is the first Thursday of the year.
   */
  function WeekOneMonday(y: int): (m: int)
    requires y >= 1
    ensures WeekdayOf(m) == 1 && WeekdayOf(m + 3) == 4
    ensures DaysBeforeYear(y) < m + 3 <= DaysBeforeYear(y) + 7
  {
    var m := MondayOrdinal(DaysBeforeYear(y) + 4);
    MondayToThursday(m);
    m
  }

  // ---------------------------------------------------------------------------
  // The ISO 8601 week rules

  /** Dates of one Monday..Sunday week share their ISO year and week number. */
  lemma SameWeekSameNumber(a: Date, b: Date)
    requires Valid(a) && Valid(b) && SameIsoWeek(a, b)
    ensures IsoYear(a) == IsoYear(b) && IsoWeekNumber(a) == IsoWeekNumber(b)
  {
    assert ThursdayOrdinal(a.ordinal) == ThursdayOrdinal(b.ordinal);
  }

  /** January 4 of year `y` is the fourth day after the days before the year. */
  lemma JanuaryFourthOrdinal(y: int)
    requires MinYear <= y <= MaxYear
    ensures FromYmd(Ymd(y, 1, 4)) == Ok(Date(DaysBeforeYear(y) + 4))
  {
  }

  /** The week that holds January 4 of year `y` is week 1 of ISO year `y`. */
  lemma WeekOfJanuaryFourth(y: int, d: Date)
    requires MinYear <= y <= MaxYear
    requires Valid(d) && SameIsoWeek(d, Date(DaysBeforeYear(y) + 4))
    ensures IsoYear(d) == y && IsoWeekNumber(d) == 1
  {
    var t := ThursdayOrdinal(d.ordinal);
    assert t == ThursdayOrdinal(DaysBeforeYear(y) + 4);
    LeapYearLength(y);
    YearOfUnique(t, y);
  }

  lemma ThursdayNextWeek(n: int)
    ensures ThursdayOrdinal(n + 7) == ThursdayOrdinal(n) + 7
  {
  }

  /** The ISO year of the day a week later: the same while the Thursday stays in the year... */
  lemma IsoYearNextWeekSame(n: int)
    requires 1 <= n && n + 7 <= MaxOrdinal
    requires ThursdayOrdinal(n) + 7 <= DaysBeforeYear(IsoYearOf(n) + 1)
    ensures IsoYearOf(n + 7) == IsoYearOf(n)
  {
    ThursdayNextWeek(n);
    YearOfUnique(ThursdayOrdinal(n) + 7, IsoYearOf(n));
  }

  /** ... and the next one once it has left it. */
  lemma IsoYearNextWeekNext(n: int)
    requires 1 <= n && n + 7 <= MaxOrdinal
    requires ThursdayOrdinal(n) + 7 > DaysBeforeYear(IsoYearOf(n) + 1)
    ensures IsoYearOf(n + 7) == IsoYearOf(n) + 1
  {
    ThursdayNextWeek(n);
    LeapYearLength(IsoYearOf(n) + 1);
    YearOfUnique(ThursdayOrdinal(n) + 7, IsoYearOf(n) + 1);
  }

  /** Week numbers count sevens of days from the start of the ISO year to the Thursday. */
  lemma WeekNumberCount(n: int, offset: int)
    requires 1 <= n <= MaxOrdinal
    requires offset == ThursdayOrdinal(n) - DaysBeforeYear(IsoYearOf(n)) - 1
    ensures WeekNumberOf(n) == offset / 7 + 1
  {
  }

  /** Seven days later, within the same ISO year, the week number is one more. */
  lemma WeekNumberAdvanceSame(n: int)
    requires 1 <= n && n + 7 <= MaxOrdinal
    requires ThursdayOrdinal(n) + 7 <= DaysBeforeYear(IsoYearOf(n) + 1)
    ensures IsoYearOf(n + 7) == IsoYearOf(n)
    ensures WeekNumberOf(n + 7) == WeekNumberOf(n) + 1
  {
    var offset := ThursdayOrdinal(n) - DaysBeforeYear(IsoYearOf(n)) - 1;
    IsoYearNextWeekSame(n);
    WeekNumberCount(n, offset);
    WeekNumberCount(n + 7, offset + 7);
  }

  /** Seven days later, in the next ISO year, the week number is 1. */
  lemma WeekNumberAdvanceNext(n: int)
    requires 1 <= n && n + 7 <= MaxOrdinal
    requires ThursdayOrdinal(n) + 7 > DaysBeforeYear(IsoYearOf(n) + 1)
    ensures IsoYearOf(n + 7) == IsoYearOf(n) + 1
    ensures WeekNumberOf(n + 7) == 1
  {
    var y := IsoYearOf(n);
    IsoYearNextWeekNext(n);
    var offset := ThursdayOrdinal(n) + 7 - DaysBeforeYear(y + 1) - 1;
    assert 0 <= offset < 7;
    WeekNumberCount(n + 7, offset);
  }

  /**
   * Seven days later the week number is one more, or 1 when the later day
   * belongs to the next ISO year.
   */
  lemma WeekNumberAdvanceOrdinal(n: int)
    requires 1 <= n && n + 7 <= MaxOrdinal
    ensures IsoYearOf(n) <= IsoYearOf(n + 7) <= IsoYearOf(n) + 1
    ensures WeekNumberOf(n + 7) == if IsoYearOf(n + 7) == IsoYearOf(n) then WeekNumberOf(n) + 1 else 1
  {
    if ThursdayOrdinal(n) + 7 <= DaysBeforeYear(IsoYearOf(n) + 1) {
      WeekNumberAdvanceSame(n);
    } else {
      WeekNumberAdvanceNext(n);
    }
  }

  lemma WeekNumberAdvance(d: Date, e: Date)
    requires Valid(d) && Valid(e) && e.ordinal == d.ordinal + 7
    ensures IsoYear(d) <= IsoYear(e) <= IsoYear(d) + 1
    ensures IsoWeekNumber(e) == if IsoYear(e) == IsoYear(d) then IsoWeekNumber(d) + 1 else 1
  {
    WeekNumberAdvanceOrdinal(d.ordinal);
  }

  /** Days with the same weekday lie a whole number of weeks apart. */
  lemma SameWeekday(a: int, b: int)
    requires WeekdayOf(a) == WeekdayOf(b)
    ensures (a - b) % 7 == 0
  {
  }

  /** Two days of the same weekday in order are at least a week apart. */
  lemma WeekApart(a: int, b: int)
    requires a < b && WeekdayOf(a) == WeekdayOf(b)
    ensures a + 7 <= b
  {
    SameWeekday(b, a);
  }

  /**
   * Counting weeks from the first Thursday to day `n`'s Thursday `t` gives the
   * same number as counting them from the start of the year, or from the Monday
   * of week 1 to `n`.
   */
  lemma CountWeeks(n: int, t: int, first: int, start: int)
    requires n - 3 <= t <= n + 3 && start < first <= start + 7 && first <= t
    requires (t - first) % 7 == 0
    ensures (t - start - 1) / 7 == (t - first) / 7
    ensures (n - (first - 3)) / 7 == (t - first) / 7
  {
  }

  /**
   * The ISO 8601 definition by week-1 Mondays: a day lies between the Monday of
   * week 1 of its ISO year and that of the next ISO year, and its week number
   * counts whole weeks from the first of them.
   */
  lemma WeekNumberFromWeekOneMonday(n: int)
    requires 1 <= n <= MaxOrdinal
    ensures WeekOneMonday(IsoYearOf(n)) <= n < WeekOneMonday(IsoYearOf(n) + 1)
    ensures WeekNumberOf(n) == (n - WeekOneMonday(IsoYearOf(n))) / 7 + 1
  {
    var y, t := IsoYearOf(n), ThursdayOrdinal(n);
    var first, next := WeekOneMonday(y) + 3, WeekOneMonday(y + 1) + 3;
    if t < first { WeekApart(t, first); }
    WeekApart(t, next);
    SameWeekday(t, first);
    CountWeeks(n, t, first, DaysBeforeYear(y));
    WeekNumberCount(n, t - DaysBeforeYear(y) - 1);
  }

  lemma DaysBefore2020()
    ensures DaysBeforeYear(2020) == 737424 && DaysBeforeYear(2021) == 737790
  {
    LeapYearsClosedForm(2019);
    LeapYearsClosedForm(2020);
  }

  /** 2020-12-31 is ordinal 737790 and 2021-01-03 is ordinal 737793. */
  lemma Week53Dates()
    ensures FromYmd(Ymd(2020, 12, 31)) == Ok(Date(737790))
    ensures FromYmd(Ymd(2021, 1, 3)) == Ok(Date(737793))
  {
    DaysBefore2020();
    MonthsFillYear(2020);
    MonthStep(2020, 12);
  }

  /**
   * The last day of a year whose December 31 is a Thursday, and the three days
   * after it, belong to that ISO year.
   */
  lemma LongYearEndIsoYear(y: int, k: int)
    requires MinYear <= y < MaxYear && 0 <= k <= 3
    requires WeekdayOf(DaysBeforeYear(y + 1)) == 4
    ensures 1 <= DaysBeforeYear(y + 1) + k <= MaxOrdinal
    ensures ThursdayOrdinal(DaysBeforeYear(y + 1) + k) == DaysBeforeYear(y + 1)
    ensures IsoYearOf(DaysBeforeYear(y + 1) + k) == y
  {
    var n := DaysBeforeYear(y + 1);
    YearEndInRange(y);
    ThursdayThenWeekend(n, k);
    assert DaysBeforeYear(y) < n by { LeapYearLength(y); }
    YearOfUnique(n, y);
  }

  /**
   * A year whose December 31 is a Thursday has 53 weeks: that day and the three
   * after it (January 1..3 of the next year) are in week 53 of the year.
   */
  lemma LongYearEnd(y: int, k: int)
    requires MinYear <= y < MaxYear && 0 <= k <= 3
    requires WeekdayOf(DaysBeforeYear(y + 1)) == 4
    ensures 1 <= DaysBeforeYear(y + 1) + k <= MaxOrdinal
    ensures IsoYearOf(DaysBeforeYear(y + 1) + k) == y
    ensures WeekNumberOf(DaysBeforeYear(y + 1) + k) == 53
  {
    var n := DaysBeforeYear(y + 1);
    LongYearEndIsoYear(y, k);
    var offset := n - DaysBeforeYear(y) - 1;
    assert 364 <= offset <= 365 by { LeapYearLength(y); }
    WeekNumberCount(n + k, offset);
  }

  /** December 31 of a year before 9999, and the three days after it, are representable. */
  lemma YearEndInRange(y: int)
    requires MinYear <= y < MaxYear
    ensures 1 <= DaysBeforeYear(y + 1) && DaysBeforeYear(y + 1) + 3 <= MaxOrdinal
  {
    LeapYearLength(y + 1);
    DaysBeforeYearMonotone(y + 2, MaxYear + 1);
    LastOrdinal();
  }

  /** A Thursday and the three days after it share that Thursday's week. */
  lemma ThursdayThenWeekend(n: int, k: int)
    requires WeekdayOf(n) == 4 && 0 <= k <= 3
    ensures ThursdayOrdinal(n + k) == n
  {
    var q := (n + 6) / 7;
    assert n + k + 6 == 7 * q + 3 + k;
  }

  /**
   * 2020-12-31 is a Thursday, so it is in week 53 of 2020, and so is
   * 2021-01-03, whose ISO year is the year before its own.
   */
  lemma Week53Example()
    ensures IsoWeekday(FromYmd(Ymd(2020, 12, 31)).value) == 4
    ensures IsoWeekNumber(FromYmd(Ymd(2021, 1, 3)).value) == 53
    ensures IsoYear(FromYmd(Ymd(2021, 1, 3)).value) == 2020
  {
    Week53Dates();
    DaysBefore2020();
    LongYearEnd(2020, 3);
  }
}
