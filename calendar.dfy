/**
 * The proleptic Gregorian calendar as Python's `datetime.date` implements it:
 * years 1..9999, the leap-year rule and the day ordinal of `date.toordinal`
 * (0001-01-01 is ordinal 1). A date is represented by its ordinal, which is what
 * date arithmetic and date comparison reduce to; `date(year, month, day)` maps a
 * valid triple to it, and `ToYmd` reads the fields back: the two are inverse
 * and the ordinal order is the (year, month, day) tuple order.
 */
module Calendar {
  import opened Wrappers

  const MinYear := 1
  const MaxYear := 9999
  /** The ordinal of 9999-12-31, the last date Python can represent. */
  const MaxOrdinal := 3652059

  /** A `datetime.date`, by its proleptic Gregorian ordinal. */
  datatype Date = Date(ordinal: int)

  predicate Valid(d: Date) {
    1 <= d.ordinal <= MaxOrdinal
  }

  /** The (year, month, day) fields a date is written with. */
  datatype Ymd = Ymd(year: int, month: int, day: int)

  /**
   * The Gregorian leap-year rule (also `TimeUtility.is_leap_year`): every
   * fourth year, except century years, except every fourth century year.
   */
  predicate IsLeapYear(y: int)
    ensures y % 400 == 0 ==> IsLeapYear(y)
    ensures y % 100 == 0 && y % 400 != 0 ==> !IsLeapYear(y)
    ensures y % 4 == 0 && y % 100 != 0 ==> IsLeapYear(y)
    ensures y % 4 != 0 ==> !IsLeapYear(y)
  {
    y % 4 == 0 && (y % 100 != 0 || y % 400 == 0)
  }

  function YearLength(y: int): int {
    if IsLeapYear(y) then 366 else 365
  }

  function DaysInMonth(y: int, m: int): (n: int)
    requires 1 <= m <= 12
    ensures 28 <= n <= 31
  {
    if m == 2 then (if IsLeapYear(y) then 29 else 28)
    else if m == 4 || m == 6 || m == 9 || m == 11 then 30
    else 31
  }

  predicate ValidYmd(d: Ymd) {
    && MinYear <= d.year <= MaxYear
    && 1 <= d.month <= 12
    && 1 <= d.day <= DaysInMonth(d.year, d.month)
  }

  /** The number of leap years among years 1..p. */
  function LeapYearsThrough(p: int): (c: int)
    requires p >= 0
    ensures 0 <= c <= p
  {
    if p == 0 then 0 else LeapYearsThrough(p - 1) + (if IsLeapYear(p) then 1 else 0)
  }

  /** Days in the years before `y`: 365 per year plus one per leap year. */
  function DaysBeforeYear(y: int): int
    requires y >= 1
  {
    365 * (y - 1) + LeapYearsThrough(y - 1)
  }

  /** Days in the months of year `y` before month `m` (m == 13 gives the whole year). */
  function DaysBeforeMonth(y: int, m: int): (n: int)
    requires 1 <= m <= 13
    ensures 28 * (m - 1) <= n <= 31 * (m - 1)
  {
    if m == 1 then 0 else DaysBeforeMonth(y, m - 1) + DaysInMonth(y, m - 1)
  }

  // ---------------------------------------------------------------------------
  // Facts about the day counts

  /** (p + 1) / k steps up exactly when p + 1 is a multiple of k. */
  lemma DivStep(p: int, k: int)
    requires p >= 0 && k in {4, 100, 400}
    ensures (p + 1) / k == p / k + (if (p + 1) % k == 0 then 1 else 0)
  {
  }

  /**
   * The leap-year rule counts p / 4 - p / 100 + p / 400 leap years among years
   * 1..p: the closed form Python's `date.toordinal` uses for the days before a year.
   */
  lemma {:induction false} LeapYearsClosedForm(p: int)
    requires p >= 0
    ensures LeapYearsThrough(p) == p / 4 - p / 100 + p / 400
  {
    if p > 0 {
      LeapYearsClosedForm(p - 1);
      ClosedFormStep(p);
    }
  }

  /** The closed form grows by one from p - 1 to p exactly at a leap year p. */
  lemma ClosedFormStep(p: int)
    requires p >= 1
    ensures p / 4 - p / 100 + p / 400
         == (p - 1) / 4 - (p - 1) / 100 + (p - 1) / 400 + (if IsLeapYear(p) then 1 else 0)
  {
    DivStep(p - 1, 4);
    DivStep(p - 1, 100);
    DivStep(p - 1, 400);
    LeapIndicator(p);
  }

  /** A multiple of 400 is a multiple of 100. */
  lemma Multiple400(p: int)
    ensures p % 400 == 0 ==> p % 100 == 0
  {
    if p % 400 == 0 {
      var q := p / 400;
      assert p == 100 * (4 * q);
    }
  }

  /** A multiple of 100 is a multiple of 4. */
  lemma Multiple100(p: int)
    ensures p % 100 == 0 ==> p % 4 == 0
  {
    if p % 100 == 0 {
      var q := p / 100;
      assert p == 4 * (25 * q);
    }
  }

  /** A leap year is a multiple of 4, less the multiples of 100, plus the multiples of 400. */
  lemma LeapIndicator(p: int)
    ensures (if IsLeapYear(p) then 1 else 0)
         == (if p % 4 == 0 then 1 else 0) - (if p % 100 == 0 then 1 else 0) + (if p % 400 == 0 then 1 else 0)
  {
    Multiple400(p);
    Multiple100(p);
  }

  /** A year has 366 days, counted from the start of the next year, exactly when it is a leap year. */
  lemma LeapYearLength(y: int)
    requires y >= 1
    ensures DaysBeforeYear(y + 1) - DaysBeforeYear(y) == YearLength(y)
  {
  }

  /** February 29 is a valid date exactly in the leap years. */
  lemma LeapYearFebruary(y: int)
    requires MinYear <= y <= MaxYear
    ensures ValidYmd(Ymd(y, 2, 29)) <==> IsLeapYear(y)
  {
  }

  lemma MonthStep(y: int, m: int)
    requires 1 <= m <= 12
    ensures DaysBeforeMonth(y, m + 1) == DaysBeforeMonth(y, m) + DaysInMonth(y, m)
  {
  }

  /** The twelve months fill the year. */
  lemma MonthsFillYear(y: int)
    ensures DaysBeforeMonth(y, 13) == YearLength(y)
  {
    var feb := if IsLeapYear(y) then 1 else 0;
    assert DaysBeforeMonth(y, 2) == 31;
    assert DaysBeforeMonth(y, 3) == 59 + feb;
    assert DaysBeforeMonth(y, 4) == 90 + feb;
    assert DaysBeforeMonth(y, 5) == 120 + feb;
    assert DaysBeforeMonth(y, 6) == 151 + feb;
    assert DaysBeforeMonth(y, 7) == 181 + feb;
    assert DaysBeforeMonth(y, 8) == 212 + feb;
    assert DaysBeforeMonth(y, 9) == 243 + feb;
    assert DaysBeforeMonth(y, 10) == 273 + feb;
    assert DaysBeforeMonth(y, 11) == 304 + feb;
    assert DaysBeforeMonth(y, 12) == 334 + feb;
  }

  /** Later years start later: at least 365 days per year in between. */
  lemma {:induction false} DaysBeforeYearMonotone(a: int, b: int)
    requires 1 <= a <= b
    ensures DaysBeforeYear(a) + 365 * (b - a) <= DaysBeforeYear(b)
    decreases b - a
  {
    if a < b {
      DaysBeforeYearMonotone(a, b - 1);
      LeapYearLength(b - 1);
    }
  }

  /** Later months start later within one year. */
  lemma {:induction false} DaysBeforeMonthMonotone(y: int, a: int, b: int)
    requires 1 <= a <= b <= 13
    ensures DaysBeforeMonth(y, a) + 28 * (b - a) <= DaysBeforeMonth(y, b)
    decreases b - a
  {
    if a < b {
      DaysBeforeMonthMonotone(y, a, b - 1);
      MonthStep(y, b - 1);
    }
  }

  lemma LastOrdinal()
    ensures DaysBeforeYear(MaxYear + 1) == MaxOrdinal
  {
    LeapYearsClosedForm(MaxYear);
  }

  // ---------------------------------------------------------------------------
  // date(year, month, day) and toordinal

  /** Python's `date.toordinal` of a valid (year, month, day). */
  function ToOrdinal(d: Ymd): (n: int)
    requires ValidYmd(d)
    ensures DaysBeforeYear(d.year) < n <= DaysBeforeYear(d.year + 1)
    ensures 1 <= n <= MaxOrdinal
  {
    MonthStep(d.year, d.month);
    DaysBeforeMonthMonotone(d.year, d.month + 1, 13);
    MonthsFillYear(d.year);
    LeapYearLength(d.year);
    DaysBeforeYearMonotone(1, d.year);
    DaysBeforeYearMonotone(d.year + 1, MaxYear + 1);
    LastOrdinal();
    DaysBeforeYear(d.year) + DaysBeforeMonth(d.year, d.month) + d.day
  }

  /** The constructor `date(year, month, day)`: ValueError for a field out of range. */
  function FromYmd(d: Ymd): (r: Result<Date>)
    ensures r.Ok? <==> ValidYmd(d)
    ensures r.Ok? ==> Valid(r.value) && r.value.ordinal == ToOrdinal(d)
    ensures r.Err? ==> r.error == ValueError
  {
    if ValidYmd(d) then Ok(Date(ToOrdinal(d))) else Err(ValueError)
  }

  /** Searches upward from year `y` for the year that holds day `n`. */
  function FindYear(n: int, y: int): (r: int)
    requires 1 <= y && DaysBeforeYear(y) < n
    ensures y <= r && DaysBeforeYear(r) < n <= DaysBeforeYear(r + 1)
    decreases n - DaysBeforeYear(y)
  {
    LeapYearLength(y);
    if n <= DaysBeforeYear(y + 1) then y else FindYear(n, y + 1)
  }

  /** The year holding day ordinal `n`. */
  function YearOf(n: int): (r: int)
    requires n >= 1
    ensures r >= 1 && DaysBeforeYear(r) < n <= DaysBeforeYear(r + 1)
  {
    FindYear(n, 1)
  }

  /** Every representable ordinal falls in years 1..9999. */
  lemma YearOfInRange(n: int)
    requires 1 <= n <= MaxOrdinal
    ensures YearOf(n) <= MaxYear
  {
    var y := YearOf(n);
    LastOrdinal();
    if y > MaxYear { DaysBeforeYearMonotone(MaxYear + 1, y); }
  }

  /** A day belongs to exactly one year. */
  lemma YearOfUnique(n: int, y: int)
    requires y >= 1 && DaysBeforeYear(y) < n <= DaysBeforeYear(y + 1)
    ensures YearOf(n) == y
  {
    var r := YearOf(n);
    if r < y {
      DaysBeforeYearMonotone(r + 1, y);
    } else if r > y {
      DaysBeforeYearMonotone(y + 1, r);
    }
  }

  /** Searches upward from month `m` for the month of year `y` holding day-of-year `doy`. */
  function FindMonth(y: int, doy: int, m: int): (r: int)
    requires 1 <= m <= 12 && DaysBeforeMonth(y, m) < doy <= DaysBeforeMonth(y, 13)
    ensures m <= r <= 12 && DaysBeforeMonth(y, r) < doy <= DaysBeforeMonth(y, r + 1)
    decreases 12 - m
  {
    if doy <= DaysBeforeMonth(y, m + 1) then m else FindMonth(y, doy, m + 1)
  }

  /** The (year, month, day) of the `doy`-th day of year `y`. */
  function DateInYear(y: int, doy: int): (d: Ymd)
    requires MinYear <= y <= MaxYear && 1 <= doy <= YearLength(y)
    ensures ValidYmd(d) && d.year == y
    ensures DaysBeforeMonth(y, d.month) + d.day == doy
  {
    MonthsFillYear(y);
    var m := FindMonth(y, doy, 1);
    MonthStep(y, m);
    Ymd(y, m, doy - DaysBeforeMonth(y, m))
  }

  /** `date.year`, `date.month` and `date.day`: the fields of the date with a given ordinal. */
  function ToYmd(d: Date): (r: Ymd)
    requires Valid(d)
    ensures ValidYmd(r) && ToOrdinal(r) == d.ordinal
  {
    var y := YearOf(d.ordinal);
    YearOfInRange(d.ordinal);
    LeapYearLength(y);
    DateInYear(y, d.ordinal - DaysBeforeYear(y))
  }

  // ---------------------------------------------------------------------------
  // Order and day arithmetic

  /** Python compares dates as (year, month, day) tuples. */
  predicate YmdBefore(a: Ymd, b: Ymd) {
    || a.year < b.year
    || (a.year == b.year && a.month < b.month)
    || (a.year == b.year && a.month == b.month && a.day < b.day)
  }

  /** A date in an earlier month of the same year has a smaller ordinal. */
  lemma EarlierMonthSmallerOrdinal(a: Ymd, b: Ymd)
    requires ValidYmd(a) && ValidYmd(b)
    requires a.year == b.year && a.month < b.month
    ensures ToOrdinal(a) < ToOrdinal(b)
  {
    MonthStep(a.year, a.month);
    DaysBeforeMonthMonotone(a.year, a.month + 1, b.month);
  }

  /** An earlier date in tuple order has a smaller ordinal. */
  lemma BeforeSmallerOrdinal(a: Ymd, b: Ymd)
    requires ValidYmd(a) && ValidYmd(b) && YmdBefore(a, b)
    ensures ToOrdinal(a) < ToOrdinal(b)
  {
    if a.year < b.year {
      DaysBeforeYearMonotone(a.year + 1, b.year);
    } else if a.month < b.month {
      EarlierMonthSmallerOrdinal(a, b);
    }
  }

  /**
   * The tuple order of dates is the order of their ordinals, so distinct dates
   * have distinct ordinals and comparing dates is comparing ordinals.
   */
  lemma BeforeIffOrdinal(a: Ymd, b: Ymd)
    requires ValidYmd(a) && ValidYmd(b)
    ensures YmdBefore(a, b) <==> ToOrdinal(a) < ToOrdinal(b)
    ensures a == b <==> ToOrdinal(a) == ToOrdinal(b)
  {
    if YmdBefore(a, b) {
      BeforeSmallerOrdinal(a, b);
    } else if a != b {
      assert YmdBefore(b, a);
      BeforeSmallerOrdinal(b, a);
    }
  }

  /** Reading back the fields of `date(year, month, day)` gives (year, month, day). */
  lemma YmdRoundTrip(d: Ymd)
    requires ValidYmd(d)
    ensures ToYmd(FromYmd(d).value) == d
  {
    BeforeIffOrdinal(ToYmd(FromYmd(d).value), d);
  }

  /** Building a date from its own fields gives the date back. */
  lemma DateRoundTrip(d: Date)
    requires Valid(d)
    ensures FromYmd(ToYmd(d)) == Ok(d)
  {
  }

  /** `d + timedelta(days=k)`: OverflowError outside years 1..9999. */
  function AddDays(d: Date, k: int): (r: Result<Date>)
    ensures r.Ok? <==> 1 <= d.ordinal + k <= MaxOrdinal
    ensures r.Ok? ==> r.value.ordinal == d.ordinal + k
    ensures r.Err? ==> r.error == OverflowError
  {
    var n := d.ordinal + k;
    if 1 <= n <= MaxOrdinal then Ok(Date(n)) else Err(OverflowError)
  }
}
