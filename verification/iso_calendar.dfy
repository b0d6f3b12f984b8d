/**
  Proleptic Gregorian calendar arithmetic as used by java.time.LocalDate
  (ISO 8601:2004, section 3.2.1 for the calendar and section 3.2.2 for the
  week calendar, where day 1 is Monday).

  Every valid date is numbered by its epoch day: 1970-01-01 is day 0, the
  day after it is 1, the day before it is -1. `EpochDay` and `FromEpochDay`
  are mutually inverse, and all date arithmetic (adding days, weekdays) goes
  through that count.
*/
module IsoCalendar {

  /** A calendar date; `ValidDate` says when its fields name a real day. */
  datatype Date = Date(year: int, month: int, day: int)

  /** The ISO day-of-week: 1 = Monday, ..., 7 = Sunday. */
  type DayOfWeek = w: int | 1 <= w <= 7 witness 1

  const Monday: DayOfWeek := 1
  const Sunday: DayOfWeek := 7

  /** The Gregorian leap-year rule. Only divisibility is tested, so the
      result is the same whether the remainder truncates or floors. */
  predicate IsLeapYear(year: int) {
    (year % 4 == 0 && year % 100 != 0) || year % 400 == 0
  }

  function YearLength(year: int): int {
    if IsLeapYear(year) then 366 else 365
  }

  /** Length of month `month` (1 = January) of `year`. */
  function DaysInMonth(year: int, month: int): (n: int)
    requires 1 <= month <= 12
    ensures 28 <= n <= 31
    ensures n == 29 <==> month == 2 && IsLeapYear(year)
  {
    if month == 2 then (if IsLeapYear(year) then 29 else 28)
    else if month == 4 || month == 6 || month == 9 || month == 11 then 30
    else 31
  }

  predicate ValidDate(d: Date) {
    1 <= d.month <= 12 && 1 <= d.day <= DaysInMonth(d.year, d.month)
  }

  /** Number of leap years in 1..k; for k <= 0 the same floor formula keeps
      the difference of two counts equal to the leap years between them. */
  function LeapYearsThrough(k: int): int {
    k / 4 - k / 100 + k / 400
  }

  /** Days from 1970-01-01 to January 1 of `year` (negative before 1970),
      counted year by year; `DaysBeforeYearFormula` gives the closed form. */
  function DaysBeforeYear(year: int): int
    decreases if year < 1970 then 1970 - year else year - 1970
  {
    if year == 1970 then 0
    else if year > 1970 then DaysBeforeYear(year - 1) + YearLength(year - 1)
    else DaysBeforeYear(year + 1) - YearLength(year)
  }

  /** Days from January 1 to the first of `month` in `year`; month 13 stands
      for the January 1 that follows. */
  function DaysBeforeMonth(year: int, month: int): int
    requires 1 <= month <= 13
  {
    [0, 31, 59, 90, 120, 151, 181, 212, 243, 273, 304, 334, 365][month - 1]
      + (if month > 2 && IsLeapYear(year) then 1 else 0)
  }

  /** The epoch-day number of a valid date (LocalDate.toEpochDay). */
  function EpochDay(d: Date): int
    requires ValidDate(d)
  {
    DaysBeforeYear(d.year) + DaysBeforeMonth(d.year, d.month) + d.day - 1
  }

  // ---------------------------------------------------------------------
  // Year and month lengths, as seen through the day counts

  /** A floor quotient grows by one exactly at the multiples of the divisor. */
  lemma FloorSteps(k: int)
    ensures k / 4 - (k - 1) / 4 == if k % 4 == 0 then 1 else 0
    ensures k / 100 - (k - 1) / 100 == if k % 100 == 0 then 1 else 0
    ensures k / 400 - (k - 1) / 400 == if k % 400 == 0 then 1 else 0
  {
  }

  /** Multiples of 400 are multiples of 100, which are multiples of 4. */
  lemma CenturyDivisors(k: int)
    ensures k % 400 == 0 ==> k % 100 == 0
    ensures k % 100 == 0 ==> k % 4 == 0
  {
    if k % 400 == 0 {
      var c := 4 * (k / 400);
      assert k == 100 * c;
    }
    if k % 100 == 0 {
      var c := 25 * (k / 100);
      assert k == 4 * c;
    }
  }

  /** The floor formula counts one more leap year exactly at each leap year. */
  lemma LeapYearsStep(k: int)
    ensures LeapYearsThrough(k) - LeapYearsThrough(k - 1) == if IsLeapYear(k) then 1 else 0
  {
    FloorSteps(k);
    CenturyDivisors(k);
  }

  /** January 1 of `year + 1` is `YearLength(year)` days after January 1 of `year`. */
  lemma YearStep(year: int)
    ensures DaysBeforeYear(year + 1) == DaysBeforeYear(year) + YearLength(year)
  {
  }

  /** The year-by-year count equals 365 days a year plus one per leap year
      in between, the leap years being counted by the floor formula. */
  lemma {:induction false} DaysBeforeYearFormula(year: int)
    ensures DaysBeforeYear(year) == 365 * (year - 1970) + LeapYearsThrough(year - 1) - LeapYearsThrough(1969)
    decreases if year < 1970 then 1970 - year else year - 1970
  {
    if year > 1970 {
      DaysBeforeYearFormula(year - 1);
      LeapYearsStep(year - 1);
    } else if year < 1970 {
      DaysBeforeYearFormula(year + 1);
      LeapYearsStep(year);
    }
  }

  /** The epoch days of 2016-01-01 and 2020-01-01, which the worked
      examples count from. */
  lemma NewYearEpochDays()
    ensures DaysBeforeYear(2016) == 16801 && DaysBeforeYear(2020) == 18262
  {
    assert DaysBeforeYear(2016) == 16801 by {
      DaysBeforeYearFormula(2016);
      assert LeapYearsThrough(2015) == 488 && LeapYearsThrough(1969) == 477;
    }
    assert DaysBeforeYear(2020) == 18262 by {
      DaysBeforeYearFormula(2020);
      assert LeapYearsThrough(2019) == 489 && LeapYearsThrough(1969) == 477;
    }
  }

  /** Every 400 years from 1970 span exactly one Gregorian cycle of 146097 days. */
  lemma CycleStart(q: int)
    ensures DaysBeforeYear(1970 + 400 * q) == 146097 * q
  {
    DaysBeforeYearFormula(1970 + 400 * q);
    var k := 1969 + 400 * q;
    assert k == 4 * (492 + 100 * q) + 1;
    assert k / 4 == 492 + 100 * q;
    assert k == 100 * (19 + 4 * q) + 69;
    assert k / 100 == 19 + 4 * q;
    assert k == 400 * (4 + q) + 369;
    assert k / 400 == 4 + q;
  }

  lemma {:induction false} DaysBeforeYearMonotone(a: int, b: int)
    requires a <= b
    ensures DaysBeforeYear(a) + 365 * (b - a) <= DaysBeforeYear(b)
    decreases b - a
  {
    if a < b {
      DaysBeforeYearMonotone(a, b - 1);
      YearStep(b - 1);
    }
  }

  lemma {:induction false} DaysBeforeYearAtMost(a: int, k: nat)
    ensures DaysBeforeYear(a + k) <= DaysBeforeYear(a) + 366 * k
  {
    if k > 0 {
      DaysBeforeYearAtMost(a, k - 1);
      YearStep(a + k - 1);
    }
  }

  /** The first of month `month + 1` is `DaysInMonth(year, month)` days after the first of `month`. */
  lemma MonthStep(year: int, month: int)
    requires 1 <= month <= 12
    ensures DaysBeforeMonth(year, month + 1) == DaysBeforeMonth(year, month) + DaysInMonth(year, month)
  {
  }

  lemma MonthMonotone(year: int, a: int, b: int)
    requires 1 <= a <= b <= 13
    ensures DaysBeforeMonth(year, a) + 28 * (b - a) <= DaysBeforeMonth(year, b)
  {
  }

  /** A valid date lies inside its own year and its own month. */
  lemma EpochDayWithinYear(d: Date)
    requires ValidDate(d)
    ensures DaysBeforeYear(d.year) <= EpochDay(d) < DaysBeforeYear(d.year + 1)
    ensures DaysBeforeMonth(d.year, d.month) <= EpochDay(d) - DaysBeforeYear(d.year) < DaysBeforeMonth(d.year, d.month + 1)
  {
    YearStep(d.year);
    MonthStep(d.year, d.month);
    MonthMonotone(d.year, d.month + 1, 13);
  }

  /** A valid date falls between January 1 of its year and January 1 of the next. */
  lemma WithinYearBounds(d: Date)
    requires ValidDate(d)
    ensures ValidDate(Date(d.year, 1, 1)) && ValidDate(Date(d.year + 1, 1, 1))
    ensures EpochDay(Date(d.year, 1, 1)) <= EpochDay(d) < EpochDay(Date(d.year + 1, 1, 1))
  {
    EpochDayWithinYear(d);
    assert EpochDay(Date(d.year, 1, 1)) == DaysBeforeYear(d.year);
    assert EpochDay(Date(d.year + 1, 1, 1)) == DaysBeforeYear(d.year + 1);
  }

  // ---------------------------------------------------------------------
  // From an epoch day back to a date (LocalDate.ofEpochDay)

  /** Scans forward from `year` to the year whose span holds epoch day `n`. */
  function FindYear(n: int, year: int): (r: int)
    requires DaysBeforeYear(year) <= n
    ensures year <= r
    ensures DaysBeforeYear(r) <= n < DaysBeforeYear(r + 1)
    decreases n - DaysBeforeYear(year)
  {
    YearStep(year);
    if n < DaysBeforeYear(year + 1) then year else FindYear(n, year + 1)
  }

  /** The year that contains epoch day `n`. The scan starts from an
      estimate that counts every year of `n`'s 400-year cycle as 366 days
      long, which never overshoots and is at most two years short. */
  function YearOfEpochDay(n: int): (year: int)
    ensures DaysBeforeYear(year) <= n < DaysBeforeYear(year + 1)
  {
    var q := n / 146097;
    var k := (n % 146097) / 366;
    CycleStart(q);
    DaysBeforeYearAtMost(1970 + 400 * q, k);
    FindYear(n, 1970 + 400 * q + k)
  }

  /** Scans forward from `month` to the month of `year` holding day-of-year `doy` (0-based). */
  function FindMonth(year: int, doy: int, month: int): (r: int)
    requires 1 <= month <= 12
    requires DaysBeforeMonth(year, month) <= doy < DaysBeforeMonth(year, 13)
    ensures month <= r <= 12
    ensures DaysBeforeMonth(year, r) <= doy < DaysBeforeMonth(year, r + 1)
    decreases 12 - month
  {
    if doy < DaysBeforeMonth(year, month + 1) then month
    else FindMonth(year, doy, month + 1)
  }

  /** Every epoch day numbers some valid date: the scan above finds it. */
  lemma EpochDayOnto(n: int)
    ensures exists d :: ValidDate(d) && EpochDay(d) == n
  {
    var year := YearOfEpochDay(n);
    var doy := n - DaysBeforeYear(year);
    YearStep(year);
    var month := FindMonth(year, doy, 1);
    MonthStep(year, month);
    var d := Date(year, month, doy - DaysBeforeMonth(year, month) + 1);
    assert ValidDate(d) && EpochDay(d) == n;
  }

  /** Chronological order of dates: by year, then month, then day. */
  predicate Before(a: Date, b: Date) {
    a.year < b.year
    || (a.year == b.year && a.month < b.month)
    || (a.year == b.year && a.month == b.month && a.day < b.day)
  }

  /** Epoch days count in chronological order. */
  lemma EpochDayOrder(a: Date, b: Date)
    requires ValidDate(a) && ValidDate(b)
    ensures Before(a, b) <==> EpochDay(a) < EpochDay(b)
  {
    EpochDayWithinYear(a);
    EpochDayWithinYear(b);
    if a.year < b.year {
      DaysBeforeYearMonotone(a.year + 1, b.year);
    } else if b.year < a.year {
      DaysBeforeYearMonotone(b.year + 1, a.year);
    } else if a.month < b.month {
      MonthMonotone(a.year, a.month + 1, b.month);
    } else if b.month < a.month {
      MonthMonotone(a.year, b.month + 1, a.month);
    }
  }

  /** Distinct valid dates have distinct epoch days. */
  lemma EpochDayInjective(a: Date, b: Date)
    requires ValidDate(a) && ValidDate(b)
    requires EpochDay(a) == EpochDay(b)
    ensures a == b
  {
    EpochDayOrder(a, b);
    EpochDayOrder(b, a);
  }

  lemma EpochDayUnique(n: int)
    ensures forall a, b :: ValidDate(a) && ValidDate(b) && EpochDay(a) == n && EpochDay(b) == n ==> a == b
  {
    forall a, b | ValidDate(a) && ValidDate(b) && EpochDay(a) == n && EpochDay(b) == n
      ensures a == b
    {
      EpochDayInjective(a, b);
    }
  }

  /** The date numbered `n` (LocalDate.ofEpochDay): the one valid date whose
      epoch day is `n`, which `EpochDayOnto` and `EpochDayInjective` show
      exists and is unique. */
  function FromEpochDay(n: int): (d: Date)
    ensures ValidDate(d)
    ensures EpochDay(d) == n
  {
    EpochDayOnto(n);
    EpochDayUnique(n);
    var d :| ValidDate(d) && EpochDay(d) == n; d
  }

  /** Going from a date to its number and back returns the same date. */
  lemma FromEpochDayOfEpochDay(d: Date)
    requires ValidDate(d)
    ensures FromEpochDay(EpochDay(d)) == d
  {
    EpochDayInjective(FromEpochDay(EpochDay(d)), d);
  }

  // ---------------------------------------------------------------------
  // Day arithmetic and weekdays

  /** LocalDate.plusDays: the date `days` days after `d` (before it when negative). */
  function PlusDays(d: Date, days: int): (r: Date)
    requires ValidDate(d)
    ensures ValidDate(r)
    ensures EpochDay(r) == EpochDay(d) + days
  {
    FromEpochDay(EpochDay(d) + days)
  }

  /** The ISO day-of-week of epoch day `n`. Day 0 (1970-01-01) was a Thursday. */
  function WeekdayOfEpochDay(n: int): DayOfWeek {
    (n + 3) % 7 + 1
  }

  /** The ISO day-of-week of `d` (LocalDate.getDayOfWeek). */
  function IsoDayOfWeek(d: Date): (w: DayOfWeek)
    requires ValidDate(d)
  {
    WeekdayOfEpochDay(EpochDay(d))
  }

  lemma WeekdayNextDay(x: int)
    ensures WeekdayOfEpochDay(x + 1) == WeekdayOfEpochDay(x) % 7 + 1
  {
  }

  /** Each day's weekday follows the previous one's, Sunday wrapping to Monday. */
  lemma IsoDayOfWeekNextDay(d: Date)
    requires ValidDate(d)
    ensures IsoDayOfWeek(PlusDays(d, 1)) == IsoDayOfWeek(d) % 7 + 1
  {
    var x := EpochDay(d);
    assert EpochDay(PlusDays(d, 1)) == x + 1;
    WeekdayNextDay(x);
  }

  /** Weekdays repeat every seven days from any Monday `m`: day `n` is
      `(n - m) % 7` days into its ISO week. */
  lemma WeekdayFromMonday(n: int, m: int)
    requires WeekdayOfEpochDay(m) == Monday
    ensures WeekdayOfEpochDay(n) - 1 == (n - m) % 7
  {
    var k := (m + 3) / 7;
    assert m + 3 == 7 * k;
    assert n - m == (n + 3) - 7 * k;
  }

  /** Monday 2016-01-04, the day weekday counts are anchored on, is epoch day 16804. */
  lemma AnchorMonday()
    ensures EpochDay(Date(2016, 1, 4)) == 16804
    ensures WeekdayOfEpochDay(16804) == Monday
  {
    NewYearEpochDays();
  }

  /** Weekdays anchored on the calendar: 1970-01-01 was a Thursday and
      2016-01-04 through 2016-01-10 run Monday to Sunday. */
  lemma IsoDayOfWeekExamples()
    ensures IsoDayOfWeek(Date(1970, 1, 1)) == 4
    ensures forall day :: 4 <= day <= 10 ==> IsoDayOfWeek(Date(2016, 1, day)) == day - 3
  {
    NewYearEpochDays();
    forall day | 4 <= day <= 10
      ensures IsoDayOfWeek(Date(2016, 1, day)) == day - 3
    {
      assert EpochDay(Date(2016, 1, day)) == 16800 + day;
    }
  }
}
