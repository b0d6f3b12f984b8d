/**
  The DateTimeUtils library: conversions between java.util.Date instants and
  local dates and times, start-of-day, week and month boundaries, calendar
  fields and inclusive range checks.

  An instant is a count of milliseconds since 1970-01-01T00:00Z. A zone is a
  fixed UTC offset, so every wall-clock reading names exactly one instant.
  The library's one-argument overloads read the process default zone and
  locale; here that zone and the locale's first day of the week are passed
  in explicitly.
*/
module DateTimeUtils {
  import opened IsoCalendar
  import opened LocalClock

  /** A java.util.Date: milliseconds since 1970-01-01T00:00Z. */
  type Instant = int

  /** A java.time.ZoneOffset: total seconds east of UTC, at most 18 hours either way. */
  type OffsetSeconds = s: int | -64800 <= s <= 64800

  datatype Zone = Zone(offsetSeconds: OffsetSeconds)

  function OffsetMillis(zone: Zone): int {
    zone.offsetSeconds * MillisPerSecond
  }

  // ---------------------------------------------------------------------
  // Instant to local date and time

  /** The wall-clock reading of `date` in `zone` (Instant.atZone(zone).toLocalDateTime()). */
  function AsLocalDateTime(date: Instant, zone: Zone): (r: DateTime)
    ensures ValidDateTime(r)
    ensures LocalMillis(r) == date + OffsetMillis(zone)
  {
    DateTimeOfLocalMillis(date + OffsetMillis(zone))
  }

  /** The calendar date `zone` shows at `date`: the local day whose
      24 wall-clock hours contain the instant. */
  function AsLocalDate(date: Instant, zone: Zone): (r: Date)
    ensures ValidDate(r)
    ensures EpochDay(r) * MillisPerDay <= date + OffsetMillis(zone) < (EpochDay(r) + 1) * MillisPerDay
  {
    var dt := AsLocalDateTime(date, zone);
    MillisOfDayRange(dt.time);
    dt.date
  }

  /** The time of day `zone` shows at `date`: how far into its local day
      the instant lies. */
  function AsLocalTime(date: Instant, zone: Zone): (r: Time)
    ensures ValidTime(r)
    ensures MillisOfDay(r) == date + OffsetMillis(zone) - EpochDay(AsLocalDate(date, zone)) * MillisPerDay
  {
    AsLocalDateTime(date, zone).time
  }

  // ---------------------------------------------------------------------
  // Local date and time to instant

  /** The instant at which `zone` shows the reading `localDateTime`
      (LocalDateTime.atZone(zone).toInstant()). */
  function AsDate(localDateTime: DateTime, zone: Zone): (r: Instant)
    requires ValidDateTime(localDateTime)
    ensures AsLocalDateTime(r, zone) == localDateTime
  {
    DateTimeOfLocalMillisInverse(localDateTime);
    LocalMillis(localDateTime) - OffsetMillis(zone)
  }

  /** The instant at which `zone` shows `localTime` on `localDate`
      (LocalTime.atDate(localDate)). The overload without a date passes the
      current date, which is read from the clock and so is a parameter here. */
  function AsDateOfLocalTime(localTime: Time, localDate: Date, zone: Zone): (r: Instant)
    requires ValidTime(localTime) && ValidDate(localDate)
    ensures AsLocalDate(r, zone) == localDate
    ensures AsLocalTime(r, zone) == localTime
  {
    AsDate(DateTime(localDate, localTime), zone)
  }

  /** The instant at which `localDate` begins in `zone` (LocalDate.atStartOfDay(zone)). */
  function AsDateOfLocalDate(localDate: Date, zone: Zone): (r: Instant)
    requires ValidDate(localDate)
    ensures AsLocalDate(r, zone) == localDate
    ensures AsLocalTime(r, zone) == Midnight
  {
    AsDate(DateTime(localDate, Midnight), zone)
  }

  /** An instant and a valid wall-clock reading correspond exactly when
      `AsDate` maps the reading to that instant: a fixed offset has no gaps
      and no overlaps. */
  lemma AsDateIffAsLocalDateTime(date: Instant, localDateTime: DateTime, zone: Zone)
    requires ValidDateTime(localDateTime)
    ensures AsLocalDateTime(date, zone) == localDateTime <==> date == AsDate(localDateTime, zone)
  {
    if AsLocalDateTime(date, zone) == localDateTime {
      assert LocalMillis(localDateTime) == date + OffsetMillis(zone);
    }
  }

  /** Turning an instant into its local reading and back returns the instant. */
  lemma AsDateOfAsLocalDateTime(date: Instant, zone: Zone)
    ensures AsDate(AsLocalDateTime(date, zone), zone) == date
  {
    AsDateIffAsLocalDateTime(date, AsLocalDateTime(date, zone), zone);
  }

  /** An instant is the start of its local day plus its local time of day. */
  lemma InstantDecomposition(date: Instant, zone: Zone)
    ensures date == AsDateOfLocalDate(AsLocalDate(date, zone), zone) + MillisOfDay(AsLocalTime(date, zone))
  {
    var d := AsLocalDate(date, zone);
    var s := AsDateOfLocalDate(d, zone);
    assert LocalMillis(DateTime(d, Midnight)) == EpochDay(d) * MillisPerDay;
  }

  /** Later local dates begin at later instants. */
  lemma AsDateOfLocalDateOrder(a: Date, b: Date, zone: Zone)
    requires ValidDate(a) && ValidDate(b)
    ensures EpochDay(a) < EpochDay(b) <==> AsDateOfLocalDate(a, zone) < AsDateOfLocalDate(b, zone)
    ensures AsDateOfLocalDate(b, zone) - AsDateOfLocalDate(a, zone) == (EpochDay(b) - EpochDay(a)) * MillisPerDay
  {
    assert LocalMillis(DateTime(a, Midnight)) == EpochDay(a) * MillisPerDay;
    assert LocalMillis(DateTime(b, Midnight)) == EpochDay(b) * MillisPerDay;
  }

  /** One day after the start of a local date is the start of the next date. */
  lemma NextLocalDay(d: Date, zone: Zone)
    requires ValidDate(d)
    ensures AsDateOfLocalDate(d, zone) + MillisPerDay == AsDateOfLocalDate(PlusDays(d, 1), zone)
    ensures AsLocalDate(AsDateOfLocalDate(d, zone) + MillisPerDay, zone) == PlusDays(d, 1)
  {
    var e := PlusDays(d, 1);
    AsDateOfLocalDateOrder(d, e, zone);
    assert AsDateOfLocalDate(d, zone) + MillisPerDay == AsDateOfLocalDate(e, zone);
  }

  /** An instant whose local date lies in the days [a, b) lies between the
      start of day a and the start of day b. */
  lemma LocalDaysBracket(date: Instant, zone: Zone, a: Date, b: Date)
    requires ValidDate(a) && ValidDate(b)
    requires EpochDay(a) <= EpochDay(AsLocalDate(date, zone)) < EpochDay(b)
    ensures AsDateOfLocalDate(a, zone) <= date < AsDateOfLocalDate(b, zone)
  {
    var d := AsLocalDate(date, zone);
    InstantDecomposition(date, zone);
    MillisOfDayRange(AsLocalTime(date, zone));
    AsDateOfLocalDateOrder(a, d, zone);
    AsDateOfLocalDateOrder(d, b, zone);
  }

  // ---------------------------------------------------------------------
  // Start of day

  /** The instant at which the local day of `date` begins in `zone`. */
  function GetDateWithoutTime(date: Instant, zone: Zone): (r: Instant)
    ensures AsLocalDate(r, zone) == AsLocalDate(date, zone)
    ensures AsLocalTime(r, zone) == Midnight
    ensures r <= date < r + MillisPerDay
  {
    InstantDecomposition(date, zone);
    MillisOfDayRange(AsLocalTime(date, zone));
    AsDateOfLocalDate(AsLocalDate(date, zone), zone)
  }

  /** Removing the time twice is the same as removing it once. */
  lemma GetDateWithoutTimeIdempotent(date: Instant, zone: Zone)
    ensures GetDateWithoutTime(GetDateWithoutTime(date, zone), zone) == GetDateWithoutTime(date, zone)
  {
  }

  /** The start of the day is the only instant of that local day at midnight. */
  lemma GetDateWithoutTimeUnique(date: Instant, other: Instant, zone: Zone)
    requires AsLocalDate(other, zone) == AsLocalDate(date, zone)
    requires AsLocalTime(other, zone) == Midnight
    ensures other == GetDateWithoutTime(date, zone)
  {
    InstantDecomposition(other, zone);
  }

  // ---------------------------------------------------------------------
  // Week boundaries

  /** The day-of-week field of a locale's week rules (WeekFields.dayOfWeek()):
      day number `n` falls `n - 1` days after the locale's first day of the
      week, so 1 is that day and 7 the day before it. */
  function LocalizedDayOfWeek(d: Date, firstWeekday: DayOfWeek): (n: int)
    requires ValidDate(d)
    ensures 1 <= n <= 7
    ensures n == 1 <==> IsoDayOfWeek(d) == firstWeekday
    ensures IsoDayOfWeek(d) == (firstWeekday + n - 2) % 7 + 1
  {
    var w := IsoDayOfWeek(d);
    WeekdayDistance(w, firstWeekday);
    (w - firstWeekday) % 7 + 1
  }

  /** Two weekdays are at most six days apart, zero days exactly when equal,
      and `w` lies that many days after `v`. */
  lemma WeekdayDistance(w: DayOfWeek, v: DayOfWeek)
    ensures 0 <= (w - v) % 7 <= 6
    ensures (w - v) % 7 == 0 <==> w == v
    ensures w == (v + (w - v) % 7 - 1) % 7 + 1
  {
  }

  /** The first day of the week holding `d`: setting the localized
      day-of-week to 1 moves back `LocalizedDayOfWeek(d) - 1` days. */
  function FirstDayOfWeek(d: Date, firstWeekday: DayOfWeek): (r: Date)
    requires ValidDate(d)
    ensures ValidDate(r)
    ensures IsoDayOfWeek(r) == firstWeekday
    ensures 0 <= EpochDay(d) - EpochDay(r) <= 6
  {
    var k := LocalizedDayOfWeek(d, firstWeekday);
    var r := PlusDays(d, 1 - k);
    StepBackToWeekday(EpochDay(r), EpochDay(d), IsoDayOfWeek(d), k, firstWeekday);
    r
  }

  /** Arithmetic behind `FirstDayOfWeek`: stepping back from epoch day `n`
      by its localized day-of-week less one lands on `firstWeekday`. */
  lemma StepBackToWeekday(m: int, n: int, w: DayOfWeek, k: int, firstWeekday: DayOfWeek)
    requires w == WeekdayOfEpochDay(n) && k == (w - firstWeekday) % 7 + 1 && m == n + 1 - k
    ensures WeekdayOfEpochDay(m) == firstWeekday
  {
    var x := n + 3;
    var q := x / 7;
    assert x == 7 * q + x % 7;
    if x % 7 + 1 >= firstWeekday {
      assert k == x % 7 + 2 - firstWeekday;
      assert x + 1 - k == 7 * q + firstWeekday - 1;
    } else {
      assert k == x % 7 + 9 - firstWeekday;
      assert x + 1 - k == 7 * (q - 1) + firstWeekday - 1;
    }
  }

  /** Six days after weekday `w` comes the weekday before `w`. */
  lemma SixDaysLater(m: int, n: int, w: DayOfWeek)
    requires m == n + 6 && WeekdayOfEpochDay(n) == w
    ensures WeekdayOfEpochDay(m) == (w + 5) % 7 + 1
  {
    var x := n + 3;
    var q := x / 7;
    assert x == 7 * q + x % 7;
    if x % 7 == 0 {
      assert x + 6 == 7 * q + 6;
    } else {
      assert x + 6 == 7 * (q + 1) + (x % 7 - 1);
    }
  }

  /** Two days less than a week apart fall on different weekdays. */
  lemma SameWeekdayWithinSixDays(m: int, n: int)
    requires WeekdayOfEpochDay(m) == WeekdayOfEpochDay(n)
    requires -6 <= m - n <= 6
    ensures m == n
  {
    var x, y := m + 3, n + 3;
    assert x == 7 * (x / 7) + x % 7;
    assert y == 7 * (y / 7) + y % 7;
    assert x - y == 7 * (x / 7 - y / 7);
  }

  /** The first day of the week is the only date up to six days before `d`
      that falls on the locale's first weekday. */
  lemma FirstDayOfWeekUnique(d: Date, firstWeekday: DayOfWeek, e: Date)
    requires ValidDate(d) && ValidDate(e)
    requires IsoDayOfWeek(e) == firstWeekday
    requires 0 <= EpochDay(d) - EpochDay(e) <= 6
    ensures e == FirstDayOfWeek(d, firstWeekday)
  {
    var r := FirstDayOfWeek(d, firstWeekday);
    SameWeekdayWithinSixDays(EpochDay(e), EpochDay(r));
    EpochDayInjective(e, r);
  }

  /** The last day of the week holding `d`: six days after its first day. */
  function LastDayOfWeek(d: Date, firstWeekday: DayOfWeek): (r: Date)
    requires ValidDate(d)
    ensures ValidDate(r)
    ensures IsoDayOfWeek(r) == (firstWeekday + 5) % 7 + 1
    ensures 0 <= EpochDay(r) - EpochDay(d) <= 6
  {
    var first := FirstDayOfWeek(d, firstWeekday);
    var r := PlusDays(first, 6);
    SixDaysLater(EpochDay(r), EpochDay(first), firstWeekday);
    r
  }

  /** getFirstDateOfWeek: the start of the first day of the local week that
      holds `date`, for a locale whose weeks begin on `firstWeekday`. */
  function GetFirstDateOfWeek(date: Instant, zone: Zone, firstWeekday: DayOfWeek): (r: Instant)
    ensures IsoDayOfWeek(AsLocalDate(r, zone)) == firstWeekday
    ensures AsLocalTime(r, zone) == Midnight
    ensures 0 <= EpochDay(AsLocalDate(date, zone)) - EpochDay(AsLocalDate(r, zone)) <= 6
    ensures r <= date
  {
    var d := AsLocalDate(date, zone);
    var first := FirstDayOfWeek(d, firstWeekday);
    AsDateOfLocalDateOrder(first, d, zone);
    InstantDecomposition(date, zone);
    AsDateOfLocalDate(first, zone)
  }

  /** getLastDateOfWeek: the start of the last day of the local week that
      holds `date`. */
  function GetLastDateOfWeek(date: Instant, zone: Zone, firstWeekday: DayOfWeek): (r: Instant)
    ensures IsoDayOfWeek(AsLocalDate(r, zone)) == (firstWeekday + 5) % 7 + 1
    ensures AsLocalTime(r, zone) == Midnight
    ensures 0 <= EpochDay(AsLocalDate(r, zone)) - EpochDay(AsLocalDate(date, zone)) <= 6
    ensures GetDateWithoutTime(date, zone) <= r
  {
    var d := AsLocalDate(date, zone);
    var last := LastDayOfWeek(d, firstWeekday);
    AsDateOfLocalDateOrder(d, last, zone);
    AsDateOfLocalDate(last, zone)
  }

  /** The week runs from its first date to six days later, and the two
      boundaries agree on which week they bound. */
  lemma GetLastDateOfWeekIsFirstPlusSixDays(date: Instant, zone: Zone, firstWeekday: DayOfWeek)
    ensures GetLastDateOfWeek(date, zone, firstWeekday) == GetFirstDateOfWeek(date, zone, firstWeekday) + 6 * MillisPerDay
  {
    var d := AsLocalDate(date, zone);
    var first := FirstDayOfWeek(d, firstWeekday);
    AsDateOfLocalDateOrder(first, PlusDays(first, 6), zone);
  }

  // Worked examples. Each boundary example comes in two lemmas, one for a
  // Sunday-first locale (US) and one for a Monday-first locale (UK, ru).

  /** Monday 2016-01-04: its Sunday-first week began the day before. */
  lemma FirstDayOfWeekExample20160104Sunday()
    ensures FirstDayOfWeek(Date(2016, 1, 4), Sunday) == Date(2016, 1, 3)
  {
    NewYearEpochDays();
    assert EpochDay(Date(2016, 1, 4)) == 16804;
    assert EpochDay(Date(2016, 1, 3)) == 16803;
    FirstDayOfWeekUnique(Date(2016, 1, 4), Sunday, Date(2016, 1, 3));
  }

  /** Monday 2016-01-04 begins its own Monday-first week. */
  lemma FirstDayOfWeekExample20160104Monday()
    ensures FirstDayOfWeek(Date(2016, 1, 4), Monday) == Date(2016, 1, 4)
  {
    NewYearEpochDays();
    assert EpochDay(Date(2016, 1, 4)) == 16804;
    FirstDayOfWeekUnique(Date(2016, 1, 4), Monday, Date(2016, 1, 4));
  }

  /** The Sunday-first week of Friday 2016-01-15 begins on 2016-01-10. */
  lemma FirstDayOfWeekExample20160115Sunday()
    ensures FirstDayOfWeek(Date(2016, 1, 15), Sunday) == Date(2016, 1, 10)
  {
    NewYearEpochDays();
    assert EpochDay(Date(2016, 1, 15)) == 16815;
    assert EpochDay(Date(2016, 1, 10)) == 16810;
    FirstDayOfWeekUnique(Date(2016, 1, 15), Sunday, Date(2016, 1, 10));
  }

  /** The Monday-first week of Friday 2016-01-15 begins on 2016-01-11. */
  lemma FirstDayOfWeekExample20160115Monday()
    ensures FirstDayOfWeek(Date(2016, 1, 15), Monday) == Date(2016, 1, 11)
  {
    NewYearEpochDays();
    assert EpochDay(Date(2016, 1, 15)) == 16815;
    assert EpochDay(Date(2016, 1, 11)) == 16811;
    FirstDayOfWeekUnique(Date(2016, 1, 15), Monday, Date(2016, 1, 11));
  }

  /** Sunday 2020-02-09 begins its own Sunday-first week. */
  lemma FirstDayOfWeekExample20200209Sunday()
    ensures FirstDayOfWeek(Date(2020, 2, 9), Sunday) == Date(2020, 2, 9)
  {
    NewYearEpochDays();
    assert EpochDay(Date(2020, 2, 9)) == 18301;
    FirstDayOfWeekUnique(Date(2020, 2, 9), Sunday, Date(2020, 2, 9));
  }

  /** The Monday-first week of Sunday 2020-02-09 began on 2020-02-03. */
  lemma FirstDayOfWeekExample20200209Monday()
    ensures FirstDayOfWeek(Date(2020, 2, 9), Monday) == Date(2020, 2, 3)
  {
    NewYearEpochDays();
    assert EpochDay(Date(2020, 2, 9)) == 18301;
    assert EpochDay(Date(2020, 2, 3)) == 18295;
    FirstDayOfWeekUnique(Date(2020, 2, 9), Monday, Date(2020, 2, 3));
  }

  /** The Sunday-first week holding Sunday 2016-01-10 ends on Saturday 2016-01-16. */
  lemma LastDayOfWeekExample20160110Sunday()
    ensures LastDayOfWeek(Date(2016, 1, 10), Sunday) == Date(2016, 1, 16)
  {
    NewYearEpochDays();
    assert EpochDay(Date(2016, 1, 10)) == 16810;
    assert EpochDay(Date(2016, 1, 16)) == 16816;
    LastDayOfWeekUnique(Date(2016, 1, 10), Sunday, Date(2016, 1, 16));
  }

  /** The Monday-first week holding Sunday 2016-01-10 ends on that day. */
  lemma LastDayOfWeekExample20160110Monday()
    ensures LastDayOfWeek(Date(2016, 1, 10), Monday) == Date(2016, 1, 10)
  {
    NewYearEpochDays();
    assert EpochDay(Date(2016, 1, 10)) == 16810;
    LastDayOfWeekUnique(Date(2016, 1, 10), Monday, Date(2016, 1, 10));
  }

  /** The last day of the week is the only date up to six days after `d`
      that falls on the day before the locale's first weekday. */
  lemma LastDayOfWeekUnique(d: Date, firstWeekday: DayOfWeek, e: Date)
    requires ValidDate(d) && ValidDate(e)
    requires IsoDayOfWeek(e) == (firstWeekday + 5) % 7 + 1
    requires 0 <= EpochDay(e) - EpochDay(d) <= 6
    ensures e == LastDayOfWeek(d, firstWeekday)
  {
    var r := LastDayOfWeek(d, firstWeekday);
    SameWeekdayWithinSixDays(EpochDay(e), EpochDay(r));
    EpochDayInjective(e, r);
  }

  // ---------------------------------------------------------------------
  // Month boundaries

  /** TemporalAdjusters.firstDayOfMonth: day 1 of the month holding `d`. */
  function FirstDayOfMonth(d: Date): (r: Date)
    requires ValidDate(d)
    ensures ValidDate(r) && r.year == d.year && r.month == d.month && r.day == 1
  {
    Date(d.year, d.month, 1)
  }

  /** TemporalAdjusters.lastDayOfMonth: the last day of the month holding `d`,
      day 28, 29, 30 or 31 as the month and the leap-year rule decide. */
  function LastDayOfMonth(d: Date): (r: Date)
    requires ValidDate(d)
    ensures ValidDate(r) && r.year == d.year && r.month == d.month
    ensures r.day == DaysInMonth(d.year, d.month)
  {
    Date(d.year, d.month, DaysInMonth(d.year, d.month))
  }

  /** The first of the month after the one holding `d`. */
  function FirstOfNextMonth(d: Date): (r: Date)
    requires ValidDate(d)
    ensures ValidDate(r) && r.day == 1
  {
    if d.month == 12 then Date(d.year + 1, 1, 1) else Date(d.year, d.month + 1, 1)
  }

  /** The month holding `d` runs from its first day to its last day. */
  lemma DayWithinMonth(d: Date)
    requires ValidDate(d)
    ensures EpochDay(d) - EpochDay(FirstDayOfMonth(d)) == d.day - 1
    ensures 0 <= EpochDay(LastDayOfMonth(d)) - EpochDay(d) < 31
  {
  }

  /** The last day of a month is followed directly by the first of the next:
      `DaysInMonth` is the true length of the month on the day count. */
  lemma LastDayOfMonthPrecedesNextMonth(d: Date)
    requires ValidDate(d)
    ensures PlusDays(LastDayOfMonth(d), 1) == FirstOfNextMonth(d)
  {
    var last := LastDayOfMonth(d);
    var next := FirstOfNextMonth(d);
    MonthStep(d.year, d.month);
    if d.month == 12 {
      YearStep(d.year);
    }
    assert EpochDay(last) + 1 == EpochDay(next);
    EpochDayInjective(PlusDays(last, 1), next);
  }

  /** getFirstDateOfMonth: the start of day 1 of the local month holding `date`. */
  function GetFirstDateOfMonth(date: Instant, zone: Zone): (r: Instant)
    ensures AsLocalDate(r, zone) == FirstDayOfMonth(AsLocalDate(date, zone))
    ensures AsLocalTime(r, zone) == Midnight
    ensures r <= date
  {
    var d := AsLocalDate(date, zone);
    var first := FirstDayOfMonth(d);
    DayWithinMonth(d);
    AsDateOfLocalDateOrder(first, d, zone);
    InstantDecomposition(date, zone);
    AsDateOfLocalDate(first, zone)
  }

  /** getLastDateOfMonth: the start of the last day of the local month
      holding `date`. */
  function GetLastDateOfMonth(date: Instant, zone: Zone): (r: Instant)
    ensures AsLocalDate(r, zone) == LastDayOfMonth(AsLocalDate(date, zone))
    ensures AsLocalTime(r, zone) == Midnight
    ensures date < r + MillisPerDay
  {
    var d := AsLocalDate(date, zone);
    var last := LastDayOfMonth(d);
    DayWithinMonth(d);
    AsDateOfLocalDateOrder(d, last, zone);
    InstantDecomposition(date, zone);
    MillisOfDayRange(AsLocalTime(date, zone));
    AsDateOfLocalDate(last, zone)
  }

  /** One day after the last date of the month, the local date is the first
      of the following month. */
  lemma GetLastDateOfMonthNextDay(date: Instant, zone: Zone)
    ensures AsLocalDate(GetLastDateOfMonth(date, zone) + MillisPerDay, zone)
            == FirstOfNextMonth(AsLocalDate(date, zone))
  {
    var d := AsLocalDate(date, zone);
    var last := LastDayOfMonth(d);
    LastDayOfMonthPrecedesNextMonth(d);
    NextLocalDay(last, zone);
  }

  /** The month lengths the library's tests list for 2015 and for the leap
      year 2016, and the documented examples 2011-02 (28 days), 2012-02
      (29 days), 2011-01 (31 days) and 2011-04 (30 days). */
  lemma MonthLengthExamples()
    ensures forall m :: 1 <= m <= 12 ==>
      DaysInMonth(2015, m) == [31, 28, 31, 30, 31, 30, 31, 31, 30, 31, 30, 31][m - 1]
    ensures forall m :: 1 <= m <= 12 ==>
      DaysInMonth(2016, m) == [31, 29, 31, 30, 31, 30, 31, 31, 30, 31, 30, 31][m - 1]
    ensures DaysInMonth(2011, 2) == 28 && DaysInMonth(2012, 2) == 29
    ensures DaysInMonth(2011, 1) == 31 && DaysInMonth(2011, 4) == 30
  {
  }

  // ---------------------------------------------------------------------
  // Calendar fields

  /** getDayOfMonth: the day of the local month; the local day begins that
      many days minus one after the first of the month. */
  function GetDayOfMonth(date: Instant, zone: Zone): (r: int)
    ensures 1 <= r <= DaysInMonth(AsLocalDate(date, zone).year, AsLocalDate(date, zone).month)
    ensures GetDateWithoutTime(date, zone) == GetFirstDateOfMonth(date, zone) + (r - 1) * MillisPerDay
  {
    var d := AsLocalDate(date, zone);
    DayWithinMonth(d);
    AsDateOfLocalDateOrder(FirstDayOfMonth(d), d, zone);
    d.day
  }

  /** getYear: the local year; `date` falls between the starts of its
      January 1 and of the next one. */
  function GetYear(date: Instant, zone: Zone): (r: int)
    ensures AsDateOfLocalDate(Date(r, 1, 1), zone) <= date < AsDateOfLocalDate(Date(r + 1, 1, 1), zone)
  {
    var d := AsLocalDate(date, zone);
    WithinYearBounds(d);
    LocalDaysBracket(date, zone, Date(d.year, 1, 1), Date(d.year + 1, 1, 1));
    d.year
  }

  /** getDayOfWeek: the ISO weekday of the local date, 1 = Monday to
      7 = Sunday, whatever the locale; it counts the days since Monday
      2016-01-04 modulo 7. */
  function GetDayOfWeek(date: Instant, zone: Zone): (r: DayOfWeek)
    ensures r == IsoDayOfWeek(AsLocalDate(date, zone))
    ensures r - 1 == (EpochDay(AsLocalDate(date, zone)) - EpochDay(Date(2016, 1, 4))) % 7
  {
    var d := AsLocalDate(date, zone);
    AnchorMonday();
    WeekdayFromMonday(EpochDay(d), 16804);
    IsoDayOfWeek(d)
  }

  /** One day later the ISO weekday moves on by one, Sunday wrapping to Monday. */
  lemma GetDayOfWeekNextDay(date: Instant, zone: Zone)
    ensures GetDayOfWeek(date + MillisPerDay, zone) == GetDayOfWeek(date, zone) % 7 + 1
  {
    var d := AsLocalDate(date, zone);
    var e := AsLocalDate(date + MillisPerDay, zone);
    assert EpochDay(e) == EpochDay(d) + 1;
    IsoDayOfWeekNextDay(d);
    EpochDayInjective(e, PlusDays(d, 1));
  }

  // ---------------------------------------------------------------------
  // Range checks

  datatype Error = IllegalArgument(message: string)

  datatype Result<T> = Success(value: T) | Failure(error: Error)

  const StartAfterEnd: Error := IllegalArgument("The start date must be earlier or equals to the end date")

  /** isWithinRange: whether `input` lies in [startDate, endDate], both ends
      included. Reversed bounds are an invalid argument whatever `input` is. */
  function IsWithinRange(input: Instant, startDate: Instant, endDate: Instant): (r: Result<bool>)
    ensures r.Failure? <==> startDate > endDate
    ensures r.Failure? ==> r.error == StartAfterEnd
    ensures r.Success? ==> (r.value <==> startDate <= input <= endDate)
  {
    if startDate > endDate then Failure(StartAfterEnd)
    else Success(!(input < startDate || input > endDate))
  }

  /** isNotWithinRange: whether `input` lies outside [startDate, endDate],
      with the same invalid-argument failure on reversed bounds. */
  function IsNotWithinRange(input: Instant, startDate: Instant, endDate: Instant): (r: Result<bool>)
    ensures r.Failure? <==> startDate > endDate
    ensures r.Failure? ==> r.error == StartAfterEnd
    ensures r.Success? ==> (r.value <==> input < startDate || endDate < input)
  {
    var within := IsWithinRange(input, startDate, endDate);
    if within.Failure? then Failure(within.error) else Success(!within.value)
  }

  /** The two range checks fail together, with the same error, and
      otherwise answer opposite ways. */
  lemma IsNotWithinRangeNegates(input: Instant, startDate: Instant, endDate: Instant)
    ensures IsNotWithinRange(input, startDate, endDate).Failure? == IsWithinRange(input, startDate, endDate).Failure?
    ensures IsWithinRange(input, startDate, endDate).Failure? ==>
      IsNotWithinRange(input, startDate, endDate) == IsWithinRange(input, startDate, endDate)
    ensures IsWithinRange(input, startDate, endDate).Success? ==>
      IsNotWithinRange(input, startDate, endDate).value == !IsWithinRange(input, startDate, endDate).value
  {
  }

  /** With reversed bounds the answer does not depend on `input`. */
  lemma ReversedBoundsIgnoreInput(a: Instant, b: Instant, startDate: Instant, endDate: Instant)
    requires startDate > endDate
    ensures IsWithinRange(a, startDate, endDate) == IsWithinRange(b, startDate, endDate)
    ensures IsNotWithinRange(a, startDate, endDate) == IsNotWithinRange(b, startDate, endDate)
  {
  }

  /** On the starts of local days the range check follows calendar order:
      a day is inside when it is neither before the first day nor after the
      last, and a last day before the first day is the invalid argument. */
  lemma IsWithinRangeOfDays(input: Date, startDate: Date, endDate: Date, zone: Zone)
    requires ValidDate(input) && ValidDate(startDate) && ValidDate(endDate)
    ensures IsWithinRange(AsDateOfLocalDate(input, zone), AsDateOfLocalDate(startDate, zone), AsDateOfLocalDate(endDate, zone))
      == if Before(endDate, startDate) then Failure(StartAfterEnd)
         else Success(!Before(input, startDate) && !Before(endDate, input))
  {
    EpochDayOrder(endDate, startDate);
    EpochDayOrder(input, startDate);
    EpochDayOrder(endDate, input);
    AsDateOfLocalDateOrder(endDate, startDate, zone);
    AsDateOfLocalDateOrder(input, startDate, zone);
    AsDateOfLocalDateOrder(endDate, input, zone);
  }
}
