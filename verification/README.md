# DateTimeUtils in Dafny

A model of `com.glebfox.utils.DateTimeUtils`, a static helper class that converts between
`java.util.Date` instants and the `java.time` local types. It covers:

- the conversions `asLocalTime`, `asLocalDate`, `asLocalDateTime` and `asDate`;
- `getDateWithoutTime`, which gives the start of the local day;
- the week boundaries `getFirstDateOfWeek` and `getLastDateOfWeek`;
- the month boundaries `getFirstDateOfMonth` and `getLastDateOfMonth`;
- the calendar fields `getDayOfMonth`, `getYear` and `getDayOfWeek`;
- the inclusive range checks `isWithinRange` and `isNotWithinRange`.

The project has three modules, one per file:

- `IsoCalendar` (`iso_calendar.dfy`) is the proleptic Gregorian calendar of `java.time.LocalDate`.
  - A `Date` is numbered by its epoch day: 1970-01-01 is day 0.
  - `EpochDay` and `FromEpochDay` are proved to be mutually inverse.
  - Adding days (`PlusDays`) and the ISO day-of-week (1 = Monday … 7 = Sunday) go through that count.
- `LocalClock` (`local_clock.dfy`) is `LocalTime` and `LocalDateTime` at the millisecond precision of
  `java.util.Date`. A reading becomes a wall-clock millisecond count, and that count splits back into a
  reading by floor division.
- `DateTimeUtils` (`date_time_utils.dfy`) is the class itself.
  - An `Instant` is a count of milliseconds since 1970-01-01T00:00Z, as `Date.getTime()` returns it.
    `getTime()` returns a 64-bit `long`; the model uses an unbounded `int`, so the `long` range is not modelled
    (see "## Left out").
  - A `Zone` is a fixed UTC offset in seconds, bounded to ±18 hours as `ZoneOffset` is.
  - The zone and the locale's first day of the week are passed in explicitly. The Java class reads them
    from the process defaults.

The rejection in `isWithinRange` is modelled as a value, not an exception. Both range checks return
`Result<bool>`. When the start is after the end they return `Failure(IllegalArgument(...))`, carrying the
library's message.

## Model

Source paths are relative to the repository root.

| member | source | states |
|---|---|---|
| IsoCalendar.DaysInMonth | src/main/java/com/glebfox/utils/DateTimeUtils.java:316-329 | a month has 28 to 31 days, and 29 exactly for February of a Gregorian leap year |
| IsoCalendar.DaysBeforeYearFormula | src/main/java/com/glebfox/utils/DateTimeUtils.java:93-96 | the year-by-year day count from 1970 equals 365 days a year plus the Gregorian leap days in between |
| IsoCalendar.EpochDayOrder | src/main/java/com/glebfox/utils/DateTimeUtils.java:93-96 | one valid date is chronologically before another (by year, then month, then day) exactly when its epoch day is smaller |
| IsoCalendar.EpochDayInjective | src/main/java/com/glebfox/utils/DateTimeUtils.java:93-96 | distinct valid dates have distinct epoch days |
| IsoCalendar.FromEpochDay | src/main/java/com/glebfox/utils/DateTimeUtils.java:93-96 | every integer numbers a valid date, and the result has that epoch day |
| IsoCalendar.FromEpochDayOfEpochDay | src/main/java/com/glebfox/utils/DateTimeUtils.java:93-96 | going from a valid date to its epoch day and back returns the date |
| IsoCalendar.PlusDays | src/main/java/com/glebfox/utils/DateTimeUtils.java:297-299 | `plusDays(k)` gives a valid date whose epoch day is `k` more |
| IsoCalendar.IsoDayOfWeekNextDay | src/main/java/com/glebfox/utils/DateTimeUtils.java:395-397 | the day after a date has the next ISO weekday, Sunday (7) wrapping to Monday (1) |
| IsoCalendar.WeekdayFromMonday | src/main/java/com/glebfox/utils/DateTimeUtils.java:395-397 | counted from any Monday, a day's ISO weekday minus one is its distance from that Monday modulo 7 |
| IsoCalendar.IsoDayOfWeekExamples | src/test/java/com/glebfox/utils/DateTimeUtilsTest.java:283-287 | 1970-01-01 was a Thursday, and 2016-01-04 to 2016-01-10 run Monday (1) to Sunday (7) |
| LocalClock.TimeOfMillis | src/main/java/com/glebfox/utils/DateTimeUtils.java:63-66 | each millisecond of the day 0 ≤ ms < 86 400 000 gives a valid time of day that lies exactly ms after midnight |
| LocalClock.DateTimeOfLocalMillis | src/main/java/com/glebfox/utils/DateTimeUtils.java:121-123 | every wall-clock millisecond count, negative ones included, is the count of exactly the valid reading returned |
| LocalClock.DateTimeOfLocalMillisInverse | src/main/java/com/glebfox/utils/DateTimeUtils.java:217-219 | splitting the millisecond count of a valid reading gives the reading back |
| DateTimeUtils.AsLocalDateTime | src/main/java/com/glebfox/utils/DateTimeUtils.java:121-123 | the local reading is valid, and its wall-clock count is the instant plus the zone offset |
| DateTimeUtils.AsLocalDate | src/main/java/com/glebfox/utils/DateTimeUtils.java:93-96 | the local date is the one whose 24 wall-clock hours (instant plus offset) contain the instant |
| DateTimeUtils.AsLocalTime | src/main/java/com/glebfox/utils/DateTimeUtils.java:63-66 | the local time of day is valid and lies as far into the local day as the instant does |
| DateTimeUtils.AsDate | src/main/java/com/glebfox/utils/DateTimeUtils.java:217-219 | the instant returned for a valid local date-time reads back as that date-time in the zone |
| DateTimeUtils.AsDateOfLocalTime | src/main/java/com/glebfox/utils/DateTimeUtils.java:175-177 | the instant reads back as the given local date and the given local time |
| DateTimeUtils.AsDateOfLocalDate | src/main/java/com/glebfox/utils/DateTimeUtils.java:196-198 | the instant reads back as the given local date at midnight |
| DateTimeUtils.AsDateIffAsLocalDateTime | src/main/java/com/glebfox/utils/DateTimeUtils.java:217-219 | an instant has a given local reading if and only if it is what `asDate` returns for that reading: a fixed offset has no gaps or overlaps |
| DateTimeUtils.AsDateOfAsLocalDateTime | src/main/java/com/glebfox/utils/DateTimeUtils.java:121-123 | turning an instant into its local reading and back with `asDate` returns the instant |
| DateTimeUtils.InstantDecomposition | src/main/java/com/glebfox/utils/DateTimeUtils.java:227-229 | an instant is the start of its local day plus its local time of day |
| DateTimeUtils.AsDateOfLocalDateOrder | src/main/java/com/glebfox/utils/DateTimeUtils.java:196-198 | later local dates start at later instants, exactly one day's milliseconds apart per day |
| DateTimeUtils.NextLocalDay | src/main/java/com/glebfox/utils/DateTimeUtils.java:196-198 | one day after the start of a local date is the start of the next date |
| DateTimeUtils.LocalDaysBracket | src/main/java/com/glebfox/utils/DateTimeUtils.java:383-385 | an instant whose local date lies in the days [a, b) lies between the starts of days a and b |
| DateTimeUtils.GetDateWithoutTime | src/main/java/com/glebfox/utils/DateTimeUtils.java:227-229 | the result has the same local date at midnight and lies at most one day before the input |
| DateTimeUtils.GetDateWithoutTimeIdempotent | src/main/java/com/glebfox/utils/DateTimeUtils.java:227-229 | removing the time twice is the same as removing it once |
| DateTimeUtils.GetDateWithoutTimeUnique | src/main/java/com/glebfox/utils/DateTimeUtils.java:227-229 | the start of the local day is the only instant of that day whose local time is midnight |
| DateTimeUtils.LocalizedDayOfWeek | src/main/java/com/glebfox/utils/DateTimeUtils.java:275-278 | the locale's day-of-week field lies in 1..7; day number n falls n − 1 days after the locale's first weekday, so it is 1 exactly on that weekday |
| DateTimeUtils.FirstDayOfWeek | src/main/java/com/glebfox/utils/DateTimeUtils.java:275-278 | `with(dayOfWeek, 1)` gives a date on the locale's first weekday, zero to six days back |
| DateTimeUtils.FirstDayOfWeekUnique | src/main/java/com/glebfox/utils/DateTimeUtils.java:275-278 | any date on the first weekday up to six days back is that same week start |
| DateTimeUtils.LastDayOfWeek | src/main/java/com/glebfox/utils/DateTimeUtils.java:297-299 | six days after the week start, on the weekday before the first weekday, zero to six days ahead |
| DateTimeUtils.LastDayOfWeekUnique | src/main/java/com/glebfox/utils/DateTimeUtils.java:297-299 | any date on the weekday before the first weekday up to six days ahead is that same week end |
| DateTimeUtils.GetFirstDateOfWeek | src/main/java/com/glebfox/utils/DateTimeUtils.java:271-273 | the result is a local midnight on the locale's first weekday, zero to six local days back, and not after the input |
| DateTimeUtils.GetLastDateOfWeek | src/main/java/com/glebfox/utils/DateTimeUtils.java:297-299 | the result is a local midnight on the weekday before the first weekday, zero to six local days ahead, and not before the start of the input's day |
| DateTimeUtils.GetLastDateOfWeekIsFirstPlusSixDays | src/main/java/com/glebfox/utils/DateTimeUtils.java:297-299 | the week's last date is its first date plus six days of milliseconds |
| DateTimeUtils.FirstDayOfWeekExample20160104Sunday | src/test/java/com/glebfox/utils/DateTimeUtilsTest.java:183-187 | in a Sunday-first locale (US) the week of Monday 2016-01-04 begins on 2016-01-03 |
| DateTimeUtils.FirstDayOfWeekExample20160104Monday | src/test/java/com/glebfox/utils/DateTimeUtilsTest.java:183-187 | in a Monday-first locale (UK, ru) Monday 2016-01-04 begins its own week |
| DateTimeUtils.FirstDayOfWeekExample20160115Sunday | src/test/java/com/glebfox/utils/DateTimeUtilsTest.java:189-192 | in a Sunday-first locale the week of Friday 2016-01-15 begins on 2016-01-10 |
| DateTimeUtils.FirstDayOfWeekExample20160115Monday | src/test/java/com/glebfox/utils/DateTimeUtilsTest.java:189-192 | in a Monday-first locale the week of Friday 2016-01-15 begins on 2016-01-11 |
| DateTimeUtils.FirstDayOfWeekExample20200209Sunday | src/main/java/com/glebfox/utils/DateTimeUtils.java:275-278 | an illustrative case of the method, not taken from the tests: in a Sunday-first locale Sunday 2020-02-09 begins its own week |
| DateTimeUtils.FirstDayOfWeekExample20200209Monday | src/main/java/com/glebfox/utils/DateTimeUtils.java:275-278 | an illustrative case of the method, not taken from the tests: in a Monday-first locale the week of Sunday 2020-02-09 began on 2020-02-03 |
| DateTimeUtils.LastDayOfWeekExample20160110Sunday | src/test/java/com/glebfox/utils/DateTimeUtilsTest.java:202-206 | in a Sunday-first locale the week of Sunday 2016-01-10 ends on Saturday 2016-01-16 |
| DateTimeUtils.LastDayOfWeekExample20160110Monday | src/test/java/com/glebfox/utils/DateTimeUtilsTest.java:202-206 | in a Monday-first locale Sunday 2016-01-10 ends its own week |
| DateTimeUtils.FirstDayOfMonth | src/main/java/com/glebfox/utils/DateTimeUtils.java:311-313 | `firstDayOfMonth()` gives day 1 of the same year and month |
| DateTimeUtils.LastDayOfMonth | src/main/java/com/glebfox/utils/DateTimeUtils.java:327-329 | `lastDayOfMonth()` gives the same year and month with the day set to the month's length |
| DateTimeUtils.DayWithinMonth | src/main/java/com/glebfox/utils/DateTimeUtils.java:311-313 | a date lies day − 1 days after the first of its month, and fewer than 31 days before the month's last day |
| DateTimeUtils.LastDayOfMonthPrecedesNextMonth | src/main/java/com/glebfox/utils/DateTimeUtils.java:327-329 | the day after the last day of a month is the first of the next month, December rolling into January |
| DateTimeUtils.GetFirstDateOfMonth | src/main/java/com/glebfox/utils/DateTimeUtils.java:311-313 | the result is the local midnight of day 1 of the input's local month, and not after the input |
| DateTimeUtils.GetLastDateOfMonth | src/main/java/com/glebfox/utils/DateTimeUtils.java:327-329 | the result is the local midnight of the last day of the input's local month, and the input is before that day ends |
| DateTimeUtils.GetLastDateOfMonthNextDay | src/main/java/com/glebfox/utils/DateTimeUtils.java:327-329 | one day after the last date of the month, the local date is the first of the following month |
| DateTimeUtils.MonthLengthExamples | src/main/java/com/glebfox/utils/DateTimeUtils.java:316-329 | the documented lengths: 2011-01 has 31 days, 2011-02 has 28, 2012-02 has 29 and 2011-04 has 30; also every month of 2015 and of leap year 2016, as the tests list them |
| DateTimeUtils.GetDayOfMonth | src/main/java/com/glebfox/utils/DateTimeUtils.java:371-373 | the day lies in 1..length of the local month, and the start of the local day is that many days minus one after the first date of the month |
| DateTimeUtils.GetYear | src/main/java/com/glebfox/utils/DateTimeUtils.java:383-385 | the input lies between the start of January 1 of the result and the start of the next January 1 |
| DateTimeUtils.GetDayOfWeek | src/main/java/com/glebfox/utils/DateTimeUtils.java:395-397 | the weekday (1 = Monday) minus one is the number of local days since Monday 2016-01-04, modulo 7 |
| DateTimeUtils.GetDayOfWeekNextDay | src/main/java/com/glebfox/utils/DateTimeUtils.java:395-397 | one day later the weekday advances by one, Sunday wrapping to Monday |
| DateTimeUtils.IsWithinRange | src/main/java/com/glebfox/utils/DateTimeUtils.java:409-414 | fails with the library's message exactly when start > end; otherwise true if and only if start ≤ input ≤ end |
| DateTimeUtils.IsNotWithinRange | src/main/java/com/glebfox/utils/DateTimeUtils.java:426-428 | fails exactly when start > end, with the same message; otherwise true if and only if input < start or input > end |
| DateTimeUtils.IsNotWithinRangeNegates | src/main/java/com/glebfox/utils/DateTimeUtils.java:426-428 | the two checks fail together with the same error, and otherwise give opposite answers |
| DateTimeUtils.ReversedBoundsIgnoreInput | src/main/java/com/glebfox/utils/DateTimeUtils.java:410-411 | with reversed bounds both checks give the same result whatever the input |
| DateTimeUtils.IsWithinRangeOfDays | src/test/java/com/glebfox/utils/DateTimeUtilsTest.java:291-305 | on the starts of local days, the range check fails when the last day precedes the first; otherwise it holds exactly when the day is neither before the first day nor after the last |

## Left out

- The `java.sql.Time` and `java.sql.Date` fast paths (DateTimeUtils.java:64 and 94) are not modelled: an instant has no run-time subclass here.
  - Those paths ignore the zone and read the fields the JDBC value carries.
  - Every boundary and field operation goes through `asLocalDate`, so each inherits this omission.
- DateTimeUtils.AsLocalDate: the `java.sql.Date` branch of line 94 is not modelled. The contract covers only the `toInstant().atZone(zone)` branch of line 95.
- DateTimeUtils.AsLocalTime: the `java.sql.Time` branch of line 64 is not modelled. The contract covers only the `toInstant().atZone(zone)` branch of line 65.
- DateTimeUtils.AsDate: `Date.from` throws IllegalArgumentException when the instant's millisecond count does not fit a Java `long` (about years ±292 278 994). The model uses unbounded integers and returns an instant for every valid reading.
- DateTimeUtils.AsDateOfLocalTime: the same `Date.from` overflow (line 176) is not modelled.
- DateTimeUtils.AsDateOfLocalDate: the same `Date.from` overflow (line 197) is not modelled.
- DateTimeUtils.GetLastDateOfWeek: the same `Date.from` overflow (line 298) is not modelled, nor the DateTimeException `plusDays` raises beyond `LocalDate`'s range.
- DateTimeUtils.GetLastDateOfMonth: the same `Date.from` overflow (line 328) is not modelled.
- DateTimeUtils.GetDateWithoutTime: the same `Date.from` overflow (line 197, reached through line 228) is not modelled. The start of the local day is earlier than the input, so an input near `Long.MIN_VALUE` milliseconds throws in Java.
- DateTimeUtils.GetFirstDateOfWeek: the same `Date.from` overflow (line 272) is not modelled. The week start can be up to six days before the input, so an input near `Long.MIN_VALUE` milliseconds throws in Java.
- DateTimeUtils.GetFirstDateOfMonth: the same `Date.from` overflow (line 312) is not modelled. Day 1 of the month can be up to 30 days before the input; for example `new Date(Long.MIN_VALUE)` in UTC falls on −292275055-05-16, whose first of the month does not fit a `long`.
- IsoCalendar.PlusDays: `LocalDate` only holds years −999 999 999 to 999 999 999 and throws DateTimeException beyond them. `ValidDate` accepts every year, so the model has no such limit.
- Sub-millisecond precision is not modelled.
  - `LocalTime` and `LocalDateTime` carry nanoseconds.
  - `Date.from` (lines 176, 197 and 218) floors them to the millisecond.
  - `Time` here holds milliseconds only, so the model covers inputs that are already whole milliseconds.
- Time zones are fixed offsets only. A `ZoneId` with rules (daylight saving time, historical changes, gaps and overlaps) is not modelled, because the rules database lives outside the library.
- The overloads that read `ZoneId.systemDefault()` or `Locale.getDefault()` (lines 430-436) are not modelled separately. The model's functions take the zone and the first weekday as parameters.
  - The no-argument overloads are the same functions with the process defaults passed in.
  - `getDateWithoutTime` (line 228) is one of them: it uses the default zone on both conversions.
- `asDate(LocalTime, ZoneId)` reads the current date from `LocalDate.now()` (line 161), which is the system clock. `AsDateOfLocalTime` takes that date as a parameter.
- The locale's first day of the week is not looked up. `WeekFields.of(locale)` (line 276) reads it from locale data that is not part of this model. `firstWeekday` is passed in instead.
  - US is Sunday-first.
  - UK and ru are Monday-first.
- `WeekFields`' minimal-days setting does not affect `dayOfWeek()` and is not modelled.
- `format` (lines 238-252) is not modelled. It depends on the `SimpleDateFormat` pattern language and on locale text data.
- `getMonthName` (lines 342-361) is not modelled. It returns localized month names from locale text data.
- Null arguments are not modelled. Java throws NullPointerException for them; Dafny values cannot be null.
