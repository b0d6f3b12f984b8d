/**
  Wall-clock readings without a zone, as java.time.LocalTime and
  java.time.LocalDateTime hold them at the millisecond precision of
  java.util.Date.
*/
module LocalClock {
  import opened IsoCalendar

  const MillisPerSecond: int := 1000
  const MillisPerMinute: int := 60_000
  const MillisPerHour: int := 3_600_000
  const MillisPerDay: int := 86_400_000

  /** A time of day: hour 0..23, minute 0..59, second 0..59, millisecond 0..999. */
  datatype Time = Time(hour: int, minute: int, second: int, milli: int)

  predicate ValidTime(t: Time) {
    0 <= t.hour < 24 && 0 <= t.minute < 60 && 0 <= t.second < 60 && 0 <= t.milli < 1000
  }

  /** LocalTime.MIDNIGHT, the time LocalDate.atStartOfDay pairs a date with. */
  const Midnight: Time := Time(0, 0, 0, 0)

  /** Milliseconds elapsed since midnight. */
  function MillisOfDay(t: Time): int {
    t.hour * MillisPerHour + t.minute * MillisPerMinute + t.second * MillisPerSecond + t.milli
  }

  /** The time of day `ms` milliseconds after midnight (LocalTime.ofNanoOfDay). */
  function TimeOfMillis(ms: int): (t: Time)
    requires 0 <= ms < MillisPerDay
    ensures ValidTime(t)
    ensures MillisOfDay(t) == ms
  {
    Time(ms / MillisPerHour, (ms / MillisPerMinute) % 60, (ms / MillisPerSecond) % 60, ms % MillisPerSecond)
  }

  /** Every valid time is some number of milliseconds into the day. */
  lemma MillisOfDayRange(t: Time)
    requires ValidTime(t)
    ensures 0 <= MillisOfDay(t) < MillisPerDay
  {
  }

  /** `TimeOfMillis` undoes `MillisOfDay`. */
  lemma TimeOfMillisOfDay(t: Time)
    requires ValidTime(t)
    ensures TimeOfMillis(MillisOfDay(t)) == t
  {
    var ms := MillisOfDay(t);
    var rest := t.minute * MillisPerMinute + t.second * MillisPerSecond + t.milli;
    assert 0 <= rest < MillisPerHour;
    assert ms / MillisPerHour == t.hour;
    var m := ms / MillisPerMinute;
    assert m == t.hour * 60 + t.minute;
    assert m % 60 == t.minute;
    var s := ms / MillisPerSecond;
    assert s == (t.hour * 60 + t.minute) * 60 + t.second;
    assert s % 60 == t.second;
  }

  /** A date paired with a time of day (LocalDateTime). */
  datatype DateTime = DateTime(date: Date, time: Time)

  predicate ValidDateTime(dt: DateTime) {
    ValidDate(dt.date) && ValidTime(dt.time)
  }

  /** Milliseconds from 1970-01-01T00:00 to `dt`, counted on the wall clock. */
  function LocalMillis(dt: DateTime): int
    requires ValidDateTime(dt)
  {
    EpochDay(dt.date) * MillisPerDay + MillisOfDay(dt.time)
  }

  /** The wall-clock reading `x` milliseconds after 1970-01-01T00:00: the day
      is the floor of the quotient, the time of day the non-negative remainder. */
  function DateTimeOfLocalMillis(x: int): (dt: DateTime)
    ensures ValidDateTime(dt)
    ensures LocalMillis(dt) == x
  {
    DateTime(FromEpochDay(x / MillisPerDay), TimeOfMillis(x % MillisPerDay))
  }

  /** `DateTimeOfLocalMillis` undoes `LocalMillis`. */
  lemma DateTimeOfLocalMillisInverse(dt: DateTime)
    requires ValidDateTime(dt)
    ensures DateTimeOfLocalMillis(LocalMillis(dt)) == dt
  {
    var x := LocalMillis(dt);
    MillisOfDayRange(dt.time);
    assert x / MillisPerDay == EpochDay(dt.date);
    assert x % MillisPerDay == MillisOfDay(dt.time);
    FromEpochDayOfEpochDay(dt.date);
    TimeOfMillisOfDay(dt.time);
  }
}
