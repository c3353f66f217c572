/**
 * The proleptic Gregorian calendar of Joda-Time's ISO chronology, reduced to
 * what the comparator needs: validity of a wall-clock date-time and its
 * distance, in milliseconds, from 1970-01-01T00:00:00.000.
 */
module Calendar {

  /** The year range Joda-Time's Gregorian chronology accepts. */
  const MIN_YEAR: int := -292275054
  const MAX_YEAR: int := 292278993

  const MILLIS_PER_SECOND: int := 1000
  const MILLIS_PER_MINUTE: int := 60000
  const MILLIS_PER_HOUR: int := 3600000
  const MILLIS_PER_DAY: int := 86400000

  /** A wall-clock date-time with no zone attached. */
  datatype DateTime = DateTime(year: int, month: int, day: int, hour: int, minute: int, second: int, milli: int)

  predicate IsLeapYear(y: int) {
    y % 4 == 0 && (y % 100 != 0 || y % 400 == 0)
  }

  function DaysInYear(y: int): int {
    if IsLeapYear(y) then 366 else 365
  }

  function DaysInMonth(y: int, m: int): int
    requires 1 <= m <= 12
  {
    if m == 2 then (if IsLeapYear(y) then 29 else 28)
    else if m == 4 || m == 6 || m == 9 || m == 11 then 30
    else 31
  }

  predicate ValidDate(y: int, m: int, d: int) {
    MIN_YEAR <= y <= MAX_YEAR && 1 <= m <= 12 && 1 <= d <= DaysInMonth(y, m)
  }

  predicate ValidTime(h: int, mi: int, s: int, ms: int) {
    0 <= h < 24 && 0 <= mi < 60 && 0 <= s < 60 && 0 <= ms < 1000
  }

  /** A date-time the ISO chronology accepts: a year in range, a day its month has, and an in-range time of day. */
  predicate Valid(dt: DateTime)
    ensures Valid(dt) ==> 1 <= dt.day <= 31 && 0 <= MillisOfDay(dt) < MILLIS_PER_DAY
  {
    ValidDate(dt.year, dt.month, dt.day) && ValidTime(dt.hour, dt.minute, dt.second, dt.milli)
  }

  /** The number of leap years among the years 1 .. y-1 (negative when y < 1). */
  function LeapYearsBefore(y: int): int {
    (y - 1) / 4 - (y - 1) / 100 + (y - 1) / 400
  }

  /** Days from 1970-01-01 to January 1st of year `y`. */
  function DaysBeforeYear(y: int): int {
    365 * (y - 1970) + LeapYearsBefore(y) - LeapYearsBefore(1970)
  }

  /** Days from January 1st of year `y` to the first day of month `m`. */
  function DaysBeforeMonth(y: int, m: int): int
    requires 1 <= m <= 12
  {
    [0, 31, 59, 90, 120, 151, 181, 212, 243, 273, 304, 334][m - 1]
    + (if m > 2 && IsLeapYear(y) then 1 else 0)
  }

  /** Days from 1970-01-01 to the given date. */
  function EpochDay(y: int, m: int, d: int): int
    requires 1 <= m <= 12
  {
    DaysBeforeYear(y) + DaysBeforeMonth(y, m) + d - 1
  }

  function MillisOfDay(dt: DateTime): int {
    dt.hour * MILLIS_PER_HOUR + dt.minute * MILLIS_PER_MINUTE + dt.second * MILLIS_PER_SECOND + dt.milli
  }

  /** Milliseconds from 1970-01-01T00:00:00.000 to the wall-clock time `dt`, both read in the same zone. */
  function EpochMillis(dt: DateTime): (ms: int)
    requires 1 <= dt.month <= 12
    // A valid time of day lands inside its own epoch day.
    ensures ValidTime(dt.hour, dt.minute, dt.second, dt.milli) ==>
              EpochDay(dt.year, dt.month, dt.day) * MILLIS_PER_DAY <= ms
              < EpochDay(dt.year, dt.month, dt.day) * MILLIS_PER_DAY + MILLIS_PER_DAY
  {
    EpochDay(dt.year, dt.month, dt.day) * MILLIS_PER_DAY + MillisOfDay(dt)
  }

  /** The calendar day after the given one. */
  function NextDay(y: int, m: int, d: int): (r: (int, int, int))
    requires 1 <= m <= 12
  {
    if d < DaysInMonth(y, m) then (y, m, d + 1)
    else if m < 12 then (y, m + 1, 1)
    else (y + 1, 1, 1)
  }

  predicate DateBefore(a: DateTime, b: DateTime) {
    a.year < b.year
    || (a.year == b.year && (a.month < b.month || (a.month == b.month && a.day < b.day)))
  }

  predicate TimeBefore(a: DateTime, b: DateTime) {
    a.hour < b.hour
    || (a.hour == b.hour && (a.minute < b.minute
      || (a.minute == b.minute && (a.second < b.second
        || (a.second == b.second && a.milli < b.milli)))))
  }

  /** Chronological order of wall-clock date-times: lexicographic on year, month, day, hour, minute, second, milli. */
  predicate Before(a: DateTime, b: DateTime) {
    DateBefore(a, b)
    || (a.year == b.year && a.month == b.month && a.day == b.day && TimeBefore(a, b))
  }

  /** Floor division by a positive constant steps up by one exactly at the multiples. */
  lemma QuotientStep4(y: int)
    ensures y / 4 - (y - 1) / 4 == if y % 4 == 0 then 1 else 0
  {
    if y % 4 == 0 {
      assert y - 1 == 4 * (y / 4 - 1) + 3;
    } else {
      assert y - 1 == 4 * (y / 4) + (y % 4 - 1);
    }
  }

  lemma QuotientStep100(y: int)
    ensures y / 100 - (y - 1) / 100 == if y % 100 == 0 then 1 else 0
  {
    if y % 100 == 0 {
      assert y - 1 == 100 * (y / 100 - 1) + 99;
    } else {
      assert y - 1 == 100 * (y / 100) + (y % 100 - 1);
    }
  }

  lemma QuotientStep400(y: int)
    ensures y / 400 - (y - 1) / 400 == if y % 400 == 0 then 1 else 0
  {
    if y % 400 == 0 {
      assert y - 1 == 400 * (y / 400 - 1) + 399;
    } else {
      assert y - 1 == 400 * (y / 400) + (y % 400 - 1);
    }
  }

  /** A year adds its own length in days. */
  lemma YearStep(y: int)
    ensures DaysBeforeYear(y + 1) == DaysBeforeYear(y) + DaysInYear(y)
  {
    QuotientStep4(y);
    QuotientStep100(y);
    QuotientStep400(y);
    assert y % 400 == 0 ==> y % 100 == 0 && y % 4 == 0;
    assert y % 100 == 0 ==> y % 4 == 0;
  }

  lemma {:induction false} DaysBeforeYearMonotone(x: int, z: int)
    requires x <= z
    ensures DaysBeforeYear(x) + 365 * (z - x) <= DaysBeforeYear(z)
    decreases z - x
  {
    if x < z {
      YearStep(z - 1);
      DaysBeforeYearMonotone(x, z - 1);
    }
  }

  /** A month adds its own length in days. */
  lemma MonthStep(y: int, m: int)
    requires 1 <= m < 12
    ensures DaysBeforeMonth(y, m + 1) == DaysBeforeMonth(y, m) + DaysInMonth(y, m)
  {
  }

  /** The twelve months make up the year. */
  lemma YearEnd(y: int)
    ensures DaysBeforeMonth(y, 12) + DaysInMonth(y, 12) == DaysInYear(y)
  {
  }

  lemma {:induction false} DaysBeforeMonthMonotone(y: int, m: int, n: int)
    requires 1 <= m < n <= 12
    ensures DaysBeforeMonth(y, m) + DaysInMonth(y, m) <= DaysBeforeMonth(y, n)
    decreases n - m
  {
    MonthStep(y, n - 1);
    if m < n - 1 {
      DaysBeforeMonthMonotone(y, m, n - 1);
    }
  }

  lemma DayOfYearBound(y: int, m: int, d: int)
    requires ValidDate(y, m, d)
    ensures 0 <= DaysBeforeMonth(y, m) + d - 1 < DaysInYear(y)
  {
    if m < 12 {
      DaysBeforeMonthMonotone(y, m, 12);
    }
    YearEnd(y);
  }

  /** Distinct valid dates in chronological order have increasing day numbers. */
  lemma EpochDayMonotone(a: DateTime, b: DateTime)
    requires ValidDate(a.year, a.month, a.day) && ValidDate(b.year, b.month, b.day)
    requires DateBefore(a, b)
    ensures EpochDay(a.year, a.month, a.day) < EpochDay(b.year, b.month, b.day)
  {
    DayOfYearBound(a.year, a.month, a.day);
    DayOfYearBound(b.year, b.month, b.day);
    if a.year < b.year {
      YearStep(a.year);
      DaysBeforeYearMonotone(a.year + 1, b.year);
    } else if a.month < b.month {
      DaysBeforeMonthMonotone(a.year, a.month, b.month);
    }
  }

  /** The day after a valid date is a valid date (within Joda's year range) and has the next day number. */
  lemma EpochDayNext(y: int, m: int, d: int)
    requires ValidDate(y, m, d) && (y, m, d) != (MAX_YEAR, 12, 31)
    ensures var (y', m', d') := NextDay(y, m, d);
      ValidDate(y', m', d') && EpochDay(y', m', d') == EpochDay(y, m, d) + 1
  {
    if d == DaysInMonth(y, m) {
      if m < 12 {
        MonthStep(y, m);
      } else {
        YearStep(y);
        YearEnd(y);
      }
    }
  }

  /** Day numbering starts at 1970-01-01; the date of the comparator's test data is day 16048. */
  lemma EpochDayOrigin()
    ensures EpochDay(1970, 1, 1) == 0
    ensures EpochDay(2013, 12, 9) == 16048
  {
  }

  lemma MillisOfDayBound(dt: DateTime)
    requires ValidTime(dt.hour, dt.minute, dt.second, dt.milli)
    ensures 0 <= MillisOfDay(dt) < MILLIS_PER_DAY
  {
  }

  /** A wall-clock time at a whole second lies a whole number of seconds from the epoch. */
  lemma WholeSeconds(dt: DateTime)
    requires 1 <= dt.month <= 12 && dt.milli == 0
    ensures EpochMillis(dt) % MILLIS_PER_SECOND == 0
  {
    var seconds := EpochDay(dt.year, dt.month, dt.day) * 86400 + dt.hour * 3600 + dt.minute * 60 + dt.second;
    assert EpochMillis(dt) == 1000 * seconds;
  }

  /** Chronologically ordered valid date-times have strictly increasing epoch milliseconds. */
  lemma EpochMillisMonotone(a: DateTime, b: DateTime)
    requires Valid(a) && Valid(b) && Before(a, b)
    ensures EpochMillis(a) < EpochMillis(b)
  {
    MillisOfDayBound(a);
    MillisOfDayBound(b);
    if DateBefore(a, b) {
      EpochDayMonotone(a, b);
    }
  }

  /** Distinct valid date-times denote distinct instants. */
  lemma EpochMillisInjective(a: DateTime, b: DateTime)
    requires Valid(a) && Valid(b) && EpochMillis(a) == EpochMillis(b)
    ensures a == b
  {
    if Before(a, b) {
      EpochMillisMonotone(a, b);
    } else if Before(b, a) {
      EpochMillisMonotone(b, a);
    }
  }

  /** On valid date-times, chronological order and the order of epoch milliseconds agree. */
  lemma EpochMillisOrder(a: DateTime, b: DateTime)
    requires Valid(a) && Valid(b)
    ensures Before(a, b) <==> EpochMillis(a) < EpochMillis(b)
  {
    if Before(a, b) {
      EpochMillisMonotone(a, b);
    } else if Before(b, a) {
      EpochMillisMonotone(b, a);
    }
  }
}
