/** Proleptic Gregorian calendar dates, their day numbers, and instants
    (a calendar date plus a time of day) with the two comparisons the
    application uses: whole instants (`new Date(a) < new Date(b)`) and
    calendar days (`differenceInCalendarDays`). All instants are in the one
    local time zone of the browser; time zones are not modelled. */
module Calendar {

  datatype Date = Date(year: int, month: int, day: int)

  predicate IsLeapYear(y: int) {
    (y % 4 == 0 && y % 100 != 0) || y % 400 == 0
  }

  function YearLength(y: int): int {
    if IsLeapYear(y) then 366 else 365
  }

  function DaysInMonth(y: int, m: int): (n: int)
    requires 1 <= m <= 12
    ensures 28 <= n <= 31
  {
    if m == 2 then (if IsLeapYear(y) then 29 else 28)
    else if m == 4 || m == 6 || m == 9 || m == 11 then 30
    else 31
  }

  /** A real calendar date of the common era: month 1..12, day within the
      month, year at least 1. */
  predicate ValidDate(d: Date) {
    && d.year >= 1
    && 1 <= d.month <= 12
    && 1 <= d.day <= DaysInMonth(d.year, d.month)
  }

  /** Days in the months of year `y` before month `m` (1 <= m <= 13). */
  function DaysBeforeMonth(y: int, m: int): int {
    var common :=
      if m <= 1 then 0 else if m == 2 then 31 else if m == 3 then 59
      else if m == 4 then 90 else if m == 5 then 120 else if m == 6 then 151
      else if m == 7 then 181 else if m == 8 then 212 else if m == 9 then 243
      else if m == 10 then 273 else if m == 11 then 304 else if m == 12 then 334
      else 365;
    if m > 2 && IsLeapYear(y) then common + 1 else common
  }

  /** Days in the years 1 .. y - 1. */
  function DaysBeforeYear(y: int): (n: int)
    ensures n >= 0
    decreases y
  {
    if y <= 1 then 0 else DaysBeforeYear(y - 1) + YearLength(y - 1)
  }

  /** Days elapsed since 1 January of year 1. */
  function DayNumber(d: Date): int {
    DaysBeforeYear(d.year) + DaysBeforeMonth(d.year, d.month) + d.day - 1
  }

  /** Calendar order: by year, then month, then day. */
  predicate DateBefore(a: Date, b: Date) {
    || a.year < b.year
    || (a.year == b.year && a.month < b.month)
    || (a.year == b.year && a.month == b.month && a.day < b.day)
  }

  lemma MonthSteps(y: int, m: int)
    requires 1 <= m <= 12
    ensures DaysBeforeMonth(y, m + 1) == DaysBeforeMonth(y, m) + DaysInMonth(y, m)
    ensures DaysBeforeMonth(y, 13) == YearLength(y)
  {
  }

  lemma {:induction false} DaysBeforeYearMonotone(a: int, b: int)
    requires 1 <= a <= b
    ensures DaysBeforeYear(a) + (b - a) * 365 <= DaysBeforeYear(b)
    decreases b - a
  {
    if a < b {
      DaysBeforeYearMonotone(a, b - 1);
    }
  }

  /** A valid date falls within its own year's day numbers. */
  lemma DayNumberWithinYear(d: Date)
    requires ValidDate(d)
    ensures DaysBeforeYear(d.year) <= DayNumber(d) < DaysBeforeYear(d.year + 1)
  {
    MonthSteps(d.year, d.month);
    assert DaysBeforeMonth(d.year, d.month + 1) <= DaysBeforeMonth(d.year, 13);
  }

  /** Day numbers order valid dates exactly as the calendar does, so they are
      a faithful encoding: equal day numbers mean equal dates. */
  lemma DayNumberOrder(a: Date, b: Date)
    requires ValidDate(a) && ValidDate(b)
    ensures DateBefore(a, b) <==> DayNumber(a) < DayNumber(b)
    ensures a == b <==> DayNumber(a) == DayNumber(b)
  {
    DayNumberWithinYear(a);
    DayNumberWithinYear(b);
    if a.year < b.year {
      DaysBeforeYearMonotone(a.year + 1, b.year);
    } else if b.year < a.year {
      DaysBeforeYearMonotone(b.year + 1, a.year);
    } else if a.month < b.month {
      MonthSteps(a.year, a.month);
      assert DaysBeforeMonth(a.year, a.month + 1) <= DaysBeforeMonth(a.year, b.month);
    } else if b.month < a.month {
      MonthSteps(b.year, b.month);
      assert DaysBeforeMonth(b.year, b.month + 1) <= DaysBeforeMonth(b.year, a.month);
    }
  }

  // ---------------------------------------------------------------------
  // Instants
  // ---------------------------------------------------------------------

  const MsPerDay: int := 24 * 60 * 60 * 1000

  /** A moment in local time: a calendar date and the milliseconds elapsed
      since its midnight. */
  datatype Instant = Instant(date: Date, ms: int)

  predicate ValidInstant(t: Instant) {
    ValidDate(t.date) && 0 <= t.ms < MsPerDay
  }

  /** The instant's calendar-day number (`startOfDay`). */
  function Day(t: Instant): int {
    DayNumber(t.date)
  }

  /** Milliseconds since the start of day 0: the number `new Date(x)` holds. */
  function Millis(t: Instant): int {
    Day(t) * MsPerDay + t.ms
  }

  /** `differenceInCalendarDays(a, b)`: whole calendar days from b to a,
      ignoring the time of day. */
  function CalendarDaysBetween(a: Instant, b: Instant): int {
    Day(a) - Day(b)
  }

  /** An earlier calendar day means an earlier instant, and an earlier instant
      never lies on a later calendar day. */
  lemma InstantDayOrder(a: Instant, b: Instant)
    requires ValidInstant(a) && ValidInstant(b)
    ensures Day(a) < Day(b) ==> Millis(a) < Millis(b)
    ensures Millis(a) <= Millis(b) ==> Day(a) <= Day(b)
    ensures Day(a) == Day(b) ==> (Millis(a) <= Millis(b) <==> a.ms <= b.ms)
  {
    if Day(a) < Day(b) {
      assert Day(a) * MsPerDay + MsPerDay <= Day(b) * MsPerDay;
    }
    if Day(b) < Day(a) {
      assert Day(b) * MsPerDay + MsPerDay <= Day(a) * MsPerDay;
    }
  }
}
