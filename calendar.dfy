/** Proleptic Gregorian calendar dates at day granularity, as the analyzer's
    parsed timestamps carry them. `DayNumber` counts days from 1970-01-01, so
    the difference of two day numbers is the whole-day length of a stay;
    `MonthIndex` names the calendar month a date falls in, for monthly
    resampling. */
module Calendar {

  datatype CivilDate = CivilDate(year: int, month: int, day: int)

  predicate IsLeapYear(y: int) {
    y % 4 == 0 && (y % 100 != 0 || y % 400 == 0)
  }

  function DaysInYear(y: int): int {
    if IsLeapYear(y) then 366 else 365
  }

  function DaysInMonth(y: int, m: int): int
    requires 1 <= m <= 12
  {
    if m == 2 then (if IsLeapYear(y) then 29 else 28)
    else if m == 4 || m == 6 || m == 9 || m == 11 then 30
    else 31
  }

  predicate ValidDate(d: CivilDate) {
    1 <= d.month <= 12 && 1 <= d.day <= DaysInMonth(d.year, d.month)
  }

  /** A calendar date that exists. */
  type Date = d: CivilDate | ValidDate(d) witness CivilDate(1970, 1, 1)

  /** Days of year `y` before the first of month `m`. */
  function DaysBeforeMonth(y: int, m: int): int
    requires 1 <= m <= 12
  {
    var common :=
      if m == 1 then 0 else if m == 2 then 31 else if m == 3 then 59
      else if m == 4 then 90 else if m == 5 then 120 else if m == 6 then 151
      else if m == 7 then 181 else if m == 8 then 212 else if m == 9 then 243
      else if m == 10 then 273 else if m == 11 then 304 else 334;
    common + (if m > 2 && IsLeapYear(y) then 1 else 0)
  }

  /** Leap years in [1, y) for y >= 1, extended to all years by the same formula. */
  function LeapYearsBefore(y: int): int {
    (y - 1) / 4 - (y - 1) / 100 + (y - 1) / 400
  }

  /** Days from 1970-01-01 to the first of January of year `y`. */
  function DaysBeforeYear(y: int): int {
    365 * (y - 1970) + LeapYearsBefore(y) - LeapYearsBefore(1970)
  }

  /** Days since 1970-01-01 (negative before it). */
  function DayNumber(d: Date): int {
    DaysBeforeYear(d.year) + DaysBeforeMonth(d.year, d.month) + d.day - 1
  }

  /** Calendar month of a date, counted as 12 * year + (month - 1). */
  function MonthIndex(d: Date): int {
    12 * d.year + d.month - 1
  }

  /** Chronological order: year, then month, then day. */
  predicate Before(a: Date, b: Date) {
    a.year < b.year ||
    (a.year == b.year && (a.month < b.month || (a.month == b.month && a.day < b.day)))
  }

  lemma DivStep(y: int)
    ensures y / 4 - (y - 1) / 4 == (if y % 4 == 0 then 1 else 0)
    ensures y / 100 - (y - 1) / 100 == (if y % 100 == 0 then 1 else 0)
    ensures y / 400 - (y - 1) / 400 == (if y % 400 == 0 then 1 else 0)
    ensures y % 400 == 0 ==> y % 100 == 0
    ensures y % 100 == 0 ==> y % 4 == 0
  {
  }

  /** Crossing one new year adds the length of the year just finished. */
  lemma DaysBeforeNextYear(y: int)
    ensures DaysBeforeYear(y + 1) == DaysBeforeYear(y) + DaysInYear(y)
  {
    DivStep(y);
  }

  lemma {:induction false} DaysBeforeLaterYear(y1: int, y2: int)
    requires y1 < y2
    ensures DaysBeforeYear(y1) + DaysInYear(y1) <= DaysBeforeYear(y2)
    decreases y2 - y1
  {
    DaysBeforeNextYear(y1);
    if y1 + 1 < y2 {
      DaysBeforeLaterYear(y1 + 1, y2);
    }
  }

  /** The last day of month `m` still lies before the first day of any later
      month of the same year, and before the end of the year. */
  lemma MonthEnds(y: int, m1: int, m2: int)
    requires 1 <= m1 <= 12 && 1 <= m2 <= 12
    ensures m1 < m2 ==> DaysBeforeMonth(y, m1) + DaysInMonth(y, m1) <= DaysBeforeMonth(y, m2)
    ensures DaysBeforeMonth(y, m1) + DaysInMonth(y, m1) <= DaysInYear(y)
    ensures 0 <= DaysBeforeMonth(y, m1)
  {
  }

  /** Day numbers are strictly increasing in chronological order, so a
      difference of day numbers has the sign of the order of the dates. */
  lemma DayNumberIncreasing(a: Date, b: Date)
    requires Before(a, b)
    ensures DayNumber(a) < DayNumber(b)
  {
    MonthEnds(a.year, a.month, b.month);
    MonthEnds(b.year, b.month, b.month);
    if a.year < b.year {
      DaysBeforeLaterYear(a.year, b.year);
    }
  }

  /** The sign of the difference of day numbers is the chronological order
      of the dates, in all three cases. */
  lemma DayNumberOrder(a: Date, b: Date)
    ensures DayNumber(a) < DayNumber(b) <==> Before(a, b)
    ensures DayNumber(a) == DayNumber(b) <==> a == b
  {
    if Before(a, b) {
      DayNumberIncreasing(a, b);
    } else if Before(b, a) {
      DayNumberIncreasing(b, a);
    } else {
      assert a == b;
    }
  }

  /** The calendar day after `d`. */
  function NextDay(d: Date): (e: Date)
    ensures Before(d, e)
  {
    if d.day < DaysInMonth(d.year, d.month) then CivilDate(d.year, d.month, d.day + 1)
    else if d.month < 12 then CivilDate(d.year, d.month + 1, 1)
    else CivilDate(d.year + 1, 1, 1)
  }

  /** Day numbers count days: 1970-01-01 is day 0, the next day of any date
      has the next number, and no date lies strictly between the two. */
  lemma DayNumberCounts(d: Date, e: Date)
    ensures DayNumber(CivilDate(1970, 1, 1)) == 0
    ensures DayNumber(NextDay(d)) == DayNumber(d) + 1
    ensures !(Before(d, e) && Before(e, NextDay(d)))
  {
    if d.month == 12 && d.day == DaysInMonth(d.year, d.month) {
      DaysBeforeNextYear(d.year);
    }
    DayNumberOrder(d, e);
    DayNumberOrder(e, NextDay(d));
  }

  /** A later date never falls in an earlier month, so the month of the
      earliest date is the smallest month index. */
  lemma MonthIndexMonotone(a: Date, b: Date)
    requires !Before(b, a)
    ensures MonthIndex(a) <= MonthIndex(b)
  {
  }
}
