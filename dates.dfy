/**
 * The part of JavaScript's `Date` that the calendar uses: a proleptic
 * Gregorian (year, month, day) triple, the number of days of a month
 * (`new Date(year, month, 0).getDate()`), the two-digit-year rule of the
 * `Date` constructor, and the weekday (`getDay()`, 0 = Sunday).
 */
module Dates {

  /** A (year, month, day) triple; `month` counts from 1. */
  datatype CalendarDate = CalendarDate(year: int, month: int, day: int)

  /** A date that exists in the proleptic Gregorian calendar. */
  predicate IsValidDate(d: CalendarDate) {
    1 <= d.month <= 12 && 1 <= d.day <= DaysInMonth(d.year, d.month)
  }

  /** What a JavaScript `Date` object always denotes: an existing day. */
  type Date = d: CalendarDate | IsValidDate(d) witness CalendarDate(1970, 1, 1)

  predicate IsLeapYear(y: int) {
    (y % 4 == 0 && y % 100 != 0) || y % 400 == 0
  }

  function DaysInMonth(y: int, m: int): (n: int)
    requires 1 <= m <= 12
    ensures 28 <= n <= 31
  {
    if m == 2 then (if IsLeapYear(y) then 29 else 28)
    else if m == 4 || m == 6 || m == 9 || m == 11 then 30
    else 31
  }

  /**
   * The year the `Date(year, monthIndex, day)` constructor actually uses:
   * years 0 to 99 are read as 1900 to 1999.
   */
  function FullYear(year: int): int
  {
    if 0 <= year <= 99 then 1900 + year else year
  }

  /** The length of year y in days. */
  function YearDays(y: int): int {
    if IsLeapYear(y) then 366 else 365
  }

  /**
   * Days from 1 January of year 1 to 1 January of year y (negative before
   * year 1): each year contributes its own length.
   */
  function DaysBeforeYear(y: int): int
    decreases if y >= 1 then y - 1 else 1 - y
  {
    if y == 1 then 0
    else if y > 1 then DaysBeforeYear(y - 1) + YearDays(y - 1)
    else DaysBeforeYear(y + 1) - YearDays(y)
  }

  /** Days in the months 1 .. m-1 of year y. */
  function DaysBeforeMonth(y: int, m: int): (n: int)
    requires 1 <= m <= 13
    ensures 28 * (m - 1) <= n <= 31 * (m - 1)
  {
    if m == 1 then 0 else DaysBeforeMonth(y, m - 1) + DaysInMonth(y, m - 1)
  }

  /** Serial day number: 1 January of year 1 is day 1 (a Monday). */
  function DayNumber(d: Date): int {
    DaysBeforeYear(d.year) + DaysBeforeMonth(d.year, d.month) + d.day
  }

  /** `Date.prototype.getDay()`: 0 = Sunday, 1 = Monday, ..., 6 = Saturday. */
  function Weekday(d: Date): (w: int)
    ensures 0 <= w < 7
  {
    DayNumber(d) % 7
  }

  /** The calendar day after `d`, rolling over month and year ends. */
  function Tomorrow(d: Date): (t: Date)
    ensures t.day == 1 <==> d.day == DaysInMonth(d.year, d.month)
    ensures t.year == d.year || (t.year == d.year + 1 && t.month == 1 && d.month == 12)
    ensures t.year != d.year ==> d.month == 12 && d.day == 31 && t.month == 1 && t.day == 1
  {
    if d.day < DaysInMonth(d.year, d.month) then CalendarDate(d.year, d.month, d.day + 1)
    else if d.month < 12 then CalendarDate(d.year, d.month + 1, 1)
    else CalendarDate(d.year + 1, 1, 1)
  }

  /** Dates that follow each other day by day, as the days of one month do. */
  ghost predicate Consecutive(dates: seq<Date>) {
    forall i :: 0 <= i < |dates| - 1 ==> DayNumber(dates[i + 1]) == DayNumber(dates[i]) + 1
  }

  /** The months of a year add up to its length: 366 days exactly in a Gregorian leap year. */
  lemma {:induction false} YearLength(y: int)
    ensures DaysBeforeMonth(y, 13) == YearDays(y)
  {
    assert DaysBeforeMonth(y, 2) == 31;
    assert DaysBeforeMonth(y, 3) == 31 + DaysInMonth(y, 2);
    assert DaysBeforeMonth(y, 4) == DaysBeforeMonth(y, 3) + 31;
    assert DaysBeforeMonth(y, 5) == DaysBeforeMonth(y, 3) + 61;
    assert DaysBeforeMonth(y, 6) == DaysBeforeMonth(y, 3) + 92;
    assert DaysBeforeMonth(y, 7) == DaysBeforeMonth(y, 3) + 122;
    assert DaysBeforeMonth(y, 8) == DaysBeforeMonth(y, 3) + 153;
    assert DaysBeforeMonth(y, 9) == DaysBeforeMonth(y, 3) + 184;
    assert DaysBeforeMonth(y, 10) == DaysBeforeMonth(y, 3) + 214;
    assert DaysBeforeMonth(y, 11) == DaysBeforeMonth(y, 3) + 245;
    assert DaysBeforeMonth(y, 12) == DaysBeforeMonth(y, 3) + 275;
  }

  /** The count of days between years: 365 a year plus one per leap year, in closed form. */
  function GregorianDaysBeforeYear(y: int): int {
    365 * (y - 1) + (y - 1) / 4 - (y - 1) / 100 + (y - 1) / 400
  }

  /** Floor division by 4, 100 and 400 grows by one exactly at multiples of the divisor. */
  lemma DivSteps(x: int)
    ensures (x + 1) / 4 - x / 4 == if (x + 1) % 4 == 0 then 1 else 0
    ensures (x + 1) / 100 - x / 100 == if (x + 1) % 100 == 0 then 1 else 0
    ensures (x + 1) / 400 - x / 400 == if (x + 1) % 400 == 0 then 1 else 0
  {
  }

  /** The closed form moves on by the length of the year at each year end. */
  lemma ClosedFormStep(y: int)
    ensures GregorianDaysBeforeYear(y + 1) == GregorianDaysBeforeYear(y) + YearDays(y)
  {
    DivSteps(y - 1);
    Divisibility(y);
    var a, b, c := y / 4 - (y - 1) / 4, y / 100 - (y - 1) / 100, y / 400 - (y - 1) / 400;
    assert GregorianDaysBeforeYear(y + 1) == GregorianDaysBeforeYear(y) + 365 + a - b + c;
  }

  /** A multiple of 400 is a multiple of 100, and a multiple of 100 a multiple of 4. */
  lemma Divisibility(y: int)
    ensures y % 400 == 0 ==> y % 100 == 0
    ensures y % 100 == 0 ==> y % 4 == 0
  {
    var q, t, f := y / 400, y / 100, y / 4;
    assert y == 400 * q + y % 400 && y == 100 * t + y % 100 && y == 4 * f + y % 4;
    if y % 400 == 0 {
      assert y % 100 == 100 * (4 * q - t);
    }
    if y % 100 == 0 {
      assert y % 4 == 4 * (25 * t - f);
    }
  }

  /** Counting year by year agrees with the closed form of the Gregorian calendar. */
  lemma {:induction false} DaysBeforeYearClosedForm(y: int)
    ensures DaysBeforeYear(y) == GregorianDaysBeforeYear(y)
    decreases if y >= 1 then y - 1 else 1 - y
  {
    if y > 1 {
      DaysBeforeYearClosedForm(y - 1);
      ClosedFormStep(y - 1);
    } else if y < 1 {
      DaysBeforeYearClosedForm(y + 1);
      ClosedFormStep(y);
    }
  }

  /** The serial day number counts days: the day after `d` is numbered one higher. */
  lemma TomorrowIsNextDay(d: Date)
    ensures DayNumber(Tomorrow(d)) == DayNumber(d) + 1
  {
    if d.day == DaysInMonth(d.year, d.month) && d.month == 12 {
      YearLength(d.year);
      assert DaysBeforeYear(d.year + 1) == DaysBeforeYear(d.year) + YearDays(d.year);
    }
  }

  /** Two dates numbered one apart have weekdays one apart, modulo seven. */
  lemma NextWeekday(d: Date, e: Date)
    requires DayNumber(e) == DayNumber(d) + 1
    ensures Weekday(e) == (Weekday(d) + 1) % 7
  {
    ModSevenStep(DayNumber(d), DayNumber(e));
  }

  lemma ModSevenStep(n: int, m: int)
    requires m == n + 1
    ensures m % 7 == (n % 7 + 1) % 7
  {
  }

  /** Hence the weekday advances by one, modulo seven, from each day to the next. */
  lemma TomorrowWeekday(d: Date)
    ensures Weekday(Tomorrow(d)) == (Weekday(d) + 1) % 7
  {
    TomorrowIsNextDay(d);
    NextWeekday(d, Tomorrow(d));
  }

  /** Calibration against a known date: the Unix epoch, 1 January 1970, was a Thursday. */
  lemma EpochWeekday()
    ensures Weekday(CalendarDate(1970, 1, 1)) == 4
  {
    WeekdayClosedForm(CalendarDate(1970, 1, 1));
  }

  /** 1 February 2025 was a Saturday. */
  lemma February2025Weekday()
    ensures Weekday(CalendarDate(2025, 2, 1)) == 6
  {
    WeekdayClosedForm(CalendarDate(2025, 2, 1));
  }

  /** The weekday of a date from the closed-form count of the days before its year. */
  lemma WeekdayClosedForm(d: Date)
    ensures Weekday(d) == (GregorianDaysBeforeYear(d.year) + DaysBeforeMonth(d.year, d.month) + d.day) % 7
  {
    DaysBeforeYearClosedForm(d.year);
  }
}
