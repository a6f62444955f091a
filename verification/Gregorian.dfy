/** Day numbers of the proleptic Gregorian calendar, as Go's normalising `time.Date` counts them. */
module Gregorian {

  predicate IsLeap(year: int) {
    year % 4 == 0 && (year % 100 != 0 || year % 400 == 0)
  }

  /** The day number of 1 January; day 0 is 1 January of year 1. */
  function YearStart(year: int): int {
    365 * (year - 1) + (year - 1) / 4 - (year - 1) / 100 + (year - 1) / 400
  }

  function YearLength(year: int): int {
    if IsLeap(year) then 366 else 365
  }

  lemma YearStartNext(year: int)
    ensures YearStart(year + 1) == YearStart(year) + YearLength(year)
  {
    assert year / 4 == (year - 1) / 4 + if year % 4 == 0 then 1 else 0;
    assert year / 100 == (year - 1) / 100 + if year % 100 == 0 then 1 else 0;
    assert year / 400 == (year - 1) / 400 + if year % 400 == 0 then 1 else 0;
    assert year % 100 == 0 ==> year % 4 == 0;
    assert year % 400 == 0 ==> year % 100 == 0;
  }

  lemma {:induction false} YearStartMonotone(a: int, b: int)
    requires a <= b
    ensures YearStart(b) >= YearStart(a) + 365 * (b - a)
    decreases b - a
  {
    if a < b {
      YearStartMonotone(a, b - 1);
      YearStartNext(b - 1);
    }
  }

  /** Days before the 1st of `month`; month 13 stands for the end of the year. */
  function DaysBefore(month: int, leap: bool): int
    requires 1 <= month <= 13
  {
    var common :=
      if month == 1 then 0 else if month == 2 then 31 else if month == 3 then 59 else if month == 4 then 90
      else if month == 5 then 120 else if month == 6 then 151 else if month == 7 then 181 else if month == 8 then 212
      else if month == 9 then 243 else if month == 10 then 273 else if month == 11 then 304
      else if month == 12 then 334 else 365;
    if leap && month > 2 then common + 1 else common
  }

  function DaysInMonth(year: int, month: int): int
    requires 1 <= month <= 12
  {
    DaysBefore(month + 1, IsLeap(year)) - DaysBefore(month, IsLeap(year))
  }

  predicate ValidDate(year: int, month: int, day: int) {
    1 <= month <= 12 && 1 <= day <= DaysInMonth(year, month)
  }

  /** The day `time.Date(year, month, day, ...)` falls on: months and days outside their range carry over. */
  function DayNumber(year: int, month: int, day: int): int {
    var y, m := year + (month - 1) / 12, (month - 1) % 12 + 1;
    YearStart(y) + DaysBefore(m, IsLeap(y)) + day - 1
  }

  datatype Date = Date(year: int, month: int, day: int)

  function YearFrom(year: int, n: int): (y: int)
    requires YearStart(year) <= n
    ensures YearStart(y) <= n < YearStart(y + 1)
    decreases n - YearStart(year)
  {
    YearStartNext(year);
    if n < YearStart(year + 1) then year else YearFrom(year + 1, n)
  }

  /** 400 years are 146097 days. */
  lemma CycleStart(cycle: int)
    ensures YearStart(400 * cycle + 1) == 146097 * cycle
  {
    assert 400 * cycle / 4 == 100 * cycle;
    assert 400 * cycle / 100 == 4 * cycle;
    assert 400 * cycle / 400 == cycle;
  }

  /** The year of a day. */
  function YearOf(n: int): (y: int)
    ensures YearStart(y) <= n < YearStart(y + 1)
  {
    CycleStart(n / 146097);
    YearFrom(400 * (n / 146097) + 1, n)
  }

  lemma YearOfUnique(n: int, y: int)
    requires YearStart(y) <= n < YearStart(y + 1)
    ensures YearOf(n) == y
  {
    var found := YearOf(n);
    if found < y {
      YearStartMonotone(found + 1, y);
    } else if found > y {
      YearStartMonotone(y + 1, found);
    }
  }

  function MonthFrom(month: int, dayOfYear: int, leap: bool): (m: int)
    requires 1 <= month <= 12
    requires DaysBefore(month, leap) <= dayOfYear < DaysBefore(13, leap)
    ensures 1 <= m <= 12 && DaysBefore(m, leap) <= dayOfYear < DaysBefore(m + 1, leap)
    decreases 13 - month
  {
    if dayOfYear < DaysBefore(month + 1, leap) then month else MonthFrom(month + 1, dayOfYear, leap)
  }

  /** Without carrying, a date lies its day-of-year after 1 January. */
  lemma DayNumberPlain(year: int, month: int, day: int)
    requires 1 <= month <= 12
    ensures DayNumber(year, month, day) == YearStart(year) + DaysBefore(month, IsLeap(year)) + day - 1
  {
    assert (month - 1) / 12 == 0 && (month - 1) % 12 == month - 1;
  }

  /** The calendar date of a day: `t.Date()`. */
  function Civil(n: int): (date: Date)
    ensures ValidDate(date.year, date.month, date.day)
    ensures DayNumber(date.year, date.month, date.day) == n
    ensures date.year == YearOf(n)
  {
    var y := YearOf(n);
    YearStartNext(y);
    var m := MonthFrom(1, n - YearStart(y), IsLeap(y));
    var d := n - YearStart(y) - DaysBefore(m, IsLeap(y)) + 1;
    DayNumberPlain(y, m, d);
    Date(y, m, d)
  }

  lemma DayOfYearBounds(month: int, day: int, leap: bool)
    requires ValidDate(2000, month, day)
    ensures 0 <= DaysBefore(month, leap) + day - 1 < 366
    ensures !leap ==> DaysBefore(month, leap) + day - 1 < 365
  {
    assert IsLeap(2000);
  }

  /** No day up to the 31st leaves its year, even where it leaves its month. */
  lemma DayNumberStaysInYear(year: int, month: int, day: int)
    requires 1 <= month <= 12 && 1 <= day <= 31
    ensures YearOf(DayNumber(year, month, day)) == year
  {
    hide DayNumber, YearStart, YearOf;
    DayNumberPlain(year, month, day);
    YearStartNext(year);
    YearOfUnique(DayNumber(year, month, day), year);
  }

  /** A month and day that exist in some year stay within the year they are asked for. */
  lemma DayNumberYear(year: int, month: int, day: int)
    requires ValidDate(2000, month, day)
    ensures YearOf(DayNumber(year, month, day)) == year
    ensures YearStart(year) <= DayNumber(year, month, day) < YearStart(year + 1)
  {
    DayNumberPlain(year, month, day);
    DayOfYearBounds(month, day, IsLeap(year));
    YearStartNext(year);
    YearOfUnique(DayNumber(year, month, day), year);
  }

  /** Later years mean later days. */
  lemma DayNumberMonotone(a: int, b: int, month: int, day: int)
    requires a < b && ValidDate(2000, month, day)
    ensures DayNumber(a, month, day) < DayNumber(b, month, day)
  {
    DayNumberYear(a, month, day);
    DayNumberYear(b, month, day);
    YearStartMonotone(a + 1, b);
  }

  /** A month and day that exist in some year exist in a leap year. */
  lemma ValidInLeapYear(year: int, month: int, day: int)
    requires ValidDate(year, month, day)
    ensures ValidDate(2000, month, day) && day <= 31
  {
    assert IsLeap(2000);
  }

  lemma MonthIsUnique(m: int, n: int, dayOfYear: int, leap: bool)
    requires 1 <= m <= 12 && 1 <= n <= 12
    requires DaysBefore(m, leap) <= dayOfYear < DaysBefore(m + 1, leap)
    requires DaysBefore(n, leap) <= dayOfYear < DaysBefore(n + 1, leap)
    ensures m == n
  {
  }

  /** Reading a date back gives what was put in exactly when the date exists. */
  lemma CivilOfDayNumber(year: int, month: int, day: int)
    ensures Civil(DayNumber(year, month, day)) == Date(year, month, day) <==> ValidDate(year, month, day)
  {
    hide YearStart, YearOf, DayNumber;
    if ValidDate(year, month, day) {
      ValidInLeapYear(year, month, day);
      DayNumberYear(year, month, day);
      DayNumberPlain(year, month, day);
      var date := Civil(DayNumber(year, month, day));
      DayNumberPlain(date.year, date.month, date.day);
      MonthIsUnique(date.month, month, DaysBefore(month, IsLeap(year)) + day - 1, IsLeap(year));
    }
  }

  /** In a common year 29 February carries over to 1 March. */
  lemma LeapDayCarries(year: int)
    ensures DayNumber(year, 2, 29) == DayNumber(year, 3, 1) - if IsLeap(year) then 1 else 0
    ensures Civil(DayNumber(year, 2, 29)) == if IsLeap(year) then Date(year, 2, 29) else Date(year, 3, 1)
  {
    hide YearStart, YearOf;
    DayNumberPlain(year, 2, 29);
    DayNumberPlain(year, 3, 1);
    CivilOfDayNumber(year, 2, 29);
    CivilOfDayNumber(year, 3, 1);
  }

  // The calendar, day after day

  /** Thirty days have September, April, June and November. */
  function MonthLength(year: int, month: int): int {
    if month in {4, 6, 9, 11} then 30
    else if month != 2 then 31
    else if year % 4 == 0 && (year % 100 != 0 || year % 400 == 0) then 29
    else 28
  }

  lemma DaysInMonthExact(year: int, month: int)
    requires 1 <= month <= 12
    ensures DaysInMonth(year, month) == MonthLength(year, month)
  {
  }

  /** The day after a date. */
  function Tomorrow(d: Date): Date {
    if d.day < MonthLength(d.year, d.month) then Date(d.year, d.month, d.day + 1)
    else if d.month < 12 then Date(d.year, d.month + 1, 1)
    else Date(d.year + 1, 1, 1)
  }

  lemma TomorrowIsNext(d: Date)
    requires ValidDate(d.year, d.month, d.day)
    ensures var t := Tomorrow(d);
            && ValidDate(t.year, t.month, t.day)
            && DayNumber(t.year, t.month, t.day) == DayNumber(d.year, d.month, d.day) + 1
  {
    hide YearStart, DayNumber;
    var t := Tomorrow(d);
    DaysInMonthExact(d.year, d.month);
    DayNumberPlain(d.year, d.month, d.day);
    DayNumberPlain(t.year, t.month, t.day);
    YearStartNext(d.year);
  }

  /**
   * Day 0 is 1 January of year 1, and each later day is the calendar's next, so day numbers count the dates of
   * the calendar one by one.
   */
  lemma CivilCountsDays(n: int)
    ensures Civil(0) == Date(1, 1, 1)
    ensures Civil(n + 1) == Tomorrow(Civil(n))
  {
    hide Tomorrow, MonthLength, Civil, DayNumber, YearStart, YearOf;
    assert DayNumber(1, 1, 1) == 0 && ValidDate(1, 1, 1) by { FirstDay(); }
    CivilOfDayNumber(1, 1, 1);
    var d := Civil(n);
    TomorrowIsNext(d);
    var t := Tomorrow(d);
    CivilOfDayNumber(t.year, t.month, t.day);
  }

  lemma FirstDay()
    ensures DayNumber(1, 1, 1) == 0 && ValidDate(1, 1, 1)
  {
  }

  /** Days and months carry over: one day more is one day later, twelve months more are one year later. */
  lemma DatesCarry(year: int, month: int, day: int)
    ensures DayNumber(year, month, day + 1) == DayNumber(year, month, day) + 1
    ensures DayNumber(year, month + 12, day) == DayNumber(year + 1, month, day)
  {
    assert (month + 12 - 1) / 12 == (month - 1) / 12 + 1 && (month + 12 - 1) % 12 == (month - 1) % 12;
  }
}
