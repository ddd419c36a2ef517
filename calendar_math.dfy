/** Gregorian calendar arithmetic standing in for the host Date object's
    month normalisation (ECMA-262 section 21.4.1, Day Number and Time within
    Day; MakeDay; and step 5 of the Date constructor for two-digit years).
    Day numbers count days from 1 January 1970, as the host's time values do. */
module CalendarMath {

  /** The Gregorian leap-year rule. */
  predicate IsLeapYear(y: int) {
    y % 4 == 0 && (y % 100 != 0 || y % 400 == 0)
  }

  function DaysInYear(y: int): int {
    if IsLeapYear(y) then 366 else 365
  }

  /** Number of days of month `month` (0 = January .. 11 = December) of year `y`. */
  function DaysInMonth(month: int, y: int): (r: int)
    requires 0 <= month < 12
    ensures 28 <= r <= 31
    ensures month == 1 ==> (r == 29 <==> IsLeapYear(y))
  {
    if month == 1 then (if IsLeapYear(y) then 29 else 28)
    else if month == 3 || month == 5 || month == 8 || month == 10 then 30
    else 31
  }

  /** Days of year `y` that precede the first day of month `month`. */
  function DaysBeforeMonth(y: int, month: int): int
    requires 0 <= month <= 12
  {
    [0, 31, 59, 90, 120, 151, 181, 212, 243, 273, 304, 334, 365][month]
      + (if IsLeapYear(y) && month >= 2 then 1 else 0)
  }

  /** Day number of 1 January of year `y` (the DayFromYear of ECMA-262; `/` on a
      positive divisor is the floor the standard asks for). */
  function DayFromYear(y: int): int {
    365 * (y - 1970) + (y - 1969) / 4 - (y - 1901) / 100 + (y - 1601) / 400
  }

  /** Day number of the calendar date (y, month, d), month already in 0..11. */
  function DaysFromCivil(y: int, month: int, d: int): int
    requires 0 <= month < 12
  {
    DayFromYear(y) + DaysBeforeMonth(y, month) + d - 1
  }

  /** The host's MakeDay: any month number is folded into 0..11 by moving
      whole years, and any day of month is counted from the first. */
  function MakeDay(year: int, month: int, date: int): int {
    DaysFromCivil(year + month / 12, month % 12, 1) + date - 1
  }

  /** Step 5 of the Date constructor: a year in 0..99 means 1900 + year. */
  function ToFullYear(year: int): int {
    if 0 <= year <= 99 then 1900 + year else year
  }

  /** (y, month, d) is a real calendar date. */
  predicate ValidYmd(y: int, month: int, d: int) {
    0 <= month < 12 && 1 <= d <= DaysInMonth(month, y)
  }

  /** The host reads day number `dn` as getFullYear() = y, getMonth() = month,
      getDate() = d. */
  predicate DenotesDay(dn: int, y: int, month: int, d: int) {
    ValidYmd(y, month, d) && DaysFromCivil(y, month, d) == dn
  }

  /** Week day of a day number, 0 = Sunday .. 6 = Saturday; day 0 was a Thursday. */
  function WeekDay(dn: int): (r: int)
    ensures 0 <= r < 7
  {
    (dn + 4) % 7
  }

  /** `new Date(year, month, 1).getDay()`: week day of the first of the month. */
  function FirstWeekday(month: int, year: int): (r: int)
    ensures 0 <= r < 7
  {
    WeekDay(MakeDay(ToFullYear(year), month, 1))
  }

  /** `getDaysInMonth`: the date of "day 0 of the following month". */
  function GetDaysInMonth(month: int, year: int): (r: int)
    requires 0 <= month < 12
    ensures 28 <= r <= 31
    ensures DenotesDay(MakeDay(ToFullYear(year), month + 1, 0), ToFullYear(year), month, r)
  {
    DayZeroIsLastDay(ToFullYear(year), month);
    DaysInMonth(month, ToFullYear(year))
  }

  // ---------------------------------------------------------------------
  // Lemmas

  /** Consecutive first-of-year day numbers are a year length apart. */
  lemma YearLength(y: int)
    ensures DayFromYear(y + 1) - DayFromYear(y) == DaysInYear(y)
  {
    YearStep(y);
    LeapCount(y);
  }

  lemma YearStep(y: int)
    ensures DayFromYear(y + 1) - DayFromYear(y)
         == 365 + (if y % 4 == 0 then 1 else 0) - (if y % 100 == 0 then 1 else 0) + (if y % 400 == 0 then 1 else 0)
  {
    Every4(y);
    Every100(y);
    Every400(y);
  }

  lemma LeapCount(y: int)
    ensures DaysInYear(y)
         == 365 + (if y % 4 == 0 then 1 else 0) - (if y % 100 == 0 then 1 else 0) + (if y % 400 == 0 then 1 else 0)
  {
    if y % 400 == 0 {
      Divides400(y);
    } else if y % 100 == 0 {
      Divides100(y);
    }
  }

  lemma Divides400(y: int)
    requires y % 400 == 0
    ensures y % 100 == 0 && y % 4 == 0
  {
    var q := y / 400;
    assert y == 400 * q;
    assert y - 100 * (4 * q) == 0;
    assert y == 4 * (100 * q);
  }

  lemma Divides100(y: int)
    requires y % 100 == 0
    ensures y % 4 == 0
  {
    var q := y / 100;
    assert y == 4 * (25 * q);
  }

  lemma Every4(y: int)
    ensures ((y + 1) - 1969) / 4 - (y - 1969) / 4 == if y % 4 == 0 then 1 else 0
  {
    var q, r := (y - 1969) / 4, (y - 1969) % 4;
    assert y == 4 * (q + 492) + (r + 1);
    if r == 3 {
      assert y - 1968 == 4 * (q + 1);
    } else {
      assert y - 1968 == 4 * q + (r + 1);
    }
  }

  lemma Every100(y: int)
    ensures ((y + 1) - 1901) / 100 - (y - 1901) / 100 == if y % 100 == 0 then 1 else 0
  {
    var q, r := (y - 1901) / 100, (y - 1901) % 100;
    assert y == 100 * (q + 19) + (r + 1);
    if r == 99 {
      assert y - 1900 == 100 * (q + 1);
    } else {
      assert y - 1900 == 100 * q + (r + 1);
    }
  }

  lemma Every400(y: int)
    ensures ((y + 1) - 1601) / 400 - (y - 1601) / 400 == if y % 400 == 0 then 1 else 0
  {
    var q, r := (y - 1601) / 400, (y - 1601) % 400;
    assert y == 400 * (q + 4) + (r + 1);
    if r == 399 {
      assert y - 1600 == 400 * (q + 1);
    } else {
      assert y - 1600 == 400 * q + (r + 1);
    }
  }

  /** Each month starts where the previous one ends. */
  lemma MonthStep(y: int, month: int)
    requires 0 <= month < 12
    ensures DaysBeforeMonth(y, month + 1) == DaysBeforeMonth(y, month) + DaysInMonth(month, y)
  {
  }

  lemma {:induction false} DaysBeforeMonthMono(y: int, m1: int, m2: int)
    requires 0 <= m1 <= m2 <= 12
    ensures DaysBeforeMonth(y, m1) <= DaysBeforeMonth(y, m2)
    decreases m2 - m1
  {
    if m1 < m2 {
      DaysBeforeMonthMono(y, m1, m2 - 1);
    }
  }

  /** All twelve months together make up the year. */
  lemma MonthsFillYear(y: int)
    ensures DaysBeforeMonth(y, 12) == DaysInYear(y)
  {
  }

  lemma {:induction false} DayFromYearMono(a: int, b: int)
    requires a <= b
    ensures DayFromYear(a) <= DayFromYear(b)
    decreases b - a
  {
    if a < b {
      DayFromYearMono(a, b - 1);
      YearLength(b - 1);
    }
  }

  /** A real date lies between the first day of its year and the first day of the next. */
  lemma WithinYear(y: int, month: int, d: int)
    requires ValidYmd(y, month, d)
    ensures DayFromYear(y) <= DaysFromCivil(y, month, d) < DayFromYear(y + 1)
  {
    DaysBeforeMonthMono(y, month + 1, 12);
    MonthsFillYear(y);
    YearLength(y);
  }

  /** Different real dates have different day numbers. */
  lemma CivilInjective(y1: int, m1: int, d1: int, y2: int, m2: int, d2: int)
    requires ValidYmd(y1, m1, d1) && ValidYmd(y2, m2, d2)
    requires DaysFromCivil(y1, m1, d1) == DaysFromCivil(y2, m2, d2)
    ensures y1 == y2 && m1 == m2 && d1 == d2
  {
    CivilSameYear(y1, m1, d1, y2, m2, d2);
    CivilSameMonth(y1, m1, d1, m2, d2);
  }

  /** Equal day numbers of real dates lie in the same year. */
  lemma CivilSameYear(y1: int, m1: int, d1: int, y2: int, m2: int, d2: int)
    requires ValidYmd(y1, m1, d1) && ValidYmd(y2, m2, d2)
    requires DaysFromCivil(y1, m1, d1) == DaysFromCivil(y2, m2, d2)
    ensures y1 == y2
  {
    WithinYear(y1, m1, d1);
    WithinYear(y2, m2, d2);
    if y1 < y2 {
      DayFromYearMono(y1 + 1, y2);
    } else if y2 < y1 {
      DayFromYearMono(y2 + 1, y1);
    }
  }

  /** Within one year, equal day numbers of real dates share month and date. */
  lemma CivilSameMonth(y: int, m1: int, d1: int, m2: int, d2: int)
    requires ValidYmd(y, m1, d1) && ValidYmd(y, m2, d2)
    requires DaysFromCivil(y, m1, d1) == DaysFromCivil(y, m2, d2)
    ensures m1 == m2 && d1 == d2
  {
    if m1 < m2 {
      DaysBeforeMonthMono(y, m1 + 1, m2);
    } else if m2 < m1 {
      DaysBeforeMonthMono(y, m2 + 1, m1);
    }
  }

  /** Day 0 of the month after `month` is the last day of `month`; for
      December the month number 12 rolls over into January of y + 1. */
  lemma DayZeroIsLastDay(y: int, month: int)
    requires 0 <= month < 12
    ensures MakeDay(y, month + 1, 0) == DaysFromCivil(y, month, DaysInMonth(month, y))
  {
    if month == 11 {
      MakeDayRollover(y, 0);
      YearLength(y);
      MonthsFillYear(y);
    } else {
      MakeDayInYear(y, month + 1, 0);
      MonthStep(y, month);
    }
  }

  lemma MakeDayInYear(y: int, month: int, date: int)
    requires 0 <= month < 12
    ensures MakeDay(y, month, date) == DaysFromCivil(y, month, date)
  {
    assert month / 12 == 0 && month % 12 == month;
  }

  lemma MakeDayRollover(y: int, date: int)
    ensures MakeDay(y, 12, date) == DayFromYear(y + 1) + date - 1
  {
    assert 12 / 12 == 1 && 12 % 12 == 0;
  }

  /** The host can read day 0 of the following month in one way only, so
      `getDaysInMonth` is exactly that reading's date. */
  lemma DayZeroReading(month: int, year: int, y: int, m: int, d: int)
    requires 0 <= month < 12
    requires DenotesDay(MakeDay(ToFullYear(year), month + 1, 0), y, m, d)
    ensures y == ToFullYear(year) && m == month && d == GetDaysInMonth(month, year)
  {
    var r := GetDaysInMonth(month, year);
    CivilInjective(y, m, d, ToFullYear(year), month, r);
  }

  /** February has 29 days exactly in leap years, December always 31. */
  lemma GetDaysInMonthValues(month: int, year: int)
    requires 0 <= month < 12
    ensures month == 1 ==> GetDaysInMonth(month, year) == (if IsLeapYear(ToFullYear(year)) then 29 else 28)
    ensures month == 11 ==> GetDaysInMonth(month, year) == 31
    ensures GetDaysInMonth(1, 2024) == 29 && GetDaysInMonth(1, 2023) == 28 && GetDaysInMonth(0, 2023) == 31
  {
  }

  lemma Mod7Shift(x: int, n: int)
    ensures (x + n) % 7 == (x % 7 + n) % 7
  {
    var q, w := x / 7, x % 7;
    assert x + n == 7 * q + (w + n);
  }

  lemma FirstOfNextMonth(y: int, month: int)
    requires 0 <= month < 12
    ensures MakeDay(y, month + 1, 1) == MakeDay(y, month, 1) + DaysInMonth(month, y)
  {
    DayZeroIsLastDay(y, month);
    MakeDayInYear(y, month, 1);
    if month == 11 {
      MakeDayRollover(y, 0);
      MakeDayRollover(y, 1);
    } else {
      MakeDayInYear(y, month + 1, 0);
      MakeDayInYear(y, month + 1, 1);
    }
  }

  /** The first of the next month falls `DaysInMonth` week days later. */
  lemma NextMonthWeekday(y: int, month: int)
    requires 0 <= month < 12
    ensures WeekDay(MakeDay(y, month + 1, 1)) == (WeekDay(MakeDay(y, month, 1)) + DaysInMonth(month, y)) % 7
  {
    FirstOfNextMonth(y, month);
    Mod7Shift(MakeDay(y, month, 1) + 4, DaysInMonth(month, y));
  }

  lemma Epoch()
    ensures MakeDay(1970, 0, 1) == 0
  {
  }

  lemma FirstOfMarch2023()
    ensures MakeDay(2023, 2, 1) == 19417
  {
    assert DayFromYear(2023) == 19358;
    assert DaysBeforeMonth(2023, 2) == 59;
  }

  /** 1 January 1970 was a Thursday. */
  lemma EpochWeekday()
    ensures FirstWeekday(0, 1970) == 4
  {
    EpochUnfold();
    Epoch();
    DayZeroWeekday();
  }

  lemma EpochUnfold()
    ensures FirstWeekday(0, 1970) == WeekDay(MakeDay(1970, 0, 1))
  {
  }

  lemma DayZeroWeekday()
    ensures WeekDay(0) == 4
  {
  }

  /** 1 March 2023 was a Wednesday. */
  lemma March2023Weekday()
    ensures FirstWeekday(2, 2023) == 3
  {
    March2023Unfold();
    FirstOfMarch2023();
    Day19417Weekday();
  }

  lemma Day19417Weekday()
    ensures WeekDay(19417) == 3
  {
  }

  lemma March2023Unfold()
    ensures FirstWeekday(2, 2023) == WeekDay(MakeDay(2023, 2, 1))
  {
  }
}
