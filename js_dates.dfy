/** The host Date object as the widget sees it: either the invalid-date
    sentinel or the local calendar fields (full year, month 0..11, date,
    milliseconds into the day). */
module JsDates {
  import opened CalendarMath

  datatype Option<T> = None | Some(value: T)

  const MsPerDay: int := 86400000

  datatype JsDate =
    | InvalidDate
    | Date(year: int, month: int, day: int, msOfDay: int)

  /** Every Date object the host hands out is either invalid or a real date. */
  predicate WellFormed(d: JsDate) {
    d.Date? ==> ValidYmd(d.year, d.month, d.day) && 0 <= d.msOfDay < MsPerDay
  }

  /** Day number of a valid date. */
  function DayNumber(d: JsDate): int
    requires d.Date? && 0 <= d.month < 12
  {
    DaysFromCivil(d.year, d.month, d.day)
  }

  /** `new Date(year, month, date)` for a date inside the month: midnight of
      that day, with a two-digit year read as 19xx. */
  function NewDate(year: int, month: int, date: int): (d: JsDate)
    requires 0 <= month < 12 && 1 <= date <= DaysInMonth(month, ToFullYear(year))
    ensures WellFormed(d) && d.Date? && d.msOfDay == 0
    ensures DenotesDay(MakeDay(ToFullYear(year), month, date), d.year, d.month, d.day)
  {
    MakeDayInYear(ToFullYear(year), month, date);
    Date(ToFullYear(year), month, date, 0)
  }

  /** `isSameDay`: getFullYear, getMonth and getDate all compare equal with
      `===`; on an invalid date they are NaN, which equals nothing. */
  predicate IsSameDay(a: JsDate, b: JsDate)
    ensures IsSameDay(a, b) ==> a.Date? && b.Date?
    ensures a.Date? && b.Date? ==>
              (IsSameDay(a, b) <==> a.year == b.year && a.month == b.month && a.day == b.day)
  {
    a.Date? && b.Date? && a.year == b.year && a.month == b.month && a.day == b.day
  }

  /** `dates.some(date => isSameDay(date, d))`. */
  function AnySameDay(dates: seq<JsDate>, d: JsDate): (r: bool)
    ensures r <==> exists k :: 0 <= k < |dates| && IsSameDay(dates[k], d)
  {
    if |dates| == 0 then false
    else IsSameDay(dates[0], d) || AnySameDay(dates[1..], d)
  }

  // ---------------------------------------------------------------------
  // Lemmas

  /** Day equality is reflexive on valid dates only, symmetric and transitive. */
  lemma SameDayEquivalence(a: JsDate, b: JsDate, c: JsDate)
    ensures IsSameDay(a, a) <==> a.Date?
    ensures IsSameDay(a, b) <==> IsSameDay(b, a)
    ensures IsSameDay(a, b) && IsSameDay(b, c) ==> IsSameDay(a, c)
  {
  }

  /** Day equality ignores the time of day. */
  lemma SameDayIgnoresTime(a: JsDate, b: JsDate, t: int)
    requires a.Date?
    ensures IsSameDay(a.(msOfDay := t), b) == IsSameDay(a, b)
  {
  }

  /** Two well-formed dates are the same day exactly when their day numbers agree. */
  lemma SameDayIffSameDayNumber(a: JsDate, b: JsDate)
    requires WellFormed(a) && WellFormed(b) && a.Date? && b.Date?
    ensures IsSameDay(a, b) <==> DayNumber(a) == DayNumber(b)
  {
    if DayNumber(a) == DayNumber(b) {
      CivilInjective(a.year, a.month, a.day, b.year, b.month, b.day);
    }
  }

  /** An invalid date is never the same day as anything. */
  lemma InvalidNeverSameDay(dates: seq<JsDate>, d: JsDate)
    requires d.InvalidDate?
    ensures !AnySameDay(dates, d)
  {
  }
}
