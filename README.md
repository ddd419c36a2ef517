# RocketCalendar day-grid model

A Dafny model of the calendar-page arithmetic of the `RocketCalendar` date
picker (`src/index.ts`): how many days a month has, on which week day it
starts, the 42-cell day grid `generateDays` lays out with its today /
selected / disabled highlights and click handlers, day equality, and the
small open/closed and selection state of the widget object.

Modules:

- `CalendarMath` (`calendar_math.dfy`): Gregorian day numbers in the form
  ECMA-262 section 21.4.1 gives them (DayFromYear, MakeDay with month
  normalisation, week day of a day number, step 5 of the Date constructor
  that reads years 0..99 as 1900..1999). `getDaysInMonth` is modelled as the
  source computes it, the date of "day 0 of the following month", and the
  model proves that the host can read that day in one way only, as the last
  day of the requested month, also across the December to January rollover.
- `JsDates` (`js_dates.dfy`): a host Date object, either the invalid-date
  sentinel or its local calendar fields (year, month 0..11, date, time of
  day); `isSameDay`; `disabledDates.some(...)`.
- `DayGrid` (`day_grid.dfy`): the grid cell datatype, a reference definition
  of the page by position, and `GenerateDays`, the loop of the source with
  its running day counter, proved equal to the reference definition; lemmas
  for layout, numbering, contiguity and flags.
- `Widget` (`rocket_calendar.dfy`): class `RocketCalendar` with the
  `isOpened` and `selectedDate` accessors, `printValue`'s choice of format,
  the first render in `init`, and the day-cell click handler.

"Today" and the host's parse of the input's initial text are constructor
parameters, not clock or parser calls.

Behaviour modelled as the code has it, where a date picker might be
expected to do otherwise: setting `selectedDate` only stores it and rewrites the input, it does
not redraw the grid; there are no month navigation buttons and no
outside-click close in this code; the only opening path is the focus
listener, which is left out below. The grid places day 1 at position
`max(firstDay, 1)` because the loop counter starts at 1, so months starting
on Sunday and on Monday both begin in the first cell; this is modelled as
written.

## Model

| member | source | states |
|---|---|---|
| CalendarMath.DaysInMonth | src/index.ts:170-172 | A month has 28 to 31 days; February has 29 exactly in a Gregorian leap year |
| CalendarMath.GetDaysInMonth | src/index.ts:170-172 | The result is the date the host reads for day 0 of the following month, within that reading's month and year, and lies in 28..31 |
| CalendarMath.DayZeroReading | src/index.ts:170-172 | Any valid host reading of day 0 of month+1 is the given month and year with date `GetDaysInMonth`, so the trick is unambiguous |
| CalendarMath.DayZeroIsLastDay | src/index.ts:171 | Day 0 of month+1 is the last day of the month, including month 12 rolling over into January of the next year |
| CalendarMath.GetDaysInMonthValues | src/index.ts:170-172 | February gives 29 in leap years and 28 otherwise, December gives 31; February 2024 is 29, February 2023 is 28, January 2023 is 31 |
| CalendarMath.YearLength | src/index.ts:171 | The first days of consecutive years are 365 or 366 days apart as the leap-year rule says, which is what makes the month rollover land on the right day |
| CalendarMath.CivilInjective | src/index.ts:171 | Two distinct real dates never share a day number, so the host's reading of a day number is unique |
| CalendarMath.WeekDay | src/index.ts:129 | The week day of a day number lies in 0..6 |
| CalendarMath.FirstWeekday | src/index.ts:129 | `new Date(year, month, 1).getDay()` lies in 0..6 |
| CalendarMath.NextMonthWeekday | src/index.ts:129 | The next month starts `DaysInMonth` week days after this one, modulo 7 |
| CalendarMath.EpochWeekday | src/index.ts:129 | 1 January 1970 evaluates to Thursday (4), the week day the definition's offset is taken from |
| CalendarMath.March2023Weekday | src/index.ts:129 | 1 March 2023 is a Wednesday (3) |
| JsDates.NewDate | src/index.ts:132 | `new Date(year, month, day)` inside the month is a well-formed midnight date whose fields are the host reading of MakeDay for those arguments |
| JsDates.IsSameDay | src/index.ts:161-167 | True exactly when both dates are valid and their year, month and date agree; an invalid date (NaN under `===`) matches nothing |
| JsDates.SameDayEquivalence | src/index.ts:161-167 | Day equality is reflexive exactly on valid dates, symmetric and transitive |
| JsDates.SameDayIgnoresTime | src/index.ts:161-167 | Day equality does not depend on the time of day |
| JsDates.SameDayIffSameDayNumber | src/index.ts:161-167 | Two valid dates are the same day exactly when their day numbers are equal |
| JsDates.AnySameDay | src/index.ts:133-135 | `some` is true exactly when some list entry is the same day as the cell's date |
| JsDates.InvalidNeverSameDay | src/index.ts:133-135 | An invalid date matches no entry |
| DayGrid.RunStart | src/index.ts:131-141 | The first real position is max(firstDay, 1): at least 1, at least firstDay, and one of the two |
| DayGrid.DayCell | src/index.ts:132-150 | A drawn day cell is real and labelled with the day counter |
| DayGrid.ExpectedPage | src/index.ts:125-158 | The reference page has 42 cells |
| DayGrid.GenerateDays | src/index.ts:125-158 | The loop over positions 1..42 with its running day counter yields exactly the reference page |
| DayGrid.PageLayout | src/index.ts:128-153 | Day 1 sits at 1-based position max(firstDay, 1) in 1..6, real cells are exactly the run of days-in-month positions from there, labelled by position, and the run ends by position 36 |
| DayGrid.PageContiguous | src/index.ts:141-153 | Between two real cells every cell is real and the labels count up by one |
| DayGrid.InvalidPageBlank | src/index.ts:141 | With a NaN month or year every one of the 42 cells is empty |
| DayGrid.PageDays | src/index.ts:128-150 | The labels of the real cells, in order, are exactly 1, 2, .., days-in-month (none for a NaN page) |
| DayGrid.PageFlags | src/index.ts:133-149 | A real cell is flagged today / selected exactly when that date's year, month and day match, disabled exactly when some list entry is that day, and clickable exactly when neither selected nor disabled |
| DayGrid.SelectedAndTodayUnique | src/index.ts:136-138 | At most one cell of a page is flagged selected and at most one today |
| DayGrid.DefaultDisabledMarch2023 | src/index.ts:133-145 | With the default list, the March 2023 page has day 5 at position 7, disabled and without a click handler, and no other day disabled |
| Widget.DefaultDisabled | src/index.ts:13 | The default disabled entry is midnight of 5 March 2023 |
| Widget.StyleFor | src/index.ts:46-70 | "time" picks the time format, "datetime" the date-time format, anything else including no type the date format |
| Widget.InitialPage | src/index.ts:38-41 | The first page shows the selection's month when one is set, today's otherwise, and is the NaN page exactly when the selection is the invalid date |
| Widget.RocketCalendar.constructor | src/index.ts:16-42 | After init the widget is closed, has the default disabled list, holds the parsed input as selection only when the input text was not empty, and shows the initial page's grid without the open class |
| Widget.RocketCalendar.SetSelectedDate | src/index.ts:27-30 | The getter then returns the value, the input shows it formatted when set and is untouched otherwise, and the grid is not redrawn |
| Widget.RocketCalendar.PrintValue | src/index.ts:44-73 | With a selection the input holds it formatted in the chosen style and locale; without one the input is unchanged |
| Widget.RocketCalendar.RenderCalendar | src/index.ts:76-79 | The new root holds the page's 42-cell grid for the current today, selection and disabled list, without the open class |
| Widget.RocketCalendar.IsOpened | src/index.ts:188-190 | The `isOpened` getter returns the stored open flag |
| Widget.RocketCalendar.SelectedDate | src/index.ts:23-25 | The `selectedDate` getter returns the stored selection, absent or a date |
| Widget.RocketCalendar.SetOpened | src/index.ts:188-200 | The getter then returns the value, and a drawn root carries the open class exactly when the value is true |
| Widget.RocketCalendar.ClickDay | src/index.ts:146-149 | Clicking a cell with a handler selects midnight of that day of the shown month, a day that was neither selected nor disabled when drawn, and writes it into the input |

## Left out

- DOM construction and styling (`generateCalendar`, `generateHeader`, `generateBody`, `generateWeekDays`, `generateFooter`, `appendChild` to the page body): the grid is a sequence of cells and the root a value with its open class.
- The host's locale formatting inside `printValue` (`toLocaleTimeString`, `toLocaleString`, `toLocaleDateString`): the input holds the date, the style and the locale name, not the produced string.
- The dynamic locale import in `init` and its `await`: the model covers only an `init` that runs to completion, as it does for the default locale. With another locale `init` continues after the constructor returns, and because the import has no error handling, a locale with no module makes `init` stop at the import: the widget then takes no selection from the input, subscribes no focus listener and draws no calendar. No fallback to the default locale exists in this code.
- Parsing of the input's text by `new Date(text)`: its result is a constructor parameter, possibly the invalid date.
- Event wiring in `subscribeInputEvents` (the focus listener that sets `isOpened` to true): it calls the modelled setter.
- The wall clock `new Date()`: today is a parameter.
- Time zones and daylight-saving shifts: dates are the host's local calendar fields; the local-time conversion is not modelled.
- The host's time-value range limit (±100,000,000 days from 1 January 1970, section 21.4.1.1 of ECMA-262: years −271,821 to 275,760): all integer years are treated as in range.
- Locale weekday and month names, and the `debug` option: no behaviour depends on them in the modelled part.
- `new Date(year, month, monthDay)` on the iterations after the last day (monthDay = days-in-month + 1, which the host rolls into the next month): its today / selected / disabled flags are computed and then discarded for a blank cell, so the model builds a date only for real cells; nothing observable is lost.
- DayGrid.GenerateDays: months outside 0..11 are not accepted, since the widget only passes `getMonth()` results (or NaN, modelled as the invalid page).
