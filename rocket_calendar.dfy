/** The widget object: open/closed flag, selection, the input's text and
    the rendered calendar root, with the accessors and the first render. */
module Widget {
  import opened CalendarMath
  import opened JsDates
  import opened DayGrid

  /** `Options.type`. */
  datatype CalendarType = DateType | TimeType | DateTimeType

  /** `Options`; `debug` is carried but never read. */
  datatype Options = Options(debug: Option<bool>, locale: Option<string>, kind: Option<CalendarType>)

  /** Which host formatter `printValue` calls: time with 2-digit hour and
      minute, date and time, or date with numeric year and 2-digit month/day. */
  datatype FormatStyle = TimeStyle | DateTimeStyle | DateStyle

  /** The input's `value`: text as typed, or the host's rendering of a date
      in a format style and locale (the host strings themselves are not modelled). */
  datatype InputText = Typed(text: string) | Formatted(date: JsDate, style: FormatStyle, locale: string)

  /** The rendered calendar root: the page it shows, its 42 day cells and
      whether it carries the `calendar--is-opened` class. */
  datatype CalendarView = CalendarView(page: Page, days: seq<Cell>, openMarker: bool)

  /** `new Date(2023, 2, 5)`, the one entry of the default disabled list. */
  function DefaultDisabled(): (d: JsDate)
    ensures WellFormed(d) && d == Date(2023, 2, 5, 0)
  {
    NewDate(2023, 2, 5)
  }

  /** The branch `printValue` takes on `options.type`; anything but "time"
      and "datetime", including no type, formats a plain date. */
  function StyleFor(kind: Option<CalendarType>): (s: FormatStyle)
    ensures s == TimeStyle <==> kind == Some(TimeType)
    ensures s == DateTimeStyle <==> kind == Some(DateTimeType)
    ensures s == DateStyle <==> kind.None? || kind == Some(DateType)
  {
    match kind
    case Some(TimeType) => TimeStyle
    case Some(DateTimeType) => DateTimeStyle
    case _ => DateStyle
  }

  /** The month `init` draws first: that of the selection when there is one
      (an invalid date is truthy, and its NaN month draws an empty page),
      otherwise that of today. */
  function InitialPage(selected: Option<JsDate>, today: JsDate): (p: Page)
    requires today.Date? && WellFormed(today)
    requires selected.Some? ==> WellFormed(selected.value)
    ensures PageOk(p)
    ensures p.InvalidPage? <==> selected == Some(InvalidDate)
    ensures selected.Some? && selected.value.Date? ==>
              p == MonthOf(selected.value.month, selected.value.year)
    ensures selected.None? ==> p == MonthOf(today.month, today.year)
  {
    var calendarDate := if selected.Some? then selected.value else today;
    if calendarDate.InvalidDate? then InvalidPage else MonthOf(calendarDate.month, calendarDate.year)
  }

  class RocketCalendar {
    var isOpen: bool
    var selected: Option<JsDate>
    const today: JsDate
    var disabledDates: seq<JsDate>
    const options: Options
    const localeName: string
    var input: InputText
    var component: Option<CalendarView>
    // the selection and disabled list the shown grid was drawn with
    ghost var renderedSelected: Option<JsDate>
    ghost var renderedDisabled: seq<JsDate>

    ghost predicate Valid()
      reads this
    {
      today.Date? && WellFormed(today) &&
      (selected.Some? ==> WellFormed(selected.value)) &&
      (component.Some? ==>
         PageOk(component.value.page) &&
         component.value.days == ExpectedPage(component.value.page, today, renderedSelected, renderedDisabled))
    }

    /** The `isOpened` getter. */
    function IsOpened(): (r: bool)
      reads this
      ensures r == isOpen
    {
      isOpen
    }

    /** The `selectedDate` getter. */
    function SelectedDate(): (r: Option<JsDate>)
      reads this
      ensures r == selected
    {
      selected
    }

    /** Construction followed by `init`: `parsed` is the host's reading of
        the input's initial text, used only when that text is not empty. */
    constructor (today: JsDate, options: Options, localeName: string, inputText: string, parsed: JsDate)
      requires today.Date? && WellFormed(today) && WellFormed(parsed)
      ensures Valid()
      ensures this.today == today && this.options == options && this.localeName == localeName
      ensures !IsOpened()
      ensures disabledDates == [DefaultDisabled()]
      ensures SelectedDate() == if |inputText| > 0 then Some(parsed) else None
      ensures input == if |inputText| > 0 then Formatted(parsed, StyleFor(options.kind), localeName)
                       else Typed(inputText)
      ensures component.Some? && component.value.page == InitialPage(selected, today)
      ensures component.value.days == ExpectedPage(InitialPage(selected, today), today, selected, disabledDates)
      ensures !component.value.openMarker
    {
      isOpen := false;
      selected := None;
      this.today := today;
      disabledDates := [DefaultDisabled()];
      this.options := options;
      this.localeName := localeName;
      input := Typed(inputText);
      component := None;
      renderedSelected := None;
      renderedDisabled := [];
      new;
      if |inputText| > 0 {
        SetSelectedDate(Some(parsed));
      }
      RenderCalendar(InitialPage(selected, today));
    }

    /** The `selectedDate` setter: store the value, then `printValue`. The
        shown grid is not redrawn. */
    method SetSelectedDate(value: Option<JsDate>)
      requires Valid()
      requires value.Some? ==> WellFormed(value.value)
      modifies this`selected, this`input
      ensures Valid()
      ensures SelectedDate() == value
      ensures input == if value.Some? then Formatted(value.value, StyleFor(options.kind), localeName)
                       else old(input)
      ensures component == old(component)
    {
      selected := value;
      PrintValue();
    }

    /** `printValue`: write the selection into the input in the style chosen
        by `options.type`; no selection leaves the input untouched. */
    method PrintValue()
      modifies this`input
      ensures input == if selected.Some? then Formatted(selected.value, StyleFor(options.kind), localeName)
                       else old(input)
    {
      if selected.Some? {
        input := Formatted(selected.value, StyleFor(options.kind), localeName);
      }
    }

    /** `renderCalendar`: a fresh root, without the open class, holding the
        day grid of the page. */
    method RenderCalendar(p: Page)
      requires Valid() && PageOk(p)
      modifies this`component, this`renderedSelected, this`renderedDisabled
      ensures Valid()
      ensures component == Some(CalendarView(p, ExpectedPage(p, today, selected, disabledDates), false))
    {
      var days := GenerateDays(p, today, selected, disabledDates);
      renderedSelected, renderedDisabled := selected, disabledDates;
      component := Some(CalendarView(p, days, false));
    }

    /** The `isOpened` setter: store the flag and put the open class on the
        rendered root, or take it off; nothing happens to a root not yet drawn. */
    method SetOpened(value: bool)
      requires Valid()
      modifies this`isOpen, this`component
      ensures Valid()
      ensures IsOpened() == value
      ensures component.Some? <==> old(component).Some?
      ensures component.Some? ==> component.value == old(component.value).(openMarker := value)
    {
      isOpen := value;
      if component.Some? {
        component := Some(component.value.(openMarker := value));
      }
    }

    /** The click handler of a day cell, present only on cells that were
        neither selected nor disabled when drawn: select that day at midnight. */
    method ClickDay(k: int)
      requires Valid() && component.Some?
      requires 0 <= k < |component.value.days|
      requires component.value.days[k].Real? && component.value.days[k].clickable
      modifies this`selected, this`input
      ensures Valid()
      ensures component == old(component) && component.value.page.MonthOf?
      ensures SelectedDate() ==
                Some(Date(ToFullYear(component.value.page.year), component.value.page.month,
                          component.value.days[k].day, 0))
      ensures !AnySameDay(renderedDisabled, selected.value)
      ensures !(renderedSelected.Some? && IsSameDay(renderedSelected.value, selected.value))
      ensures input == Formatted(selected.value, StyleFor(options.kind), localeName)
    {
      var view := component.value;
      PageFlags(view.page, today, renderedSelected, renderedDisabled, k);
      var dayDate := NewDate(view.page.year, view.page.month, view.days[k].day);
      SetSelectedDate(Some(dayDate));
    }
  }
}
