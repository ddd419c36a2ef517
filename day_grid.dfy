/** The day grid of one calendar page: the 42 cells `generateDays` appends,
    without the DOM. */
module DayGrid {
  import opened CalendarMath
  import opened JsDates

  const GridSize: int := 42

  /** One grid cell: a blank placeholder or a day of the shown month with
      its highlight flags; `clickable` says a click handler was attached. */
  datatype Cell =
    | Empty
    | Real(day: int, isToday: bool, isSelected: bool, isDisabled: bool, clickable: bool)

  /** The (month, year) numbers the grid is drawn for; `InvalidPage` stands
      for NaN, which the widget passes when its date is the invalid sentinel. */
  datatype Page = MonthOf(month: int, year: int) | InvalidPage

  predicate PageOk(p: Page) {
    p.MonthOf? ==> 0 <= p.month < 12
  }

  /** 1-based grid position of day 1: the loop counter starts at 1, so a
      Sunday (0) start is placed like a Monday (1) start. */
  function RunStart(firstDay: int): (r: int)
    ensures r >= 1 && r >= firstDay && (r == 1 || r == firstDay)
  {
    if firstDay < 1 then 1 else firstDay
  }

  /** The cell for day `day` of (month, year), flagged against today, the
      selection and the disabled dates. */
  function DayCell(month: int, year: int, day: int, today: JsDate, selected: Option<JsDate>,
                   disabled: seq<JsDate>): (c: Cell)
    requires 0 <= month < 12 && 1 <= day <= DaysInMonth(month, ToFullYear(year))
    ensures c.Real? && c.day == day
  {
    var dayDate := NewDate(year, month, day);
    var isDisabled := AnySameDay(disabled, dayDate);
    var isToday := IsSameDay(today, dayDate);
    var isSelected := selected.Some? && IsSameDay(selected.value, dayDate);
    Real(day, isToday, isSelected, isDisabled, !isSelected && !isDisabled)
  }

  /** Reference definition of the cell at 1-based position `i`, stated by
      position rather than by the running day counter. */
  function ExpectedCell(p: Page, i: int, today: JsDate, selected: Option<JsDate>,
                        disabled: seq<JsDate>): Cell
    requires PageOk(p)
  {
    if p.InvalidPage? then Empty
    else
      var n := GetDaysInMonth(p.month, p.year);
      var s := RunStart(FirstWeekday(p.month, p.year));
      if s <= i < s + n then DayCell(p.month, p.year, i - s + 1, today, selected, disabled)
      else Empty
  }

  function ExpectedPage(p: Page, today: JsDate, selected: Option<JsDate>,
                        disabled: seq<JsDate>): (cells: seq<Cell>)
    requires PageOk(p)
    ensures |cells| == GridSize
  {
    seq(GridSize, k requires 0 <= k < GridSize => ExpectedCell(p, k + 1, today, selected, disabled))
  }

  /** Day labels of the real cells, in grid order. */
  function RealDays(cells: seq<Cell>): seq<int> {
    if |cells| == 0 then []
    else (if cells[0].Real? then [cells[0].day] else []) + RealDays(cells[1..])
  }

  /** How many days the loop has drawn before position `i` when day 1 goes
      at position `s` and the month has `n` days. */
  function DaysDrawn(i: int, s: int, n: int): int {
    if i <= s then 0 else if i - s < n then i - s else n
  }

  /** `generateDays`: positions 1..42 with a running day counter. */
  method GenerateDays(p: Page, today: JsDate, selected: Option<JsDate>, disabled: seq<JsDate>)
    returns (cells: seq<Cell>)
    requires PageOk(p)
    ensures cells == ExpectedPage(p, today, selected, disabled)
  {
    var numberOfDays, firstDay := 0, 0;
    if p.MonthOf? {
      numberOfDays := GetDaysInMonth(p.month, p.year);
      firstDay := FirstWeekday(p.month, p.year);
    }
    ghost var s := RunStart(firstDay);
    var monthDay := 1;
    cells := [];
    var i := 1;
    while i <= GridSize
      invariant 1 <= i <= GridSize + 1 && |cells| == i - 1
      invariant p.MonthOf? ==> monthDay == 1 + DaysDrawn(i, s, numberOfDays)
      invariant forall k :: 0 <= k < |cells| ==> cells[k] == ExpectedCell(p, k + 1, today, selected, disabled)
    {
      if p.MonthOf? {
        CounterStep(p, i, monthDay, today, selected, disabled);
      }
      if p.MonthOf? && i >= firstDay && monthDay <= numberOfDays {
        cells := cells + [DayCell(p.month, p.year, monthDay, today, selected, disabled)];
        monthDay := monthDay + 1;
      } else {
        cells := cells + [Empty];
      }
      i := i + 1;
    }
    PageByCells(p, cells, today, selected, disabled);
  }

  // ---------------------------------------------------------------------
  // Lemmas

  /** One step of the loop: with the counter at the number of days already
      drawn plus one, the source's test picks exactly the reference cell. */
  lemma CounterStep(p: Page, i: int, monthDay: int, today: JsDate, selected: Option<JsDate>,
                    disabled: seq<JsDate>)
    requires PageOk(p) && p.MonthOf? && 1 <= i
    requires monthDay == 1 + DaysDrawn(i, RunStart(FirstWeekday(p.month, p.year)), GetDaysInMonth(p.month, p.year))
    ensures var n := GetDaysInMonth(p.month, p.year);
            var s := RunStart(FirstWeekday(p.month, p.year));
            var isReal := i >= FirstWeekday(p.month, p.year) && monthDay <= n;
            (isReal ==> 1 <= monthDay <= DaysInMonth(p.month, ToFullYear(p.year))) &&
            ExpectedCell(p, i, today, selected, disabled)
              == (if isReal then DayCell(p.month, p.year, monthDay, today, selected, disabled) else Empty) &&
            (if isReal then monthDay + 1 else monthDay) == 1 + DaysDrawn(i + 1, s, n)
  {
  }

  /** Forty-two cells that each match the reference cell form the reference page. */
  lemma PageByCells(p: Page, cells: seq<Cell>, today: JsDate, selected: Option<JsDate>, disabled: seq<JsDate>)
    requires PageOk(p) && |cells| == GridSize
    requires forall k :: 0 <= k < |cells| ==> cells[k] == ExpectedCell(p, k + 1, today, selected, disabled)
    ensures cells == ExpectedPage(p, today, selected, disabled)
  {
  }

  lemma {:induction false} RealDaysAppend(a: seq<Cell>, b: seq<Cell>)
    ensures RealDays(a + b) == RealDays(a) + RealDays(b)
  {
    if |a| > 0 {
      assert (a + b)[0] == a[0];
      assert (a + b)[1..] == a[1..] + b;
      RealDaysAppend(a[1..], b);
    } else {
      assert a + b == b;
    }
  }

  lemma {:induction false} RealDaysOfBlanks(cells: seq<Cell>)
    requires forall k :: 0 <= k < |cells| ==> cells[k] == Empty
    ensures RealDays(cells) == []
  {
    if |cells| > 0 {
      RealDaysOfBlanks(cells[1..]);
    }
  }

  lemma {:induction false} RealDaysOfRun(cells: seq<Cell>, first: int)
    requires forall k :: 0 <= k < |cells| ==> cells[k].Real? && cells[k].day == first + k
    ensures |RealDays(cells)| == |cells|
    ensures forall k :: 0 <= k < |cells| ==> RealDays(cells)[k] == first + k
  {
    if |cells| > 0 {
      RealDaysOfRun(cells[1..], first + 1);
      assert RealDays(cells) == [first] + RealDays(cells[1..]);
    }
  }

  /** One cell of a valid page, read off its reference definition. */
  lemma CellLayout(p: Page, today: JsDate, selected: Option<JsDate>, disabled: seq<JsDate>, k: int)
    requires PageOk(p) && p.MonthOf? && 0 <= k < GridSize
    ensures var c := ExpectedPage(p, today, selected, disabled)[k];
            var n := GetDaysInMonth(p.month, p.year);
            var s := RunStart(FirstWeekday(p.month, p.year));
            (c.Real? <==> s - 1 <= k < s - 1 + n) && (c.Real? ==> c.day == k - s + 2)
  {
    var n := GetDaysInMonth(p.month, p.year);
    var s := RunStart(FirstWeekday(p.month, p.year));
    assert ExpectedPage(p, today, selected, disabled)[k] == ExpectedCell(p, k + 1, today, selected, disabled);
    if s <= k + 1 < s + n {
      assert ExpectedCell(p, k + 1, today, selected, disabled)
          == DayCell(p.month, p.year, k + 1 - s + 1, today, selected, disabled);
    }
  }

  /** Layout of a page: day 1 sits at 1-based position max(firstDay, 1), the
      days follow without gaps, every other cell is blank, and the whole
      month fits in the 42 cells. */
  lemma PageLayout(p: Page, today: JsDate, selected: Option<JsDate>, disabled: seq<JsDate>)
    requires PageOk(p) && p.MonthOf?
    ensures var cells := ExpectedPage(p, today, selected, disabled);
            var first := FirstWeekday(p.month, p.year);
            var n := GetDaysInMonth(p.month, p.year);
            var s := RunStart(first);
            1 <= s <= 6 && s - 1 + n <= 36 &&
            (forall k :: 0 <= k < GridSize ==> (cells[k].Real? <==> s - 1 <= k < s - 1 + n)) &&
            (forall k :: 0 <= k < GridSize && cells[k].Real? ==> cells[k].day == k - s + 2)
  {
    forall k | 0 <= k < GridSize {
      CellLayout(p, today, selected, disabled, k);
    }
  }

  /** Real cells never have a gap between them and count up by one. */
  lemma PageContiguous(p: Page, today: JsDate, selected: Option<JsDate>, disabled: seq<JsDate>,
                       i: int, j: int)
    requires PageOk(p)
    requires 0 <= i <= j < GridSize
    ensures var cells := ExpectedPage(p, today, selected, disabled);
            cells[i].Real? && cells[j].Real? ==>
              forall k :: i <= k <= j ==> cells[k].Real? && cells[k].day == cells[i].day + (k - i)
  {
    if p.MonthOf? {
      PageLayout(p, today, selected, disabled);
    } else {
      InvalidPageBlank(p, today, selected, disabled);
    }
  }

  /** A NaN month draws 42 blank cells. */
  lemma InvalidPageBlank(p: Page, today: JsDate, selected: Option<JsDate>, disabled: seq<JsDate>)
    requires p.InvalidPage?
    ensures forall k :: 0 <= k < GridSize ==> ExpectedPage(p, today, selected, disabled)[k] == Empty
  {
  }

  /** The real cells are labelled 1, 2, .., days-in-month, in order (none
      at all for an invalid page). */
  lemma PageDays(p: Page, today: JsDate, selected: Option<JsDate>, disabled: seq<JsDate>)
    requires PageOk(p)
    ensures var days := RealDays(ExpectedPage(p, today, selected, disabled));
            if p.InvalidPage? then days == []
            else |days| == GetDaysInMonth(p.month, p.year) && forall k :: 0 <= k < |days| ==> days[k] == k + 1
  {
    var cells := ExpectedPage(p, today, selected, disabled);
    if p.InvalidPage? {
      InvalidPageBlank(p, today, selected, disabled);
      RealDaysOfBlanks(cells);
    } else {
      PageLayout(p, today, selected, disabled);
      var first := FirstWeekday(p.month, p.year);
      RealDaysOfLayout(cells, RunStart(first) - 1, GetDaysInMonth(p.month, p.year));
    }
  }

  /** Cells that hold one run of `n` days numbered from 1 at index `lo`, and
      blanks elsewhere, list the days 1..n. */
  lemma RealDaysOfLayout(cells: seq<Cell>, lo: int, n: int)
    requires 0 <= lo && 0 <= n && lo + n <= |cells|
    requires forall k :: 0 <= k < |cells| ==> (cells[k].Real? <==> lo <= k < lo + n)
    requires forall k :: 0 <= k < |cells| && cells[k].Real? ==> cells[k].day == k - lo + 1
    ensures |RealDays(cells)| == n
    ensures forall k :: 0 <= k < n ==> RealDays(cells)[k] == k + 1
  {
    var hi := lo + n;
    SplitRealDays(cells, lo, hi);
    BlankSlice(cells, 0, lo);
    assert cells[0..lo] == cells[..lo];
    BlankSlice(cells, hi, |cells|);
    assert cells[hi..|cells|] == cells[hi..];
    var run := cells[lo..hi];
    assert forall k :: 0 <= k < |run| ==> run[k] == cells[lo + k];
    RealDaysOfRun(run, 1);
    assert RealDays(cells) == RealDays(run);
  }

  lemma SplitRealDays(cells: seq<Cell>, lo: int, hi: int)
    requires 0 <= lo <= hi <= |cells|
    ensures RealDays(cells) == RealDays(cells[..lo]) + RealDays(cells[lo..hi]) + RealDays(cells[hi..])
  {
    assert cells == cells[..lo] + cells[lo..hi] + cells[hi..];
    RealDaysAppend(cells[..lo], cells[lo..hi]);
    RealDaysAppend(cells[..lo] + cells[lo..hi], cells[hi..]);
  }

  lemma BlankSlice(cells: seq<Cell>, i: int, j: int)
    requires 0 <= i <= j <= |cells|
    requires forall k :: i <= k < j ==> !cells[k].Real?
    ensures RealDays(cells[i..j]) == []
  {
    var part := cells[i..j];
    assert forall k :: 0 <= k < |part| ==> part[k] == cells[i + k];
    RealDaysOfBlanks(part);
  }

  /** Flags of a real cell: today and selection compare the cell's date by
      calendar day, disabled means some listed date is that day, and a click
      handler exists exactly when the day is neither selected nor disabled. */
  lemma PageFlags(p: Page, today: JsDate, selected: Option<JsDate>, disabled: seq<JsDate>, k: int)
    requires PageOk(p) && 0 <= k < GridSize
    requires ExpectedPage(p, today, selected, disabled)[k].Real?
    ensures var c := ExpectedPage(p, today, selected, disabled)[k];
            var y := ToFullYear(p.year);
            p.MonthOf? && ValidYmd(y, p.month, c.day) &&
            (c.isToday <==> today.Date? && today.year == y && today.month == p.month && today.day == c.day) &&
            (c.isSelected <==> selected.Some? && selected.value.Date? && selected.value.year == y &&
                               selected.value.month == p.month && selected.value.day == c.day) &&
            (c.isDisabled <==> exists j :: 0 <= j < |disabled| && IsSameDay(disabled[j], Date(y, p.month, c.day, 0))) &&
            (c.clickable <==> !c.isSelected && !c.isDisabled)
  {
  }

  /** At most one real cell is flagged selected, and at most one today. */
  lemma SelectedAndTodayUnique(p: Page, today: JsDate, selected: Option<JsDate>, disabled: seq<JsDate>,
                               i: int, j: int)
    requires PageOk(p) && 0 <= i < GridSize && 0 <= j < GridSize
    ensures var cells := ExpectedPage(p, today, selected, disabled);
            (cells[i].Real? && cells[j].Real? && cells[i].isSelected && cells[j].isSelected ==> i == j) &&
            (cells[i].Real? && cells[j].Real? && cells[i].isToday && cells[j].isToday ==> i == j)
  {
    var cells := ExpectedPage(p, today, selected, disabled);
    if cells[i].Real? && cells[j].Real? {
      PageFlags(p, today, selected, disabled, i);
      PageFlags(p, today, selected, disabled, j);
      PageLayout(p, today, selected, disabled);
    }
  }

  /** The shipped disabled list holds 5 March 2023; on the March 2023 page
      day 5 (position 7, after two blanks for a Wednesday start) is the only
      disabled day. */
  lemma DefaultDisabledMarch2023(today: JsDate, selected: Option<JsDate>)
    ensures var cells := ExpectedPage(MonthOf(2, 2023), today, selected, [Date(2023, 2, 5, 0)]);
            cells[6].Real? && cells[6].day == 5 && cells[6].isDisabled && !cells[6].clickable &&
            forall k :: 0 <= k < GridSize && cells[k].Real? ==> (cells[k].isDisabled <==> cells[k].day == 5)
  {
    var p := MonthOf(2, 2023);
    var d := Date(2023, 2, 5, 0);
    var cells := ExpectedPage(p, today, selected, [d]);
    March2023Weekday();
    CellLayout(p, today, selected, [d], 6);
    assert cells[6].Real? && cells[6].day == 5;
    forall k | 0 <= k < GridSize && cells[k].Real?
      ensures cells[k].isDisabled <==> cells[k].day == 5
    {
      OneDisabled(p, today, selected, d, k);
    }
    PageFlags(p, today, selected, [d], 6);
  }

  /** With a one-entry disabled list, a real cell is disabled exactly when
      that entry is the cell's day. */
  lemma OneDisabled(p: Page, today: JsDate, selected: Option<JsDate>, d: JsDate, k: int)
    requires PageOk(p) && 0 <= k < GridSize
    requires ExpectedPage(p, today, selected, [d])[k].Real?
    ensures var c := ExpectedPage(p, today, selected, [d])[k];
            p.MonthOf? && (c.isDisabled <==> IsSameDay(d, Date(ToFullYear(p.year), p.month, c.day, 0)))
  {
    PageFlags(p, today, selected, [d], k);
    assert [d][0] == d;
  }
}
