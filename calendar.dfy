/** The date picker's calendar: the month grid of cells with their range and
    disabled flags, its split into weeks, keyboard focus movement, month
    stepping and the selection it emits. The clock (`new Date()`) is a
    parameter, `today`. */
module Calendar {
  import opened Wrappers
  import opened CivilDate
  import opened Arith

  /** `NgccCalendarCell`: a leading blank, or a day of the shown month. */
  datatype Cell =
    | EmptyCell
    | DayCell(day: int, date: Date, isToday: bool, isStart: bool, isEnd: bool,
              inRange: bool, disabled: bool, index: int)

  /** What `buildNgccCalendarCells` reads: the shown month, the selected
      range, the hovered day, the limits, the disabled days and the clock. */
  datatype Grid = Grid(year: int, month0: int, start: Option<Date>, end: Option<Date>,
                       hover: Option<Date>, minDate: Option<Date>, maxDate: Option<Date>,
                       disabledDates: seq<Date>, today: Date)

  /** The `inRange` rule: strictly between start and end, or strictly
      between start and the hovered day, in either order. */
  predicate InRangeFlag(date: Date, start: Option<Date>, end: Option<Date>, hover: Option<Date>) {
    (start.Some? && end.Some? && Before(start.value, date) && Before(date, end.value))
    || (start.Some? && hover.Some? && Before(start.value, hover.value)
        && Before(start.value, date) && Before(date, hover.value))
    || (start.Some? && hover.Some? && Before(hover.value, start.value)
        && Before(hover.value, date) && Before(date, start.value))
  }

  /** The `disabled` rule: before the minimum or after the maximum day,
      both rebuilt with the Date constructor, or the same day as a disabled
      date. */
  predicate DisabledFlag(date: Date, minDate: Option<Date>, maxDate: Option<Date>, disabledDates: seq<Date>) {
    (minDate.Some? && Before(Strip(date), Strip(minDate.value)))
    || (maxDate.Some? && Before(Strip(maxDate.value), Strip(date)))
    || date in disabledDates
  }

  /** `new Date(year, month, 1).getDay()`: the number of leading blanks. */
  function FirstWeekday(g: Grid): int {
    Weekday(MakeDate(g.year, g.month0, 1))
  }

  /** `new Date(year, month + 1, 0).getDate()`: the number of day cells. */
  function MonthLength(g: Grid): int {
    MakeDate(g.year, g.month0 + 1, 0).day
  }

  /** The cell for day `d` of the shown month at position `index`. */
  function DayCellAt(g: Grid, d: int, index: int): Cell {
    var date := MakeDate(g.year, g.month0, d);
    DayCell(d, date, date == g.today, g.start == Some(date), g.end == Some(date),
            InRangeFlag(date, g.start, g.end, g.hover),
            DisabledFlag(date, g.minDate, g.maxDate, g.disabledDates), index)
  }

  /** The grid's cells: leading blanks, then one cell per day. */
  function Cells(g: Grid): seq<Cell> {
    seq(FirstWeekday(g), _ => EmptyCell)
      + seq(MonthLength(g), i => DayCellAt(g, i + 1, FirstWeekday(g) + i))
  }

  /** `buildNgccCalendarCells()`. */
  method BuildCells(g: Grid) returns (cells: seq<Cell>)
    ensures cells == Cells(g)
  {
    var first := MakeDate(g.year, g.month0, 1);
    var last := MakeDate(g.year, g.month0 + 1, 0);
    var firstWeekDay := Weekday(first);
    var totalDays := last.day;
    ghost var spec := Cells(g);
    cells := [];
    for i := 0 to firstWeekDay
      invariant |cells| == i
      invariant forall k :: 0 <= k < i ==> cells[k] == EmptyCell
    {
      cells := cells + [EmptyCell];
    }
    assert cells == spec[..firstWeekDay];
    for d := 1 to totalDays + 1
      invariant |cells| == firstWeekDay + d - 1
      invariant cells == spec[..firstWeekDay + d - 1]
    {
      var cell := BuildDayCell(g, d, |cells|);
      CellAt(g, firstWeekDay + d - 1);
      cells := cells + [cell];
    }
  }

  /** The body of the day loop of `buildNgccCalendarCells`: the cell of day
      `d` with its flags, at position `cellIndex`. */
  method BuildDayCell(g: Grid, d: int, cellIndex: int) returns (cell: Cell)
    ensures cell == DayCellAt(g, d, cellIndex)
  {
    var date := MakeDate(g.year, g.month0, d);
    var isToday := date == g.today;
    var isStart := g.start.Some? && date == g.start.value;
    var isEnd := g.end.Some? && date == g.end.value;
    var inRange := false;
    if g.start.Some? && g.end.Some? && Before(g.start.value, date) && Before(date, g.end.value) {
      inRange := true;
    }
    if g.start.Some? && g.hover.Some? {
      if Before(g.start.value, g.hover.value) && Before(g.start.value, date) && Before(date, g.hover.value) {
        inRange := true;
      }
      if Before(g.hover.value, g.start.value) && Before(g.hover.value, date) && Before(date, g.start.value) {
        inRange := true;
      }
    }
    var disabled := false;
    if g.minDate.Some? && Before(Strip(date), Strip(g.minDate.value)) {
      disabled := true;
    }
    if g.maxDate.Some? && Before(Strip(g.maxDate.value), Strip(date)) {
      disabled := true;
    }
    if date in g.disabledDates {
      disabled := true;
    }
    cell := DayCell(d, date, isToday, isStart, isEnd, inRange, disabled, cellIndex);
  }

  lemma CellAt(g: Grid, i: int)
    requires 0 <= i < |Cells(g)|
    ensures |Cells(g)| == FirstWeekday(g) + MonthLength(g)
    ensures Cells(g)[i] == if i < FirstWeekday(g) then EmptyCell else DayCellAt(g, i - FirstWeekday(g) + 1, i)
  {
    var days := seq(MonthLength(g), i => DayCellAt(g, i + 1, FirstWeekday(g) + i));
    if i >= FirstWeekday(g) {
      assert Cells(g)[i] == days[i - FirstWeekday(g)];
    }
  }

  /** The fields of a day cell other than its flags. */
  lemma DayCellFields(g: Grid, d: int, index: int)
    ensures var c := DayCellAt(g, d, index);
      c.DayCell? && c.day == d && c.index == index && c.date == MakeDate(g.year, g.month0, d)
  {
  }

  /** Position `i` of the grid, past the leading blanks, holds day
      `i - lead + 1` of the shown month. */
  lemma DayPosition(g: Grid, i: int)
    requires 0 <= g.month0 < 12
    requires FirstWeekday(g) <= i < |Cells(g)|
    ensures var cy := ConstructorYear(g.year);
      var lead := FirstWeekday(g);
      var c := Cells(g)[i];
      && c.DayCell?
      && c.index == i
      && c.day == i - lead + 1
      && c.date == Date(cy, g.month0, i - lead + 1)
  {
    var lead := FirstWeekday(g);
    CellAt(g, i);
    DayCellFields(g, i - lead + 1, i);
    MakeDateLastDay(g.year, g.month0);
    MakeDateInMonth(g.year, g.month0, i - lead + 1);
  }

  /** For a month index in 0..11: `weekday(first of month)` blanks, then
      exactly one cell per day of the month, numbered from 1, each carrying
      its own position as `index` and its date in the shown month (of the
      constructor-adjusted year). */
  lemma CellsLayout(g: Grid)
    requires 0 <= g.month0 < 12
    ensures var cy := ConstructorYear(g.year);
      var lead := FirstWeekday(g);
      var cells := Cells(g);
      && lead == Weekday(Date(cy, g.month0, 1))
      && |cells| == lead + DaysInMonth(cy, g.month0)
      && (forall i :: 0 <= i < lead ==> cells[i] == EmptyCell)
      && (forall i :: lead <= i < |cells| ==>
            && cells[i].DayCell?
            && cells[i].index == i
            && cells[i].day == i - lead + 1
            && cells[i].date == Date(cy, g.month0, i - lead + 1))
  {
    var cy := ConstructorYear(g.year);
    MakeDateInMonth(g.year, g.month0, 1);
    MakeDateLastDay(g.year, g.month0);
    var lead := FirstWeekday(g);
    var cells := Cells(g);
    assert |cells| == lead + DaysInMonth(cy, g.month0);
    forall i | 0 <= i < lead
      ensures cells[i] == EmptyCell
    {
      CellAt(g, i);
    }
    forall i | lead <= i < |cells|
      ensures && cells[i].DayCell?
        && cells[i].index == i
        && cells[i].day == i - lead + 1
        && cells[i].date == Date(cy, g.month0, i - lead + 1)
    {
      DayPosition(g, i);
    }
  }

  /** Day `k` of the month sits at position `lead + k - 1` (by the layout
      above), which is in the column of its weekday, Sunday first, so the
      weeks built from the cells line up with the weekday header. */
  lemma CellColumnIsWeekday(g: Grid, k: int)
    requires 0 <= g.month0 < 12
    requires 1 <= k <= DaysInMonth(ConstructorYear(g.year), g.month0)
    ensures (FirstWeekday(g) + k - 1) % 7 == Weekday(Date(ConstructorYear(g.year), g.month0, k))
  {
    var cy := ConstructorYear(g.year);
    MakeDateInMonth(g.year, g.month0, 1);
    var first := DayNumber(Date(cy, g.month0, 1));
    var dn := DayNumber(Date(cy, g.month0, k));
    assert dn + 6 == (first + 6) + (k - 1);
    assert FirstWeekday(g) == (first + 6) % 7;
    ModShift(first + 6, k - 1);
    assert Weekday(Date(cy, g.month0, k)) == (dn + 6) % 7;
  }

  predicate StrictlyBetween(a: Date, b: Date, x: Date)
    requires ValidDate(a) && ValidDate(b) && ValidDate(x)
  {
    DayNumber(a) < DayNumber(x) < DayNumber(b)
  }

  predicate ValidOption(d: Option<Date>) {
    d.Some? ==> ValidDate(d.value)
  }

  /** `inRange` in terms of day numbers: strictly inside the selected
      range, or strictly between the start and the hovered day in either
      order; no other day is highlighted. */
  lemma InRangeMeaning(date: Date, start: Option<Date>, end: Option<Date>, hover: Option<Date>)
    requires ValidDate(date) && ValidOption(start) && ValidOption(end) && ValidOption(hover)
    ensures InRangeFlag(date, start, end, hover) <==>
      start.Some? &&
      ((end.Some? && StrictlyBetween(start.value, end.value, date))
       || (hover.Some? && (StrictlyBetween(start.value, hover.value, date)
                           || StrictlyBetween(hover.value, start.value, date))))
  {
    if start.Some? {
      BeforeIsDayNumberOrder(start.value, date);
      BeforeIsDayNumberOrder(date, start.value);
      if end.Some? {
        BeforeIsDayNumberOrder(date, end.value);
      }
      if hover.Some? {
        BeforeIsDayNumberOrder(date, hover.value);
        BeforeIsDayNumberOrder(hover.value, date);
        BeforeIsDayNumberOrder(start.value, hover.value);
        BeforeIsDayNumberOrder(hover.value, start.value);
      }
    }
  }

  /** The start day is never highlighted as in range, and without a hovered
      day neither is the end day. */
  lemma RangeEndpointsNotInRange(date: Date, start: Option<Date>, end: Option<Date>, hover: Option<Date>)
    requires ValidDate(date) && ValidOption(start) && ValidOption(end) && ValidOption(hover)
    ensures start == Some(date) ==> !InRangeFlag(date, start, end, hover)
    ensures end == Some(date) && hover.None? ==> !InRangeFlag(date, start, end, hover)
  {
    InRangeMeaning(date, start, end, hover);
  }

  /** `disabled` in terms of day numbers: outside `[min, max]` by day once
      both days are rebuilt by the Date constructor, or the same day as one
      of the disabled dates. */
  lemma DisabledMeaning(date: Date, minDate: Option<Date>, maxDate: Option<Date>, disabledDates: seq<Date>)
    requires ValidDate(date)
    ensures DisabledFlag(date, minDate, maxDate, disabledDates) <==>
      (minDate.Some? && DayNumber(Strip(date)) < DayNumber(Strip(minDate.value)))
      || (maxDate.Some? && DayNumber(Strip(maxDate.value)) < DayNumber(Strip(date)))
      || date in disabledDates
  {
    if minDate.Some? {
      BeforeIsDayNumberOrder(Strip(date), Strip(minDate.value));
    }
    if maxDate.Some? {
      BeforeIsDayNumberOrder(Strip(maxDate.value), Strip(date));
    }
  }

  /** For days of years outside 0..99, which every grid day is, the
      rebuilding changes nothing and `disabled` compares the days themselves. */
  lemma DisabledByDay(date: Date, minDate: Option<Date>, maxDate: Option<Date>, disabledDates: seq<Date>)
    requires ValidDate(date) && ValidOption(minDate) && ValidOption(maxDate)
    requires !(0 <= date.year <= 99)
    requires minDate.Some? ==> !(0 <= minDate.value.year <= 99)
    requires maxDate.Some? ==> !(0 <= maxDate.value.year <= 99)
    ensures DisabledFlag(date, minDate, maxDate, disabledDates) <==>
      (minDate.Some? && DayNumber(date) < DayNumber(minDate.value))
      || (maxDate.Some? && DayNumber(maxDate.value) < DayNumber(date))
      || date in disabledDates
  {
    DisabledMeaning(date, minDate, maxDate, disabledDates);
    StripIdentity(date);
    if minDate.Some? {
      StripIdentity(minDate.value);
    }
    if maxDate.Some? {
      StripIdentity(maxDate.value);
    }
  }

  /** The cells of a list of weeks, in order. */
  function Flatten(rows: seq<seq<Cell>>): seq<Cell> {
    if rows == [] then [] else Flatten(rows[..|rows| - 1]) + rows[|rows| - 1]
  }

  /** `weeks`: the cells in rows of seven, the last row possibly shorter. */
  method Weeks(cells: seq<Cell>) returns (rows: seq<seq<Cell>>)
    ensures Flatten(rows) == cells
    ensures |rows| == (|cells| + 6) / 7
    ensures forall k :: 0 <= k < |rows| - 1 ==> |rows[k]| == 7
    ensures forall k :: 0 <= k < |rows| ==> 1 <= |rows[k]| <= 7
  {
    rows := [];
    var i := 0;
    while i < |cells|
      invariant i == 7 * |rows|
      invariant i <= |cells| || (|cells| > 0 && i - 7 < |cells|)
      invariant Flatten(rows) == cells[..Min(i, |cells|)]
      invariant forall k :: 0 <= k < |rows| - 1 ==> |rows[k]| == 7
      invariant forall k :: 0 <= k < |rows| ==> 1 <= |rows[k]| <= 7
      invariant |rows| > 0 && i < |cells| ==> |rows[|rows| - 1]| == 7
      decreases |cells| - i
    {
      var row := cells[i..Min(i + 7, |cells|)];
      assert cells[..Min(i + 7, |cells|)] == cells[..i] + row;
      ghost var before := rows;
      rows := rows + [row];
      assert rows[..|rows| - 1] == before;
      i := i + 7;
    }
  }

  /** The keys the calendar handles. */
  datatype Key = Escape | ArrowLeft | ArrowRight | ArrowUp | ArrowDown
               | PageUp | PageDown | Home | End | Enter | OtherKey

  predicate MovesFocus(key: Key) {
    key == ArrowLeft || key == ArrowRight || key == ArrowUp || key == ArrowDown
    || key == Home || key == End
  }

  /** The focus target before clamping: a day, a week, or the start or end
      of the focused index's row of seven. */
  function RawTarget(idx: int, key: Key): int
    requires idx >= 0 && MovesFocus(key)
  {
    match key
    case ArrowLeft => idx - 1
    case ArrowRight => idx + 1
    case ArrowUp => idx - 7
    case ArrowDown => idx + 7
    case Home => idx - idx % 7
    case End => idx + (6 - idx % 7)
  }

  /** The focus after a moving key: the target clamped to the cells,
      `Math.max(0, Math.min(len - 1, target))`. */
  function MovedFocus(idx: int, key: Key, len: int): (r: int)
    requires idx >= 0 && MovesFocus(key)
    ensures r >= 0 && (len >= 1 ==> r < len)
    ensures 0 <= RawTarget(idx, key) < len ==> r == RawTarget(idx, key)
    ensures (key == Home || key == End) && idx < len ==> r / 7 == idx / 7
    ensures key == Home && idx < len ==> r % 7 == 0
    ensures key == End && idx < len ==> r % 7 == 6 || r == len - 1
  {
    Max(0, Min(len - 1, RawTarget(idx, key)))
  }

  /** `select(cell)`: only a non-empty, enabled cell emits its date. */
  function SelectEmission(cell: Cell): (r: Option<Date>)
    ensures r.Some? <==> cell.DayCell? && !cell.disabled
    ensures r.Some? ==> r.value == cell.date
  {
    if cell.EmptyCell? || cell.disabled then None else Some(cell.date)
  }

  /** Enter on the cell at `idx`: its date when the cell exists, is a day
      and is enabled, else nothing. */
  function EnterEvent(cells: seq<Cell>, idx: int): (ev: CalendarEvent)
    requires idx >= 0
    ensures ev != Closed
    ensures ev.Selected? <==> idx < |cells| && cells[idx].DayCell? && !cells[idx].disabled
    ensures ev.Selected? ==> ev.date == cells[idx].date
  {
    if idx < |cells| && SelectEmission(cells[idx]).Some? then Selected(SelectEmission(cells[idx]).value)
    else NoEvent
  }

  /** The calendar state a key press acts on and produces. */
  datatype KeyStep = KeyStep(ev: CalendarEvent, focus: Option<int>, year: int, month0: int)

  /** `handleKey(event)` on the focus and shown month, given the cells of
      that month. */
  function KeyOutcome(key: Key, focus: Option<int>, year: int, month0: int, cells: seq<Cell>): (r: KeyStep)
    requires 0 <= month0 < 12 && (focus.Some? ==> focus.value >= 0)
    ensures 0 <= r.month0 < 12 && (r.focus.Some? ==> r.focus.value >= 0)
    ensures r.focus.None? <==> focus.None?
  {
    if key == Escape then KeyStep(Closed, focus, year, month0)
    else if focus.None? then KeyStep(NoEvent, focus, year, month0)
    else if key == PageUp then
      var prev := CivilDate.PrevMonth(year, month0);
      KeyStep(NoEvent, focus, prev.0, prev.1)
    else if key == PageDown then
      var next := CivilDate.NextMonth(year, month0);
      KeyStep(NoEvent, focus, next.0, next.1)
    else if key == Enter then KeyStep(EnterEvent(cells, focus.value), focus, year, month0)
    else if MovesFocus(key) then KeyStep(NoEvent, Some(MovedFocus(focus.value, key, |cells|)), year, month0)
    else KeyStep(NoEvent, focus, year, month0)
  }

  /** Escape, and only Escape, closes the calendar; it, a key with no
      focus and an unhandled key leave the focus and the month alone. */
  lemma KeyOutcomeCloses(key: Key, focus: Option<int>, year: int, month0: int, cells: seq<Cell>)
    requires 0 <= month0 < 12
    requires focus.Some? ==> focus.value >= 0
    ensures var r := KeyOutcome(key, focus, year, month0, cells);
      (r.ev == Closed <==> key == Escape)
      && (key == Escape || focus.None? || key == OtherKey ==>
            r.focus == focus && r.year == year && r.month0 == month0)
      && (key != Escape && focus.None? ==> r.ev == NoEvent)
  {
  }

  /** A moving key keeps the month and puts the focus on an existing cell. */
  lemma KeyOutcomeMoves(key: Key, focus: Option<int>, year: int, month0: int, cells: seq<Cell>)
    requires 0 <= month0 < 12
    requires focus.Some? && focus.value >= 0 && MovesFocus(key) && cells != []
    ensures var r := KeyOutcome(key, focus, year, month0, cells);
      r.ev == NoEvent && r.year == year && r.month0 == month0
      && r.focus.Some? && 0 <= r.focus.value < |cells|
  {
  }

  /** The page keys step the shown month by one and keep the focus index. */
  lemma KeyOutcomePages(key: Key, focus: Option<int>, year: int, month0: int, cells: seq<Cell>)
    requires focus.Some? && focus.value >= 0 && (key == PageUp || key == PageDown)
    requires 0 <= month0 < 12
    ensures var r := KeyOutcome(key, focus, year, month0, cells);
      r.ev == NoEvent && r.focus == focus && 0 <= r.month0 < 12
      && (key == PageUp ==> r.year * 12 + r.month0 == year * 12 + month0 - 1)
      && (key == PageDown ==> r.year * 12 + r.month0 == year * 12 + month0 + 1)
  {
  }

  /** Enter selects the focused day exactly when that cell is an enabled
      day, and then emits its date. */
  lemma KeyOutcomeEnter(focus: Option<int>, year: int, month0: int, cells: seq<Cell>)
    requires 0 <= month0 < 12
    requires focus.Some? && focus.value >= 0
    ensures var r := KeyOutcome(Enter, focus, year, month0, cells);
      var i := focus.value;
      r.focus == focus && r.year == year && r.month0 == month0
      && (r.ev.Selected? <==> i < |cells| && cells[i].DayCell? && !cells[i].disabled)
      && (r.ev.Selected? ==> r.ev.date == cells[i].date)
  {
  }

  /** The index `findIndex` returns for the first enabled cell of today, if
      any, searching from `from`. */
  function TodayIndexFrom(cells: seq<Cell>, from: nat): (r: Option<int>)
    requires from <= |cells|
    ensures r.Some? ==> from <= r.value < |cells| && IsTodayCell(cells[r.value])
    ensures r.Some? ==> forall j :: from <= j < r.value ==> !IsTodayCell(cells[j])
    ensures r.None? ==> forall j :: from <= j < |cells| ==> !IsTodayCell(cells[j])
    decreases |cells| - from
  {
    if from == |cells| then None
    else if IsTodayCell(cells[from]) then Some(from)
    else TodayIndexFrom(cells, from + 1)
  }

  predicate IsTodayCell(c: Cell) {
    c.DayCell? && c.isToday && !c.disabled
  }

  /** What a key press emits. */
  datatype CalendarEvent = NoEvent | Closed | Selected(date: Date)

  class DatePickerCalendar {
    var currentYear: int
    var currentMonth: int
    var focusedIndex: Option<int>
    var hoverDate: Option<Date>
    var startDate: Option<Date>
    var endDate: Option<Date>
    var minDate: Option<Date>
    var maxDate: Option<Date>
    var disabledDates: seq<Date>

    /** The month index stays in 0..11 and a focus index is never negative. */
    ghost predicate Valid()
      reads this`currentMonth, this`focusedIndex
    {
      0 <= currentMonth < 12 && (focusedIndex.Some? ==> focusedIndex.value >= 0)
    }

    /** The grid the component shows at the moment `today`. */
    function GridAt(today: Date): Grid
      reads this`currentYear, this`currentMonth, this`startDate, this`endDate, this`hoverDate
      reads this`minDate, this`maxDate, this`disabledDates
    {
      Grid(currentYear, currentMonth, startDate, endDate, hoverDate, minDate, maxDate, disabledDates, today)
    }

    /** The component with its inputs set, after `ngOnInit`: the shown month
        is that of the start date, else of the end date, else of today, and
        the focus is on today's enabled cell when the month shows one. */
    constructor (startDate: Option<Date>, endDate: Option<Date>, minDate: Option<Date>,
                 maxDate: Option<Date>, disabledDates: seq<Date>, today: Date)
      requires ValidOption(startDate) && ValidOption(endDate) && ValidDate(today)
      ensures Valid()
      ensures this.startDate == startDate && this.endDate == endDate && this.minDate == minDate
      ensures this.maxDate == maxDate && this.disabledDates == disabledDates && hoverDate == None
      ensures var shown := if startDate.Some? then startDate.value
                           else if endDate.Some? then endDate.value else today;
        currentYear == shown.year && currentMonth == shown.month0
      ensures focusedIndex == TodayIndexFrom(Cells(GridAt(today)), 0)
    {
      this.startDate := startDate;
      this.endDate := endDate;
      this.minDate := minDate;
      this.maxDate := maxDate;
      this.disabledDates := disabledDates;
      hoverDate := None;
      var shown := if startDate.Some? then startDate.value
                   else if endDate.Some? then endDate.value else today;
      currentYear := shown.year;
      currentMonth := shown.month0;
      new;
      var cells := BuildCells(GridAt(today));
      focusedIndex := TodayIndexFrom(cells, 0);
    }

    /** `prevMonth()`. */
    method PrevMonth()
      requires Valid()
      modifies this`currentMonth, this`currentYear
      ensures Valid()
      ensures (currentYear, currentMonth) == CivilDate.PrevMonth(old(currentYear), old(currentMonth))
    {
      var m := currentMonth - 1;
      var y := currentYear;
      if m < 0 {
        m := 11;
        y := y - 1;
      }
      currentMonth := m;
      currentYear := y;
    }

    /** `nextMonth()`. */
    method NextMonth()
      requires Valid()
      modifies this`currentMonth, this`currentYear
      ensures Valid()
      ensures (currentYear, currentMonth) == CivilDate.NextMonth(old(currentYear), old(currentMonth))
    {
      var m := currentMonth + 1;
      var y := currentYear;
      if m > 11 {
        m := 0;
        y := y + 1;
      }
      currentMonth := m;
      currentYear := y;
    }

    /** `handleKey(event)` at the moment `today`. */
    method HandleKey(key: Key, today: Date) returns (ev: CalendarEvent)
      requires Valid()
      modifies this`focusedIndex, this`currentMonth, this`currentYear
      ensures Valid()
      ensures KeyStep(ev, focusedIndex, currentYear, currentMonth)
           == KeyOutcome(key, old(focusedIndex), old(currentYear), old(currentMonth), Cells(old(GridAt(today))))
    {
      if key == Escape {
        return Closed;
      }
      ev := NoEvent;
      if focusedIndex.None? {
        return;
      }
      if key == PageUp {
        PrevMonth();
      } else if key == PageDown {
        NextMonth();
      } else if key == Enter || MovesFocus(key) {
        ev := HandleFocusedKey(key, today);
      }
    }

    /** `handleKey(event)` past its guards, for a key that acts on the
        focused cell: Enter or a moving key. */
    method HandleFocusedKey(key: Key, today: Date) returns (ev: CalendarEvent)
      requires Valid() && focusedIndex.Some? && (key == Enter || MovesFocus(key))
      modifies this`focusedIndex
      ensures Valid()
      ensures MovesFocus(key) ==>
        ev == NoEvent
        && focusedIndex == Some(MovedFocus(old(focusedIndex).value, key, |Cells(GridAt(today))|))
      ensures key == Enter ==>
        focusedIndex == old(focusedIndex) && ev == EnterEvent(Cells(GridAt(today)), focusedIndex.value)
    {
      ev := NoEvent;
      if key == Enter {
        ev := Activate(today);
      } else {
        MoveFocus(key, today);
      }
    }

    /** The moving keys of `handleKey`: the focus goes to the clamped target. */
    method MoveFocus(key: Key, today: Date)
      requires Valid() && focusedIndex.Some? && MovesFocus(key)
      modifies this`focusedIndex
      ensures Valid()
      ensures focusedIndex == Some(MovedFocus(old(focusedIndex).value, key, |Cells(GridAt(today))|))
    {
      var idx := focusedIndex.value;
      var newIdx := RawTarget(idx, key);
      var cells := BuildCells(GridAt(today));
      newIdx := Max(0, Min(|cells| - 1, newIdx));
      focusedIndex := Some(newIdx);
    }

    /** Enter in `handleKey`: selects the focused cell when it exists, is not
        blank and is enabled. */
    method Activate(today: Date) returns (ev: CalendarEvent)
      requires Valid() && focusedIndex.Some?
      ensures ev == EnterEvent(Cells(GridAt(today)), focusedIndex.value)
    {
      ev := NoEvent;
      var idx := focusedIndex.value;
      var cells := BuildCells(GridAt(today));
      if idx < |cells| {
        var emitted := SelectEmission(cells[idx]);
        if emitted.Some? {
          ev := Selected(emitted.value);
        }
      }
    }

    /** `setHover(d)`. */
    method SetHover(d: Option<Date>)
      modifies this`hoverDate
      ensures hoverDate == d
    {
      hoverDate := d;
    }

    /** `clearHover()`. */
    method ClearHover()
      modifies this`hoverDate
      ensures hoverDate == None
    {
      hoverDate := None;
    }

    /** `goToToday()` at the moment `today`: shows today's month and focuses
        today's cell when it is enabled, keeping the old focus otherwise. */
    method GoToToday(today: Date)
      requires Valid() && ValidDate(today)
      modifies this`currentMonth, this`currentYear, this`focusedIndex
      ensures Valid()
      ensures currentYear == today.year && currentMonth == today.month0
      ensures var found := TodayIndexFrom(Cells(GridAt(today)), 0);
        focusedIndex == (if found.Some? then found else old(focusedIndex))
    {
      currentMonth := today.month0;
      currentYear := today.year;
      var cells := BuildCells(GridAt(today));
      var found := TodayIndexFrom(cells, 0);
      if found.Some? {
        focusedIndex := found;
      }
    }
  }
}
