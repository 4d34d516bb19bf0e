/** The month grid the component renders: `getMonthDaysWithPadding`, which
    puts one blank cell before the first of the month for every weekday that
    precedes it in a Monday-first week and then one cell per day, and the
    render map that turns each date cell into a day key, that day's tasks
    and an `isToday` flag. The grid is laid out in seven columns headed
    Mon..Sun, so cell `j` lands in column `j % 7`. */
module MonthGrid {
  import opened Wrappers
  import opened Gregorian
  import opened DayKeys
  import opened TaskStore

  /** Column headings of the grid, Monday first. */
  const DayNames: seq<string> := ["Mon", "Tue", "Wed", "Thu", "Fri", "Sat", "Sun"]

  /** The same names in the Sunday-first order of the weekday getDay reports. */
  const WeekDayNames: seq<string> := ["Sun", "Mon", "Tue", "Wed", "Thu", "Fri", "Sat"]

  /** Blank cells before the first of month `m` of year `y`: its Monday-first weekday. */
  function Padding(y: int, m: int): (pad: int)
    requires 0 <= m < 12
    ensures 0 <= pad < 7
  {
    (WeekDay(Date(y, m, 1)) + 6) % 7
  }

  /** `n` blank cells. */
  function Blanks(n: nat): seq<Option<Date>> {
    seq(n, _ => None)
  }

  /** Cells for days 1..n of month `m` of year `y`, taken as they are. */
  function Days(y: int, m: int, n: nat): seq<Option<Date>> {
    seq(n, i => Some(Date(y, m, i + 1)))
  }

  /** Cells for days 1..n as `new Date(y, m, i + 1)` builds them. */
  function BuiltDays(y: int, m: int, n: nat): seq<Option<Date>> {
    seq(n, i => Some(NewDate(y, m, i + 1)))
  }

  /** The grid of month `m` of year `y` behind `pad` blank cells: the
      blanks, then one cell for each day from 1 to the month's last day. */
  function Layout(pad: nat, y: int, m: int): (cells: seq<Option<Date>>)
    requires 0 <= m < 12
  {
    Blanks(pad) + Days(y, m, DaysInMonth(y, m))
  }

  /** `(firstDayOfMonth.getDay() + 6) % 7` for `new Date(y, m, 1)`: the
      padding of month `m` in the constructor's year. */
  function FirstDayIndex(y: int, m: int): (idx: int)
    requires 0 <= m < 12
    ensures idx == Padding(ConstructorYear(y), m)
  {
    FirstDayPadding(y, m);
    (WeekDay(NewDate(y, m, 1)) + 6) % 7
  }

  /** `new Date(y, m + 1, 0).getDate()`: the length of month `m` in the
      constructor's year. */
  function DaysInMonthOf(y: int, m: int): (n: int)
    requires 0 <= m < 12
    ensures n == DaysInMonth(ConstructorYear(y), m)
  {
    NewDateDayZero(y, m);
    NewDate(y, m + 1, 0).day
  }

  /** getMonthDaysWithPadding: the blanks and the days of the month holding
      `date`, found as the source finds them: the weekday of the first of
      the month, and the length of the month read off day 0 of the next one.
      The result is the layout of that month behind its Monday-first padding,
      in the year the Date constructor makes of `date.year`: the same year,
      except that years 0 to 99 give the month of 1900 to 1999. */
  function MonthDaysWithPadding(date: Date): (cells: seq<Option<Date>>)
    requires Valid(date)
    ensures var y := ConstructorYear(date.year);
            cells == Layout(Padding(y, date.month), y, date.month)
  {
    var daysInMonth := DaysInMonthOf(date.year, date.month);
    var firstDayIndex := FirstDayIndex(date.year, date.month);
    BuiltDaysOfMonth(date.year, date.month);
    Blanks(firstDayIndex) + BuiltDays(date.year, date.month, daysInMonth)
  }

  /** The first of the month is built as it is, so its weekday gives the padding. */
  lemma FirstDayPadding(y: int, m: int)
    requires 0 <= m < 12
    ensures (WeekDay(NewDate(y, m, 1)) + 6) % 7 == Padding(ConstructorYear(y), m)
  {
    NewDateInRange(y, m, 1);
  }

  /** Every day of the month is built as it is. */
  lemma BuiltDaysOfMonth(y: int, m: int)
    requires 0 <= m < 12
    ensures var cy := ConstructorYear(y);
            BuiltDays(y, m, DaysInMonth(cy, m)) == Days(cy, m, DaysInMonth(cy, m))
  {
    var cy := ConstructorYear(y);
    var n := DaysInMonth(cy, m);
    forall i | 0 <= i < n
      ensures BuiltDays(y, m, n)[i] == Days(cy, m, n)[i]
    {
      NewDateInRange(y, m, i + 1);
    }
  }

  /** The grid is `pad` blanks followed by day `j - pad + 1` at cell `j`,
      up to the month's last day. */
  lemma LayoutCells(pad: nat, y: int, m: int)
    requires 0 <= m < 12
    ensures var cells := Layout(pad, y, m);
            && |cells| == pad + DaysInMonth(y, m)
            && (forall j :: 0 <= j < pad ==> cells[j] == None)
            && (forall j :: pad <= j < |cells| ==> cells[j] == Some(Date(y, m, j - pad + 1)))
  {
  }

  /** Heading `(w + 6) % 7` names the weekday that getDay numbers `w`. */
  lemma HeadingNamesWeekDay(w: int)
    requires 0 <= w < 7
    ensures DayNames[(w + 6) % 7] == WeekDayNames[w]
  {
  }

  /** Every date cell of the month's grid sits in the column of its weekday:
      cell `j` holds a date whose Monday-first weekday is `j % 7`, under the
      heading naming that weekday. */
  lemma ColumnAlignment(y: int, m: int, j: int)
    requires 0 <= m < 12
    requires 0 <= j < |Layout(Padding(y, m), y, m)| && Layout(Padding(y, m), y, m)[j].Some?
    ensures var d := Layout(Padding(y, m), y, m)[j].value;
            Valid(d) && (WeekDay(d) + 6) % 7 == j % 7 && DayNames[j % 7] == WeekDayNames[WeekDay(d)]
  {
    var pad := Padding(y, m);
    LayoutCells(pad, y, m);
    var d := Layout(pad, y, m)[j].value;
    assert d == Date(y, m, 1 + (j - pad));
    WeekDayOfDay(y, m, j - pad);
    HeadingNamesWeekDay(WeekDay(d));
  }

  /** Day `1 + i` of a month falls in column `(Padding + i) % 7`. */
  lemma WeekDayOfDay(y: int, m: int, i: int)
    requires 0 <= m < 12
    ensures (WeekDay(Date(y, m, 1 + i)) + 6) % 7 == (Padding(y, m) + i) % 7
  {
    DaysOfMonthCount(y, m, i);
    var a := WeekDay(Date(y, m, 1));
    ModSevenSum(a + i, 6);
    ModSevenSum(a + 6, i);
  }

  /** The date cells are consecutive days: two cells `k` apart hold dates
      `k` days apart, so later cells hold later dates. */
  lemma DatesIncrease(pad: nat, y: int, m: int, j1: int, j2: int)
    requires 0 <= m < 12
    requires 0 <= j1 < j2 < |Layout(pad, y, m)|
    requires Layout(pad, y, m)[j1].Some? && Layout(pad, y, m)[j2].Some?
    ensures var d1, d2 := Layout(pad, y, m)[j1].value, Layout(pad, y, m)[j2].value;
            DayNumber(d2) == DayNumber(d1) + (j2 - j1) && Before(d1, d2)
  {
    LayoutCells(pad, y, m);
  }

  /** Every date cell of `grid` is a valid date. */
  predicate ValidCells(grid: seq<Option<Date>>) {
    forall j :: 0 <= j < |grid| && grid[j].Some? ==> Valid(grid[j].value)
  }

  lemma LayoutValid(pad: nat, y: int, m: int)
    requires 0 <= m < 12
    ensures ValidCells(Layout(pad, y, m))
  {
    LayoutCells(pad, y, m);
  }

  /** Distinct date cells have distinct day keys. */
  lemma DayKeysDistinct(pad: nat, y: int, m: int)
    requires 0 <= m < 12
    ensures var cells := Layout(pad, y, m);
            forall j1, j2 :: 0 <= j1 < j2 < |cells| && cells[j1].Some? && cells[j2].Some? ==>
              Valid(cells[j1].value) && Valid(cells[j2].value) && DayKey(cells[j1].value) != DayKey(cells[j2].value)
  {
    var cells := Layout(pad, y, m);
    LayoutCells(pad, y, m);
    forall j1, j2 | 0 <= j1 < j2 < |cells| && cells[j1].Some? && cells[j2].Some?
      ensures Valid(cells[j1].value) && Valid(cells[j2].value) && DayKey(cells[j1].value) != DayKey(cells[j2].value)
    {
      DayKeyInjective(cells[j1].value, cells[j2].value);
    }
  }

  /** Today's date occupies a cell exactly when it is in the displayed
      month, and then exactly one cell. */
  lemma TodayInGrid(pad: nat, y: int, m: int, today: Date)
    requires 0 <= m < 12 && Valid(today)
    ensures var cells := Layout(pad, y, m);
            && (forall j1, j2 :: 0 <= j1 < |cells| && 0 <= j2 < |cells| &&
                  cells[j1] == Some(today) && cells[j2] == Some(today)
                  ==> j1 == j2)
            && ((exists j :: 0 <= j < |cells| && cells[j] == Some(today))
                <==> today.year == y && today.month == m)
  {
    var cells := Layout(pad, y, m);
    LayoutCells(pad, y, m);
    if today.year == y && today.month == m {
      var j := pad + today.day - 1;
      assert cells[j] == Some(today);
    }
  }

  /** One rendered cell: its day key, that day's tasks and whether it is today. */
  datatype DisplayCell = DisplayCell(day: string, tasks: seq<string>, isToday: bool)

  /** `daysToDisplay.map(...)`: a blank stays blank; a date becomes its day
      key, the tasks the store holds under that key (none when it has no
      entry) and whether it is `today`, the date read from the clock. */
  function Render(store: Store, today: Date, grid: seq<Option<Date>>): (cells: seq<Option<DisplayCell>>)
    requires ValidCells(grid)
    ensures |cells| == |grid|
  {
    seq(|grid|, j requires 0 <= j < |grid| =>
      match grid[j]
      case None => None
      case Some(day) =>
        var dayStr := DayKey(day);
        Some(DisplayCell(dayStr, Lookup(store, dayStr), day == today)))
  }

  /** Rendering keeps blanks where the grid has them. A date becomes the
      cell of its own day key, flagged as today exactly when it is today,
      holding the list the store keeps under that key, or no tasks when the
      store has no entry for it. */
  lemma RenderShape(store: Store, today: Date, grid: seq<Option<Date>>)
    requires ValidCells(grid)
    ensures var cells := Render(store, today, grid);
            forall j :: 0 <= j < |grid| ==>
              && (cells[j].None? <==> grid[j].None?)
              && (grid[j].Some? ==>
                    var d := grid[j].value;
                    && cells[j] == Some(DisplayCell(DayKey(d), Lookup(store, DayKey(d)), d == today))
                    && (DayKey(d) in store ==> cells[j].value.tasks == store[DayKey(d)])
                    && (DayKey(d) !in store ==> cells[j].value.tasks == []))
  {
  }

  /** A rendered cell is marked as today exactly when its grid cell holds today's date. */
  lemma RenderTodayCells(store: Store, today: Date, grid: seq<Option<Date>>)
    requires ValidCells(grid)
    ensures var cells := Render(store, today, grid);
            forall j :: 0 <= j < |grid| ==>
              (cells[j].Some? && cells[j].value.isToday <==> grid[j] == Some(today))
  {
  }

  /** Every rendered day key is well formed, so a handler reached from a
      rendered cell adds to the store only under a day key. */
  lemma RenderedKeysWellFormed(store: Store, today: Date, grid: seq<Option<Date>>)
    requires ValidCells(grid)
    ensures var cells := Render(store, today, grid);
            forall j :: 0 <= j < |cells| && cells[j].Some? ==> IsDayKey(cells[j].value.day)
  {
    var cells := Render(store, today, grid);
    forall j | 0 <= j < |cells| && cells[j].Some?
      ensures IsDayKey(cells[j].value.day)
    {
      IsDayKeyIffKeyOfDate(cells[j].value.day);
    }
  }

  /** The rendered month shows each day key once: the keys of its day
      cells, as computed from the local calendar date, are distinct. */
  lemma RenderedKeysDistinct(store: Store, today: Date, pad: nat, y: int, m: int)
    requires 0 <= m < 12
    ensures ValidCells(Layout(pad, y, m))
    ensures var cells := Render(store, today, Layout(pad, y, m));
            forall j1, j2 :: 0 <= j1 < j2 < |cells| && cells[j1].Some? && cells[j2].Some? ==>
              cells[j1].value.day != cells[j2].value.day
  {
    LayoutValid(pad, y, m);
    DayKeysDistinct(pad, y, m);
  }

  /** At most one rendered cell is marked as today, and one is exactly when
      today falls in the displayed month. */
  lemma RenderedToday(store: Store, today: Date, pad: nat, y: int, m: int)
    requires 0 <= m < 12 && Valid(today)
    ensures ValidCells(Layout(pad, y, m))
    ensures var cells := Render(store, today, Layout(pad, y, m));
            && (forall j1, j2 :: 0 <= j1 < |cells| && 0 <= j2 < |cells| && cells[j1].Some? && cells[j2].Some? &&
                  cells[j1].value.isToday && cells[j2].value.isToday
                  ==> j1 == j2)
            && ((exists j :: 0 <= j < |cells| && cells[j].Some? && cells[j].value.isToday)
                <==> today.year == y && today.month == m)
  {
    var layout := Layout(pad, y, m);
    LayoutValid(pad, y, m);
    var cells := Render(store, today, layout);
    RenderTodayCells(store, today, layout);
    TodayInGrid(pad, y, m, today);
    if today.year == y && today.month == m {
      var j :| 0 <= j < |layout| && layout[j] == Some(today);
      assert cells[j].Some? && cells[j].value.isToday;
    }
  }

  /** For a date of years 0 to 99 the grid shows its month 1900 years
      later, so the date itself is in none of its cells. */
  lemma TwoDigitYearGrid(date: Date)
    requires Valid(date) && 0 <= date.year <= 99
    ensures var cells := MonthDaysWithPadding(date);
            && (forall j :: 0 <= j < |cells| && cells[j].Some? ==> cells[j].value.year == date.year + 1900)
            && Some(date) !in cells
  {
    var y := ConstructorYear(date.year);
    LayoutCells(Padding(y, date.month), y, date.month);
  }

  /** The cells the component renders for the month holding `focus`: the
      render map over that month's padded grid. */
  function DeriveCells(store: Store, focus: Date, today: Date): (cells: seq<Option<DisplayCell>>)
    requires Valid(focus)
    ensures var y := ConstructorYear(focus.year);
            |cells| == Padding(y, focus.month) + DaysInMonth(y, focus.month)
  {
    var daysToDisplay := MonthDaysWithPadding(focus);
    var y := ConstructorYear(focus.year);
    LayoutValid(Padding(y, focus.month), y, focus.month);
    LayoutCells(Padding(y, focus.month), y, focus.month);
    Render(store, today, daysToDisplay)
  }

  /** What the component shows for the month holding `focus` (in the
      constructor's year): a blank wherever the layout has one, each date as
      the cell of its own day key with that key's tasks, each day key once,
      and the today flag on at most one cell, on one exactly when today
      falls in that month. */
  lemma DerivedMonth(store: Store, focus: Date, today: Date)
    requires Valid(focus) && Valid(today)
    ensures var y := ConstructorYear(focus.year);
            var cells, layout := DeriveCells(store, focus, today), Layout(Padding(y, focus.month), y, focus.month);
            && |cells| == |layout|
            && (forall j :: 0 <= j < |cells| ==>
                  && (cells[j].None? <==> layout[j].None?)
                  && (layout[j].Some? ==>
                        && Valid(layout[j].value)
                        && cells[j] == Some(DisplayCell(DayKey(layout[j].value),
                                                        Lookup(store, DayKey(layout[j].value)),
                                                        layout[j].value == today))))
            && (forall j1, j2 :: 0 <= j1 < j2 < |cells| && cells[j1].Some? && cells[j2].Some? ==>
                  cells[j1].value.day != cells[j2].value.day)
            && (forall j1, j2 :: 0 <= j1 < |cells| && 0 <= j2 < |cells| && cells[j1].Some? && cells[j2].Some? &&
                  cells[j1].value.isToday && cells[j2].value.isToday
                  ==> j1 == j2)
            && ((exists j :: 0 <= j < |cells| && cells[j].Some? && cells[j].value.isToday)
                <==> today.year == y && today.month == focus.month)
  {
    var y := ConstructorYear(focus.year);
    var pad := Padding(y, focus.month);
    var layout := Layout(pad, y, focus.month);
    LayoutValid(pad, y, focus.month);
    assert DeriveCells(store, focus, today) == Render(store, today, layout);
    RenderShape(store, today, layout);
    RenderedKeysDistinct(store, today, pad, y, focus.month);
    RenderedToday(store, today, pad, y, focus.month);
  }
}
