/** The month view: which days the grid shows, the four-way colouring of a
    day, and the per-cell task indicator. */
module Calendar {
  import opened Wrappers
  import opened Dates
  import opened Tasks
  import opened Store

  /** getDateColor's four outcomes (grey, red, green, yellow). */
  datatype DayState = Future | NoTasks | Complete | Incomplete

  /** `isFuture(date)` for a grid day, which starts at midnight: the day comes
      after today. */
  predicate IsFuture(d: Day, today: Day) {
    Earlier(today, d)
  }

  predicate AllDone(tasks: seq<Task>) {
    forall t :: t in tasks ==> t.completed
  }

  /** getDateColor: future days are grey whatever their tasks; a day up to
      today is red without tasks, green when all of them are completed and
      yellow otherwise. */
  function DayStateOf(store: TaskStore, today: Day, d: Day): (s: DayState)
    ensures s == Future <==> Earlier(today, d)
    ensures s == NoTasks <==> !Earlier(today, d) && DayTasks(store, d) == []
    ensures s == Complete <==>
              !Earlier(today, d) && DayTasks(store, d) != [] && AllDone(DayTasks(store, d))
    ensures s == Incomplete <==>
              !Earlier(today, d) && exists t :: t in DayTasks(store, d) && !t.completed
  {
    var tasks := DayTasks(store, d);
    if IsFuture(d, today) && d != today then Future
    else if |tasks| == 0 then NoTasks
    else if CompletedCount(tasks) == |tasks| then Complete
    else Incomplete
  }

  /** Today is never grey. */
  lemma TodayNotFuture(store: TaskStore, today: Day)
    ensures DayStateOf(store, today, today) != Future
  {
  }

  /** Whether a day has an entry holding an empty list or no entry at all
      makes no difference to any day's colour. */
  lemma MissingLikeEmpty(store: TaskStore, today: Day, d: Day)
    requires d !in store
    ensures forall x :: DayStateOf(UpdateDay(store, d, []), today, x) == DayStateOf(store, today, x)
  {
  }

  /** Colours depend only on what each day holds. */
  lemma StateSameDays(s1: TaskStore, s2: TaskStore, today: Day, x: Day)
    requires SameDays(s1, s2)
    ensures DayStateOf(s1, today, x) == DayStateOf(s2, today, x)
  {
    assert DayTasks(s1, x) == DayTasks(s2, x);
  }

  /** A day's colour depends on its own list only: updating another day
      leaves it as it was. */
  lemma StateLocal(store: TaskStore, today: Day, d: Day, tasks: seq<Task>, x: Day)
    requires x != d
    ensures DayStateOf(UpdateDay(store, d, tasks), today, x) == DayStateOf(store, today, x)
  {
  }

  // ---------------------------------------------------------------------------
  // The month grid

  /** The cells of the month containing `current`: every day from the Sunday
      starting the week of the 1st to the Saturday ending the week of the
      last day. */
  function MonthGrid(current: Day): (grid: seq<Day>)
    ensures |grid| > 0
    ensures grid[0] == WeekStart(FirstOfMonth(current))
    ensures grid[|grid| - 1] == WeekEnd(LastOfMonth(current))
    ensures forall i :: 0 <= i < |grid| ==> Ordinal(grid[i]) == Ordinal(grid[0]) + i
    ensures Chronological(grid)
    ensures forall x: Day :: x in grid <==> Ordinal(grid[0]) <= Ordinal(x) <= Ordinal(grid[|grid| - 1])
  {
    var first, last := FirstOfMonth(current), LastOfMonth(current);
    MonthSpan(current);
    Interval(WeekStart(first), WeekEnd(last))
  }

  /** The month's last day is `DaysInMonth - 1` days after its first. */
  lemma MonthSpan(current: Day)
    ensures Ordinal(LastOfMonth(current)) == Ordinal(FirstOfMonth(current)) + DaysInMonth(current.year, current.month) - 1
  {
  }

  /** The grid is four to six whole weeks. */
  lemma MonthGridLength(current: Day)
    ensures |MonthGrid(current)| % 7 == 0 && 28 <= |MonthGrid(current)| <= 42
  {
    var grid := MonthGrid(current);
    var first, last := FirstOfMonth(current), LastOfMonth(current);
    MonthSpan(current);
    DaysInMonthRange(current.year, current.month);
    WeekdayRange(first);
    WeekdayRange(last);
    var a, b := Ordinal(grid[0]), Ordinal(grid[|grid| - 1]);
    assert a == Ordinal(first) - Weekday(first) && Weekday(grid[0]) == 0;
    assert b == Ordinal(last) + 6 - Weekday(last) && Weekday(grid[|grid| - 1]) == 6;
    WeekAlignedLength(a, b, DaysInMonth(current.year, current.month), |grid|);
  }

  /** The grid starts on the Sunday at most six days before the 1st and ends
      on the Saturday at most six days after the month's last day. */
  lemma MonthGridEnds(current: Day)
    ensures Weekday(MonthGrid(current)[0]) == 0
    ensures Ordinal(MonthGrid(current)[0]) <= Ordinal(FirstOfMonth(current)) < Ordinal(MonthGrid(current)[0]) + 7
    ensures Weekday(MonthGrid(current)[|MonthGrid(current)| - 1]) == 6
    ensures Ordinal(MonthGrid(current)[|MonthGrid(current)| - 1]) - 7 < Ordinal(LastOfMonth(current))
              <= Ordinal(MonthGrid(current)[|MonthGrid(current)| - 1])
  {
  }

  /** Column `i mod 7` of the grid is weekday `i mod 7`, Sunday first. */
  lemma MonthGridColumns(current: Day)
    ensures forall i :: 0 <= i < |MonthGrid(current)| ==> Weekday(MonthGrid(current)[i]) == i % 7
  {
    WeekdaysFromSunday(MonthGrid(current));
  }

  /** Every day of the month has a cell. */
  lemma MonthGridCovers(current: Day)
    ensures forall x: Day :: SameMonth(x, current) ==> x in MonthGrid(current)
  {
    var grid := MonthGrid(current);
    forall x: Day | SameMonth(x, current) ensures x in grid {
      InMonthIff(current, x);
    }
  }

  /** A run from a Sunday to a Saturday that covers a month of `dim` days
      with less than a week on either side is four to six whole weeks. */
  lemma WeekAlignedLength(a: int, b: int, dim: int, n: int)
    requires a % 7 == 0 && b % 7 == 6 && n == b - a + 1
    requires 28 <= dim <= 31
    requires dim <= n <= dim + 12
    ensures n % 7 == 0 && 28 <= n <= 42
  {
  }

  // ---------------------------------------------------------------------------
  // Cells

  /** The task indicator under a day number: one dot for each of the first
      three tasks and a "+n" label for the rest. */
  datatype Indicator = Indicator(dots: nat, overflow: Option<nat>)

  function IndicatorFor(taskCount: nat): (r: Indicator)
    ensures r.dots <= 3
    ensures r.overflow.Some? <==> taskCount > 3
    ensures r.overflow.Some? ==> r.overflow.value > 0
    ensures r.dots + r.overflow.ValueOr(0) == taskCount
    ensures taskCount <= 3 ==> r.dots == taskCount
    ensures taskCount > 3 ==> r.dots == 3 && r.overflow == Some(taskCount - 3)
  {
    var shown := if taskCount < 3 then taskCount else 3;
    Indicator(shown, if taskCount > 3 then Some(taskCount - 3) else None)
  }

  /** One grid button: its day, colour, full or faded opacity, today's ring
      and the task indicator. */
  datatype Cell = Cell(day: Day, state: DayState, inMonth: bool, isToday: bool, indicator: Indicator)

  function CellFor(store: TaskStore, current: Day, today: Day, d: Day): (c: Cell)
    ensures c.day == d
    ensures c.state == DayStateOf(store, today, d)
    ensures c.inMonth <==> SameMonth(d, current)
    ensures c.isToday <==> d == today
    ensures c.indicator.dots + c.indicator.overflow.ValueOr(0) == |DayTasks(store, d)|
    ensures c.indicator == IndicatorFor(|DayTasks(store, d)|)
  {
    Cell(d, DayStateOf(store, today, d), SameMonth(d, current), d == today,
         IndicatorFor(|DayTasks(store, d)|))
  }

  /** Every cell of the grid for the month containing `current`. */
  function Cells(store: TaskStore, current: Day, today: Day): (cells: seq<Cell>)
    ensures |cells| == |MonthGrid(current)|
    ensures forall i :: 0 <= i < |cells| ==> cells[i] == CellFor(store, current, today, MonthGrid(current)[i])
  {
    var grid := MonthGrid(current);
    seq(|grid|, i requires 0 <= i < |grid| => CellFor(store, current, today, grid[i]))
  }

  /** Exactly the days of the month are drawn at full opacity. */
  lemma FullOpacityCells(store: TaskStore, current: Day, today: Day, x: Day)
    ensures SameMonth(x, current) <==>
              exists i :: 0 <= i < |Cells(store, current, today)|
                && Cells(store, current, today)[i].day == x
                && Cells(store, current, today)[i].inMonth
  {
    if SameMonth(x, current) {
      MonthDayHasCell(store, current, today, x);
    }
  }

  /** No day is drawn twice: two cells showing the same day are the same
      cell. */
  lemma CellsOnce(store: TaskStore, current: Day, today: Day)
    ensures forall i, j :: 0 <= i < j < |Cells(store, current, today)| ==>
              Cells(store, current, today)[i].day != Cells(store, current, today)[j].day
  {
    var cells, grid := Cells(store, current, today), MonthGrid(current);
    forall i, j | 0 <= i < j < |cells| ensures cells[i].day != cells[j].day {
      assert cells[i].day == grid[i] && cells[j].day == grid[j];
      ChronologicalDistinct(grid, i, j);
    }
  }

  /** Every day of the month has a full-opacity cell. */
  lemma MonthDayHasCell(store: TaskStore, current: Day, today: Day, x: Day)
    requires SameMonth(x, current)
    ensures exists i :: 0 <= i < |Cells(store, current, today)|
              && Cells(store, current, today)[i].day == x
              && Cells(store, current, today)[i].inMonth
  {
    var cells, grid := Cells(store, current, today), MonthGrid(current);
    MonthGridCovers(current);
    var i :| 0 <= i < |grid| && grid[i] == x;
    var c := CellFor(store, current, today, x);
    assert cells[i] == c;
    assert c.day == x && c.inMonth;
  }
}
