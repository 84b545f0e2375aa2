/** The month view: a grid of six weeks of day cells, each with the assignments due
    on that day. */
module Calendar {
  import opened Civil
  import opened Sequences
  import opened Assignments

  /** Six rows of seven days. */
  const GridSize: nat := 42

  /** One cell of the grid: its date, whether that date lies in the displayed month,
      whether it is today, and the assignments due on it. */
  datatype CalendarDay = CalendarDay(
    date: Date,
    isCurrentMonth: bool,
    isToday: bool,
    assignments: seq<Assignment>)

  /** The condition "due on day n". */
  function DueOn(n: int): Assignment -> bool
  {
    (a: Assignment) => DayOf(a.dueDate) == n
  }

  /** The condition "due on the given date", comparing calendar dates as toDateString does. */
  function DueOnDate(date: Date): Assignment -> bool
  {
    (a: Assignment) => DateOfDay(DayOf(a.dueDate)) == date
  }

  /** The day the grid starts: the 1st of the month moved back by its weekday. */
  function GridStart(year: int, month: int): (r: int)
    requires 0 <= month < 12
    ensures Weekday(r) == 0
    ensures DayNumber(year, month, 1) - 6 <= r <= DayNumber(year, month, 1)
    ensures DayNumber(year, month, 1) + DaysInMonth(year, month) <= r + GridSize
  {
    var first := DayNumber(year, month, 1);
    DayNumberShift(year, month, 1 - Weekday(first));
    BackToSunday(first);
    DayNumber(year, month, 1 - Weekday(first))
  }

  /** October 2026 starts on a Thursday, so its grid starts on Sunday, September 27. */
  lemma GridStartOctober2026()
    ensures GridStart(2026, 9) == DayNumber(2026, 8, 27)
    ensures Weekday(DayNumber(2026, 9, 1)) == 4
  {
  }

  /** A day of the grid lies in the displayed month exactly when it is one of that
      month's days; the grid never reaches the same month of another year. */
  lemma GridMonth(year: int, month: int, n: int)
    requires 0 <= month < 12
    requires DayNumber(year, month, 1) - 6 <= n < DayNumber(year, month, 1) + GridSize
    ensures DateOfDay(n).month == month
        <==> DayNumber(year, month, 1) <= n < DayNumber(year, month, 1) + DaysInMonth(year, month)
  {
    var first := DayNumber(year, month, 1);
    var dim := DaysInMonth(year, month);
    if n < first {
      BeforeMonth(year, month, first - n);
    } else if n < first + dim {
      InMonth(year, month, n - first);
    } else {
      AfterMonth(year, month, n - first - dim);
    }
  }

  /** The k-th day (k from 1 to 28) before the 1st of a month lies in the month before. */
  lemma BeforeMonth(y: int, m: int, k: int)
    requires 0 <= m < 12 && 1 <= k <= 28
    ensures DateOfDay(DayNumber(y, m, 1) - k).month != m
  {
    var prev := FirstOfPrevMonth(y, m);
    var pdim := DaysInMonth(prev.year, prev.month);
    MonthStep(prev.year, prev.month);
    DayNumberShift(prev.year, prev.month, pdim - k + 1);
    DateOfDayNumber(Date(prev.year, prev.month, pdim - k + 1));
  }

  /** The day k days after the 1st of a month, within its length, lies in that month. */
  lemma InMonth(y: int, m: int, k: int)
    requires 0 <= m < 12 && 0 <= k < DaysInMonth(y, m)
    ensures DateOfDay(DayNumber(y, m, 1) + k).month == m
  {
    DayNumberShift(y, m, k + 1);
    DateOfDayNumber(Date(y, m, k + 1));
  }

  /** The day k days (k from 0 to 27) after the end of a month lies in the month after. */
  lemma AfterMonth(y: int, m: int, k: int)
    requires 0 <= m < 12 && 0 <= k < 28
    ensures DateOfDay(DayNumber(y, m, 1) + DaysInMonth(y, m) + k).month != m
  {
    var next := FirstOfNextMonth(y, m);
    MonthStep(y, m);
    DayNumberShift(next.year, next.month, k + 1);
    DateOfDayNumber(Date(next.year, next.month, k + 1));
  }

  /** Two calendar dates compare equal exactly when their day numbers do. */
  lemma SameDate(n: int, date: Date)
    requires ValidDate(date)
    ensures DateOfDay(n) == date <==> n == DayNumberOf(date)
  {
    DateOfDayNumber(date);
  }

  /** What the cell for day n of the grid of (year, month) holds. */
  predicate IsGridCell(xs: seq<Assignment>, year: int, month: int, now: int, n: int, c: CalendarDay)
    requires 0 <= month < 12
  {
    && ValidDate(c.date) && DayNumberOf(c.date) == n
    && (c.isCurrentMonth <==>
          DayNumber(year, month, 1) <= n < DayNumber(year, month, 1) + DaysInMonth(year, month))
    && (c.isToday <==> n == DayOf(now))
    && c.assignments == Filter(xs, DueOn(n))
  }

  /** The cell the loop builds for the date of day n of the grid is the one IsGridCell describes. */
  lemma CellForDate(xs: seq<Assignment>, year: int, month: int, now: int, n: int, current: Date)
    requires 0 <= month < 12
    requires DayNumber(year, month, 1) - 6 <= n < DayNumber(year, month, 1) + GridSize
    requires ValidDate(current) && DayNumberOf(current) == n
    ensures IsGridCell(xs, year, month, now, n,
              CalendarDay(current, current.month == month, current == DateOfDay(DayOf(now)),
                          Filter(xs, DueOnDate(current))))
  {
    forall a | a in xs ensures DueOnDate(current)(a) <==> DueOn(n)(a) {
      SameDate(DayOf(a.dueDate), current);
    }
    FilterCongruent(xs, DueOnDate(current), DueOn(n));
    SameDate(DayOf(now), current);
    GridMonth(year, month, n);
    DateOfDayNumber(current);
  }

  /** setDate(getDate() + 1) on a valid date gives the date of the next day number. */
  lemma NextDate(current: Date)
    requires ValidDate(current)
    ensures DayNumberOf(DateOfDay(DayNumber(current.year, current.month, current.day + 1)))
         == DayNumberOf(current) + 1
  {
    DayNumberShift(current.year, current.month, current.day + 1);
    DayNumberShift(current.year, current.month, current.day);
  }

  /** The cells of the month grid of (year, month), today being the day of now. */
  method GenerateCalendarDays(xs: seq<Assignment>, year: int, month: int, now: int)
    returns (days: seq<CalendarDay>)
    requires 0 <= month < 12
    ensures |days| == GridSize
    ensures forall i :: 0 <= i < GridSize ==>
              IsGridCell(xs, year, month, now, GridStart(year, month) + i, days[i])
  {
    var firstDay := DayNumberOf(Date(year, month, 1));
    var today := DateOfDay(DayOf(now));
    var current := DateOfDay(DayNumber(year, month, 1 - Weekday(firstDay)));
    days := [];
    var i := 0;
    while i < GridSize
      invariant 0 <= i <= GridSize && |days| == i
      invariant ValidDate(current) && DayNumberOf(current) == GridStart(year, month) + i
      invariant forall j :: 0 <= j < i ==>
                  IsGridCell(xs, year, month, now, GridStart(year, month) + j, days[j])
    {
      var dayAssignments := Filter(xs, DueOnDate(current));
      var isToday := current == today;
      var isCurrentMonth := current.month == month;
      var cell := CalendarDay(current, isCurrentMonth, isToday, dayAssignments);
      CellForDate(xs, year, month, now, GridStart(year, month) + i, current);
      ghost var before := days;
      days := days + [cell];
      assert forall j :: 0 <= j < i ==> days[j] == before[j];
      NextDate(current);
      current := DateOfDay(DayNumber(current.year, current.month, current.day + 1));
      i := i + 1;
    }
  }
}
