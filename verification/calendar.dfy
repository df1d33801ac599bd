/**
  The month view of the calendar component: the route check, the list of the
  month's days, the number of empty cells before day 1, and the flat grid of
  cells that the view lays out seven to a row under the weekday names.
 */
module Calendar {
  import opened DateMath
  import opened Navigation

  const InvalidDateMessage: string :=
    "Invalid date. Please use a valid month (1-12) and year (e.g., /2019/1)."

  /** One cell of the dates grid: an empty leading cell, or a day of the month. */
  datatype Cell = Empty | DayCell(day: int)

  /** What the component shows for a route: the error text, or the month with its grid and arrow targets. */
  datatype View =
    | InvalidDate(message: string)
    | MonthView(year: int, month: int, cells: seq<Cell>, previous: MonthRef, next: MonthRef)

  /** Every date of month `m` of year `y`, in order. */
  function MonthDays(y: int, m: int): (days: seq<Date>)
    requires 1 <= m <= 12
    ensures |days| == DaysInMonth(y, m)
    ensures forall i :: 0 <= i < |days| ==> days[i] == Date(y, m, i + 1)
  {
    seq(DaysInMonth(y, m), i => Date(y, m, i + 1))
  }

  /**
    The day list as the component builds it: start at the first of the month
    in the year the `Date` constructor maps the route year to, and keep
    stepping to the next date while the month is unchanged.
   */
  method GenerateCalendarDays(y: int, m: int) returns (days: seq<Date>)
    requires 1 <= m <= 12
    ensures days == MonthDays(JsDateYear(y), m)
  {
    var year := JsDateYear(y);
    var date := Date(year, m, 1);
    days := [];
    while date.month == m
      invariant ValidDate(date)
      invariant |days| <= DaysInMonth(year, m)
      invariant |days| < DaysInMonth(year, m) ==> date == Date(year, m, |days| + 1)
      invariant |days| == DaysInMonth(year, m) ==> date.month != m
      invariant forall i :: 0 <= i < |days| ==> days[i] == Date(year, m, i + 1)
      decreases DaysInMonth(year, m) - |days|
    {
      days := days + [date];
      date := NextDate(date);
    }
  }

  /** The listed dates are exactly the valid dates of that month, each once, in ascending order. */
  lemma MonthDaysListsTheMonth(y: int, m: int)
    requires 1 <= m <= 12
    ensures forall x :: x in MonthDays(y, m) <==> ValidDate(x) && x.year == y && x.month == m
    ensures forall i, j :: 0 <= i < j < |MonthDays(y, m)| ==> MonthDays(y, m)[i].day < MonthDays(y, m)[j].day
  {
    var days := MonthDays(y, m);
    forall x | ValidDate(x) && x.year == y && x.month == m
      ensures x in days
    {
      assert days[x.day - 1] == x;
    }
  }

  /** The year that JavaScript's `Date(year, monthIndex, day)` constructor uses: 0..99 mean 1900..1999. */
  function JsDateYear(y: int): (r: int)
    ensures 0 <= y <= 99 ==> r == 1900 + y
    ensures !(0 <= y <= 99) ==> r == y
  {
    if 0 <= y <= 99 then 1900 + y else y
  }

  /** The number of empty cells before day 1: its weekday, Sunday = 0. */
  function FirstDayOfMonth(y: int, m: int): (w: int)
    requires 1 <= m <= 12
    ensures 0 <= w < 7
  {
    DayOfWeek(y, m, 1)
  }

  /** The leading padding as written: the weekday is taken in the year the `Date` constructor maps to. */
  function FirstDayOfMonthAsWritten(y: int, m: int): (w: int)
    requires 1 <= m <= 12
    ensures 0 <= w < 7
    ensures 0 <= y <= 99 ==> w == FirstDayOfMonth(1900 + y, m)
    ensures !(0 <= y <= 99) ==> w == FirstDayOfMonth(y, m)
  {
    DayOfWeek(JsDateYear(y), m, 1)
  }

  /** The leading empty cells followed by one cell per date, showing its day number. */
  function Cells(padding: nat, days: seq<Date>): (cells: seq<Cell>)
    ensures |cells| == padding + |days|
    ensures forall i :: 0 <= i < padding ==> cells[i] == Empty
    ensures forall i :: 0 <= i < |days| ==> cells[padding + i] == DayCell(days[i].day)
  {
    seq(padding, _ => Empty) + seq(|days|, i requires 0 <= i < |days| => DayCell(days[i].day))
  }

  /** The dates grid for a valid route. */
  function Grid(y: int, m: int): seq<Cell>
    requires 1 <= m <= 12
  {
    Cells(FirstDayOfMonth(y, m), MonthDays(y, m))
  }

  /** The dates grid as written: days and padding both come from the mapped `Date` year. */
  function GridAsWritten(y: int, m: int): seq<Cell>
    requires 1 <= m <= 12
  {
    Cells(FirstDayOfMonthAsWritten(y, m), MonthDays(JsDateYear(y), m))
  }

  /**
    The layout of a month: `DayOfWeek(y, m, 1)` empty cells, then days 1..n
    in order, so that day `d` sits at index `DayOfWeek(y, m, 1) + d - 1`.
   */
  predicate IsMonthLayout(cells: seq<Cell>, y: int, m: int)
    requires 1 <= m <= 12
  {
    var first := DayOfWeek(y, m, 1);
    && |cells| == first + DaysInMonth(y, m)
    && (forall i :: 0 <= i < |cells| ==> (cells[i] == Empty <==> i < first))
    && (forall d :: 1 <= d <= DaysInMonth(y, m) ==> cells[first + d - 1] == DayCell(d))
  }

  /** The grid is the month's layout. */
  lemma GridLayout(y: int, m: int)
    requires 1 <= m <= 12
    ensures IsMonthLayout(Grid(y, m), y, m)
  {
    var g, first := Grid(y, m), FirstDayOfMonth(y, m);
    forall d | 1 <= d <= DaysInMonth(y, m)
      ensures g[first + d - 1] == DayCell(d)
    {
      assert g[first + (d - 1)] == DayCell(MonthDays(y, m)[d - 1].day);
    }
  }

  /** Every day cell shows a day of the month, in the column (index mod 7) of that day's weekday. */
  lemma GridColumns(y: int, m: int)
    requires 1 <= m <= 12
    ensures forall i :: 0 <= i < |Grid(y, m)| && Grid(y, m)[i].DayCell? ==>
              1 <= Grid(y, m)[i].day <= DaysInMonth(y, m) && i % 7 == DayOfWeek(y, m, Grid(y, m)[i].day)
  {
    var g, first := Grid(y, m), FirstDayOfMonth(y, m);
    forall i | 0 <= i < |g| && g[i].DayCell?
      ensures 1 <= g[i].day <= DaysInMonth(y, m) && i % 7 == DayOfWeek(y, m, g[i].day)
    {
      var d := i - first + 1;
      assert g[first + (d - 1)] == DayCell(MonthDays(y, m)[d - 1].day);
      DayOfWeekWithinMonth(y, m, d);
    }
  }

  /**
    The leading padding is 0..6 cells, and the grid opens with day 1 exactly
    when the month starts on a Sunday.
   */
  lemma LeadingPadding(y: int, m: int)
    requires 1 <= m <= 12
    ensures 0 <= |Grid(y, m)| - DaysInMonth(y, m) <= 6
    ensures Grid(y, m)[0] == DayCell(1) <==> DayOfWeek(y, m, 1) == 0
  {
    GridLayout(y, m);
  }

  /** From year 100 on the constructor's year mapping changes nothing. */
  lemma GridAsWrittenAgreesFromYear100(y: int, m: int)
    requires 1 <= m <= 12 && y >= 100
    ensures GridAsWritten(y, m) == Grid(y, m)
  {
  }

  /**
    A year 1..99 and its 19xx stand-in have the same leap status: they differ
    by 1900, a multiple of 4, and neither is a multiple of 100. So every month
    has the same length in both. Year 0 is the exception (a leap year, unlike
    1900), but the route check turns year 0 away.
   */
  lemma TwoDigitYearMonthLength(y: int, m: int)
    requires 1 <= y <= 99 && 1 <= m <= 12
    ensures DaysInMonth(JsDateYear(y), m) == DaysInMonth(y, m)
  {
    assert 1900 + y == 4 * 475 + y;
  }

  /**
    For an accepted two-digit year the grid as written lists the right days
    1..n in order after its padding: only the padding can be wrong.
   */
  lemma GridAsWrittenDaysAreRight(y: int, m: int)
    requires 1 <= y <= 99 && 1 <= m <= 12
    ensures |GridAsWritten(y, m)| == FirstDayOfMonthAsWritten(y, m) + DaysInMonth(y, m)
    ensures forall d :: 1 <= d <= DaysInMonth(y, m) ==>
              GridAsWritten(y, m)[FirstDayOfMonthAsWritten(y, m) + d - 1] == DayCell(d)
  {
    TwoDigitYearMonthLength(y, m);
    var g, first := GridAsWritten(y, m), FirstDayOfMonthAsWritten(y, m);
    forall d | 1 <= d <= DaysInMonth(y, m)
      ensures g[first + d - 1] == DayCell(d)
    {
      assert g[first + (d - 1)] == DayCell(MonthDays(JsDateYear(y), m)[d - 1].day);
    }
  }

  /**
    For a two-digit year the written grid is laid out for the wrong year:
    the route /50/1 pads January of 1950 (a Sunday start, no empty cells),
    while 1 January of year 50 fell on a Saturday.
   */
  lemma TwoDigitYearGridMisplaced()
    ensures IsValidRoute(50, 1)
    ensures GridAsWritten(50, 1)[0] == DayCell(1)
    ensures DayOfWeek(50, 1, 1) == 6
    ensures !IsMonthLayout(GridAsWritten(50, 1), 50, 1)
  {
    assert FirstDayOfMonthAsWritten(50, 1) == 0;
    assert GridAsWritten(50, 1)[0] == DayCell(MonthDays(1950, 1)[0].day);
  }

  /** The component's output for a route. */
  function Render(y: int, m: int): (v: View)
    ensures v.InvalidDate? <==> !IsValidRoute(y, m)
    ensures v.InvalidDate? ==> v.message == InvalidDateMessage
    ensures v.MonthView? ==>
              && v.year == y && v.month == m
              && IsMonthLayout(v.cells, y, m)
              && MonthIndex(v.previous.year, v.previous.month) == MonthIndex(y, m) - 1
              && MonthIndex(v.next.year, v.next.month) == MonthIndex(y, m) + 1
              && 1 <= v.previous.month <= 12 && 1 <= v.next.month <= 12
  {
    if !IsValidRoute(y, m) then InvalidDate(InvalidDateMessage)
    else
      GridLayout(y, m);
      MonthView(y, m, Grid(y, m), Previous(y, m), Next(y, m))
  }

  lemma January2019()
    ensures FirstDayOfMonth(2019, 1) == 2
    ensures |Grid(2019, 1)| == 33
    ensures Grid(2019, 1)[1] == Empty && Grid(2019, 1)[2] == DayCell(1)
  {
    assert Grid(2019, 1)[2] == DayCell(MonthDays(2019, 1)[0].day);
  }
}
