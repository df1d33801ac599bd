/**
  Civil-calendar arithmetic in the proleptic Gregorian calendar, the calendar
  that a JavaScript `Date` uses: the leap-year rule, month lengths, the weekday
  of a date (Sunday = 0, as `getDay()` numbers it) and the day that follows a
  date (what `setDate(getDate() + 1)` normalises to).
 */
module DateMath {

  /** A calendar date as its three civil components. */
  datatype Date = Date(year: int, month: int, day: int)

  /** Divisible by 4, and a century only when also divisible by 400. */
  predicate IsLeapYear(y: int) {
    y % 4 == 0 && (y % 100 != 0 || y % 400 == 0)
  }

  function DaysInMonth(y: int, m: int): (n: int)
    requires 1 <= m <= 12
    ensures 28 <= n <= 31
    ensures n == 29 <==> m == 2 && IsLeapYear(y)
    ensures n == 28 <==> m == 2 && !IsLeapYear(y)
    ensures n == 30 <==> m in {4, 6, 9, 11}
  {
    if m == 2 then (if IsLeapYear(y) then 29 else 28)
    else if m == 4 || m == 6 || m == 9 || m == 11 then 30
    else 31
  }

  predicate ValidDate(x: Date) {
    1 <= x.month <= 12 && 1 <= x.day <= DaysInMonth(x.year, x.month)
  }

  /** Sakamoto's month offsets, indexed by month - 1. */
  const MonthOffsets: seq<int> := [0, 3, 2, 5, 0, 3, 5, 1, 4, 6, 2, 4]

  /**
    Sakamoto's weekday count before reduction modulo 7: January and February
    are counted as the last months of the previous year. Dafny's `/` floors
    for a positive divisor, so the count is right for every year.
   */
  function SakamotoCount(y: int, m: int, d: int): int
    requires 1 <= m <= 12
  {
    YearTerm(if m < 3 then y - 1 else y) + MonthOffsets[m - 1] + d
  }

  /** The weekday of a date, Sunday = 0 through Saturday = 6. */
  function DayOfWeek(y: int, m: int, d: int): (w: int)
    requires 1 <= m <= 12
    ensures 0 <= w < 7
  {
    SakamotoCount(y, m, d) % 7
  }

  /** The date after `x`, rolling over into the next month and year. */
  function NextDate(x: Date): (r: Date)
    requires ValidDate(x)
    ensures ValidDate(r)
    ensures r.month == x.month ==> r == Date(x.year, x.month, x.day + 1)
    ensures r.month != x.month ==> r.day == 1 && x.day == DaysInMonth(x.year, x.month)
  {
    if x.day < DaysInMonth(x.year, x.month) then Date(x.year, x.month, x.day + 1)
    else if x.month < 12 then Date(x.year, x.month + 1, 1)
    else Date(x.year + 1, 1, 1)
  }

  /**
    Reference day count: the number of days from 1 January of year 1 to the
    first of month `m` of year `y`, built by adding up month lengths.
   */
  function DaysBefore(y: int, m: int): nat
    requires y >= 1 && 1 <= m <= 12
    decreases 12 * y + m
  {
    if m > 1 then DaysBefore(y, m - 1) + DaysInMonth(y, m - 1)
    else if y > 1 then DaysBefore(y - 1, 12) + DaysInMonth(y - 1, 12)
    else 0
  }

  /** Days from 1 January of year 1 to `x` (0 for that very day). */
  function DayNumber(x: Date): nat
    requires x.year >= 1 && ValidDate(x)
  {
    DaysBefore(x.year, x.month) + x.day - 1
  }

  lemma LeapYearExamples()
    ensures IsLeapYear(2024) && !IsLeapYear(2023)
    ensures IsLeapYear(2000) && !IsLeapYear(1900)
    ensures DaysInMonth(2024, 2) == 29 && DaysInMonth(2023, 2) == 28
    ensures DaysInMonth(2000, 2) == 29 && DaysInMonth(1900, 2) == 28
  {
  }

  /** The day after a valid date is exactly one day later on the reference count. */
  lemma NextDateAdvancesDayNumber(x: Date)
    requires x.year >= 1 && ValidDate(x)
    ensures NextDate(x).year >= 1
    ensures DayNumber(NextDate(x)) == DayNumber(x) + 1
  {
    var y, m := x.year, x.month;
    if x.day == DaysInMonth(y, m) {
      if m < 12 {
        assert NextDate(x) == Date(y, m + 1, 1);
        assert DaysBefore(y, m + 1) == DaysBefore(y, m) + DaysInMonth(y, m);
      } else {
        assert NextDate(x) == Date(y + 1, 1, 1);
        assert DaysBefore(y + 1, 1) == DaysBefore(y, 12) + DaysInMonth(y, 12);
      }
    }
  }

  /** Within one month, the weekday advances by one per day. */
  lemma DayOfWeekWithinMonth(y: int, m: int, d: int)
    requires 1 <= m <= 12
    ensures DayOfWeek(y, m, d) == (DayOfWeek(y, m, 1) + d - 1) % 7
  {
    ModShift(SakamotoCount(y, m, d), SakamotoCount(y, m, 1), d - 1, 0);
  }

  /** Sakamoto's year term: the year plus the leap days it has accumulated. */
  function YearTerm(a: int): int {
    a + a / 4 - a / 100 + a / 400
  }

  /** Each floor quotient in the year term steps up by one exactly at a multiple of its divisor. */
  lemma QuotientSteps(y: int)
    ensures y / 4 - (y - 1) / 4 == if y % 4 == 0 then 1 else 0
    ensures y / 100 - (y - 1) / 100 == if y % 100 == 0 then 1 else 0
    ensures y / 400 - (y - 1) / 400 == if y % 400 == 0 then 1 else 0
  {
    assert y / 4 - (y - 1) / 4 == if y % 4 == 0 then 1 else 0;
    assert y / 100 - (y - 1) / 100 == if y % 100 == 0 then 1 else 0;
  }

  /** Multiples of 400 are multiples of 100, and those are multiples of 4. */
  lemma DivisorChain(y: int)
    ensures y % 400 == 0 ==> y % 100 == 0
    ensures y % 100 == 0 ==> y % 4 == 0
  {
    if y % 400 == 0 {
      var k := y / 400;
      assert y == 400 * k;
      assert y == 100 * (4 * k) + 0;
    }
    if y % 100 == 0 {
      var k := y / 100;
      assert y == 100 * k;
      assert y == 4 * (25 * k) + 0;
    }
  }

  /** From February to March Sakamoto's year term grows by one, plus one in a leap year. */
  lemma YearTermStep(y: int)
    ensures YearTerm(y) - YearTerm(y - 1) == if IsLeapYear(y) then 2 else 1
  {
    QuotientSteps(y);
    DivisorChain(y);
  }

  /** Adding `n` days and a whole number of weeks moves the weekday by `n`. */
  lemma ModShift(a: int, b: int, n: int, k: int)
    requires a == b + n + 7 * k
    ensures a % 7 == (b % 7 + n) % 7
  {
  }

  /** Numbers that differ by whole weeks fall on the same weekday. */
  lemma SameResidue(a: int, b: int, k: int)
    requires a == b + 7 * k
    ensures a % 7 == b % 7
  {
  }

  /**
    How many whole weeks Sakamoto's count for the first of the next month
    falls short of this month's first plus the month's length.
   */
  function StepWeeks(m: int): int
    requires 1 <= m <= 12
  {
    [-4, -4, -4, -5, -4, -4, -5, -4, -4, -5, -4, -5][m - 1]
  }

  /** Sakamoto's count for the first of the following month, relative to this month's. */
  lemma CountStep(y: int, m: int)
    requires 1 <= m <= 12
    ensures m < 12 ==> SakamotoCount(y, m + 1, 1) == SakamotoCount(y, m, 1) + DaysInMonth(y, m) + 7 * StepWeeks(m)
    ensures m == 12 ==> SakamotoCount(y + 1, 1, 1) == SakamotoCount(y, 12, 1) + DaysInMonth(y, 12) + 7 * StepWeeks(12)
  {
    if m == 2 {
      YearTermStep(y);
    }
  }

  /** The first of the next month falls `DaysInMonth` days after the first of this one. */
  lemma MonthStep(y: int, m: int)
    requires 1 <= m <= 12
    ensures m < 12 ==> DayOfWeek(y, m + 1, 1) == (DayOfWeek(y, m, 1) + DaysInMonth(y, m)) % 7
    ensures m == 12 ==> DayOfWeek(y + 1, 1, 1) == (DayOfWeek(y, 12, 1) + 31) % 7
  {
    CountStep(y, m);
    if m < 12 {
      ModShift(SakamotoCount(y, m + 1, 1), SakamotoCount(y, m, 1), DaysInMonth(y, m), StepWeeks(m));
    } else {
      ModShift(SakamotoCount(y + 1, 1, 1), SakamotoCount(y, 12, 1), 31, StepWeeks(12));
    }
  }

  /** Moving on one month keeps Sakamoto's count and the day count in step, up to whole weeks. */
  lemma CountAdvance(y: int, m: int, k: int)
    requires y >= 1 && 1 <= m <= 12
    requires SakamotoCount(y, m, 1) == 1 + DaysBefore(y, m) + 7 * k
    ensures m < 12 ==> SakamotoCount(y, m + 1, 1) == 1 + DaysBefore(y, m + 1) + 7 * (k + StepWeeks(m))
    ensures m == 12 ==> SakamotoCount(y + 1, 1, 1) == 1 + DaysBefore(y + 1, 1) + 7 * (k + StepWeeks(12))
  {
    CountStep(y, m);
    if m < 12 {
      assert DaysBefore(y, m + 1) == DaysBefore(y, m) + DaysInMonth(y, m);
    } else {
      assert DaysBefore(y + 1, 1) == DaysBefore(y, 12) + DaysInMonth(y, 12);
    }
  }

  /**
    Sakamoto's count for every first of month from year 1 on is one more than
    its day count from 1 January of year 1, up to whole weeks.
   */
  lemma {:induction false} CountMatchesDaysBefore(y: int, m: int)
    requires y >= 1 && 1 <= m <= 12
    ensures exists k :: SakamotoCount(y, m, 1) == 1 + DaysBefore(y, m) + 7 * k
    decreases 12 * y + m
  {
    if m > 1 {
      CountMatchesDaysBefore(y, m - 1);
      var k :| SakamotoCount(y, m - 1, 1) == 1 + DaysBefore(y, m - 1) + 7 * k;
      CountAdvance(y, m - 1, k);
    } else if y > 1 {
      CountMatchesDaysBefore(y - 1, 12);
      var k :| SakamotoCount(y - 1, 12, 1) == 1 + DaysBefore(y - 1, 12) + 7 * k;
      CountAdvance(y - 1, 12, k);
    } else {
      assert SakamotoCount(1, 1, 1) == 1 + DaysBefore(1, 1) + 7 * 0;
    }
  }

  /**
    Sakamoto's closed form agrees with counting days from 1 January of year 1,
    which was a Monday in the proleptic Gregorian calendar.
   */
  lemma FirstOfMonthWeekday(y: int, m: int)
    requires y >= 1 && 1 <= m <= 12
    ensures DayOfWeek(y, m, 1) == (1 + DaysBefore(y, m)) % 7
  {
    CountMatchesDaysBefore(y, m);
    var k :| SakamotoCount(y, m, 1) == 1 + DaysBefore(y, m) + 7 * k;
    SameResidue(SakamotoCount(y, m, 1), 1 + DaysBefore(y, m), k);
  }

  /** The weekday of every date from year 1 on is its day count from a Monday, modulo 7. */
  lemma DayOfWeekMatchesDayNumber(x: Date)
    requires x.year >= 1 && ValidDate(x)
    ensures DayOfWeek(x.year, x.month, x.day) == (1 + DayNumber(x)) % 7
  {
    CountMatchesDaysBefore(x.year, x.month);
    var k :| SakamotoCount(x.year, x.month, 1) == 1 + DaysBefore(x.year, x.month) + 7 * k;
    assert SakamotoCount(x.year, x.month, x.day) == 1 + DayNumber(x) + 7 * k;
    SameResidue(SakamotoCount(x.year, x.month, x.day), 1 + DayNumber(x), k);
  }

  /** Consecutive days have consecutive weekdays, across month and year ends too. */
  lemma NextDateWeekday(x: Date)
    requires x.year >= 1 && ValidDate(x)
    ensures var n := NextDate(x);
            DayOfWeek(n.year, n.month, n.day) == (DayOfWeek(x.year, x.month, x.day) + 1) % 7
  {
    var n := NextDate(x);
    NextDateAdvancesDayNumber(x);
    DayOfWeekMatchesDayNumber(x);
    DayOfWeekMatchesDayNumber(n);
    ModShift(1 + DayNumber(n), 1 + DayNumber(x), 1, 0);
  }

  lemma KnownWeekdays()
    ensures DayOfWeek(1, 1, 1) == 1     // Monday
    ensures DayOfWeek(1970, 1, 1) == 4  // Thursday
    ensures DayOfWeek(2019, 1, 1) == 2  // Tuesday
    ensures DayOfWeek(2000, 2, 29) == 2 // Tuesday
  {
  }
}
