/**
  The route's (year, month) pair: when the calendar accepts it, and the
  previous and next month that its two arrow buttons navigate to.
 */
module Navigation {

  /** A (year, month) pair as a route carries it; `month` is 1-based. */
  datatype MonthRef = MonthRef(year: int, month: int)

  /** The calendar renders a grid only for a month in 1..12 of a year from 1 on. */
  predicate IsValidRoute(y: int, m: int) {
    1 <= m <= 12 && y >= 1
  }

  /** Months counted consecutively across years: December of y is followed by January of y + 1. */
  function MonthIndex(y: int, m: int): int {
    12 * y + (m - 1)
  }

  /** The target of the "previous month" button: January steps back to December of the year before. */
  function Previous(y: int, m: int): (r: MonthRef)
    ensures 1 <= m <= 12 ==> 1 <= r.month <= 12
    ensures 1 <= m <= 12 ==> MonthIndex(r.year, r.month) == MonthIndex(y, m) - 1
  {
    var newYear := if m == 1 then y - 1 else y;
    var newMonth := if m == 1 then 12 else m - 1;
    MonthRef(newYear, newMonth)
  }

  /** The target of the "next month" button: December steps on to January of the year after. */
  function Next(y: int, m: int): (r: MonthRef)
    ensures 1 <= m <= 12 ==> 1 <= r.month <= 12
    ensures 1 <= m <= 12 ==> MonthIndex(r.year, r.month) == MonthIndex(y, m) + 1
  {
    var newYear := if m == 12 then y + 1 else y;
    var newMonth := if m == 12 then 1 else m + 1;
    MonthRef(newYear, newMonth)
  }

  /** Two months in 1..12 with the same index are the same month of the same year. */
  lemma MonthIndexInjective(a: MonthRef, b: MonthRef)
    requires 1 <= a.month <= 12 && 1 <= b.month <= 12
    requires MonthIndex(a.year, a.month) == MonthIndex(b.year, b.month)
    ensures a == b
  {
  }

  /** `Next` is the one month in 1..12 that directly follows. */
  lemma NextIsTheFollowingMonth(y: int, m: int, r: MonthRef)
    requires 1 <= m <= 12 && 1 <= r.month <= 12
    ensures MonthIndex(r.year, r.month) == MonthIndex(y, m) + 1 <==> r == Next(y, m)
  {
    if MonthIndex(r.year, r.month) == MonthIndex(y, m) + 1 {
      MonthIndexInjective(r, Next(y, m));
    }
  }

  /** `Previous` is the one month in 1..12 that directly precedes. */
  lemma PreviousIsThePrecedingMonth(y: int, m: int, r: MonthRef)
    requires 1 <= m <= 12 && 1 <= r.month <= 12
    ensures MonthIndex(r.year, r.month) == MonthIndex(y, m) - 1 <==> r == Previous(y, m)
  {
    if MonthIndex(r.year, r.month) == MonthIndex(y, m) - 1 {
      MonthIndexInjective(r, Previous(y, m));
    }
  }

  /** The year rolls over exactly at the December/January boundary. */
  lemma Rollover(y: int, m: int)
    requires 1 <= m <= 12
    ensures Next(y, m) == (if m == 12 then MonthRef(y + 1, 1) else MonthRef(y, m + 1))
    ensures Previous(y, m) == (if m == 1 then MonthRef(y - 1, 12) else MonthRef(y, m - 1))
  {
    NextIsTheFollowingMonth(y, m, if m == 12 then MonthRef(y + 1, 1) else MonthRef(y, m + 1));
    PreviousIsThePrecedingMonth(y, m, if m == 1 then MonthRef(y - 1, 12) else MonthRef(y, m - 1));
  }

  /** Going forward then back, or back then forward, returns to the same month. */
  lemma NavigationRoundTrip(y: int, m: int)
    requires 1 <= m <= 12
    ensures Previous(Next(y, m).year, Next(y, m).month) == MonthRef(y, m)
    ensures Next(Previous(y, m).year, Previous(y, m).month) == MonthRef(y, m)
  {
    var n, p := Next(y, m), Previous(y, m);
    MonthIndexInjective(Previous(n.year, n.month), MonthRef(y, m));
    MonthIndexInjective(Next(p.year, p.month), MonthRef(y, m));
  }

  /**
    From an accepted route, "next" always leads to an accepted route, and
    "previous" does too except from January of year 1, whose target year 0
    the validity check turns away.
   */
  lemma NavigationStaysValid(y: int, m: int)
    requires IsValidRoute(y, m)
    ensures IsValidRoute(Next(y, m).year, Next(y, m).month)
    ensures IsValidRoute(Previous(y, m).year, Previous(y, m).month) <==> !(y == 1 && m == 1)
  {
  }
}
