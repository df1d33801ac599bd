/**
  The display form of a date, "<Month> <day><suffix> <year>" (for instance
  "January 15th 2019"), with the English month names, and a reader for that
  form that recovers the date it was made from.
 */
module DateFormat {
  import opened DateMath
  import opened Ordinal

  datatype Option<T> = None | Some(value: T)

  const MonthNames: seq<string> := [
    "January", "February", "March", "April", "May", "June",
    "July", "August", "September", "October", "November", "December"
  ]

  /** The long English name of a month, as the en-US `{ month: 'long' }` format spells it. */
  function MonthName(m: int): string
    requires 1 <= m <= 12
  {
    MonthNames[m - 1]
  }

  /** The month a long English name stands for, 0 for any other string. */
  function MonthNumber(name: string): (m: int)
    ensures 0 <= m <= 12
  {
    if name == "January" then 1 else if name == "February" then 2
    else if name == "March" then 3 else if name == "April" then 4
    else if name == "May" then 5 else if name == "June" then 6
    else if name == "July" then 7 else if name == "August" then 8
    else if name == "September" then 9 else if name == "October" then 10
    else if name == "November" then 11 else if name == "December" then 12
    else 0
  }

  predicate IsDigit(c: char) {
    '0' <= c <= '9'
  }

  predicate IsNotSpace(c: char) {
    c != ' '
  }

  predicate AllDigits(s: string) {
    forall i :: 0 <= i < |s| ==> IsDigit(s[i])
  }

  function DigitChar(d: int): (c: char)
    requires 0 <= d < 10
    ensures IsDigit(c)
  {
    "0123456789"[d]
  }

  /** The decimal numeral of `n`, as JavaScript prints a non-negative integer: no leading zero except in "0". */
  function NatToString(n: nat): (s: string)
    ensures |s| >= 1 && AllDigits(s)
    ensures s[0] == '0' ==> n == 0
  {
    if n < 10 then [DigitChar(n)]
    else
      var lead := NatToString(n / 10);
      assert (lead + [DigitChar(n % 10)])[0] == lead[0];
      lead + [DigitChar(n % 10)]
  }

  /** The numeral of any integer, with a leading '-' when negative. */
  function IntToString(i: int): string {
    if i < 0 then "-" + NatToString(-i) else NatToString(i)
  }

  /** The value of a string of decimal digits. */
  function DigitsValue(s: string): nat
    requires AllDigits(s)
  {
    if |s| == 0 then 0
    else DigitsValue(s[..|s| - 1]) * 10 + (s[|s| - 1] as int - '0' as int)
  }

  /** The longest prefix of `s` whose characters all satisfy `p`. */
  function TakeWhile(s: string, p: char -> bool): (t: string)
    ensures |t| <= |s| && t == s[..|t|]
    ensures forall i :: 0 <= i < |t| ==> p(t[i])
    ensures |t| < |s| ==> !p(s[|t|])
  {
    if |s| > 0 && p(s[0]) then [s[0]] + TakeWhile(s[1..], p) else []
  }

  /** Reads one or more decimal digits. */
  function ParseDigits(s: string): Option<nat> {
    if |s| > 0 && AllDigits(s) then Some(DigitsValue(s)) else None
  }

  /** Reads an optional '-' followed by one or more decimal digits. */
  function ParseInt(s: string): Option<int> {
    if |s| > 0 && s[0] == '-' then
      match ParseDigits(s[1..])
      case None => None
      case Some(n) => Some(-(n as int))
    else
      match ParseDigits(s)
      case None => None
      case Some(n) => Some(n)
  }

  /** The part after the month name: the day with its ordinal suffix, a space and the year. */
  function DayAndYear(day: int, year: int): string {
    IntToString(day) + OrdinalSuffix(day) + " " + IntToString(year)
  }

  /** The formatter's output for a decomposed date: the month name, a space, then the day and year. */
  function FormatDate(x: Date): string
    requires ValidDate(x)
  {
    MonthName(x.month) + " " + DayAndYear(x.day, x.year)
  }

  /** Reads a day numeral, the suffix of THAT day, a space and a year numeral, for month `m`. */
  function ParseDayAndYear(rest: string, m: int): Option<Date> {
    var digits := TakeWhile(rest, IsDigit);
    if |digits| == 0 then None
    else
      var day := DigitsValue(digits);
      var tail := rest[|digits|..];
      if |tail| < 3 || tail[..2] != OrdinalSuffix(day) || tail[2] != ' ' then None
      else
        match ParseInt(tail[3..])
        case None => None
        case Some(year) => Some(Date(year, m, day))
  }

  /** Reads the display form back: a month name, a space, then the day and year. */
  function ParseDate(s: string): Option<Date> {
    var name := TakeWhile(s, IsNotSpace);
    var m := MonthNumber(name);
    if m == 0 || |s| == |name| then None
    else ParseDayAndYear(s[|name| + 1..], m)
  }

  lemma {:induction false} DigitsValueOfNatToString(n: nat)
    ensures DigitsValue(NatToString(n)) == n
  {
    if n >= 10 {
      var s := NatToString(n);
      assert s[..|s| - 1] == NatToString(n / 10);
      DigitsValueOfNatToString(n / 10);
    }
  }

  lemma ParseUnsigned(ds: string)
    requires |ds| > 0 && AllDigits(ds)
    ensures ParseInt(ds) == Some(DigitsValue(ds) as int)
  {
    assert ds[0] != '-' by { assert IsDigit(ds[0]); }
  }

  lemma ParseSigned(ds: string)
    requires |ds| > 0 && AllDigits(ds)
    ensures ParseInt("-" + ds) == Some(-(DigitsValue(ds) as int))
  {
    assert ("-" + ds)[1..] == ds;
  }

  lemma ParseIntOfIntToString(i: int)
    ensures ParseInt(IntToString(i)) == Some(i)
  {
    if i < 0 {
      var n: nat := -i;
      var ds := NatToString(n);
      assert IntToString(i) == "-" + ds;
      DigitsValueOfNatToString(n);
      assert DigitsValue(ds) == n;
      ParseSigned(ds);
    } else {
      var ds := NatToString(i);
      assert IntToString(i) == ds;
      DigitsValueOfNatToString(i);
      ParseUnsigned(ds);
    }
  }

  /** `TakeWhile` stops exactly where `a` ends when the next character fails `p`. */
  lemma {:induction false} TakeWhileStopsAt(a: string, rest: string, p: char -> bool)
    requires forall i :: 0 <= i < |a| ==> p(a[i])
    requires |rest| > 0 && !p(rest[0])
    ensures TakeWhile(a + rest, p) == a
  {
    if |a| > 0 {
      assert (a + rest)[1..] == a[1..] + rest;
      TakeWhileStopsAt(a[1..], rest, p);
    } else {
      assert a + rest == rest;
    }
  }

  lemma MonthNameRoundTrip(m: int)
    requires 1 <= m <= 12
    ensures MonthNumber(MonthName(m)) == m
    ensures forall i :: 0 <= i < |MonthName(m)| ==> IsNotSpace(MonthName(m)[i])
  {
  }

  lemma ParseDayAndYearRoundTrip(day: nat, year: int, m: int)
    ensures ParseDayAndYear(DayAndYear(day, year), m) == Some(Date(year, m, day))
  {
    var dayStr, suffix, yearStr := NatToString(day), OrdinalSuffix(day), IntToString(year);
    var rest := DayAndYear(day, year);
    assert suffix[0] in "snrt" by {
      assert suffix in {"st", "nd", "rd", "th"};
    }
    assert rest == dayStr + (suffix + " " + yearStr);
    TakeWhileStopsAt(dayStr, suffix + " " + yearStr, IsDigit);
    DigitsValueOfNatToString(day);
    var tail := rest[|dayStr|..];
    assert tail == suffix + " " + yearStr;
    assert tail[..2] == suffix && tail[2] == ' ' && tail[3..] == yearStr;
    ParseIntOfIntToString(year);
  }

  /** A known month name followed by a space is read as that month, and reading goes on after the space. */
  lemma ParseDateAfterName(name: string, m: int, rest: string)
    requires 1 <= m <= 12 && MonthNumber(name) == m
    requires forall i :: 0 <= i < |name| ==> IsNotSpace(name[i])
    ensures ParseDate(name + " " + rest) == ParseDayAndYear(rest, m)
  {
    var s := name + " " + rest;
    assert s == name + (" " + rest);
    TakeWhileStopsAt(name, " " + rest, IsNotSpace);
    assert s[|name| + 1..] == rest;
  }

  /**
    Reading a formatted date gives back the date it was formatted from, so
    distinct dates are displayed differently and the printed suffix is the
    suffix of the printed day.
   */
  lemma FormatDateRoundTrip(x: Date)
    requires ValidDate(x)
    ensures ParseDate(FormatDate(x)) == Some(x)
  {
    MonthNameRoundTrip(x.month);
    ParseDateAfterName(MonthName(x.month), x.month, DayAndYear(x.day, x.year));
    ParseDayAndYearRoundTrip(x.day, x.year, x.month);
  }

  /** Two dates are displayed alike only when they are the same date. */
  lemma FormatDateInjective(x: Date, y: Date)
    requires ValidDate(x) && ValidDate(y)
    ensures FormatDate(x) == FormatDate(y) <==> x == y
  {
    if FormatDate(x) == FormatDate(y) {
      FormatDateRoundTrip(x);
      FormatDateRoundTrip(y);
    }
  }
}
