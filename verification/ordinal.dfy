/**
  The English ordinal suffix that the date formatter appends to a day number.
 */
module Ordinal {

  /**
    JavaScript's `a % 10`: the remainder of division truncated toward zero,
    so it takes the sign of `a`.
   */
  function JsRemainder10(a: int): (r: int)
    ensures a >= 0 ==> 0 <= r < 10
    ensures a < 0 ==> -10 < r <= 0
    ensures (a - r) % 10 == 0
  {
    if a >= 0 then a % 10 else -((-a) % 10)
  }

  /**
    The suffix for a day number: "th" for 4..20, otherwise chosen by the
    last digit (1 "st", 2 "nd", 3 "rd", anything else "th").
   */
  function OrdinalSuffix(day: int): (s: string)
    ensures s in {"st", "nd", "rd", "th"}
    ensures 3 < day < 21 ==> s == "th"
  {
    if day > 3 && day < 21 then "th"
    else
      var last := JsRemainder10(day);
      if last == 1 then "st"
      else if last == 2 then "nd"
      else if last == 3 then "rd"
      else "th"
  }

  /** The usual English rule: 11, 12 and 13 after any hundred take "th", otherwise the last digit decides. */
  function EnglishOrdinalSuffix(n: nat): string {
    if 11 <= n % 100 <= 13 then "th"
    else if n % 10 == 1 then "st"
    else if n % 10 == 2 then "nd"
    else if n % 10 == 3 then "rd"
    else "th"
  }

  /** For every number a day can be, and well beyond, the suffix is the English one. */
  lemma OrdinalSuffixIsEnglish(d: int)
    requires 0 <= d <= 110
    ensures OrdinalSuffix(d) == EnglishOrdinalSuffix(d)
  {
    if d > 3 && d < 21 {
      assert 11 <= d % 100 <= 13 || d % 10 !in {1, 2, 3};
    } else if d >= 100 {
      assert d % 100 == d - 100;
    } else {
      assert d % 100 == d;
    }
  }

  /** The rule breaks down at 111, which a day of the month never reaches. */
  lemma OrdinalSuffixBeyondDays()
    ensures OrdinalSuffix(111) == "st" && EnglishOrdinalSuffix(111) == "th"
  {
  }

  /** The suffix of every day of a month, both directions. */
  lemma OrdinalSuffixOfDays(d: int)
    requires 1 <= d <= 31
    ensures OrdinalSuffix(d) == "st" <==> d in {1, 21, 31}
    ensures OrdinalSuffix(d) == "nd" <==> d in {2, 22}
    ensures OrdinalSuffix(d) == "rd" <==> d in {3, 23}
    ensures OrdinalSuffix(d) == "th" <==> 4 <= d <= 20 || 24 <= d <= 30
  {
    var s := OrdinalSuffix(d);
    assert "st" != "nd" && "st" != "rd" && "st" != "th" && "nd" != "rd" && "nd" != "th" && "rd" != "th" by {
      assert "st"[0] == 's' && "nd"[0] == 'n' && "rd"[0] == 'r' && "th"[0] == 't';
    }
    if 21 <= d {
      assert JsRemainder10(d) == d - (if d < 30 then 20 else 30);
    }
  }

  /**
    Zero and negative numbers always take "th": JavaScript's remainder of a
    negative number is never 1, 2 or 3 (-9 % 10 is -9, where a flooring
    remainder would give 1 and "st").
   */
  lemma NonPositiveTakesTh(d: int)
    requires d <= 0
    ensures OrdinalSuffix(d) == "th"
  {
  }
}
