/** Jalali (Solar Hijri) dates and the month arithmetic every part of the plugin shares:
    the month-length rule, the JavaScript leap-year approximation and month rollover. */
module JalaliDate {
  import opened Base

  /** A Jalali date as the plugin passes it around: `{jy, jm, jd}`. */
  datatype JDate = JDate(jy: int, jm: int, jd: int)

  /** A Jalali month of a given year. */
  datatype YearMonth = YearMonth(year: int, month: int)

  /** The month-length rule written out in both languages: months up to 6 have 31 days,
      months 7 to 11 have 30, and the last month has 30 in a leap year and 29 otherwise. */
  function MonthLength(jm: int, leap: bool): (n: int)
    ensures 29 <= n <= 31
  {
    if jm <= 6 then 31 else if jm <= 11 then 30 else if leap then 30 else 29
  }

  /** The JavaScript widgets' leap-year test `jy % 4 === 3`, with JavaScript's remainder. */
  predicate JsLeap(jy: int)
  {
    JsRem(jy, 4) == 3
  }

  /** The JavaScript widgets' days-in-month expression. */
  function JsDaysInMonth(jy: int, jm: int): (n: int)
    ensures 1 <= jm <= 6 ==> n == 31
    ensures 7 <= jm <= 11 ==> n == 30
    ensures jm == 12 ==> (n == 30 <==> jy % 4 == 3 && jy >= 0) && (n == 29 || n == 30)
  {
    MonthLength(jm, JsLeap(jy))
  }

  /** With JavaScript's remainder, exactly one year in four is leap from year 0 on,
      and no year before 0 is. */
  lemma JsLeapEveryFourthYear(jy: int)
    ensures jy >= 0 ==> (JsLeap(jy) <==> jy % 4 == 3)
    ensures jy >= 0 ==> JsLeap(jy) || JsLeap(jy + 1) || JsLeap(jy + 2) || JsLeap(jy + 3)
    ensures jy >= 0 && JsLeap(jy) ==> !JsLeap(jy + 1) && !JsLeap(jy + 2) && !JsLeap(jy + 3)
    ensures jy < 0 ==> !JsLeap(jy)
  {
  }

  /** A date that exists under a given leap-year rule. */
  predicate ValidUnder(j: JDate, isLeap: int -> bool)
  {
    1 <= j.jm <= 12 && 1 <= j.jd <= MonthLength(j.jm, isLeap(j.jy))
  }

  /** Months counted from year 0: consecutive months have consecutive indices. */
  function MonthIndex(ym: YearMonth): int
  {
    ym.year * 12 + (ym.month - 1)
  }

  /** The following month: month 12 rolls over to month 1 of the next year (any other
      month number, even one outside 1..12, is just incremented). */
  function MonthAfter(ym: YearMonth): (r: YearMonth)
    ensures 1 <= ym.month <= 12 ==> 1 <= r.month <= 12
    ensures MonthIndex(r) == MonthIndex(ym) + 1
    ensures r.year != ym.year <==> ym.month == 12
  {
    if ym.month == 12 then YearMonth(ym.year + 1, 1) else YearMonth(ym.year, ym.month + 1)
  }

  /** The preceding month: month 1 rolls back to month 12 of the previous year. */
  function MonthBefore(ym: YearMonth): (r: YearMonth)
    ensures 1 <= ym.month <= 12 ==> 1 <= r.month <= 12
    ensures MonthIndex(r) == MonthIndex(ym) - 1
    ensures r.year != ym.year <==> ym.month == 1
  {
    if ym.month == 1 then YearMonth(ym.year - 1, 12) else YearMonth(ym.year, ym.month - 1)
  }

  /** Going back a month and then forward again (or the other way) changes nothing. */
  lemma MonthBeforeAfterInverse(ym: YearMonth)
    requires 1 <= ym.month <= 12
    ensures MonthAfter(MonthBefore(ym)) == ym
    ensures MonthBefore(MonthAfter(ym)) == ym
  {
  }
}
