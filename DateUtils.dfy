/** The Jalali month helpers of the server side (`utils/date_utils.py`): the last day of a
    month, the month-end test, stepping to the same day of the next month, and the Gregorian
    date of the next month's last day. `jdatetime`'s conversions and its leap-year test are
    parameters. */
module DateUtils {
  import opened Gregorian
  import opened JalaliDate

  /** `jdatetime.j_isleap`. */
  type LeapRule = int -> bool

  /** `jdatetime.date.fromgregorian`. */
  type ToJalali = GDate -> JDate

  /** `jdatetime.date.togregorian`. */
  type ToGregorian = JDate -> GDate

  /** `j_end_of_month`: the same year and month, on its last day. */
  function JEndOfMonth(j: JDate, isLeap: LeapRule): (r: JDate)
    requires ValidUnder(j, isLeap)
    ensures r.jy == j.jy && r.jm == j.jm
    ensures ValidUnder(r, isLeap) && j.jd <= r.jd
    ensures !ValidUnder(r.(jd := r.jd + 1), isLeap)
    ensures 1 <= j.jm <= 6 ==> r.jd == 31
    ensures 7 <= j.jm <= 11 ==> r.jd == 30
    ensures j.jm == 12 ==> (r.jd == 30 <==> isLeap(j.jy)) && (r.jd == 29 || r.jd == 30)
  {
    JDate(j.jy, j.jm, MonthLength(j.jm, isLeap(j.jy)))
  }

  /** The last day of a month is its own month end. */
  lemma JEndOfMonthIdempotent(j: JDate, isLeap: LeapRule)
    requires ValidUnder(j, isLeap)
    ensures JEndOfMonth(JEndOfMonth(j, isLeap), isLeap) == JEndOfMonth(j, isLeap)
  {
  }

  /** With the widgets' leap rule, the Python month end is the JavaScript days-in-month. */
  lemma JEndOfMonthMatchesWidgets(j: JDate)
    requires ValidUnder(j, JsLeap)
    ensures JEndOfMonth(j, JsLeap).jd == JsDaysInMonth(j.jy, j.jm)
  {
  }

  /** `is_j_month_end`: the Jalali image of `g` is the last day of its month. */
  function IsJMonthEnd(toJalali: ToJalali, isLeap: LeapRule, g: GDate): (b: bool)
    requires ValidUnder(toJalali(g), isLeap)
    ensures b <==> toJalali(g).jd == MonthLength(toJalali(g).jm, isLeap(toJalali(g).jy))
    ensures b <==> !ValidUnder(toJalali(g).(jd := toJalali(g).jd + 1), isLeap)
  {
    var j := toJalali(g);
    j == JEndOfMonth(j, isLeap)
  }

  /** `next_j_month_same_day`: the following month, on the same day when that month has it and
      on its last day otherwise. */
  function NextJMonthSameDay(j: JDate, isLeap: LeapRule): (r: JDate)
    requires ValidUnder(j, isLeap)
    ensures YearMonth(r.jy, r.jm) == MonthAfter(YearMonth(j.jy, j.jm))
    ensures ValidUnder(r, isLeap)
    ensures r.jd <= j.jd
    ensures r.jd == j.jd <==> ValidUnder(JDate(r.jy, r.jm, j.jd), isLeap)
    ensures r.jd < j.jd ==> r == JEndOfMonth(r, isLeap)
  {
    var m2 := if j.jm == 12 then 1 else j.jm + 1;
    var y2 := if j.jm == 12 then j.jy + 1 else j.jy;
    var last := MonthLength(m2, isLeap(y2));
    JDate(y2, m2, if j.jd < last then j.jd else last)
  }

  /** The month end of the month after `g`'s Jalali month. */
  function NextMonthEnd(toJalali: ToJalali, isLeap: LeapRule, g: GDate): (j: JDate)
    requires ValidUnder(toJalali(g), isLeap)
    ensures ValidUnder(j, isLeap)
    ensures YearMonth(j.jy, j.jm) == MonthAfter(YearMonth(toJalali(g).jy, toJalali(g).jm))
    ensures j == JEndOfMonth(j, isLeap)
  {
    var nm := NextJMonthSameDay(toJalali(g), isLeap);
    JEndOfMonth(nm, isLeap)
  }

  /** `next_gregorian_for_j_month_end`. */
  function NextGregorianForJMonthEnd(toJalali: ToJalali, toGregorian: ToGregorian, isLeap: LeapRule, g: GDate): GDate
    requires ValidUnder(toJalali(g), isLeap)
  {
    toGregorian(NextMonthEnd(toJalali, isLeap, g))
  }

  /** The two conversions undo each other on the valid Jalali dates. */
  ghost predicate RoundTrips(toJalali: ToJalali, toGregorian: ToGregorian, isLeap: LeapRule)
  {
    forall j :: ValidUnder(j, isLeap) ==> toJalali(toGregorian(j)) == j
  }

  /** When the conversions undo each other, the date returned is a Jalali month end, in the
      month after the one `g` falls in. */
  lemma NextGregorianIsNextMonthEnd(toJalali: ToJalali, toGregorian: ToGregorian, isLeap: LeapRule, g: GDate)
    requires ValidUnder(toJalali(g), isLeap)
    requires RoundTrips(toJalali, toGregorian, isLeap)
    ensures var r := NextGregorianForJMonthEnd(toJalali, toGregorian, isLeap, g);
      && ValidUnder(toJalali(r), isLeap)
      && IsJMonthEnd(toJalali, isLeap, r)
      && YearMonth(toJalali(r).jy, toJalali(r).jm) == MonthAfter(YearMonth(toJalali(g).jy, toJalali(g).jm))
  {
    var j := NextMonthEnd(toJalali, isLeap, g);
    assert toJalali(toGregorian(j)) == j;
  }
}
