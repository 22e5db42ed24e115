/** The proleptic Gregorian calendar as JavaScript's `Date` and Python's `datetime.date`
    count it: month lengths, ordinal day numbers, weekdays, day overflow and day offsets. */
module Gregorian {

  datatype GDate = GDate(year: int, month: int, day: int)

  predicate IsLeapYear(y: int)
  {
    (y % 4 == 0 && y % 100 != 0) || y % 400 == 0
  }

  function YearLength(y: int): int
  {
    if IsLeapYear(y) then 366 else 365
  }

  function DaysInMonth(y: int, m: int): (n: int)
    requires 1 <= m <= 12
    ensures 28 <= n <= 31
    ensures n == 31 <==> m in {1, 3, 5, 7, 8, 10, 12}
  {
    if m == 2 then (if IsLeapYear(y) then 29 else 28)
    else if m == 4 || m == 6 || m == 9 || m == 11 then 30
    else 31
  }

  /** A date that exists in the calendar. */
  predicate Valid(g: GDate)
  {
    1 <= g.month <= 12 && 1 <= g.day <= DaysInMonth(g.year, g.month)
  }

  /** Days of year `y` before the first of month `m`; `m = 13` gives the whole year. */
  function DaysBeforeMonth(y: int, m: int): nat
    requires 1 <= m <= 13
  {
    [0, 31, 59, 90, 120, 151, 181, 212, 243, 273, 304, 334, 365][m - 1]
      + (if m > 2 && IsLeapYear(y) then 1 else 0)
  }

  lemma DaysBeforeNextMonth(y: int, m: int)
    requires 1 <= m <= 12
    ensures DaysBeforeMonth(y, m + 1) == DaysBeforeMonth(y, m) + DaysInMonth(y, m)
    ensures m == 12 ==> DaysBeforeMonth(y, 13) == YearLength(y)
  {
  }

  /** Days in all the years before year `y`, counted from 0001-01-01. */
  function DaysBeforeYear(y: int): int
  {
    var p := y - 1;
    365 * p + p / 4 - p / 100 + p / 400
  }

  lemma DaysBeforeNextYear(y: int)
    ensures DaysBeforeYear(y + 1) == DaysBeforeYear(y) + YearLength(y)
  {
    assert y / 4 - (y - 1) / 4 == (if y % 4 == 0 then 1 else 0);
    assert y / 100 - (y - 1) / 100 == (if y % 100 == 0 then 1 else 0);
    assert y / 400 - (y - 1) / 400 == (if y % 400 == 0 then 1 else 0);
  }

  /** Python's `date.toordinal()`: 0001-01-01 is day 1, and `(b - a).days` is
      `DayNumber(b) - DayNumber(a)`. */
  function DayNumber(g: GDate): int
    requires Valid(g)
  {
    DaysBeforeYear(g.year) + DaysBeforeMonth(g.year, g.month) + g.day
  }

  /** JavaScript's `getDay()`: 0 is Sunday, 6 is Saturday (0001-01-01 was a Monday). */
  function Weekday(g: GDate): (w: int)
    requires Valid(g)
    ensures 0 <= w <= 6
  {
    DayNumber(g) % 7
  }

  lemma NowruzOf1403IsAWednesday()
    ensures Valid(GDate(2024, 3, 20)) && DayNumber(GDate(2024, 3, 20)) == 738965
    ensures Weekday(GDate(2024, 3, 20)) == 3
  {
  }

  /** The last day of a month is followed by the first day of the next. */
  lemma MonthBoundary(y: int, m: int)
    requires 1 <= m < 12
    ensures Valid(GDate(y, m, DaysInMonth(y, m))) && Valid(GDate(y, m + 1, 1))
    ensures DayNumber(GDate(y, m + 1, 1)) == DayNumber(GDate(y, m, DaysInMonth(y, m))) + 1
  {
    DaysBeforeNextMonth(y, m);
  }

  /** December 31 is followed by January 1 of the next year. */
  lemma YearBoundary(y: int)
    ensures Valid(GDate(y, 12, 31)) && Valid(GDate(y + 1, 1, 1))
    ensures DayNumber(GDate(y + 1, 1, 1)) == DayNumber(GDate(y, 12, 31)) + 1
  {
    DaysBeforeNextMonth(y, 12);
    DaysBeforeNextYear(y);
  }

  function NextDay(g: GDate): (r: GDate)
    requires Valid(g)
    ensures Valid(r) && DayNumber(r) == DayNumber(g) + 1
  {
    if g.day < DaysInMonth(g.year, g.month) then g.(day := g.day + 1)
    else if g.month < 12 then
      MonthBoundary(g.year, g.month);
      GDate(g.year, g.month + 1, 1)
    else
      YearBoundary(g.year);
      GDate(g.year + 1, 1, 1)
  }

  lemma WeekdayOfNextDay(g: GDate)
    requires Valid(g)
    ensures Weekday(NextDay(g)) == (Weekday(g) + 1) % 7
  {
    var n := DayNumber(g);
    assert DayNumber(NextDay(g)) == n + 1;
    ModSevenStep(n);
  }

  lemma ModSevenStep(n: int)
    ensures (n + 1) % 7 == (n % 7 + 1) % 7
  {
  }

  function PrevDay(g: GDate): (r: GDate)
    requires Valid(g)
    ensures Valid(r) && DayNumber(r) == DayNumber(g) - 1
  {
    if g.day > 1 then g.(day := g.day - 1)
    else if g.month > 1 then
      MonthBoundary(g.year, g.month - 1);
      GDate(g.year, g.month - 1, DaysInMonth(g.year, g.month - 1))
    else
      YearBoundary(g.year - 1);
      GDate(g.year - 1, 12, 31)
  }

  /** Stepping back a day and then forward again returns to the same date. */
  lemma NextOfPrevDay(g: GDate)
    requires Valid(g)
    ensures NextDay(PrevDay(g)) == g
  {
    if g.day == 1 && g.month > 1 {
      MonthBoundary(g.year, g.month - 1);
    }
  }

  /** The date `n` days after `g` (before it when `n < 0`), as adding `n * 86400000`
      milliseconds to a JavaScript `Date` or a `timedelta(days=n)` to a Python date does. */
  function AddDays(g: GDate, n: int): (r: GDate)
    requires Valid(g)
    ensures Valid(r) && DayNumber(r) == DayNumber(g) + n
    decreases if n >= 0 then n else -n
  {
    if n == 0 then g
    else if n > 0 then AddDays(NextDay(g), n - 1)
    else AddDays(PrevDay(g), n + 1)
  }

  /** `new Date(y, m - 1, d)` with `1 <= m <= 12` and `1 <= d <= 31`: a day past the end
      of the month rolls over into the next month (February 30 becomes March 1 or 2). */
  function Normalize(c: GDate): (r: GDate)
    requires 1 <= c.month <= 12 && 1 <= c.day <= 31
    ensures Valid(r)
    ensures r == c <==> Valid(c)
  {
    var n := DaysInMonth(c.year, c.month);
    if c.day <= n then c else GDate(c.year, c.month + 1, c.day - n)
  }

  /** The rolled-over date lies as many days after the first of the month as the slot says. */
  lemma NormalizeDayNumber(c: GDate)
    requires 1 <= c.month <= 12 && 1 <= c.day <= 31
    ensures DayNumber(Normalize(c)) == DaysBeforeYear(c.year) + DaysBeforeMonth(c.year, c.month) + c.day
  {
    DaysBeforeNextMonth(c.year, c.month);
  }
}
