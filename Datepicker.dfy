/** The second generation of the date widget, the `JalaliDatepicker` class of the bundled
    script: an open flag, a view (days, months or years), the month on display, the selected
    date and a decade range, together with the day and decade grids it draws, the calendar
    settings it caches and the Fiscal Year defaults it fills in. Rendering is reduced to the
    state it leaves behind: the weekday header, the day cells and the year cells. */
module Datepicker {
  import opened Base
  import opened Text
  import opened Gregorian
  import opened JalaliDate
  import opened Jalaali
  import opened PersianCalendar

  // ---------------------------------------------------------------------------
  // Calendar settings

  /** The server's effective calendar: display calendar and week bounds. */
  datatype EffectiveCalendar = EffectiveCalendar(displayCalendar: string, weekStart: Option<int>, weekEnd: Option<int>)

  /** The value `EFFECTIVE_CALENDAR` starts with. */
  const DefaultCalendar := EffectiveCalendar("Jalali", Some(6), Some(5))

  /** The cached answer of `getCalendarSettings`. */
  datatype CalendarSettings = CalendarSettings(enabled: bool, calendar: EffectiveCalendar, firstDay: Option<int>)

  /** What the cache holds when Jalali is disabled or the server could not be reached. */
  const DisabledSettings := CalendarSettings(false, EffectiveCalendar("Gregorian", None, None), None)

  /** The outcome of the two server calls: a failure, "not enabled", or "enabled" with the
      effective calendar if one came back. */
  datatype Fetch = Failed | NotEnabled | Enabled(message: Option<EffectiveCalendar>)

  /** `EFFECTIVE_CALENDAR.week_start || 6` as written: a week start of 0 (Sunday) is falsy
      and turns into 6 (Saturday). */
  function FirstDayAsWritten(weekStart: Option<int>): (firstDay: int)
    ensures weekStart.Some? && weekStart.value != 0 ==> firstDay == weekStart.value
    ensures weekStart == Some(0) || weekStart.None? ==> firstDay == 6
  {
    if weekStart.Some? && weekStart.value != 0 then weekStart.value else 6
  }

  /** The two readings of the week start differ exactly on a Sunday start. */
  lemma SundayWeekStartIsLost(weekStart: Option<int>)
    ensures FirstDayAsWritten(weekStart) != FirstDayFromWeekBounds(weekStart) <==> weekStart == Some(0)
  {
  }

  /** The settings the cache should be filled with, given what the server said and the
      effective calendar in force before: the week start follows the server's value whenever
      it has one, Sunday included. */
  function ResolveSettings(fetch: Fetch, before: EffectiveCalendar): (s: CalendarSettings)
    ensures s.enabled <==> fetch.Enabled?
    ensures !s.enabled ==> s == DisabledSettings
    ensures fetch == Enabled(None) ==> s.calendar == before
    ensures fetch.Enabled? && fetch.message.Some? ==> s.calendar == fetch.message.value
    ensures s.enabled && s.calendar.weekStart.Some? ==> s.firstDay == Some(s.calendar.weekStart.value)
    ensures s.enabled && s.calendar.weekStart.None? ==> s.firstDay == Some(6)
  {
    match fetch
    case Enabled(message) =>
      var calendar := if message.Some? then message.value else before;
      CalendarSettings(true, calendar, Some(FirstDayFromWeekBounds(calendar.weekStart)))
    case _ => DisabledSettings
  }

  /** What `getCalendarSettings` fills the cache with: `FIRST_DAY` is `week_start || 6`, so the
      result differs from the corrected reading only on a Sunday week start. */
  function ResolveSettingsAsWritten(fetch: Fetch, before: EffectiveCalendar): (s: CalendarSettings)
    ensures s.enabled <==> fetch.Enabled?
    ensures !s.enabled ==> s == DisabledSettings
    ensures s.calendar == ResolveSettings(fetch, before).calendar
    ensures s.enabled ==> s.firstDay == Some(FirstDayAsWritten(s.calendar.weekStart))
    ensures s != ResolveSettings(fetch, before) <==> s.enabled && s.calendar.weekStart == Some(0)
  {
    var r := ResolveSettings(fetch, before);
    if r.enabled then r.(firstDay := Some(FirstDayAsWritten(r.calendar.weekStart))) else r
  }

  /** `getCalendarSettings` with its module-level cache: the first call asks the server and
      stores the answer, every later call returns the stored answer unchanged. */
  class SettingsCache {
    var cache: Option<CalendarSettings>
    /** `EFFECTIVE_CALENDAR` and `FIRST_DAY`. */
    var effective: EffectiveCalendar
    var firstDay: int

    constructor ()
      ensures cache == None && effective == DefaultCalendar && firstDay == 6
    {
      cache := None;
      effective := DefaultCalendar;
      firstDay := 6;
    }

    method Get(fetch: Fetch) returns (s: CalendarSettings)
      modifies this
      ensures old(cache).Some? ==>
        s == old(cache).value && cache == old(cache) && effective == old(effective) && firstDay == old(firstDay)
      ensures old(cache).None? ==> s == ResolveSettingsAsWritten(fetch, old(effective)) && cache == Some(s)
      ensures old(cache).None? && s.enabled ==> effective == s.calendar && Some(firstDay) == s.firstDay
      ensures old(cache).None? && !s.enabled ==> effective == old(effective) && firstDay == old(firstDay)
    {
      if cache.Some? {
        return cache.value;
      }
      s := ResolveSettingsAsWritten(fetch, effective);
      if s.enabled {
        effective := s.calendar;
        firstDay := s.firstDay.value;
      }
      cache := Some(s);
    }
  }

  /** Asking twice gives the same answer, whatever the server says the second time. */
  method CachedTwice(c: SettingsCache, first: Fetch, second: Fetch) returns (a: CalendarSettings, b: CalendarSettings)
    modifies c
    ensures a == b
    ensures old(c.cache).None? ==> a == ResolveSettingsAsWritten(first, old(c.effective))
  {
    a := c.Get(first);
    b := c.Get(second);
  }

  // ---------------------------------------------------------------------------
  // First-day offset

  /** `getFirstDayOfMonth` as written: the weekday of the month's first day counted from
      Saturday, whatever the week start. */
  function FirstDayOffsetAsWritten(first: GDate): (offset: int)
    requires Valid(first)
    ensures 0 <= offset <= 6
  {
    (Weekday(first) + 1) % 7
  }

  /** The offset the header calls for: how many columns the header shows before the weekday
      of the month's first day. */
  function FirstDayOffset(first: GDate, firstDay: int): (offset: int)
    requires Valid(first)
    ensures 0 <= offset <= 6
  {
    (Weekday(first) - firstDay) % 7
  }

  /** Header column `(w - F) mod 7` shows weekday `w`. */
  lemma HeaderColumn(firstDay: int, w: int)
    requires firstDay >= 0 && 0 <= w <= 6
    ensures WeekdayIndices(firstDay)[(w - firstDay) % 7] == w
  {
    var d, k := (w - firstDay) / 7, (w - firstDay) % 7;
    assert w - firstDay == 7 * d + k;
    assert firstDay + k == w + 7 * (-d);
    assert (firstDay + k) % 7 == w;
    assert WeekdayIndices(firstDay)[k] == JsRem(firstDay + k, 7);
  }

  /** The first day of the month lands under its own weekday in the header. */
  lemma FirstDayOffsetMatchesHeader(first: GDate, firstDay: int)
    requires Valid(first) && firstDay >= 0
    ensures WeekdayIndices(firstDay)[FirstDayOffset(first, firstDay)] == Weekday(first)
  {
    HeaderColumn(firstDay, Weekday(first));
  }

  /** The as-written offset puts the first day of every month under its own weekday exactly
      when the week starts on Saturday. */
  lemma AsWrittenOffsetNeedsSaturdayStart(firstDay: int)
    requires firstDay >= 0
    ensures (forall g :: Valid(g) ==> WeekdayIndices(firstDay)[FirstDayOffsetAsWritten(g)] == Weekday(g))
      <==> firstDay % 7 == 6
  {
    var q, r := firstDay / 7, firstDay % 7;
    assert firstDay == 7 * q + r;
    if r == 6 {
      forall g | Valid(g)
        ensures WeekdayIndices(firstDay)[FirstDayOffsetAsWritten(g)] == Weekday(g)
      {
        var w := Weekday(g);
        HeaderColumn(firstDay, w);
        assert w - firstDay == (w + 1) + 7 * (-(q + 1));
        assert (w - firstDay) % 7 == (w + 1) % 7;
      }
    } else {
      var g := GDate(2024, 3, 20);
      NowruzOf1403IsAWednesday();
      assert FirstDayOffsetAsWritten(g) == 4;
      assert firstDay + 4 == 7 * q + (r + 4);
      assert WeekdayIndices(firstDay)[4] == (firstDay + 4) % 7;
      assert WeekdayIndices(firstDay)[4] != 3;
    }
  }

  /** With a Monday week start, 1403-01-01 (Wednesday 2024-03-20) is drawn under Friday. */
  lemma MondayStartMisplacesNowruz()
    ensures var first := GDate(2024, 3, 20);
      && Valid(first)
      && FirstDayOffsetAsWritten(first) == 4 && WeekdayIndices(1)[4] == 5
      && FirstDayOffset(first, 1) == 2 && WeekdayIndices(1)[2] == Weekday(first)
  {
    NowruzOf1403IsAWednesday();
  }

  // ---------------------------------------------------------------------------
  // Day grid

  /** A day cell: the date it stands for and whether it belongs to the month on display. */
  datatype DayCell = DayCell(date: JDate, inMonth: bool)

  /** The month before, as `updateDays` computes it: a month number below 1 becomes month 12
      of the year before. */
  function GridPrevMonth(ym: YearMonth): (r: YearMonth)
    ensures 1 <= ym.month <= 12 ==> r == MonthBefore(ym)
    ensures 1 <= r.month <= 12 || ym.month > 13
  {
    if ym.month - 1 < 1 then YearMonth(ym.year - 1, 12) else YearMonth(ym.year, ym.month - 1)
  }

  /** The month after, as `updateDays` computes it: a month number above 12 becomes month 1
      of the year after. */
  function GridNextMonth(ym: YearMonth): (r: YearMonth)
    ensures 1 <= ym.month <= 12 ==> r == MonthAfter(ym)
    ensures 1 <= r.month <= 12 || ym.month < 0
  {
    if ym.month + 1 > 12 then YearMonth(ym.year + 1, 1) else YearMonth(ym.year, ym.month + 1)
  }

  function LeadingCells(prev: YearMonth, prevDays: int, offset: nat): seq<DayCell>
  {
    seq(offset, k requires 0 <= k < offset => DayCell(JDate(prev.year, prev.month, prevDays - offset + 1 + k), false))
  }

  function MonthCells(cur: YearMonth, n: nat): seq<DayCell>
  {
    seq(n, k requires 0 <= k < n => DayCell(JDate(cur.year, cur.month, k + 1), true))
  }

  function TrailingCells(next: YearMonth, count: nat): seq<DayCell>
  {
    seq(count, k requires 0 <= k < count => DayCell(JDate(next.year, next.month, k + 1), false))
  }

  /** The cells `updateDays` draws for a month whose first day sits in column `offset`. */
  function DayGridOf(cur: YearMonth, offset: int): seq<DayCell>
    requires 0 <= offset <= 6
  {
    var prev := GridPrevMonth(cur);
    var n := JsDaysInMonth(cur.year, cur.month);
    LeadingCells(prev, JsDaysInMonth(prev.year, prev.month), offset)
      + MonthCells(cur, n)
      + TrailingCells(GridNextMonth(cur), 42 - offset - n)
  }

  /** `updateDays`: the tail of the previous month, the month itself, then the head of the
      next month until 42 cells are drawn. */
  method DayGrid(cur: YearMonth, offset: int) returns (cells: seq<DayCell>)
    requires 0 <= offset <= 6
    ensures cells == DayGridOf(cur, offset)
  {
    var n := JsDaysInMonth(cur.year, cur.month);
    var prev := GridPrevMonth(cur);
    var prevDays := JsDaysInMonth(prev.year, prev.month);
    var lead := LeadingCells(prev, prevDays, offset);
    cells := [];
    var i := offset - 1;
    while i >= 0
      invariant -1 <= i < offset
      invariant cells == lead[..offset - 1 - i]
    {
      cells := cells + [DayCell(JDate(prev.year, prev.month, prevDays - i), false)];
      i := i - 1;
    }
    assert cells == lead;
    var month := MonthCells(cur, n);
    var day := 1;
    while day <= n
      invariant 1 <= day <= n + 1
      invariant cells == lead + month[..day - 1]
    {
      cells := cells + [DayCell(JDate(cur.year, cur.month, day), true)];
      day := day + 1;
    }
    assert cells == lead + month;
    var next := GridNextMonth(cur);
    var remaining := 42 - (offset + n);
    var trail := TrailingCells(next, remaining);
    ghost var drawn := cells;
    day := 1;
    while day <= remaining
      invariant 1 <= day <= remaining + 1
      invariant cells == drawn + trail[..day - 1]
    {
      assert trail[..day] == trail[..day - 1] + [DayCell(JDate(next.year, next.month, day), false)];
      cells := cells + [DayCell(JDate(next.year, next.month, day), false)];
      day := day + 1;
    }
    assert trail[..remaining] == trail;
  }

  /** The day after `j` by the widgets' month-length rule, moving into the next month as the
      grid does. */
  function GridNextDay(j: JDate): JDate
  {
    if j.jd < JsDaysInMonth(j.jy, j.jm) then j.(jd := j.jd + 1)
    else
      var next := GridNextMonth(YearMonth(j.jy, j.jm));
      JDate(next.year, next.month, 1)
  }

  /** For a month in 1..12 the grid has 42 cells: `offset` cells ending on the last day of the
      month before, every day of the month in order, then the first days of the month after.
      Every cell is a real date under the widgets' leap rule, and each cell is the day after
      the one before it. */
  lemma DayGridShape(cur: YearMonth, offset: int)
    requires 1 <= cur.month <= 12 && 0 <= offset <= 6
    ensures var cells := DayGridOf(cur, offset);
      && |cells| == 42
      && (forall k :: 0 <= k < 42 ==> (cells[k].inMonth <==> offset <= k < offset + JsDaysInMonth(cur.year, cur.month)))
      && (forall k :: 0 <= k < 42 ==> ValidUnder(cells[k].date, JsLeap))
      && (forall d :: 1 <= d <= JsDaysInMonth(cur.year, cur.month) ==> cells[offset + d - 1].date == JDate(cur.year, cur.month, d))
      && (offset > 0 ==> cells[offset - 1].date == JDate(MonthBefore(cur).year, MonthBefore(cur).month, JsDaysInMonth(MonthBefore(cur).year, MonthBefore(cur).month)))
      && cells[41].date.jm == MonthAfter(cur).month
  {
    var cells := DayGridOf(cur, offset);
    var n := JsDaysInMonth(cur.year, cur.month);
    forall k | 0 <= k < 42
      ensures ValidUnder(cells[k].date, JsLeap)
    {
      if k < offset {
        assert cells[k] == LeadingCells(GridPrevMonth(cur), JsDaysInMonth(MonthBefore(cur).year, MonthBefore(cur).month), offset)[k];
      } else if k < offset + n {
        assert cells[k] == MonthCells(cur, n)[k - offset];
      } else {
        assert cells[k] == TrailingCells(GridNextMonth(cur), 42 - offset - n)[k - offset - n];
      }
    }
  }

  /** The grid shows 42 consecutive days. */
  lemma DayGridConsecutive(cur: YearMonth, offset: int)
    requires 1 <= cur.month <= 12 && 0 <= offset <= 6
    ensures var cells := DayGridOf(cur, offset);
      |cells| == 42 && forall k :: 0 <= k < 41 ==> cells[k + 1].date == GridNextDay(cells[k].date)
  {
    var cells := DayGridOf(cur, offset);
    var n := JsDaysInMonth(cur.year, cur.month);
    var prev := MonthBefore(cur);
    var next := MonthAfter(cur);
    MonthBeforeAfterInverse(cur);
    forall k | 0 <= k < 41
      ensures cells[k + 1].date == GridNextDay(cells[k].date)
    {
      if k + 1 < offset {
        assert cells[k] == LeadingCells(prev, JsDaysInMonth(prev.year, prev.month), offset)[k];
        assert cells[k + 1] == LeadingCells(prev, JsDaysInMonth(prev.year, prev.month), offset)[k + 1];
      } else if k + 1 == offset {
        assert cells[k] == LeadingCells(prev, JsDaysInMonth(prev.year, prev.month), offset)[k];
        assert cells[k + 1] == MonthCells(cur, n)[0];
      } else if k + 1 < offset + n {
        assert cells[k] == MonthCells(cur, n)[k - offset];
        assert cells[k + 1] == MonthCells(cur, n)[k + 1 - offset];
      } else if k + 1 == offset + n {
        assert cells[k] == MonthCells(cur, n)[n - 1];
        assert cells[k + 1] == TrailingCells(next, 42 - offset - n)[0];
      } else {
        assert cells[k] == TrailingCells(next, 42 - offset - n)[k - offset - n];
        assert cells[k + 1] == TrailingCells(next, 42 - offset - n)[k + 1 - offset - n];
      }
    }
  }

  /** In the grid as drawn, the first of the month sits in the column `getFirstDayOfMonth`
      gives, and that column's header shows the first's own weekday exactly when the week
      starts on Saturday. */
  lemma DrawnFirstOfMonth(cur: YearMonth, first: GDate, firstDay: int)
    requires 1 <= cur.month <= 12 && Valid(first) && firstDay >= 0
    ensures var offset := FirstDayOffsetAsWritten(first);
      DayGridOf(cur, offset)[offset].date == JDate(cur.year, cur.month, 1)
    ensures firstDay % 7 == 6 ==> WeekdayIndices(firstDay)[FirstDayOffsetAsWritten(first)] == Weekday(first)
  {
    DayGridShape(cur, FirstDayOffsetAsWritten(first));
    AsWrittenOffsetNeedsSaturdayStart(firstDay);
  }

  // ---------------------------------------------------------------------------
  // Decade grid

  /** The decade `updateYearsView` shows for a year: `floor(jy / 10) * 10` to nine years on. */
  datatype YearRange = YearRange(start: int, end: int)

  function DecadeOf(jy: int): (r: YearRange)
    ensures r.start % 10 == 0 && r.start <= jy <= r.end && r.end == r.start + 9
  {
    YearRange((jy / 10) * 10, (jy / 10) * 10 + 9)
  }

  /** Any year of a decade, and only those years, gives that decade. */
  lemma DecadeOfYearInDecade(start: int, jy: int)
    requires start % 10 == 0
    ensures DecadeOf(jy).start == start <==> start <= jy <= start + 9
  {
    var q := start / 10;
    assert start == 10 * q;
    if start <= jy <= start + 9 {
      assert jy == 10 * q + (jy - start);
    }
  }

  /** The year cells: the decade with one year either side, twelve in all. */
  function YearCellsOf(r: YearRange): seq<int>
  {
    seq(12, k requires 0 <= k < 12 => r.start - 1 + k)
  }

  /** The loop of `updateYearsView`. */
  method YearCells(r: YearRange) returns (years: seq<int>)
    requires r.end == r.start + 9
    ensures years == YearCellsOf(r)
  {
    years := [];
    var year := r.start - 1;
    while year <= r.end + 1
      invariant r.start - 1 <= year <= r.end + 2
      invariant years == YearCellsOf(r)[..year - (r.start - 1)]
    {
      years := years + [year];
      year := year + 1;
    }
  }

  /** Twelve cells from the year before the decade to the year after it; exactly the ten
      inner cells belong to the decade and can be chosen. */
  lemma YearCellsShape(jy: int)
    ensures var r := DecadeOf(jy); var years := YearCellsOf(r);
      && |years| == 12 && years[0] == r.start - 1 && years[11] == r.end + 1
      && (forall k :: 0 <= k < 12 ==> (r.start <= years[k] <= r.end <==> 1 <= k <= 10))
      && jy in years[1..11]
  {
    var r := DecadeOf(jy);
    assert YearCellsOf(r)[jy - r.start + 1] == jy;
  }

  /** A decade step from an aligned decade lands on the decade `direction` years on. */
  lemma DecadeStep(start: int, direction: int)
    requires start % 10 == 0 && direction % 10 == 0
    ensures DecadeOf(start + direction + 4) == YearRange(start + direction, start + direction + 9)
  {
    DecadeOfYearInDecade(start + direction, start + direction + 4);
  }

  // ---------------------------------------------------------------------------
  // The date picker class

  /** The pickers on the page, as a set of objects. */
  function Instances(pickers: seq<JalaliDatepicker>): set<JalaliDatepicker>
  {
    set k | 0 <= k < |pickers| :: pickers[k]
  }

  datatype View = Days | Months | Years

  /** The date an input's text names: none for an empty input or one that does not parse to
      three numbers. */
  function InputDate(s: string): (r: Option<JDate>)
    ensures r.Some? ==> s != "" && ParseJalaliDate(s) == Some(PartsOf(r.value))
  {
    if s == "" then None else PartsDate(ParseJalaliDate(s))
  }

  class JalaliDatepicker {
    var isOpen: bool
    var view: View
    /** The month on display (and, after a click outside the month, the clicked day). */
    var currentDate: JDate
    var selectedDate: Option<JDate>
    var yearRange: YearRange
    /** The text of the input element. */
    var inputValue: string
    /** The last value handed to the form control's `set_value`, if any. */
    var savedValue: Option<string>
    /** Whether a `change` event was raised on a picker without a form control. */
    var changeFired: bool
    /** Whether the Escape-key handler and the capturing click listener are installed. */
    var keydownBound: bool
    var clickListenerBound: bool
    /** What the last drawing left: weekday header, day cells, year cells. */
    var header: seq<int>
    var grid: seq<DayCell>
    var years: seq<int>
    /** The Gregorian date found for the first of the month on display when the grid was drawn. */
    ghost var monthStart: GDate
    /** `FIRST_DAY`, the host's Gregorian to Jalali formatter, and whether a form control owns
        the input. */
    const firstDay: int
    const toJalali: Converter
    const hasControl: bool

    /** The days view as drawn for the month on display. */
    ghost predicate DaysDrawn()
      reads this`header, this`grid, this`monthStart, this`currentDate
    {
      && header == WeekdayIndices(firstDay)
      && CheckedSearchResult(toJalali, JDate(currentDate.jy, currentDate.jm, 1), monthStart)
      && Valid(monthStart)
      && grid == DayGridOf(YearMonth(currentDate.jy, currentDate.jm), FirstDayOffsetAsWritten(monthStart))
    }

    /** The years view as drawn for the year on display. */
    predicate YearsDrawn()
      reads this`yearRange, this`years, this`currentDate
    {
      yearRange == DecadeOf(currentDate.jy) && years == YearCellsOf(yearRange)
    }

    /** A new picker starts closed on today's month, with its listeners installed, and then
        reads the input's text. */
    constructor (toJalali: Converter, firstDay: int, hasControl: bool, today: GDate, inputValue: string)
      ensures this.toJalali == toJalali && this.firstDay == firstDay && this.hasControl == hasControl
      ensures this.inputValue == inputValue
      ensures !isOpen && view == Days && yearRange == YearRange(1400, 1410)
      ensures keydownBound && clickListenerBound
      ensures savedValue == None && !changeFired
      ensures InputDate(inputValue).Some? ==> currentDate == InputDate(inputValue).value && selectedDate == InputDate(inputValue)
      ensures InputDate(inputValue).None? ==> currentDate == toJalali(today) && selectedDate == None
    {
      this.toJalali := toJalali;
      this.firstDay := firstDay;
      this.hasControl := hasControl;
      this.inputValue := inputValue;
      isOpen := false;
      currentDate := toJalali(today);
      selectedDate := None;
      view := Days;
      yearRange := YearRange(1400, 1410);
      savedValue := None;
      changeFired := false;
      keydownBound := true;
      clickListenerBound := true;
      header := [];
      grid := [];
      years := [];
      new;
      UpdateDisplay();
    }

    /** `updateDisplay`: a value in the input that parses to three numbers becomes both the
        selected date and the month on display; the view goes back to days. */
    method UpdateDisplay()
      modifies this`currentDate, this`selectedDate, this`view
      ensures InputDate(inputValue).Some? ==> currentDate == InputDate(inputValue).value && selectedDate == InputDate(inputValue)
      ensures InputDate(inputValue).None? ==> currentDate == old(currentDate) && selectedDate == old(selectedDate)
      ensures view == Days
    {
      var parsed := InputDate(inputValue);
      if parsed.Some? {
        selectedDate, currentDate := parsed, parsed.value;
      }
      view := Days;
    }

    /** `updateWeekdays` and `updateDays`: the header starts at `FIRST_DAY`, while the grid puts
        the first of the month in the column `getFirstDayOfMonth` gives. */
    method DrawDays()
      modifies this`header, this`grid, this`monthStart
      ensures DaysDrawn()
    {
      var weekdays := WeekdayHeader(firstDay);
      var first := ToGregorianChecked(toJalali, currentDate.jy, currentDate.jm, 1);
      var cells := DayGrid(YearMonth(currentDate.jy, currentDate.jm), FirstDayOffsetAsWritten(first));
      header, grid, monthStart := weekdays, cells, first;
    }

    /** `updateYearsView`: the decade of the year on display and its twelve cells. */
    method DrawYears()
      modifies this`yearRange, this`years
      ensures YearsDrawn()
    {
      var r := DecadeOf(currentDate.jy);
      var cells := YearCells(r);
      yearRange, years := r, cells;
    }

    /** `updateCalendar`: redraws whatever the current view shows (the months view keeps no
        state of its own). */
    method UpdateCalendar()
      modifies this`header, this`grid, this`monthStart, this`yearRange, this`years
      ensures view == Days ==> DaysDrawn()
      ensures view == Years ==> YearsDrawn()
      ensures view != Days ==> header == old(header) && grid == old(grid) && monthStart == old(monthStart)
      ensures view != Years ==> yearRange == old(yearRange) && years == old(years)
    {
      if view == Days {
        DrawDays();
      } else if view == Years {
        DrawYears();
      }
    }

    /** `close`: hides the pop-up and removes the Escape-key handler and the capturing click
        listener. */
    method Close()
      modifies this`isOpen, this`keydownBound, this`clickListenerBound
      ensures !isOpen && !keydownBound && !clickListenerBound
    {
      isOpen, keydownBound, clickListenerBound := false, false, false;
    }

    /** `open`: closes every open picker on the page, then opens this one on the days view of
        the month its input names. */
    method Open(pickers: seq<JalaliDatepicker>)
      modifies this`isOpen, this`view, this`currentDate, this`selectedDate
      modifies this`header, this`grid, this`monthStart, this`yearRange, this`years
      modifies Instances(pickers)`isOpen, Instances(pickers)`keydownBound, Instances(pickers)`clickListenerBound
      ensures isOpen && view == Days && DaysDrawn()
      ensures forall p :: p in pickers && p != this ==> !p.isOpen
      ensures forall p :: p in pickers && p != this && old(p.isOpen) ==> !p.keydownBound && !p.clickListenerBound
      ensures InputDate(inputValue).Some? ==> currentDate == InputDate(inputValue).value && selectedDate == InputDate(inputValue)
      ensures InputDate(inputValue).None? ==> currentDate == old(currentDate) && selectedDate == old(selectedDate)
      ensures yearRange == old(yearRange) && years == old(years)
    {
      CloseAll(pickers);
      isOpen := true;
      view := Days;
      UpdateDisplay();
      UpdateCalendar();
    }

    /** A click on the input: closes an open picker, opens a closed one. */
    method Toggle(pickers: seq<JalaliDatepicker>)
      modifies this`isOpen, this`keydownBound, this`clickListenerBound, this`view, this`currentDate
      modifies this`selectedDate, this`header, this`grid, this`monthStart, this`yearRange, this`years
      modifies Instances(pickers)`isOpen, Instances(pickers)`keydownBound, Instances(pickers)`clickListenerBound
      ensures old(isOpen) ==> !isOpen && !keydownBound && !clickListenerBound
      ensures old(isOpen) ==> currentDate == old(currentDate) && selectedDate == old(selectedDate) && view == old(view)
      ensures old(isOpen) ==> header == old(header) && grid == old(grid) && monthStart == old(monthStart)
      ensures !old(isOpen) ==> isOpen && view == Days && DaysDrawn()
      ensures !old(isOpen) && InputDate(inputValue).Some? ==>
        currentDate == InputDate(inputValue).value && selectedDate == InputDate(inputValue)
      ensures !old(isOpen) && InputDate(inputValue).None? ==>
        currentDate == old(currentDate) && selectedDate == old(selectedDate)
      ensures !old(isOpen) ==> forall p :: p in pickers && p != this ==> !p.isOpen
      ensures !old(isOpen) ==> forall p :: p in pickers && p != this && old(p.isOpen) ==> !p.keydownBound && !p.clickListenerBound
      ensures yearRange == old(yearRange) && years == old(years)
    {
      if isOpen {
        Close();
      } else {
        view := Days;
        Open(pickers);
      }
    }

    /** The "‹" and "›" buttons. On the days view the month moves by `direction`, and a month
        past 12 or before 1 becomes 1 of the next year or 12 of the year before; on the months
        view the year moves by `direction`; the years view ignores them. */
    method NavigateMonth(direction: int)
      modifies this`currentDate, this`header, this`grid, this`monthStart, this`yearRange, this`years
      ensures view == Days ==>
        var m := old(currentDate.jm) + direction;
        && currentDate.jd == old(currentDate.jd)
        && (m > 12 ==> currentDate.jm == 1 && currentDate.jy == old(currentDate.jy) + 1)
        && (m < 1 ==> currentDate.jm == 12 && currentDate.jy == old(currentDate.jy) - 1)
        && (1 <= m <= 12 ==> currentDate.jm == m && currentDate.jy == old(currentDate.jy))
        && DaysDrawn()
      ensures view == Months ==> currentDate == old(currentDate).(jy := old(currentDate.jy) + direction)
      ensures view == Years ==> currentDate == old(currentDate)
      ensures view != Days ==> header == old(header) && grid == old(grid) && monthStart == old(monthStart)
      ensures yearRange == old(yearRange) && years == old(years)
    {
      if view == Days {
        var m := currentDate.jm + direction;
        if m > 12 {
          currentDate := currentDate.(jm := 1, jy := currentDate.jy + 1);
        } else if m < 1 {
          currentDate := currentDate.(jm := 12, jy := currentDate.jy - 1);
        } else {
          currentDate := currentDate.(jm := m);
        }
        UpdateCalendar();
      } else if view == Months {
        currentDate := currentDate.(jy := currentDate.jy + direction);
      }
    }

    /** The decade buttons: the range moves by `direction`, the year on display becomes the
        fifth year of the moved range, and the decade is recomputed from it. */
    method NavigateYear(direction: int)
      modifies this`currentDate, this`yearRange, this`years
      ensures currentDate == old(currentDate).(jy := old(yearRange.start) + direction + 4)
      ensures YearsDrawn()
    {
      yearRange := YearRange(yearRange.start + direction, yearRange.end + direction);
      currentDate := currentDate.(jy := yearRange.start + 4);
      DrawYears();
    }

    method ShowMonthsView()
      modifies this`view
      ensures view == Months
    {
      view := Months;
    }

    method ShowYearsView()
      modifies this`view, this`yearRange, this`years
      ensures view == Years && YearsDrawn()
    {
      view := Years;
      DrawYears();
    }

    method ShowDaysView()
      modifies this`view, this`header, this`grid, this`monthStart, this`yearRange, this`years
      ensures view == Days && DaysDrawn()
      ensures yearRange == old(yearRange) && years == old(years)
    {
      view := Days;
      UpdateCalendar();
    }

    /** A click on the title: days go to months, months to years, years back to months. */
    method ClickTitle()
      modifies this`view, this`yearRange, this`years
      ensures old(view) == Years ==> view == Months && yearRange == old(yearRange) && years == old(years)
      ensures old(view) == Days ==> view == Months && yearRange == old(yearRange) && years == old(years)
      ensures old(view) == Months ==> view == Years && YearsDrawn()
    {
      if view == Days {
        ShowMonthsView();
      } else if view == Months {
        ShowYearsView();
      } else {
        ShowMonthsView();
      }
    }

    /** A click on month cell `index` (0 for the first month): that month of the year on
        display, in the days view. */
    method ClickMonth(index: int)
      requires 0 <= index < 12
      modifies this`currentDate, this`view, this`header, this`grid, this`monthStart, this`yearRange, this`years
      ensures currentDate == old(currentDate).(jm := index + 1)
      ensures view == Days && DaysDrawn()
      ensures yearRange == old(yearRange) && years == old(years)
    {
      currentDate := currentDate.(jm := index + 1);
      ShowDaysView();
    }

    /** A click on year cell `k`: a year of the decade is taken and the months view shown;
        the two cells outside the decade do nothing. */
    method ClickYear(k: int)
      requires 0 <= k < |years|
      modifies this`currentDate, this`view
      ensures yearRange.start <= years[k] <= yearRange.end ==>
        currentDate == old(currentDate).(jy := years[k]) && view == Months
      ensures !(yearRange.start <= years[k] <= yearRange.end) ==>
        currentDate == old(currentDate) && view == old(view)
    {
      var year := years[k];
      if year < yearRange.start || year > yearRange.end {
        return;
      }
      currentDate := currentDate.(jy := year);
      ShowMonthsView();
    }

    /** `selectDate`: the day of the month on display becomes the selected date; the input
        shows it in Jalali, the form control (if any) receives it in Gregorian, otherwise a
        `change` event is raised; the picker then closes. */
    method SelectDate(day: int) returns (ghost g: GDate)
      modifies this`selectedDate, this`inputValue, this`savedValue, this`changeFired
      modifies this`isOpen, this`keydownBound, this`clickListenerBound
      ensures selectedDate == Some(JDate(currentDate.jy, currentDate.jm, day))
      ensures inputValue == FormatYmd(currentDate.jy, currentDate.jm, day)
      ensures CheckedSearchResult(toJalali, selectedDate.value, g) && Valid(g)
      ensures hasControl ==> savedValue == Some(FormatYmd(g.year, g.month, g.day)) && changeFired == old(changeFired)
      ensures !hasControl ==> savedValue == old(savedValue) && changeFired
      ensures !isOpen && !keydownBound && !clickListenerBound
    {
      var chosen := JDate(currentDate.jy, currentDate.jm, day);
      var jalaliStr := FormatYmd(chosen.jy, chosen.jm, chosen.jd);
      var gregorianStr;
      gregorianStr, g := GregorianString(toJalali, chosen);
      if hasControl {
        savedValue := Some(gregorianStr);
      } else {
        changeFired := true;
      }
      selectedDate, inputValue := Some(chosen), jalaliStr;
      Close();
    }

    /** A click on day cell `k`: a cell of the month before or after first moves the display
        to its month; then its day is selected. */
    method ClickDayCell(k: int) returns (ghost g: GDate)
      requires 0 <= k < |grid|
      modifies this`currentDate, this`selectedDate, this`inputValue, this`savedValue, this`changeFired
      modifies this`isOpen, this`keydownBound, this`clickListenerBound
      ensures grid[k].inMonth ==>
        selectedDate == Some(JDate(old(currentDate.jy), old(currentDate.jm), grid[k].date.jd))
      ensures grid[k].inMonth ==> currentDate == old(currentDate)
      ensures !grid[k].inMonth ==> selectedDate == Some(grid[k].date) && currentDate == grid[k].date
      ensures inputValue == FormatYmd(selectedDate.value.jy, selectedDate.value.jm, selectedDate.value.jd)
      ensures CheckedSearchResult(toJalali, selectedDate.value, g) && Valid(g)
      ensures hasControl ==> savedValue == Some(FormatYmd(g.year, g.month, g.day)) && changeFired == old(changeFired)
      ensures !hasControl ==> savedValue == old(savedValue) && changeFired
      ensures !isOpen && !keydownBound && !clickListenerBound
    {
      var cell := grid[k];
      if !cell.inMonth {
        currentDate := cell.date;
      }
      g := SelectDate(cell.date.jd);
    }

    /** The "today" button: today's month in the days view, then today is selected. */
    method SelectToday(today: GDate) returns (ghost g: GDate)
      modifies this`currentDate, this`view, this`header, this`grid, this`monthStart, this`yearRange, this`years
      modifies this`selectedDate, this`inputValue, this`savedValue, this`changeFired
      modifies this`isOpen, this`keydownBound, this`clickListenerBound
      ensures currentDate == toJalali(today) && selectedDate == Some(toJalali(today))
      ensures inputValue == FormatYmd(currentDate.jy, currentDate.jm, currentDate.jd)
      ensures CheckedSearchResult(toJalali, currentDate, g) && Valid(g)
      ensures view == Days && DaysDrawn()
      ensures hasControl ==> savedValue == Some(FormatYmd(g.year, g.month, g.day)) && changeFired == old(changeFired)
      ensures !hasControl ==> savedValue == old(savedValue) && changeFired
      ensures !isOpen && !keydownBound && !clickListenerBound
      ensures yearRange == old(yearRange) && years == old(years)
    {
      currentDate := toJalali(today);
      view := Days;
      UpdateCalendar();
      g := SelectDate(currentDate.jd);
    }

    /** `prevMonth`: month 1 goes back to month 12 of the year before. */
    method PrevMonth()
      modifies this`currentDate, this`header, this`grid, this`monthStart, this`yearRange, this`years
      ensures YearMonth(currentDate.jy, currentDate.jm) == MonthBefore(YearMonth(old(currentDate.jy), old(currentDate.jm)))
      ensures currentDate.jd == old(currentDate.jd)
      ensures view == Days ==> DaysDrawn()
      ensures view == Years ==> YearsDrawn()
      ensures view != Days ==> header == old(header) && grid == old(grid) && monthStart == old(monthStart)
      ensures view != Years ==> yearRange == old(yearRange) && years == old(years)
    {
      if currentDate.jm == 1 {
        currentDate := currentDate.(jm := 12, jy := currentDate.jy - 1);
      } else {
        currentDate := currentDate.(jm := currentDate.jm - 1);
      }
      UpdateCalendar();
    }

    /** `nextMonth`: month 12 goes on to month 1 of the year after. */
    method NextMonth()
      modifies this`currentDate, this`header, this`grid, this`monthStart, this`yearRange, this`years
      ensures YearMonth(currentDate.jy, currentDate.jm) == MonthAfter(YearMonth(old(currentDate.jy), old(currentDate.jm)))
      ensures currentDate.jd == old(currentDate.jd)
      ensures view == Days ==> DaysDrawn()
      ensures view == Years ==> YearsDrawn()
      ensures view != Days ==> header == old(header) && grid == old(grid) && monthStart == old(monthStart)
      ensures view != Years ==> yearRange == old(yearRange) && years == old(years)
    {
      if currentDate.jm == 12 {
        currentDate := currentDate.(jm := 1, jy := currentDate.jy + 1);
      } else {
        currentDate := currentDate.(jm := currentDate.jm + 1);
      }
      UpdateCalendar();
    }
  }

  /** `closeAllJalaliDatepickers`: every open picker on the page is closed; the others are
      only hidden, which changes none of their state. */
  method CloseAll(pickers: seq<JalaliDatepicker>)
    modifies Instances(pickers)`isOpen, Instances(pickers)`keydownBound, Instances(pickers)`clickListenerBound
    ensures forall p :: p in pickers ==> !p.isOpen
    ensures forall p :: p in pickers && old(p.isOpen) ==> !p.keydownBound && !p.clickListenerBound
    ensures forall p :: p in pickers && !old(p.isOpen) ==>
      p.keydownBound == old(p.keydownBound) && p.clickListenerBound == old(p.clickListenerBound)
  {
    var i := 0;
    while i < |pickers|
      invariant 0 <= i <= |pickers|
      invariant forall p :: p in pickers[..i] ==> !p.isOpen
      invariant forall p :: p in pickers && p !in pickers[..i] ==> p.isOpen == old(p.isOpen)
      invariant forall p :: p in pickers && old(p.isOpen) && p in pickers[..i] ==> !p.keydownBound && !p.clickListenerBound
      invariant forall p :: p in pickers && !(old(p.isOpen) && p in pickers[..i]) ==>
        p.keydownBound == old(p.keydownBound) && p.clickListenerBound == old(p.clickListenerBound)
    {
      var p := pickers[i];
      if p.isOpen {
        p.Close();
      }
      assert pickers[..i + 1] == pickers[..i] + [p];
      i := i + 1;
    }
    assert pickers[..i] == pickers;
  }

  /** Selecting a day and reopening the picker shows that day's month with it selected. */
  method SelectThenReopen(p: JalaliDatepicker, day: int, pickers: seq<JalaliDatepicker>)
    requires p.currentDate.jy >= 0 && p.currentDate.jm >= 0 && day >= 0
    modifies p, Instances(pickers)
    ensures p.isOpen && p.view == Days
    ensures p.currentDate == JDate(old(p.currentDate.jy), old(p.currentDate.jm), day)
    ensures p.selectedDate == Some(p.currentDate)
  {
    var chosen := JDate(p.currentDate.jy, p.currentDate.jm, day);
    ghost var g := p.SelectDate(day);
    assert InputDate(p.inputValue) == Some(chosen) by {
      ParseFormatRoundTrip(chosen);
    }
    p.Open(pickers);
  }

  // ---------------------------------------------------------------------------
  // Fiscal Year defaults

  /** The start and end dates a new Fiscal Year is given, as `YYYY-MM-DD` strings. */
  datatype FiscalDefaults = FiscalDefaults(start: string, end: string)

  /** The Fiscal Year form hook: for a new, still empty Fiscal Year while the Jalali calendar
      is on, the year runs from the first day of the current Jalali year to the day before
      the first day of the next one. */
  method FiscalYearDefaults(toJalali: Converter, today: GDate, isNew: bool, hasStart: bool, settings: CalendarSettings)
    returns (r: Option<FiscalDefaults>, start: GDate, end: GDate)
    ensures r.Some? <==> isNew && settings.enabled && settings.calendar.displayCalendar != "Gregorian" && !hasStart
    ensures r.Some? ==>
      var jy := toJalali(today).jy;
      && CheckedSearchResult(toJalali, JDate(jy, 1, 1), start) && Valid(start)
      && Valid(end) && CheckedSearchResult(toJalali, JDate(jy + 1, 1, 1), NextDay(end))
      && r.value == FiscalDefaults(FormatYmd(start.year, start.month, start.day), FormatYmd(end.year, end.month, end.day))
  {
    start, end := GDate(0, 0, 0), GDate(0, 0, 0);
    if !isNew || !settings.enabled || settings.calendar.displayCalendar == "Gregorian" || hasStart {
      return None, start, end;
    }
    var jy := toJalali(today).jy;
    start := ToGregorianChecked(toJalali, jy, 1, 1);
    var nextStart := ToGregorianChecked(toJalali, jy + 1, 1, 1);
    end := PrevDay(nextStart);
    NextOfPrevDay(nextStart);
    r := Some(FiscalDefaults(FormatYmd(start.year, start.month, start.day), FormatYmd(end.year, end.month, end.day)));
  }
}
