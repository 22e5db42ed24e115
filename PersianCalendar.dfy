/** The first generation of the Jalali widgets (persian_calendar.js): date strings, the
    weekday header, and the date and datetime pickers that replace Frappe's controls.
    Rendering is reduced to the state it leaves behind: the header, the day cells and the
    highlighted day. */
module PersianCalendar {
  import opened Base
  import opened Text
  import opened Gregorian
  import opened JalaliDate
  import opened Jalaali

  // ---------------------------------------------------------------------------
  // Week start

  /** `FIRST_DAY`: the `week_start` the server reports when it is not null, else 6 (Saturday). */
  function FirstDayFromWeekBounds(weekStart: Option<int>): (firstDay: int)
    ensures weekStart.Some? ==> firstDay == weekStart.value
    ensures weekStart.None? ==> firstDay == 6
  {
    match weekStart
    case Some(w) => w
    case None => 6
  }

  // ---------------------------------------------------------------------------
  // Date strings

  /** The three fields of `parseJalaliDate`, each converted by `Number`. */
  datatype DateParts = DateParts(jy: JsNum, jm: JsNum, jd: JsNum)

  function PartsOf(j: JDate): DateParts
  {
    DateParts(Num(j.jy), Num(j.jm), Num(j.jd))
  }

  /** `parseJalaliDate`: split on '-' and convert each field with `Number`; null unless there
      are exactly three fields. No range check is made. */
  function ParseJalaliDate(s: string): (r: Option<DateParts>)
    ensures r.None? <==> |Split(s, '-')| != 3
  {
    var parts := Split(s, '-');
    if |parts| != 3 then None
    else Some(DateParts(JsNumber(parts[0]), JsNumber(parts[1]), JsNumber(parts[2])))
  }

  /** The date the parts denote, when all three are numbers. */
  function PartsDate(p: Option<DateParts>): (r: Option<JDate>)
    ensures r.Some? <==> p.Some? && p.value.jy.Num? && p.value.jm.Num? && p.value.jd.Num?
    ensures r.Some? ==> PartsOf(r.value) == p.value
  {
    if p.Some? && p.value.jy.Num? && p.value.jm.Num? && p.value.jd.Num? then
      Some(JDate(p.value.jy.n, p.value.jm.n, p.value.jd.n))
    else None
  }

  /** Parsing a formatted date gives back its numbers. */
  lemma ParseFormatRoundTrip(j: JDate)
    requires j.jy >= 0 && j.jm >= 0 && j.jd >= 0
    ensures ParseJalaliDate(FormatYmd(j.jy, j.jm, j.jd)) == Some(PartsOf(j))
  {
    var a, b, c := IntToString(j.jy), Pad2(j.jm), Pad2(j.jd);
    IntToStringDigits(j.jy);
    Pad2Digits(j.jm);
    Pad2Digits(j.jd);
    SplitThreeFields(a, b, c, '-');
    assert FormatYmd(j.jy, j.jm, j.jd) == a + ['-'] + b + ['-'] + c;
    NumberOfIntToString(j.jy);
    NumberOfIntToString(j.jm);
    NumberOfIntToString(j.jd);
  }

  /** A negative field adds a '-' of its own, so the formatted string no longer parses. */
  lemma ParseFormatNegative(j: JDate)
    requires j.jy < 0 || j.jm < 0 || j.jd < 0
    ensures ParseJalaliDate(FormatYmd(j.jy, j.jm, j.jd)) == None
  {
    var a, b, c := IntToString(j.jy), Pad2(j.jm), Pad2(j.jd);
    var s := FormatYmd(j.jy, j.jm, j.jd);
    IntToStringDigits(j.jy);
    Pad2Digits(j.jm);
    Pad2Digits(j.jd);
    assert s == a + ['-'] + b + ['-'] + c;
    assert multiset(s)['-'] == multiset(a)['-'] + 1 + multiset(b)['-'] + 1 + multiset(c)['-'];
    if j.jy < 0 {
      assert a[0] == '-' && a[0] in multiset(a);
    } else if j.jm < 0 {
      assert b[0] == '-' && b[0] in multiset(b);
    } else {
      assert c[0] == '-' && c[0] in multiset(c);
    }
    SplitCount(s, '-');
  }

  // ---------------------------------------------------------------------------
  // Weekday header

  /** The weekday numbers (0 = Sunday) the header shows, left to right. */
  function WeekdayIndices(firstDay: int): seq<int>
  {
    seq(7, i requires 0 <= i < 7 => JsRem(firstDay + i, 7))
  }

  /** The header loop of `updateCalendar`: cell `i` shows weekday `(FIRST_DAY + i) % 7`. */
  method WeekdayHeader(firstDay: int) returns (header: seq<int>)
    ensures header == WeekdayIndices(firstDay)
  {
    header := [];
    var i := 0;
    while i < 7
      invariant 0 <= i <= 7
      invariant header == WeekdayIndices(firstDay)[..i]
    {
      header := header + [JsRem(firstDay + i, 7)];
      i := i + 1;
    }
  }

  /** For a non-negative week start the header is a rotation of the week: it starts at
      the week start and shows every weekday exactly once. */
  lemma {:induction false} WeekdayHeaderIsRotation(firstDay: int)
    requires firstDay >= 0
    ensures var h := WeekdayIndices(firstDay);
      && h[0] == firstDay % 7
      && (forall i :: 0 <= i < 7 ==> 0 <= h[i] < 7)
      && (forall i, j :: 0 <= i < j < 7 ==> h[i] != h[j])
      && (forall d :: 0 <= d < 7 ==> d in h)
  {
    var h := WeekdayIndices(firstDay);
    var q := firstDay % 7;
    forall i | 0 <= i < 7
      ensures h[i] == if q + i < 7 then q + i else q + i - 7
    {
      RotationStep(firstDay, i);
    }
    forall d | 0 <= d < 7
      ensures d in h
    {
      var i := if d >= q then d - q else d + 7 - q;
      assert h[i] == d;
    }
  }

  lemma RotationStep(firstDay: int, i: int)
    requires firstDay >= 0 && 0 <= i < 7
    ensures JsRem(firstDay + i, 7) == if firstDay % 7 + i < 7 then firstDay % 7 + i else firstDay % 7 + i - 7
  {
    var k := firstDay / 7;
    assert firstDay + i == 7 * k + firstDay % 7 + i;
  }

  // ---------------------------------------------------------------------------
  // Day cells

  /** The day cells 1..n. */
  function DayRange(n: nat): (r: seq<int>)
    ensures |r| == n && forall i :: 0 <= i < n ==> r[i] == i + 1
  {
    seq(n, i requires 0 <= i < n => i + 1)
  }

  /** The day of the displayed month that the input's text names, if any: it is
      highlighted when the grid is drawn. */
  function HighlightFor(input: string, cur: JDate): (r: Option<int>)
    ensures r.Some? ==> 1 <= r.value <= JsDaysInMonth(cur.jy, cur.jm)
    ensures r.Some? <==> input != "" && exists d :: 1 <= d <= JsDaysInMonth(cur.jy, cur.jm) && ParseJalaliDate(input) == Some(PartsOf(JDate(cur.jy, cur.jm, d)))
    ensures r.Some? ==> ParseJalaliDate(input) == Some(PartsOf(JDate(cur.jy, cur.jm, r.value)))
  {
    var p := ParseJalaliDate(input);
    if input != "" && p.Some? && p.value.jy == Num(cur.jy) && p.value.jm == Num(cur.jm) && p.value.jd.Num?
      && 1 <= p.value.jd.n <= JsDaysInMonth(cur.jy, cur.jm)
    then
      assert p.value == PartsOf(JDate(cur.jy, cur.jm, p.value.jd.n));
      Some(p.value.jd.n)
    else None
  }

  /** After a day has been written into the input, drawing the same month highlights it. */
  lemma HighlightOfFormattedDay(cur: JDate, day: int)
    requires cur.jy >= 0 && cur.jm >= 0 && 1 <= day <= JsDaysInMonth(cur.jy, cur.jm)
    ensures HighlightFor(FormatYmd(cur.jy, cur.jm, day), cur) == Some(day)
  {
    ParseFormatRoundTrip(JDate(cur.jy, cur.jm, day));
  }

  /** `jToG` as the widgets use it, turned into the `YYYY-MM-DD` string they store. */
  method GregorianString(toJalali: Converter, j: JDate) returns (s: string, g: GDate)
    ensures CheckedSearchResult(toJalali, j, g) && Valid(g)
    ensures s == FormatYmd(g.year, g.month, g.day)
  {
    g := ToGregorianChecked(toJalali, j.jy, j.jm, j.jd);
    s := FormatYmd(g.year, g.month, g.day);
  }

  /** The year-prompt answer that is applied: a string that `Number` reads as a value strictly
      between 1300 and 1500, taken by `parseInt`. A cancelled prompt gives nothing. */
  function PromptedYear(answer: Option<string>): (year: Option<int>)
    ensures year.Some? ==> 1300 < year.value < 1500
  {
    if answer.Some? && answer.value != "" && JsNumber(answer.value).Num?
      && 1300 < JsNumber(answer.value).n < 1500
    then
      var s := answer.value;
      DigitPrefixOfDigits(s);
      Some(ParseIntOrZero(s))
    else None
  }

  /** A typed year is applied exactly when it lies strictly between 1300 and 1500. */
  lemma PromptedYearOfNumber(n: int)
    requires n >= 0
    ensures PromptedYear(Some(IntToString(n))) == (if 1300 < n < 1500 then Some(n) else None)
    ensures PromptedYear(None) == None
  {
    NumberOfIntToString(n);
  }

  // ---------------------------------------------------------------------------
  // The date picker (`createJalaliDatepicker`)

  class DatePicker {
    /** `currentJalali`: the month on display and the last chosen day. */
    var current: JDate
    /** The text of the input element. */
    var inputValue: string
    /** Whether the calendar pop-up is shown. */
    var visible: bool
    /** The last value handed to the form's `set_value`, if any. */
    var savedValue: Option<string>
    /** What the last drawing left: header, day cells and the highlighted day. */
    var header: seq<int>
    var days: seq<int>
    var highlighted: Option<int>
    /** `FIRST_DAY`. */
    const firstDay: int
    /** The host's Gregorian to Jalali formatter. */
    const toJalali: Converter

    /** The drawn grid reflects the current state. */
    predicate Rendered()
      reads this
    {
      && header == WeekdayIndices(firstDay)
      && days == DayRange(JsDaysInMonth(current.jy, current.jm))
      && highlighted == HighlightFor(inputValue, current)
    }

    /** The widget is built for today's date and drawn once, hidden. */
    constructor (toJalali: Converter, firstDay: int, today: GDate, inputValue: string)
      ensures this.toJalali == toJalali && this.firstDay == firstDay
      ensures current == toJalali(today) && this.inputValue == inputValue
      ensures !visible && savedValue == None
      ensures Rendered()
    {
      this.toJalali := toJalali;
      this.firstDay := firstDay;
      current := toJalali(today);
      this.inputValue := inputValue;
      visible := false;
      savedValue := None;
      new;
      Render();
    }

    /** `updateCalendar`: redraws the header and the day cells, highlighting the day the
        input names. */
    method Render()
      modifies this
      ensures Rendered()
      ensures current == old(current) && inputValue == old(inputValue)
      ensures visible == old(visible) && savedValue == old(savedValue)
    {
      var weekdays := WeekdayHeader(firstDay);
      var n := JsDaysInMonth(current.jy, current.jm);
      ghost var target := HighlightFor(inputValue, current);
      var cells: seq<int> := [];
      var selected: Option<int> := None;
      var day := 1;
      while day <= n
        invariant 1 <= day <= n + 1
        invariant cells == DayRange(day - 1)
        invariant selected == if target.Some? && target.value < day then target else None
      {
        cells := cells + [day];
        if inputValue != "" {
          var parsed := ParseJalaliDate(inputValue);
          if parsed == Some(PartsOf(JDate(current.jy, current.jm, day))) {
            selected := Some(day);
          }
        }
        day := day + 1;
      }
      header, days, highlighted := weekdays, cells, selected;
    }

    /** The "‹‹" button. */
    method PrevYear()
      modifies this
      ensures current == old(current).(jy := old(current.jy) - 1)
      ensures inputValue == old(inputValue) && visible == old(visible) && savedValue == old(savedValue)
      ensures Rendered()
    {
      current := current.(jy := current.jy - 1);
      Render();
    }

    /** The "››" button. */
    method NextYear()
      modifies this
      ensures current == old(current).(jy := old(current.jy) + 1)
      ensures inputValue == old(inputValue) && visible == old(visible) && savedValue == old(savedValue)
      ensures Rendered()
    {
      current := current.(jy := current.jy + 1);
      Render();
    }

    /** The "‹" button: month 1 goes back to month 12 of the previous year. */
    method PrevMonth()
      modifies this
      ensures YearMonth(current.jy, current.jm) == MonthBefore(YearMonth(old(current.jy), old(current.jm)))
      ensures current.jd == old(current.jd)
      ensures inputValue == old(inputValue) && visible == old(visible) && savedValue == old(savedValue)
      ensures Rendered()
    {
      if current.jm == 1 {
        current := current.(jm := 12, jy := current.jy - 1);
      } else {
        current := current.(jm := current.jm - 1);
      }
      Render();
    }

    /** The "›" button: month 12 goes on to month 1 of the next year. */
    method NextMonth()
      modifies this
      ensures YearMonth(current.jy, current.jm) == MonthAfter(YearMonth(old(current.jy), old(current.jm)))
      ensures current.jd == old(current.jd)
      ensures inputValue == old(inputValue) && visible == old(visible) && savedValue == old(savedValue)
      ensures Rendered()
    {
      if current.jm == 12 {
        current := current.(jm := 1, jy := current.jy + 1);
      } else {
        current := current.(jm := current.jm + 1);
      }
      Render();
    }

    /** A click on the month title: the prompt's answer replaces the year only when it is
        a number strictly between 1300 and 1500. */
    method PromptYear(answer: Option<string>)
      modifies this
      ensures PromptedYear(answer).Some? ==> current == old(current).(jy := PromptedYear(answer).value) && Rendered()
      ensures PromptedYear(answer).None? ==>
        current == old(current) && header == old(header) && days == old(days) && highlighted == old(highlighted)
      ensures inputValue == old(inputValue) && visible == old(visible) && savedValue == old(savedValue)
    {
      var year := PromptedYear(answer);
      if year.Some? {
        current := current.(jy := year.value);
        Render();
      }
    }

    /** A click on day cell `day`. On the highlighted day it clears the value; on any other day
        it writes the Jalali date into the input and hands the Gregorian date to the form.
        Either way the pop-up closes. */
    method ClickDay(day: int) returns (ghost g: GDate)
      requires 1 <= day <= JsDaysInMonth(current.jy, current.jm)
      modifies this
      ensures !visible
      ensures old(highlighted) == Some(day) ==>
        && inputValue == "" && savedValue == Some("") && highlighted == None
        && current == old(current)
      ensures old(highlighted) != Some(day) ==>
        && current == old(current).(jd := day)
        && inputValue == FormatYmd(current.jy, current.jm, day)
        && CheckedSearchResult(toJalali, current, g) && Valid(g)
        && savedValue == Some(FormatYmd(g.year, g.month, g.day))
        && highlighted == Some(day)
      ensures header == old(header) && days == old(days)
    {
      if highlighted == Some(day) {
        highlighted := None;
        inputValue := "";
        visible := false;
        savedValue := Some("");
        g := GDate(0, 0, 0);
        return;
      }
      var chosen := JDate(current.jy, current.jm, day);
      var jalaliStr := FormatYmd(chosen.jy, chosen.jm, chosen.jd);
      var gregorianStr;
      gregorianStr, g := GregorianString(toJalali, chosen);
      current := current.(jd := day);
      highlighted := Some(day);
      inputValue := jalaliStr;
      visible := false;
      savedValue := Some(gregorianStr);
    }

    /** The "today" button: shows, writes and saves today's date, then closes. */
    method Today(today: GDate) returns (ghost g: GDate)
      modifies this
      ensures current == toJalali(today)
      ensures inputValue == FormatYmd(current.jy, current.jm, current.jd)
      ensures CheckedSearchResult(toJalali, current, g) && Valid(g)
      ensures savedValue == Some(FormatYmd(g.year, g.month, g.day))
      ensures !visible && Rendered()
    {
      current := toJalali(today);
      inputValue := FormatYmd(current.jy, current.jm, current.jd);
      var gregorianStr;
      gregorianStr, g := GregorianString(toJalali, current);
      savedValue := Some(gregorianStr);
      Render();
      visible := false;
    }

    /** A click on the input: the pop-up opens on the month the input names, if it names one. */
    method Open()
      modifies this
      ensures inputValue != "" && PartsDate(ParseJalaliDate(inputValue)).Some? ==>
        current == PartsDate(ParseJalaliDate(inputValue)).value
      ensures !(inputValue != "" && PartsDate(ParseJalaliDate(inputValue)).Some?) ==> current == old(current)
      ensures inputValue == old(inputValue) && savedValue == old(savedValue)
      ensures visible && Rendered()
    {
      if inputValue != "" {
        var parsed := PartsDate(ParseJalaliDate(inputValue));
        if parsed.Some? {
          current := parsed.value;
        }
      }
      Render();
      visible := true;
    }

    /** A click outside the widget and the form's inputs hides the pop-up. */
    method ClickOutside()
      modifies this
      ensures !visible
      ensures current == old(current) && inputValue == old(inputValue) && savedValue == old(savedValue)
      ensures header == old(header) && days == old(days) && highlighted == old(highlighted)
    {
      visible := false;
    }
  }

  /** Choosing a day and then reopening the picker shows the same month with that day
      highlighted, and clicking it again clears the value. */
  method SelectReopenClear(p: DatePicker, day: int)
    requires 1 <= day <= JsDaysInMonth(p.current.jy, p.current.jm)
    requires p.current.jy >= 0 && p.current.jm >= 0
    requires p.highlighted != Some(day)
    modifies p
    ensures p.inputValue == "" && p.savedValue == Some("") && !p.visible
  {
    var ym := (p.current.jy, p.current.jm);
    ghost var g := p.ClickDay(day);
    p.Open();
    assert PartsDate(ParseJalaliDate(p.inputValue)) == Some(JDate(ym.0, ym.1, day)) by {
      ParseFormatRoundTrip(JDate(ym.0, ym.1, day));
    }
    HighlightOfFormattedDay(p.current, day);
    ghost var g2 := p.ClickDay(day);
  }

  // ---------------------------------------------------------------------------
  // The datetime picker (`createJalaliDatetimePicker`)

  /** The text the OK button writes into the input: `YYYY-MM-DD HH:MM`. */
  function DatetimeText(j: JDate, hour: int, minute: int): string
  {
    FormatYmd(j.jy, j.jm, j.jd) + " " + Pad2(hour) + ":" + Pad2(minute)
  }

  /** The text the OK button hands to the form: `YYYY-MM-DD HH:MM:00` (Gregorian). */
  function GregorianDatetimeText(g: GDate, hour: int, minute: int): string
  {
    FormatYmd(g.year, g.month, g.day) + " " + Pad2(hour) + ":" + Pad2(minute) + ":00"
  }

  /** What a click on the input reads back from its text: the date of the first of two
      space-separated fields, and the hour and minute of the second when it has two
      colon-separated fields (`parseInt(...) || 0` each). */
  datatype DatetimeReading = DatetimeReading(date: Option<JDate>, time: Option<(int, int)>)

  function ReadDatetimeText(s: string): (r: DatetimeReading)
    ensures r.date.Some? || r.time.Some? ==> |Split(s, ' ')| == 2
    ensures r.time.Some? ==> r.time.value.0 >= 0 && r.time.value.1 >= 0
  {
    var parts := Split(s, ' ');
    if s == "" || |parts| != 2 then DatetimeReading(None, None)
    else
      var timeParts := Split(parts[1], ':');
      DatetimeReading(
        PartsDate(ParseJalaliDate(parts[0])),
        if |timeParts| == 2 then Some((ParseIntOrZero(timeParts[0]), ParseIntOrZero(timeParts[1]))) else None)
  }

  /** A formatted date of non-negative numbers holds digits and dashes only. */
  lemma FormattedDateHasNoSpace(j: JDate)
    requires j.jy >= 0 && j.jm >= 0 && j.jd >= 0
    ensures ' ' !in FormatYmd(j.jy, j.jm, j.jd)
  {
    IntToStringDigits(j.jy);
    Pad2Digits(j.jm);
    Pad2Digits(j.jd);
    assert FormatYmd(j.jy, j.jm, j.jd) == IntToString(j.jy) + "-" + Pad2(j.jm) + "-" + Pad2(j.jd);
  }

  /** `date + " " + h + ":" + m` splits back into its parts when none of them holds a
      separator. */
  lemma SplitDateAndTime(date: string, h: string, m: string)
    requires ' ' !in date && ' ' !in h && ' ' !in m && ':' !in h && ':' !in m
    ensures Split(date + " " + h + ":" + m, ' ') == [date, h + ":" + m]
    ensures Split(h + ":" + m, ':') == [h, m]
  {
    SplitTwoFields(h, m, ':');
    assert ' ' !in h + ":" + m;
    SplitTwoFields(date, h + ":" + m, ' ');
    assert date + " " + h + ":" + m == date + [' '] + (h + ":" + m);
  }

  /** The OK text splits into the date and the time at its one space, and the time into
      hour and minute at its one colon. */
  lemma DatetimeTextFields(j: JDate, hour: int, minute: int)
    requires j.jy >= 0 && j.jm >= 0 && j.jd >= 0 && hour >= 0 && minute >= 0
    ensures Split(DatetimeText(j, hour, minute), ' ') == [FormatYmd(j.jy, j.jm, j.jd), Pad2(hour) + ":" + Pad2(minute)]
    ensures Split(Pad2(hour) + ":" + Pad2(minute), ':') == [Pad2(hour), Pad2(minute)]
  {
    Pad2Digits(hour);
    Pad2Digits(minute);
    FormattedDateHasNoSpace(j);
    SplitDateAndTime(FormatYmd(j.jy, j.jm, j.jd), Pad2(hour), Pad2(minute));
  }

  /** What OK writes, a click on the input reads back. */
  lemma DatetimeTextRoundTrip(j: JDate, hour: int, minute: int)
    requires j.jy >= 0 && j.jm >= 0 && j.jd >= 0 && hour >= 0 && minute >= 0
    ensures ReadDatetimeText(DatetimeText(j, hour, minute)) == DatetimeReading(Some(j), Some((hour, minute)))
  {
    DatetimeTextFields(j, hour, minute);
    ParseFormatRoundTrip(j);
    Pad2Digits(hour);
    Pad2Digits(minute);
  }

  class DatetimePicker {
    var current: JDate
    /** `selectedTime`. */
    var hour: int
    var minute: int
    /** The texts of the hour and minute boxes. */
    var hourInput: string
    var minuteInput: string
    var inputValue: string
    var visible: bool
    var savedValue: Option<string>
    /** The day the grid highlights because the input names it, and the day last clicked. */
    var highlighted: Option<int>
    var clickedDay: Option<int>
    const toJalali: Converter

    predicate Rendered()
      reads this
    {
      highlighted == (if |Split(inputValue, ' ')| == 2 && inputValue != ""
        then HighlightFor(Split(inputValue, ' ')[0], current) else None)
    }

    /** The picker starts on today's date and the current wall-clock time, hidden. */
    constructor (toJalali: Converter, today: GDate, hour: int, minute: int, inputValue: string)
      ensures this.toJalali == toJalali && current == toJalali(today)
      ensures this.hour == hour && this.minute == minute
      ensures this.inputValue == inputValue && hourInput == "" && minuteInput == ""
      ensures !visible && savedValue == None && clickedDay == None
      ensures Rendered()
    {
      this.toJalali := toJalali;
      current := toJalali(today);
      this.hour := hour;
      this.minute := minute;
      this.inputValue := inputValue;
      hourInput := "";
      minuteInput := "";
      visible := false;
      savedValue := None;
      clickedDay := None;
      new;
      Render();
    }

    /** `updateCalendar` of the datetime picker: only the highlight is state. */
    method Render()
      modifies this
      ensures Rendered()
      ensures current == old(current) && hour == old(hour) && minute == old(minute)
      ensures hourInput == old(hourInput) && minuteInput == old(minuteInput)
      ensures inputValue == old(inputValue) && visible == old(visible)
      ensures savedValue == old(savedValue) && clickedDay == old(clickedDay)
    {
      highlighted := None;
      if inputValue != "" {
        var parts := Split(inputValue, ' ');
        if |parts| == 2 {
          highlighted := HighlightFor(parts[0], current);
        }
      }
    }

    method PrevMonth()
      modifies this
      ensures YearMonth(current.jy, current.jm) == MonthBefore(YearMonth(old(current.jy), old(current.jm)))
      ensures current.jd == old(current.jd) && hour == old(hour) && minute == old(minute)
      ensures inputValue == old(inputValue) && visible == old(visible) && savedValue == old(savedValue)
      ensures hourInput == old(hourInput) && minuteInput == old(minuteInput) && clickedDay == old(clickedDay)
      ensures Rendered()
    {
      if current.jm == 1 {
        current := current.(jm := 12, jy := current.jy - 1);
      } else {
        current := current.(jm := current.jm - 1);
      }
      Render();
    }

    method NextMonth()
      modifies this
      ensures YearMonth(current.jy, current.jm) == MonthAfter(YearMonth(old(current.jy), old(current.jm)))
      ensures current.jd == old(current.jd) && hour == old(hour) && minute == old(minute)
      ensures inputValue == old(inputValue) && visible == old(visible) && savedValue == old(savedValue)
      ensures hourInput == old(hourInput) && minuteInput == old(minuteInput) && clickedDay == old(clickedDay)
      ensures Rendered()
    {
      if current.jm == 12 {
        current := current.(jm := 1, jy := current.jy + 1);
      } else {
        current := current.(jm := current.jm + 1);
      }
      Render();
    }

    /** A click on a day cell: the day is chosen and the time boxes show the selected time. */
    method ClickDay(day: int)
      requires 1 <= day <= JsDaysInMonth(current.jy, current.jm)
      modifies this
      ensures current == old(current).(jd := day) && clickedDay == Some(day)
      ensures hourInput == IntToString(hour) && minuteInput == IntToString(minute)
      ensures hour == old(hour) && minute == old(minute)
      ensures inputValue == old(inputValue) && visible == old(visible) && savedValue == old(savedValue)
      ensures highlighted == old(highlighted)
    {
      var hourText, minuteText := IntToString(hour), IntToString(minute);
      current, hourInput, minuteInput, clickedDay := current.(jd := day), hourText, minuteText, Some(day);
    }

    /** The OK button: writes `YYYY-MM-DD HH:MM` (Jalali) into the input, hands
        `YYYY-MM-DD HH:MM:00` (Gregorian) to the form and closes. The hour and minute are
        read from their boxes with `parseInt(...) || 0`. */
    method Ok() returns (g: GDate)
      modifies this
      ensures CheckedSearchResult(toJalali, current, g) && Valid(g)
      ensures var h, m := ParseIntOrZero(hourInput), ParseIntOrZero(minuteInput);
        inputValue == DatetimeText(current, h, m) && savedValue == Some(GregorianDatetimeText(g, h, m))
      ensures !visible
      ensures current == old(current) && hour == old(hour) && minute == old(minute)
      ensures hourInput == old(hourInput) && minuteInput == old(minuteInput)
      ensures highlighted == old(highlighted) && clickedDay == old(clickedDay)
    {
      g := ToGregorianChecked(toJalali, current.jy, current.jm, current.jd);
      var h, m := ParseIntOrZero(hourInput), ParseIntOrZero(minuteInput);
      inputValue, savedValue, visible := DatetimeText(current, h, m), Some(GregorianDatetimeText(g, h, m)), false;
    }

    /** The cancel button. */
    method Cancel()
      modifies this
      ensures !visible
      ensures current == old(current) && inputValue == old(inputValue) && savedValue == old(savedValue)
      ensures hour == old(hour) && minute == old(minute)
      ensures hourInput == old(hourInput) && minuteInput == old(minuteInput)
      ensures highlighted == old(highlighted) && clickedDay == old(clickedDay)
    {
      visible := false;
    }

    /** A click on the input: the picker opens on the date the input names and takes the
        selected time from it, each only when the text has that shape. */
    method Open()
      modifies this
      ensures ReadDatetimeText(old(inputValue)).date.Some? ==> current == ReadDatetimeText(old(inputValue)).date.value
      ensures ReadDatetimeText(old(inputValue)).date.None? ==> current == old(current)
      ensures ReadDatetimeText(old(inputValue)).time.Some? ==> (hour, minute) == ReadDatetimeText(old(inputValue)).time.value
      ensures ReadDatetimeText(old(inputValue)).time.None? ==> hour == old(hour) && minute == old(minute)
      ensures inputValue == old(inputValue) && savedValue == old(savedValue)
      ensures hourInput == old(hourInput) && minuteInput == old(minuteInput) && clickedDay == old(clickedDay)
      ensures visible && Rendered()
    {
      if inputValue != "" {
        var parts := Split(inputValue, ' ');
        if |parts| == 2 {
          var parsed := PartsDate(ParseJalaliDate(parts[0]));
          if parsed.Some? {
            current := parsed.value;
          }
          var timeParts := Split(parts[1], ':');
          if |timeParts| == 2 {
            hour := ParseIntOrZero(timeParts[0]);
            minute := ParseIntOrZero(timeParts[1]);
          }
        }
      }
      Render();
      visible := true;
    }

    method ClickOutside()
      modifies this
      ensures !visible
      ensures current == old(current) && inputValue == old(inputValue) && savedValue == old(savedValue)
      ensures hour == old(hour) && minute == old(minute)
      ensures hourInput == old(hourInput) && minuteInput == old(minuteInput)
      ensures highlighted == old(highlighted) && clickedDay == old(clickedDay)
    {
      visible := false;
    }
  }

  /** Confirming a date and time and reopening the picker restores both. */
  method ConfirmReopen(p: DatetimePicker)
    requires p.current.jy >= 0 && p.current.jm >= 0 && p.current.jd >= 0
    modifies p
    ensures p.current == old(p.current)
    ensures p.hour == ParseIntOrZero(old(p.hourInput)) && p.minute == ParseIntOrZero(old(p.minuteInput))
  {
    ghost var g := p.Ok();
    DatetimeTextRoundTrip(p.current, ParseIntOrZero(p.hourInput), ParseIntOrZero(p.minuteInput));
    p.Open();
  }
}
