/** The browser-side display formatters (`formatters.js`): stored Gregorian date and datetime
    strings are shown as Jalali dates in lists, reports and read-only fields. `new Date(text)`
    and the Persian-calendar conversion are parameters. */
module FormattersJs {
  import opened Base
  import opened Text
  import opened Gregorian
  import opened JalaliDate
  import opened Jalaali
  import opened PersianCalendar

  /** `new Date(text)` read back with the UTC getters (or, for `formatters.datetime`, the
      local ones): the calendar date, or None when the result is an invalid `Date`. */
  type DateParser = string -> Option<GDate>

  /** The suffix `g2j_str` adds so that `new Date` reads the text as UTC. */
  function UtcSuffix(value: string): string
  {
    if |value| == 10 then "T00:00:00Z" else "Z"
  }

  /** `g2j_str`: the Jalali `YYYY-MM-DD` of the date the text denotes, or the text itself when
      `new Date` cannot read it. */
  function G2JStr(parse: DateParser, toJalali: Converter, value: string): string
  {
    match parse(value + UtcSuffix(value))
    case None => value
    case Some(g) =>
      var j := toJalali(g);
      FormatYmd(j.jy, j.jm, j.jd)
  }

  /** A formatted date of non-negative numbers is one non-empty word. */
  lemma FormattedDateIsOneWord(j: JDate)
    requires j.jy >= 0 && j.jm >= 0 && j.jd >= 0
    ensures var s := FormatYmd(j.jy, j.jm, j.jd); s != [] && NoSpace(s) && Trimmed(s)
  {
    var a, b, c := IntToString(j.jy), Pad2(j.jm), Pad2(j.jd);
    IntToStringDigits(j.jy);
    Pad2Digits(j.jm);
    Pad2Digits(j.jd);
    var s := FormatYmd(j.jy, j.jm, j.jd);
    assert s == a + "-" + b + "-" + c;
    forall i | 0 <= i < |s|
      ensures !IsSpace(s[i])
    {
      if i < |a| {
        assert s[i] == a[i];
      } else if i == |a| || i == |a| + 1 + |b| {
      } else if i <= |a| + |b| {
        assert s[i] == b[i - |a| - 1];
      } else {
        assert s[i] == c[i - |a| - |b| - 2];
      }
    }
  }

  /** A text `new Date` reads converts to a date string that `parseJalaliDate` reads back as
      the Jalali image of that date. */
  lemma G2JStrReadsBack(parse: DateParser, toJalali: Converter, value: string)
    requires parse(value + UtcSuffix(value)).Some?
    requires var j := toJalali(parse(value + UtcSuffix(value)).value); j.jy >= 0 && j.jm >= 0 && j.jd >= 0
    ensures var j := toJalali(parse(value + UtcSuffix(value)).value);
      && PartsDate(ParseJalaliDate(G2JStr(parse, toJalali, value))) == Some(j)
      && NoSpace(G2JStr(parse, toJalali, value))
  {
    var j := toJalali(parse(value + UtcSuffix(value)).value);
    ParseFormatRoundTrip(j);
    FormattedDateIsOneWord(j);
  }

  /** A text `new Date` cannot read is shown as it is. */
  lemma G2JStrKeepsUnreadable(parse: DateParser, toJalali: Converter, value: string)
    requires parse(value + UtcSuffix(value)).None?
    ensures G2JStr(parse, toJalali, value) == value
  {
  }

  /** `str_to_user`'s test for a datetime: longer than a date and holding a ':'. */
  predicate IsDatetimeText(value: string)
  {
    |value| > 10 && ':' in value
  }

  /** The converted date, a space and the time, trimmed: what `str_to_user` and
      `format_datetime` show for a text with a time part. */
  function DateAndTime(parse: DateParser, toJalali: Converter, value: string): string
  {
    Trim(G2JStr(parse, toJalali, JsSlice(value, 0, 10)) + " " + JsSlice(value, 11, 19))
  }

  /** `frappe.datetime.str_to_user`. */
  function StrToUser(parse: DateParser, toJalali: Converter, value: string): string
  {
    if value == "" then value
    else if IsDatetimeText(value) then DateAndTime(parse, toJalali, value)
    else G2JStr(parse, toJalali, value)
  }

  /** `frappe.datetime.str_to_user_with_default`: the same as `str_to_user`, the empty check
      being one `str_to_user` makes too. */
  function StrToUserWithDefault(parse: DateParser, toJalali: Converter, value: string): (r: string)
    ensures r == StrToUser(parse, toJalali, value)
  {
    if value == "" then value else StrToUser(parse, toJalali, value)
  }

  /** `frappe.datetime.format_date`: `g2j_str` without an empty check. */
  function FormatDate(parse: DateParser, toJalali: Converter, dateStr: string): string
  {
    G2JStr(parse, toJalali, dateStr)
  }

  /** `frappe.datetime.format_datetime`: like `str_to_user` on a datetime, but without the
      datetime test. */
  function FormatDatetime(parse: DateParser, toJalali: Converter, value: string): string
  {
    if value == "" then value else DateAndTime(parse, toJalali, value)
  }

  /** `frappe.form.formatters.date`: an empty value stays empty, a value `new Date` cannot read
      is shown as it is, and a readable one becomes a single word that `parseJalaliDate` reads
      as the Jalali image of its date; on every non-empty value it agrees with `format_date`. */
  function DateFormatter(parse: DateParser, toJalali: Converter, value: string): (r: string)
    ensures value == "" ==> r == ""
    ensures value != "" && parse(value + UtcSuffix(value)).None? ==> r == value
    ensures value != "" && parse(value + UtcSuffix(value)).Some? ==>
      var j := toJalali(parse(value + UtcSuffix(value)).value);
      j.jy >= 0 && j.jm >= 0 && j.jd >= 0 ==> PartsDate(ParseJalaliDate(r)) == Some(j) && NoSpace(r)
    ensures value != "" ==> r == FormatDate(parse, toJalali, value)
  {
    // Both non-empty branches give `G2JStr`; the first is split off only to call the read-back
    // lemma where its precondition holds.
    if value == "" then value
    else if parse(value + UtcSuffix(value)).Some? && NonNegative(toJalali(parse(value + UtcSuffix(value)).value)) then
      G2JStrReadsBack(parse, toJalali, value);
      G2JStr(parse, toJalali, value)
    else G2JStr(parse, toJalali, value)
  }

  predicate NonNegative(j: JDate)
  {
    j.jy >= 0 && j.jm >= 0 && j.jd >= 0
  }

  /** `frappe.form.formatters.datetime`: the conversion reads the date with the local getters,
      and the result is not trimmed. */
  function DatetimeFormatter(parseLocal: DateParser, toJalali: Converter, value: string): string
  {
    if value == "" then value
    else match parseLocal(value)
      case None => value
      case Some(g) =>
        var j := toJalali(g);
        FormatYmd(j.jy, j.jm, j.jd) + " " + JsSlice(value, 11, 19)
  }

  /** The shape of a stored datetime: a 10-character date, a space, an 8-character time and
      possibly fractional seconds. */
  predicate StoredDatetime(value: string, date: string, time: string)
  {
    |date| == 10 && |time| == 8 && |value| >= 19 && value[..10] == date && value[10] == ' ' && value[11..19] == time
  }

  /** On a stored datetime whose time has no white space at its ends, `str_to_user` and
      `format_datetime` both show the converted date, one space and the time; when the time
      holds a ':' the string is a datetime for `str_to_user`. */
  lemma DatetimeShownAsDateAndTime(parse: DateParser, toJalali: Converter, value: string, date: string, time: string)
    requires StoredDatetime(value, date, time) && ':' in time && Trimmed(time)
    requires parse(date + "T00:00:00Z").Some?
    requires var j := toJalali(parse(date + "T00:00:00Z").value); j.jy >= 0 && j.jm >= 0 && j.jd >= 0
    ensures var j := toJalali(parse(date + "T00:00:00Z").value);
      && StrToUser(parse, toJalali, value) == FormatYmd(j.jy, j.jm, j.jd) + " " + time
      && FormatDatetime(parse, toJalali, value) == FormatYmd(j.jy, j.jm, j.jd) + " " + time
  {
    var j := toJalali(parse(date + "T00:00:00Z").value);
    var d := FormatYmd(j.jy, j.jm, j.jd);
    assert JsSlice(value, 0, 10) == date && JsSlice(value, 11, 19) == time;
    assert IsDatetimeText(value) by {
      var k :| 0 <= k < |time| && time[k] == ':';
      assert value[11 + k] == ':';
    }
    FormattedDateIsOneWord(j);
    var s := d + " " + time;
    assert s[0] == d[0] && s[|s| - 1] == time[|time| - 1];
    TrimKeepsTrimmed(s);
  }

  /** `format_datetime` on a plain date shows the converted date with no trailing space. */
  lemma FormatDatetimeOfDate(parse: DateParser, toJalali: Converter, value: string)
    requires |value| == 10
    requires parse(value + "T00:00:00Z").Some?
    requires var j := toJalali(parse(value + "T00:00:00Z").value); j.jy >= 0 && j.jm >= 0 && j.jd >= 0
    ensures var j := toJalali(parse(value + "T00:00:00Z").value);
      && FormatDatetime(parse, toJalali, value) == FormatYmd(j.jy, j.jm, j.jd)
      && StrToUser(parse, toJalali, value) == FormatYmd(j.jy, j.jm, j.jd)
  {
    var j := toJalali(parse(value + "T00:00:00Z").value);
    var d := FormatYmd(j.jy, j.jm, j.jd);
    assert G2JStr(parse, toJalali, value) == d;
    assert JsSlice(value, 0, 10) == value && JsSlice(value, 11, 19) == "";
    FormattedDateIsOneWord(j);
    TrimDropsTrailingSpace(d);
    assert d + " " + "" == d + " ";
    assert DateAndTime(parse, toJalali, value) == Trim(d + " ");
    assert !IsDatetimeText(value);
  }

  /** `formatters.datetime` on a plain date keeps the space it puts before the (empty) time. */
  lemma DatetimeFormatterKeepsTrailingSpace(parseLocal: DateParser, toJalali: Converter, value: string)
    requires |value| == 10 && parseLocal(value).Some?
    ensures var j := toJalali(parseLocal(value).value);
      DatetimeFormatter(parseLocal, toJalali, value) == FormatYmd(j.jy, j.jm, j.jd) + " "
  {
    assert JsSlice(value, 11, 19) == "";
  }

  /** `formatters.datetime` on a stored datetime splits back at its one space into a date that
      `parseJalaliDate` reads as the Jalali image, and the time. */
  lemma DatetimeFormatterFields(parseLocal: DateParser, toJalali: Converter, value: string, date: string, time: string)
    requires StoredDatetime(value, date, time) && ' ' !in time
    requires parseLocal(value).Some?
    requires var j := toJalali(parseLocal(value).value); j.jy >= 0 && j.jm >= 0 && j.jd >= 0
    ensures var j := toJalali(parseLocal(value).value);
      && Split(DatetimeFormatter(parseLocal, toJalali, value), ' ') == [FormatYmd(j.jy, j.jm, j.jd), time]
      && PartsDate(ParseJalaliDate(FormatYmd(j.jy, j.jm, j.jd))) == Some(j)
  {
    var j := toJalali(parseLocal(value).value);
    assert JsSlice(value, 11, 19) == time;
    FormattedDateHasNoSpace(j);
    SplitTwoFields(FormatYmd(j.jy, j.jm, j.jd), time, ' ');
    ParseFormatRoundTrip(j);
  }
}
