/** The server-side overrides of Frappe's date formatting (`formatters.py`): `formatdate`,
    `format_datetime` and `format_value` print Jalali dates when the plugin is enabled and the
    session user's calendar is not Gregorian, `gregorian_to_jalali` converts with `jdatetime`
    or, without it, with a rough month shift, and `make_xlsx_jalali` converts the date cells of
    a spreadsheet export. */
module FormattersPy {
  import opened Base
  import opened Text
  import opened Gregorian
  import opened JalaliDate
  import opened JalaliSettings
  import opened PersianCalendar

  /** A Python `datetime.date`: always a real calendar date. */
  type ValidDate = g: GDate | Valid(g) witness GDate(2000, 1, 1)

  /** The Python values the formatters are handed: None, a string, a `date`, a `datetime`
      (its date and its time of day) or anything else, with its truthiness. */
  datatype PyValue =
    | PyNone
    | PyStr(s: string)
    | PyDate(date: ValidDate)
    | PyDatetime(date: ValidDate, hour: int, minute: int, second: int)
    | PyOther(truthy: bool)

  predicate Falsy(v: PyValue)
  {
    v.PyNone? || v == PyStr("") || v == PyOther(false)
  }

  /** Whether `import jdatetime` succeeds, and its `date.fromgregorian` when it does. */
  datatype Jdatetime = Missing | Available(fromGregorian: ValidDate -> JDate)

  /** Everything the formatters read from outside: the settings document (None when it cannot
      be read), the session user, the preference lookup, `jdatetime`, Frappe's `getdate` on a
      string and `strptime(s, '%Y-%m-%d')` (None when they raise), and the three original
      functions (the format strings and flags handed on to them unchanged are left out). */
  datatype Host = Host(
    settings: Option<SettingsDoc>,
    sessionUser: Option<string>,
    readPreference: string -> PreferenceRead,
    jdatetime: Jdatetime,
    getdate: string -> Option<ValidDate>,
    strptime: string -> Option<ValidDate>,
    originalFormatdate: PyValue -> string,
    originalFormatDatetime: PyValue -> string,
    originalFormatValue: (PyValue, Option<string>) -> string)

  /** `is_jalali_enabled`: False when the settings cannot be read. */
  predicate IsJalaliEnabled(host: Host)
  {
    host.settings.Some? && GetSettings(host.settings.value).enabled
  }

  /** `get_effective_display_calendar`: the session user's calendar, "Jalali" on failure. */
  function EffectiveDisplayCalendar(host: Host): string
  {
    match host.settings
    case None => "Jalali"
    case Some(doc) => GetEffectiveCalendar(doc, None, host.sessionUser, host.readPreference).displayCalendar
  }

  /** The Jalali branches run: enabled, and the display calendar is not Gregorian. */
  predicate JalaliActive(host: Host)
  {
    IsJalaliEnabled(host) && EffectiveDisplayCalendar(host) != "Gregorian"
  }

  /** The formatters print Jalali exactly when the settings enable the plugin and resolve the
      session user's calendar to Jalali. */
  lemma JalaliActiveMeansJalaliUser(host: Host)
    ensures JalaliActive(host) <==>
      && host.settings.Some? && host.settings.value.enableJalali
      && GetEffectiveCalendar(host.settings.value, None, host.sessionUser, host.readPreference).displayCalendar == "Jalali"
  {
  }

  // ---------------------------------------------------------------------------
  // `gregorian_to_jalali`

  /** The arithmetic used when `jdatetime` is missing: the year less 621 (622 up to March),
      the month shifted back by three, and the day moved into 1..20. */
  function FallbackToJalali(g: GDate): (j: JDate)
    requires 1 <= g.month <= 12 && 1 <= g.day <= 31
    ensures 1 <= j.jm <= 12 && 1 <= j.jd <= 20
    ensures g.month == (j.jm + 2) % 12 + 1
    ensures g.year == j.jy + 621 + (if j.jm >= 10 then 1 else 0)
    ensures 10 <= g.day <= 20 <==> j.jd == g.day
  {
    var jy := if g.month <= 3 then g.year - 621 - 1 else g.year - 621;
    var jm := if g.month <= 3 then g.month + 9 else g.month - 3;
    var jd := if g.day > 20 then g.day - 20 else if g.day < 10 then g.day + 10 else g.day;
    JDate(jy, jm, jd)
  }

  /** The fallback always yields a date of the Jalali calendar, whatever the leap rule. */
  lemma FallbackIsValid(g: GDate, isLeap: int -> bool)
    requires 1 <= g.month <= 12 && 1 <= g.day <= 31
    ensures ValidUnder(FallbackToJalali(g), isLeap)
  {
  }

  /** The fallback loses the day: March 1 and March 11, 2024 both become 1402-12-11. */
  lemma FallbackMergesDays()
    ensures FallbackToJalali(GDate(2024, 3, 1)) == FallbackToJalali(GDate(2024, 3, 11)) == JDate(1402, 12, 11)
  {
  }

  /** `gregorian_to_jalali(g.year, g.month, g.day)`. */
  function GregorianToJalali(jdt: Jdatetime, g: ValidDate): (j: JDate)
    ensures jdt.Missing? ==> j == FallbackToJalali(g)
  {
    match jdt
    case Available(f) => f(g)
    case Missing => FallbackToJalali(g)
  }

  /** `f"{jy}-{jm:02d}-{jd:02d}"`. */
  function JalaliText(j: JDate): string
  {
    FormatYmd(j.jy, j.jm, j.jd)
  }

  // ---------------------------------------------------------------------------
  // The three overrides

  /** The date `getdate` finds in a value: a date as it is, a datetime's date, a string as
      Frappe parses it; None when it raises. */
  function DateOf(host: Host, v: PyValue): Option<ValidDate>
  {
    match v
    case PyStr(s) => host.getdate(s)
    case PyDate(g) => Some(g)
    case PyDatetime(g, _, _, _) => Some(g)
    case _ => None
  }

  /** `formatdate(string_date)`. */
  function Formatdate(host: Host, v: PyValue): string
  {
    if !JalaliActive(host) then host.originalFormatdate(v)
    else if Falsy(v) then ""
    else match DateOf(host, v)
      case None => host.originalFormatdate(v)
      case Some(g) => JalaliText(GregorianToJalali(host.jdatetime, g))
  }

  /** `time().strftime('%H:%M:%S')`. */
  function TimeText(hour: int, minute: int, second: int): string
  {
    Pad2(hour) + ":" + Pad2(minute) + ":" + Pad2(second)
  }

  /** The date and the time part `format_datetime` reads from a value; None when it raises. */
  function DatetimeParts(host: Host, v: PyValue): Option<(ValidDate, string)>
  {
    match v
    case PyStr(s) =>
      var ws := Words(s);
      if |ws| == 0 then None
      else (match host.strptime(ws[0])
        case None => None
        case Some(g) => Some((g, if |ws| > 1 then ws[1] else "")))
    case PyDatetime(g, h, m, sec) => Some((g, TimeText(h, m, sec)))
    case PyDate(g) => Some((g, ""))
    case _ => None
  }

  /** `format_datetime(dt)`. */
  function FormatDatetime(host: Host, v: PyValue): string
  {
    if !JalaliActive(host) then host.originalFormatDatetime(v)
    else if Falsy(v) then ""
    else match DatetimeParts(host, v)
      case None => host.originalFormatDatetime(v)
      case Some((g, time)) =>
        var jalali := JalaliText(GregorianToJalali(host.jdatetime, g));
        if time != "" then jalali + " " + time else jalali
  }

  /** `format_value(value, df)`, `fieldtype` being `df`'s field type (None when absent). */
  function FormatValue(host: Host, v: PyValue, fieldtype: Option<string>): string
  {
    if !JalaliActive(host) then host.originalFormatValue(v, fieldtype)
    else if fieldtype == Some("Date") then Formatdate(host, v)
    else if fieldtype == Some("Datetime") then FormatDatetime(host, v)
    else host.originalFormatValue(v, fieldtype)
  }

  /** Disabled, or with a Gregorian user, every override hands its value to the original. */
  lemma InactiveDelegates(host: Host, v: PyValue, fieldtype: Option<string>)
    requires !JalaliActive(host)
    ensures Formatdate(host, v) == host.originalFormatdate(v)
    ensures FormatDatetime(host, v) == host.originalFormatDatetime(v)
    ensures FormatValue(host, v, fieldtype) == host.originalFormatValue(v, fieldtype)
  {
  }

  /** `format_value` sends Date fields to `formatdate`, Datetime fields to `format_datetime`
      and everything else to the original. */
  lemma FormatValueDispatch(host: Host, v: PyValue, fieldtype: Option<string>)
    requires JalaliActive(host)
    ensures fieldtype == Some("Date") ==> FormatValue(host, v, fieldtype) == Formatdate(host, v)
    ensures fieldtype == Some("Datetime") ==> FormatValue(host, v, fieldtype) == FormatDatetime(host, v)
    ensures fieldtype != Some("Date") && fieldtype != Some("Datetime") ==>
      FormatValue(host, v, fieldtype) == host.originalFormatValue(v, fieldtype)
  {
  }

  /** An empty value prints as the empty string. */
  lemma EmptyPrintsEmpty(host: Host, v: PyValue)
    requires JalaliActive(host) && Falsy(v)
    ensures Formatdate(host, v) == "" && FormatDatetime(host, v) == ""
  {
  }

  /** A date `formatdate` prints reads back, through `parseJalaliDate`, as the Jalali image of
      the date `getdate` found. */
  lemma FormatdateReadsBack(host: Host, v: PyValue)
    requires JalaliActive(host) && !Falsy(v) && DateOf(host, v).Some?
    requires var j := GregorianToJalali(host.jdatetime, DateOf(host, v).value); j.jy >= 0 && j.jm >= 0 && j.jd >= 0
    ensures PartsDate(ParseJalaliDate(Formatdate(host, v))) == Some(GregorianToJalali(host.jdatetime, DateOf(host, v).value))
  {
    ParseFormatRoundTrip(GregorianToJalali(host.jdatetime, DateOf(host, v).value));
  }

  /** On a string, `format_datetime` converts the first word and keeps the second: "d t" prints
      as the converted d, a space and t, and "d" alone as the converted d. */
  lemma FormatDatetimeOfString(host: Host, d: string, t: string)
    requires JalaliActive(host)
    requires d != [] && NoSpace(d) && NoSpace(t) && host.strptime(d).Some?
    ensures var jalali := JalaliText(GregorianToJalali(host.jdatetime, host.strptime(d).value));
      && FormatDatetime(host, PyStr(d)) == jalali
      && (t != [] ==> FormatDatetime(host, PyStr(d + " " + t)) == jalali + " " + t)
  {
    WordsOfOneOrTwo(d, t);
  }

  /** A `datetime` prints as the converted date, a space and its `HH:MM:SS`; a plain `date` as
      the converted date alone. */
  lemma FormatDatetimeOfObjects(host: Host, g: ValidDate, hour: int, minute: int, second: int)
    requires JalaliActive(host)
    requires 0 <= hour < 24 && 0 <= minute < 60 && 0 <= second < 60
    ensures var jalali := JalaliText(GregorianToJalali(host.jdatetime, g));
      && FormatDatetime(host, PyDatetime(g, hour, minute, second)) == jalali + " " + TimeText(hour, minute, second)
      && |TimeText(hour, minute, second)| == 8
      && FormatDatetime(host, PyDate(g)) == jalali
  {
    Pad2Digits(hour);
    Pad2Digits(minute);
    Pad2Digits(second);
  }

  // ---------------------------------------------------------------------------
  // `make_xlsx_jalali`

  /** One cell of the export: a datetime goes through `format_datetime`, a date through
      `formatdate`, anything else is kept. (A Python `datetime` is also a `date`; the source
      tests for it first, which the separate constructors here make explicit.) */
  function ConvertCell(host: Host, c: PyValue): PyValue
  {
    match c
    case PyDatetime(_, _, _, _) => PyStr(FormatDatetime(host, c))
    case PyDate(_) => PyStr(Formatdate(host, c))
    case _ => c
  }

  /** The rows handed on to the original `make_xlsx`. */
  method MakeXlsxJalali(host: Host, data: seq<seq<PyValue>>) returns (out: seq<seq<PyValue>>)
    ensures |out| == |data|
    ensures forall i :: 0 <= i < |data| ==> |out[i]| == |data[i]|
    ensures forall i, k :: 0 <= i < |data| && 0 <= k < |data[i]| ==>
      out[i][k] == if IsJalaliEnabled(host) then ConvertCell(host, data[i][k]) else data[i][k]
  {
    if !IsJalaliEnabled(host) {
      return data;
    }
    out := [];
    var i := 0;
    while i < |data|
      invariant 0 <= i <= |data| && |out| == i
      invariant forall r :: 0 <= r < i ==> |out[r]| == |data[r]|
      invariant forall r, k :: 0 <= r < i && 0 <= k < |data[r]| ==> out[r][k] == ConvertCell(host, data[r][k])
    {
      var row := data[i];
      var converted: seq<PyValue> := [];
      var k := 0;
      while k < |row|
        invariant 0 <= k <= |row| && |converted| == k
        invariant forall c :: 0 <= c < k ==> converted[c] == ConvertCell(host, row[c])
      {
        var item := row[k];
        if item.PyDatetime? {
          converted := converted + [PyStr(FormatDatetime(host, item))];
        } else if item.PyDate? {
          converted := converted + [PyStr(Formatdate(host, item))];
        } else {
          converted := converted + [item];
        }
        k := k + 1;
      }
      out := out + [converted];
      i := i + 1;
    }
  }

  /** What an export cell becomes: other values are kept; with the Jalali branches running,
      dates and datetimes become Jalali text; with a Gregorian user they become the originals'
      text. */
  lemma ConvertCellKinds(host: Host, c: PyValue)
    ensures !c.PyDate? && !c.PyDatetime? ==> ConvertCell(host, c) == c
    ensures JalaliActive(host) && c.PyDate? ==>
      ConvertCell(host, c) == PyStr(JalaliText(GregorianToJalali(host.jdatetime, c.date)))
    ensures JalaliActive(host) && c.PyDatetime? ==>
      ConvertCell(host, c) == PyStr(JalaliText(GregorianToJalali(host.jdatetime, c.date)) + " " + TimeText(c.hour, c.minute, c.second))
    ensures !JalaliActive(host) && c.PyDate? ==> ConvertCell(host, c) == PyStr(host.originalFormatdate(c))
    ensures !JalaliActive(host) && c.PyDatetime? ==> ConvertCell(host, c) == PyStr(host.originalFormatDatetime(c))
  {
    if c.PyDatetime? {
      Pad2Digits(c.hour);
      assert TimeText(c.hour, c.minute, c.second) != "";
    }
  }
}
