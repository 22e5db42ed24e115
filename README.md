# Persian Calendar for Frappe / ERPNext — a Dafny model

The Persian Calendar app makes Frappe and ERPNext show and accept dates in the Jalali (Solar
Hijri) calendar while keeping Gregorian dates in the database. This project models its core
and proves properties of that model. The core has a browser side and a server side.

**Browser side**
- **Conversion.** The browser converts Gregorian to Jalali with `Intl.DateTimeFormat`. The
  reverse conversion searches the Gregorian days of 2000–2030 for the one whose Jalali image
  matches, with a fallback when none does.
  - `jalaali.js`'s search does not check that a candidate day exists.
  - `toGregorian2` in the bundle does check it.
- **Date pickers.** Two generations of pickers replace the date and datetime inputs:
  - the closure-based pickers of `persian_calendar.js`;
  - the `JalaliDatepicker` class of the bundle, with its days, months and years views, its
    settings cache and the Fiscal Year form hook.
- **Display formatters.** `formatters.js` overrides Frappe's list and report helpers so that
  stored `YYYY-MM-DD` values show as Jalali dates.

**Server side**
- **Settings.** `Jalali Settings` validates the document and reads it with defaults. It also
  decides the effective calendar for a user: the user's preference if it names a calendar,
  else the site default.
- **Formatting.** `formatters.py` overrides `formatdate`, `format_datetime`, `format_value` and
  the Excel export.
- **Month helpers.** `date_utils.py` finds Jalali month ends.
- **Fiscal Year check.** `fiscal_year_override.py` replaces ERPNext's Fiscal Year date check
  with a Jalali-year-length check.

Modules (one per source file, plus shared support):

| module | models |
|---|---|
| `Base` | `Option`, JavaScript's truncating `%` |
| `Text` | digits, `String(n)`, `padStart(2, "0")`, `Number`, `parseInt`, `split`, `trim`, `slice`, Python `str.split()` |
| `Gregorian` | the proleptic Gregorian calendar of JavaScript `Date` and Python `date`: day numbers, weekday, day-overflow normalisation |
| `JalaliDate` | Jalali dates, month lengths, the widgets' `jy % 4 === 3` leap rule, month stepping |
| `Jalaali` | `jalaali.js` `toGregorian` (unchecked search) and the bundle's `toGregorian2` (checked search, epoch fallback) |
| `PersianCalendar` | `persian_calendar.js`: first day of week, format/parse, the `DatePicker` and `DatetimePicker` widgets |
| `Datepicker` | the bundle: settings cache, `JalaliDatepicker`, day and year grids, `closeAllJalaliDatepickers`, Fiscal Year defaults |
| `FormattersJs` | `formatters.js` |
| `FormattersPy` | `formatters.py` |
| `JalaliSettings` | `jalali_settings.py` |
| `DateUtils` | `utils/date_utils.py` |
| `FiscalYearOverride` | `fiscal_year_override.py` |

Functions passed in as parameters rather than modelled:
- the Gregorian-to-Jalali conversion (`Intl` persian calendar, `jdatetime.date.fromgregorian`);
- `jdatetime`'s reverse conversion and leap test;
- `new Date(text)`, `getdate` and `strptime`;
- the database reads;
- Frappe's original functions that the overrides call back.

The browser pickers are classes whose methods update the picker's fields, as the JavaScript
closures and the class do. The search loops are `while` loops proved against the search's
specification. The Excel conversion is a nested loop. The weekday header, the day grid, the
year cells, the closing of every picker and the date picker's redraw are loops with invariants
too.
Everything else is functions and lemmas.

## Model

| member | source | states |
|---|---|---|
| Base.JsRem | persian_calendar/public/dist/js/jalali_support.bundle.D5RG7OWF.js:943 | JavaScript's `%` keeps the dividend's sign: non-negative dividends give a remainder in `0..b-1`, negative ones a remainder in `-(b-1)..0`; in both cases the dividend is a multiple of `b` plus the remainder, which fixes its value |
| Text.JsNumber | persian_calendar/public/js/jalali_support/persian_calendar.js:47 | `Number(part)` is a number exactly when the part is all digits; the empty part reads as 0 |
| Text.JsParseInt | persian_calendar/public/js/jalali_support/persian_calendar.js:509-510 | `parseInt` gives a number exactly when the text starts with a digit, and the full value on an all-digit text |
| Text.ParseIntOrZero | persian_calendar/public/js/jalali_support/persian_calendar.js:545-546 | `parseInt(x) \|\| 0` reads an all-digit text as its value; it is never negative only because the model's `parseInt` reads no sign (see Left out) |
| Text.NumberOfIntToString | persian_calendar/public/js/jalali_support/persian_calendar.js:42-47 | `Number` reads back both a formatted number and a two-digit padded number |
| Text.Pad2Digits | persian_calendar/public/js/jalali_support/persian_calendar.js:43 | `String(n).padStart(2, "0")` of a non-negative number is all digits with the number's value, exactly two of them below 100; only a negative number gets a `-` |
| Text.FormatYmdShape | persian_calendar/public/js/jalali_support/persian_calendar.js:42-44 | a formatted date is three digit fields joined by two dashes |
| Text.FormatYmd | persian_calendar/public/js/jalali_support/persian_calendar.js:42-44 | `formatJalaliDate`; its shape is stated by `Text.FormatYmdShape` and its read-back by `PersianCalendar.ParseFormatRoundTrip` |
| Text.Split | persian_calendar/public/js/jalali_support/persian_calendar.js:47 | `split` gives at least one field, and no field holds the separator |
| Text.JoinSplit | persian_calendar/public/js/jalali_support/persian_calendar.js:47 | joining the fields of a split with the separator gives back the text |
| Text.SplitCount | persian_calendar/public/js/jalali_support/persian_calendar.js:48 | a split has one field more than the separators in the text |
| Text.Trim | persian_calendar/public/js/jalali_support/formatters.js:45 | the result is the slice of the text left after removing the white space at both ends: it starts and ends with no white space, and everything before and after it is white space |
| Text.TrimDropsTrailingSpace | persian_calendar/public/js/jalali_support/formatters.js:64 | trimming a one-word text followed by a space gives the word |
| Text.JsSlice | persian_calendar/public/js/jalali_support/formatters.js:43-44 | `slice(from, to)` is the sub-sequence when in range and clamps at the end of the text otherwise |
| Text.Words | persian_calendar/jalali_support/formatters.py:50-51 | Python's `str.split()` gives non-empty words holding no ASCII white space (see Left out) |
| Text.WordsOfOneOrTwo | persian_calendar/jalali_support/formatters.py:50-51 | a word splits into itself, and two words joined by a space split into the two |
| Text.WordsOfSeparated | persian_calendar/jalali_support/formatters.py:50-51 | a white-space character separates words: the words of `a + c + b` are those of `a` followed by those of `b`, which with WordsOfOneOrTwo gives `str.split()` of every text |
| Gregorian.Weekday | persian_calendar/public/dist/js/jalali_support.bundle.D5RG7OWF.js:942 | `getDay()` is in 0..6 |
| Gregorian.NowruzOf1403IsAWednesday | persian_calendar/public/dist/js/jalali_support.bundle.D5RG7OWF.js:942 | 2024-03-20 is day 738965 and falls on a Wednesday (3) |
| Gregorian.WeekdayOfNextDay | persian_calendar/public/dist/js/jalali_support.bundle.D5RG7OWF.js:942 | the day after a date has the next weekday, modulo 7 |
| Gregorian.Normalize | persian_calendar/public/dist/js/jalali_support.bundle.D5RG7OWF.js:40-43 | `new Date(y, m - 1, d)` yields a real date, and the same fields exactly when the fields form a real date |
| Gregorian.NormalizeDayNumber | persian_calendar/public/dist/js/jalali_support.bundle.D5RG7OWF.js:40 | an overflowing day count moves forward by whole days from the first of the month |
| Gregorian.AddDays | persian_calendar/public/dist/js/jalali_support.bundle.D5RG7OWF.js:60 | adding `n` days to a date gives a real date `n` day numbers later |
| JalaliDate.JsDaysInMonth | persian_calendar/public/js/jalali_support/persian_calendar.js:145 | months 1–6 have 31 days, 7–11 have 30, Esfand has 30 exactly in years with `jy % 4 === 3` and 29 otherwise |
| JalaliDate.JsLeapEveryFourthYear | persian_calendar/public/dist/js/jalali_support.bundle.D5RG7OWF.js:613 | for years from 0 on, the widgets' leap rule marks exactly one year in every four (those with `jy % 4 == 3`); no negative year is leap |
| JalaliDate.MonthLength | persian_calendar/jalali_support/utils/date_utils.py:14-20 | a Jalali month has 29 to 31 days |
| JalaliDate.MonthAfter | persian_calendar/public/js/jalali_support/persian_calendar.js:266-276 | the next month keeps the month in 1..12, is one month later, and changes the year exactly after Esfand |
| JalaliDate.MonthBefore | persian_calendar/public/js/jalali_support/persian_calendar.js:258-265 | the previous month keeps the month in 1..12, is one month earlier, and changes the year exactly before Farvardin |
| JalaliDate.MonthBeforeAfterInverse | persian_calendar/public/dist/js/jalali_support.bundle.D5RG7OWF.js:786-803 | "previous month" and "next month" undo each other |
| Jalaali.ScanMonth | persian_calendar/public/js/jalali_support/jalaali.js:26-44 | the day loop returns the first matching day of the month, or reports that none of days 1..31 matches |
| Jalaali.NextMonthSlot | persian_calendar/public/js/jalali_support/jalaali.js:25-26 | having found nothing in a month, the search has found nothing before the next month or year |
| Jalaali.SearchExhausted | persian_calendar/public/js/jalali_support/jalaali.js:24-44 | after the last slot of 2030, no candidate matches |
| Jalaali.JalaaliFallback | persian_calendar/public/js/jalali_support/jalaali.js:46-61 | the fallback is a real date, offset from the anchor `new Date(2000, 6, 1)` (2000-07-01) by 365 days per year, 30 per month and 1 per day of the target's difference from the anchor's Jalali image |
| Jalaali.ToGregorian | persian_calendar/public/js/jalali_support/jalaali.js:18-62 | the unchecked search returns the first candidate whose image matches, else the fallback, after that many tries |
| Jalaali.UncheckedSearchReturnsFebruary30 | persian_calendar/public/js/jalali_support/jalaali.js:28-36 | for an injective conversion, the Jalali image of 2000-03-01 is first matched by the non-date 2000-02-30 |
| Jalaali.ImageOf20000301IsFound | persian_calendar/public/js/jalali_support/jalaali.js:24-37 | the unchecked search finds a match for the image of 2000-03-01 |
| Jalaali.EpochFallback | persian_calendar/public/dist/js/jalali_support.bundle.D5RG7OWF.js:58-65 | the bundle's fallback is a real date `(jy-1)·365 + (jm-1)·30 + (jd-1)` days after 622-03-22 |
| Jalaali.ToGregorianChecked | persian_calendar/public/dist/js/jalali_support.bundle.D5RG7OWF.js:33-66 | `toGregorian2` returns a real date: the first real date in range whose image matches, else the epoch fallback |
| Jalaali.CheckedSearchInvertsConversion | persian_calendar/public/dist/js/jalali_support.bundle.D5RG7OWF.js:41-50 | for an injective conversion, searching for the image of a date in 2000–2030 returns that date |
| Jalaali.CheckedSearchRoundTrip | persian_calendar/public/dist/js/jalali_support.bundle.D5RG7OWF.js:44-50 | when the checked search finds a match, the result is a real date in range whose image is the target |
| PersianCalendar.FirstDayFromWeekBounds | persian_calendar/public/js/jalali_support/persian_calendar.js:23-32 | the first day of the week is the server's `week_start` when present, including Sunday (0), else Saturday (6) |
| PersianCalendar.ParseJalaliDate | persian_calendar/public/js/jalali_support/persian_calendar.js:46-50 | `parseJalaliDate` fails exactly when the text does not split into three dash-separated fields |
| PersianCalendar.PartsDate | persian_calendar/public/js/jalali_support/persian_calendar.js:47-49 | a parse result is a date exactly when all three parts are numbers, and it has those parts |
| PersianCalendar.ParseFormatRoundTrip | persian_calendar/public/js/jalali_support/persian_calendar.js:42-50 | `parseJalaliDate(formatJalaliDate(jy, jm, jd))` gives back the three numbers |
| PersianCalendar.ParseFormatNegative | persian_calendar/public/js/jalali_support/persian_calendar.js:42-50 | a formatted date with a negative year has an extra dash and does not parse |
| PersianCalendar.WeekdayHeader | persian_calendar/public/js/jalali_support/persian_calendar.js:137-141 | the header loop yields the seven weekday indices `(FIRST_DAY + i) % 7` |
| PersianCalendar.WeekdayHeaderIsRotation | persian_calendar/public/js/jalali_support/persian_calendar.js:137-141 | the header is the week rotated to start at `FIRST_DAY % 7`, and it holds every weekday |
| PersianCalendar.DayRange | persian_calendar/public/js/jalali_support/persian_calendar.js:149-171 | the days drawn are 1..daysInMonth in order |
| PersianCalendar.HighlightFor | persian_calendar/public/js/jalali_support/persian_calendar.js:163-171 | a day is highlighted exactly when the input parses to that day of the shown month |
| PersianCalendar.HighlightOfFormattedDay | persian_calendar/public/js/jalali_support/persian_calendar.js:163-171 | after a day is written to the input, that day is highlighted |
| PersianCalendar.GregorianString | persian_calendar/public/js/jalali_support/persian_calendar.js:216-219 | the value saved is the `YYYY-MM-DD` of the reverse conversion of the chosen Jalali date |
| PersianCalendar.PromptedYear | persian_calendar/public/js/jalali_support/persian_calendar.js:278-285 | a prompted year is accepted only strictly between 1300 and 1500 |
| PersianCalendar.PromptedYearOfNumber | persian_calendar/public/js/jalali_support/persian_calendar.js:278-285 | typing a number sets that year exactly when it is in 1301..1499; cancelling sets nothing |
| PersianCalendar.DatePicker.constructor | persian_calendar/public/js/jalali_support/persian_calendar.js:88-125 | a new picker is hidden, shows today's Jalali month and has saved nothing |
| PersianCalendar.DatePicker.Render | persian_calendar/public/js/jalali_support/persian_calendar.js:126-171 | redrawing draws the header, the days and the highlight of the current month and changes no state |
| PersianCalendar.DatePicker.PrevYear | persian_calendar/public/js/jalali_support/persian_calendar.js:248-251 | the previous-year button moves back one year and redraws |
| PersianCalendar.DatePicker.NextYear | persian_calendar/public/js/jalali_support/persian_calendar.js:252-256 | the next-year button moves forward one year and redraws |
| PersianCalendar.DatePicker.PrevMonth | persian_calendar/public/js/jalali_support/persian_calendar.js:258-266 | the previous-month button steps to the month before, wrapping to Esfand of the previous year |
| PersianCalendar.DatePicker.NextMonth | persian_calendar/public/js/jalali_support/persian_calendar.js:267-276 | the next-month button steps to the month after, wrapping to Farvardin of the next year |
| PersianCalendar.DatePicker.PromptYear | persian_calendar/public/js/jalali_support/persian_calendar.js:278-285 | a valid prompted year replaces the year and redraws; otherwise nothing changes |
| PersianCalendar.DatePicker.ClickDay | persian_calendar/public/js/jalali_support/persian_calendar.js:173-245 | clicking the highlighted day clears the field; any other day writes its Jalali date and saves its Gregorian date; the picker closes |
| PersianCalendar.DatePicker.Today | persian_calendar/public/js/jalali_support/persian_calendar.js:288-315 | "Today" shows today's Jalali date, saves its Gregorian date and closes |
| PersianCalendar.DatePicker.Open | persian_calendar/public/js/jalali_support/persian_calendar.js:318-341 | opening moves to the input's date when it parses and shows the picker |
| PersianCalendar.DatePicker.ClickOutside | persian_calendar/public/js/jalali_support/persian_calendar.js:344-348 | a click outside hides the picker and changes nothing else |
| PersianCalendar.SelectReopenClear | persian_calendar/public/js/jalali_support/persian_calendar.js:173-204 | choosing a day, reopening and clicking the same day again clears the field and saves the empty value |
| PersianCalendar.ReadDatetimeText | persian_calendar/public/js/jalali_support/persian_calendar.js:536-548 | a date or a time is read only from a text of exactly two space-separated fields, and, since the model's `parseInt` reads no sign, the time read is non-negative (see Left out) |
| PersianCalendar.FormattedDateHasNoSpace | persian_calendar/public/js/jalali_support/persian_calendar.js:42-44 | a formatted date holds no space |
| PersianCalendar.DatetimeText | persian_calendar/public/js/jalali_support/persian_calendar.js:512 | the text OK writes; its fields are stated by `PersianCalendar.DatetimeTextFields` and its read-back by `PersianCalendar.DatetimeTextRoundTrip` |
| PersianCalendar.DatetimeTextFields | persian_calendar/public/js/jalali_support/persian_calendar.js:512 | the text written by OK splits into the date and `HH:MM`, and the time into hours and minutes |
| PersianCalendar.DatetimeTextRoundTrip | persian_calendar/public/js/jalali_support/persian_calendar.js:512-548 | reopening the picker on the text OK wrote reads back the same date, hour and minute |
| PersianCalendar.DatetimePicker.constructor | persian_calendar/public/js/jalali_support/persian_calendar.js:399-439 | a new datetime picker is hidden, shows today's Jalali month and the given time |
| PersianCalendar.DatetimePicker.Render | persian_calendar/public/js/jalali_support/persian_calendar.js:442-466 | redrawing changes no state |
| PersianCalendar.DatetimePicker.PrevMonth | persian_calendar/public/js/jalali_support/persian_calendar.js:487-496 | steps to the month before; keeps the day, the time, the typed hour and minute, the clicked day, the input and the visibility, and redraws the highlight |
| PersianCalendar.DatetimePicker.NextMonth | persian_calendar/public/js/jalali_support/persian_calendar.js:497-506 | steps to the month after; keeps the day, the time, the typed hour and minute, the clicked day, the input and the visibility, and redraws the highlight |
| PersianCalendar.DatetimePicker.ClickDay | persian_calendar/public/js/jalali_support/persian_calendar.js:469-480 | clicking a day selects it and fills the hour and minute inputs |
| PersianCalendar.DatetimePicker.Ok | persian_calendar/public/js/jalali_support/persian_calendar.js:508-522 | OK writes the Jalali datetime with the typed time, saves the Gregorian datetime and closes; the date, time, time boxes, highlight and clicked day stay |
| PersianCalendar.DatetimePicker.Cancel | persian_calendar/public/js/jalali_support/persian_calendar.js:524-526 | Cancel hides the picker and keeps the date, time, time boxes, input, saved value, highlight and clicked day |
| PersianCalendar.DatetimePicker.Open | persian_calendar/public/js/jalali_support/persian_calendar.js:529-561 | opening reads the date and time from the input when they parse and shows the picker; the time boxes, the clicked day and the saved value stay |
| PersianCalendar.DatetimePicker.ClickOutside | persian_calendar/public/js/jalali_support/persian_calendar.js:564-568 | a click outside hides the picker and keeps the date, time, time boxes, input, saved value, highlight and clicked day |
| PersianCalendar.ConfirmReopen | persian_calendar/public/js/jalali_support/persian_calendar.js:508-561 | in the model, where `set_formatted_input` is left out, confirming and reopening shows the same date and the typed time |
| Datepicker.FirstDayAsWritten | persian_calendar/public/dist/js/jalali_support.bundle.D5RG7OWF.js:106 | `week_start \|\| 6` keeps a non-zero week start and turns Sunday (0) or a missing value into Saturday (6) |
| Datepicker.SundayWeekStartIsLost | persian_calendar/public/dist/js/jalali_support.bundle.D5RG7OWF.js:106 | the bundle and `persian_calendar.js` disagree on the first day exactly when the week starts on Sunday |
| Datepicker.ResolveSettings | persian_calendar/public/dist/js/jalali_support.bundle.D5RG7OWF.js:85-121 | corrected reading: the settings are enabled exactly when the server says so; the effective calendar is the one returned, and the first day is its week start whenever there is one, Sunday (0) included, else 6 |
| Datepicker.ResolveSettingsAsWritten | persian_calendar/public/dist/js/jalali_support.bundle.D5RG7OWF.js:85-121 | what `getCalendarSettings` caches: enabled exactly when the server says so, the returned calendar, and `FIRST_DAY = week_start \|\| 6`; it differs from the corrected reading exactly when the week starts on Sunday |
| Datepicker.SettingsCache.constructor | persian_calendar/public/dist/js/jalali_support.bundle.D5RG7OWF.js:77-84 | nothing is cached; the calendar is the default, and the first day is Saturday |
| Datepicker.SettingsCache.Get | persian_calendar/public/dist/js/jalali_support.bundle.D5RG7OWF.js:85-121 | a cached value is returned unchanged; otherwise the fetch is resolved as written (`week_start \|\| 6`), cached, and when enabled applied to `EFFECTIVE_CALENDAR` and `FIRST_DAY` |
| Datepicker.CachedTwice | persian_calendar/public/dist/js/jalali_support.bundle.D5RG7OWF.js:86-88 | two reads return the same settings, those the first fetch resolves to, whatever the second fetch would say |
| Datepicker.FirstDayOffsetAsWritten | persian_calendar/public/dist/js/jalali_support.bundle.D5RG7OWF.js:939-944 | `getFirstDayOfMonth` gives a column in 0..6 |
| Datepicker.AsWrittenOffsetNeedsSaturdayStart | persian_calendar/public/dist/js/jalali_support.bundle.D5RG7OWF.js:939-944 | the column `getFirstDayOfMonth` gives is under the right header cell for every date only when the week starts on Saturday |
| Datepicker.MondayStartMisplacesNowruz | persian_calendar/public/dist/js/jalali_support.bundle.D5RG7OWF.js:939-944 | with the week starting on Monday, 1 Farvardin 1403 (a Wednesday) is drawn under Friday |
| Datepicker.FirstDayOffset | persian_calendar/public/dist/js/jalali_support.bundle.D5RG7OWF.js:614 | the corrected offset is a column in 0..6 |
| Datepicker.FirstDayOffsetMatchesHeader | persian_calendar/public/dist/js/jalali_support.bundle.D5RG7OWF.js:601-614 | the corrected offset puts the first day of the month under the header cell of its own weekday |
| Datepicker.GridPrevMonth | persian_calendar/public/dist/js/jalali_support.bundle.D5RG7OWF.js:615-621 | the previous month of the grid is the month before |
| Datepicker.GridNextMonth | persian_calendar/public/dist/js/jalali_support.bundle.D5RG7OWF.js:711-716 | the next month of the grid is the month after |
| Datepicker.DayGrid | persian_calendar/public/dist/js/jalali_support.bundle.D5RG7OWF.js:610-757 | the three loops build the leading, month and trailing cells of the grid |
| Datepicker.DayGridShape | persian_calendar/public/dist/js/jalali_support.bundle.D5RG7OWF.js:610-757 | the grid has 42 cells, all valid dates; cells `offset..offset+n-1` are exactly the month's days 1..n, the cell before them is the last day of the month before, and the last cell is in the month after |
| Datepicker.DayGridConsecutive | persian_calendar/public/dist/js/jalali_support.bundle.D5RG7OWF.js:622-745 | each cell of the grid is the day after the cell before it |
| Datepicker.DrawnFirstOfMonth | persian_calendar/public/dist/js/jalali_support.bundle.D5RG7OWF.js:610-648 | in the grid as drawn, the first of the month sits in the column `getFirstDayOfMonth` gives, under its own weekday's header when the week starts on Saturday |
| Datepicker.DecadeOf | persian_calendar/public/dist/js/jalali_support.bundle.D5RG7OWF.js:877-880 | the decade shown starts at a multiple of 10, holds the year and spans ten years |
| Datepicker.DecadeOfYearInDecade | persian_calendar/public/dist/js/jalali_support.bundle.D5RG7OWF.js:877-880 | a year's decade starts at `start` exactly when the year is in `start..start+9` |
| Datepicker.YearCells | persian_calendar/public/dist/js/jalali_support.bundle.D5RG7OWF.js:886-937 | the year loop draws the years of the range |
| Datepicker.YearCellsShape | persian_calendar/public/dist/js/jalali_support.bundle.D5RG7OWF.js:886-937 | twelve cells: the year before the decade, its ten years and the year after |
| Datepicker.DecadeStep | persian_calendar/public/dist/js/jalali_support.bundle.D5RG7OWF.js:541-546 | moving by ten years from a decade's start lands in the neighbouring decade |
| Datepicker.InputDate | persian_calendar/public/dist/js/jalali_support.bundle.D5RG7OWF.js:804-814 | a date is read only from a non-empty input that parses to it |
| Datepicker.JalaliDatepicker.constructor | persian_calendar/public/dist/js/jalali_support.bundle.D5RG7OWF.js:165-182 | the picker starts closed in the days view, with the input's date or today's |
| Datepicker.JalaliDatepicker.UpdateDisplay | persian_calendar/public/dist/js/jalali_support.bundle.D5RG7OWF.js:804-814 | a readable input moves the picker and the selection to its date |
| Datepicker.JalaliDatepicker.DrawDays | persian_calendar/public/dist/js/jalali_support.bundle.D5RG7OWF.js:601-757 | the header starts at `FIRST_DAY`; the grid is the current month's, with the first of the month (found by `toGregorian2`) in the column `getFirstDayOfMonth` gives |
| Datepicker.JalaliDatepicker.DrawYears | persian_calendar/public/dist/js/jalali_support.bundle.D5RG7OWF.js:876-938 | the year range and cells are those of the current year's decade |
| Datepicker.JalaliDatepicker.UpdateCalendar | persian_calendar/public/dist/js/jalali_support.bundle.D5RG7OWF.js:568-600 | the days view is redrawn as `updateDays` draws it, the years view as `updateYearsView` does; the state of the other views is left alone |
| Datepicker.JalaliDatepicker.Close | persian_calendar/public/dist/js/jalali_support.bundle.D5RG7OWF.js:512-524 | closing hides the picker and removes its keyboard and outside-click listeners |
| Datepicker.JalaliDatepicker.Open | persian_calendar/public/dist/js/jalali_support.bundle.D5RG7OWF.js:503-511 | opening closes every other picker, reads the input and shows this picker's days view; the year range and year cells stay |
| Datepicker.JalaliDatepicker.Toggle | persian_calendar/public/dist/js/jalali_support.bundle.D5RG7OWF.js:495-502 | an open picker closes and drops both listeners, keeping its date, selection, view and drawing; a closed one opens as Open does, closing the others and reading the input; the year range and year cells stay either way |
| Datepicker.JalaliDatepicker.NavigateMonth | persian_calendar/public/dist/js/jalali_support.bundle.D5RG7OWF.js:525-540 | the arrows move a month in the days view, wrapping the year, and redraw it as drawn by `updateDays`; they move a year in the months view and nothing in the years view; outside the days view the drawn grid is kept, and the decade is always kept |
| Datepicker.JalaliDatepicker.NavigateYear | persian_calendar/public/dist/js/jalali_support.bundle.D5RG7OWF.js:541-546 | the decade arrows move to the neighbouring decade and redraw it |
| Datepicker.JalaliDatepicker.ShowMonthsView | persian_calendar/public/dist/js/jalali_support.bundle.D5RG7OWF.js:547-553 | the months view is shown |
| Datepicker.JalaliDatepicker.ShowYearsView | persian_calendar/public/dist/js/jalali_support.bundle.D5RG7OWF.js:554-560 | the years view is shown and drawn |
| Datepicker.JalaliDatepicker.ShowDaysView | persian_calendar/public/dist/js/jalali_support.bundle.D5RG7OWF.js:561-567 | the days view is shown and drawn; the year range and year cells stay |
| Datepicker.JalaliDatepicker.ClickTitle | persian_calendar/public/dist/js/jalali_support.bundle.D5RG7OWF.js:416-426 | the title goes from days to months and years back to months (year range and cells kept), and from months to the drawn years view |
| Datepicker.JalaliDatepicker.ClickMonth | persian_calendar/public/dist/js/jalali_support.bundle.D5RG7OWF.js:848-852 | choosing a month sets it and returns to the drawn days view; the year range and year cells stay |
| Datepicker.JalaliDatepicker.ClickYear | persian_calendar/public/dist/js/jalali_support.bundle.D5RG7OWF.js:899-933 | a year of the decade is set and the months view shown; a year outside the decade does nothing |
| Datepicker.JalaliDatepicker.SelectDate | persian_calendar/public/dist/js/jalali_support.bundle.D5RG7OWF.js:758-777 | the day is selected and written; the control gets its Gregorian date, or a change event fires; the picker closes |
| Datepicker.JalaliDatepicker.ClickDayCell | persian_calendar/public/dist/js/jalali_support.bundle.D5RG7OWF.js:641-744 | a cell of the month selects its day and keeps the month on display; a cell of a neighbouring month moves there and selects it; the form control receives the Gregorian `YYYY-MM-DD`, or `change` fires without one; the picker closes and drops both listeners |
| Datepicker.JalaliDatepicker.SelectToday | persian_calendar/public/dist/js/jalali_support.bundle.D5RG7OWF.js:778-785 | "Today" shows and selects today's Jalali date and writes it; the form control receives the Gregorian `YYYY-MM-DD`, or `change` fires without one; the picker closes and drops both listeners; the year range and year cells stay |
| Datepicker.JalaliDatepicker.PrevMonth | persian_calendar/public/dist/js/jalali_support.bundle.D5RG7OWF.js:786-794 | steps to the month before and keeps the day; redraws the current view as `updateCalendar` does (days grid, or the years of the new year), leaving the other view's drawing as it was |
| Datepicker.JalaliDatepicker.NextMonth | persian_calendar/public/dist/js/jalali_support.bundle.D5RG7OWF.js:795-803 | steps to the month after and keeps the day; redraws the current view as `updateCalendar` does (days grid, or the years of the new year), leaving the other view's drawing as it was |
| Datepicker.CloseAll | persian_calendar/public/dist/js/jalali_support.bundle.D5RG7OWF.js:152-163 | every picker is closed, and those that were open lose their listeners |
| Datepicker.SelectThenReopen | persian_calendar/public/dist/js/jalali_support.bundle.D5RG7OWF.js:758-777 | reopening after a selection shows the selected day in the days view |
| Datepicker.FiscalYearDefaults | persian_calendar/public/dist/js/jalali_support.bundle.D5RG7OWF.js:1238-1265 | a new Fiscal Year without a start date gets defaults only when the Jalali display is on, and they are the Gregorian bounds of the current Jalali year |
| FormattersJs.FormattedDateIsOneWord | persian_calendar/public/js/jalali_support/formatters.js:25 | a converted date is one non-empty word with no white space |
| FormattersJs.G2JStr | persian_calendar/public/js/jalali_support/formatters.js:19-29 | `g2j_str`; stated by `FormattersJs.G2JStrReadsBack` (readable text) and `FormattersJs.G2JStrKeepsUnreadable` (unreadable text) |
| FormattersJs.StrToUser | persian_calendar/public/js/jalali_support/formatters.js:39-48 | `str_to_user`; stated by `FormattersJs.DatetimeShownAsDateAndTime` (datetimes) and `FormattersJs.FormatDatetimeOfDate` (plain dates) |
| FormattersJs.FormatDate | persian_calendar/public/js/jalali_support/formatters.js:57 | `format_date` is `g2j_str`; stated by `FormattersJs.DateFormatter`'s agreement clause and the `G2JStr` lemmas |
| FormattersJs.FormatDatetime | persian_calendar/public/js/jalali_support/formatters.js:60-65 | `format_datetime`; stated by `FormattersJs.DatetimeShownAsDateAndTime` and `FormattersJs.FormatDatetimeOfDate` |
| FormattersJs.DatetimeFormatter | persian_calendar/public/js/jalali_support/formatters.js:72-79 | `formatters.datetime`; stated by `FormattersJs.DatetimeFormatterFields` and `FormattersJs.DatetimeFormatterKeepsTrailingSpace` |
| FormattersJs.G2JStrReadsBack | persian_calendar/public/js/jalali_support/formatters.js:19-29 | `g2j_str` of a readable text is a single word that `parseJalaliDate` reads as the Jalali image of the date |
| FormattersJs.G2JStrKeepsUnreadable | persian_calendar/public/js/jalali_support/formatters.js:22-23 | a text `new Date` cannot read is shown unchanged |
| FormattersJs.StrToUserWithDefault | persian_calendar/public/js/jalali_support/formatters.js:51-54 | `str_to_user_with_default` agrees with `str_to_user` on every value |
| FormattersJs.DateFormatter | persian_calendar/public/js/jalali_support/formatters.js:68-71 | `formatters.date` keeps an empty value, shows a value `new Date` cannot read as it is, and turns a readable one into a single word that `parseJalaliDate` reads as the Jalali image of its date; on non-empty values it agrees with `format_date` |
| FormattersJs.DatetimeShownAsDateAndTime | persian_calendar/public/js/jalali_support/formatters.js:39-48 | on a stored datetime, `str_to_user` and `format_datetime` both show the Jalali date, one space and the time |
| FormattersJs.FormatDatetimeOfDate | persian_calendar/public/js/jalali_support/formatters.js:60-65 | `format_datetime` and `str_to_user` of a plain date show just the Jalali date, the trim removing the space |
| FormattersJs.DatetimeFormatterKeepsTrailingSpace | persian_calendar/public/js/jalali_support/formatters.js:72-79 | `formatters.datetime` of a plain date ends in a space, since it does not trim |
| FormattersJs.DatetimeFormatterFields | persian_calendar/public/js/jalali_support/formatters.js:72-79 | `formatters.datetime` of a stored datetime splits into a Jalali date that parses back and the time |
| FormattersPy.JalaliActiveMeansJalaliUser | persian_calendar/jalali_support/formatters.py:91-110 | the overrides convert exactly when the settings are readable and enabled and the session user's effective calendar is Jalali |
| FormattersPy.IsJalaliEnabled | persian_calendar/jalali_support/formatters.py:91-98 | `is_jalali_enabled`: false when the settings cannot be read; stated by `FormattersPy.JalaliActiveMeansJalaliUser` |
| FormattersPy.EffectiveDisplayCalendar | persian_calendar/jalali_support/formatters.py:100-110 | `get_effective_display_calendar`: "Jalali" when the settings cannot be read; stated by `FormattersPy.JalaliActiveMeansJalaliUser` |
| FormattersPy.FallbackToJalali | persian_calendar/jalali_support/formatters.py:124-148 | without `jdatetime` the month is shifted by three, the year by 621 or 622, and the day kept only for days 10–20 |
| FormattersPy.FallbackIsValid | persian_calendar/jalali_support/formatters.py:137-142 | the fallback always gives a day 1..20 of a month 1..12, a valid Jalali date |
| FormattersPy.FallbackMergesDays | persian_calendar/jalali_support/formatters.py:138-142 | the fallback maps 2024-03-01 and 2024-03-11 to the same Jalali date 1402-12-11 |
| FormattersPy.GregorianToJalali | persian_calendar/jalali_support/formatters.py:112-148 | without `jdatetime` the conversion is the fallback |
| FormattersPy.Formatdate | persian_calendar/jalali_support/formatters.py:10-32 | `formatdate`; stated by `FormattersPy.InactiveDelegates`, `FormattersPy.EmptyPrintsEmpty` and `FormattersPy.FormatdateReadsBack` |
| FormattersPy.FormatDatetime | persian_calendar/jalali_support/formatters.py:34-64 | `format_datetime`; stated by `FormattersPy.InactiveDelegates`, `FormattersPy.EmptyPrintsEmpty`, `FormattersPy.FormatDatetimeOfString` and `FormattersPy.FormatDatetimeOfObjects` |
| FormattersPy.FormatValue | persian_calendar/jalali_support/formatters.py:66-89 | `format_value`; stated by `FormattersPy.InactiveDelegates` and `FormattersPy.FormatValueDispatch` |
| FormattersPy.InactiveDelegates | persian_calendar/jalali_support/formatters.py:12-18 | when Jalali display is off for the user, all three overrides return what the originals return |
| FormattersPy.FormatValueDispatch | persian_calendar/jalali_support/formatters.py:76-89 | when active, Date fields go to `formatdate`, Datetime fields to `format_datetime`, and others to the original |
| FormattersPy.EmptyPrintsEmpty | persian_calendar/jalali_support/formatters.py:20-21 | when active, an empty value is shown as the empty string |
| FormattersPy.FormatdateReadsBack | persian_calendar/jalali_support/formatters.py:23-29 | `formatdate` of a readable date is a text that `parseJalaliDate` reads as its Jalali image |
| FormattersPy.FormatDatetimeOfString | persian_calendar/jalali_support/formatters.py:49-61 | a date string gives the Jalali date, and a date-and-time string gives the Jalali date, one space and the time |
| FormattersPy.FormatDatetimeOfObjects | persian_calendar/jalali_support/formatters.py:52-61 | a `datetime` gives the Jalali date and `HH:MM:SS`; a `date` gives the Jalali date alone |
| FormattersPy.MakeXlsxJalali | persian_calendar/jalali_support/formatters.py:156-178 | the export keeps every row and column; when enabled each cell is converted, otherwise the data is passed on unchanged |
| FormattersPy.ConvertCell | persian_calendar/jalali_support/formatters.py:165-174 | one cell of the export; stated by `FormattersPy.ConvertCellKinds` |
| FormattersPy.ConvertCellKinds | persian_calendar/jalali_support/formatters.py:165-174 | datetimes go through `format_datetime`, dates through `formatdate`, and other cells are kept |
| JalaliSettings.Validate | persian_calendar/jalali_support/doctype/jalali_settings/jalali_settings.py:11-21 | a save is refused exactly when both week bounds are set and equal, or the default calendar is set to something other than Jalali or Gregorian |
| JalaliSettings.GetSettings | persian_calendar/jalali_support/doctype/jalali_settings/jalali_settings.py:34-53 | an unknown default calendar reads as Jalali; unset week bounds read as Saturday (6) and Friday (5) |
| JalaliSettings.ValidatedBoundsDiffer | persian_calendar/jalali_support/doctype/jalali_settings/jalali_settings.py:16-18 | a validated document with both bounds, or neither, reads back with different bounds |
| JalaliSettings.OneSidedBoundMayMeetDefault | persian_calendar/jalali_support/doctype/jalali_settings/jalali_settings.py:16-18 | a document with only `week_start` = 5 validates and reads back with both bounds 5 |
| JalaliSettings.UserPreference | persian_calendar/jalali_support/doctype/jalali_settings/jalali_settings.py:78-95 | no user, or Guest, reads as "System Default"; otherwise a stored non-empty preference is used |
| JalaliSettings.GetEffectiveCalendar | persian_calendar/jalali_support/doctype/jalali_settings/jalali_settings.py:55-112 | disabled gives Gregorian with weeks 0..6; enabled gives the user's preference when it names a calendar, else the default, with the settings' week bounds |
| JalaliSettings.DisabledIgnoresUsers | persian_calendar/jalali_support/doctype/jalali_settings/jalali_settings.py:67-72 | with the plugin disabled every user gets the same answer |
| JalaliSettings.GuestFollowsDefault | persian_calendar/jalali_support/doctype/jalali_settings/jalali_settings.py:78-86 | Guest and a request with no user see the site default |
| JalaliSettings.PreferenceOverridesDefault | persian_calendar/jalali_support/doctype/jalali_settings/jalali_settings.py:98-105 | a user's Jalali or Gregorian choice wins over the default; a failed lookup or unknown value falls back to it |
| JalaliSettings.SessionUserIsTheDefaultTarget | persian_calendar/jalali_support/doctype/jalali_settings/jalali_settings.py:78-88 | asking about the session user by name gives the same answer as asking about no one |
| DateUtils.JEndOfMonth | persian_calendar/jalali_support/utils/date_utils.py:12-20 | the same month on its last valid day: 31, 30, or 30/29 in Esfand by the leap rule |
| DateUtils.JEndOfMonthIdempotent | persian_calendar/jalali_support/utils/date_utils.py:12-20 | the month end of a month end is itself |
| DateUtils.JEndOfMonthMatchesWidgets | persian_calendar/jalali_support/utils/date_utils.py:12-20 | under the widgets' leap rule the server's month end is the browser's days-in-month |
| DateUtils.IsJMonthEnd | persian_calendar/jalali_support/utils/date_utils.py:22-24 | a date is a month end exactly when it is the month's last day, that is, when the next day number is not valid |
| DateUtils.NextJMonthSameDay | persian_calendar/jalali_support/utils/date_utils.py:26-37 | the month after, on the same day when that month has it and on its last day otherwise |
| DateUtils.NextGregorianForJMonthEnd | persian_calendar/jalali_support/utils/date_utils.py:39-43 | `next_gregorian_for_j_month_end`; stated by `DateUtils.NextGregorianIsNextMonthEnd` |
| DateUtils.NextGregorianIsNextMonthEnd | persian_calendar/jalali_support/utils/date_utils.py:39-43 | when the conversions invert each other, the result is the Gregorian date of the next Jalali month's last day |
| FiscalYearOverride.JalaliCheck | persian_calendar/jalali_support/fiscal_year_override.py:38-57 | end before start is refused; a non-short year is refused unless it spans 354 to 366 days |
| FiscalYearOverride.ValidateDatesAsWritten | persian_calendar/jalali_support/fiscal_year_override.py:17-62 | as written: the document is accepted exactly when the Jalali rules apply and find no error; in every other case the original check runs |
| FiscalYearOverride.AsWrittenNeverRejects | persian_calendar/jalali_support/fiscal_year_override.py:53-62 | as written, no Jalali error reaches the user: each sends the document to the original check |
| FiscalYearOverride.OneMonthYearIsPassedOn | persian_calendar/jalali_support/fiscal_year_override.py:53-62 | a 31-day year from 2024-03-20 fails the Jalali check yet goes to the original check |
| FiscalYearOverride.ValidateDates | persian_calendar/jalali_support/fiscal_year_override.py:17-62 | outside Jalali use the original runs; otherwise a year is accepted exactly when it passes the Jalali check, and refused with its error otherwise |
| FiscalYearOverride.CorrectedAgreesOnAcceptedYears | persian_calendar/jalali_support/fiscal_year_override.py:17-62 | the corrected check differs from the code as written only where it refuses |
| FiscalYearOverride.JalaliYearsPass | persian_calendar/jalali_support/fiscal_year_override.py:46-57 | the 365-day span of 1403 and the 364-day span of 1402 are accepted |

## Left out

- Time zones and daylight saving: JavaScript `Date` and Python `date` are taken as plain calendar days, so the local/UTC difference between `g2j_str` and `formatters.datetime` is not modelled beyond which parser each uses.
- JavaScript's two-digit years (`new Date(y, …)` with `y` in 0..99) and its time limits are not modelled; Gregorian dates are unbounded.
- Text.JsNumber, Text.JsParseInt: white space, signs, decimals, exponents and hexadecimal forms are not modelled; a text is a digit string or NaN.
- Date parts that read as NaN are not written to the pickers' state: the pickers apply a parsed date only when all three parts are numbers.
- The DOM, jQuery, events, `async`/`await` and the promise deduplication in `getCalendarSettings` are not modelled; the widgets' state is modelled as fields, and a rendered view as the sequences drawn.
- `set_formatted_input`, `frappe.msgprint`, `console.log` and the Python `print` calls are not modelled.
- The `jalaliEnabled` gate of `formatters.js` and its checks that each original function exists are not modelled; the overrides are modelled as installed.
- formatters.py: `format_string`, `parse_day_first`, `currency`, `translated` and `format` are only handed to the originals, so they are not modelled.
- FormattersPy.DateOf: `getdate` of a value that is neither a string nor a date is treated as raising.
- FormattersPy.GregorianToJalali: with `jdatetime` present its result is the converter's; `jdatetime`'s own `ValueError` is not modelled.
- FiscalYearOverride: `validate_from_to_dates` is modelled as raising when the end is before the start.
- `api.py`, `scheduler.py`, `hooks.py`, `calendar_preference.py`, `auto_refresh.js` and the older `PEGUJLI7` bundle are not part of this model.
- Datepicker.JalaliDatepicker.Open: `close()` removes the keyboard and outside-click listeners and `open()` does not add them back; the model records this in two flags and proves nothing about events after a reopen.
- The months view draws fixed month names and keeps no state of its own, so it is not modelled.
- Non-string values passed to the JavaScript formatters are not modelled; values are strings.
- DateUtils.NextGregorianForJMonthEnd has no contract of its own; its property is proved in `DateUtils.NextGregorianIsNextMonthEnd`.
- Text.Trim: only ASCII white space counts as white space.
- Text.Words: only ASCII white space separates words. Python's `str.split()` also splits on \x1c–\x1f, \x85, \xa0 and the Unicode spaces, which the model's strings never split on.
- Datepicker.JalaliDatepicker.firstDay: a constant of each picker. The bundle's `FIRST_DAY` is a module global that is reassigned when the settings arrive (jalali_support.bundle.D5RG7OWF.js:969-971, 985-987), possibly after a picker exists. The model draws with the week start the picker was made with.
- Text.ParseIntOrZero: a signed text such as `-3` reads as 0 rather than -3, because the model's `parseInt` reads no sign.
- PersianCalendar.ReadDatetimeText: a signed hour or minute (`-3:10`) reads as 0 rather than negative, for the same reason.
- PersianCalendar.ConfirmReopen: `set_formatted_input` re-renders the input from the local hours of `new Date(value + 'Z')`; that step is not modelled, so the round trip is stated for the model's input text.
- PersianCalendar: the closure pickers call `jalaali.js`'s unchecked search; the model uses the checked search, as recorded under Findings.
- A negative `FIRST_DAY` is not modelled: the header and offset lemmas require a non-negative first day.

## Findings

| source | as written | input that shows it | evidently intended | confidence | as-written member | corrected member |
|---|---|---|---|---|---|---|
| persian_calendar/public/js/jalali_support/jalaali.js:24-37 | the search tries day 1..31 of every month and does not check that `new Date(year, month - 1, day)` is the day it asked for, so the candidate "February 30" is the Jalali image of 1 March | the Jalali image of 2000-03-01 (any injective conversion) is matched first by 2000-02-30, and 2000-02-30 is returned | return only real dates, as `toGregorian2` in the bundle does | not executed | Jalaali.UncheckedSearchReturnsFebruary30 | Jalaali.ToGregorianChecked |
| persian_calendar/public/dist/js/jalali_support.bundle.D5RG7OWF.js:939-944 | `getFirstDayOfMonth` returns `(getDay() + 1) % 7`, the column for a week starting on Saturday, whatever `FIRST_DAY` is | `FIRST_DAY` = 1 (Monday): 1 Farvardin 1403 is a Wednesday but is drawn under the Friday header | the column of the first day's weekday in the header, `(getDay() - FIRST_DAY) mod 7` | not executed | Datepicker.MondayStartMisplacesNowruz | Datepicker.FirstDayOffsetMatchesHeader |
| persian_calendar/public/dist/js/jalali_support.bundle.D5RG7OWF.js:106 | `FIRST_DAY = week_start \|\| 6` treats Sunday (0) as missing | `week_start` = 0 gives `FIRST_DAY` = 6, while `persian_calendar.js` gives 0 | use 6 only when `week_start` is missing | not executed | Datepicker.SundayWeekStartIsLost | Datepicker.ResolveSettings |
| persian_calendar/jalali_support/fiscal_year_override.py:53-62 | the range error is raised inside the `try` whose `except Exception` runs the original Gregorian check instead | a 31-day Fiscal Year from 2024-03-20 to 2024-04-20 is not refused by the Jalali check but handed to ERPNext's original check | report the Jalali error to the user | not executed | FiscalYearOverride.OneMonthYearIsPassedOn | FiscalYearOverride.ValidateDates |
