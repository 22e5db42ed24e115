/** The Fiscal Year date check that replaces ERPNext's `validate_dates`
    (`fiscal_year_override.py`): under the Jalali calendar a year may be 354 to 366 days
    long, and a short year is only checked for its order. */
module FiscalYearOverride {
  import opened Base
  import opened Gregorian
  import opened JalaliSettings

  /** The fields of the Fiscal Year document the check reads. */
  datatype FiscalYear = FiscalYear(start: GDate, end: GDate, isShortYear: bool)

  datatype FiscalError =
    | EndBeforeStart  // `validate_from_to_dates` raises InvalidDates
    | NotAJalaliYear  // the 354..366 day range check raises InvalidDates

  /** The outcome of a call: ERPNext's own `validate_dates` runs, the document is accepted, or
      an error is raised to the user. */
  datatype Outcome = RunOriginal | Accept | Reject(error: FiscalError)

  /** `(end_date - start_date).days`. */
  function DaySpan(fy: FiscalYear): int
    requires Valid(fy.start) && Valid(fy.end)
  {
    DayNumber(fy.end) - DayNumber(fy.start)
  }

  /** Where the Jalali rules apply: the settings could be read, the plugin is enabled and the
      session user's display calendar is not Gregorian. */
  predicate JalaliRulesApply(settings: Option<SettingsDoc>, sessionUser: Option<string>, read: string -> PreferenceRead)
  {
    && settings.Some?
    && GetSettings(settings.value).enabled
    && GetEffectiveCalendar(settings.value, None, sessionUser, read).displayCalendar != "Gregorian"
  }

  /** The error the Jalali rules raise for a document, if any. */
  function JalaliCheck(fy: FiscalYear): (r: Option<FiscalError>)
    requires Valid(fy.start) && Valid(fy.end)
    ensures r == Some(EndBeforeStart) <==> DayNumber(fy.end) < DayNumber(fy.start)
    ensures r == None <==> 0 <= DaySpan(fy) && (fy.isShortYear || 354 <= DaySpan(fy) <= 366)
  {
    if DayNumber(fy.end) < DayNumber(fy.start) then Some(EndBeforeStart)
    else if fy.isShortYear then None
    else if DaySpan(fy) < 354 || DaySpan(fy) > 366 then Some(NotAJalaliYear)
    else None
  }

  /** `jalali_validate_dates` as written: both errors are raised inside the `try` whose broad
      `except` hands every exception to the original check. */
  function ValidateDatesAsWritten(settings: Option<SettingsDoc>, sessionUser: Option<string>, read: string -> PreferenceRead, fy: FiscalYear): (r: Outcome)
    requires Valid(fy.start) && Valid(fy.end)
    ensures r == Accept <==> JalaliRulesApply(settings, sessionUser, read) && JalaliCheck(fy).None?
    ensures r == RunOriginal <==> !JalaliRulesApply(settings, sessionUser, read) || JalaliCheck(fy).Some?
  {
    if !JalaliRulesApply(settings, sessionUser, read) then RunOriginal
    else if JalaliCheck(fy).Some? then RunOriginal
    else Accept
  }

  /** As written, the Jalali rules never reject anything: every error they find sends the
      document to ERPNext's Gregorian check, which the rules were meant to replace. */
  lemma AsWrittenNeverRejects(settings: Option<SettingsDoc>, sessionUser: Option<string>, read: string -> PreferenceRead, fy: FiscalYear)
    requires Valid(fy.start) && Valid(fy.end)
    ensures !ValidateDatesAsWritten(settings, sessionUser, read, fy).Reject?
    ensures JalaliRulesApply(settings, sessionUser, read) && JalaliCheck(fy).Some? ==>
      ValidateDatesAsWritten(settings, sessionUser, read, fy) == RunOriginal
  {
  }

  /** A one-month "year" from Nowruz 1403 is not refused by the Jalali rules but passed on. */
  lemma OneMonthYearIsPassedOn(read: string -> PreferenceRead)
    ensures var fy := FiscalYear(GDate(2024, 3, 20), GDate(2024, 4, 20), false);
      && Valid(fy.start) && Valid(fy.end) && DaySpan(fy) == 31
      && JalaliCheck(fy) == Some(NotAJalaliYear)
      && ValidateDatesAsWritten(Some(SettingsDoc(true, "Jalali", None, None)), None, read, fy) == RunOriginal
  {
    var fy := FiscalYear(GDate(2024, 3, 20), GDate(2024, 4, 20), false);
    assert DayNumber(fy.start) == DaysBeforeYear(2024) + 60 + 20;
    assert DayNumber(fy.end) == DaysBeforeYear(2024) + 91 + 20;
  }

  /** `jalali_validate_dates` with the errors the Jalali rules find reported to the user. */
  function ValidateDates(settings: Option<SettingsDoc>, sessionUser: Option<string>, read: string -> PreferenceRead, fy: FiscalYear): (r: Outcome)
    requires Valid(fy.start) && Valid(fy.end)
    ensures r == RunOriginal <==> !JalaliRulesApply(settings, sessionUser, read)
    ensures r == Accept <==> JalaliRulesApply(settings, sessionUser, read) && 0 <= DaySpan(fy) && (fy.isShortYear || 354 <= DaySpan(fy) <= 366)
    ensures r == Reject(NotAJalaliYear) ==> !fy.isShortYear && (DaySpan(fy) < 354 || DaySpan(fy) > 366)
    ensures r == Reject(EndBeforeStart) <==> JalaliRulesApply(settings, sessionUser, read) && DaySpan(fy) < 0
  {
    if !JalaliRulesApply(settings, sessionUser, read) then RunOriginal
    else match JalaliCheck(fy)
      case Some(e) => Reject(e)
      case None => Accept
  }

  /** The two readings agree except where the Jalali rules find an error. */
  lemma CorrectedAgreesOnAcceptedYears(settings: Option<SettingsDoc>, sessionUser: Option<string>, read: string -> PreferenceRead, fy: FiscalYear)
    requires Valid(fy.start) && Valid(fy.end)
    ensures ValidateDates(settings, sessionUser, read, fy) != ValidateDatesAsWritten(settings, sessionUser, read, fy)
      <==> ValidateDates(settings, sessionUser, read, fy).Reject?
  {
  }

  /** Both Jalali year lengths pass: 1403, a leap year of 366 days, and 1402 of 365 days. */
  lemma JalaliYearsPass(settings: Option<SettingsDoc>, sessionUser: Option<string>, read: string -> PreferenceRead)
    requires JalaliRulesApply(settings, sessionUser, read)
    ensures ValidateDates(settings, sessionUser, read, FiscalYear(GDate(2024, 3, 20), GDate(2025, 3, 20), false)) == Accept
    ensures ValidateDates(settings, sessionUser, read, FiscalYear(GDate(2023, 3, 21), GDate(2024, 3, 19), false)) == Accept
  {
    assert DayNumber(GDate(2025, 3, 20)) - DayNumber(GDate(2024, 3, 20)) == 365 by {
      DaysBeforeNextYear(2024);
    }
    assert DayNumber(GDate(2024, 3, 19)) - DayNumber(GDate(2023, 3, 21)) == 364 by {
      DaysBeforeNextYear(2023);
    }
  }
}
