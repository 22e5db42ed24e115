/** The `Jalali Settings` single document (`jalali_settings.py`): the save-time validation,
    the settings read with their defaults, and the effective calendar for a user. The
    database reads (the settings document, the session user, the user's preference) are
    parameters. */
module JalaliSettings {
  import opened Base

  /** The stored document. A `default_calendar` left empty (or null) is the empty string; a
      week bound may be unset. */
  datatype SettingsDoc = SettingsDoc(enableJalali: bool, defaultCalendar: string, weekStart: Option<int>, weekEnd: Option<int>)

  predicate KnownCalendar(c: string)
  {
    c == "Jalali" || c == "Gregorian"
  }

  datatype ValidationError = WeekBoundsEqual | InvalidDefaultCalendar

  /** `validate`: the first of the two checks that fails, or none. */
  function Validate(doc: SettingsDoc): (r: Option<ValidationError>)
    ensures r == Some(WeekBoundsEqual) <==> doc.weekStart.Some? && doc.weekStart == doc.weekEnd
    ensures r == Some(InvalidDefaultCalendar) <==>
      !(doc.weekStart.Some? && doc.weekStart == doc.weekEnd) && doc.defaultCalendar != "" && !KnownCalendar(doc.defaultCalendar)
    ensures r == None <==>
      !(doc.weekStart.Some? && doc.weekStart == doc.weekEnd) && (doc.defaultCalendar == "" || KnownCalendar(doc.defaultCalendar))
  {
    if doc.weekStart.Some? && doc.weekEnd.Some? && doc.weekStart.value == doc.weekEnd.value then Some(WeekBoundsEqual)
    else if doc.defaultCalendar != "" && !KnownCalendar(doc.defaultCalendar) then Some(InvalidDefaultCalendar)
    else None
  }

  /** What `get_settings` returns. */
  datatype Settings = Settings(enabled: bool, defaultCalendar: string, weekStart: int, weekEnd: int)

  /** `get_settings`: an unknown calendar reads as Jalali, unset week bounds as Saturday (6)
      and Friday (5). */
  function GetSettings(doc: SettingsDoc): (s: Settings)
    ensures s.enabled == doc.enableJalali
    ensures KnownCalendar(s.defaultCalendar)
    ensures s.defaultCalendar == (if KnownCalendar(doc.defaultCalendar) then doc.defaultCalendar else "Jalali")
    ensures s.weekStart == (if doc.weekStart.Some? then doc.weekStart.value else 6)
    ensures s.weekEnd == (if doc.weekEnd.Some? then doc.weekEnd.value else 5)
  {
    Settings(
      doc.enableJalali,
      if KnownCalendar(doc.defaultCalendar) then doc.defaultCalendar else "Jalali",
      match doc.weekStart case Some(w) => w case None => 6,
      match doc.weekEnd case Some(w) => w case None => 5)
  }

  /** A document that passes validation with both bounds set, or with neither, reads back with
      two different week bounds. */
  lemma ValidatedBoundsDiffer(doc: SettingsDoc)
    requires Validate(doc) == None
    requires doc.weekStart.Some? <==> doc.weekEnd.Some?
    ensures GetSettings(doc).weekStart != GetSettings(doc).weekEnd
  {
  }

  /** With only one bound set, validation passes even when the read settings end up with the
      same day at both ends. */
  lemma OneSidedBoundMayMeetDefault()
    ensures var doc := SettingsDoc(true, "Jalali", Some(5), None);
      Validate(doc) == None && GetSettings(doc).weekStart == GetSettings(doc).weekEnd == 5
  {
  }

  /** What the preference lookup `frappe.db.get_value("User", user, "calendar_preference")`
      gives: a stored value (the empty string for null), or an exception. */
  datatype PreferenceRead = ReadFailed | ReadValue(value: string)

  /** Python truthiness of an optional user name. */
  predicate Truthy(user: Option<string>)
  {
    user.Some? && user.value != ""
  }

  /** The user whose preference counts: the one asked about, else the session's. */
  function TargetUser(user: Option<string>, sessionUser: Option<string>): Option<string>
  {
    if Truthy(user) then user else sessionUser
  }

  /** The preference in force: a failed or empty lookup, a missing user and the Guest user all
      read as "System Default". */
  function UserPreference(user: Option<string>, sessionUser: Option<string>, read: string -> PreferenceRead): (p: string)
    ensures p != ""
    ensures var t := TargetUser(user, sessionUser);
      !Truthy(t) || t.value == "Guest" ==> p == "System Default"
    ensures var t := TargetUser(user, sessionUser);
      Truthy(t) && t.value != "Guest" && read(t.value).ReadValue? && read(t.value).value != "" ==> p == read(t.value).value
  {
    var t := TargetUser(user, sessionUser);
    if Truthy(t) && t.value != "Guest" then
      match read(t.value)
      case ReadFailed => "System Default"
      case ReadValue(v) => if v == "" then "System Default" else v
    else "System Default"
  }

  /** The dictionary `get_effective_calendar` returns. */
  datatype Effective = Effective(displayCalendar: string, weekStart: int, weekEnd: int)

  const Disabled: Effective := Effective("Gregorian", 0, 6)

  /** `get_effective_calendar(user)`. */
  function GetEffectiveCalendar(doc: SettingsDoc, user: Option<string>, sessionUser: Option<string>, read: string -> PreferenceRead): (e: Effective)
    ensures !doc.enableJalali ==> e == Disabled
    ensures KnownCalendar(e.displayCalendar)
    ensures doc.enableJalali ==> e.weekStart == GetSettings(doc).weekStart && e.weekEnd == GetSettings(doc).weekEnd
    ensures doc.enableJalali ==> var p := UserPreference(user, sessionUser, read);
      e.displayCalendar == (if KnownCalendar(p) then p else GetSettings(doc).defaultCalendar)
  {
    var s := GetSettings(doc);
    if !s.enabled then Disabled
    else
      var p := UserPreference(user, sessionUser, read);
      var display :=
        if p == "System Default" then s.defaultCalendar
        else if p == "Jalali" then "Jalali"
        else if p == "Gregorian" then "Gregorian"
        else s.defaultCalendar;
      Effective(display, s.weekStart, s.weekEnd)
  }

  /** With the plugin disabled, no user and no preference changes the answer. */
  lemma DisabledIgnoresUsers(doc: SettingsDoc, u1: Option<string>, s1: Option<string>, r1: string -> PreferenceRead,
                             u2: Option<string>, s2: Option<string>, r2: string -> PreferenceRead)
    requires !doc.enableJalali
    ensures GetEffectiveCalendar(doc, u1, s1, r1) == GetEffectiveCalendar(doc, u2, s2, r2) == Disabled
  {
  }

  /** A Guest, and a request without any user, follow the site-wide default calendar. */
  lemma GuestFollowsDefault(doc: SettingsDoc, user: Option<string>, sessionUser: Option<string>, read: string -> PreferenceRead)
    requires doc.enableJalali
    requires var t := TargetUser(user, sessionUser); !Truthy(t) || t.value == "Guest"
    ensures GetEffectiveCalendar(doc, user, sessionUser, read).displayCalendar == GetSettings(doc).defaultCalendar
  {
  }

  /** A user who chose a calendar sees it, whatever the site-wide default; an unknown stored
      value or a failed lookup falls back to the default. */
  lemma PreferenceOverridesDefault(doc: SettingsDoc, name: string, read: string -> PreferenceRead)
    requires doc.enableJalali && name != "" && name != "Guest"
    ensures read(name) == ReadValue("Jalali") ==> GetEffectiveCalendar(doc, Some(name), None, read).displayCalendar == "Jalali"
    ensures read(name) == ReadValue("Gregorian") ==> GetEffectiveCalendar(doc, Some(name), None, read).displayCalendar == "Gregorian"
    ensures (read(name).ReadFailed? || !KnownCalendar(read(name).value)) ==>
      GetEffectiveCalendar(doc, Some(name), None, read).displayCalendar == GetSettings(doc).defaultCalendar
  {
  }

  /** Naming the session's user explicitly gives the same answer as naming no one. */
  lemma SessionUserIsTheDefaultTarget(doc: SettingsDoc, sessionUser: string, read: string -> PreferenceRead)
    ensures GetEffectiveCalendar(doc, None, Some(sessionUser), read) == GetEffectiveCalendar(doc, Some(sessionUser), None, read)
  {
  }
}
