/** Jalali to Gregorian conversion by search (`toGregorian` in jalaali.js and its bundled
    successor `toGregorian2`). The forward conversion, which the host's Persian-calendar
    formatter performs, is a parameter: the searches are verified against whatever it is. */
module Jalaali {
  import opened Gregorian
  import opened JalaliDate

  /** `toJalaliPartsFromGregorianDate` applied to a local `Date`: the Persian-calendar
      year, month and day that `Intl.DateTimeFormat('en-u-ca-persian')` reports. */
  type Converter = GDate -> JDate

  const StartYear: int := 2000
  const EndYear: int := 2030
  /** Every (year, month, day) slot the search may visit: 31 years of 12 months of 31 days.
      A year holds 372 slots. */
  const SearchSlots: int := 11532

  /** The search space: years 2000..2030, months 1..12, days 1..31 (overflowing days included). */
  predicate Candidate(c: GDate)
  {
    StartYear <= c.year <= EndYear && 1 <= c.month <= 12 && 1 <= c.day <= 31
  }

  /** Strict lexicographic order on (year, month, day): the order the nested loops visit. */
  predicate Before(a: GDate, b: GDate)
  {
    a.year < b.year || (a.year == b.year && (a.month < b.month || (a.month == b.month && a.day < b.day)))
  }

  /** How many candidates the loops visit before reaching `c`. */
  function Rank(c: GDate): int
  {
    (c.year - 2000) * 372 + (c.month - 1) * 31 + (c.day - 1)
  }

  lemma RankWithinSearch(c: GDate)
    requires Candidate(c)
    ensures 0 <= Rank(c) < SearchSlots
  {
  }

  // ---------------------------------------------------------------------------
  // The slots both searches visit. jalaali.js hands every slot to `new Date`, so the slot
  // February 30 is tried as March 1 or 2; `toGregorian2` skips a slot that `new Date`
  // rolls over (`checked`).

  /** Slot `c` matches `target`. */
  predicate Hit(toJalali: Converter, c: GDate, target: JDate, checked: bool)
    requires Candidate(c)
  {
    (checked ==> Normalize(c) == c) && toJalali(Normalize(c)) == target
  }

  /** No slot before `b` matches. */
  ghost predicate NoHitBefore(toJalali: Converter, target: JDate, checked: bool, b: GDate)
  {
    forall c :: Candidate(c) && Before(c, b) ==> !Hit(toJalali, c, target, checked)
  }

  ghost predicate SomeHit(toJalali: Converter, target: JDate, checked: bool)
  {
    exists c :: Candidate(c) && Hit(toJalali, c, target, checked)
  }

  ghost predicate IsFirstHit(toJalali: Converter, target: JDate, checked: bool, g: GDate)
  {
    Candidate(g) && Hit(toJalali, g, target, checked) && NoHitBefore(toJalali, target, checked, g)
  }

  /** The innermost loop of both searches: the day slots 1..31 of one month, in order.
      `day` is the first slot that matches, or 32 when none does. */
  method ScanMonth(toJalali: Converter, target: JDate, checked: bool, year: int, month: int) returns (day: int)
    requires StartYear <= year <= EndYear && 1 <= month <= 12
    requires NoHitBefore(toJalali, target, checked, GDate(year, month, 1))
    ensures 1 <= day <= 32
    ensures day <= 31 ==> IsFirstHit(toJalali, target, checked, GDate(year, month, day))
    ensures day == 32 ==> NoHitBefore(toJalali, target, checked, GDate(year, month, 32))
  {
    day := 1;
    while day <= 31
      invariant 1 <= day <= 32
      invariant NoHitBefore(toJalali, target, checked, GDate(year, month, day))
    {
      var testDate := Normalize(GDate(year, month, day));
      if (checked ==> testDate == GDate(year, month, day)) && toJalali(testDate) == target {
        return;
      }
      day := day + 1;
    }
  }

  /** Past the last day slot of a month is the first slot of the next month (or year). */
  lemma NextMonthSlot(toJalali: Converter, target: JDate, checked: bool, year: int, month: int)
    requires NoHitBefore(toJalali, target, checked, GDate(year, month, 32))
    ensures NoHitBefore(toJalali, target, checked, GDate(year, month + 1, 1))
    ensures month == 12 ==> NoHitBefore(toJalali, target, checked, GDate(year + 1, 1, 1))
  {
  }

  /** Past the last slot, nothing matched at all. */
  lemma SearchExhausted(toJalali: Converter, target: JDate, checked: bool)
    requires NoHitBefore(toJalali, target, checked, GDate(EndYear + 1, 1, 1))
    ensures !SomeHit(toJalali, target, checked)
  {
  }

  ghost predicate SomeUncheckedHit(toJalali: Converter, target: JDate)
  {
    SomeHit(toJalali, target, false)
  }

  ghost predicate IsFirstUncheckedHit(toJalali: Converter, target: JDate, g: GDate)
  {
    IsFirstHit(toJalali, target, false, g)
  }

  /** The anchor of jalaali.js's fallback: `new Date(2000, 6, 1)`, July 1 2000. */
  const FallbackAnchor: GDate := GDate(2000, 7, 1)

  /** The fallback's offset: 365 days per year, 30 per month and 1 per day of difference
      between the target and the anchor's Jalali image. */
  function FallbackOffset(anchorImage: JDate, target: JDate): int
  {
    (target.jy - anchorImage.jy) * 365 + (target.jm - anchorImage.jm) * 30 + (target.jd - anchorImage.jd)
  }

  /** The date jalaali.js answers with when the search finds nothing. */
  function JalaaliFallback(toJalali: Converter, target: JDate): (r: GDate)
    ensures Valid(r)
    ensures DayNumber(r) - DayNumber(FallbackAnchor) == FallbackOffset(toJalali(FallbackAnchor), target)
  {
    AddDays(FallbackAnchor, FallbackOffset(toJalali(FallbackAnchor), target))
  }

  /** `toGregorian` of jalaali.js. `checks` counts the slots compared with the target. */
  method ToGregorian(toJalali: Converter, jy: int, jm: int, jd: int) returns (g: GDate, ghost checks: nat)
    ensures SomeUncheckedHit(toJalali, JDate(jy, jm, jd)) ==> IsFirstUncheckedHit(toJalali, JDate(jy, jm, jd), g)
    ensures !SomeUncheckedHit(toJalali, JDate(jy, jm, jd)) ==> g == JalaaliFallback(toJalali, JDate(jy, jm, jd))
    ensures SomeUncheckedHit(toJalali, JDate(jy, jm, jd)) ==> checks == Rank(g) + 1 <= SearchSlots
    ensures !SomeUncheckedHit(toJalali, JDate(jy, jm, jd)) ==> checks == SearchSlots
  {
    var target := JDate(jy, jm, jd);
    checks := 0;
    var year := StartYear;
    while year <= EndYear
      invariant StartYear <= year <= EndYear + 1
      invariant checks == (year - 2000) * 372
      invariant NoHitBefore(toJalali, target, false, GDate(year, 1, 1))
    {
      var month := 1;
      while month <= 12
        invariant 1 <= month <= 13
        invariant checks == (year - 2000) * 372 + (month - 1) * 31
        invariant NoHitBefore(toJalali, target, false, GDate(year, month, 1))
      {
        var day := ScanMonth(toJalali, target, false, year, month);
        if day <= 31 {
          checks := checks + day;
          return GDate(year, month, day), checks;
        }
        checks := checks + 31;
        NextMonthSlot(toJalali, target, false, year, month);
        month := month + 1;
      }
      NextMonthSlot(toJalali, target, false, year, 12);
      year := year + 1;
    }
    SearchExhausted(toJalali, target, false);
    g := JalaaliFallback(toJalali, target);
  }

  /** Two distinct dates never share a Jalali image (true of any calendar conversion). */
  ghost predicate Injective(toJalali: Converter)
  {
    forall a, b :: Valid(a) && Valid(b) && toJalali(a) == toJalali(b) ==> a == b
  }

  /** Looking up the Jalali image of 2000-03-01 (1378-12-11), jalaali.js reaches the slot
      February 30 2000 first, which `new Date` rolls over to March 1, and returns the
      non-existent date 2000-02-30. */
  lemma UncheckedSearchReturnsFebruary30(toJalali: Converter, g: GDate)
    requires Injective(toJalali)
    requires IsFirstUncheckedHit(toJalali, toJalali(GDate(2000, 3, 1)), g)
    ensures g == GDate(2000, 2, 30) && !Valid(g)
  {
    var target := toJalali(GDate(2000, 3, 1));
    var feb30 := GDate(2000, 2, 30);
    assert Normalize(feb30) == GDate(2000, 3, 1);
    assert Hit(toJalali, feb30, target, false);
    if g != feb30 {
      if Before(feb30, g) {
        assert false;
      } else {
        assert false;
      }
    }
  }

  lemma ImageOf20000301IsFound(toJalali: Converter)
    ensures SomeUncheckedHit(toJalali, toJalali(GDate(2000, 3, 1)))
  {
    assert Normalize(GDate(2000, 3, 1)) == GDate(2000, 3, 1);
    assert Candidate(GDate(2000, 3, 1)) && Hit(toJalali, GDate(2000, 3, 1), toJalali(GDate(2000, 3, 1)), false);
  }

  // ---------------------------------------------------------------------------
  // toGregorian2 in the bundle

  ghost predicate SomeCheckedHit(toJalali: Converter, target: JDate)
  {
    SomeHit(toJalali, target, true)
  }

  ghost predicate IsFirstCheckedHit(toJalali: Converter, target: JDate, g: GDate)
  {
    IsFirstHit(toJalali, target, true, g)
  }

  /** The fallback's epoch: `new Date(622, 2, 22)`, March 22 622. */
  const JalaliEpoch: GDate := GDate(622, 3, 22)

  /** The days the fallback counts from the epoch: 365 per year, 30 per month. */
  function EpochOffset(target: JDate): int
  {
    (target.jy - 1) * 365 + (target.jm - 1) * 30 + (target.jd - 1)
  }

  /** The date `toGregorian2` answers with when the search finds nothing. */
  function EpochFallback(target: JDate): (r: GDate)
    ensures Valid(r)
    ensures DayNumber(r) - DayNumber(JalaliEpoch) == EpochOffset(target)
  {
    AddDays(JalaliEpoch, EpochOffset(target))
  }

  /** What `toGregorian2` returns for `target`: the first real date in the search space
      whose image is the target, or else the epoch fallback. */
  ghost predicate CheckedSearchResult(toJalali: Converter, target: JDate, g: GDate)
  {
    && (SomeCheckedHit(toJalali, target) ==> IsFirstCheckedHit(toJalali, target, g))
    && (!SomeCheckedHit(toJalali, target) ==> g == EpochFallback(target))
  }

  method ToGregorianChecked(toJalali: Converter, jy: int, jm: int, jd: int) returns (g: GDate)
    ensures CheckedSearchResult(toJalali, JDate(jy, jm, jd), g)
    ensures Valid(g)
  {
    var target := JDate(jy, jm, jd);
    var year := StartYear;
    while year <= EndYear
      invariant StartYear <= year <= EndYear + 1
      invariant NoHitBefore(toJalali, target, true, GDate(year, 1, 1))
    {
      var month := 1;
      while month <= 12
        invariant 1 <= month <= 13
        invariant NoHitBefore(toJalali, target, true, GDate(year, month, 1))
      {
        var day := ScanMonth(toJalali, target, true, year, month);
        if day <= 31 {
          return GDate(year, month, day);
        }
        NextMonthSlot(toJalali, target, true, year, month);
        month := month + 1;
      }
      NextMonthSlot(toJalali, target, true, year, 12);
      year := year + 1;
    }
    SearchExhausted(toJalali, target, true);
    g := EpochFallback(target);
  }

  /** For a real date in the search space, `toGregorian2` undoes the conversion. */
  lemma CheckedSearchInvertsConversion(toJalali: Converter, g0: GDate, g: GDate)
    requires Injective(toJalali)
    requires Candidate(g0) && Valid(g0)
    requires CheckedSearchResult(toJalali, toJalali(g0), g)
    ensures g == g0
  {
    assert Hit(toJalali, g0, toJalali(g0), true);
    assert IsFirstCheckedHit(toJalali, toJalali(g0), g);
  }

  /** Whenever some date in the search space has the target as its image, the result of
      `toGregorian2` has it too: the search succeeds exactly when a match exists. */
  lemma CheckedSearchRoundTrip(toJalali: Converter, target: JDate, g: GDate)
    requires CheckedSearchResult(toJalali, target, g)
    requires exists c :: Candidate(c) && Valid(c) && toJalali(c) == target
    ensures Valid(g) && toJalali(g) == target && Candidate(g)
  {
    var c :| Candidate(c) && Valid(c) && toJalali(c) == target;
    assert Hit(toJalali, c, target, true);
  }
}
