/** Strings as the core handles them: decimal digits, zero padding, JavaScript's
    `Number`, `parseInt`, `split`, `slice` and `trim`, and Python's `str.split()`. */
module Text {
  import opened Base

  // ---------------------------------------------------------------------------
  // Decimal digits

  predicate IsDigit(c: char) { '0' <= c <= '9' }

  predicate AllDigits(s: string) { forall i :: 0 <= i < |s| ==> IsDigit(s[i]) }

  function DigitChar(d: nat): (c: char)
    requires d < 10
    ensures IsDigit(c) && c as int - '0' as int == d
  {
    (d + '0' as int) as char
  }

  /** The value of a string of decimal digits; the empty string is 0. */
  function DigitsValue(s: string): nat
    requires AllDigits(s)
    decreases |s|
  {
    if s == [] then 0 else DigitsValue(s[..|s| - 1]) * 10 + (s[|s| - 1] as int - '0' as int)
  }

  /** Decimal rendering of a natural number, without leading zeros. */
  function NatToString(n: nat): string
    decreases n
  {
    if n < 10 then [DigitChar(n)] else NatToString(n / 10) + [DigitChar(n % 10)]
  }

  /** The rendering is a non-empty run of digits that reads back as `n`, one digit long
      exactly below 10. */
  lemma {:induction false} NatToStringDigits(n: nat)
    ensures var s := NatToString(n);
      |s| >= 1 && AllDigits(s) && DigitsValue(s) == n && ((|s| == 1) <==> (n < 10))
    ensures 10 <= n < 100 ==> |NatToString(n)| == 2
    decreases n
  {
    if n >= 10 {
      NatToStringDigits(n / 10);
      var s := NatToString(n);
      assert s[..|s| - 1] == NatToString(n / 10);
    }
  }

  lemma {:induction false} LeadingZeroIgnored(s: string)
    requires AllDigits(s)
    ensures AllDigits("0" + s) && DigitsValue("0" + s) == DigitsValue(s)
  {
    if s != [] {
      var z := "0" + s;
      assert z[..|z| - 1] == "0" + s[..|s| - 1];
      LeadingZeroIgnored(s[..|s| - 1]);
    }
  }

  /** `String(n)` in JavaScript and `str(n)` in Python for an integer. */
  function IntToString(n: int): string
  {
    if n < 0 then "-" + NatToString(-n) else NatToString(n)
  }

  /** A non-negative number renders as its digits; a negative one as '-' and the digits of
      its magnitude; and only a negative rendering holds a '-'. */
  lemma IntToStringDigits(n: int)
    ensures var s := IntToString(n);
      && (n >= 0 ==> AllDigits(s) && DigitsValue(s) == n)
      && (n < 0 ==> |s| >= 2 && s[0] == '-' && AllDigits(s[1..]) && DigitsValue(s[1..]) == -n)
      && ('-' in s <==> n < 0)
  {
    NatToStringDigits(if n < 0 then -n else n);
    if n < 0 {
      assert IntToString(n)[1..] == NatToString(-n);
    }
  }

  /** `String(n).padStart(2, "0")` in JavaScript, `f"{n:02d}"` in Python: both put one
      zero in front of a single digit and leave every other rendering as it is. */
  function Pad2(n: int): string
  {
    if 0 <= n < 10 then "0" + NatToString(n) else IntToString(n)
  }

  /** Below 100 the padded rendering is exactly two digits; it always reads back as `n`. */
  lemma Pad2Digits(n: int)
    ensures var s := Pad2(n);
      && (0 <= n < 100 ==> |s| == 2)
      && (n >= 0 ==> AllDigits(s) && DigitsValue(s) == n)
      && (n < 0 ==> s == IntToString(n))
      && ('-' in s <==> n < 0)
  {
    IntToStringDigits(n);
    if 0 <= n < 10 {
      NatToStringDigits(n);
      LeadingZeroIgnored(NatToString(n));
    } else if n >= 10 {
      NatToStringDigits(n);
    }
  }

  /** `${y}-${pad(m)}-${pad(d)}`, the shape of every date string the core builds. */
  function FormatYmd(y: int, m: int, d: int): string
  {
    IntToString(y) + "-" + Pad2(m) + "-" + Pad2(d)
  }

  /** For a year from 0 on and a month and day below 100, the string is the year's digits,
      a dash, exactly two digits of month, a dash and exactly two digits of day. */
  lemma FormatYmdShape(y: int, m: int, d: int)
    requires y >= 0 && 0 <= m < 100 && 0 <= d < 100
    ensures var s := FormatYmd(y, m, d);
      && |s| == |IntToString(y)| + 6
      && AllDigits(s[..|s| - 6]) && DigitsValue(s[..|s| - 6]) == y
      && s[|s| - 6] == '-' && s[|s| - 3] == '-'
      && AllDigits(s[|s| - 5..|s| - 3]) && DigitsValue(s[|s| - 5..|s| - 3]) == m
      && AllDigits(s[|s| - 2..]) && DigitsValue(s[|s| - 2..]) == d
  {
    var a, b, c := IntToString(y), Pad2(m), Pad2(d);
    var s := FormatYmd(y, m, d);
    IntToStringDigits(y);
    Pad2Digits(m);
    Pad2Digits(d);
    assert |b| == 2 && |c| == 2;
    assert s[..|s| - 6] == a;
    assert s[|s| - 5..|s| - 3] == b;
    assert s[|s| - 2..] == c;
  }

  // ---------------------------------------------------------------------------
  // JavaScript numbers read from strings

  /** A number as JavaScript's `Number` or `parseInt` produces it: an integer or NaN. */
  datatype JsNum = Num(n: int) | NaN

  /** `Number(s)` for the strings the core feeds it: a run of decimal digits gives its value,
      the empty string gives 0, and anything else is taken as NaN. */
  function JsNumber(s: string): (r: JsNum)
    ensures r.Num? <==> AllDigits(s)
    ensures s == "" ==> r == Num(0)
  {
    if AllDigits(s) then Num(DigitsValue(s)) else NaN
  }

  /** The longest prefix of decimal digits. */
  function DigitPrefix(s: string): (p: string)
    ensures p <= s && AllDigits(p)
    ensures |p| < |s| ==> !IsDigit(s[|p|])
    decreases |s|
  {
    if s == [] || !IsDigit(s[0]) then "" else [s[0]] + DigitPrefix(s[1..])
  }

  /** `parseInt(s)`: the leading digits, NaN when there are none. */
  function JsParseInt(s: string): (r: JsNum)
    ensures r.Num? <==> (s != [] && IsDigit(s[0]))
    ensures AllDigits(s) && s != [] ==> r == Num(DigitsValue(s))
  {
    DigitPrefixOfDigits(s);
    var p := DigitPrefix(s);
    if p == "" then NaN else Num(DigitsValue(p))
  }

  lemma {:induction false} DigitPrefixOfDigits(s: string)
    ensures AllDigits(s) ==> DigitPrefix(s) == s
    decreases |s|
  {
    if s != [] {
      DigitPrefixOfDigits(s[1..]);
    }
  }

  /** `parseInt(s) || 0`: NaN and 0 both become 0. */
  function ParseIntOrZero(s: string): (r: int)
    ensures r >= 0
    ensures AllDigits(s) ==> r == DigitsValue(s)
  {
    match JsParseInt(s)
    case Num(n) => n
    case NaN => 0
  }

  lemma NumberOfIntToString(n: int)
    requires n >= 0
    ensures JsNumber(IntToString(n)) == Num(n)
    ensures JsNumber(Pad2(n)) == Num(n)
  {
    IntToStringDigits(n);
    Pad2Digits(n);
  }

  // ---------------------------------------------------------------------------
  // JavaScript `s.split(sep)` for a one-character separator

  function Split(s: string, sep: char): (parts: seq<string>)
    ensures |parts| >= 1
    ensures forall i :: 0 <= i < |parts| ==> sep !in parts[i]
    decreases |s|
  {
    if s == [] then [""]
    else
      var rest := Split(s[1..], sep);
      if s[0] == sep then [""] + rest else [[s[0]] + rest[0]] + rest[1..]
  }

  /** `parts.join(sep)`, the inverse of `Split`. */
  function Join(parts: seq<string>, sep: char): string
    decreases |parts|
  {
    if |parts| == 0 then "" else if |parts| == 1 then parts[0] else parts[0] + [sep] + Join(parts[1..], sep)
  }

  lemma {:induction false} JoinSplit(s: string, sep: char)
    ensures Join(Split(s, sep), sep) == s
    decreases |s|
  {
    if s != [] {
      JoinSplit(s[1..], sep);
      var rest := Split(s[1..], sep);
      if s[0] == sep {
        assert Split(s, sep) == [""] + rest;
        assert ([""] + rest)[1..] == rest;
      } else {
        var parts := [[s[0]] + rest[0]] + rest[1..];
        assert Split(s, sep) == parts;
        if |rest| == 1 {
          assert Join(parts, sep) == [s[0]] + rest[0];
        } else {
          assert parts[1..] == rest[1..];
          assert Join(rest, sep) == rest[0] + [sep] + Join(rest[1..], sep);
        }
      }
    }
  }

  /** The number of parts is one more than the number of separators. */
  lemma {:induction false} SplitCount(s: string, sep: char)
    ensures |Split(s, sep)| == multiset(s)[sep] + 1
    decreases |s|
  {
    if s != [] {
      SplitCount(s[1..], sep);
      assert s == [s[0]] + s[1..];
      assert multiset(s) == multiset([s[0]]) + multiset(s[1..]);
    }
  }

  lemma {:induction false} SplitNoSeparator(s: string, sep: char)
    requires sep !in s
    ensures Split(s, sep) == [s]
    decreases |s|
  {
    if s != [] {
      SplitNoSeparator(s[1..], sep);
      assert [s[0]] + s[1..] == s;
    }
  }

  lemma {:induction false} SplitAfterField(a: string, b: string, sep: char)
    requires sep !in a
    ensures Split(a + [sep] + b, sep) == [a] + Split(b, sep)
    decreases |a|
  {
    var s := a + [sep] + b;
    if a == [] {
      assert s == [sep] + b;
      assert s[1..] == b;
    } else {
      assert s[1..] == a[1..] + [sep] + b;
      SplitAfterField(a[1..], b, sep);
      assert [a[0]] + a[1..] == a;
    }
  }

  lemma SplitTwoFields(a: string, b: string, sep: char)
    requires sep !in a && sep !in b
    ensures Split(a + [sep] + b, sep) == [a, b]
  {
    SplitAfterField(a, b, sep);
    SplitNoSeparator(b, sep);
  }

  lemma SplitThreeFields(a: string, b: string, c: string, sep: char)
    requires sep !in a && sep !in b && sep !in c
    ensures Split(a + [sep] + b + [sep] + c, sep) == [a, b, c]
  {
    SplitAfterField(a, b + [sep] + c, sep);
    assert a + [sep] + b + [sep] + c == a + [sep] + (b + [sep] + c);
    SplitAfterField(b, c, sep);
    SplitNoSeparator(c, sep);
  }

  // ---------------------------------------------------------------------------
  // White space: JavaScript `trim` and Python `str.split()`

  /** The white-space characters both languages strip (the ASCII ones). */
  predicate IsSpace(c: char)
  {
    c == ' ' || c == '\t' || c == '\n' || c == '\r' || c == '\U{000B}' || c == '\U{000C}'
  }

  predicate NoSpace(s: string) { forall i :: 0 <= i < |s| ==> !IsSpace(s[i]) }

  /** Neither starts nor ends with white space. */
  predicate Trimmed(s: string) { s == [] || (!IsSpace(s[0]) && !IsSpace(s[|s| - 1])) }

  function TrimStart(s: string): (r: string)
    ensures r == [] || !IsSpace(r[0])
    ensures |r| <= |s| && r == s[|s| - |r|..]
    ensures forall k :: 0 <= k < |s| - |r| ==> IsSpace(s[k])
    decreases |s|
  {
    if s != [] && IsSpace(s[0]) then TrimStart(s[1..]) else s
  }

  function TrimEnd(s: string): (r: string)
    ensures r == [] || !IsSpace(r[|r| - 1])
    ensures r <= s
    ensures forall k :: |r| <= k < |s| ==> IsSpace(s[k])
    decreases |s|
  {
    if s != [] && IsSpace(s[|s| - 1]) then TrimEnd(s[..|s| - 1]) else s
  }

  /** `s.trim()`: a trimmed slice of `s` with nothing but white space on either side. */
  function Trim(s: string): (r: string)
    ensures Trimmed(r)
    ensures exists i :: (0 <= i <= |s| - |r| && r == s[i..][..|r|]
      && (forall k :: 0 <= k < i ==> IsSpace(s[k]))
      && (forall k :: i + |r| <= k < |s| ==> IsSpace(s[k])))
  {
    var t := TrimStart(s);
    var r := TrimEnd(t);
    assert r != [] ==> r[0] == t[0];
    SliceOfSuffix(s, t, r);
    r
  }

  /** A prefix `r` of a suffix `t` of `s` is the slice of `s` at `|s| - |t|`, and what follows it
      in `s` is what follows it in `t`. */
  lemma SliceOfSuffix(s: string, t: string, r: string)
    requires |t| <= |s| && t == s[|s| - |t|..] && r <= t
    requires forall k :: |r| <= k < |t| ==> IsSpace(t[k])
    ensures var i := |s| - |t|;
      && 0 <= i <= |s| - |r| && r == s[i..][..|r|]
      && (forall k :: i + |r| <= k < |s| ==> IsSpace(s[k]))
  {
    var i := |s| - |t|;
    forall k | i + |r| <= k < |s|
      ensures IsSpace(s[k])
    {
      assert s[k] == t[k - i];
    }
  }

  lemma TrimKeepsTrimmed(s: string)
    requires Trimmed(s)
    ensures Trim(s) == s
  {
  }

  lemma TrimDropsTrailingSpace(s: string)
    requires Trimmed(s)
    ensures Trim(s + " ") == s
  {
    var t := s + " ";
    assert t[..|t| - 1] == s;
    if s == [] {
      assert t[1..] == [];
      assert TrimStart(t) == TrimStart([]) == [];
      assert TrimEnd([]) == [];
    } else {
      assert t[0] == s[0];
      assert TrimStart(t) == t;
      assert TrimEnd(s) == s;
      assert TrimEnd(t) == TrimEnd(s);
    }
  }

  /** `s.slice(from, to)` for `0 <= from <= to`: the bounds are clipped to the length. */
  function JsSlice(s: string, from: nat, to: nat): (r: string)
    requires from <= to
    ensures |r| == (if to <= |s| then to - from else if from <= |s| then |s| - from else 0)
    ensures to <= |s| ==> r == s[from..to]
  {
    var a := if from <= |s| then from else |s|;
    var b := if to <= |s| then to else |s|;
    s[a..b]
  }

  /** The first white-space-free run of `s` (empty when `s` starts with white space). */
  function LeadingToken(s: string): (t: string)
    ensures t <= s && NoSpace(t)
    ensures |t| < |s| ==> IsSpace(s[|t|])
    decreases |s|
  {
    if s == [] || IsSpace(s[0]) then "" else [s[0]] + LeadingToken(s[1..])
  }

  /** Python `s.split()`: the maximal white-space-free runs, in order. */
  function Words(s: string): (ws: seq<string>)
    ensures forall i :: 0 <= i < |ws| ==> ws[i] != "" && NoSpace(ws[i])
    decreases |s|
  {
    if s == [] then []
    else if IsSpace(s[0]) then Words(s[1..])
    else
      var t := LeadingToken(s);
      [t] + Words(s[|t|..])
  }

  lemma {:induction false} LeadingTokenOfToken(t: string, rest: string)
    requires NoSpace(t)
    requires rest == [] || IsSpace(rest[0])
    ensures LeadingToken(t + rest) == t
    decreases |t|
  {
    if t != [] {
      assert (t + rest)[1..] == t[1..] + rest;
      LeadingTokenOfToken(t[1..], rest);
    }
  }

  lemma WordsOfTokenThenRest(t: string, rest: string)
    requires t != [] && NoSpace(t)
    requires rest == [] || IsSpace(rest[0])
    ensures Words(t + rest) == [t] + Words(rest)
  {
    LeadingTokenOfToken(t, rest);
    assert (t + rest)[|t|..] == rest;
  }

  /** White space between two texts separates their words: with `WordsOfOneOrTwo` this gives
      `str.split()` of every text, as the words of its white-space-separated pieces in order. */
  lemma {:induction false} WordsOfSeparated(a: string, c: char, b: string)
    requires IsSpace(c)
    ensures Words(a + [c] + b) == Words(a) + Words(b)
    decreases |a|
  {
    var s := a + [c] + b;
    if a == [] {
      assert s[1..] == b;
    } else if IsSpace(a[0]) {
      assert s[1..] == a[1..] + [c] + b;
      WordsOfSeparated(a[1..], c, b);
    } else {
      var t := LeadingToken(a);
      var rest := a[|t|..];
      assert a == t + rest;
      assert s == t + (rest + [c] + b);
      WordsOfTokenThenRest(t, rest + [c] + b);
      WordsOfSeparated(rest, c, b);
    }
  }

  /** `"d t".split() == [d, t]` and `"d".split() == [d]` for white-space-free d and t. */
  lemma WordsOfOneOrTwo(d: string, t: string)
    requires d != [] && NoSpace(d) && NoSpace(t)
    ensures Words(d) == [d]
    ensures t != [] ==> Words(d + " " + t) == [d, t]
  {
    WordsOfTokenThenRest(d, []);
    assert d + [] == d;
    if t != [] {
      WordsOfTokenThenRest(d, " " + t);
      assert d + " " + t == d + (" " + t);
      assert (" " + t)[1..] == t;
      WordsOfTokenThenRest(t, []);
      assert t + [] == t;
    }
  }
}
