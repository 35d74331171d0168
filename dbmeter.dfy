/** The dBMeter export converter. The app exports one reading per line in Korean
    locale form, `2025. 11. 15. 오전 3:02:46, 53.058983`; each line is parsed into a
    timestamp and a decibel value, a line that does not parse is skipped, and the
    accepted readings are sorted by time. The Python string operations the parser
    relies on (`strip`, `in`, `split`, `replace`, `int`) are modelled first. */
module DbMeter {
  import opened Common

  // ---------------------------------------------------------------------------
  // Python string primitives
  // ---------------------------------------------------------------------------

  /** The whitespace `str.strip()`, `str.split()` and `int()` remove: Python's
      `str.isspace` characters, the four ASCII separators 0x1C to 0x1F included. */
  predicate IsSpace(c: char)
  {
    c == ' ' || ('\U{09}' <= c <= '\U{0D}') || ('\U{1C}' <= c <= '\U{1F}') ||
    c == '\U{85}' || c == '\U{A0}' || c == '\U{1680}' || ('\U{2000}' <= c <= '\U{200A}') ||
    c == '\U{2028}' || c == '\U{2029}' || c == '\U{202F}' || c == '\U{205F}' || c == '\U{3000}'
  }

  /** `s.lstrip()`. */
  function StripStart(s: string): (r: string)
    ensures |r| <= |s| && r == s[|s| - |r|..]
    ensures forall i :: 0 <= i < |s| - |r| ==> IsSpace(s[i])
    ensures r == [] || !IsSpace(r[0])
  {
    if s != [] && IsSpace(s[0]) then StripStart(s[1..]) else s
  }

  /** `s.rstrip()`. */
  function StripEnd(s: string): (r: string)
    ensures |r| <= |s| && r == s[..|r|]
    ensures forall i :: |r| <= i < |s| ==> IsSpace(s[i])
    ensures r == [] || !IsSpace(r[|r| - 1])
  {
    if s != [] && IsSpace(s[|s| - 1]) then StripEnd(s[..|s| - 1]) else s
  }

  /** `s.strip()`. */
  function Strip(s: string): (r: string)
    ensures r == [] || (!IsSpace(r[0]) && !IsSpace(r[|r| - 1]))
  {
    StripEnd(StripStart(s))
  }

  /** Where the stripped text starts in the input. */
  function StripOffset(s: string): nat
  {
    |s| - |StripStart(s)|
  }

  /** `strip` removes whitespace only, from both ends: the input is the result with
      whitespace before and after it. */
  lemma StripShape(s: string)
    ensures StripOffset(s) + |Strip(s)| <= |s|
    ensures s[StripOffset(s)..StripOffset(s) + |Strip(s)|] == Strip(s)
    ensures forall j :: 0 <= j < StripOffset(s) ==> IsSpace(s[j])
    ensures forall j :: StripOffset(s) + |Strip(s)| <= j < |s| ==> IsSpace(s[j])
  {
    var t := StripStart(s);
    var i := |s| - |t|;
    assert Strip(s) == StripEnd(t) && StripOffset(s) == i;
    assert forall j :: 0 <= j < i ==> IsSpace(s[j]);
    StripEndWithin(s, i, t);
  }

  /** Stripping the end of a suffix `t` of `s` leaves whitespace after it in `s`. */
  lemma StripEndWithin(s: string, i: nat, t: string)
    requires i == |s| - |t| && t == s[|s| - |t|..]
    ensures i + |StripEnd(t)| <= |s|
    ensures s[i..i + |StripEnd(t)|] == StripEnd(t)
    ensures forall j :: i + |StripEnd(t)| <= j < |s| ==> IsSpace(s[j])
  {
    var r := StripEnd(t);
    assert r == t[..|r|];
    assert s[i..i + |r|] == t[..|r|];
    forall j | i + |r| <= j < |s|
      ensures IsSpace(s[j])
    {
      assert s[j] == t[j - i];
    }
  }

  /** Text that neither starts nor ends with whitespace is left as it is. */
  lemma StripUnchanged(s: string)
    requires s == [] || Trimmed(s)
    ensures Strip(s) == s
  {
  }

  /** Stripping twice is stripping once. */
  lemma StripIdempotent(s: string)
    ensures Strip(Strip(s)) == Strip(s)
  {
    StripUnchanged(Strip(s));
  }

  /** `pat` occurs in `s` starting at index `k`. */
  predicate OccursAt(s: string, pat: string, k: int)
  {
    0 <= k && k + |pat| <= |s| && s[k..k + |pat|] == pat
  }


  /** An occurrence in `s[1..]` is an occurrence in `s`, one place later. */
  lemma OccursAtShift(s: string, pat: string, k: nat)
    requires s != []
    ensures OccursAt(s[1..], pat, k) <==> OccursAt(s, pat, k + 1)
  {
    if 0 <= k && k + |pat| <= |s| - 1 {
      assert s[1..][k..k + |pat|] == s[k + 1..k + 1 + |pat|];
    }
  }

  /** `s.find(pat)`: the first place `pat` occurs in `s`, or -1 when it does not
      (`FindFacts` states this). */
  function Find(s: string, pat: string): (r: int)
    requires |pat| > 0
    ensures -1 <= r && (r >= 0 ==> r + |pat| <= |s|)
    decreases |s|
  {
    if |s| < |pat| then -1
    else if s[..|pat|] == pat then 0
    else
      var rest := Find(s[1..], pat);
      if rest < 0 then -1 else rest + 1
  }

  /** `Find` reports an occurrence, and no occurrence comes before it; -1 means
      there is none at all. */
  lemma {:induction false} FindFacts(s: string, pat: string)
    requires |pat| > 0
    ensures Find(s, pat) >= 0 ==> OccursAt(s, pat, Find(s, pat))
    ensures forall k :: 0 <= k && (Find(s, pat) < 0 || k < Find(s, pat)) ==> !OccursAt(s, pat, k)
    decreases |s|
  {
    if |s| >= |pat| {
      if s[..|pat|] == pat {
        assert OccursAt(s, pat, 0);
      } else {
        var rest := Find(s[1..], pat);
        FindFacts(s[1..], pat);
        forall j | 1 <= j && (rest < 0 || j < rest + 1)
          ensures !OccursAt(s, pat, j)
        {
          OccursAtShift(s, pat, j - 1);
        }
        if rest >= 0 {
          OccursAtShift(s, pat, rest);
        }
      }
    }
  }

  /** Python's `pat in s`, for a non-empty `pat`: `s.find(pat) != -1`. */
  predicate Contains(s: string, pat: string)
    requires |pat| > 0
  {
    Find(s, pat) >= 0
  }

  /** An occurrence anywhere means `pat in s`. */
  lemma ContainsAt(s: string, pat: string, k: nat)
    requires |pat| > 0 && OccursAt(s, pat, k)
    ensures Contains(s, pat)
  {
    FindFacts(s, pat);
  }

  /** With no occurrence at any place, `pat` is not in `s`. */
  lemma AbsentEverywhere(s: string, pat: string)
    requires |pat| > 0
    requires forall k :: 0 <= k && k + |pat| <= |s| ==> !OccursAt(s, pat, k)
    ensures !Contains(s, pat)
  {
    FindFacts(s, pat);
  }

  /** A pattern one of whose characters does not appear in `s` does not occur in `s`. */
  lemma AbsentByChar(s: string, pat: string, j: nat)
    requires j < |pat| && pat[j] !in s
    ensures !Contains(s, pat)
  {
    forall k | 0 <= k && k + |pat| <= |s|
      ensures !OccursAt(s, pat, k)
    {
      assert s[k..k + |pat|][j] == s[k + j];
    }
    AbsentEverywhere(s, pat);
  }

  /** `s.split(sep)` for a non-empty separator: the pieces between occurrences. */
  function Split(s: string, sep: string): (r: seq<string>)
    requires |sep| > 0
    ensures |r| >= 1
    decreases |s|
  {
    var k := Find(s, sep);
    if k < 0 then [s] else [s[..k]] + Split(s[k + |sep|..], sep)
  }

  /** Text without the separator is one piece, itself; text with it splits into at
      least two. */
  lemma SplitWhole(s: string, sep: string)
    requires |sep| > 0
    ensures |Split(s, sep)| == 1 <==> !Contains(s, sep)
    ensures !Contains(s, sep) ==> Split(s, sep) == [s]
  {
    var k := Find(s, sep);
    if k >= 0 {
      SplitAtFirst(s, sep, k);
    }
  }

  /** No piece of a split holds the separator. */
  lemma {:induction false} SplitPiecesLackSeparator(s: string, sep: string)
    requires |sep| > 0
    ensures forall i :: 0 <= i < |Split(s, sep)| ==> !Contains(Split(s, sep)[i], sep)
    decreases |s|
  {
    var k := Find(s, sep);
    if k >= 0 {
      SplitAtFirst(s, sep, k);
      SplitPiecesLackSeparator(s[k + |sep|..], sep);
      PrefixLacksSeparator(s, sep, k);
    }
  }

  /** The text before the first separator holds no separator. */
  lemma PrefixLacksSeparator(s: string, sep: string, k: nat)
    requires |sep| > 0 && Find(s, sep) == k
    ensures !Contains(s[..k], sep)
  {
    FindFacts(s, sep);
    forall j | 0 <= j && j + |sep| <= k
      ensures !OccursAt(s[..k], sep, j)
    {
      assert !OccursAt(s, sep, j);
      assert s[..k][j..j + |sep|] == s[j..j + |sep|];
    }
    AbsentEverywhere(s[..k], sep);
  }

  /** `sep.join(pieces)`. */
  function Join(pieces: seq<string>, sep: string): string
  {
    if |pieces| <= 1 then (if pieces == [] then [] else pieces[0])
    else pieces[0] + sep + Join(pieces[1..], sep)
  }

  /** `sep.join(s.split(sep)) == s`: splitting loses nothing but the separators. */
  lemma {:induction false} JoinSplit(s: string, sep: string)
    requires |sep| > 0
    ensures Join(Split(s, sep), sep) == s
    decreases |s|
  {
    var k := Find(s, sep);
    if k >= 0 {
      var tail := s[k + |sep|..];
      SplitAtFirst(s, sep, k);
      FindFacts(s, sep);
      JoinCons(s[..k], sep, Split(tail, sep));
      JoinSplit(tail, sep);
      ThreeParts(s, k, |sep|);
    }
  }

  /** The split of `s` at its first separator: the piece before it, then the pieces
      of the rest. */
  lemma SplitAtFirst(s: string, sep: string, k: nat)
    requires |sep| > 0 && Find(s, sep) == k
    ensures k + |sep| <= |s|
    ensures Split(s, sep) == [s[..k]] + Split(s[k + |sep|..], sep)
  {
  }

  /** Joining a first piece in front of at least one more. */
  lemma JoinCons(a: string, sep: string, rest: seq<string>)
    requires rest != []
    ensures Join([a] + rest, sep) == a + sep + Join(rest, sep)
  {
    assert ([a] + rest)[1..] == rest;
  }

  /** Cutting `s` at `k` and `k + n`. */
  lemma ThreeParts(s: string, k: nat, n: nat)
    requires k + n <= |s|
    ensures s == s[..k] + s[k..k + n] + s[k + n..]
  {
  }

  /** When the first occurrence of `sep` in `a + sep + b` is the one after `a`, the
      split yields `a` and then the pieces of `b`. */
  lemma SplitAfter(a: string, sep: string, b: string)
    requires |sep| > 0
    requires forall k :: 0 <= k < |a| ==> !OccursAt(a + sep + b, sep, k)
    ensures Split(a + sep + b, sep) == [a] + Split(b, sep)
  {
    var s := a + sep + b;
    assert OccursAt(s, sep, |a|) by {
      assert s[|a|..|a| + |sep|] == sep;
    }
    FindFacts(s, sep);
    assert Find(s, sep) == |a|;
    assert s[..|a|] == a;
    assert s[|a| + |sep|..] == b;
  }

  /** `SplitAfter` when character `j` of the separator is in neither `a` nor the part
      of the separator before it. */
  lemma SplitAfterByChar(a: string, sep: string, b: string, j: nat)
    requires j < |sep| && sep[j] !in a && sep[j] !in sep[..j]
    ensures Split(a + sep + b, sep) == [a] + Split(b, sep)
  {
    var s := a + sep + b;
    forall k | 0 <= k < |a|
      ensures !OccursAt(s, sep, k)
    {
      if k + |sep| <= |s| {
        assert s[k..k + |sep|][j] == s[k + j];
        if k + j < |a| {
          assert s[k + j] == a[k + j];
        } else {
          assert s[k + j] == sep[..j][k + j - |a|];
        }
      }
    }
    SplitAfter(a, sep, b);
  }

  /** Length of the leading run of non-whitespace characters of `t`. */
  function WordEnd(t: string): (n: nat)
    ensures n <= |t|
    ensures forall i :: 0 <= i < n ==> !IsSpace(t[i])
    ensures n == |t| || IsSpace(t[n])
  {
    if t == [] || IsSpace(t[0]) then 0 else WordEnd(t[1..]) + 1
  }

  /** A word: non-empty and without whitespace. */
  predicate IsWord(w: string)
  {
    w != [] && forall i :: 0 <= i < |w| ==> !IsSpace(w[i])
  }

  /** `s.split()` with no separator: the maximal runs of non-whitespace, in order. */
  function Words(s: string): seq<string>
    decreases |s|
  {
    var t := StripStart(s);
    if t == [] then []
    else
      var n := WordEnd(t);
      assert n > 0 by {
        assert !IsSpace(t[0]);
      }
      [t[..n]] + Words(t[n..])
  }

  /** Every piece `split()` returns is a word. */
  lemma {:induction false} WordsAreWords(s: string)
    ensures forall i :: 0 <= i < |Words(s)| ==> IsWord(Words(s)[i])
    decreases |s|
  {
    var t := StripStart(s);
    if t != [] {
      var n := WordEnd(t);
      var w := t[..n];
      assert IsWord(w) by {
        assert !IsSpace(t[0]);
        assert forall i :: 0 <= i < |w| ==> w[i] == t[i];
      }
      WordsAreWords(t[n..]);
    }
  }

  /** A word followed by whitespace (or nothing) is the first token. */
  lemma WordsCons(w: string, rest: string)
    requires IsWord(w) && (rest == [] || IsSpace(rest[0]))
    ensures Words(w + rest) == [w] + Words(rest)
  {
    var t := w + rest;
    assert StripStart(t) == t;
    WordEndAfterWord(w, rest);
    assert t[..|w|] == w && t[|w|..] == rest;
  }

  /** The leading run of a word followed by whitespace (or nothing) is the word. */
  lemma {:induction false} WordEndAfterWord(w: string, rest: string)
    requires IsWord(w) && (rest == [] || IsSpace(rest[0]))
    ensures WordEnd(w + rest) == |w|
  {
    var t := w + rest;
    assert t[1..] == w[1..] + rest;
    if |w| > 1 {
      WordEndAfterWord(w[1..], rest);
    } else {
      assert t[1..] == rest;
    }
  }

  /** Leading whitespace does not change the tokens. */
  lemma WordsSkipSpace(rest: string)
    ensures Words(" " + rest) == Words(rest)
  {
    assert (" " + rest)[0] == ' ' && (" " + rest)[1..] == rest;
  }

  /** `s.replace(pat, rep)`: the occurrences of `pat`, taken left to right without
      overlap, are replaced by `rep`. */
  function ReplaceAll(s: string, pat: string, rep: string): (r: string)
    requires |pat| > 0
    ensures forall c :: c in r ==> c in s || c in rep
    decreases |s|
  {
    if |pat| <= |s| && s[..|pat|] == pat then rep + ReplaceAll(s[|pat|..], pat, rep)
    else if s == [] then []
    else [s[0]] + ReplaceAll(s[1..], pat, rep)
  }

  /** Without an occurrence there is nothing to replace. */
  lemma {:induction false} ReplaceAbsent(s: string, pat: string, rep: string)
    requires |pat| > 0 && !Contains(s, pat)
    ensures ReplaceAll(s, pat, rep) == s
    decreases |s|
  {
    if s != [] {
      FindFacts(s, pat);
      assert !OccursAt(s, pat, 0);
      assert !Contains(s[1..], pat) by {
        forall k | 0 <= k && k + |pat| <= |s| - 1
          ensures !OccursAt(s[1..], pat, k)
        {
          OccursAtShift(s, pat, k);
        }
        AbsentEverywhere(s[1..], pat);
      }
      ReplaceAbsent(s[1..], pat, rep);
      assert s == [s[0]] + s[1..];
    }
  }

  /** A prefix without the pattern's first character is copied as it is. */
  lemma {:induction false} ReplaceKeepsPrefix(a: string, b: string, pat: string, rep: string)
    requires |pat| > 0 && pat[0] !in a
    ensures ReplaceAll(a + b, pat, rep) == a + ReplaceAll(b, pat, rep)
    decreases |a|
  {
    if a != [] {
      var s := a + b;
      assert !(|pat| <= |s| && s[..|pat|] == pat) by {
        assert s[0] == a[0];
      }
      assert s[1..] == a[1..] + b;
      ReplaceKeepsPrefix(a[1..], b, pat, rep);
      assert a == [a[0]] + a[1..];
    } else {
      assert a + b == b;
    }
  }

  /** An occurrence at the front is replaced. */
  lemma ReplaceFront(pat: string, b: string, rep: string)
    requires |pat| > 0
    ensures ReplaceAll(pat + b, pat, rep) == rep + ReplaceAll(b, pat, rep)
  {
    var s := pat + b;
    assert s[..|pat|] == pat && s[|pat|..] == b;
  }

  /** `s.replace(c, '')` leaves no `c` behind. */
  lemma RemoveCharRemovesAll(s: string, c: char)
    ensures c !in ReplaceAll(s, [c], [])
  {
  }

  /** A decimal digit. */
  predicate IsDigit(c: char)
  {
    '0' as int <= c as int <= '9' as int
  }

  /** A non-empty string of decimal digits. */
  predicate IsDigits(d: string)
  {
    d != [] && forall i :: 0 <= i < |d| ==> IsDigit(d[i])
  }

  /** The value of a string of decimal digits, most significant first. */
  function DigitsValue(d: string): nat
    requires forall i :: 0 <= i < |d| ==> IsDigit(d[i])
  {
    if d == [] then 0
    else
      var last := d[|d| - 1];
      assert IsDigit(last);
      DigitsValue(d[..|d| - 1]) * 10 + (last as int - '0' as int)
  }

  /** `int(s)` for a string: surrounding whitespace stripped, an optional sign, then
      decimal digits; None where Python raises ValueError. */
  function ParseInt(s: string): Option<int>
  {
    var t := Strip(s);
    var signed := t != [] && (t[0] == '+' || t[0] == '-');
    var digits := if signed then t[1..] else t;
    if IsDigits(digits) then
      Some(if signed && t[0] == '-' then -(DigitsValue(digits) as int) else DigitsValue(digits))
    else None
  }

  /** The character of a decimal digit. */
  function DigitChar(d: nat): (c: char)
    requires d < 10
    ensures IsDigit(c) && c as int - '0' as int == d
  {
    ('0' as int + d) as char
  }

  /** `str(n)` for a natural number. */
  function ShowNat(n: nat): (r: string)
    ensures IsDigits(r)
  {
    if n < 10 then [DigitChar(n)] else ShowNat(n / 10) + [DigitChar(n % 10)]
  }

  /** `f"{n:02d}"` for `n < 100`: two digits, with a leading zero. */
  function Pad2(n: nat): (r: string)
    requires n < 100
    ensures IsDigits(r) && |r| == 2
  {
    [DigitChar(n / 10), DigitChar(n % 10)]
  }

  /** Reading back the digits of `str(n)` gives `n`. */
  lemma {:induction false} DigitsValueShowNat(n: nat)
    ensures DigitsValue(ShowNat(n)) == n
  {
    if n >= 10 {
      var s := ShowNat(n);
      assert s[..|s| - 1] == ShowNat(n / 10);
      DigitsValueShowNat(n / 10);
    }
  }

  /** `int` of a plain string of digits is its decimal value. */
  lemma ParseIntDigits(d: string)
    requires IsDigits(d)
    ensures ParseInt(d) == Some(DigitsValue(d))
  {
    assert IsDigit(d[0]) && IsDigit(d[|d| - 1]);
    StripUnchanged(d);
    assert !(d[0] == '+' || d[0] == '-');
  }

  /** `int(str(n)) == n`. */
  lemma ParseIntShowNat(n: nat)
    ensures ParseInt(ShowNat(n)) == Some(n)
  {
    DigitsValueShowNat(n);
    ParseIntDigits(ShowNat(n));
  }

  /** The two digits of `f"{n:02d}"` read back as `n`. */
  lemma Pad2Value(n: nat)
    requires n < 100
    ensures DigitsValue(Pad2(n)) == n
  {
    var d := Pad2(n);
    assert d[..1] == [DigitChar(n / 10)] && d[..1][..0] == [];
    assert DigitsValue(d[..1]) == n / 10;
  }

  /** `int(f"{n:02d}") == n`. */
  lemma ParseIntPad2(n: nat)
    requires n < 100
    ensures ParseInt(Pad2(n)) == Some(n)
  {
    Pad2Value(n);
    ParseIntDigits(Pad2(n));
  }

  // ---------------------------------------------------------------------------
  // Timestamps
  // ---------------------------------------------------------------------------

  /** A naive `datetime` (no time zone). */
  datatype DateTime = DateTime(year: int, month: int, day: int, hour: int, minute: int, second: int)
  {
    /** The fields `datetime(...)` accepts: years 1 to 9999, real calendar days, a
        24-hour clock. */
    predicate Valid()
    {
      1 <= year <= 9999 && 1 <= month <= 12 && 1 <= day <= DaysInMonth(year, month) &&
      0 <= hour < 24 && 0 <= minute < 60 && 0 <= second < 60
    }
  }

  /** The Gregorian leap-year rule. */
  predicate IsLeapYear(y: int)
  {
    y % 4 == 0 && (y % 100 != 0 || y % 400 == 0)
  }

  function DaysInMonth(y: int, m: int): (n: int)
    requires 1 <= m <= 12
    ensures 28 <= n <= 31
    ensures n == 29 <==> m == 2 && IsLeapYear(y)
  {
    if m == 2 then (if IsLeapYear(y) then 29 else 28)
    else if m == 4 || m == 6 || m == 9 || m == 11 then 30
    else 31
  }

  /** The calendar checks `datetime` performs: 29 February exists in 2024 and 2000,
      not in 2025 or 1900; 31 April never does. */
  lemma CalendarExamples()
    ensures DateTime(2024, 2, 29, 0, 0, 0).Valid() && DateTime(2000, 2, 29, 0, 0, 0).Valid()
    ensures !DateTime(2025, 2, 29, 0, 0, 0).Valid() && !DateTime(1900, 2, 29, 0, 0, 0).Valid()
    ensures !DateTime(2025, 4, 31, 0, 0, 0).Valid() && !DateTime(2025, 11, 15, 24, 0, 0).Valid()
  {
  }

  /** `datetime(year, month, day, hour, minute, second)`: None where it raises. */
  function MakeDateTime(year: int, month: int, day: int, hour: int, minute: int, second: int)
    : (r: Option<DateTime>)
    ensures r.Some? <==> DateTime(year, month, day, hour, minute, second).Valid()
    ensures r.Some? ==> r.value == DateTime(year, month, day, hour, minute, second)
  {
    var t := DateTime(year, month, day, hour, minute, second);
    if t.Valid() then Some(t) else None
  }

  /** `a <= b` between datetimes: field by field, most significant first. */
  predicate NotAfter(a: DateTime, b: DateTime)
  {
    if a.year != b.year then a.year < b.year
    else if a.month != b.month then a.month < b.month
    else if a.day != b.day then a.day < b.day
    else if a.hour != b.hour then a.hour < b.hour
    else if a.minute != b.minute then a.minute < b.minute
    else a.second <= b.second
  }

  /** The datetime order is total, antisymmetric and transitive. */
  lemma NotAfterIsTotalOrder(a: DateTime, b: DateTime, c: DateTime)
    ensures NotAfter(a, b) || NotAfter(b, a)
    ensures NotAfter(a, b) && NotAfter(b, a) ==> a == b
    ensures NotAfter(a, b) && NotAfter(b, c) ==> NotAfter(a, c)
  {
  }

  /** The 12-hour to 24-hour conversion of the parser: a PM hour other than 12 gains
      twelve hours, 12 AM becomes hour 0, every other hour is kept. */
  function To24Hour(hour: int, pm: bool): int
  {
    if pm && hour != 12 then hour + 12
    else if !pm && hour == 12 then 0
    else hour
  }

  /** The clock-face hour (1 to 12) of a 24-hour hour. */
  function Hour12(hour: int): (h: int)
    requires 0 <= hour < 24
    ensures 1 <= h <= 12
  {
    if hour % 12 == 0 then 12 else hour % 12
  }

  /** On clock-face hours the conversion is a bijection onto 0..23: every result is a
      valid hour, PM exactly when it is 12 or later, and each 24-hour hour comes from
      exactly one clock-face hour and half of the day. */
  lemma To24HourBijection(h: int, pm: bool, hour: int)
    ensures 1 <= h <= 12 ==> 0 <= To24Hour(h, pm) < 24 && (pm <==> To24Hour(h, pm) >= 12)
    ensures 0 <= hour < 24 ==> To24Hour(Hour12(hour), hour >= 12) == hour
    ensures 1 <= h <= 12 ==> Hour12(To24Hour(h, pm)) == h
  {
  }

  /** The conversion on examples: 3 AM is 3, 3 PM is 15, 12 AM is 0, 12 PM is 12. */
  lemma To24HourExamples()
    ensures To24Hour(3, false) == 3 && To24Hour(3, true) == 15
    ensures To24Hour(12, false) == 0 && To24Hour(12, true) == 12
  {
  }

  // ---------------------------------------------------------------------------
  // One exported line
  // ---------------------------------------------------------------------------

  /** One parsed line: its timestamp and its decibel value. */
  datatype Reading = Reading(time: DateTime, db: real)

  /** 오전 and 오후 rewritten to AM and PM, in that order. */
  function Markers(text: string): string
  {
    ReplaceAll(ReplaceAll(text, "오전", "AM"), "오후", "PM")
  }

  /** The text before ` AM ` (else before ` PM `) and the text after it, and whether
      it was PM; None with neither marker, where indexing the split fails. */
  function SplitAtMeridiem(s: string): (r: Option<(string, string, bool)>)
    ensures r.None? <==> !Contains(s, " AM ") && !Contains(s, " PM ")
    ensures r.Some? ==> (r.value.2 <==> !Contains(s, " AM "))
  {
    var pm := !Contains(s, " AM ");
    var halves := Split(s, if pm then " PM " else " AM ");
    SplitWhole(s, if pm then " PM " else " AM ");
    if |halves| < 2 then None else Some((halves[0], halves[1], pm))
  }

  /** The date loses its dots and its first three words are year, month and day; the
      clock time must have exactly three `:`-separated fields; the hour is converted
      to the 24-hour clock and `datetime` checks the calendar. */
  function DateTimeOfParts(datePart: string, timePart: string, pm: bool): (r: Option<DateTime>)
    ensures r.Some? ==> r.value.Valid()
  {
    var fields := Words(ReplaceAll(datePart, ".", ""));
    var clock := Split(timePart, ":");
    if |fields| < 3 || |clock| != 3 then None
    else
      match (ParseInt(fields[0]), ParseInt(fields[1]), ParseInt(fields[2]),
             ParseInt(clock[0]), ParseInt(clock[1]), ParseInt(clock[2]))
      case (Some(year), Some(month), Some(day), Some(hour), Some(minute), Some(second)) =>
        MakeDateTime(year, month, day, To24Hour(hour, pm), minute, second)
      case _ => None
  }

  /** The timestamp text, `2025. 11. 15. 오전 3:02:46`: with neither an AM nor a PM
      marker it fails; otherwise the date and clock parts are read. */
  function ParseDateTime(text: string): (r: Option<DateTime>)
    ensures r.Some? ==> r.value.Valid()
    ensures r.Some? ==> Contains(Markers(text), " AM ") || Contains(Markers(text), " PM ")
  {
    match SplitAtMeridiem(Markers(text))
    case None => None
    case Some((datePart, timePart, pm)) => DateTimeOfParts(datePart, timePart, pm)
  }

  /** One line of the export: blank lines and lines that do not split on `,` into
      exactly two parts are skipped; otherwise the second part is the decibel value,
      read by `parseFloat` (Python's `float`, None where it raises), and the first the
      timestamp. Any failure skips the line. */
  function ParseLine(line: string, parseFloat: string -> Option<real>): (r: Option<Reading>)
    ensures Strip(line) == [] ==> r.None?
    ensures |Split(Strip(line), ",")| != 2 ==> r.None?
    ensures r.Some? ==> r.value.time.Valid()
    ensures r.Some? ==>
      parseFloat(Strip(Split(Strip(line), ",")[1])) == Some(r.value.db) &&
      ParseDateTime(Strip(Split(Strip(line), ",")[0])) == Some(r.value.time)
  {
    var text := Strip(line);
    if text == [] then None
    else
      var parts := Split(text, ",");
      if |parts| != 2 then None
      else
        match (parseFloat(Strip(parts[1])), ParseDateTime(Strip(parts[0])))
        case (Some(db), Some(time)) => Some(Reading(time, db))
        case _ => None
  }

  // ---------------------------------------------------------------------------
  // The export format, and parsing it back
  // ---------------------------------------------------------------------------

  /** The date as the app writes it, `2025. 11. 15.`. */
  function DatePart(t: DateTime): string
    requires t.Valid()
  {
    ShowNat(t.year) + (". " + (ShowNat(t.month) + (". " + (ShowNat(t.day) + "."))))
  }

  /** 오전 before noon, 오후 from noon on. */
  function Meridiem(t: DateTime): string
  {
    if t.hour < 12 then "오전" else "오후"
  }

  /** The clock time as the app writes it, `3:02:46`. */
  function ClockPart(t: DateTime): string
    requires t.Valid()
  {
    ShowNat(Hour12(t.hour)) + (":" + (Pad2(t.minute) + (":" + Pad2(t.second))))
  }

  /** The timestamp text, `2025. 11. 15. 오전 3:02:46`. */
  function TimestampText(t: DateTime): string
    requires t.Valid()
  {
    DatePart(t) + (" " + (Meridiem(t) + (" " + ClockPart(t))))
  }

  /** An exported line: the timestamp, a comma and a space, the decibel text. */
  function FormatLine(t: DateTime, dbText: string): string
    requires t.Valid()
  {
    TimestampText(t) + (", " + dbText)
  }

  /** Only digits, dots and spaces appear in the date. */
  lemma DatePartLacks(t: DateTime, c: char)
    requires t.Valid() && !IsDigit(c) && c != '.' && c != ' '
    ensures c !in DatePart(t)
  {
  }

  /** Only digits and colons appear in the clock time. */
  lemma ClockPartLacks(t: DateTime, c: char)
    requires t.Valid() && !IsDigit(c) && c != ':'
    ensures c !in ClockPart(t)
  {
  }

  /** The two rewrites turn the timestamp text into `date AM clock` (or PM). */
  lemma ReplaceMeridiem(t: DateTime)
    requires t.Valid()
    ensures Markers(TimestampText(t)) ==
      DatePart(t) + ((if t.hour < 12 then " AM " else " PM ") + ClockPart(t))
  {
    var d, c := DatePart(t), ClockPart(t);
    var marker := if t.hour < 12 then "AM" else "PM";
    assert ReplaceAll(ReplaceAll((d + " ") + (Meridiem(t) + (" " + c)), "오전", "AM"), "오후", "PM") ==
      (d + " ") + (marker + (" " + c)) by {
      DatePartLacks(t, '오');
      ClockPartLacks(t, '오');
      ClockPartLacks(t, '전');
      if t.hour < 12 {
        ReplaceMorning(d + " ", " " + c);
      } else {
        ReplaceAfternoon(d + " ", " " + c);
      }
    }
    assert TimestampText(t) == (d + " ") + (Meridiem(t) + (" " + c)) by {
      Regroup(d, Meridiem(t), c);
    }
    Regroup(d, marker, c);
    assert " " + marker + " " == if t.hour < 12 then " AM " else " PM ";
  }

  /** `head 오전 tail` becomes `head AM tail` when neither part holds 오. */
  lemma ReplaceMorning(head: string, tail: string)
    requires '오' !in head && '오' !in tail
    ensures ReplaceAll(ReplaceAll(head + ("오전" + tail), "오전", "AM"), "오후", "PM") ==
      head + ("AM" + tail)
  {
    assert ReplaceAll(head + ("오전" + tail), "오전", "AM") == head + ("AM" + tail) by {
      ReplaceKeepsPrefix(head, "오전" + tail, "오전", "AM");
      ReplaceFront("오전", tail, "AM");
      AbsentByChar(tail, "오전", 0);
      ReplaceAbsent(tail, "오전", "AM");
    }
    AbsentByChar(head + ("AM" + tail), "오후", 0);
    ReplaceAbsent(head + ("AM" + tail), "오후", "PM");
  }

  /** `head 오후 tail` becomes `head PM tail` when neither part holds 오 or 전. */
  lemma ReplaceAfternoon(head: string, tail: string)
    requires '오' !in head && '오' !in tail && '전' !in tail
    ensures ReplaceAll(ReplaceAll(head + ("오후" + tail), "오전", "AM"), "오후", "PM") ==
      head + ("PM" + tail)
  {
    assert ReplaceAll(head + ("오후" + tail), "오전", "AM") == head + ("오후" + tail) by {
      ReplaceKeepsPrefix(head, "오후" + tail, "오전", "AM");
      AbsentByChar("오후" + tail, "오전", 1);
      ReplaceAbsent("오후" + tail, "오전", "AM");
    }
    ReplaceKeepsPrefix(head, "오후" + tail, "오후", "PM");
    ReplaceFront("오후", tail, "PM");
    AbsentByChar(tail, "오후", 0);
    ReplaceAbsent(tail, "오후", "PM");
  }

  lemma Regroup(d: string, marker: string, c: string)
    ensures (d + " ") + (marker + (" " + c)) == d + ((" " + marker + " ") + c)
    ensures (d + " ") + (marker + (" " + c)) == d + (" " + (marker + (" " + c)))
  {
  }

  /** Dropping the dots of `w. rest` when `w` has none. */
  lemma DropDot(w: string, rest: string)
    requires '.' !in w
    ensures ReplaceAll(w + (". " + rest), ".", "") == w + (" " + ReplaceAll(rest, ".", ""))
  {
    var bare := ReplaceAll(rest, ".", "");
    assert ReplaceAll(" " + rest, ".", "") == " " + bare by {
      ReplaceKeepsPrefix(" ", rest, ".", "");
    }
    assert ReplaceAll(". " + rest, ".", "") == " " + bare by {
      assert ". " + rest == "." + (" " + rest);
      ReplaceFront(".", " " + rest, "");
    }
    ReplaceKeepsPrefix(w, ". " + rest, ".", "");
  }

  /** The date's dots removed, its words are year, month and day. */
  lemma DateFields(t: DateTime)
    requires t.Valid()
    ensures Words(ReplaceAll(DatePart(t), ".", "")) == [ShowNat(t.year), ShowNat(t.month), ShowNat(t.day)]
  {
    var y, m, d := ShowNat(t.year), ShowNat(t.month), ShowNat(t.day);
    assert '.' !in y && '.' !in m && '.' !in d;
    assert ReplaceAll(d + ".", ".", "") == d by {
      ReplaceKeepsPrefix(d, ".", ".", "");
      ReplaceFront(".", [], "");
    }
    DropDot(m, d + ".");
    DropDot(y, m + (". " + (d + ".")));
    var bare := y + (" " + (m + (" " + d)));
    assert ReplaceAll(DatePart(t), ".", "") == bare;
    assert IsWord(y) && IsWord(m) && IsWord(d);
    ThreeWords(y, m, d);
  }

  /** Three words separated by single spaces split into those three words. */
  lemma ThreeWords(y: string, m: string, d: string)
    requires IsWord(y) && IsWord(m) && IsWord(d)
    ensures Words(y + (" " + (m + (" " + d)))) == [y, m, d]
  {
    WordsAfterSpace(m, d);
    WordsCons(y, " " + (m + (" " + d)));
  }

  /** ` m d` splits into `m` and `d`. */
  lemma WordsAfterSpace(m: string, d: string)
    requires IsWord(m) && IsWord(d)
    ensures Words(" " + (m + (" " + d))) == [m, d]
  {
    LastWord(d);
    WordsSkipSpace(m + (" " + d));
    WordsCons(m, " " + d);
  }

  /** ` d` splits into `d`. */
  lemma LastWord(d: string)
    requires IsWord(d)
    ensures Words(" " + d) == [d]
  {
    WordsSkipSpace(d);
    WordsCons(d, []);
    assert d + [] == d;
    assert Words([]) == [];
  }

  /** The clock time splits on `:` into hour, minute and second. */
  lemma ClockFields(t: DateTime)
    requires t.Valid()
    ensures Split(ClockPart(t), ":") == [ShowNat(Hour12(t.hour)), Pad2(t.minute), Pad2(t.second)]
  {
    var h, mi, se := ShowNat(Hour12(t.hour)), Pad2(t.minute), Pad2(t.second);
    assert ':' !in h && ':' !in mi && ':' !in se;
    assert ClockPart(t) == h + ":" + (mi + (":" + se));
    SplitAfterByChar(h, ":", mi + (":" + se), 0);
    assert mi + (":" + se) == mi + ":" + se;
    SplitAfterByChar(mi, ":", se, 0);
    AbsentByChar(se, ":", 0);
  }

  /** The timestamp text the app writes parses back to the timestamp. */
  lemma ParseTimestampText(t: DateTime)
    requires t.Valid()
    ensures ParseDateTime(TimestampText(t)) == Some(t)
  {
    assert SplitAtMeridiem(Markers(TimestampText(t))) ==
      Some((DatePart(t), ClockPart(t), t.hour >= 12)) by {
      ReplaceMeridiem(t);
      SplitTimestamp(t);
    }
    PartsOfTimestamp(t);
  }

  /** The rewritten timestamp splits at its marker into date and clock time. */
  lemma SplitTimestamp(t: DateTime)
    requires t.Valid()
    ensures var sep := if t.hour >= 12 then " PM " else " AM ";
      SplitAtMeridiem(DatePart(t) + (sep + ClockPart(t))) ==
      Some((DatePart(t), ClockPart(t), t.hour >= 12))
  {
    var d, c := DatePart(t), ClockPart(t);
    var pm := t.hour >= 12;
    var sep := if pm then " PM " else " AM ";
    var s := d + (sep + c);
    assert Contains(s, " AM ") <==> !pm by {
      if pm {
        DatePartLacks(t, 'A');
        ClockPartLacks(t, 'A');
        AbsentByChar(s, " AM ", 1);
      } else {
        assert s[|d|..|d| + 4] == " AM ";
        assert OccursAt(s, " AM ", |d|);
        ContainsAt(s, " AM ", |d|);
      }
    }
    assert Split(s, sep) == [d, c] by {
      assert s == d + sep + c;
      DatePartLacks(t, sep[1]);
      ClockPartLacks(t, sep[1]);
      SplitAfterByChar(d, sep, c, 1);
      AbsentByChar(c, sep, 1);
    }
  }

  /** The date and clock parts the app writes are read back to the timestamp. */
  lemma PartsOfTimestamp(t: DateTime)
    requires t.Valid()
    ensures DateTimeOfParts(DatePart(t), ClockPart(t), t.hour >= 12) == Some(t)
  {
    var y, mo, d := ShowNat(t.year), ShowNat(t.month), ShowNat(t.day);
    var h, mi, se := ShowNat(Hour12(t.hour)), Pad2(t.minute), Pad2(t.second);
    DateFields(t);
    ClockFields(t);
    TimestampFieldsParse(t);
    DateTimeOfFields(DatePart(t), ClockPart(t), t.hour >= 12, [y, mo, d], [h, mi, se],
                     t.year, t.month, t.day, Hour12(t.hour), t.minute, t.second);
    To24HourBijection(1, t.hour >= 12, t.hour);
  }

  /** Each number the app writes reads back with `int`. */
  lemma TimestampFieldsParse(t: DateTime)
    requires t.Valid()
    ensures ParseInt(ShowNat(t.year)) == Some(t.year)
    ensures ParseInt(ShowNat(t.month)) == Some(t.month)
    ensures ParseInt(ShowNat(t.day)) == Some(t.day)
    ensures ParseInt(ShowNat(Hour12(t.hour))) == Some(Hour12(t.hour))
    ensures ParseInt(Pad2(t.minute)) == Some(t.minute)
    ensures ParseInt(Pad2(t.second)) == Some(t.second)
  {
    ParseIntShowNat(t.year);
    ParseIntShowNat(t.month);
    ParseIntShowNat(t.day);
    ParseIntShowNat(Hour12(t.hour));
    ParseIntPad2(t.minute);
    ParseIntPad2(t.second);
  }

  /** A date part with three words and a clock part with three fields that read as
      integers give the datetime of those integers, on the 24-hour clock. */
  lemma DateTimeOfFields(datePart: string, timePart: string, pm: bool,
                         fields: seq<string>, clock: seq<string>,
                         year: int, month: int, day: int, hour: int, minute: int, second: int)
    requires Words(ReplaceAll(datePart, ".", "")) == fields && |fields| == 3
    requires Split(timePart, ":") == clock && |clock| == 3
    requires ParseInt(fields[0]) == Some(year) && ParseInt(fields[1]) == Some(month)
    requires ParseInt(fields[2]) == Some(day) && ParseInt(clock[0]) == Some(hour)
    requires ParseInt(clock[1]) == Some(minute) && ParseInt(clock[2]) == Some(second)
    ensures DateTimeOfParts(datePart, timePart, pm) ==
      MakeDateTime(year, month, day, To24Hour(hour, pm), minute, second)
  {
  }

  /** An exported line parses back to its timestamp and to the value `float` reads
      from its decibel text, provided that text holds no comma and no surrounding
      whitespace. */
  lemma ParseFormatLine(t: DateTime, dbText: string, parseFloat: string -> Option<real>, db: real)
    requires t.Valid() && Trimmed(dbText) && ',' !in dbText
    requires parseFloat(dbText) == Some(db)
    ensures ParseLine(FormatLine(t, dbText), parseFloat) == Some(Reading(t, db))
  {
    LineTrimmed(t, dbText);
    LineSplit(t, dbText);
    TimestampTrimmed(t);
    ParseTimestampText(t);
    ParseLineOfParts(FormatLine(t, dbText), TimestampText(t), dbText, parseFloat, Reading(t, db));
  }

  /** A trimmed line that splits on its comma into a trimmed timestamp text and a
      space-led trimmed decibel text parses to what those two parse to. */
  lemma ParseLineOfParts(line: string, text: string, dbText: string,
                         parseFloat: string -> Option<real>, reading: Reading)
    requires Trimmed(line) && Trimmed(text) && Trimmed(dbText)
    requires Split(line, ",") == [text, " " + dbText]
    requires ParseDateTime(text) == Some(reading.time) && parseFloat(dbText) == Some(reading.db)
    ensures ParseLine(line, parseFloat) == Some(reading)
  {
    StripUnchanged(line);
    StripUnchanged(text);
    StripAfterSpace(dbText);
  }

  /** The one space after the comma is stripped away. */
  lemma StripAfterSpace(x: string)
    requires Trimmed(x)
    ensures Strip(" " + x) == x
  {
    var s := " " + x;
    assert s[1..] == x;
    assert StripStart(x) == x;
    assert StripStart(s) == x;
    assert StripEnd(x) == x;
  }

  /** Non-empty, with no whitespace at either end. */
  predicate Trimmed(s: string)
  {
    s != [] && !IsSpace(s[0]) && !IsSpace(s[|s| - 1])
  }

  /** The timestamp text starts with a digit and ends with one. */
  lemma TimestampTrimmed(t: DateTime)
    requires t.Valid()
    ensures Trimmed(TimestampText(t))
  {
    var text := TimestampText(t);
    assert text[0] == ShowNat(t.year)[0];
    assert text[|text| - 1] == Pad2(t.second)[1];
  }

  /** An exported line starts with a digit and ends with its decibel text. */
  lemma LineTrimmed(t: DateTime, dbText: string)
    requires t.Valid() && Trimmed(dbText)
    ensures Trimmed(FormatLine(t, dbText))
  {
    var line := FormatLine(t, dbText);
    assert line[0] == ShowNat(t.year)[0];
    assert line[|line| - 1] == dbText[|dbText| - 1];
  }

  /** An exported line splits on its one comma. */
  lemma LineSplit(t: DateTime, dbText: string)
    requires t.Valid() && ',' !in dbText
    ensures Split(FormatLine(t, dbText), ",") == [TimestampText(t), " " + dbText]
  {
    var text := TimestampText(t);
    assert ',' !in text by {
      DatePartLacks(t, ',');
      ClockPartLacks(t, ',');
    }
    assert FormatLine(t, dbText) == text + "," + (" " + dbText);
    SplitAfterByChar(text, ",", " " + dbText, 0);
    AbsentByChar(" " + dbText, ",", 0);
  }

  /** The line of the app's export format used as the running example. */
  lemma ParseLineExample(parseFloat: string -> Option<real>, db: real)
    requires parseFloat("53.058983") == Some(db)
    ensures ParseLine("2025. 11. 15. 오전 3:02:46, 53.058983", parseFloat) ==
      Some(Reading(DateTime(2025, 11, 15, 3, 2, 46), db))
  {
    ExampleLineText();
    ParseFormatLine(DateTime(2025, 11, 15, 3, 2, 46), "53.058983", parseFloat, db);
  }

  /** The running example is what the app writes for its timestamp. */
  lemma ExampleLineText()
    ensures FormatLine(DateTime(2025, 11, 15, 3, 2, 46), "53.058983") ==
      "2025. 11. 15. 오전 3:02:46, 53.058983"
  {
    ExampleParts();
  }

  lemma ExampleParts()
    ensures DatePart(DateTime(2025, 11, 15, 3, 2, 46)) == "2025. 11. 15."
    ensures ClockPart(DateTime(2025, 11, 15, 3, 2, 46)) == "3:02:46"
  {
    ExampleDigits();
  }

  lemma ExampleDigits()
    ensures ShowNat(2025) == "2025" && ShowNat(11) == "11" && ShowNat(15) == "15"
    ensures ShowNat(3) == "3" && Pad2(2) == "02" && Pad2(46) == "46"
  {
    assert ShowNat(20) == "20";
    assert ShowNat(202) == "202";
  }

  // ---------------------------------------------------------------------------
  // The conversion: every line parsed, the accepted readings sorted by time
  // ---------------------------------------------------------------------------

  /** The results of the items `parse` accepts, in order; an item it rejects is
      skipped and nothing else is lost. */
  function Kept<T>(items: seq<string>, parse: string -> Option<T>): seq<T>
  {
    if items == [] then []
    else
      var rest := Kept(items[..|items| - 1], parse);
      match parse(items[|items| - 1])
      case Some(x) => rest + [x]
      case None => rest
  }

  /** The readings of the lines that parse, in file order. */
  function Accepted(lines: seq<string>, parseFloat: string -> Option<real>): seq<Reading>
  {
    Kept(lines, line => ParseLine(line, parseFloat))
  }

  /** Input can be parsed piece by piece: one item's failure skips only that item. */
  lemma {:induction false} KeptAppend<T>(a: seq<string>, b: seq<string>, parse: string -> Option<T>)
    ensures Kept(a + b, parse) == Kept(a, parse) + Kept(b, parse)
  {
    if b == [] {
      assert a + b == a;
    } else {
      var b' := b[..|b| - 1];
      assert (a + b)[..|a + b| - 1] == a + b';
      KeptAppend(a, b', parse);
    }
  }

  /** A result is kept exactly when some item parses to it; there are never more
      results than items. */
  lemma {:induction false} KeptMembers<T>(items: seq<string>, parse: string -> Option<T>)
    ensures |Kept(items, parse)| <= |items|
    ensures forall x :: x in Kept(items, parse) <==>
      exists i :: 0 <= i < |items| && parse(items[i]) == Some(x)
  {
    if items != [] {
      var p := items[..|items| - 1];
      KeptMembers(p, parse);
      forall x
        ensures x in Kept(items, parse) <==> exists i :: 0 <= i < |items| && parse(items[i]) == Some(x)
      {
        if x in Kept(items, parse) && x !in Kept(p, parse) {
          assert parse(items[|items| - 1]) == Some(x);
        }
        if exists i :: 0 <= i < |items| && parse(items[i]) == Some(x) {
          var i :| 0 <= i < |items| && parse(items[i]) == Some(x);
          if i < |p| {
            assert p[i] == items[i];
          }
        }
      }
    }
  }

  /** What `parse` promises of each result holds of every kept result. */
  lemma {:induction false} KeptSatisfy<T>(items: seq<string>, parse: string -> Option<T>, p: T -> bool)
    requires forall s :: parse(s).Some? ==> p(parse(s).value)
    ensures forall k :: 0 <= k < |Kept(items, parse)| ==> p(Kept(items, parse)[k])
  {
    if items != [] {
      KeptSatisfy(items[..|items| - 1], parse, p);
    }
  }

  /** A file of exported lines is read back reading for reading. */
  lemma AcceptedFormatLines(ts: seq<DateTime>, dbTexts: seq<string>, dbs: seq<real>,
                                                parseFloat: string -> Option<real>)
    requires |ts| == |dbTexts| == |dbs|
    requires forall k :: 0 <= k < |ts| ==> ts[k].Valid()
    requires forall k :: 0 <= k < |ts| ==>
      Trimmed(dbTexts[k]) && ',' !in dbTexts[k] && parseFloat(dbTexts[k]) == Some(dbs[k])
    ensures Accepted(FormatLines(ts, dbTexts), parseFloat) == Readings(ts, dbs)
  {
    var lines := FormatLines(ts, dbTexts);
    forall k | 0 <= k < |lines| ensures ParseLine(lines[k], parseFloat) == Some(Readings(ts, dbs)[k]) {
      ParseFormatLine(ts[k], dbTexts[k], parseFloat, dbs[k]);
    }
    KeptEvery(lines, line => ParseLine(line, parseFloat), Readings(ts, dbs));
  }

  /** When every item parses, every result is kept, in order. */
  lemma {:induction false} KeptEvery<T>(items: seq<string>, parse: string -> Option<T>, outs: seq<T>)
    requires |items| == |outs|
    requires forall k :: 0 <= k < |items| ==> parse(items[k]) == Some(outs[k])
    ensures Kept(items, parse) == outs
  {
    if items != [] {
      var n := |items| - 1;
      KeptEvery(items[..n], parse, outs[..n]);
      assert outs == outs[..n] + [outs[n]];
    }
  }

  /** The lines the app exports for a list of timestamps and decibel texts. */
  function FormatLines(ts: seq<DateTime>, dbTexts: seq<string>): (lines: seq<string>)
    requires |ts| == |dbTexts|
    requires forall k :: 0 <= k < |ts| ==> ts[k].Valid()
    ensures |lines| == |ts|
    ensures forall k :: 0 <= k < |ts| ==> lines[k] == FormatLine(ts[k], dbTexts[k])
  {
    seq(|ts|, k requires 0 <= k < |ts| => FormatLine(ts[k], dbTexts[k]))
  }

  /** Readings paired up from a list of timestamps and a list of values. */
  function Readings(ts: seq<DateTime>, dbs: seq<real>): (rs: seq<Reading>)
    requires |ts| == |dbs|
    ensures |rs| == |ts|
    ensures forall k :: 0 <= k < |ts| ==> rs[k] == Reading(ts[k], dbs[k])
  {
    seq(|ts|, k requires 0 <= k < |ts| => Reading(ts[k], dbs[k]))
  }

  /** Readings in time order. */
  predicate SortedByTime(rs: seq<Reading>)
  {
    forall i, j :: 0 <= i < j < |rs| ==> NotAfter(rs[i].time, rs[j].time)
  }

  /** `r` placed before the first reading later than it. */
  function InsertByTime(r: Reading, rs: seq<Reading>): (out: seq<Reading>)
    ensures multiset(out) == multiset(rs) + multiset{r}
    ensures |out| == |rs| + 1
  {
    if rs == [] then [r]
    else if NotAfter(r.time, rs[0].time) then [r] + rs
    else
      assert rs == [rs[0]] + rs[1..];
      [rs[0]] + InsertByTime(r, rs[1..])
  }

  /** Inserting into readings in time order keeps them in time order. */
  lemma {:induction false} InsertSorted(r: Reading, rs: seq<Reading>)
    requires SortedByTime(rs)
    ensures SortedByTime(InsertByTime(r, rs))
  {
    if rs == [] {
    } else if NotAfter(r.time, rs[0].time) {
      forall j | 0 < j < |rs| ensures NotAfter(r.time, rs[j].time) {
        NotAfterIsTotalOrder(r.time, rs[0].time, rs[j].time);
      }
    } else {
      var tail := InsertByTime(r, rs[1..]);
      InsertSorted(r, rs[1..]);
      forall k | 0 <= k < |tail| ensures NotAfter(rs[0].time, tail[k].time) {
        assert tail[k] in multiset(tail);
        if tail[k] == r {
          NotAfterIsTotalOrder(r.time, rs[0].time, r.time);
        } else {
          assert tail[k] in multiset(rs[1..]);
          var m :| 0 <= m < |rs[1..]| && rs[1..][m] == tail[k];
          assert rs[m + 1] == tail[k];
        }
      }
      var out := [rs[0]] + tail;
      forall i, j | 0 <= i < j < |out| ensures NotAfter(out[i].time, out[j].time) {
        if i == 0 {
          assert out[j] == tail[j - 1];
        } else {
          assert out[i] == tail[i - 1] && out[j] == tail[j - 1];
        }
      }
    }
  }

  /** `sort_values('시간')`: the same readings, in time order. pandas does not promise
      a stable order for readings with equal timestamps, so only the order of times and
      the multiset of readings are stated. */
  function SortByTime(rs: seq<Reading>): (out: seq<Reading>)
    ensures SortedByTime(out)
    ensures multiset(out) == multiset(rs)
    ensures |out| == |rs|
  {
    if rs == [] then []
    else
      var sorted := SortByTime(rs[..|rs| - 1]);
      assert rs == rs[..|rs| - 1] + [rs[|rs| - 1]];
      InsertSorted(rs[|rs| - 1], sorted);
      InsertByTime(rs[|rs| - 1], sorted)
  }

  /** `convert_dbmeter_data` once the file's lines are read: each line is parsed and
      its reading kept if the parse succeeds, then the readings are sorted by time.
      When no line parses, the summary of the empty frame fails (the earliest and
      latest time are NaN) and the conversion returns None. */
  method ConvertDbMeterData(lines: seq<string>, parseFloat: string -> Option<real>)
    returns (result: Option<seq<Reading>>)
    ensures result.None? <==> Accepted(lines, parseFloat) == []
    ensures result.Some? ==> SortedByTime(result.value)
    ensures result.Some? ==> multiset(result.value) == multiset(Accepted(lines, parseFloat))
  {
    var accepted: seq<Reading> := [];
    for i := 0 to |lines|
      invariant accepted == Kept(lines[..i], line => ParseLine(line, parseFloat))
    {
      assert lines[..i + 1][..i] == lines[..i];
      match ParseLine(lines[i], parseFloat)
      case Some(r) =>
        accepted := accepted + [r];
      case None =>
    }
    assert lines[..|lines|] == lines;
    if accepted == [] {
      result := None;
    } else {
      result := Some(SortByTime(accepted));
    }
  }

  /** The conversion fails exactly on a file none of whose lines parses. */
  lemma NothingAccepted(lines: seq<string>, parseFloat: string -> Option<real>)
    ensures Accepted(lines, parseFloat) == [] <==>
      forall i :: 0 <= i < |lines| ==> ParseLine(lines[i], parseFloat).None?
  {
    KeptEmptyIff(lines, line => ParseLine(line, parseFloat));
  }

  /** Nothing is kept exactly when no item parses. */
  lemma {:induction false} KeptEmptyIff<T>(items: seq<string>, parse: string -> Option<T>)
    ensures Kept(items, parse) == [] <==> forall i :: 0 <= i < |items| ==> parse(items[i]).None?
  {
    if items != [] {
      var p := items[..|items| - 1];
      KeptEmptyIff(p, parse);
      assert forall i :: 0 <= i < |p| ==> p[i] == items[i];
    }
  }

  /** What the conversion keeps: a reading is in the result exactly when a line of the
      file parses to it, every timestamp in it is a valid date and time, and there are
      no more readings than lines. */
  lemma ConvertedReadings(lines: seq<string>, parseFloat: string -> Option<real>, readings: seq<Reading>)
    requires multiset(readings) == multiset(Accepted(lines, parseFloat))
    ensures |readings| <= |lines|
    ensures forall r :: r in readings <==>
      exists i :: 0 <= i < |lines| && ParseLine(lines[i], parseFloat) == Some(r)
    ensures forall k :: 0 <= k < |readings| ==> readings[k].time.Valid()
  {
    KeptReordered(lines, line => ParseLine(line, parseFloat), readings, (r: Reading) => r.time.Valid());
  }

  /** Any reordering of the kept results has no more entries than there are items,
      holds exactly the results of the items that parse, and keeps what `parse`
      promises of each of them. */
  lemma KeptReordered<T>(items: seq<string>, parse: string -> Option<T>, out: seq<T>, p: T -> bool)
    requires multiset(out) == multiset(Kept(items, parse))
    requires forall s :: parse(s).Some? ==> p(parse(s).value)
    ensures |out| <= |items|
    ensures forall x :: x in out <==> exists i :: 0 <= i < |items| && parse(items[i]) == Some(x)
    ensures forall k :: 0 <= k < |out| ==> p(out[k])
  {
    var kept := Kept(items, parse);
    KeptMembers(items, parse);
    KeptSatisfy(items, parse, p);
    assert |out| == |kept| by {
      assert |multiset(out)| == |multiset(kept)|;
    }
    forall x ensures x in out <==> x in kept {
      assert x in out <==> x in multiset(out);
      assert x in kept <==> x in multiset(kept);
    }
    forall k | 0 <= k < |out| ensures p(out[k]) {
      assert out[k] in multiset(kept);
    }
  }
}
