/** String rules used by the handlers: Python's `str.strip()` and `str.isdigit()`
    as the forms use them, the seven-digit student number, and the version
    title that `edit_survey` gives a forked survey. */
module Text {

  import opened Records

  /** The characters Python's `str.strip()` removes (those for which
      `str.isspace()` holds). */
  predicate IsSpace(c: char)
  {
    c == ' ' || c == '\t' || c == '\n' || c == '\r' || c == '\U{b}' || c == '\U{c}'
    || ('\U{1c}' <= c <= '\U{1f}') || c == '\U{85}' || c == '\U{a0}' || c == '\U{1680}'
    || ('\U{2000}' <= c <= '\U{200a}') || c == '\U{2028}' || c == '\U{2029}'
    || c == '\U{202f}' || c == '\U{205f}' || c == '\U{3000}'
  }

  function TrimStart(s: string): string
  {
    if s != [] && IsSpace(s[0]) then TrimStart(s[1..]) else s
  }

  function TrimEnd(s: string): string
  {
    if s != [] && IsSpace(s[|s| - 1]) then TrimEnd(s[..|s| - 1]) else s
  }

  /** `lstrip()` drops exactly the leading whitespace. */
  lemma {:induction false} TrimStartFacts(s: string)
    ensures var r := TrimStart(s);
      |r| <= |s| && r == s[|s| - |r|..]
      && (forall i :: 0 <= i < |s| - |r| ==> IsSpace(s[i]))
      && (r == [] || !IsSpace(r[0]))
  {
    if s != [] && IsSpace(s[0]) {
      var t := s[1..];
      TrimStartFacts(t);
      var r := TrimStart(t);
      assert TrimStart(s) == r;
      assert s[|s| - |r|..] == t[|t| - |r|..];
      forall i | 0 <= i < |s| - |r| ensures IsSpace(s[i]) {
        if i > 0 {
          assert s[i] == t[i - 1];
        }
      }
    }
  }

  /** `rstrip()` drops exactly the trailing whitespace. */
  lemma {:induction false} TrimEndFacts(s: string)
    ensures var r := TrimEnd(s);
      |r| <= |s| && r == s[..|r|]
      && (forall i :: |r| <= i < |s| ==> IsSpace(s[i]))
      && (r == [] || !IsSpace(r[|r| - 1]))
  {
    if s != [] && IsSpace(s[|s| - 1]) {
      TrimEndFacts(s[..|s| - 1]);
    }
  }

  /** Python's `s.strip()`. */
  function Strip(s: string): string
  {
    TrimEnd(TrimStart(s))
  }

  /** `not s.strip()`: the form field is empty or only whitespace. */
  predicate IsBlank(s: string)
  {
    Strip(s) == []
  }

  /** How many leading characters `strip()` removes. */
  function StripOffset(s: string): nat
  {
    TrimStartFacts(s);
    |s| - |TrimStart(s)|
  }

  /** A stripped string is the slice of the original that starts and ends
      with a non-whitespace character; everything cut off is whitespace. */
  lemma StripIsTrimmedSlice(s: string)
    ensures var i, r := StripOffset(s), Strip(s);
      i + |r| <= |s| && r == s[i..i + |r|]
      && (forall k :: 0 <= k < i ==> IsSpace(s[k]))
      && (forall k :: i + |r| <= k < |s| ==> IsSpace(s[k]))
      && (r == [] || (!IsSpace(r[0]) && !IsSpace(r[|r| - 1])))
  {
    var t := TrimStart(s);
    var r := TrimEnd(t);
    var i := |s| - |t|;
    TrimStartFacts(s);
    TrimEndFacts(t);
    forall k | i + |r| <= k < |s| ensures IsSpace(s[k]) {
      assert s[k] == t[k - i];
    }
    if r != [] {
      assert r[0] == t[0];
    }
  }

  /** Blank exactly when every character is whitespace. */
  lemma BlankIffAllSpace(s: string)
    ensures IsBlank(s) <==> forall i :: 0 <= i < |s| ==> IsSpace(s[i])
  {
    StripIsTrimmedSlice(s);
    if !IsBlank(s) {
      var i := StripOffset(s);
      assert s[i] == Strip(s)[0];
    }
  }

  /** `str.isdigit()` restricted to the ASCII digits. */
  predicate IsDigit(c: char)
  {
    '0' <= c <= '9'
  }

  predicate AllDigits(s: string)
  {
    forall i :: 0 <= i < |s| ==> IsDigit(s[i])
  }

  /** The student-number rule of `register` and `profile`: the field is
      present, has length 7 and is all digits. */
  predicate IsStudentNumber(s: Option<string>)
  {
    s.Some? && |s.value| == 7 && AllDigits(s.value)
  }

  lemma StudentNumberExamples()
    ensures IsStudentNumber(Some("2023001"))
    ensures !IsStudentNumber(Some("202300"))
    ensures !IsStudentNumber(Some("20230011"))
    ensures !IsStudentNumber(Some("202300a"))
    ensures !IsStudentNumber(Some(""))
    ensures !IsStudentNumber(None)
  {
    assert !IsDigit("202300a"[6]);
  }

  function DigitChar(d: nat): (c: char)
    requires d < 10
    ensures IsDigit(c)
  {
    ('0' as int + d) as char
  }

  function DigitValue(c: char): nat
    requires IsDigit(c)
  {
    c as int - '0' as int
  }

  /** The number a string of decimal digits denotes. */
  function DigitsValue(s: string): nat
    requires AllDigits(s)
  {
    if s == [] then 0 else 10 * DigitsValue(s[..|s| - 1]) + DigitValue(s[|s| - 1])
  }

  /** Decimal rendering of a natural number, as `f"{n}"` gives it. */
  function NatToString(n: nat): (r: string)
    ensures r != [] && AllDigits(r)
    ensures |r| > 1 ==> r[0] != '0'
  {
    if n < 10 then [DigitChar(n)] else NatToString(n / 10) + [DigitChar(n % 10)]
  }

  /** The rendering denotes `n`. */
  lemma {:induction false} NatToStringValue(n: nat)
    ensures DigitsValue(NatToString(n)) == n
  {
    var r := NatToString(n);
    if n >= 10 {
      NatToStringValue(n / 10);
      assert r[..|r| - 1] == NatToString(n / 10);
    } else {
      assert r[..0] == [];
    }
  }

  /** Different numbers render differently, so versions numbered apart
      get different titles. */
  lemma NatToStringInjective(a: nat, b: nat)
    ensures NatToString(a) == NatToString(b) ==> a == b
  {
    NatToStringValue(a);
    NatToStringValue(b);
  }

  /** The separator `edit_survey` splits titles on. */
  const SEP: string := " - "

  predicate SepAt(s: string, i: nat)
  {
    i + 3 <= |s| && s[i..i + 3] == SEP
  }

  predicate HasSep(s: string)
  {
    exists i: nat :: i < |s| && SepAt(s, i)
  }

  function SplitHead(t: string, i: nat): (r: string)
    requires i <= |t|
    requires forall k: nat :: k < i ==> !SepAt(t, k)
    ensures |r| <= |t| && r == t[..|r|]
    ensures forall k: nat :: k < |r| ==> !SepAt(t, k)
    ensures |r| < |t| ==> SepAt(t, |r|)
    decreases |t| - i
  {
    if i + 3 > |t| then t
    else if t[i..i + 3] == SEP then t[..i]
    else SplitHead(t, i + 1)
  }

  /** `title.split(' - ')[0]`: the text before the first separator, or the
      whole title when it has none. */
  function BaseTitle(title: string): (base: string)
    ensures |base| <= |title| && base == title[..|base|]
    ensures !HasSep(base)
    ensures forall k: nat :: k < |base| ==> !SepAt(title, k)
    ensures |base| < |title| ==> SepAt(title, |base|)
    ensures !HasSep(title) ==> base == title
  {
    var r := SplitHead(title, 0);
    assert !HasSep(r) by {
      forall k: nat | SepAt(r, k) ensures false {
        assert r[k..k + 3] == title[k..k + 3];
        assert SepAt(title, k);
      }
    }
    r
  }

  /** The title of a forked version: `f"{base} - 第{n + 1}版"`. */
  function VersionTitle(base: string, n: nat): string
  {
    base + SEP + "第" + NatToString(n + 1) + "版"
  }

  /** SQLite's `LIKE` folds the case of ASCII letters only. */
  function AsciiLower(c: char): char
  {
    if 'A' <= c <= 'Z' then (c as int + 32) as char else c
  }

  predicate SameIgnoringAsciiCase(a: string, b: string)
  {
    |a| == |b| && forall i :: 0 <= i < |a| ==> AsciiLower(a[i]) == AsciiLower(b[i])
  }

  /** The SQL pattern `LIKE '{base} - 第%版'`, with `%` matching any run of
      characters and the rest matched up to the case of ASCII letters. */
  predicate IsVersionOf(title: string, base: string)
  {
    var prefix := base + SEP + "第";
    |title| >= |prefix| + 1 && SameIgnoringAsciiCase(title[..|prefix|], prefix) && title[|title| - 1] == '版'
  }

  /** A version title belongs to its own base's version family. */
  lemma VersionTitleInFamily(base: string, n: nat)
    ensures IsVersionOf(VersionTitle(base, n), base)
  {
    var prefix := base + SEP + "第";
    var t := VersionTitle(base, n);
    assert t == prefix + (NatToString(n + 1) + "版");
    assert t[..|prefix|] == prefix;
  }

  /** In `base + " - " + rest`, no separator starts inside `base` when
      `base` has none and does not end in " -". */
  lemma NoSepBefore(base: string, rest: string)
    requires !HasSep(base)
    requires !(|base| >= 2 && base[|base| - 2..] == " -")
    ensures forall k: nat :: k < |base| ==> !SepAt(base + SEP + rest, k)
  {
    var t := base + SEP + rest;
    var m := |base|;
    assert t[m] == ' ';
    forall k: nat | k < m ensures !SepAt(t, k) {
      if k + 3 <= m {
        assert t[k..k + 3] == base[k..k + 3];
        assert !SepAt(base, k);
      } else if k == m - 1 {
        assert t[k..k + 3][1] == t[m] != SEP[1];
      } else {
        assert k == m - 2 && |base| >= 2;
        assert base[m - 2..] != " -";
        assert t[k..k + 3][..2] == base[m - 2..] != SEP[..2];
      }
    }
  }

  /** Forking a version of a version keeps the family: the base of a version
      title is the base it was built from, unless that base ends in " -" (then
      the separator's first occurrence straddles the two). */
  lemma VersionTitleBase(base: string, n: nat)
    requires !HasSep(base)
    requires !(|base| >= 2 && base[|base| - 2..] == " -")
    ensures BaseTitle(VersionTitle(base, n)) == base
  {
    var rest := "第" + NatToString(n + 1) + "版";
    var t := VersionTitle(base, n);
    assert t == base + SEP + rest;
    NoSepBefore(base, rest);
    var m := |base|;
    assert SepAt(t, m) by { assert t[m..m + 3] == SEP; }
    var r := BaseTitle(t);
    assert |r| == m;
    assert r == t[..m] == base;
  }

  /** Concrete case: a survey named "Quiz" forks into "Quiz - 第1版", whose
      own base is again "Quiz". */
  lemma VersionTitleExample()
    ensures BaseTitle("Quiz") == "Quiz"
    ensures VersionTitle("Quiz", 0) == "Quiz - 第1版"
    ensures BaseTitle("Quiz - 第1版") == "Quiz"
  {
    assert NatToString(1) == "1";
    forall k: nat | k < 4 ensures !SepAt("Quiz", k) {
      assert "Quiz"[k] != ' ';
      if k + 3 <= 4 { assert "Quiz"[k..k + 3][0] == "Quiz"[k]; }
    }
    VersionTitleBase("Quiz", 0);
  }
}
