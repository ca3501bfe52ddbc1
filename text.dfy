/**
 * String helpers with the semantics of the Python built-ins the registry
 * manager relies on: code-point ordering of `str`, `str.split`, `str.lstrip`,
 * `str.strip`, `str.replace`, `int()` on a digit run and `str()` on an int.
 * `str.strip()` removes the whitespace `str.isspace()` accepts; the
 * regular-expression class `\s` is modelled as the ASCII set only.
 */
module Text {

  /** `\s` restricted to ASCII: space, tab, newline, vertical tab, form feed, carriage return. */
  predicate IsSpace(c: char) {
    c == ' ' || c == '\t' || c == '\n' || c == '\r' || c as int == 11 || c as int == 12
  }

  /**
   * What `str.isspace()` accepts, and so what `str.strip()` and `int()`
   * remove: U+0009..U+000D, U+001C..U+0020, U+0085, U+00A0, U+1680,
   * U+2000..U+200A, U+2028, U+2029, U+202F, U+205F and U+3000.
   */
  predicate IsPyWhitespace(c: char) {
    var n := c as int;
    || (9 <= n <= 13) || (28 <= n <= 32) || n == 0x85 || n == 0xA0 || n == 0x1680
    || (0x2000 <= n <= 0x200A) || n == 0x2028 || n == 0x2029 || n == 0x202F || n == 0x205F || n == 0x3000
  }

  /** `\d` restricted to ASCII. */
  predicate IsDigit(c: char) {
    '0' <= c <= '9'
  }

  predicate AllDigits(s: string) {
    forall i :: 0 <= i < |s| ==> IsDigit(s[i])
  }

  predicate AllSpaces(s: string) {
    forall i :: 0 <= i < |s| ==> IsSpace(s[i])
  }

  /** Whether `sub` occurs in `s` starting at index `i`. */
  predicate OccursAt(s: string, sub: string, i: nat) {
    i + |sub| <= |s| && s[i..i + |sub|] == sub
  }

  /** Python's `sub in s` for strings. */
  predicate Contains(s: string, sub: string) {
    exists i: nat | i <= |s| :: OccursAt(s, sub, i)
  }

  // ---------------------------------------------------------------------------
  // Ordering of Python strings: lexicographic by code point.
  // Dafny's `<` on strings means "proper prefix", so the order is written out.
  // ---------------------------------------------------------------------------

  predicate LexLess(a: string, b: string)
    decreases |a|
  {
    if |a| == 0 then |b| > 0
    else if |b| == 0 then false
    else if a[0] == b[0] then LexLess(a[1..], b[1..])
    else a[0] < b[0]
  }

  lemma {:induction false} LexLessIrreflexive(a: string)
    ensures !LexLess(a, a)
    decreases |a|
  {
    if |a| > 0 {
      LexLessIrreflexive(a[1..]);
    }
  }

  lemma {:induction false} LexLessAsymmetric(a: string, b: string)
    requires LexLess(a, b)
    ensures !LexLess(b, a)
    decreases |a|
  {
    if |a| > 0 && |b| > 0 && a[0] == b[0] {
      LexLessAsymmetric(a[1..], b[1..]);
    }
  }

  lemma {:induction false} LexLessTransitive(a: string, b: string, c: string)
    requires LexLess(a, b) && LexLess(b, c)
    ensures LexLess(a, c)
    decreases |a|
  {
    if |a| > 0 && a[0] == b[0] && b[0] == c[0] {
      LexLessTransitive(a[1..], b[1..], c[1..]);
    }
  }

  /** Two different strings are always ordered one way or the other. */
  lemma {:induction false} LexLessTotal(a: string, b: string)
    requires a != b
    ensures LexLess(a, b) || LexLess(b, a)
    decreases |a|
  {
    if |a| > 0 && |b| > 0 && a[0] == b[0] {
      assert a == [a[0]] + a[1..] && b == [b[0]] + b[1..];
      LexLessTotal(a[1..], b[1..]);
    }
  }

  // ---------------------------------------------------------------------------
  // Decimal numerals: Python's `int(<digit run>)` and `str(<non-negative int>)`.
  // ---------------------------------------------------------------------------

  function DigitValue(c: char): nat
    requires IsDigit(c)
  {
    (c as int) - ('0' as int)
  }

  function DigitChar(d: nat): (c: char)
    requires d < 10
    ensures IsDigit(c) && DigitValue(c) == d
  {
    ('0' as int + d) as char
  }

  /** The value of a run of decimal digits (leading zeros allowed, as for `int("007")`). */
  function DigitsValue(s: string): nat
    requires AllDigits(s)
    decreases |s|
  {
    if |s| == 0 then 0 else DigitsValue(s[..|s| - 1]) * 10 + DigitValue(s[|s| - 1])
  }

  /** `str(n)` for a non-negative integer: shortest decimal numeral. */
  function NatToString(n: nat): (r: string)
    ensures |r| > 0 && AllDigits(r)
    ensures |r| > 1 ==> r[0] != '0'
    decreases n
  {
    if n < 10 then [DigitChar(n)] else NatToString(n / 10) + [DigitChar(n % 10)]
  }

  /** Reading back what `str` printed gives the number again. */
  lemma {:induction false} NatToStringRoundTrip(n: nat)
    ensures DigitsValue(NatToString(n)) == n
    decreases n
  {
    if n >= 10 {
      var r := NatToString(n);
      assert r[..|r| - 1] == NatToString(n / 10);
      NatToStringRoundTrip(n / 10);
    }
  }

  /** A canonical numeral (no leading zero) is what `str` prints for its value. */
  lemma {:induction false} CanonicalNumeralRoundTrip(s: string)
    requires |s| > 0 && AllDigits(s) && (|s| > 1 ==> s[0] != '0')
    ensures NatToString(DigitsValue(s)) == s
    decreases |s|
  {
    if |s| > 1 {
      var p := s[..|s| - 1];
      assert p[0] == s[0];
      CanonicalNumeralRoundTrip(p);
      LeadingDigitNonZero(p);
      assert s == p + [s[|s| - 1]];
    }
  }

  /** A numeral of at least two digits with a non-zero leading digit is at least 10. */
  lemma {:induction false} LeadingDigitNonZero(s: string)
    requires |s| > 0 && AllDigits(s) && s[0] != '0'
    ensures DigitsValue(s) >= 1
    ensures |s| > 1 ==> DigitsValue(s) >= 10
    decreases |s|
  {
    if |s| > 1 {
      var p := s[..|s| - 1];
      assert p[0] == s[0];
      LeadingDigitNonZero(p);
    }
  }

  // ---------------------------------------------------------------------------
  // str.lstrip(c), str.strip(c), str.strip()
  // ---------------------------------------------------------------------------

  /** `c * n`. */
  function Repeat(c: char, n: nat): (r: string)
    ensures |r| == n && forall i :: 0 <= i < n ==> r[i] == c
  {
    if n == 0 then [] else [c] + Repeat(c, n - 1)
  }

  lemma RepeatCons(c: char, k: nat, s: string)
    ensures Repeat(c, k + 1) + s == [c] + (Repeat(c, k) + s)
  {
    assert Repeat(c, k + 1) == [c] + Repeat(c, k);
  }

  /** `s.lstrip(c)` for a single character: drop every leading `c`. */
  function LStripChar(s: string, c: char): (r: string)
    ensures |r| <= |s| && r == s[|s| - |r|..]
    ensures forall i :: 0 <= i < |s| - |r| ==> s[i] == c
    ensures r == [] || r[0] != c
    decreases |s|
  {
    if |s| > 0 && s[0] == c then LStripChar(s[1..], c) else s
  }

  /** A leading `c` makes no difference to `lstrip(c)`. */
  lemma LStripCharCons(s: string, c: char)
    ensures LStripChar([c] + s, c) == LStripChar(s, c)
  {
    assert ([c] + s)[1..] == s;
  }

  /** Any number of leading copies of `c` make no difference to `lstrip(c)`. */
  lemma {:induction false} LStripCharRepeat(s: string, c: char, k: nat)
    ensures LStripChar(Repeat(c, k) + s, c) == LStripChar(s, c)
    decreases k
  {
    if k > 0 {
      var t := Repeat(c, k - 1) + s;
      RepeatCons(c, k - 1, s);
      LStripCharCons(t, c);
      LStripCharRepeat(s, c, k - 1);
    } else {
      assert Repeat(c, k) == [];
      assert Repeat(c, k) + s == s;
    }
  }

  /** `s.rstrip(c)` for a single character. */
  function RStripChar(s: string, c: char): (r: string)
    ensures |r| <= |s| && r == s[..|r|]
    ensures forall i :: |r| <= i < |s| ==> s[i] == c
    ensures r == [] || r[|r| - 1] != c
    decreases |s|
  {
    if |s| > 0 && s[|s| - 1] == c then RStripChar(s[..|s| - 1], c) else s
  }

  /** `s.strip(c)`: drop `c` at both ends. */
  function StripChar(s: string, c: char): (r: string)
    ensures r == [] || (r[0] != c && r[|r| - 1] != c)
  {
    RStripChar(LStripChar(s, c), c)
  }

  /** `s.strip()`: drop whitespace at both ends. */
  function StripSpaces(s: string): (r: string)
    ensures r == [] || (!IsPyWhitespace(r[0]) && !IsPyWhitespace(r[|r| - 1]))
    ensures |r| <= |s|
    decreases |s|
  {
    if |s| > 0 && IsPyWhitespace(s[0]) then StripSpaces(s[1..])
    else if |s| > 0 && IsPyWhitespace(s[|s| - 1]) then StripSpaces(s[..|s| - 1])
    else s
  }

  /** `r` is `s[i..j]`, and everything outside that slice is whitespace. */
  predicate IsStripSlice(s: string, r: string, i: nat, j: nat) {
    && i <= j <= |s| && r == s[i..j]
    && (forall k :: 0 <= k < i ==> IsPyWhitespace(s[k]))
    && (forall k :: j <= k < |s| ==> IsPyWhitespace(s[k]))
  }

  /**
   * `strip` removes whitespace at the two ends and nothing else: the result
   * is a slice of the input with only whitespace before and after it.
   */
  lemma {:induction false} StripSpacesSlice(s: string)
    ensures exists i: nat, j: nat :: IsStripSlice(s, StripSpaces(s), i, j)
    decreases |s|
  {
    if |s| > 0 && IsPyWhitespace(s[0]) {
      StripSpacesSlice(s[1..]);
      var i: nat, j: nat :| IsStripSlice(s[1..], StripSpaces(s[1..]), i, j);
      StripSliceFront(s, StripSpaces(s[1..]), i, j);
    } else if |s| > 0 && IsPyWhitespace(s[|s| - 1]) {
      StripSpacesSlice(s[..|s| - 1]);
      var i: nat, j: nat :| IsStripSlice(s[..|s| - 1], StripSpaces(s[..|s| - 1]), i, j);
      StripSliceBack(s, StripSpaces(s[..|s| - 1]), i, j);
    } else {
      assert IsStripSlice(s, StripSpaces(s), 0, |s|);
    }
  }

  /** A slice of the text after a leading whitespace character is a slice of the whole text. */
  lemma StripSliceFront(s: string, r: string, i: nat, j: nat)
    requires |s| > 0 && IsPyWhitespace(s[0]) && IsStripSlice(s[1..], r, i, j)
    ensures IsStripSlice(s, r, i + 1, j + 1)
  {
    var t := s[1..];
    assert t[i..j] == s[i + 1..j + 1];
    forall k | 0 < k < i + 1 ensures IsPyWhitespace(s[k]) {
      assert s[k] == t[k - 1];
    }
    forall k | j + 1 <= k < |s| ensures IsPyWhitespace(s[k]) {
      assert s[k] == t[k - 1];
    }
  }

  /** A slice of the text before a trailing whitespace character is a slice of the whole text. */
  lemma StripSliceBack(s: string, r: string, i: nat, j: nat)
    requires |s| > 0 && IsPyWhitespace(s[|s| - 1]) && IsStripSlice(s[..|s| - 1], r, i, j)
    ensures IsStripSlice(s, r, i, j)
  {
    var t := s[..|s| - 1];
    assert t[i..j] == s[i..j];
    forall k | 0 <= k < i ensures IsPyWhitespace(s[k]) {
      assert s[k] == t[k];
    }
    forall k | j <= k < |s| ensures IsPyWhitespace(s[k]) {
      if k < |t| {
        assert s[k] == t[k];
      }
    }
  }

  /** Text that neither starts nor ends with whitespace is left alone by `strip`. */
  lemma StripSpacesUnchanged(s: string)
    requires |s| > 0 && !IsPyWhitespace(s[0]) && !IsPyWhitespace(s[|s| - 1])
    ensures StripSpaces(s) == s
  {
  }

  // ---------------------------------------------------------------------------
  // str.split(sep) and its inverse, sep.join(parts)
  // ---------------------------------------------------------------------------

  function Join(parts: seq<string>, sep: char): string
    requires |parts| > 0
    decreases |parts|
  {
    if |parts| == 1 then parts[0] else parts[0] + [sep] + Join(parts[1..], sep)
  }

  /** `s.split(sep)`: always at least one part, none containing `sep`, joining back to `s`. */
  function Split(s: string, sep: char): (parts: seq<string>)
    ensures |parts| > 0
    ensures forall i :: 0 <= i < |parts| ==> sep !in parts[i]
    ensures Join(parts, sep) == s
    decreases |s|
  {
    if |s| == 0 then [""]
    else
      var rest := Split(s[1..], sep);
      if s[0] == sep then [""] + rest
      else
        assert Join(rest, sep) == s[1..];
        JoinConsFirst(rest, sep, s[0]);
        [[s[0]] + rest[0]] + rest[1..]
  }

  /** A joined list starts with its first part. */
  lemma JoinHead(parts: seq<string>, sep: char)
    requires |parts| > 0
    ensures |Join(parts, sep)| >= |parts[0]| && Join(parts, sep)[..|parts[0]|] == parts[0]
    ensures parts[0] == [] && |parts| > 1 ==> Join(parts, sep)[0] == sep
  {
    if |parts| > 1 {
      assert Join(parts, sep) == parts[0] + [sep] + Join(parts[1..], sep);
    }
  }

  /** The first and last characters of a join of non-empty parts. */
  lemma {:induction false} JoinEdges(parts: seq<string>, sep: char)
    requires |parts| > 0 && forall i :: 0 <= i < |parts| ==> |parts[i]| > 0
    ensures var j := Join(parts, sep);
      |j| > 0 && j[0] == parts[0][0] && j[|j| - 1] == parts[|parts| - 1][|parts[|parts| - 1]| - 1]
    decreases |parts|
  {
    if |parts| > 1 {
      var rest := parts[1..];
      JoinEdges(rest, sep);
      assert rest[|rest| - 1] == parts[|parts| - 1];
    }
  }

  /** Putting a character in front of the first part puts it in front of the joined string. */
  lemma {:induction false} JoinConsFirst(parts: seq<string>, sep: char, c: char)
    requires |parts| > 0
    ensures Join([[c] + parts[0]] + parts[1..], sep) == [c] + Join(parts, sep)
  {
    var q := [[c] + parts[0]] + parts[1..];
    assert q[1..] == parts[1..];
  }

  /** Splitting what was joined gives the parts back, when no part holds the separator. */
  lemma {:induction false} SplitJoin(parts: seq<string>, sep: char)
    requires |parts| > 0
    requires forall i :: 0 <= i < |parts| ==> sep !in parts[i]
    ensures Split(Join(parts, sep), sep) == parts
    decreases |parts|, |parts[0]|
  {
    var p := parts[0];
    if |p| == 0 {
      if |parts| > 1 {
        var rest := parts[1..];
        SplitJoin(rest, sep);
        assert Join(parts, sep) == [sep] + Join(rest, sep);
        assert ([sep] + Join(rest, sep))[1..] == Join(rest, sep);
      }
    } else {
      var q := [p[1..]] + parts[1..];
      assert q[1..] == parts[1..];
      assert forall i :: 0 <= i < |q| ==> sep !in q[i] by {
        forall i | 0 <= i < |q| ensures sep !in q[i] {
          if i > 0 { assert q[i] == parts[i]; }
        }
      }
      SplitJoin(q, sep);
      JoinConsFirst(q, sep, p[0]);
      assert [p[0]] + p[1..] == p;
      assert [[p[0]] + q[0]] + q[1..] == parts;
      var j := Join(parts, sep);
      assert j == [p[0]] + Join(q, sep);
      assert j[1..] == Join(q, sep);
      assert j[0] == p[0] && p[0] != sep;
    }
  }

  /** `s.split(sep)[-1]`: the text after the last separator. */
  function LastSegment(s: string, sep: char): (r: string)
    ensures sep !in r
    ensures |r| <= |s| && r == s[|s| - |r|..]
    ensures |r| < |s| ==> s[|s| - |r| - 1] == sep
    decreases |s|
  {
    if sep !in s then s
    else if sep !in s[1..] then
      assert s == [s[0]] + s[1..];
      s[1..]
    else LastSegment(s[1..], sep)
  }

  // ---------------------------------------------------------------------------
  // str.replace(old, new): every non-overlapping occurrence, left to right.
  // ---------------------------------------------------------------------------

  function ReplaceAll(s: string, pat: string, rep: string): (r: string)
    requires |pat| > 0
    decreases |s|
  {
    if |s| < |pat| then s
    else if s[..|pat|] == pat then rep + ReplaceAll(s[|pat|..], pat, rep)
    else [s[0]] + ReplaceAll(s[1..], pat, rep)
  }

  /** No occurrence of `pat` in `s` starts before index `n`. */
  predicate NoOccurrenceBefore(s: string, pat: string, n: nat) {
    forall i: nat :: i < n ==> !OccursAt(s, pat, i)
  }

  /** Without an occurrence of `pat`, `replace` changes nothing. */
  lemma {:induction false} ReplaceAllNoOccurrence(s: string, pat: string, rep: string)
    requires |pat| > 0
    requires NoOccurrenceBefore(s, pat, |s|)
    ensures ReplaceAll(s, pat, rep) == s
    decreases |s|
  {
    assert s + [] == s;
    ReplaceAllAppend(s, [], pat, rep);
  }

  /**
   * Replacing in `a + b` replaces in `a` and in `b` separately when no
   * occurrence of `pat` in `a + b` starts inside `a`.
   */
  lemma {:induction false} ReplaceAllAppend(a: string, b: string, pat: string, rep: string)
    requires |pat| > 0
    requires NoOccurrenceBefore(a + b, pat, |a|)
    ensures ReplaceAll(a + b, pat, rep) == a + ReplaceAll(b, pat, rep)
    decreases |a|
  {
    if |a| == 0 {
      assert a + b == b;
    } else {
      var s := a + b;
      var t := a[1..] + b;
      assert s[1..] == t;
      NoOccurrenceShift(s, pat, |a| - 1);
      ReplaceAllAppend(a[1..], b, pat, rep);
      ReplaceAllStep(s, pat, rep);
      assert a == [a[0]] + a[1..];
    }
  }

  /** Dropping the first character keeps a prefix free of occurrences, one shorter. */
  lemma NoOccurrenceShift(s: string, pat: string, n: nat)
    requires |s| > 0 && NoOccurrenceBefore(s, pat, n + 1)
    ensures NoOccurrenceBefore(s[1..], pat, n)
  {
    var t := s[1..];
    forall i: nat | i < n ensures !OccursAt(t, pat, i) {
      assert !OccursAt(s, pat, i + 1);
      if i + |pat| <= |t| {
        assert t[i..i + |pat|] == s[i + 1..i + 1 + |pat|];
      }
    }
  }

  /** Without an occurrence at the front, the first character is kept and the scan moves on by one. */
  lemma ReplaceAllStep(s: string, pat: string, rep: string)
    requires |pat| > 0 && |s| > 0 && !OccursAt(s, pat, 0)
    ensures ReplaceAll(s, pat, rep) == [s[0]] + ReplaceAll(s[1..], pat, rep)
  {
    if |s| >= |pat| {
      assert s[..|pat|] != pat;
    } else {
      ReplaceAllShort(s[1..], pat, rep);
      assert s == [s[0]] + s[1..];
    }
  }

  /** A string shorter than the pattern is left alone. */
  lemma ReplaceAllShort(s: string, pat: string, rep: string)
    requires |pat| > 0 && |s| < |pat|
    ensures ReplaceAll(s, pat, rep) == s
  {
  }

  /** An occurrence at the front is replaced and the scan resumes after it. */
  lemma ReplaceAllAtFront(pat: string, b: string, rep: string)
    requires |pat| > 0
    ensures ReplaceAll(pat + b, pat, rep) == rep + ReplaceAll(b, pat, rep)
  {
    assert (pat + b)[..|pat|] == pat;
    assert (pat + b)[|pat|..] == b;
  }
}
