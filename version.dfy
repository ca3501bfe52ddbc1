/**
 * `Version` of the registry manager: the raw text a version was written as,
 * together with its semantic-version reading when the text is one.
 * Equality is on the raw text; ordering uses semantic-version precedence when
 * both sides parse and code-point string order otherwise.
 */
module Versions {
  import opened Wrappers
  import opened Text
  import opened Json
  import opened Errors
  import SemVer

  datatype Version = Version(raw: string, sem: Option<SemVer.SemVer>)

  /** What `Version.__init__` establishes: the semantic reading is that of the raw text. */
  predicate Valid(v: Version) {
    v.sem == SemVer.Parse(v.raw)
  }

  /** `Version(s)` for a string `s`. */
  function FromString(s: string): (v: Version)
    ensures Valid(v)
  {
    Version(s, SemVer.Parse(s))
  }

  /** `str(v)`. */
  function Str(v: Version): string {
    v.raw
  }

  /** `Version(x)` for a decoded JSON value: anything but a string is a `TypeError`. */
  function FromJson(j: Json): (r: Result<Version, Error>)
    ensures r.Success? <==> j.JStr?
    ensures r.Failure? ==> r.error == TypeError
    ensures r.Success? ==> Valid(r.value) && Str(r.value) == j.s
  {
    if j.JStr? then Success(FromString(j.s)) else Failure(TypeError)
  }

  /** `v.semver is not None`. */
  predicate IsSemVer(v: Version) {
    v.sem.Some?
  }

  /** `a < b`. */
  predicate Less(a: Version, b: Version) {
    if a.sem.Some? && b.sem.Some? then SemVer.Less(a.sem.value, b.sem.value)
    else LexLess(a.raw, b.raw)
  }

  /** `a == b`: the raw texts, not the precedence. */
  predicate Eq(a: Version, b: Version) {
    a.raw == b.raw
  }

  // ---------------------------------------------------------------------------
  // Construction and printing are inverse
  // ---------------------------------------------------------------------------

  lemma StrOfFromString(s: string)
    ensures Str(FromString(s)) == s
  {
  }

  /** A valid version is rebuilt from its printed text. */
  lemma FromStringOfStr(v: Version)
    requires Valid(v)
    ensures FromString(Str(v)) == v
  {
  }

  /** On valid versions raw equality is identity: `Eq` never merges two values. */
  lemma EqIsIdentity(a: Version, b: Version)
    requires Valid(a) && Valid(b)
    ensures Eq(a, b) <==> a == b
  {
  }

  // ---------------------------------------------------------------------------
  // Order properties
  // ---------------------------------------------------------------------------

  lemma LessIrreflexive(a: Version)
    ensures !Less(a, a)
  {
    if a.sem.Some? {
      SemVer.LessIrreflexive(a.sem.value);
    } else {
      LexLessIrreflexive(a.raw);
    }
  }

  /** Both sides choose the same comparison, so `<` is asymmetric for every pair. */
  lemma LessAsymmetric(a: Version, b: Version)
    ensures !(Less(a, b) && Less(b, a))
  {
    if a.sem.Some? && b.sem.Some? {
      SemVer.LessTrichotomy(a.sem.value, b.sem.value);
    } else if Less(a, b) {
      LexLessAsymmetric(a.raw, b.raw);
    }
  }

  /** Transitivity holds when all three parse, or when none of them does. */
  lemma LessTransitive(a: Version, b: Version, c: Version)
    requires (IsSemVer(a) && IsSemVer(b) && IsSemVer(c)) || (!IsSemVer(a) && !IsSemVer(b) && !IsSemVer(c))
    requires Less(a, b) && Less(b, c)
    ensures Less(a, c)
  {
    if IsSemVer(a) {
      SemVer.LessTransitive(a.sem.value, b.sem.value, c.sem.value);
    } else {
      LexLessTransitive(a.raw, b.raw, c.raw);
    }
  }

  /** Two versions neither of which is below the other have the same text, or the same precedence. */
  lemma LessTotal(a: Version, b: Version)
    ensures || Less(a, b) || Less(b, a) || Eq(a, b)
            || (IsSemVer(a) && IsSemVer(b) && SemVer.SamePrecedence(a.sem.value, b.sem.value))
  {
    if a.sem.Some? && b.sem.Some? {
      SemVer.LessTrichotomy(a.sem.value, b.sem.value);
    } else if a.raw != b.raw {
      LexLessTotal(a.raw, b.raw);
    }
  }

  /** Among versions that all parse, or none of which does, "not below" is transitive too. */
  lemma NotLessTransitive(a: Version, b: Version, c: Version)
    requires (IsSemVer(a) && IsSemVer(b) && IsSemVer(c)) || (!IsSemVer(a) && !IsSemVer(b) && !IsSemVer(c))
    requires !Less(a, b) && !Less(b, c)
    ensures !Less(a, c)
  {
    if IsSemVer(a) {
      SemVer.LessTrichotomy(a.sem.value, b.sem.value);
      SemVer.LessTrichotomy(b.sem.value, c.sem.value);
      if SemVer.Less(b.sem.value, a.sem.value) && SemVer.Less(c.sem.value, b.sem.value) {
        SemVer.LessTransitive(c.sem.value, b.sem.value, a.sem.value);
        SemVer.LessTrichotomy(a.sem.value, c.sem.value);
      } else if SemVer.Less(b.sem.value, a.sem.value) {
        SemVer.LessTrichotomy(a.sem.value, c.sem.value);
      } else if SemVer.Less(c.sem.value, b.sem.value) {
        SemVer.LessTrichotomy(a.sem.value, c.sem.value);
      }
    } else {
      if a.raw != b.raw {
        LexLessTotal(a.raw, b.raw);
      }
      if b.raw != c.raw {
        LexLessTotal(b.raw, c.raw);
      }
      if LexLess(b.raw, a.raw) && LexLess(c.raw, b.raw) {
        LexLessTransitive(c.raw, b.raw, a.raw);
        LexLessAsymmetric(c.raw, a.raw);
      } else if LexLess(a.raw, c.raw) {
        LexLessAsymmetric(a.raw, c.raw);
      }
    }
  }

  // ---------------------------------------------------------------------------
  // Concrete versions
  // ---------------------------------------------------------------------------

  /** A text without '+' and '-' whose core is not three numerals does not parse. */
  lemma RejectedCore(s: string)
    requires '+' !in s && '-' !in s && SemVer.ParseCore(s).None?
    ensures SemVer.Parse(s).None?
  {
    SemVer.CutAtFirstAbsent(s, '+');
    SemVer.CutAtFirstAbsent(s, '-');
  }

  lemma ParsesAs(s: string, v: SemVer.SemVer)
    requires SemVer.WellFormed(v) && SemVer.Format(v) == s
    ensures FromString(s).sem == Some(v)
  {
    SemVer.ParseFormat(v);
  }

  /** The canonical text of a plain single-digit version. */
  lemma PlainText(ma: nat, mi: nat, pa: nat)
    requires ma < 10 && mi < 10 && pa < 10
    ensures FromString([DigitChar(ma), '.', DigitChar(mi), '.', DigitChar(pa)]).sem
      == Some(SemVer.SemVer(ma, mi, pa, [], []))
  {
    var v := SemVer.SemVer(ma, mi, pa, [], []);
    assert NatToString(ma) == [DigitChar(ma)];
    assert NatToString(mi) == [DigitChar(mi)];
    assert NatToString(pa) == [DigitChar(pa)];
    assert SemVer.FormatPre([]) == "" && SemVer.FormatBuild([]) == "";
    assert SemVer.Format(v) == [DigitChar(ma), '.', DigitChar(mi), '.', DigitChar(pa)];
    ParsesAs(SemVer.Format(v), v);
  }

  lemma OneZeroOneX(s: string)
    requires s == "1.0.1x"
    ensures !IsSemVer(FromString(s))
  {
    assert s == "1" + ['.'] + "0" + ['.'] + "1x";
    SemVer.Join3("1", "0", "1x", '.');
    SplitJoin(["1", "0", "1x"], '.');
    assert !IsDigit('x');
    assert SemVer.ParseNumeral("1x").None?;
    RejectedCore(s);
  }

  lemma LetterA()
    ensures !IsSemVer(FromString("A")) && !IsSemVer(FromString("B"))
  {
    SplitJoin(["A"], '.');
    SplitJoin(["B"], '.');
    RejectedCore("A");
    RejectedCore("B");
  }

  lemma Digits()
    ensures DigitChar(0) == '0' && DigitChar(1) == '1' && DigitChar(2) == '2' && DigitChar(9) == '9'
  {
  }

  lemma Plain(s: string, ma: nat, mi: nat, pa: nat)
    requires ma < 10 && mi < 10 && pa < 10
    requires s == [DigitChar(ma), '.', DigitChar(mi), '.', DigitChar(pa)]
    ensures FromString(s).sem == Some(SemVer.SemVer(ma, mi, pa, [], []))
  {
    PlainText(ma, mi, pa);
  }

  lemma Text1010(s: string)
    requires s == "1.0.10"
    ensures FromString(s).sem == Some(SemVer.SemVer(1, 0, 10, [], []))
  {
    var v := SemVer.SemVer(1, 0, 10, [], []);
    Digits();
    assert NatToString(10) == NatToString(1) + [DigitChar(0)] == "10";
    assert SemVer.FormatCore(v) == "1" + "." + "0" + "." + "10";
    assert SemVer.Format(v) == SemVer.FormatCore(v);
    ParsesAs(s, v);
  }

  /** `text` followed by one build identifier `b`. */
  lemma WithBuild(v: SemVer.SemVer, b: string)
    requires SemVer.WellFormed(v) && v.pre == [] && v.build == [] && SemVer.WellFormedBuildIdent(b)
    ensures FromString(SemVer.Format(v) + "+" + b).sem == Some(v.(build := [b]))
  {
    var w := v.(build := [b]);
    assert SemVer.FormatBuild([b]) == "+" + b;
    assert SemVer.Format(w) == SemVer.Format(v) + "+" + b;
    ParsesAs(SemVer.Format(w), w);
  }

  /** `text` followed by the pre-release `-p` with one alphanumeric identifier. */
  lemma WithPre(v: SemVer.SemVer, p: string)
    requires SemVer.WellFormed(v) && v.pre == [] && v.build == []
    requires SemVer.WellFormedIdent(SemVer.AlphaNum(p))
    ensures FromString(SemVer.Format(v) + "-" + p).sem == Some(v.(pre := [SemVer.AlphaNum(p)]))
  {
    var w := v.(pre := [SemVer.AlphaNum(p)]);
    assert SemVer.FormatIdents(w.pre) == [p];
    assert SemVer.FormatPre(w.pre) == "-" + p;
    assert SemVer.Format(w) == SemVer.Format(v) + "-" + p;
    ParsesAs(SemVer.Format(w), w);
  }

  /**
   * When parsed and unparsed versions are mixed, `<` is not an order:
   * 1.0.9 < 1.0.10 by precedence, 1.0.10 < 1.0.1x and 1.0.1x < 1.0.9 by text.
   */
  lemma MixedLessCycle()
    ensures var a, b, c := FromString("1.0.9"), FromString("1.0.10"), FromString("1.0.1x");
      Less(a, b) && Less(b, c) && Less(c, a)
  {
    Digits();
    Plain("1.0.9", 1, 0, 9);
    Text1010("1.0.10");
    OneZeroOneX("1.0.1x");
  }

  /** Two different build suffixes on one release: same precedence, different versions. */
  lemma BuildsSamePrecedence(v: SemVer.SemVer, b1: string, b2: string)
    requires SemVer.WellFormed(v) && v.pre == [] && v.build == []
    requires SemVer.WellFormedBuildIdent(b1) && SemVer.WellFormedBuildIdent(b2) && b1 != b2
    ensures var a, b := FromString(SemVer.Format(v) + "+" + b1), FromString(SemVer.Format(v) + "+" + b2);
      !Less(a, b) && !Less(b, a) && !Eq(a, b)
  {
    WithBuild(v, b1);
    WithBuild(v, b2);
    var p := SemVer.Format(v) + "+";
    assert SemVer.Format(v) + "+" + b1 == p + b1 && SemVer.Format(v) + "+" + b2 == p + b2;
    assert (p + b1)[|p|..] == b1 && (p + b2)[|p|..] == b2;
  }

  /** Two different texts of the same precedence: neither is below the other, yet they differ. */
  lemma SamePrecedenceNotEqual(x: string, y: string)
    requires x == "1.0.0+a" && y == "1.0.0+b"
    ensures var a, b := FromString(x), FromString(y);
      !Less(a, b) && !Less(b, a) && !Eq(a, b)
  {
    var v, p := OneZeroZero(x);
    assert x == p + "+" + "a" && y == p + "+" + "b";
    BuildsSamePrecedence(v, "a", "b");
  }

  /** The release 1.0.0 and its text, as the prefix of `s`. */
  lemma OneZeroZero(s: string) returns (v: SemVer.SemVer, p: string)
    requires |s| >= 5 && s[..5] == "1.0.0"
    ensures v == SemVer.SemVer(1, 0, 0, [], []) && SemVer.Format(v) == p && p == s[..5]
  {
    v := SemVer.SemVer(1, 0, 0, [], []);
    p := s[..5];
    Digits();
    PlainText(1, 0, 0);
  }

  /** A release with a pre-release suffix sorts below the release itself. */
  lemma PreBeforeRelease(v: SemVer.SemVer, p: string)
    requires SemVer.WellFormed(v) && v.pre == [] && v.build == []
    requires SemVer.WellFormedIdent(SemVer.AlphaNum(p))
    ensures Less(FromString(SemVer.Format(v) + "-" + p), FromString(SemVer.Format(v)))
  {
    WithPre(v, p);
    ParsesAs(SemVer.Format(v), v);
  }

  lemma PlainExamples()
    ensures Less(FromString("1.0.0"), FromString("1.0.1"))
    ensures Less(FromString("1.0.0"), FromString("1.1.0"))
    ensures Less(FromString("1.0.0"), FromString("2.0.0"))
  {
    Digits();
    Plain("1.0.0", 1, 0, 0);
    Plain("1.0.1", 1, 0, 1);
    Plain("1.1.0", 1, 1, 0);
    Plain("2.0.0", 2, 0, 0);
  }

  lemma PreReleaseExample(x: string, y: string)
    requires x == "1.0.0-alpha" && y == "1.0.0"
    ensures Less(FromString(x), FromString(y))
  {
    var v, p := OneZeroZero(x);
    assert x == p + "-" + "alpha" && y == p;
    AlphaIdent();
    PreBeforeRelease(v, "alpha");
  }

  lemma AlphaIdent()
    ensures SemVer.WellFormedIdent(SemVer.AlphaNum("alpha"))
  {
    assert !IsDigit("alpha"[0]);
    assert SemVer.AllIdentChars("alpha") by {
      forall i | 0 <= i < 5 ensures SemVer.IsIdentChar("alpha"[i]) {
        assert 'a' <= "alpha"[i] <= 'z';
      }
    }
  }

  /** The orderings the version tests check. */
  lemma VersionSmallerExamples()
    ensures Less(FromString("1.0.0"), FromString("1.0.1"))
    ensures Less(FromString("1.0.0"), FromString("1.1.0"))
    ensures Less(FromString("1.0.0"), FromString("2.0.0"))
    ensures Less(FromString("1.0.0-alpha"), FromString("1.0.0"))
    ensures Less(FromString("A"), FromString("B"))
  {
    PlainExamples();
    PreReleaseExample("1.0.0-alpha", "1.0.0");
    LetterA();
  }
}
