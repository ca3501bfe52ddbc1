/**
 * Semantic Versioning 2.0.0: the parser and the precedence order that the
 * registry manager obtains from its `semver` dependency.
 *
 *  - section 2: a normal version is MAJOR.MINOR.PATCH, non-negative integers
 *    without leading zeros;
 *  - section 9: a pre-release is a hyphen and dot-separated identifiers of
 *    [0-9A-Za-z-], none empty, numeric ones without leading zeros;
 *  - section 10: build metadata is a plus sign and dot-separated identifiers
 *    of [0-9A-Za-z-], none empty; it does not take part in precedence;
 *  - section 11: precedence.
 */
module SemVer {
  import opened Wrappers
  import opened Text

  /** A pre-release identifier (section 9). */
  datatype Ident = Numeric(n: nat) | AlphaNum(s: string)

  /** A parsed semantic version (sections 2, 9 and 10). */
  datatype SemVer = SemVer(major: nat, minor: nat, patch: nat, pre: seq<Ident>, build: seq<string>)

  // ---------------------------------------------------------------------------
  // Lexical classes
  // ---------------------------------------------------------------------------

  predicate IsIdentChar(c: char) {
    ('0' <= c <= '9') || ('A' <= c <= 'Z') || ('a' <= c <= 'z') || c == '-'
  }

  predicate AllIdentChars(s: string) {
    forall i :: 0 <= i < |s| ==> IsIdentChar(s[i])
  }

  /** A numeric identifier: digits only, and no leading zero unless it is "0". */
  predicate IsCanonicalNumeral(s: string) {
    |s| > 0 && AllDigits(s) && (|s| > 1 ==> s[0] != '0')
  }

  /** Well-formed pre-release identifier: alphanumeric ones hold a non-digit. */
  predicate WellFormedIdent(id: Ident) {
    match id
    case Numeric(_) => true
    case AlphaNum(s) => |s| > 0 && AllIdentChars(s) && !AllDigits(s)
  }

  predicate WellFormedBuildIdent(s: string) {
    |s| > 0 && AllIdentChars(s)
  }

  /** Every value the parser can produce, and only those. */
  predicate WellFormed(v: SemVer) {
    && (forall i :: 0 <= i < |v.pre| ==> WellFormedIdent(v.pre[i]))
    && (forall i :: 0 <= i < |v.build| ==> WellFormedBuildIdent(v.build[i]))
  }

  // ---------------------------------------------------------------------------
  // Parsing
  // ---------------------------------------------------------------------------

  /** `s` cut at the first `c`: the text before it and, if `c` occurs, the text after it. */
  function CutAtFirst(s: string, c: char): (r: (string, Option<string>))
    ensures c !in r.0
    ensures r.1.None? ==> r.0 == s && c !in s
    ensures r.1.Some? ==> s == r.0 + [c] + r.1.value
    decreases |s|
  {
    if |s| == 0 then ("", None)
    else if s[0] == c then ("", Some(s[1..]))
    else
      var rest := CutAtFirst(s[1..], c);
      ([s[0]] + rest.0, rest.1)
  }

  lemma {:induction false} CutAtFirstOf(a: string, c: char, b: string)
    requires c !in a
    ensures CutAtFirst(a + [c] + b, c) == (a, Some(b))
    decreases |a|
  {
    if |a| > 0 {
      assert (a + [c] + b)[1..] == a[1..] + [c] + b;
      CutAtFirstOf(a[1..], c, b);
      assert [a[0]] + a[1..] == a;
    }
  }

  lemma {:induction false} CutAtFirstAbsent(a: string, c: char)
    requires c !in a
    ensures CutAtFirst(a, c) == (a, None)
    decreases |a|
  {
    if |a| > 0 {
      CutAtFirstAbsent(a[1..], c);
      assert [a[0]] + a[1..] == a;
    }
  }

  function ParseNumeral(s: string): (r: Option<nat>)
    ensures r.Some? <==> IsCanonicalNumeral(s)
  {
    if IsCanonicalNumeral(s) then Some(DigitsValue(s)) else None
  }

  function ParseIdent(s: string): (r: Option<Ident>)
    ensures r.Some? ==> WellFormedIdent(r.value)
  {
    if |s| == 0 || !AllIdentChars(s) then None
    else if AllDigits(s) then (if IsCanonicalNumeral(s) then Some(Numeric(DigitsValue(s))) else None)
    else Some(AlphaNum(s))
  }

  function ParseIdents(parts: seq<string>): (r: Option<seq<Ident>>)
    ensures r.Some? ==> |r.value| == |parts|
    ensures r.Some? ==> forall i :: 0 <= i < |r.value| ==> WellFormedIdent(r.value[i])
    decreases |parts|
  {
    if |parts| == 0 then Some([])
    else match (ParseIdent(parts[0]), ParseIdents(parts[1..]))
      case (Some(id), Some(ids)) => Some([id] + ids)
      case _ => None
  }

  predicate AllBuildIdents(parts: seq<string>) {
    forall i :: 0 <= i < |parts| ==> WellFormedBuildIdent(parts[i])
  }

  /** MAJOR.MINOR.PATCH (section 2). */
  function ParseCore(core: string): Option<(nat, nat, nat)> {
    var parts := Split(core, '.');
    if |parts| != 3 then None
    else match (ParseNumeral(parts[0]), ParseNumeral(parts[1]), ParseNumeral(parts[2]))
      case (Some(ma), Some(mi), Some(pa)) => Some((ma, mi, pa))
      case _ => None
  }

  /** The text after '-' (section 9), if there was one. */
  function ParsePre(preText: Option<string>): Option<seq<Ident>> {
    if preText.None? then Some([]) else ParseIdents(Split(preText.value, '.'))
  }

  /** The text after '+' (section 10), if there was one. */
  function ParseBuild(buildText: Option<string>): Option<seq<string>> {
    if buildText.None? then Some([])
    else
      var parts := Split(buildText.value, '.');
      if AllBuildIdents(parts) then Some(parts) else None
  }

  /** `semver.Version.parse`: `None` stands for its `ValueError`. */
  function Parse(s: string): (r: Option<SemVer>)
    ensures r.Some? ==> WellFormed(r.value)
  {
    var cut := CutAtFirst(s, '+');
    var cut2 := CutAtFirst(cut.0, '-');
    var core := ParseCore(cut2.0);
    var pre := ParsePre(cut2.1);
    var build := ParseBuild(cut.1);
    if core.Some? && pre.Some? && build.Some? then
      Some(SemVer(core.value.0, core.value.1, core.value.2, pre.value, build.value))
    else None
  }

  // ---------------------------------------------------------------------------
  // Formatting: the canonical text of a version, the inverse of Parse
  // ---------------------------------------------------------------------------

  function FormatIdent(id: Ident): string {
    match id
    case Numeric(n) => NatToString(n)
    case AlphaNum(s) => s
  }

  function FormatIdents(ids: seq<Ident>): (r: seq<string>)
    ensures |r| == |ids|
    ensures forall i :: 0 <= i < |ids| ==> r[i] == FormatIdent(ids[i])
    decreases |ids|
  {
    if |ids| == 0 then [] else [FormatIdent(ids[0])] + FormatIdents(ids[1..])
  }

  function FormatCore(v: SemVer): string {
    NatToString(v.major) + "." + NatToString(v.minor) + "." + NatToString(v.patch)
  }

  function FormatPre(pre: seq<Ident>): string {
    if pre == [] then "" else "-" + Join(FormatIdents(pre), '.')
  }

  function FormatBuild(build: seq<string>): string {
    if build == [] then "" else "+" + Join(build, '.')
  }

  function Format(v: SemVer): string {
    FormatCore(v) + FormatPre(v.pre) + FormatBuild(v.build)
  }

  // ---------------------------------------------------------------------------
  // Round trips
  // ---------------------------------------------------------------------------

  lemma DigitsHaveNoSeparator(s: string, c: char)
    requires AllDigits(s) && !IsDigit(c)
    ensures c !in s
  {
  }

  lemma {:induction false} JoinExcludes(parts: seq<string>, sep: char, c: char)
    requires |parts| > 0 && c != sep
    requires forall i :: 0 <= i < |parts| ==> c !in parts[i]
    ensures c !in Join(parts, sep)
    decreases |parts|
  {
    if |parts| > 1 {
      JoinExcludes(parts[1..], sep, c);
    }
  }

  lemma ParseIdentOfFormat(id: Ident)
    requires WellFormedIdent(id)
    ensures ParseIdent(FormatIdent(id)) == Some(id)
  {
    if id.Numeric? {
      var t := NatToString(id.n);
      assert AllIdentChars(t) by {
        forall k | 0 <= k < |t| ensures IsIdentChar(t[k]) {
          assert IsDigit(t[k]);
        }
      }
      NatToStringRoundTrip(id.n);
    }
  }

  lemma {:induction false} ParseIdentsOfFormat(ids: seq<Ident>)
    requires forall i :: 0 <= i < |ids| ==> WellFormedIdent(ids[i])
    ensures ParseIdents(FormatIdents(ids)) == Some(ids)
    decreases |ids|
  {
    if |ids| > 0 {
      ParseIdentsOfFormat(ids[1..]);
      ParseIdentOfFormat(ids[0]);
      assert [ids[0]] + ids[1..] == ids;
    }
  }

  lemma {:induction false} FormatIdentsOfParse(parts: seq<string>)
    requires ParseIdents(parts).Some?
    ensures FormatIdents(ParseIdents(parts).value) == parts
    decreases |parts|
  {
    if |parts| > 0 {
      FormatIdentsOfParse(parts[1..]);
      var id := ParseIdent(parts[0]).value;
      if id.Numeric? {
        CanonicalNumeralRoundTrip(parts[0]);
      }
      var ids := ParseIdents(parts).value;
      assert ids == [id] + ParseIdents(parts[1..]).value;
      assert FormatIdents(ids) == [FormatIdent(id)] + FormatIdents(ParseIdents(parts[1..]).value);
      assert [parts[0]] + parts[1..] == parts;
    }
  }

  lemma Join3(a: string, b: string, c: string, sep: char)
    ensures Join([a, b, c], sep) == a + [sep] + b + [sep] + c
  {
    var parts := [a, b, c];
    assert parts[1..] == [b, c];
    assert parts[1..][1..] == [c];
    assert Join([c], sep) == c;
    assert Join([b, c], sep) == b + [sep] + c;
  }

  /** The three numerals of a core are joined by dots; splitting gives them back. */
  lemma SplitCore(a: string, b: string, c: string)
    requires AllDigits(a) && AllDigits(b) && AllDigits(c)
    ensures Split(a + "." + b + "." + c, '.') == [a, b, c]
  {
    Join3(a, b, c, '.');
    SplitJoin([a, b, c], '.');
  }

  lemma CoreHasNoSign(v: SemVer)
    ensures '+' !in FormatCore(v) && '-' !in FormatCore(v)
  {
    var ma, mi, pa := NatToString(v.major), NatToString(v.minor), NatToString(v.patch);
    Join3(ma, mi, pa, '.');
    JoinExcludes([ma, mi, pa], '.', '+');
    JoinExcludes([ma, mi, pa], '.', '-');
  }

  lemma ParseCoreOfFormat(v: SemVer)
    ensures ParseCore(FormatCore(v)) == Some((v.major, v.minor, v.patch))
  {
    SplitCore(NatToString(v.major), NatToString(v.minor), NatToString(v.patch));
    NatToStringRoundTrip(v.major);
    NatToStringRoundTrip(v.minor);
    NatToStringRoundTrip(v.patch);
  }

  /** The text of well-formed pre-release identifiers holds no '+' and splits back at the dots. */
  lemma PreTextOfFormat(pre: seq<Ident>)
    requires |pre| > 0
    requires forall i :: 0 <= i < |pre| ==> WellFormedIdent(pre[i])
    ensures '+' !in Join(FormatIdents(pre), '.')
    ensures ParseIdents(Split(Join(FormatIdents(pre), '.'), '.')) == Some(pre)
  {
    var ids := FormatIdents(pre);
    forall i | 0 <= i < |ids| ensures '+' !in ids[i] && '.' !in ids[i] {
      assert WellFormedIdent(pre[i]);
      if pre[i].Numeric? {
        DigitsHaveNoSeparator(ids[i], '+');
        DigitsHaveNoSeparator(ids[i], '.');
      }
    }
    JoinExcludes(ids, '.', '+');
    SplitJoin(ids, '.');
    ParseIdentsOfFormat(pre);
  }

  lemma IdentCharsExclude(s: string, c: char)
    requires AllIdentChars(s) && !IsIdentChar(c)
    ensures c !in s
  {
  }

  /** Formatting a well-formed version and parsing the text gives the version back. */
  lemma ParseFormat(v: SemVer)
    requires WellFormed(v)
    ensures Parse(Format(v)) == Some(v)
  {
    var main := FormatCore(v) + FormatPre(v.pre);
    CutOfMain(v);
    CutOfFormat(v);
    assert Format(v) == main + FormatBuild(v.build);
    ParseCoreOfFormat(v);
  }

  /** Cutting the text without its build part at the first `-` gives back the core and the pre-release. */
  lemma CutOfMain(v: SemVer)
    requires WellFormed(v)
    ensures var main := FormatCore(v) + FormatPre(v.pre);
      && CutAtFirst(main, '-').0 == FormatCore(v)
      && ParsePre(CutAtFirst(main, '-').1) == Some(v.pre)
      && '+' !in main
  {
    var core := FormatCore(v);
    var main := core + FormatPre(v.pre);
    CoreHasNoSign(v);
    if v.pre != [] {
      PreTextOfFormat(v.pre);
      var t := Join(FormatIdents(v.pre), '.');
      assert main == core + ['-'] + t;
      CutAtFirstOf(core, '-', t);
    } else {
      assert main == core;
      CutAtFirstAbsent(core, '-');
    }
  }

  /** Cutting the canonical text at the first `+` gives back the text before the build part and the build. */
  lemma CutOfFormat(v: SemVer)
    requires WellFormed(v)
    requires '+' !in FormatCore(v) + FormatPre(v.pre)
    ensures CutAtFirst(Format(v), '+').0 == FormatCore(v) + FormatPre(v.pre)
    ensures ParseBuild(CutAtFirst(Format(v), '+').1) == Some(v.build)
  {
    var main := FormatCore(v) + FormatPre(v.pre);
    if v.build == [] {
      assert Format(v) == main;
      CutAtFirstAbsent(main, '+');
    } else {
      var b := Join(v.build, '.');
      assert Format(v) == main + ['+'] + b;
      CutAtFirstOf(main, '+', b);
      forall i | 0 <= i < |v.build| ensures '.' !in v.build[i] {
        IdentCharsExclude(v.build[i], '.');
      }
      SplitJoin(v.build, '.');
    }
  }

  lemma FormatCoreOfParse(core: string)
    requires ParseCore(core).Some?
    ensures var (ma, mi, pa) := ParseCore(core).value;
      NatToString(ma) + "." + NatToString(mi) + "." + NatToString(pa) == core
  {
    var parts := Split(core, '.');
    CanonicalNumeralRoundTrip(parts[0]);
    CanonicalNumeralRoundTrip(parts[1]);
    CanonicalNumeralRoundTrip(parts[2]);
    assert parts == [parts[0], parts[1], parts[2]];
    Join3(parts[0], parts[1], parts[2], '.');
  }

  lemma FormatPreOfParse(t: string)
    requires ParseIdents(Split(t, '.')).Some?
    ensures var ids := ParseIdents(Split(t, '.')).value;
      ids != [] && Join(FormatIdents(ids), '.') == t
  {
    FormatIdentsOfParse(Split(t, '.'));
  }

  lemma FormatPreOfCut(main: string)
    requires ParsePre(CutAtFirst(main, '-').1).Some?
    ensures main == CutAtFirst(main, '-').0 + FormatPre(ParsePre(CutAtFirst(main, '-').1).value)
  {
    var cut := CutAtFirst(main, '-');
    if cut.1.Some? {
      var t := cut.1.value;
      FormatPreOfText(t);
      assert main == cut.0 + ("-" + t);
    }
  }

  /** A pre-release text that parses is formatted back behind its `-`. */
  lemma FormatPreOfText(t: string)
    requires ParseIdents(Split(t, '.')).Some?
    ensures FormatPre(ParseIdents(Split(t, '.')).value) == "-" + t
  {
    FormatPreOfParse(t);
  }

  lemma FormatBuildOfCut(s: string)
    requires ParseBuild(CutAtFirst(s, '+').1).Some?
    ensures s == CutAtFirst(s, '+').0 + FormatBuild(ParseBuild(CutAtFirst(s, '+').1).value)
  {
  }

  /** A text that parses is the canonical text of what it parses to. */
  lemma FormatParse(s: string)
    requires Parse(s).Some?
    ensures Format(Parse(s).value) == s
  {
    var v := Parse(s).value;
    var cut := CutAtFirst(s, '+');
    var cut2 := CutAtFirst(cut.0, '-');
    assert v.pre == ParsePre(cut2.1).value;
    assert v.build == ParseBuild(cut.1).value;
    FormatCoreOfParse(cut2.0);
    assert FormatCore(v) == cut2.0;
    FormatPreOfCut(cut.0);
    FormatBuildOfCut(s);
  }

  /** Two texts that parse to the same version are the same text. */
  lemma ParseInjective(s: string, t: string)
    requires Parse(s).Some? && Parse(s) == Parse(t)
    ensures s == t
  {
    FormatParse(s);
    FormatParse(t);
  }

  // ---------------------------------------------------------------------------
  // Precedence (section 11)
  // ---------------------------------------------------------------------------

  /** Section 11.4.1-3: numeric identifiers numerically, alphanumeric ones in
      ASCII order, numeric below alphanumeric. */
  predicate IdentLess(a: Ident, b: Ident) {
    match (a, b)
    case (Numeric(x), Numeric(y)) => x < y
    case (Numeric(_), AlphaNum(_)) => true
    case (AlphaNum(_), Numeric(_)) => false
    case (AlphaNum(x), AlphaNum(y)) => LexLess(x, y)
  }

  /** Section 11.4: identifiers left to right; a proper prefix has lower precedence. */
  predicate PreLess(a: seq<Ident>, b: seq<Ident>)
    decreases |a|
  {
    if |a| == 0 then |b| > 0
    else if |b| == 0 then false
    else if a[0] == b[0] then PreLess(a[1..], b[1..])
    else IdentLess(a[0], b[0])
  }

  /** Section 11: `a` has lower precedence than `b`. Build metadata is ignored. */
  predicate Less(a: SemVer, b: SemVer) {
    if a.major != b.major then a.major < b.major
    else if a.minor != b.minor then a.minor < b.minor
    else if a.patch != b.patch then a.patch < b.patch
    else if a.pre == [] then false
    else if b.pre == [] then true
    else PreLess(a.pre, b.pre)
  }

  /** Equal precedence: everything but build metadata agrees. */
  predicate SamePrecedence(a: SemVer, b: SemVer) {
    a.major == b.major && a.minor == b.minor && a.patch == b.patch && a.pre == b.pre
  }

  lemma IdentLessTotal(a: Ident, b: Ident)
    ensures a == b || IdentLess(a, b) || IdentLess(b, a)
    ensures !(IdentLess(a, b) && IdentLess(b, a))
    ensures !IdentLess(a, a)
  {
    if a.AlphaNum? {
      LexLessIrreflexive(a.s);
    }
    match (a, b)
    case (AlphaNum(x), AlphaNum(y)) =>
      if x != y {
        LexLessTotal(x, y);
      }
      if LexLess(x, y) {
        LexLessAsymmetric(x, y);
      }
    case _ =>
  }

  lemma IdentLessTransitive(a: Ident, b: Ident, c: Ident)
    requires IdentLess(a, b) && IdentLess(b, c)
    ensures IdentLess(a, c)
  {
    if a.AlphaNum? && b.AlphaNum? && c.AlphaNum? {
      LexLessTransitive(a.s, b.s, c.s);
    }
  }

  lemma {:induction false} PreLessIrreflexive(a: seq<Ident>)
    ensures !PreLess(a, a)
    decreases |a|
  {
    if |a| > 0 {
      PreLessIrreflexive(a[1..]);
    }
  }

  lemma {:induction false} PreLessTrichotomy(a: seq<Ident>, b: seq<Ident>)
    ensures a == b || PreLess(a, b) || PreLess(b, a)
    ensures !(PreLess(a, b) && PreLess(b, a))
    decreases |a|
  {
    if |a| > 0 && |b| > 0 {
      IdentLessTotal(a[0], b[0]);
      if a[0] == b[0] {
        PreLessTrichotomy(a[1..], b[1..]);
        assert a == [a[0]] + a[1..] && b == [b[0]] + b[1..];
      }
    }
  }

  lemma {:induction false} PreLessTransitive(a: seq<Ident>, b: seq<Ident>, c: seq<Ident>)
    requires PreLess(a, b) && PreLess(b, c)
    ensures PreLess(a, c)
    decreases |a|
  {
    if |a| > 0 {
      if a[0] == b[0] && b[0] == c[0] {
        PreLessTransitive(a[1..], b[1..], c[1..]);
      } else if a[0] == b[0] {
        assert IdentLess(b[0], c[0]);
      } else if b[0] == c[0] {
        assert IdentLess(a[0], b[0]);
      } else {
        IdentLessTransitive(a[0], b[0], c[0]);
        IdentLessTotal(a[0], c[0]);
        if a[0] == c[0] {
          IdentLessTotal(a[0], b[0]);
        }
      }
    }
  }

  /** No version precedes itself. */
  lemma LessIrreflexive(a: SemVer)
    ensures !Less(a, a)
  {
    PreLessIrreflexive(a.pre);
  }

  /** Exactly one of: `a` before `b`, `b` before `a`, or equal precedence. */
  lemma LessTrichotomy(a: SemVer, b: SemVer)
    ensures Less(a, b) || Less(b, a) || SamePrecedence(a, b)
    ensures !(Less(a, b) && Less(b, a))
    ensures SamePrecedence(a, b) ==> !Less(a, b) && !Less(b, a)
  {
    PreLessTrichotomy(a.pre, b.pre);
    PreLessIrreflexive(a.pre);
  }

  lemma LessTransitive(a: SemVer, b: SemVer, c: SemVer)
    requires Less(a, b) && Less(b, c)
    ensures Less(a, c)
  {
    if a.major == b.major == c.major && a.minor == b.minor == c.minor && a.patch == b.patch == c.patch
       && a.pre != [] && b.pre != [] && c.pre != [] {
      PreLessTransitive(a.pre, b.pre, c.pre);
    }
  }

  /** A pre-release has lower precedence than the release with the same core (section 11.3). */
  lemma PreReleaseBeforeRelease(v: SemVer)
    requires v.pre != []
    ensures Less(v, v.(pre := [], build := []))
    ensures !Less(v.(pre := [], build := []), v)
  {
  }
}
