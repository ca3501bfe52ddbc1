/**
 * `parse_MODULE_file_content` and the two `re.sub` stampings of the update
 * runner, written as hand-made scanners. Each pattern is a keyword, optional
 * whitespace, `=`, optional whitespace and a value:
 *   version\s*=\s*['"]([^'"]+)['"]        (a quoted value, either quote at each end)
 *   compatibility_level\s*=\s*(\d+)        (a maximal run of digits)
 * A search finds the leftmost position where the pattern matches. Neither
 * pattern leaves a choice to backtracking, so a match is fixed by where it starts.
 */
module ModuleFile {
  import opened Wrappers
  import opened Text
  import opened Versions
  import opened RegistryModel

  const VersionKeyword := "version"
  const LevelKeyword := "compatibility_level"

  predicate IsQuote(c: char) {
    c == '\'' || c == '"'
  }

  /**
   * Where a pattern matched: the keyword starts at `start`, `=` is at `eq`,
   * the value part begins at `at` (the opening quote of a version, the first
   * digit of a level) and ends at `end` (the closing quote of a version, the
   * first index past the digits of a level).
   */
  datatype Match = Match(start: nat, eq: nat, at: nat, end: nat)

  /** `kw\s*=\s*` occupies `s[start..at]`. */
  predicate KeyEq(s: string, kw: string, start: nat, eq: nat, at: nat) {
    && OccursAt(s, kw, start)
    && start + |kw| <= eq < at <= |s|
    && s[eq] == '='
    && (forall p :: start + |kw| <= p < eq ==> IsSpace(s[p]))
    && (forall p :: eq < p < at ==> IsSpace(s[p]))
  }

  /** `version\s*=\s*['"]([^'"]+)['"]` matches at `m.start`, the value being `s[m.at + 1..m.end]`. */
  predicate IsVersionMatch(s: string, m: Match) {
    && KeyEq(s, VersionKeyword, m.start, m.eq, m.at)
    && m.at + 1 < m.end < |s|
    && IsQuote(s[m.at])
    && (forall p :: m.at < p < m.end ==> !IsQuote(s[p]))
    && IsQuote(s[m.end])
  }

  /** `compatibility_level\s*=\s*(\d+)` matches at `m.start`, the digits being `s[m.at..m.end]`. */
  predicate IsLevelMatch(s: string, m: Match) {
    && KeyEq(s, LevelKeyword, m.start, m.eq, m.at)
    && m.at < m.end <= |s|
    && (forall p :: m.at <= p < m.end ==> IsDigit(s[p]))
    && (m.end == |s| || !IsDigit(s[m.end]))
  }

  // ---------------------------------------------------------------------------
  // Scanners
  // ---------------------------------------------------------------------------

  /** The first index at or after `k` whose character fails `f`, or `|s|`. */
  function SkipWhile(s: string, k: nat, f: char -> bool): (r: nat)
    requires k <= |s|
    ensures k <= r <= |s|
    ensures forall p :: k <= p < r ==> f(s[p])
    ensures r == |s| || !f(s[r])
    decreases |s| - k
  {
    if k == |s| || !f(s[k]) then k else SkipWhile(s, k + 1, f)
  }

  /** The keyword, whitespace, `=`, whitespace part at `i`: where the value part begins. */
  function KeyEqAt(s: string, kw: string, i: nat): (r: Option<(nat, nat)>)
    requires i <= |s|
    ensures r.Some? ==> KeyEq(s, kw, i, r.value.0, r.value.1) && (r.value.1 == |s| || !IsSpace(s[r.value.1]))
  {
    if !OccursAt(s, kw, i) then None
    else
      var eq := SkipWhile(s, i + |kw|, IsSpace);
      if eq == |s| || s[eq] != '=' then None
      else Some((eq, SkipWhile(s, eq + 1, IsSpace)))
  }

  function VersionMatchAt(s: string, i: nat): (r: Option<Match>)
    requires i <= |s|
    ensures r.Some? ==> IsVersionMatch(s, r.value) && r.value.start == i
  {
    match KeyEqAt(s, VersionKeyword, i)
    case None => None
    case Some((eq, at)) =>
      if at == |s| || !IsQuote(s[at]) then None
      else
        var end := SkipWhile(s, at + 1, c => !IsQuote(c));
        if end == |s| || end == at + 1 then None else Some(Match(i, eq, at, end))
  }

  function LevelMatchAt(s: string, i: nat): (r: Option<Match>)
    requires i <= |s|
    ensures r.Some? ==> IsLevelMatch(s, r.value) && r.value.start == i
  {
    match KeyEqAt(s, LevelKeyword, i)
    case None => None
    case Some((eq, at)) =>
      var end := SkipWhile(s, at, IsDigit);
      if end == at then None else Some(Match(i, eq, at, end))
  }

  /** Whitespace runs before and after `=` leave no choice: a `KeyEq` is the one the scanner finds. */
  lemma KeyEqAtComplete(s: string, kw: string, start: nat, eq: nat, at: nat)
    requires KeyEq(s, kw, start, eq, at) && (at == |s| || !IsSpace(s[at]))
    ensures KeyEqAt(s, kw, start) == Some((eq, at))
  {
    var e := SkipWhile(s, start + |kw|, IsSpace);
    assert e == eq;
    var a := SkipWhile(s, eq + 1, IsSpace);
    assert a == at;
  }

  lemma VersionMatchAtComplete(s: string, m: Match)
    requires IsVersionMatch(s, m)
    ensures VersionMatchAt(s, m.start) == Some(m)
  {
    KeyEqAtComplete(s, VersionKeyword, m.start, m.eq, m.at);
    var end := SkipWhile(s, m.at + 1, c => !IsQuote(c));
    assert end == m.end;
  }

  lemma LevelMatchAtComplete(s: string, m: Match)
    requires IsLevelMatch(s, m)
    ensures LevelMatchAt(s, m.start) == Some(m)
  {
    KeyEqAtComplete(s, LevelKeyword, m.start, m.eq, m.at);
    var end := SkipWhile(s, m.at, IsDigit);
    assert end == m.end;
  }

  /** `re.search` for the version pattern from index `k` on: the leftmost match. */
  function FindVersionFrom(s: string, k: nat): (r: Option<Match>)
    requires k <= |s|
    ensures r.Some? ==> IsVersionMatch(s, r.value) && k <= r.value.start
    ensures forall m :: IsVersionMatch(s, m) && k <= m.start ==> r.Some? && r.value.start <= m.start
    decreases |s| - k
  {
    var here := VersionMatchAt(s, k);
    if here.Some? then here
    else
      assert forall m :: IsVersionMatch(s, m) ==> m.start != k by {
        forall m | IsVersionMatch(s, m) ensures m.start != k {
          VersionMatchAtComplete(s, m);
        }
      }
      if k == |s| then
        assert forall m :: IsVersionMatch(s, m) ==> m.start < |s|;
        None
      else FindVersionFrom(s, k + 1)
  }

  /** `re.search` for the level pattern from index `k` on: the leftmost match. */
  function FindLevelFrom(s: string, k: nat): (r: Option<Match>)
    requires k <= |s|
    ensures r.Some? ==> IsLevelMatch(s, r.value) && k <= r.value.start
    ensures forall m :: IsLevelMatch(s, m) && k <= m.start ==> r.Some? && r.value.start <= m.start
    decreases |s| - k
  {
    var here := LevelMatchAt(s, k);
    if here.Some? then here
    else
      assert forall m :: IsLevelMatch(s, m) ==> m.start != k by {
        forall m | IsLevelMatch(s, m) ensures m.start != k {
          LevelMatchAtComplete(s, m);
        }
      }
      if k == |s| then
        assert forall m :: IsLevelMatch(s, m) ==> m.start < |s|;
        None
      else FindLevelFrom(s, k + 1)
  }

  function FindVersion(s: string): (r: Option<Match>)
    ensures r.Some? ==> IsVersionMatch(s, r.value)
    ensures forall m :: IsVersionMatch(s, m) ==> r.Some? && r.value.start <= m.start
  {
    FindVersionFrom(s, 0)
  }

  function FindLevel(s: string): (r: Option<Match>)
    ensures r.Some? ==> IsLevelMatch(s, r.value)
    ensures forall m :: IsLevelMatch(s, m) ==> r.Some? && r.value.start <= m.start
  {
    FindLevelFrom(s, 0)
  }

  /** The quoted value of a version match. */
  function VersionText(s: string, m: Match): (t: string)
    requires IsVersionMatch(s, m)
    ensures |t| > 0 && forall i :: 0 <= i < |t| ==> !IsQuote(t[i])
  {
    var t := s[m.at + 1..m.end];
    assert forall i :: 0 <= i < |t| ==> t[i] == s[m.at + 1 + i];
    t
  }

  /** The digits of a level match. */
  function LevelDigits(s: string, m: Match): (t: string)
    requires IsLevelMatch(s, m)
    ensures |t| > 0 && AllDigits(t)
  {
    var t := s[m.at..m.end];
    assert forall i :: 0 <= i < |t| ==> t[i] == s[m.at + i];
    t
  }

  /** `parse_MODULE_file_content`. */
  function ParseModuleFileContent(content: string): (f: ModuleFileContent)
    ensures f.content == content
  {
    var level := FindLevel(content);
    var version := FindVersion(content);
    var compLevel := if level.Some? then Some(DigitsValue(LevelDigits(content, level.value))) else None;
    var v := if version.Some? then Some(FromString(VersionText(content, version.value))) else None;
    ModuleFileContent(content, compLevel, v)
  }

  /**
   * The parsed file keeps the text; its level is the digits after the first
   * level match and its version the non-empty, quote-free text of the first
   * version match, each absent exactly when there is no match.
   */
  lemma ParseModuleFileContentFields(content: string)
    ensures var f := ParseModuleFileContent(content);
      && (f.compLevel.Some? <==> FindLevel(content).Some?)
      && (f.compLevel.Some? ==> f.compLevel.value == DigitsValue(LevelDigits(content, FindLevel(content).value)))
      && (f.version.Some? <==> FindVersion(content).Some?)
      && (f.version.Some? ==> f.version.value == FromString(VersionText(content, FindVersion(content).value)))
      && (f.version.Some? ==> Valid(f.version.value) && |Str(f.version.value)| > 0)
      && (f.version.Some? ==> forall i :: 0 <= i < |Str(f.version.value)| ==> !IsQuote(Str(f.version.value)[i]))
  {
  }
}

module ModuleFileStamp {
  import opened Wrappers
  import opened Text
  import opened Versions
  import opened RegistryModel
  import opened ModuleFile

  /** `s` with `s[lo..hi]` replaced by `rep`. */
  function Splice(s: string, lo: nat, hi: nat, rep: string): (r: string)
    requires lo <= hi <= |s|
    ensures |r| == |s| - (hi - lo) + |rep|
    ensures forall p :: 0 <= p < lo ==> r[p] == s[p]
    ensures forall p :: 0 <= p < |rep| ==> r[lo + p] == rep[p]
    ensures forall p :: hi <= p < |s| ==> r[p - hi + lo + |rep|] == s[p]
  {
    s[..lo] + rep + s[hi..]
  }

  /** A keyword that cannot overlap itself and holds no whitespace and no `=`. */
  predicate GoodKeyword(kw: string) {
    && |kw| > 0
    && forall d :: 0 <= d < |kw| ==> !IsSpace(kw[d]) && kw[d] != '=' && (d > 0 ==> kw[d] != kw[0])
  }

  lemma KeywordsAreGood()
    ensures GoodKeyword(VersionKeyword) && GoodKeyword(LevelKeyword)
  {
  }

  lemma OccursAtIndex(s: string, kw: string, i: nat, d: nat)
    requires OccursAt(s, kw, i) && d < |kw|
    ensures s[i + d] == kw[d]
  {
    assert s[i..i + |kw|][d] == s[i + d];
  }

  /** Inside `kw\s*=\s*` the first character of a good keyword occurs only at the start. */
  lemma KeyEqNoInnerInitial(s: string, kw: string, j: nat, eq: nat, at: nat, i: nat)
    requires GoodKeyword(kw) && KeyEq(s, kw, j, eq, at) && j < i < at
    ensures s[i] != kw[0]
  {
    if i < j + |kw| {
      OccursAtIndex(s, kw, j, i - j);
    }
  }

  /** Two `kw\s*=\s*` parts that end at the same index are the same part. */
  lemma KeyEqBackwardUnique(s: string, kw: string, a: nat, e1: nat, b: nat, e2: nat, at: nat)
    requires GoodKeyword(kw) && KeyEq(s, kw, a, e1, at) && KeyEq(s, kw, b, e2, at)
    ensures a == b && e1 == e2
  {
    var c1, c2 := s[e1], s[e2];
    assert e1 < e2 ==> IsSpace(c2);
    assert e2 < e1 ==> IsSpace(c1);
    OccursAtIndex(s, kw, b, |kw| - 1);
    OccursAtIndex(s, kw, a, |kw| - 1);
    var lastA, lastB := s[a + |kw| - 1], s[b + |kw| - 1];
    assert a < b ==> IsSpace(lastB);
    assert b < a ==> IsSpace(lastA);
  }

  /** A `kw\s*=\s*` part is seen the same in any text that agrees on its characters. */
  lemma KeyEqTransfers(s: string, t: string, kw: string, j: nat, eq: nat, at: nat)
    requires KeyEq(t, kw, j, eq, at) && at <= |s|
    requires forall p :: 0 <= p < at ==> s[p] == t[p]
    ensures KeyEq(s, kw, j, eq, at)
  {
    assert s[j..j + |kw|] == t[j..j + |kw|];
  }

  // ---------------------------------------------------------------------------
  // Stamping the version
  // ---------------------------------------------------------------------------

  /** The runner's first `re.sub(..., count=1)`: the first version value becomes `text`. */
  function StampVersion(content: string, text: string): (r: string)
    ensures FindVersion(content).None? ==> r == content
  {
    match FindVersion(content)
    case None => content
    case Some(m) => Splice(content, m.at + 1, m.end, text)
  }

  /** No version match in the stamped text starts before the one that was stamped. */
  lemma StampVersionNoEarlier(s: string, text: string, m: Match, m2: Match)
    requires FindVersion(s) == Some(m)
    requires |text| > 0 && forall i :: 0 <= i < |text| ==> !IsQuote(text[i])
    requires IsVersionMatch(StampVersion(s, text), m2)
    ensures m.start <= m2.start
  {
    var t := StampVersion(s, text);
    KeywordsAreGood();
    if m2.at < m.at {
      assert t[m.at] == s[m.at];
      assert m2.end <= m.at;
      KeyEqTransfers(s, t, VersionKeyword, m2.start, m2.eq, m2.at);
      assert IsVersionMatch(s, m2);
    } else if m2.at == m.at {
      KeyEqTransfers(t, s, VersionKeyword, m.start, m.eq, m.at);
      KeyEqBackwardUnique(t, VersionKeyword, m.start, m.eq, m2.start, m2.eq, m.at);
    } else if m2.start < m.start {
      OccursAtIndex(s, VersionKeyword, m.start, 0);
      KeyEqNoInnerInitial(t, VersionKeyword, m2.start, m2.eq, m2.at, m.start);
    }
  }

  /** Stamping a quote-free, non-empty text makes it the version the text declares. */
  lemma StampVersionReparses(s: string, text: string)
    requires FindVersion(s).Some?
    requires |text| > 0 && forall i :: 0 <= i < |text| ==> !IsQuote(text[i])
    ensures var t := StampVersion(s, text);
      FindVersion(t).Some? && VersionText(t, FindVersion(t).value) == text
  {
    var m := FindVersion(s).value;
    var t := StampVersion(s, text);
    var m1 := Match(m.start, m.eq, m.at, m.at + 1 + |text|);
    StampedVersionMatch(s, text, m, t);
    var r := FindVersion(t).value;
    StampVersionNoEarlier(s, text, m, r);
    VersionMatchAtComplete(t, r);
    VersionMatchAtComplete(t, m1);
    assert r == m1;
    assert VersionText(t, r) == text;
  }

  /** The stamped value sits between the quotes of the stamped match. */
  lemma StampedVersionMatch(s: string, text: string, m: Match, t: string)
    requires FindVersion(s) == Some(m) && t == StampVersion(s, text)
    requires |text| > 0 && forall i :: 0 <= i < |text| ==> !IsQuote(text[i])
    ensures IsVersionMatch(t, Match(m.start, m.eq, m.at, m.at + 1 + |text|))
    ensures t[m.at + 1..m.at + 1 + |text|] == text
  {
    var m1 := Match(m.start, m.eq, m.at, m.at + 1 + |text|);
    KeyEqTransfers(t, s, VersionKeyword, m.start, m.eq, m.at);
    assert t[m1.end] == s[m.end];
  }

  // ---------------------------------------------------------------------------
  // Stamping the compatibility level
  // ---------------------------------------------------------------------------

  /** The runner's second `re.sub(..., count=1)`: the first level's digits become `str(level)`. */
  function StampLevel(content: string, level: nat): (r: string)
    ensures FindLevel(content).None? ==> r == content
  {
    match FindLevel(content)
    case None => content
    case Some(m) => Splice(content, m.at, m.end, NatToString(level))
  }

  /** No level match in the stamped text starts before the one that was stamped. */
  lemma StampLevelNoEarlier(s: string, level: nat, m: Match, m2: Match)
    requires FindLevel(s) == Some(m)
    requires IsLevelMatch(StampLevel(s, level), m2)
    ensures m.start <= m2.start
  {
    var t := StampLevel(s, level);
    KeywordsAreGood();
    if m2.at < m.at {
      LevelMatchBeforeStamp(s, t, m, m2);
    } else if m2.at == m.at {
      KeyEqTransfers(t, s, LevelKeyword, m.start, m.eq, m.at);
      KeyEqBackwardUnique(t, LevelKeyword, m.start, m.eq, m2.start, m2.eq, m.at);
    } else if m2.start < m.start {
      OccursAtIndex(s, LevelKeyword, m.start, 0);
      KeyEqNoInnerInitial(t, LevelKeyword, m2.start, m2.eq, m2.at, m.start);
    }
  }

  /** A level match that ends before the stamped digits was already a match of the original text. */
  lemma LevelMatchBeforeStamp(s: string, t: string, m: Match, m2: Match)
    requires IsLevelMatch(s, m) && IsLevelMatch(t, m2) && m2.at < m.at <= |t|
    requires forall p :: 0 <= p < m.at ==> t[p] == s[p]
    ensures IsLevelMatch(s, m2)
  {
    assert t[m.at - 1] == s[m.at - 1];
    assert !IsDigit(s[m.at - 1]);
    assert m2.end < m.at;
    KeyEqTransfers(s, t, LevelKeyword, m2.start, m2.eq, m2.at);
  }

  /** After stamping, the text declares exactly the stamped level. */
  lemma StampLevelReparses(s: string, level: nat)
    requires FindLevel(s).Some?
    ensures var t := StampLevel(s, level);
      FindLevel(t).Some? && DigitsValue(LevelDigits(t, FindLevel(t).value)) == level
  {
    var m := FindLevel(s).value;
    var t := StampLevel(s, level);
    var d := NatToString(level);
    var m1 := Match(m.start, m.eq, m.at, m.at + |d|);
    KeyEqTransfers(t, s, LevelKeyword, m.start, m.eq, m.at);
    if m.end < |s| {
      assert t[m1.end] == s[m.end];
    }
    assert IsLevelMatch(t, m1);
    var r := FindLevel(t).value;
    StampLevelNoEarlier(s, level, m, r);
    LevelMatchAtComplete(t, r);
    LevelMatchAtComplete(t, m1);
    assert r == m1;
    assert LevelDigits(t, r) == d;
    NatToStringRoundTrip(level);
  }

  // ---------------------------------------------------------------------------
  // The stamped MODULE.bazel
  // ---------------------------------------------------------------------------

  /**
   * The text `_create_patch_for_module_version_if_mismatch` builds: the first
   * version value becomes the release text, then, only for a semantic
   * release, the first level becomes the release's major number.
   */
  function StampedContent(content: string, release: Version): string {
    var v := StampVersion(content, Str(release));
    if release.sem.Some? then StampLevel(v, release.sem.value.major) else v
  }

  /** After the version substitution the text declares the release itself. */
  lemma StampedVersionIsRelease(content: string, release: Version)
    requires FindVersion(content).Some? && Valid(release)
    requires |Str(release)| > 0 && forall i :: 0 <= i < |Str(release)| ==> !IsQuote(Str(release)[i])
    ensures ParseModuleFileContent(StampVersion(content, Str(release))).version == Some(release)
  {
    StampVersionReparses(content, Str(release));
    ParseModuleFileContentFields(StampVersion(content, Str(release)));
    FromStringOfStr(release);
  }

  /** For a semantic release, the stamped text declares the release's major number as its level. */
  lemma StampedLevelIsMajor(content: string, release: Version)
    requires release.sem.Some? && FindLevel(StampVersion(content, Str(release))).Some?
    ensures ParseModuleFileContent(StampedContent(content, release)).compLevel == Some(release.sem.value.major)
  {
    StampLevelReparses(StampVersion(content, Str(release)), release.sem.value.major);
    ParseModuleFileContentFields(StampedContent(content, release));
  }

  /** A release that is not semantic leaves every level as it was. */
  lemma StampedLevelKeptForNonSemantic(content: string, release: Version)
    requires release.sem.None?
    ensures StampedContent(content, release) == StampVersion(content, Str(release))
  {
  }

  // ---------------------------------------------------------------------------
  // Where a search stops
  // ---------------------------------------------------------------------------

  /** A version match with no `v` before it is the one the search finds. */
  lemma FirstVersionMatch(s: string, m: Match)
    requires IsVersionMatch(s, m) && forall p :: 0 <= p < m.start ==> s[p] != 'v'
    ensures FindVersion(s) == Some(m)
  {
    var r := FindVersion(s).value;
    assert r.start <= m.start;
    OccursAtIndex(s, VersionKeyword, r.start, 0);
    assert VersionKeyword[0] == 'v';
    assert r.start == m.start by {
      var c := s[r.start];
      assert r.start < m.start ==> c != 'v';
    }
    VersionMatchAtComplete(s, r);
    VersionMatchAtComplete(s, m);
  }

  /** A level match with no `y` before the `y` of its keyword is the one the search finds. */
  lemma FirstLevelMatch(s: string, m: Match)
    requires IsLevelMatch(s, m) && forall p :: 0 <= p < m.start + 12 ==> s[p] != 'y'
    ensures FindLevel(s) == Some(m)
  {
    var r := FindLevel(s).value;
    assert r.start <= m.start;
    OccursAtIndex(s, LevelKeyword, r.start, 12);
    assert LevelKeyword[12] == 'y';
    assert r.start == m.start by {
      var c := s[r.start + 12];
      assert r.start < m.start ==> c != 'y';
    }
    LevelMatchAtComplete(s, r);
    LevelMatchAtComplete(s, m);
  }

  /** A text without the letter `v` declares no version; one without `y` declares no level. */
  lemma NoDeclarations(s: string)
    requires forall p :: 0 <= p < |s| ==> s[p] != 'v' && s[p] != 'y'
    ensures FindVersion(s).None? && FindLevel(s).None?
  {
    if FindVersion(s).Some? {
      OccursAtIndex(s, VersionKeyword, FindVersion(s).value.start, 0);
    }
    if FindLevel(s).Some? {
      OccursAtIndex(s, LevelKeyword, FindLevel(s).value.start, 12);
    }
  }

  // ---------------------------------------------------------------------------
  // The declarations of tests/test_module_parsing.py
  // ---------------------------------------------------------------------------

  /** `module(name="score_demo", version="1.2.3", compatibility_level=2)`, cut where the matches fall. */
  const CompleteDeclaration: string :=
    "module(name=\"score_demo\", " + VersionKeyword + "=\"1.2.3\", " + LevelKeyword + "=2)"
  /** `module(name="score_demo")` */
  const MinimalDeclaration: string := "module(name=\"score_demo\")"

  lemma CompleteVersionMatch(s: string)
    requires s == CompleteDeclaration
    ensures FindVersion(s) == Some(Match(26, 33, 34, 40))
    ensures VersionText(s, Match(26, 33, 34, 40)) == "1.2.3"
  {
    CompleteVersionHead(s);
    CompleteVersionShape(s);
    FirstVersionMatch(s, Match(26, 33, 34, 40));
  }

  /** No `v` before the version keyword of the complete declaration. */
  lemma CompleteVersionHead(s: string)
    requires s == CompleteDeclaration
    ensures forall p :: 0 <= p < 26 ==> s[p] != 'v'
  {
    var head := "module(name=\"score_demo\", ";
    assert 'v' !in head;
    assert s[..26] == head;
    forall p | 0 <= p < 26 ensures s[p] != 'v' {
      assert s[p] == head[p];
    }
  }

  /** `version="1.2.3"` sits at index 26 of the complete declaration. */
  lemma CompleteVersionShape(s: string)
    requires s == CompleteDeclaration
    ensures IsVersionMatch(s, Match(26, 33, 34, 40)) && s[35..40] == "1.2.3"
  {
    assert s[26..33] == VersionKeyword;
    assert s[34..41] == "\"1.2.3\"";
  }

  lemma CompleteLevelMatch(s: string)
    requires s == CompleteDeclaration
    ensures FindLevel(s) == Some(Match(43, 62, 63, 64))
    ensures LevelDigits(s, Match(43, 62, 63, 64)) == "2"
  {
    CompleteLevelHead(s);
    CompleteLevelShape(s);
    FirstLevelMatch(s, Match(43, 62, 63, 64));
  }

  /** No `y` before the `y` of the level keyword of the complete declaration. */
  lemma CompleteLevelHead(s: string)
    requires s == CompleteDeclaration
    ensures forall p :: 0 <= p < 55 ==> s[p] != 'y'
  {
    var head := "module(name=\"score_demo\", " + VersionKeyword + "=\"1.2.3\", compatibilit";
    assert 'y' !in head;
    assert s[..55] == head;
    forall p | 0 <= p < 55 ensures s[p] != 'y' {
      assert s[p] == head[p];
    }
  }

  /** `compatibility_level=2` sits at index 43 of the complete declaration. */
  lemma CompleteLevelShape(s: string)
    requires s == CompleteDeclaration
    ensures IsLevelMatch(s, Match(43, 62, 63, 64)) && s[63..64] == "2"
  {
    assert s[43..62] == LevelKeyword;
    assert s[62..] == "=2)";
  }

  /** A complete declaration yields its version, its level and the version's major number. */
  lemma CompleteDeclarationParses()
    ensures var f := ParseModuleFileContent(CompleteDeclaration);
      && f.version == Some(FromString("1.2.3"))
      && f.compLevel == Some(2)
      && MajorVersion(f) == Some(1)
  {
    CompleteVersionMatch(CompleteDeclaration);
    CompleteLevelMatch(CompleteDeclaration);
    ParseModuleFileContentFields(CompleteDeclaration);
    assert DigitsValue("2") == 2;
    Digits();
    Plain("1.2.3", 1, 2, 3);
  }

  /** A declaration with neither attribute yields neither value. */
  lemma MinimalDeclarationParses()
    ensures var f := ParseModuleFileContent(MinimalDeclaration);
      f.version.None? && f.compLevel.None? && MajorVersion(f).None?
  {
    var s := MinimalDeclaration;
    assert 'v' !in s && 'y' !in s;
    NoDeclarations(s);
    ParseModuleFileContentFields(s);
  }
}
