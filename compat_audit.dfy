/**
 * `tools/verify_semver_compatibility_level.py`: for every module directory
 * of the registry and every version its metadata.json lists, compares the
 * `compatibility_level` declared in that version's MODULE.bazel with the
 * version's major number. Each version yields one result (ok, warning or
 * error); the script exits with status 1 exactly when some result is an
 * error, or when an exception escapes.
 */
module CompatAudit {
  import opened Wrappers
  import Errors
  import opened Text
  import opened Json
  import SemVer
  import opened ModuleFile
  import opened ModuleFileStamp
  import opened Metadata

  // ---------------------------------------------------------------------------
  // `int(text)`
  // ---------------------------------------------------------------------------

  /** The digits of an integer literal as `int()` accepts them: single underscores may separate digits. */
  predicate IsIntBody(b: string) {
    && |b| > 0 && IsDigit(b[0]) && IsDigit(b[|b| - 1])
    && (forall i :: 0 <= i < |b| ==> IsDigit(b[i]) || b[i] == '_')
    && (forall i, j :: 0 <= i < |b| && 0 <= j < |b| && j == i + 1 ==> b[i] != '_' || b[j] != '_')
  }

  /** The digits of a literal without its separators. */
  function DropUnderscores(b: string): (r: string)
    requires forall i :: 0 <= i < |b| ==> IsDigit(b[i]) || b[i] == '_'
    ensures AllDigits(r) && |r| <= |b|
    decreases |b|
  {
    if |b| == 0 then []
    else (if b[0] == '_' then [] else [b[0]]) + DropUnderscores(b[1..])
  }

  /** The value of the digits of a literal without its sign. */
  function BodyValue(b: string): (r: Result<nat, Errors.Error>)
    ensures r.Failure? ==> r.error == Errors.ValueError
  {
    if IsIntBody(b) then Success(DigitsValue(DropUnderscores(b))) else Failure(Errors.ValueError)
  }

  /** `int()` on text without surrounding whitespace: an optional sign, then the digits. */
  function IntLiteral(t: string): (r: Result<int, Errors.Error>)
    ensures r.Failure? ==> r.error == Errors.ValueError
  {
    if |t| > 0 && t[0] == '-' then
      match BodyValue(t[1..])
      case Failure(e) => Failure(e)
      case Success(n) => Success(-(n as int))
    else if |t| > 0 && t[0] == '+' then
      match BodyValue(t[1..])
      case Failure(e) => Failure(e)
      case Success(n) => Success(n as int)
    else
      match BodyValue(t)
      case Failure(e) => Failure(e)
      case Success(n) => Success(n as int)
  }

  /**
   * `int(s)` for a string: whitespace at either end (as `str.isspace()`
   * defines it) is ignored, an optional
   * sign is followed by decimal digits (leading zeros allowed); anything
   * else is a `ValueError`.
   */
  function PyInt(s: string): (r: Result<int, Errors.Error>)
    ensures r.Failure? ==> r.error == Errors.ValueError
  {
    IntLiteral(StripSpaces(s))
  }

  /** `str(n)` for any integer. */
  function IntToString(n: int): (r: string)
    ensures |r| > 0
  {
    if n < 0 then "-" + NatToString(-n) else NatToString(n)
  }

  lemma {:induction false} DropUnderscoresOfDigits(s: string)
    requires AllDigits(s)
    ensures DropUnderscores(s) == s
    decreases |s|
  {
    if |s| > 0 {
      DropUnderscoresOfDigits(s[1..]);
    }
  }

  /** `strip` keeps a first character that is not whitespace. */
  lemma {:induction false} StripSpacesKeepsHead(s: string)
    requires |s| > 0 && !IsPyWhitespace(s[0])
    ensures |StripSpaces(s)| > 0 && StripSpaces(s)[0] == s[0]
    decreases |s|
  {
    if IsPyWhitespace(s[|s| - 1]) {
      assert |s| > 1;
      StripSpacesKeepsHead(s[..|s| - 1]);
    }
  }

  /** A run of digits is a literal body of its decimal value. */
  lemma BodyValueOfDigits(s: string)
    requires |s| > 0 && AllDigits(s)
    ensures BodyValue(s) == Success(DigitsValue(s))
  {
    assert IsIntBody(s);
    DropUnderscoresOfDigits(s);
  }

  /** A run of digits is an integer literal of its decimal value. */
  lemma IntLiteralOfDigits(s: string)
    requires |s| > 0 && AllDigits(s)
    ensures IntLiteral(s) == Success(DigitsValue(s) as int)
  {
    assert IsDigit(s[0]);
    BodyValueOfDigits(s);
  }

  /** A plain run of digits reads as its decimal value. */
  lemma PyIntOfDigits(s: string)
    requires |s| > 0 && AllDigits(s)
    ensures PyInt(s) == Success(DigitsValue(s) as int)
  {
    assert IsDigit(s[0]) && IsDigit(s[|s| - 1]);
    StripSpacesUnchanged(s);
    IntLiteralOfDigits(s);
  }

  /** A minus sign before a run of digits negates its value. */
  lemma IntLiteralOfNegative(t: string)
    requires |t| > 1 && t[0] == '-' && AllDigits(t[1..])
    ensures IntLiteral(t) == Success(-(DigitsValue(t[1..]) as int))
  {
    BodyValueOfDigits(t[1..]);
  }

  /** `int(str(n)) == n`. */
  lemma PyIntOfIntToString(n: int)
    ensures PyInt(IntToString(n)) == Success(n)
  {
    if n < 0 {
      PyIntOfNegativeString(n);
    } else {
      NatToStringRoundTrip(n);
      PyIntOfDigits(NatToString(n));
    }
  }

  /** `int(str(n)) == n` for a negative `n`: a minus sign, then the digits of `-n`. */
  lemma PyIntOfNegativeString(n: int)
    requires n < 0
    ensures PyInt(IntToString(n)) == Success(n)
  {
    var m: nat := -n;
    NatToStringRoundTrip(m);
    PyIntOfSigned("-" + NatToString(m), NatToString(m));
  }

  /** A minus sign and digits, with nothing around them, read as the negated value. */
  lemma PyIntOfSigned(t: string, digits: string)
    requires t == "-" + digits && |digits| > 0 && AllDigits(digits)
    ensures PyInt(t) == Success(-(DigitsValue(digits) as int))
  {
    SignedIsStripped(t, digits);
    PyIntOfStripped(t);
    assert t[1..] == digits;
    IntLiteralOfNegative(t);
  }

  /** Text that `strip` leaves alone is read as it stands. */
  lemma PyIntOfStripped(s: string)
    requires StripSpaces(s) == s
    ensures PyInt(s) == IntLiteral(s)
  {
  }

  /** `strip` leaves a minus sign followed by digits alone. */
  lemma SignedIsStripped(t: string, digits: string)
    requires t == "-" + digits && |digits| > 0 && AllDigits(digits)
    ensures StripSpaces(t) == t
  {
    var last := digits[|digits| - 1];
    assert IsDigit(last) && t[|t| - 1] == last;
    StripSpacesUnchanged(t);
  }

  /** A text whose first character is a `v` is no integer. */
  lemma PyIntRejectsPrefix(s: string)
    requires |s| > 0 && s[0] == 'v'
    ensures PyInt(s).Failure?
  {
    StripSpacesKeepsHead(s);
  }

  // ---------------------------------------------------------------------------
  // extract_major_version and parse_compatibility_level
  // ---------------------------------------------------------------------------

  /** `extract_major_version`: `int()` of the text before the first `.`. */
  function ExtractMajorVersion(version: string): (r: Result<int, Errors.Error>)
    ensures r.Failure? ==> r.error == Errors.ValueError
  {
    PyInt(Split(version, '.')[0])
  }

  /**
   * A no-break space in front of the major number is whitespace to `int()`:
   * the major version of `"\U{00A0}1.2.3"` is 1.
   */
  lemma MajorAfterNoBreakSpace(version: string)
    requires version == "\U{00A0}1.2.3"
    ensures ExtractMajorVersion(version) == Success(1)
  {
    var head := "\U{00A0}1";
    assert version == head + ['.'] + "2.3";
    SplitFirst(head, '.', "2.3");
    assert StripSpaces(head) == StripSpaces(head[1..]);
    assert head[1..] == "1";
    PyIntOfDigits("1");
    assert DigitsValue("1") == 1;
  }

  /** The first part of a split is the text before the first separator. */
  lemma SplitFirst(a: string, sep: char, rest: string)
    requires sep !in a
    ensures Split(a + [sep] + rest, sep)[0] == a
  {
    var parts := Split(rest, sep);
    var all := [a] + parts;
    assert all[1..] == parts;
    assert Join(all, sep) == a + [sep] + rest;
    forall i | 0 <= i < |all| ensures sep !in all[i] {
      if i > 0 {
        assert all[i] == parts[i - 1];
      }
    }
    SplitJoin(all, sep);
  }

  /** The major number of `<digits>.<anything>` is the value of the digits. */
  lemma MajorOfDotted(a: string, rest: string)
    requires |a| > 0 && AllDigits(a)
    ensures ExtractMajorVersion(a + "." + rest) == Success(DigitsValue(a) as int)
  {
    SemVer.DigitsHaveNoSeparator(a, '.');
    SplitFirst(a, '.', rest);
    PyIntOfDigits(a);
  }

  /**
   * For a text that parses as a semantic version the audit's major number
   * is the semantic major number, the one `ModuleFileContent.major_version`
   * reads.
   */
  lemma MajorAgreesWithSemVer(s: string)
    requires SemVer.Parse(s).Some?
    ensures ExtractMajorVersion(s) == Success(SemVer.Parse(s).value.major as int)
  {
    SemVer.FormatParse(s);
    MajorOfFormat(SemVer.Parse(s).value);
  }

  /** The major number of a printed semantic version is its major field. */
  lemma MajorOfFormat(v: SemVer.SemVer)
    ensures ExtractMajorVersion(SemVer.Format(v)) == Success(v.major as int)
  {
    var a := NatToString(v.major);
    var rest := NatToString(v.minor) + "." + NatToString(v.patch) + SemVer.FormatPre(v.pre) + SemVer.FormatBuild(v.build);
    assert SemVer.Format(v) == a + "." + rest;
    MajorOfDotted(a, rest);
    NatToStringRoundTrip(v.major);
  }

  /**
   * `parse_compatibility_level` on the text of a MODULE.bazel: the value of
   * the digits of the first `compatibility_level\s*=\s*\d+`, absent exactly
   * when the text has no such match.
   */
  function ParseCompatibilityLevel(content: string): (r: Option<nat>)
    ensures r.Some? <==> exists m :: IsLevelMatch(content, m)
  {
    match FindLevel(content)
    case None => None
    case Some(m) => Some(DigitsValue(LevelDigits(content, m)))
  }

  /** The audit and the update pipeline read the same level out of a MODULE.bazel. */
  lemma LevelAgreesWithModuleParser(content: string)
    ensures ParseCompatibilityLevel(content) == ParseModuleFileContent(content).compLevel
  {
    ParseModuleFileContentFields(content);
  }

  // ---------------------------------------------------------------------------
  // One check per listed version
  // ---------------------------------------------------------------------------

  /** The `type` of a `CheckResult`. */
  datatype ResultType = Ok | Warning | Error

  /** `CheckResult`; `line` keeps its default of 1. */
  datatype CheckResult = CheckResult(kind: ResultType, file: string, msg: string, line: int)

  /** What the audit reads: the state of each module directory, and the text of each MODULE.bazel. */
  datatype Tree = Tree(metadata: string -> MetadataFile, text: string -> Option<string>)

  /** `module / version / "MODULE.bazel"`. */
  function ModuleBazelPath(moduleDir: string, version: string): (p: string)
    ensures |p| > |moduleDir| && p[..|moduleDir|] == moduleDir
  {
    moduleDir + "/" + version + "/MODULE.bazel"
  }

  /** The result for a version whose major number and declared level are known. */
  function Classify(file: string, version: string, major: int, level: Option<nat>): (r: CheckResult)
    ensures r.file == file && r.line == 1
    ensures r.kind == Warning <==> level.None?
    ensures r.kind == Error <==> level.Some? && level.value != major
    ensures r.kind == Ok <==> level.Some? && level.value == major
  {
    match level
    case None => CheckResult(Warning, file, "missing compatibility_level", 1)
    case Some(l) =>
      if l != major then
        CheckResult(Error, file, "compatibility_level " + NatToString(l) + " does not match "
          + "major version " + IntToString(major) + " (from version " + version + ")", 1)
      else
        CheckResult(Ok, file, "compatibility_level " + NatToString(l) + " matches "
          + "major version " + IntToString(major), 1)
  }

  /**
   * One iteration of the inner loop. A listed value that is not a string
   * fails the assert; the major number is computed before MODULE.bazel is
   * read, so a non-numeric major part raises even when the file is missing.
   */
  function CheckVersion(tree: Tree, moduleDir: string, item: Json): (r: Result<CheckResult, Errors.Error>)
    ensures !item.JStr? ==> r == Failure(Errors.AssertionError)
    ensures item.JStr? && ExtractMajorVersion(item.s).Failure? ==> r == Failure(Errors.ValueError)
    ensures r.Success? ==> item.JStr? && r.value.file == ModuleBazelPath(moduleDir, item.s)
  {
    if !item.JStr? then Failure(Errors.AssertionError)
    else
      var file := ModuleBazelPath(moduleDir, item.s);
      match ExtractMajorVersion(item.s)
      case Failure(e) => Failure(e)
      case Success(major) =>
        match tree.text(file)
        case None => Failure(Errors.FileMissing)
        case Some(content) => Success(Classify(file, item.s, major, ParseCompatibilityLevel(content)))
  }

  /**
   * The list the inner loop walks: `meta.get("versions", [])` of the decoded
   * metadata.json, which must be a list.
   */
  function VersionsToCheck(file: MetadataFile): (r: Result<seq<Json>, Errors.Error>)
    ensures file.Decoded? && file.data.JObj? && "versions" !in file.data.fields ==> r == Success([])
    ensures r.Success? ==> file.Decoded? && file.data.JObj?
  {
    match file
    case NoModuleDir => Failure(Errors.FileMissing)     // opening metadata.json below a plain file
    case NoMetadataFile => Failure(Errors.FileMissing)
    case Unreadable => Failure(Errors.JsonDecodeError)
    case Decoded(data) =>
      if !data.JObj? then Failure(Errors.AttributeError)  // `.get` on a list, string, number or null
      else
        var versions := Get(data.fields, "versions", JArr([]));
        if versions.JArr? then Success(versions.items) else Failure(Errors.AssertionError)
  }

  /** The results for the listed values of one module, in list order; the first exception ends the audit. */
  function VersionResults(tree: Tree, moduleDir: string, items: seq<Json>): (r: Result<seq<CheckResult>, Errors.Error>)
    ensures r.Success? ==> |r.value| == |items|
    decreases |items|
  {
    if |items| == 0 then Success([])
    else
      match VersionResults(tree, moduleDir, items[..|items| - 1])
      case Failure(e) => Failure(e)
      case Success(rs) =>
        match CheckVersion(tree, moduleDir, items[|items| - 1])
        case Failure(e) => Failure(e)
        case Success(c) => Success(rs + [c])
  }

  /** The results for one module directory. */
  function ModuleResults(tree: Tree, moduleDir: string): Result<seq<CheckResult>, Errors.Error> {
    match VersionsToCheck(tree.metadata(moduleDir))
    case Failure(e) => Failure(e)
    case Success(items) => VersionResults(tree, moduleDir, items)
  }

  /** `analyze`: the results of every module directory in listing order. */
  function AnalyzeSpec(tree: Tree, moduleDirs: seq<string>): (r: Result<seq<CheckResult>, Errors.Error>)
    decreases |moduleDirs|
  {
    if |moduleDirs| == 0 then Success([])
    else
      match AnalyzeSpec(tree, moduleDirs[..|moduleDirs| - 1])
      case Failure(e) => Failure(e)
      case Success(rs) =>
        match ModuleResults(tree, moduleDirs[|moduleDirs| - 1])
        case Failure(e) => Failure(e)
        case Success(more) => Success(rs + more)
  }

  // ---------------------------------------------------------------------------
  // The nested loop
  // ---------------------------------------------------------------------------

  /**
   * `analyze(modules_dir)`: `moduleDirs` is what `iterdir` lists, in its
   * order. Appends one result per listed version and stops at the first
   * exception.
   */
  method Analyze(tree: Tree, moduleDirs: seq<string>) returns (r: Result<seq<CheckResult>, Errors.Error>)
    ensures r == AnalyzeSpec(tree, moduleDirs)
  {
    r := Success([]);
    var i := 0;
    while i < |moduleDirs| && r.Success?
      invariant 0 <= i <= |moduleDirs|
      invariant r.Success? ==> AnalyzeSpec(tree, moduleDirs[..i]) == r
      invariant r.Failure? ==> AnalyzeSpec(tree, moduleDirs) == r
    {
      var moduleDir := moduleDirs[i];
      var more := CheckModule(tree, moduleDir);
      AnalyzeStep(tree, moduleDirs, i);
      if more.Failure? {
        AnalyzeFailureSticks(tree, moduleDirs, i + 1);
        r := Failure(more.error);
      } else {
        r := Success(r.value + more.value);
      }
      i := i + 1;
    }
    if r.Success? {
      assert moduleDirs[..i] == moduleDirs;
    }
  }

  /** The body of the outer loop: reads metadata.json and walks its versions. */
  method CheckModule(tree: Tree, moduleDir: string) returns (r: Result<seq<CheckResult>, Errors.Error>)
    ensures r == ModuleResults(tree, moduleDir)
  {
    var meta := VersionsToCheck(tree.metadata(moduleDir));
    if meta.Failure? {
      r := Failure(meta.error);
    } else {
      var versions := meta.value;
      r := Success([]);
      var j := 0;
      while j < |versions| && r.Success?
        invariant 0 <= j <= |versions|
        invariant r.Success? ==> VersionResults(tree, moduleDir, versions[..j]) == r
        invariant r.Failure? ==> VersionResults(tree, moduleDir, versions) == r
      {
        var c := CheckVersion(tree, moduleDir, versions[j]);
        assert versions[..j + 1][..j] == versions[..j];
        if c.Failure? {
          VersionFailureSticks(tree, moduleDir, versions, j + 1);
          r := Failure(c.error);
        } else {
          r := Success(r.value + [c.value]);
        }
        j := j + 1;
      }
      if r.Success? {
        assert versions[..j] == versions;
      }
    }
  }

  /** `AnalyzeSpec` one module directory further. */
  lemma AnalyzeStep(tree: Tree, moduleDirs: seq<string>, i: nat)
    requires i < |moduleDirs| && AnalyzeSpec(tree, moduleDirs[..i]).Success?
    ensures ModuleResults(tree, moduleDirs[i]).Failure? ==>
      AnalyzeSpec(tree, moduleDirs[..i + 1]) == Failure(ModuleResults(tree, moduleDirs[i]).error)
    ensures ModuleResults(tree, moduleDirs[i]).Success? ==>
      AnalyzeSpec(tree, moduleDirs[..i + 1])
        == Success(AnalyzeSpec(tree, moduleDirs[..i]).value + ModuleResults(tree, moduleDirs[i]).value)
  {
    assert moduleDirs[..i + 1][..i] == moduleDirs[..i];
  }

  /** An exception in a prefix of the listing is the outcome of the whole audit. */
  lemma {:induction false} AnalyzeFailureSticks(tree: Tree, moduleDirs: seq<string>, k: nat)
    requires k <= |moduleDirs| && AnalyzeSpec(tree, moduleDirs[..k]).Failure?
    ensures AnalyzeSpec(tree, moduleDirs) == AnalyzeSpec(tree, moduleDirs[..k])
    decreases |moduleDirs| - k
  {
    if k < |moduleDirs| {
      var p := moduleDirs[..|moduleDirs| - 1];
      assert p[..k] == moduleDirs[..k];
      AnalyzeFailureSticks(tree, p, k);
    } else {
      assert moduleDirs[..k] == moduleDirs;
    }
  }

  /** An exception at a listed version is the outcome of the whole module. */
  lemma {:induction false} VersionFailureSticks(tree: Tree, moduleDir: string, items: seq<Json>, k: nat)
    requires k <= |items| && VersionResults(tree, moduleDir, items[..k]).Failure?
    ensures VersionResults(tree, moduleDir, items) == VersionResults(tree, moduleDir, items[..k])
    decreases |items| - k
  {
    if k < |items| {
      var p := items[..|items| - 1];
      assert p[..k] == items[..k];
      VersionFailureSticks(tree, moduleDir, p, k);
    } else {
      assert items[..k] == items;
    }
  }

  // ---------------------------------------------------------------------------
  // Properties of the audit
  // ---------------------------------------------------------------------------

  /** Exactly one result per listed version, in list order, each naming that version's MODULE.bazel. */
  lemma {:induction false} OneResultPerVersion(tree: Tree, moduleDir: string, items: seq<Json>, k: nat)
    requires VersionResults(tree, moduleDir, items).Success? && k < |items|
    ensures CheckVersion(tree, moduleDir, items[k]).Success?
    ensures VersionResults(tree, moduleDir, items).value[k] == CheckVersion(tree, moduleDir, items[k]).value
    ensures items[k].JStr? && VersionResults(tree, moduleDir, items).value[k].file == ModuleBazelPath(moduleDir, items[k].s)
    decreases |items|
  {
    var p := items[..|items| - 1];
    if k < |items| - 1 {
      assert p[k] == items[k];
      OneResultPerVersion(tree, moduleDir, p, k);
    }
  }

  /** With MODULE.bazel present, the result is ok, warning or error as the declared level matches the major number. */
  lemma CheckVersionClassifies(tree: Tree, moduleDir: string, version: string, content: string, major: int)
    requires ExtractMajorVersion(version) == Success(major)
    requires tree.text(ModuleBazelPath(moduleDir, version)) == Some(content)
    ensures CheckVersion(tree, moduleDir, JStr(version))
      == Success(Classify(ModuleBazelPath(moduleDir, version), version, major, ParseCompatibilityLevel(content)))
    ensures var c := CheckVersion(tree, moduleDir, JStr(version)).value;
      && (c.kind == Warning <==> FindLevel(content).None?)
      && (c.kind == Error <==> FindLevel(content).Some? && ParseCompatibilityLevel(content).value != major)
      && (c.kind == Ok <==> FindLevel(content).Some? && ParseCompatibilityLevel(content).value == major)
  {
  }

  /** A non-numeric major part ends the audit with `ValueError`, whether or not MODULE.bazel exists. */
  lemma NonNumericMajorRaises(tree: Tree, moduleDir: string, rest: string)
    ensures CheckVersion(tree, moduleDir, JStr("v" + rest)) == Failure(Errors.ValueError)
  {
    var s := "v" + rest;
    var parts := Split(s, '.');
    JoinHead(parts, '.');
    assert |parts| == 1 ==> Join(parts, '.') == parts[0];
    assert parts[0] != [] && parts[0][0] == 'v';
    PyIntRejectsPrefix(parts[0]);
  }

  // ---------------------------------------------------------------------------
  // The exit rule
  // ---------------------------------------------------------------------------

  /** `any(r.type == "error" for r in results)`. */
  predicate HasError(results: seq<CheckResult>)
    decreases |results|
  {
    |results| > 0 && (results[0].kind == Error || HasError(results[1..]))
  }

  /** `any` finds an error exactly when one is in the list. */
  lemma {:induction false} HasErrorIff(results: seq<CheckResult>)
    ensures HasError(results) <==> exists i :: 0 <= i < |results| && results[i].kind == Error
    decreases |results|
  {
    if |results| > 0 {
      HasErrorIff(results[1..]);
      if exists i :: 0 <= i < |results| && results[i].kind == Error {
        var i :| 0 <= i < |results| && results[i].kind == Error;
        if i > 0 {
          assert results[1..][i - 1].kind == Error;
        }
      }
      if exists i :: 0 <= i < |results[1..]| && results[1..][i].kind == Error {
        var i :| 0 <= i < |results[1..]| && results[1..][i].kind == Error;
        assert results[i + 1].kind == Error;
      }
    }
  }

  /** The exit status of the script; an exception escaping `analyze` exits with 1 as well. */
  function ExitStatus(outcome: Result<seq<CheckResult>, Errors.Error>): (code: int)
    ensures code == 0 || code == 1
  {
    if outcome.Failure? || HasError(outcome.value) then 1 else 0
  }

  /** The script fails exactly when the audit raised or some result is an error; warnings alone pass. */
  lemma ExitStatusIff(outcome: Result<seq<CheckResult>, Errors.Error>)
    ensures ExitStatus(outcome) == 1 <==>
      outcome.Failure? || exists i :: 0 <= i < |outcome.value| && outcome.value[i].kind == Error
  {
    if outcome.Success? {
      HasErrorIff(outcome.value);
    }
  }

  /** Results that are all ok or warning let the script pass. */
  lemma WarningsAlonePass(results: seq<CheckResult>)
    requires forall i :: 0 <= i < |results| ==> results[i].kind != Error
    ensures ExitStatus(Success(results)) == 0
  {
    HasErrorIff(results);
  }

  // ---------------------------------------------------------------------------
  // Scenarios
  // ---------------------------------------------------------------------------

  /** The major number of `1.2.3` is 1. */
  lemma MajorOfOneTwoThree(v: string)
    requires v == "1.2.3"
    ensures ExtractMajorVersion(v) == Success(1)
  {
    assert v == "1" + "." + "2.3";
    MajorOfDotted("1", "2.3");
  }

  /** The level declared by `CompleteDeclaration` is 2. */
  lemma LevelOfComplete(c: string)
    requires c == CompleteDeclaration
    ensures ParseCompatibilityLevel(c) == Some(2)
    ensures FindLevel(c).Some?
  {
    CompleteLevelMatch(c);
    assert DigitsValue("2") == 2;
  }

  /** `MinimalDeclaration` declares no level. */
  lemma LevelOfMinimal(m: string)
    requires m == MinimalDeclaration
    ensures ParseCompatibilityLevel(m) == None
    ensures FindLevel(m).None?
  {
    assert forall p :: 0 <= p < |m| ==> m[p] != 'v' && m[p] != 'y';
    NoDeclarations(m);
  }

  /** A declaration of level 2 for version 1.2.3 is an error. */
  lemma WrongLevelIsError(tree: Tree, moduleDir: string, v: string)
    requires v == "1.2.3"
    requires tree.text(ModuleBazelPath(moduleDir, v)) == Some(CompleteDeclaration)
    ensures CheckVersion(tree, moduleDir, JStr(v)).Success?
    ensures CheckVersion(tree, moduleDir, JStr(v)).value.kind == Error
    ensures ExitStatus(Success([CheckVersion(tree, moduleDir, JStr(v)).value])) == 1
  {
    MajorOfOneTwoThree(v);
    LevelOfComplete(CompleteDeclaration);
    CheckVersionClassifies(tree, moduleDir, v, CompleteDeclaration, 1);
  }

  /** A declaration without a level is a warning, and a warning alone lets the script pass. */
  lemma MissingLevelWarns(tree: Tree, moduleDir: string, v: string)
    requires v == "1.2.3"
    requires tree.text(ModuleBazelPath(moduleDir, v)) == Some(MinimalDeclaration)
    ensures CheckVersion(tree, moduleDir, JStr(v)).Success?
    ensures CheckVersion(tree, moduleDir, JStr(v)).value.kind == Warning
    ensures ExitStatus(Success([CheckVersion(tree, moduleDir, JStr(v)).value])) == 0
  {
    MajorOfOneTwoThree(v);
    LevelOfMinimal(MinimalDeclaration);
    CheckVersionClassifies(tree, moduleDir, v, MinimalDeclaration, 1);
    WarningsAlonePass([CheckVersion(tree, moduleDir, JStr(v)).value]);
  }
}
