/**
 * Reading the registry: the `versions` list of a module's metadata.json,
 * the validation of a decoded metadata.json, and the walk over the modules
 * directory (`bazel_wrapper.py`).
 *
 * The file system is a parameter: `disk` tells, for a module directory,
 * whether it exists, whether it holds a metadata.json and what that file
 * decodes to; `listing` is what `iterdir` yields for `modules/`.
 */
module Metadata {
  import opened Wrappers
  import opened Text
  import opened Json
  import opened Errors
  import opened Versions
  import opened RegistryModel

  // ---------------------------------------------------------------------------
  // The versions list
  // ---------------------------------------------------------------------------

  /** Each version is not below the one after it. */
  predicate AdjacentDescending(vs: seq<Version>) {
    forall i :: 0 <= i < |vs| - 1 ==> !Less(vs[i], vs[i + 1])
  }

  /** All versions parse, or none of them does: the cases in which `<` orders them. */
  predicate Homogeneous(vs: seq<Version>) {
    (forall v :: v in vs ==> IsSemVer(v)) || (forall v :: v in vs ==> !IsSemVer(v))
  }

  /** `[Version(v) for v in raw_versions]`: the first entry that is not a string raises `TypeError`. */
  function VersionsOf(items: seq<Json>): (r: Result<seq<Version>, Error>)
    ensures r.Success? <==> forall i :: 0 <= i < |items| ==> items[i].JStr?
    ensures r.Failure? ==> r.error == TypeError
    ensures r.Success? ==> |r.value| == |items|
    ensures r.Success? ==> forall i :: 0 <= i < |items| ==> r.value[i] == FromString(items[i].s)
  {
    if |items| == 0 then Success([])
    else
      match FromJson(items[0])
      case Failure(e) => Failure(e)
      case Success(v) =>
        match VersionsOf(items[1..])
        case Failure(e) => Failure(e)
        case Success(rest) =>
          assert forall i :: 1 <= i < |items| ==> items[i] == items[1..][i - 1];
          Success([v] + rest)
  }

  /** Places `x` after the leading entries it is below: one step of a stable descending sort. */
  function Insert(x: Version, s: seq<Version>): (r: seq<Version>)
    ensures multiset(r) == multiset(s) + multiset{x}
    ensures |r| == |s| + 1 && (r[0] == x || (|s| > 0 && r[0] == s[0]))
    ensures AdjacentDescending(s) ==> AdjacentDescending(r)
  {
    if |s| == 0 || !Less(x, s[0]) then [x] + s
    else
      var tail := Insert(x, s[1..]);
      assert s == [s[0]] + s[1..];
      LessAsymmetric(x, s[0]);
      [s[0]] + tail
  }

  /**
   * The newest-first order of the versions list, as a stable insertion sort
   * on `<`: where `<` orders the list (all entries semantic, or none) this
   * is the one stable descending order; on mixed lists it is one
   * adjacent-descending permutation among several (see MixedSortExample).
   */
  function SortDescending(vs: seq<Version>): (r: seq<Version>)
    ensures multiset(r) == multiset(vs)
    ensures AdjacentDescending(r)
  {
    if |vs| == 0 then []
    else
      assert vs == [vs[0]] + vs[1..];
      Insert(vs[0], SortDescending(vs[1..]))
  }

  lemma {:induction false} AdjacentReaches(r: seq<Version>, i: nat, j: nat)
    requires AdjacentDescending(r) && Homogeneous(r) && i < j < |r|
    ensures !Less(r[i], r[j])
    decreases j - i
  {
    if j > i + 1 {
      AdjacentReaches(r, i + 1, j);
      NotLessTransitive(r[i], r[i + 1], r[j]);
    }
  }

  /** Where `<` orders the entries, neighbours in order means the whole list in order. */
  lemma AdjacentToDescending(r: seq<Version>)
    requires AdjacentDescending(r) && Homogeneous(r)
    ensures Descending(r)
  {
    forall i, j | 0 <= i < j < |r|
      ensures !Less(r[i], r[j])
    {
      AdjacentReaches(r, i, j);
    }
  }

  /** Two lists with the same entries are homogeneous together. */
  lemma HomogeneousPermutation(a: seq<Version>, b: seq<Version>)
    requires multiset(a) == multiset(b) && Homogeneous(a)
    ensures Homogeneous(b)
  {
    assert forall v :: v in b ==> v in multiset(b);
    assert forall v :: v in a <==> v in multiset(a);
  }

  /**
   * `_parse_versions`: null gives no versions, a value that is not a list is
   * fatal, and a list gives its versions, latest first.
   */
  function ParseVersions(raw: Json): (r: Result<seq<Version>, Error>)
    ensures raw.JNull? ==> r == Success([])
    ensures !raw.JNull? && !raw.JArr? ==> r == Failure(Fatal)
    ensures raw.JArr? ==> (r.Success? <==> forall i :: 0 <= i < |raw.items| ==> raw.items[i].JStr?)
    ensures raw.JArr? && r.Failure? ==> r.error == TypeError
    ensures raw.JArr? && r.Success? ==> multiset(r.value) == multiset(VersionsOf(raw.items).value)
    ensures r.Success? ==> AdjacentDescending(r.value) && forall v :: v in r.value ==> Valid(v)
  {
    match raw
    case JNull => Success([])
    case JArr(items) =>
      (match VersionsOf(items)
       case Failure(e) => Failure(e)
       case Success(vs) =>
         var sorted := SortDescending(vs);
         assert forall v :: v in sorted ==> v in multiset(vs);
         Success(sorted))
    case _ => Failure(Fatal)
  }

  /** When all entries parse, or none does, the result is sorted latest first. */
  lemma ParseVersionsDescending(raw: Json)
    requires ParseVersions(raw).Success? && Homogeneous(ParseVersions(raw).value)
    ensures Descending(ParseVersions(raw).value)
  {
    AdjacentToDescending(ParseVersions(raw).value);
  }

  /** Every entry of the list is kept, whether it parses or not. */
  lemma ParseVersionsKeepsAll(raw: Json, i: nat)
    requires raw.JArr? && ParseVersions(raw).Success? && i < |raw.items|
    ensures raw.items[i].JStr? && FromString(raw.items[i].s) in ParseVersions(raw).value
  {
    var vs := VersionsOf(raw.items).value;
    assert vs[i] in multiset(vs);
  }

  // ---------------------------------------------------------------------------
  // metadata.json
  // ---------------------------------------------------------------------------

  /** What a module directory holds, as `try_parse_metadata_json` finds it. */
  datatype MetadataFile =
    | NoModuleDir            // the directory does not exist (or is not a directory)
    | NoMetadataFile         // the directory has no metadata.json
    | Unreadable             // reading or decoding raised `OSError` or `JSONDecodeError`
    | Decoded(data: Json)    // `json.load` succeeded

  /** The warnings `try_parse_metadata_json` logs. */
  datatype MetadataWarning =
    | MissingMetadata
    | NotScorePrefixed
    | Undecodable
    | InvalidRepository
    | NonGitHubRepository

  const ScorePrefix: string := "score_"
  const GitHubPrefix: string := "github:"

  predicate StartsWith(s: string, prefix: string) {
    OccursAt(s, prefix, 0)
  }

  lemma PrefixSplit(s: string, prefix: string)
    requires StartsWith(s, prefix)
    ensures s == prefix + s[|prefix|..]
  {
    assert s[..|prefix|] == prefix;
  }

  /** The outcome of reading one metadata.json and the warnings logged on the way. */
  datatype Parsed = Parsed(outcome: Result<Option<BazelModuleInfo>, Error>, warnings: seq<MetadataWarning>)

  /** The document is an object whose `repository` is a one-element list holding a `github:` string. */
  predicate IsGitHubRepository(data: Json) {
    && data.JObj? && "repository" in data.fields
    && data.fields["repository"].JArr? && |data.fields["repository"].items| == 1
    && data.fields["repository"].items[0].JStr?
    && StartsWith(data.fields["repository"].items[0].s, GitHubPrefix)
  }

  /** `data.get("versions", [])` on an object. */
  function VersionsField(data: Json): Json
    requires data.JObj?
  {
    Get(data.fields, "versions", JArr([]))
  }

  /** Whether `validate` yields a module. */
  predicate Yields(p: Parsed) {
    p.outcome.Success? && p.outcome.value.Some?
  }

  /**
   * The checks on the decoded document, from `"repository" not in data` on.
   * On a decoded list `in` tests membership and on a string it tests for a
   * substring; indexing either with `"repository"` then raises `TypeError`,
   * as does `in` on a number, a boolean or null.
   */
  function ValidateMetadata(dir: string, data: Json): (r: Parsed)
    ensures Yields(r) <==> IsGitHubRepository(data) && ParseVersions(VersionsField(data)).Success?
    ensures Yields(r) ==>
      var m := r.outcome.value.value;
      && m.path == dir && m.name == LastSegment(dir, '/')
      && data.fields["repository"] == JArr([JStr(GitHubPrefix + m.orgAndRepo)])
      && Success(m.versions) == ParseVersions(VersionsField(data))
      && m.periodicPull == Truthy(Get(data.fields, "periodic-pull", JBool(false)))
      && m.obsolete == Truthy(Get(data.fields, "obsolete", JBool(false)))
    ensures r.outcome.Failure? ==> r.outcome.error == TypeError || r.outcome.error == Fatal
    ensures NotScorePrefixed !in r.warnings
  {
    match data
    case JObj(fields) =>
      if !IsGitHubRepository(data) then
        if "repository" !in fields || !fields["repository"].JArr? || |fields["repository"].items| != 1 then
          Parsed(Success(None), [InvalidRepository])
        else
          Parsed(Success(None), [NonGitHubRepository])
      else
        var repo := fields["repository"].items[0];
        (match ParseVersions(VersionsField(data))
         case Failure(e) => Parsed(Failure(e), [])
         case Success(versions) =>
           PrefixSplit(repo.s, GitHubPrefix);
           assert fields["repository"].items == [repo];
           Parsed(Success(Some(BazelModuleInfo(
             dir,
             LastSegment(dir, '/'),
             repo.s[|GitHubPrefix|..],
             versions,
             Truthy(Get(fields, "periodic-pull", JBool(false))),
             Truthy(Get(fields, "obsolete", JBool(false)))))), []))
    case JArr(items) =>
      if JStr("repository") in items then Parsed(Failure(TypeError), [])
      else Parsed(Success(None), [InvalidRepository])
    case JStr(s) =>
      if Contains(s, "repository") then Parsed(Failure(TypeError), [])
      else Parsed(Success(None), [InvalidRepository])
    case _ => Parsed(Failure(TypeError), [])
  }

  /**
   * `try_parse_metadata_json` for the metadata.json of directory `dir`.
   * A module is accepted exactly when the document is an object whose
   * `repository` is a one-element list holding `github:<org/repo>` and whose
   * `versions` parse; the `score_` prefix of the name plays no part in it.
   */
  function TryParseMetadataJson(dir: string, file: MetadataFile): (r: Parsed)
    ensures Yields(r) <==>
      file.Decoded? && IsGitHubRepository(file.data) && ParseVersions(VersionsField(file.data)).Success?
    ensures Yields(r) ==> r == ValidateMetadata(dir, file.data).(warnings := r.warnings)
    ensures r.outcome.Failure? ==> file.Decoded? && (r.outcome.error == TypeError || r.outcome.error == Fatal)
    ensures (NotScorePrefixed in r.warnings) <==>
      !file.NoModuleDir? && !file.NoMetadataFile? && !StartsWith(LastSegment(dir, '/'), ScorePrefix)
  {
    match file
    case NoModuleDir => Parsed(Success(None), [])
    case NoMetadataFile => Parsed(Success(None), [MissingMetadata])
    case Unreadable =>
      var prefixWarning := if StartsWith(LastSegment(dir, '/'), ScorePrefix) then [] else [NotScorePrefixed];
      Parsed(Success(None), prefixWarning + [Undecodable])
    case Decoded(data) =>
      var prefixWarning := if StartsWith(LastSegment(dir, '/'), ScorePrefix) then [] else [NotScorePrefixed];
      var v := ValidateMetadata(dir, data);
      Parsed(v.outcome, prefixWarning + v.warnings)
  }

  /** Whether a module is accepted, and whether reading it fails, does not depend on the directory's name. */
  lemma NameOnlyWarns(dir1: string, dir2: string, file: MetadataFile)
    ensures Yields(TryParseMetadataJson(dir1, file)) == Yields(TryParseMetadataJson(dir2, file))
    ensures TryParseMetadataJson(dir1, file).outcome.Failure? == TryParseMetadataJson(dir2, file).outcome.Failure?
  {
    if file.Decoded? {
      var d := file.data;
      if d.JObj? && IsGitHubRepository(d) {
        assert ValidateMetadata(dir1, d).outcome.Failure? == ParseVersions(VersionsField(d)).Failure?;
        assert ValidateMetadata(dir2, d).outcome.Failure? == ParseVersions(VersionsField(d)).Failure?;
      }
    }
  }

  // ---------------------------------------------------------------------------
  // read_modules
  // ---------------------------------------------------------------------------

  /** The directory of a module: `modules/<name>`. */
  function ModuleDir(name: string): string {
    "modules/" + name
  }

  /** What `try_parse_metadata_json` gives for the module directory of an entry. */
  function EntryOutcome(name: string, disk: string -> MetadataFile): Result<Option<BazelModuleInfo>, Error> {
    TryParseMetadataJson(ModuleDir(name), disk(ModuleDir(name))).outcome
  }

  /** One iteration of the walk: how the modules read so far change with the outcome of the next entry. */
  function ReadStep(modules: seq<BazelModuleInfo>, outcome: Result<Option<BazelModuleInfo>, Error>, named: bool)
    : (r: Result<seq<BazelModuleInfo>, Error>)
    ensures outcome.Failure? ==> r == Failure(outcome.error)
    ensures outcome == Success(None) ==> r == (if named then Failure(Fatal) else Success(modules))
    ensures outcome.Success? && outcome.value.Some? ==>
      r == Success(if outcome.value.value.obsolete then modules else modules + [outcome.value.value])
  {
    match outcome
    case Failure(e) => Failure(e)
    case Success(None) => if named then Failure(Fatal) else Success(modules)
    case Success(Some(m)) => if m.obsolete then Success(modules) else Success(modules + [m])
  }

  /**
   * What reading the entries `names` one after the other gives: the modules
   * that are not obsolete, in order. With `named`, an entry that yields no
   * module is fatal; otherwise it is skipped. An error ends the walk.
   */
  function ReadSpec(names: seq<string>, named: bool, disk: string -> MetadataFile): (r: Result<seq<BazelModuleInfo>, Error>)
    ensures r.Success? ==> |r.value| <= |names|
    ensures r.Success? ==> forall m :: m in r.value ==> !m.obsolete
    decreases |names|
  {
    if |names| == 0 then Success([])
    else
      match ReadSpec(names[..|names| - 1], named, disk)
      case Failure(e) => Failure(e)
      case Success(modules) => ReadStep(modules, EntryOutcome(names[|names| - 1], disk), named)
  }

  /** Once the walk has failed, reading more entries keeps the failure. */
  lemma {:induction false} ReadSpecFailureSticks(names: seq<string>, k: nat, named: bool, disk: string -> MetadataFile)
    requires k <= |names| && ReadSpec(names[..k], named, disk).Failure?
    ensures ReadSpec(names, named, disk) == ReadSpec(names[..k], named, disk)
    decreases |names| - k
  {
    if k < |names| {
      var p := names[..|names| - 1];
      assert p[..k] == names[..k];
      ReadSpecFailureSticks(p, k, named, disk);
    } else {
      assert names[..k] == names;
    }
  }

  /** The entries a walk visits: the given names, or the directory listing when none are given. */
  function Entries(moduleNames: Option<seq<string>>, listing: seq<string>): seq<string> {
    if moduleNames.Some? && |moduleNames.value| > 0 then moduleNames.value else listing
  }

  /** Whether the walk is over named modules (`if module_names:`). */
  predicate IsNamed(moduleNames: Option<seq<string>>) {
    moduleNames.Some? && |moduleNames.value| > 0
  }

  /** `read_modules`: walks the named modules, or every entry of `modules/`, collecting modules. */
  method ReadModules(moduleNames: Option<seq<string>>, listing: seq<string>, disk: string -> MetadataFile)
    returns (r: Result<seq<BazelModuleInfo>, Error>)
    ensures r == ReadSpec(Entries(moduleNames, listing), IsNamed(moduleNames), disk)
  {
    var names := Entries(moduleNames, listing);
    var named := IsNamed(moduleNames);
    var modules: seq<BazelModuleInfo> := [];
    var i := 0;
    while i < |names|
      invariant 0 <= i <= |names|
      invariant ReadSpec(names[..i], named, disk) == Success(modules)
    {
      var next := ReadEntry(modules, names[i], named, disk);
      ReadSpecNext(names, i, named, disk);
      if next.Failure? {
        ReadSpecFailureSticks(names, i + 1, named, disk);
        return next;
      }
      modules := next.value;
      i := i + 1;
    }
    assert names[..i] == names;
    return Success(modules);
  }

  /** One iteration of `read_modules`: the modules read so far, extended by the entry `name`, or the error. */
  method ReadEntry(modules: seq<BazelModuleInfo>, name: string, named: bool, disk: string -> MetadataFile)
    returns (r: Result<seq<BazelModuleInfo>, Error>)
    ensures r == ReadStep(modules, EntryOutcome(name, disk), named)
  {
    var dir := ModuleDir(name);
    var outcome := TryParseMetadataJson(dir, disk(dir)).outcome;
    if outcome.Failure? {
      return Failure(outcome.error);
    }
    if outcome.value.None? {
      if named {
        return Failure(Fatal);
      }
      return Success(modules);
    } else if !outcome.value.value.obsolete {
      return Success(modules + [outcome.value.value]);
    }
    return Success(modules);
  }

  /** `ReadSpec` one entry further. */
  lemma ReadSpecNext(names: seq<string>, i: nat, named: bool, disk: string -> MetadataFile)
    requires i < |names| && ReadSpec(names[..i], named, disk).Success?
    ensures ReadSpec(names[..i + 1], named, disk)
      == ReadStep(ReadSpec(names[..i], named, disk).value, EntryOutcome(names[i], disk), named)
  {
    assert names[..i + 1][..i] == names[..i];
  }

  /** A named module that does not yield a module stops the run. */
  lemma NamedMissingIsFatal(names: seq<string>, k: nat, disk: string -> MetadataFile)
    requires k < |names| && ReadSpec(names[..k], true, disk).Success?
    requires EntryOutcome(names[k], disk) == Success(None)
    ensures ReadSpec(names, true, disk) == Failure(Fatal)
  {
    ReadSpecNext(names, k, true, disk);
    ReadSpecFailureSticks(names, k + 1, true, disk);
  }

  /** Each module read is the module of one of the entries, and it is not obsolete. */
  lemma {:induction false} ReadSpecModulesFromEntries(names: seq<string>, named: bool, disk: string -> MetadataFile)
    requires ReadSpec(names, named, disk).Success?
    ensures forall m :: m in ReadSpec(names, named, disk).value ==>
      !m.obsolete && exists k :: 0 <= k < |names| && EntryOutcome(names[k], disk) == Success(Some(m))
    decreases |names|
  {
    if |names| > 0 {
      var p := names[..|names| - 1];
      ReadSpecModulesFromEntries(p, named, disk);
      forall m | m in ReadSpec(names, named, disk).value
        ensures exists k :: 0 <= k < |names| && EntryOutcome(names[k], disk) == Success(Some(m))
      {
        if m in ReadSpec(p, named, disk).value {
          var k :| 0 <= k < |p| && EntryOutcome(p[k], disk) == Success(Some(m));
          assert p[k] == names[k];
        } else {
          assert EntryOutcome(names[|names| - 1], disk) == Success(Some(m));
        }
      }
    }
  }

  // ---------------------------------------------------------------------------
  // tests/test_module_reading.py: versions sorted by precedence, not by text
  // ---------------------------------------------------------------------------

  /** Three versions given out of order come out by precedence. */
  lemma SortThree(a: Version, b: Version, c: Version)
    requires a.sem == Some(SemVer.SemVer(1, 0, 9, [], []))
    requires b.sem == Some(SemVer.SemVer(1, 0, 10, [], []))
    requires c.sem == Some(SemVer.SemVer(1, 0, 2, [], []))
    ensures SortDescending([a, b, c]) == [b, a, c]
  {
    assert [a, b, c][1..] == [b, c];
    assert [b, c][1..] == [c];
    assert SortDescending([c]) == Insert(c, []) == [c];
    assert Insert(b, [c]) == [b, c];
    assert Insert(a, [c]) == [a, c];
    assert Insert(a, [b, c]) == [b] + Insert(a, [c]);
  }

  /**
   * On a list mixing semantic and non-semantic versions, where `<` is cyclic
   * (`MixedLessCycle`), the insertion sort keeps 1.0.9 first and puts
   * 1.0.1x before 1.0.10.
   */
  lemma MixedSortExample(x: string, y: string, z: string)
    requires x == "1.0.9" && y == "1.0.10" && z == "1.0.1x"
    ensures var a, b, c := FromString(x), FromString(y), FromString(z);
      SortDescending([a, b, c]) == [a, c, b]
  {
    MixedLessCycle();
    SortCycle(FromString(x), FromString(y), FromString(z));
  }

  /** Three entries with `b < c < a`: `a` stays first and `c` moves before `b`. */
  lemma SortCycle(a: Version, b: Version, c: Version)
    requires Less(b, c) && Less(c, a)
    ensures SortDescending([a, b, c]) == [a, c, b]
  {
    LessAsymmetric(a, c);
    assert [a, b, c][1..] == [b, c];
    assert [b, c][1..] == [c];
    assert SortDescending([c]) == Insert(c, []) == [c];
    assert Insert(b, [c]) == [c] + Insert(b, []);
    assert Insert(a, [c, b]) == [a, c, b];
  }

  /** The entries of a list of strings, read one by one. */
  lemma VersionsOfThree(x: string, y: string, z: string)
    ensures VersionsOf(StrArray([x, y, z]).items) == Success([FromString(x), FromString(y), FromString(z)])
  {
    var items := StrArray([x, y, z]).items;
    assert items == [JStr(x), JStr(y), JStr(z)];
    var r := VersionsOf(items);
    assert r.Success? && |r.value| == 3;
    assert r.value == [FromString(x), FromString(y), FromString(z)];
  }

  /** `["1.0.9", "1.0.10", "1.0.2"]` reads as 1.0.10, 1.0.9, 1.0.2, and 1.0.10 is the latest version. */
  lemma SortedByPrecedenceExample(m: BazelModuleInfo, x: string, y: string, z: string)
    requires x == "1.0.9" && y == "1.0.10" && z == "1.0.2"
    requires Success(m.versions) == ParseVersions(StrArray([x, y, z]))
    ensures m.versions == [FromString(y), FromString(x), FromString(z)]
    ensures LatestVersion(m) == Success(FromString(y))
  {
    var a, b, c := FromString(x), FromString(y), FromString(z);
    Digits();
    Plain(x, 1, 0, 9);
    Plain(z, 1, 0, 2);
    Text1010(y);
    VersionsOfThree(x, y, z);
    ParseVersionsOfList(StrArray([x, y, z]));
    SortThree(a, b, c);
  }

  /** A list whose entries all read as versions is read, then sorted latest first. */
  lemma ParseVersionsOfList(raw: Json)
    requires raw.JArr? && VersionsOf(raw.items).Success?
    ensures ParseVersions(raw) == Success(SortDescending(VersionsOf(raw.items).value))
  {
  }
}
