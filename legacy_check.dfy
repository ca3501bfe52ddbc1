/**
 * `scripts/check_and_update_modules.py`, the older update script: it reads
 * the version each module last recorded, asks GitHub for each configured
 * repository's latest release, lists the modules whose release differs,
 * and hands each listed one to the legacy generator.
 */
module LegacyCheck {
  import opened Wrappers
  import opened Errors
  import opened Text
  import opened Json
  import opened Metadata
  import opened LegacyGenerate
  import UpdateRunner

  // ---------------------------------------------------------------------------
  // get_actual_versions_from_metadata
  // ---------------------------------------------------------------------------

  /**
   * What is stored for a decoded metadata.json: the last element of a
   * non-empty `versions`, else `None`. Every exception inside the `try`
   * (`.get` on a non-object, indexing an object, a number or a boolean with
   * `-1`) is caught and also stores `None`; indexing a string gives its last
   * character.
   */
  function Recorded(data: Json): (r: Option<Json>)
  {
    if !data.JObj? then None
    else
      var versions := Get(data.fields, "versions", JArr([]));
      if !Truthy(versions) then None
      else match versions
        case JArr(items) => Some(items[|items| - 1])
        case JStr(s) => Some(JStr([s[|s| - 1]]))
        case _ => None
  }

  /** The directory exists and holds a metadata.json. */
  predicate HasMetadata(f: MetadataFile) {
    !f.NoModuleDir? && !f.NoMetadataFile?
  }

  /** The entry for a module directory with a metadata.json; an unreadable file stores `None`. */
  function RecordedOf(f: MetadataFile): Option<Json>
    requires HasMetadata(f)
  {
    if f.Unreadable? then None else Recorded(f.data)
  }

  /**
   * `get_actual_versions_from_metadata`: `names` is what `os.listdir` lists,
   * `metadata` the state of each `modules/<name>`. Exactly the directories
   * with a metadata.json get an entry.
   */
  method ActualVersions(metadata: string -> MetadataFile, names: seq<string>) returns (actual: map<string, Option<Json>>)
    ensures forall n :: n in actual <==> n in names && HasMetadata(metadata(n))
    ensures forall n :: n in actual ==> actual[n] == RecordedOf(metadata(n))
  {
    actual := map[];
    for i := 0 to |names|
      invariant forall n :: n in actual <==> n in names[..i] && HasMetadata(metadata(n))
      invariant forall n :: n in actual ==> actual[n] == RecordedOf(metadata(n))
    {
      var name := names[i];
      var f := metadata(name);
      assert names[..i + 1] == names[..i] + [name];
      if HasMetadata(f) {
        if f.Unreadable? || !f.data.JObj? {
          actual := actual[name := None];
        } else {
          var versions := Get(f.data.fields, "versions", JArr([]));
          if !Truthy(versions) {
            actual := actual[name := None];
          } else if versions.JArr? {
            actual := actual[name := Some(versions.items[|versions.items| - 1])];
          } else if versions.JStr? {
            actual := actual[name := Some(JStr([versions.s[|versions.s| - 1]]))];
          } else {
            actual := actual[name := None];
          }
        }
      }
    }
    assert names[..|names|] == names;
  }

  /** The recorded version is the last listed one, whatever the order of the list. */
  lemma RecordedIsLast(fields: map<string, Json>, items: seq<Json>)
    requires "versions" in fields && fields["versions"] == JArr(items)
    ensures |items| > 0 ==> Recorded(JObj(fields)) == Some(items[|items| - 1])
    ensures |items| == 0 ==> Recorded(JObj(fields)) == None
  {
  }

  /** After the legacy generator added a version, that version is the one recorded. */
  lemma GeneratedVersionIsRecorded(files: map<string, UpdateRunner.FileData>, modulePath: string, version: string, repo: string)
    requires var path := MetadataPath(modulePath);
      || path !in files
      || (&& files[path].JsonFile? && files[path].doc.JObj?
          && "versions" in files[path].doc.fields && files[path].doc.fields["versions"].JArr?
          && JStr(version) !in files[path].doc.fields["versions"].items)
    ensures var w := ChangeMetadataSpec(files, modulePath, version, repo);
      && w.outcome.Success?
      && w.files[MetadataPath(modulePath)].JsonFile?
      && Recorded(w.files[MetadataPath(modulePath)].doc) == Some(JStr(version))
  {
    var path := MetadataPath(modulePath);
    if path in files {
      var items := files[path].doc.fields["versions"].items + [JStr(version)];
      assert items[|items| - 1] == JStr(version);
    }
  }

  /** A version already listed earlier in the list is not re-appended, so the recorded version stays the last one. */
  lemma ListedVersionNotRecordedAgain(files: map<string, UpdateRunner.FileData>, modulePath: string, version: string, repo: string,
                                      fields: map<string, Json>, items: seq<Json>)
    requires MetadataPath(modulePath) in files
    requires files[MetadataPath(modulePath)] == UpdateRunner.JsonFile(JObj(fields))
    requires "versions" in fields && fields["versions"] == JArr(items)
    requires JStr(version) in items && items[|items| - 1] != JStr(version)
    ensures var w := ChangeMetadataSpec(files, modulePath, version, repo);
      && w.outcome.Success?
      && Recorded(w.files[MetadataPath(modulePath)].doc) != Some(JStr(version))
  {
  }

  // ---------------------------------------------------------------------------
  // get_latest_release_info
  // ---------------------------------------------------------------------------

  /** The release facts the script keeps: repository name, tag and tarball URL. */
  datatype ReleaseInfo = ReleaseInfo(repoName: string, version: string, tarball: string)

  /** A release as PyGithub reports it. */
  datatype LatestRelease = LatestRelease(tagName: string, tarballUrl: string)

  /**
   * The library calls of the script: `urlparse(url).path`, and the latest
   * release of `owner/repo` (`None` when the call raises).
   */
  datatype LegacyApi = LegacyApi(urlPath: string -> string, latest: string -> Option<LatestRelease>)

  /** The segments of a repository URL's path, without leading and trailing slashes. */
  function PathParts(api: LegacyApi, repoUrl: string): (parts: seq<string>)
    ensures |parts| > 0
  {
    Split(StripChar(api.urlPath(repoUrl), '/'), '/')
  }

  /**
   * `get_latest_release_info`: the path must have exactly two segments,
   * `owner/repo`; any exception gives `(None, None, None)`.
   */
  function LatestReleaseInfo(api: LegacyApi, repoUrl: string): (r: Option<ReleaseInfo>)
    ensures r.Some? ==> |PathParts(api, repoUrl)| == 2 && r.value.repoName == PathParts(api, repoUrl)[1]
  {
    var parts := PathParts(api, repoUrl);
    if |parts| != 2 then None
    else match api.latest(parts[0] + "/" + parts[1])
      case None => None
      case Some(release) => Some(ReleaseInfo(parts[1], release.tagName, release.tarballUrl))
  }

  /**
   * For a path `/seg1/.../segN` of non-empty segments, a release is found
   * only when N is 2, and then it is the latest release of `seg1/seg2`.
   */
  lemma PathMustHaveTwoSegments(api: LegacyApi, repoUrl: string, segments: seq<string>)
    requires |segments| > 0
    requires forall i :: 0 <= i < |segments| ==> |segments[i]| > 0 && '/' !in segments[i]
    requires api.urlPath(repoUrl) == "/" + Join(segments, '/')
    ensures PathParts(api, repoUrl) == segments
    ensures LatestReleaseInfo(api, repoUrl).Some? ==> |segments| == 2
    ensures |segments| == 2 ==>
      LatestReleaseInfo(api, repoUrl) ==
        match api.latest(segments[0] + "/" + segments[1])
        case None => None
        case Some(release) => Some(ReleaseInfo(segments[1], release.tagName, release.tarballUrl))
  {
    var j := Join(segments, '/');
    JoinEdges(segments, '/');
    assert segments[0][0] != '/';
    assert segments[|segments| - 1][|segments[|segments| - 1]| - 1] != '/';
    LStripCharCons(j, '/');
    assert "/" + j == ['/'] + j;
    SplitJoin(segments, '/');
  }

  // ---------------------------------------------------------------------------
  // enrich_modules
  // ---------------------------------------------------------------------------

  /** One entry of the configured module list. */
  datatype ModuleRef = ModuleRef(name: string, url: string)

  /** One entry of the list of modules to update. */
  datatype Entry = Entry(moduleName: string, moduleUrl: string, repoName: string, moduleVersion: string,
                         tarball: string, moduleFileUrl: string)

  /** `f"{module_url}/blob/{version}/MODULE.bazel"`, built from the tag as released. */
  function ModuleFileUrl(moduleUrl: string, tag: string): string {
    moduleUrl + "/blob/" + tag + "/MODULE.bazel"
  }

  /** `actual_versions_dict.get(module_name)`: absent and `None` both read as `None`. */
  function RecordedFor(actual: map<string, Option<Json>>, name: string): Option<Json> {
    if name in actual then actual[name] else None
  }

  /**
   * One iteration of `enrich_modules`: a module without release information
   * is skipped; otherwise it is listed, with the tag stripped of every
   * leading `v`, exactly when that differs from the recorded version.
   */
  function EnrichOne(api: LegacyApi, actual: map<string, Option<Json>>, m: ModuleRef): (r: Option<Entry>)
    ensures r.Some? <==>
      && LatestReleaseInfo(api, m.url).Some?
      && RecordedFor(actual, m.name) != Some(JStr(LStripChar(LatestReleaseInfo(api, m.url).value.version, 'v')))
    ensures r.Some? ==>
      && r.value.moduleName == m.name && r.value.moduleUrl == m.url
      && r.value.moduleVersion == LStripChar(LatestReleaseInfo(api, m.url).value.version, 'v')
      && r.value.moduleFileUrl == ModuleFileUrl(m.url, LatestReleaseInfo(api, m.url).value.version)
  {
    match LatestReleaseInfo(api, m.url)
    case None => None
    case Some(info) =>
      var clean := LStripChar(info.version, 'v');
      if RecordedFor(actual, m.name) == Some(JStr(clean)) then None
      else Some(Entry(m.name, m.url, info.repoName, clean, info.tarball, ModuleFileUrl(m.url, info.version)))
  }

  /** The entries of `enrich_modules`, in the order of the configured list. */
  function EnrichSpec(api: LegacyApi, actual: map<string, Option<Json>>, mods: seq<ModuleRef>): (r: seq<Entry>)
    ensures |r| <= |mods|
    decreases |mods|
  {
    if |mods| == 0 then []
    else
      var one := EnrichOne(api, actual, mods[|mods| - 1]);
      EnrichSpec(api, actual, mods[..|mods| - 1]) + (if one.Some? then [one.value] else [])
  }

  /** `enrich_modules(modules_list, actual_versions_dict)`. */
  method EnrichModules(api: LegacyApi, mods: seq<ModuleRef>, actual: map<string, Option<Json>>) returns (enriched: seq<Entry>)
    ensures enriched == EnrichSpec(api, actual, mods)
  {
    enriched := [];
    for i := 0 to |mods|
      invariant enriched == EnrichSpec(api, actual, mods[..i])
    {
      assert mods[..i + 1][..i] == mods[..i];
      var entry := EnrichModule(api, actual, mods[i]);
      if entry.Some? {
        enriched := enriched + [entry.value];
      }
    }
    assert mods[..|mods|] == mods;
  }

  /** The body of the loop of `enrich_modules`, for one configured module. */
  method EnrichModule(api: LegacyApi, actual: map<string, Option<Json>>, m: ModuleRef) returns (entry: Option<Entry>)
    ensures entry == EnrichOne(api, actual, m)
  {
    entry := None;
    var info := LatestReleaseInfo(api, m.url);
    if info.Some? {
      var cleanVersion := LStripChar(info.value.version, 'v');
      if RecordedFor(actual, m.name) != Some(JStr(cleanVersion)) {
        entry := Some(Entry(m.name, m.url, info.value.repoName, cleanVersion, info.value.tarball,
                            ModuleFileUrl(m.url, info.value.version)));
      }
    }
  }

  /** The list is built module by module: the entries of a concatenation are the concatenated entries. */
  lemma {:induction false} EnrichAppend(api: LegacyApi, actual: map<string, Option<Json>>, a: seq<ModuleRef>, b: seq<ModuleRef>)
    ensures EnrichSpec(api, actual, a + b) == EnrichSpec(api, actual, a) + EnrichSpec(api, actual, b)
    decreases |b|
  {
    if |b| == 0 {
      assert a + b == a;
    } else {
      var b' := b[..|b| - 1];
      assert (a + b)[..|a + b| - 1] == a + b';
      assert (a + b)[|a + b| - 1] == b[|b| - 1];
      EnrichAppend(api, actual, a, b');
    }
  }

  /** A module is listed exactly when `EnrichOne` lists it: the list of one module. */
  lemma EnrichSingle(api: LegacyApi, actual: map<string, Option<Json>>, m: ModuleRef)
    ensures EnrichSpec(api, actual, [m]) == (if EnrichOne(api, actual, m).Some? then [EnrichOne(api, actual, m).value] else [])
  {
    assert [m][..0] == [];
  }

  /** The module has no release, or its cleaned release is the recorded version. */
  predicate UpToDate(api: LegacyApi, actual: map<string, Option<Json>>, m: ModuleRef) {
    || LatestReleaseInfo(api, m.url).None?
    || RecordedFor(actual, m.name) == Some(JStr(LStripChar(LatestReleaseInfo(api, m.url).value.version, 'v')))
  }

  /** A module whose cleaned release is the recorded version is not listed; nothing is listed when all are up to date. */
  lemma {:induction false} UpToDateNotListed(api: LegacyApi, actual: map<string, Option<Json>>, mods: seq<ModuleRef>)
    requires forall i :: 0 <= i < |mods| ==> UpToDate(api, actual, mods[i])
    ensures EnrichSpec(api, actual, mods) == []
    decreases |mods|
  {
    if |mods| > 0 {
      var p := mods[..|mods| - 1];
      assert forall i :: 0 <= i < |p| ==> p[i] == mods[i];
      UpToDateNotListed(api, actual, p);
    }
  }

  /** A tag `v1.2.0` and a recorded `1.2.0` are the same version: that module is not listed. */
  lemma PrefixedTagMatchesRecorded(api: LegacyApi, actual: map<string, Option<Json>>, m: ModuleRef, k: nat, version: string)
    requires LatestReleaseInfo(api, m.url).Some?
    requires LatestReleaseInfo(api, m.url).value.version == Repeat('v', k) + version
    requires version == [] || version[0] != 'v'
    requires RecordedFor(actual, m.name) == Some(JStr(version))
    ensures EnrichOne(api, actual, m).None?
  {
    LStripCharRepeat(version, 'v', k);
  }

  /** A module without any recorded entry is listed as soon as it has a release. */
  lemma UnrecordedIsListed(api: LegacyApi, actual: map<string, Option<Json>>, m: ModuleRef)
    requires m.name !in actual && LatestReleaseInfo(api, m.url).Some?
    ensures EnrichOne(api, actual, m).Some?
  {
  }

  // ---------------------------------------------------------------------------
  // process_module
  // ---------------------------------------------------------------------------

  const GitHubHost: string := "https://github.com"
  const RawHost: string := "https://raw.githubusercontent.com"

  /**
   * The download URL as line 91 writes it: the GitHub host becomes the raw
   * host and every `blob` anywhere in the URL becomes `refs/tags`.
   */
  function FetchUrlAsWritten(moduleFileUrl: string): string {
    ReplaceAll(ReplaceAll(moduleFileUrl, GitHubHost, RawHost), "blob", "refs/tags")
  }

  /** The raw-content URL of MODULE.bazel at a tag of the repository at `moduleUrl`. */
  function RawModuleFileUrl(moduleUrl: string, tag: string): string {
    ReplaceAll(moduleUrl, GitHubHost, RawHost) + "/refs/tags/" + tag + "/MODULE.bazel"
  }

  /**
   * The download URL with only the `blob` segment that `enrich_modules`
   * inserted turned into `refs/tags`.
   */
  function FetchUrl(e: Entry): (url: string)
    ensures var prefix := e.moduleUrl + "/blob/";
      |prefix| <= |e.moduleFileUrl| && e.moduleFileUrl[..|prefix|] == prefix ==>
        url == ReplaceAll(e.moduleUrl, GitHubHost, RawHost) + "/refs/tags/" + e.moduleFileUrl[|prefix|..]
  {
    var prefix := e.moduleUrl + "/blob/";
    if |prefix| <= |e.moduleFileUrl| && e.moduleFileUrl[..|prefix|] == prefix then
      ReplaceAll(e.moduleUrl, GitHubHost, RawHost) + "/refs/tags/" + e.moduleFileUrl[|prefix|..]
    else FetchUrlAsWritten(e.moduleFileUrl)
  }

  /** No occurrence of `pat` starts at a position whose character differs from `pat`'s first one. */
  lemma NoOccurrenceWithoutFirst(s: string, pat: string, n: nat)
    requires |pat| > 0 && n <= |s|
    requires forall i :: 0 <= i < n ==> s[i] != pat[0]
    ensures NoOccurrenceBefore(s, pat, n)
  {
    forall i: nat | i < n ensures !OccursAt(s, pat, i) {
      if i + |pat| <= |s| {
        assert s[i..i + |pat|][0] == s[i];
      }
    }
  }

  /** The GitHub host in front of a path in which the host does not occur again becomes the raw host. */
  lemma RawHostReplaces(path: string)
    requires NoOccurrenceBefore(path, GitHubHost, |path|)
    ensures ReplaceAll(GitHubHost + path, GitHubHost, RawHost) == RawHost + path
  {
    ReplaceAllAtFront(GitHubHost, path, RawHost);
    ReplaceAllNoOccurrence(path, GitHubHost, RawHost);
  }

  /**
   * For every entry `enrich_modules` builds, the corrected download URL is
   * the raw-content URL of MODULE.bazel at the released tag; for a GitHub
   * URL whose repository path does not repeat the host, that is the raw
   * host followed by the repository path as it is.
   */
  lemma FetchUrlIsRawContent(api: LegacyApi, actual: map<string, Option<Json>>, m: ModuleRef)
    requires EnrichOne(api, actual, m).Some?
    ensures FetchUrl(EnrichOne(api, actual, m).value) == RawModuleFileUrl(m.url, LatestReleaseInfo(api, m.url).value.version)
    ensures |GitHubHost| <= |m.url| && m.url[..|GitHubHost|] == GitHubHost ==>
      var path := m.url[|GitHubHost|..];
      NoOccurrenceBefore(path, GitHubHost, |path|) ==>
        FetchUrl(EnrichOne(api, actual, m).value)
          == RawHost + path + "/refs/tags/" + LatestReleaseInfo(api, m.url).value.version + "/MODULE.bazel"
  {
    var tag := LatestReleaseInfo(api, m.url).value.version;
    FetchUrlOfBuilt(EnrichOne(api, actual, m).value, tag);
    if |GitHubHost| <= |m.url| && m.url[..|GitHubHost|] == GitHubHost {
      var path := m.url[|GitHubHost|..];
      assert m.url == GitHubHost + path;
      if NoOccurrenceBefore(path, GitHubHost, |path|) {
        RawHostReplaces(path);
      }
    }
  }

  /**
   * The repository path of `eclipse-score/toolchains_gcc`, one of the
   * modules the script lists, does not repeat the GitHub host, so the
   * corrected URL keeps it as it is.
   */
  lemma ToolchainsGccPathKept(path: string)
    requires path == "/eclipse-score/toolchains_gcc"
    ensures NoOccurrenceBefore(path, GitHubHost, |path|)
  {
    forall i: nat | i < |path| ensures !OccursAt(path, GitHubHost, i) {
      if i + |GitHubHost| <= |path| {
        assert path[i..i + |GitHubHost|][1] == path[i + 1];
        assert path[i..i + |GitHubHost|][0] == path[i];
      }
    }
  }

  /** The corrected download URL of an entry whose MODULE.bazel URL was built from its GitHub URL and a tag. */
  lemma FetchUrlOfBuilt(e: Entry, tag: string)
    requires e.moduleFileUrl == ModuleFileUrl(e.moduleUrl, tag)
    ensures FetchUrl(e) == RawModuleFileUrl(e.moduleUrl, tag)
  {
    var prefix := e.moduleUrl + "/blob/";
    assert e.moduleFileUrl == prefix + (tag + "/MODULE.bazel");
    assert e.moduleFileUrl[..|prefix|] == prefix;
    assert e.moduleFileUrl[|prefix|..] == tag + "/MODULE.bazel";
  }

  /**
   * The line-91 rewrite breaks a repository whose path contains `blob`: for
   * `https://github.com/o/blob` at tag `v1` it asks for
   * `https://raw.githubusercontent.com/o/refs/tags/...` instead of the
   * corrected `https://raw.githubusercontent.com/o/blob/refs/tags/v1/MODULE.bazel`.
   */
  lemma BlobInRepositoryBreaksRewrite()
    ensures var u := GitHubHost + "/o/blob";
      FetchUrlAsWritten(ModuleFileUrl(u, "v1")) != RawModuleFileUrl(u, "v1")
  {
    var u := GitHubHost + "/o/blob";
    var c := "/blob/v1/MODULE.bazel";
    assert ModuleFileUrl(u, "v1") == GitHubHost + ("/o/blob" + c);
    AsWrittenOnBlobRepository(c);
    NoOccurrenceWithoutFirst("/o/blob", GitHubHost, 7);
    RawHostReplaces("/o/blob");
    var a := RawHost + "/o/";
    assert RawModuleFileUrl(u, "v1")[|a|] == 'b';
  }

  /** What the line-91 rewrite makes of a URL under the repository `o/blob`: the repository's own `blob` is rewritten. */
  lemma AsWrittenOnBlobRepository(c: string)
    requires 'h' !in c
    ensures var w := FetchUrlAsWritten(GitHubHost + ("/o/blob" + c));
      |w| > |RawHost + "/o/"| && w[|RawHost + "/o/"|] == 'r'
  {
    var path := "/o/blob" + c;
    assert 'h' !in path by {
      assert 'h' !in "/o/blob";
    }
    NoOccurrenceWithoutFirst(path, GitHubHost, |path|);
    RawHostReplaces(path);
    assert RawHost + path == (RawHost + "/o/") + ("blob" + c);
    BlobAfterPrefixRewritten(RawHost + "/o/", c);
  }

  /** A `blob` right after a prefix without an `l` is the first one `replace` rewrites. */
  lemma BlobAfterPrefixRewritten(a: string, c: string)
    requires 'l' !in a
    ensures var w := ReplaceAll(a + ("blob" + c), "blob", "refs/tags");
      |w| > |a| && w[|a|] == 'r'
  {
    NoOccurrenceOfBlob(a, "blob" + c);
    ReplaceAllAppend(a, "blob" + c, "blob", "refs/tags");
    ReplaceAllAtFront("blob", c, "refs/tags");
  }

  /** No `blob` starts inside `a` when `a` has no `l` and `b` does not start with one. */
  lemma NoOccurrenceOfBlob(a: string, b: string)
    requires 'l' !in a && (b == [] || b[0] != 'l')
    ensures NoOccurrenceBefore(a + b, "blob", |a|)
  {
    var s := a + b;
    forall i: nat | i < |a| ensures !OccursAt(s, "blob", i) {
      if i + 4 <= |s| {
        assert s[i..i + 4][1] == s[i + 1];
        if i + 1 < |a| {
          assert s[i + 1] == a[i + 1];
        } else {
          assert s[i + 1] == b[0];
        }
      }
    }
  }

  /**
   * `process_module`: downloads MODULE.bazel from the URL line 91 builds
   * (every `blob` rewritten, as `FetchUrlAsWritten` says) and, when the
   * download succeeds, generates the release's files; a failed download
   * writes nothing. `fetch` is `requests.get(url)`, `None` when the
   * response is not ok.
   */
  method ProcessModule(ws: LegacyWorkspace, fetch: string -> Option<string>, e: Entry) returns (r: Result<(), Error>)
    modifies ws
    ensures fetch(FetchUrlAsWritten(e.moduleFileUrl)).None? ==> r == Success(()) && ws.files == old(ws.files)
    ensures fetch(FetchUrlAsWritten(e.moduleFileUrl)).Some? ==>
      Written(r, ws.files) == GenerateSpec(old(ws.files), ws.pipeline, e.moduleName, e.moduleVersion,
                                           fetch(FetchUrlAsWritten(e.moduleFileUrl)).value, e.tarball, e.repoName)
  {
    var url := FetchUrlAsWritten(e.moduleFileUrl);
    var response := fetch(url);
    if response.None? {
      r := Success(());
    } else {
      r := ws.GenerateNeededFiles(e.moduleName, e.moduleVersion, response.value, e.tarball, e.repoName);
    }
  }
}
