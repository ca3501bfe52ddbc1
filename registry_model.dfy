/**
 * The records of `registry_manager/__init__.py`: a module as read from the
 * registry, the parsed MODULE.bazel of a release, and the bundle the
 * planner hands to the update runner.
 */
module RegistryModel {
  import opened Wrappers
  import opened Errors
  import opened Versions
  import GitHub

  /** A module of the registry; `versions` is meant to be sorted, latest first. */
  datatype BazelModuleInfo = BazelModuleInfo(
    path: string,
    name: string,
    orgAndRepo: string,
    versions: seq<Version>,
    periodicPull: bool,
    obsolete: bool)

  /** `BazelModuleInfo.latest_version`: the head of the list; a module without versions is a `ValueError`. */
  function LatestVersion(m: BazelModuleInfo): (r: Result<Version, Error>)
    ensures r.Failure? <==> |m.versions| == 0
    ensures r.Failure? ==> r.error == ValueError
    ensures r.Success? ==> r.value == m.versions[0]
  {
    if |m.versions| == 0 then Failure(ValueError) else Success(m.versions[0])
  }

  /** A list sorted latest first: no entry is below a later one. */
  predicate Descending(vs: seq<Version>) {
    forall i, j :: 0 <= i < j < |vs| ==> !Less(vs[i], vs[j])
  }

  /** On a list sorted latest first, `latest_version` is below no listed version. */
  lemma LatestVersionIsMaximal(m: BazelModuleInfo)
    requires Descending(m.versions) && |m.versions| > 0
    ensures forall j :: 0 <= j < |m.versions| ==> !Less(LatestVersion(m).value, m.versions[j])
  {
    LessIrreflexive(m.versions[0]);
  }

  /** The parsed MODULE.bazel of a release: its text and the two declarations found in it. */
  datatype ModuleFileContent = ModuleFileContent(
    content: string,
    compLevel: Option<nat>,
    version: Option<Version>)

  /** `ModuleFileContent.major_version`: the major number of the declared version, when it is semantic. */
  function MajorVersion(f: ModuleFileContent): (r: Option<nat>)
    ensures r.None? <==> (f.version.None? || !IsSemVer(f.version.value))
    ensures r.Some? ==> r.value == f.version.value.sem.value.major
  {
    if f.version.Some? && f.version.value.sem.Some? then Some(f.version.value.sem.value.major) else None
  }

  /** One planned update: the module, the release to add, and the release's MODULE.bazel. */
  datatype ModuleUpdateInfo = ModuleUpdateInfo(
    moduleInfo: BazelModuleInfo,
    release: GitHub.GitHubReleaseInfo,
    modFile: ModuleFileContent)
}
