/**
 * `plan_module_updates` (`main.py`): for each module read from the
 * registry, asks GitHub for its latest release and, when that release is
 * newer than the module's latest version, semantic, and ships a MODULE.bazel,
 * plans an update. Warnings are collected rather than logged; any warning
 * makes the run end unsuccessfully.
 */
module Planner {
  import opened Wrappers
  import opened Errors
  import opened Versions
  import opened GitHub
  import opened RegistryModel
  import opened ModuleFile

  /** What `plan_module_updates` warns about. */
  datatype PlanWarning =
    | NotSemantic(name: string, version: Version)   // the latest release is not a semantic version
    | NoModuleFile(name: string, tag: string)       // the release has no (or an empty) MODULE.bazel

  /** What happens to one module. */
  datatype StepOutcome =
    | Skipped                       // not periodic-pull, and no modules were named
    | UpToDate                      // no release, or the release is the module's latest version
    | Warned(warning: PlanWarning)  // skipped with a warning
    | Planned(task: ModuleUpdateInfo)

  datatype Plan = Plan(tasks: seq<ModuleUpdateInfo>, warnings: seq<PlanWarning>)

  /** A module is looked at when it is periodic-pull or modules were named on the command line. */
  predicate Considered(explicit: bool, m: BazelModuleInfo) {
    m.periodicPull || explicit
  }

  /**
   * Whether MODULE.bazel of the latest release is fetched: the module is
   * looked at, it has a release, that release differs from its latest
   * version and is semantic.
   */
  predicate NeedsModuleFile(api: GitHubApi, explicit: bool, m: BazelModuleInfo) {
    && Considered(explicit, m)
    && LatestReleaseSpec(api, m.orgAndRepo).Success?
    && LatestReleaseSpec(api, m.orgAndRepo).value.Some?
    && |m.versions| > 0
    && !Eq(m.versions[0], LatestReleaseSpec(api, m.orgAndRepo).value.value.version)
    && LatestReleaseSpec(api, m.orgAndRepo).value.value.version.sem.Some?
  }

  /** The tag whose MODULE.bazel is fetched. */
  function FetchedTag(api: GitHubApi, m: BazelModuleInfo): string
    requires LatestReleaseSpec(api, m.orgAndRepo).Success? && LatestReleaseSpec(api, m.orgAndRepo).value.Some?
  {
    LatestReleaseSpec(api, m.orgAndRepo).value.value.tagName
  }

  /**
   * One iteration of the loop. `module.latest_version` is read only once a
   * release is known, and raises on a module without versions; an API error
   * ends the whole plan.
   */
  function Step(api: GitHubApi, explicit: bool, m: BazelModuleInfo): (r: Result<StepOutcome, Error>)
    ensures r == Success(Skipped) <==> !Considered(explicit, m)
    ensures r.Success? && r.value.Planned? ==>
      && NeedsModuleFile(api, explicit, m)
      && r.value.task.moduleInfo == m
      && r.value.task.release == LatestReleaseSpec(api, m.orgAndRepo).value.value
      && |r.value.task.modFile.content| > 0
  {
    if !Considered(explicit, m) then Success(Skipped)
    else
      match LatestReleaseSpec(api, m.orgAndRepo)
      case Failure(e) => Failure(e)
      case Success(None) => Success(UpToDate)
      case Success(Some(release)) => AfterRelease(api, m, release)
  }

  /** The rest of an iteration once the latest release is known. */
  function AfterRelease(api: GitHubApi, m: BazelModuleInfo, release: GitHubReleaseInfo): (r: Result<StepOutcome, Error>)
    ensures r != Success(Skipped) && r != Success(UpToDate) <==> |m.versions| == 0 || !Eq(m.versions[0], release.version)
    ensures r.Success? && r.value.Planned? ==>
      && |m.versions| > 0 && !Eq(m.versions[0], release.version) && release.version.sem.Some?
      && r.value.task.moduleInfo == m && r.value.task.release == release
      && |r.value.task.modFile.content| > 0
  {
    match LatestVersion(m)
    case Failure(e) => Failure(e)
    case Success(latest) =>
      if Eq(latest, release.version) then Success(UpToDate)
      else if release.version.sem.None? then Success(Warned(NotSemantic(m.name, release.version)))
      else
        match ModuleFileSpec(api, m.orgAndRepo, release.tagName)
        case Failure(e) => Failure(e)
        case Success(content) =>
          if content.Some? && |content.value| > 0 then
            Success(Planned(ModuleUpdateInfo(m, release, ParseModuleFileContent(content.value))))
          else Success(Warned(NoModuleFile(m.name, release.tagName)))
  }

  /** The plan after one more module. */
  function Extend(p: Plan, o: StepOutcome): Plan {
    match o
    case Planned(t) => Plan(p.tasks + [t], p.warnings)
    case Warned(w) => Plan(p.tasks, p.warnings + [w])
    case _ => p
  }

  /** The plan for `modules`, in order; the first error ends it. */
  function PlanSpec(api: GitHubApi, explicit: bool, modules: seq<BazelModuleInfo>): (r: Result<Plan, Error>)
    ensures r.Success? ==> |r.value.tasks| + |r.value.warnings| <= |modules|
  {
    if |modules| == 0 then Success(Plan([], []))
    else
      match PlanSpec(api, explicit, modules[..|modules| - 1])
      case Failure(e) => Failure(e)
      case Success(p) =>
        match Step(api, explicit, modules[|modules| - 1])
        case Failure(e) => Failure(e)
        case Success(o) => Success(Extend(p, o))
  }

  /** How many modules are looked at. */
  function ConsideredCount(explicit: bool, modules: seq<BazelModuleInfo>): (n: nat)
    ensures n <= |modules|
    ensures !explicit && (forall i :: 0 <= i < |modules| ==> !modules[i].periodicPull) ==> n == 0
  {
    if |modules| == 0 then 0
    else ConsideredCount(explicit, modules[..|modules| - 1]) + (if Considered(explicit, modules[|modules| - 1]) then 1 else 0)
  }

  /** The requests one module may cause: at most two when looked at, none otherwise, and MODULE.bazel only when needed. */
  predicate StepRequests(api: GitHubApi, explicit: bool, m: BazelModuleInfo, qs: seq<Request>) {
    && |qs| <= (if Considered(explicit, m) then 2 else 0)
    && forall j :: 0 <= j < |qs| && qs[j].ContentsRequest? ==>
         NeedsModuleFile(api, explicit, m) && qs[j] == ContentsRequest(m.orgAndRepo, FetchedTag(api, m))
  }

  /** MODULE.bazel is fetched only for modules that need an update. */
  predicate FetchesOnlyNeeded(api: GitHubApi, explicit: bool, modules: seq<BazelModuleInfo>, qs: seq<Request>) {
    forall j :: 0 <= j < |qs| && qs[j].ContentsRequest? ==> FetchedFor(api, explicit, modules, qs[j])
  }

  /** Some listed module needs an update and `q` fetches the MODULE.bazel of its latest release. */
  predicate FetchedFor(api: GitHubApi, explicit: bool, modules: seq<BazelModuleInfo>, q: Request) {
    exists k :: 0 <= k < |modules| && NeedsModuleFile(api, explicit, modules[k])
      && q == ContentsRequest(modules[k].orgAndRepo, FetchedTag(api, modules[k]))
  }

  /** One iteration against the wrapper: the answer of `Step`, and the requests it sends. */
  method PlanOne(gh: GithubWrapper, explicit: bool, m: BazelModuleInfo) returns (r: Result<StepOutcome, Error>)
    requires gh.Valid()
    modifies gh
    ensures gh.Valid()
    ensures r == Step(gh.api, explicit, m)
    ensures |old(gh.requests)| <= |gh.requests| && gh.requests[..|old(gh.requests)|] == old(gh.requests)
    ensures StepRequests(gh.api, explicit, m, gh.requests[|old(gh.requests)|..])
  {
    if !m.periodicPull && !explicit {
      r := Success(Skipped);
    } else {
      r := QueryModule(gh, explicit, m);
    }
  }

  /** An iteration for a module that is looked at: the release query, then the comparison. */
  method QueryModule(gh: GithubWrapper, explicit: bool, m: BazelModuleInfo) returns (r: Result<StepOutcome, Error>)
    requires gh.Valid() && Considered(explicit, m)
    modifies gh
    ensures gh.Valid()
    ensures r == Step(gh.api, explicit, m)
    ensures |old(gh.requests)| <= |gh.requests| && gh.requests[..|old(gh.requests)|] == old(gh.requests)
    ensures StepRequests(gh.api, explicit, m, gh.requests[|old(gh.requests)|..])
  {
    ghost var start := gh.requests;
    var rel := gh.GetLatestRelease(m.orgAndRepo);
    ghost var afterRelease := gh.requests;
    if rel.Failure? {
      r := Failure(rel.error);
    } else if rel.value.None? {
      r := Success(UpToDate);
    } else {
      r := CompareAndFetch(gh, m, rel.value.value);
    }
    PrefixSplit(start, afterRelease, gh.requests);
    TwoRequests(gh.api, explicit, m, afterRelease[|start|..], gh.requests[|afterRelease|..]);
  }

  /** Requests sent in two rounds are those of the first round followed by those of the second. */
  lemma PrefixSplit<T>(a: seq<T>, b: seq<T>, c: seq<T>)
    requires |a| <= |b| && b[..|a|] == a
    requires |b| <= |c| && c[..|b|] == b
    ensures c[..|a|] == a
    ensures c[|a|..] == b[|a|..] + c[|b|..]
  {
    assert c[..|a|] == c[..|b|][..|a|];
  }

  /** A release query followed by at most one MODULE.bazel fetch, for a module that needs it. */
  lemma TwoRequests(api: GitHubApi, explicit: bool, m: BazelModuleInfo, first: seq<Request>, second: seq<Request>)
    requires Considered(explicit, m)
    requires |first| <= 1 && (|first| == 1 ==> first[0].ReleasesRequest?)
    requires |second| <= 1
    requires |second| == 1 ==> NeedsModuleFile(api, explicit, m) && second[0] == ContentsRequest(m.orgAndRepo, FetchedTag(api, m))
    ensures StepRequests(api, explicit, m, first + second)
  {
    OnlyLastIsContents(first, second);
  }

  /** After a release query, the only MODULE.bazel fetch is the one of the second round. */
  lemma OnlyLastIsContents(first: seq<Request>, second: seq<Request>)
    requires |first| <= 1 && (|first| == 1 ==> first[0].ReleasesRequest?)
    requires |second| <= 1
    ensures forall j :: 0 <= j < |first + second| && (first + second)[j].ContentsRequest? ==>
      |second| == 1 && (first + second)[j] == second[0]
  {
  }

  /** The part of an iteration after the latest release is known. */
  method CompareAndFetch(gh: GithubWrapper, m: BazelModuleInfo, release: GitHubReleaseInfo) returns (r: Result<StepOutcome, Error>)
    requires gh.Valid()
    modifies gh
    ensures gh.Valid()
    ensures r == AfterRelease(gh.api, m, release)
    ensures |old(gh.requests)| <= |gh.requests| <= |old(gh.requests)| + 1
    ensures gh.requests[..|old(gh.requests)|] == old(gh.requests)
    ensures |gh.requests| > |old(gh.requests)| ==>
      |m.versions| > 0 && !Eq(m.versions[0], release.version) && release.version.sem.Some?
      && gh.requests[|old(gh.requests)|] == ContentsRequest(m.orgAndRepo, release.tagName)
  {
    var latest := LatestVersion(m);
    if latest.Failure? {
      r := Failure(latest.error);
    } else if Eq(latest.value, release.version) {
      r := Success(UpToDate);
    } else if release.version.sem.None? {
      r := Success(Warned(NotSemantic(m.name, release.version)));
    } else {
      var content := gh.TryGetModuleFileContent(m.orgAndRepo, release.tagName);
      if content.Failure? {
        r := Failure(content.error);
      } else if content.value.Some? && |content.value.value| > 0 {
        r := Success(Planned(ModuleUpdateInfo(m, release, ParseModuleFileContent(content.value.value))));
      } else {
        r := Success(Warned(NoModuleFile(m.name, release.tagName)));
      }
    }
  }

  /** An error in a prefix of the modules is the error of the whole plan. */
  lemma {:induction false} PlanFailureSticks(api: GitHubApi, explicit: bool, modules: seq<BazelModuleInfo>, k: nat)
    requires k <= |modules| && PlanSpec(api, explicit, modules[..k]).Failure?
    ensures PlanSpec(api, explicit, modules) == PlanSpec(api, explicit, modules[..k])
    decreases |modules| - k
  {
    if k < |modules| {
      var p := modules[..|modules| - 1];
      assert p[..k] == modules[..k];
      PlanFailureSticks(api, explicit, p, k);
    } else {
      assert modules[..k] == modules;
    }
  }

  /**
   * `plan_module_updates(args, gh, modules_to_check)`: `requested` are the
   * module names given on the command line. Returns the plan `PlanSpec`
   * describes, sends at most two requests per module looked at, and fetches
   * MODULE.bazel only for modules that need an update.
   */
  method PlanModuleUpdates(requested: seq<string>, gh: GithubWrapper, modules: seq<BazelModuleInfo>)
    returns (r: Result<Plan, Error>)
    requires gh.Valid()
    modifies gh
    ensures gh.Valid()
    ensures r == PlanSpec(gh.api, |requested| > 0, modules)
    ensures |old(gh.requests)| <= |gh.requests| && gh.requests[..|old(gh.requests)|] == old(gh.requests)
    ensures |gh.requests| <= |old(gh.requests)| + 2 * ConsideredCount(|requested| > 0, modules)
    ensures FetchesOnlyNeeded(gh.api, |requested| > 0, modules, gh.requests[|old(gh.requests)|..])
  {
    var explicit := |requested| > 0;
    r := Success(Plan([], []));
    ghost var start := |gh.requests|;
    var i := 0;
    while i < |modules| && r.Success?
      invariant 0 <= i <= |modules|
      invariant gh.Valid()
      invariant r.Success? ==> PlanSpec(gh.api, explicit, modules[..i]) == r
      invariant r.Failure? ==> PlanSpec(gh.api, explicit, modules) == r
      invariant start <= |gh.requests| && gh.requests[..start] == old(gh.requests)
      invariant |gh.requests| <= start + 2 * ConsideredCount(explicit, modules[..i])
      invariant FetchesOnlyNeeded(gh.api, explicit, modules, gh.requests[start..])
    {
      ghost var before := gh.requests;
      r := PlanNext(gh, explicit, modules, i, r, start);
      assert gh.requests[..start] == before[..start];
      CountStep(explicit, modules, i);
      i := i + 1;
    }
    if r.Success? {
      assert modules[..i] == modules;
    } else {
      CountPrefix(explicit, modules, i);
    }
  }

  /** The body of the loop: the plan one module further, or the error that ends it. */
  method PlanNext(gh: GithubWrapper, explicit: bool, modules: seq<BazelModuleInfo>, i: nat,
                  sofar: Result<Plan, Error>, ghost start: nat) returns (r: Result<Plan, Error>)
    requires i < |modules| && gh.Valid()
    requires sofar.Success? && PlanSpec(gh.api, explicit, modules[..i]) == sofar
    requires start <= |gh.requests| && FetchesOnlyNeeded(gh.api, explicit, modules, gh.requests[start..])
    modifies gh
    ensures gh.Valid()
    ensures r.Success? ==> PlanSpec(gh.api, explicit, modules[..i + 1]) == r
    ensures r.Failure? ==> PlanSpec(gh.api, explicit, modules) == r
    ensures |old(gh.requests)| <= |gh.requests| && gh.requests[..|old(gh.requests)|] == old(gh.requests)
    ensures |gh.requests| <= |old(gh.requests)| + (if Considered(explicit, modules[i]) then 2 else 0)
    ensures FetchesOnlyNeeded(gh.api, explicit, modules, gh.requests[start..])
  {
    ghost var before := gh.requests;
    var o := PlanOne(gh, explicit, modules[i]);
    NextRequests(gh.api, explicit, modules, i, start, before, gh.requests);
    if o.Failure? {
      r := Failure(o.error);
    } else {
      r := Success(Extend(sofar.value, o.value));
    }
    NextPlan(gh.api, explicit, modules, i, o, r);
  }

  /** The plan after one more iteration, as `PlanSpec` has it. */
  lemma NextPlan(api: GitHubApi, explicit: bool, modules: seq<BazelModuleInfo>, i: nat,
                 o: Result<StepOutcome, Error>, r: Result<Plan, Error>)
    requires i < |modules| && PlanSpec(api, explicit, modules[..i]).Success?
    requires o == Step(api, explicit, modules[i])
    requires r == if o.Failure? then Failure(o.error) else Success(Extend(PlanSpec(api, explicit, modules[..i]).value, o.value))
    ensures r.Success? ==> PlanSpec(api, explicit, modules[..i + 1]) == r
    ensures r.Failure? ==> PlanSpec(api, explicit, modules) == r
  {
    PlanSpecStep(api, explicit, modules, i);
    if o.Failure? {
      PlanFailureSticks(api, explicit, modules, i + 1);
    }
  }

  /** The requests after one more iteration: still only needed fetches, and at most two more. */
  lemma NextRequests(api: GitHubApi, explicit: bool, modules: seq<BazelModuleInfo>, i: nat, start: nat,
                     before: seq<Request>, after: seq<Request>)
    requires i < |modules| && start <= |before| <= |after| && after[..|before|] == before
    requires FetchesOnlyNeeded(api, explicit, modules, before[start..])
    requires StepRequests(api, explicit, modules[i], after[|before|..])
    ensures after[start..] == before[start..] + after[|before|..]
    ensures |after| <= |before| + (if Considered(explicit, modules[i]) then 2 else 0)
    ensures FetchesOnlyNeeded(api, explicit, modules, after[start..])
  {
    PrefixSplit(before[..start], before, after);
    FetchesExtend(api, explicit, modules, i, before[start..], after[|before|..]);
  }

  /** `PlanSpec` one module further. */
  lemma PlanSpecStep(api: GitHubApi, explicit: bool, modules: seq<BazelModuleInfo>, i: nat)
    requires i < |modules| && PlanSpec(api, explicit, modules[..i]).Success?
    ensures Step(api, explicit, modules[i]).Failure? ==>
      PlanSpec(api, explicit, modules[..i + 1]) == Failure(Step(api, explicit, modules[i]).error)
    ensures Step(api, explicit, modules[i]).Success? ==>
      PlanSpec(api, explicit, modules[..i + 1])
        == Success(Extend(PlanSpec(api, explicit, modules[..i]).value, Step(api, explicit, modules[i]).value))
  {
    assert modules[..i + 1][..i] == modules[..i];
  }

  /** `ConsideredCount` one module further. */
  lemma CountStep(explicit: bool, modules: seq<BazelModuleInfo>, i: nat)
    requires i < |modules|
    ensures ConsideredCount(explicit, modules[..i + 1])
      == ConsideredCount(explicit, modules[..i]) + (if Considered(explicit, modules[i]) then 1 else 0)
  {
    assert modules[..i + 1][..i] == modules[..i];
  }

  /** A prefix looks at no more modules than the whole list. */
  lemma {:induction false} CountPrefix(explicit: bool, modules: seq<BazelModuleInfo>, i: nat)
    requires i <= |modules|
    ensures ConsideredCount(explicit, modules[..i]) <= ConsideredCount(explicit, modules)
    decreases |modules| - i
  {
    if i < |modules| {
      CountStep(explicit, modules, i);
      CountPrefix(explicit, modules, i + 1);
      if i + 1 == |modules| {
        assert modules[..i + 1] == modules;
      }
    } else {
      assert modules[..i] == modules;
    }
  }

  /** The requests of one more listed module keep MODULE.bazel fetches to modules that need an update. */
  lemma FetchesExtend(api: GitHubApi, explicit: bool, modules: seq<BazelModuleInfo>, i: nat, qs: seq<Request>, qs2: seq<Request>)
    requires i < |modules|
    requires FetchesOnlyNeeded(api, explicit, modules, qs) && StepRequests(api, explicit, modules[i], qs2)
    ensures FetchesOnlyNeeded(api, explicit, modules, qs + qs2)
  {
    forall j | 0 <= j < |qs + qs2| && (qs + qs2)[j].ContentsRequest?
      ensures FetchedFor(api, explicit, modules, (qs + qs2)[j])
    {
      if j >= |qs| {
        assert (qs + qs2)[j] == qs2[j - |qs|];
        assert 0 <= i < |modules| && NeedsModuleFile(api, explicit, modules[i]);
      } else {
        assert (qs + qs2)[j] == qs[j];
      }
    }
  }

  // ---------------------------------------------------------------------------
  // Properties of the plan
  // ---------------------------------------------------------------------------

  /** Without named modules, a module that is not periodic-pull is skipped and asks GitHub nothing. */
  lemma SkipsNonPeriodic(api: GitHubApi, m: BazelModuleInfo)
    requires !m.periodicPull
    ensures Step(api, false, m) == Success(Skipped)
    ensures forall qs :: StepRequests(api, false, m, qs) ==> qs == []
  {
  }

  /** A module whose latest version is the latest release needs nothing, and its MODULE.bazel is not fetched. */
  lemma UpToDateFetchesNothing(api: GitHubApi, explicit: bool, m: BazelModuleInfo)
    requires Considered(explicit, m)
    requires LatestReleaseSpec(api, m.orgAndRepo).Success? && LatestReleaseSpec(api, m.orgAndRepo).value.Some?
    requires |m.versions| > 0 && Eq(m.versions[0], LatestReleaseSpec(api, m.orgAndRepo).value.value.version)
    ensures Step(api, explicit, m) == Success(UpToDate)
    ensures !NeedsModuleFile(api, explicit, m)
  {
  }

  /** A newer release that is not a semantic version is skipped with exactly one warning naming it. */
  lemma NonSemanticWarns(api: GitHubApi, explicit: bool, m: BazelModuleInfo)
    requires Considered(explicit, m)
    requires LatestReleaseSpec(api, m.orgAndRepo).Success? && LatestReleaseSpec(api, m.orgAndRepo).value.Some?
    requires var v := LatestReleaseSpec(api, m.orgAndRepo).value.value.version;
      |m.versions| > 0 && !Eq(m.versions[0], v) && v.sem.None?
    ensures Step(api, explicit, m)
      == Success(Warned(NotSemantic(m.name, LatestReleaseSpec(api, m.orgAndRepo).value.value.version)))
  {
  }

  /** A module is planned exactly when it needs an update and its MODULE.bazel is a non-empty file. */
  lemma PlannedIff(api: GitHubApi, explicit: bool, m: BazelModuleInfo)
    ensures (Step(api, explicit, m).Success? && Step(api, explicit, m).value.Planned?) <==>
      && NeedsModuleFile(api, explicit, m)
      && ModuleFileSpec(api, m.orgAndRepo, FetchedTag(api, m)).Success?
      && ModuleFileSpec(api, m.orgAndRepo, FetchedTag(api, m)).value.Some?
      && |ModuleFileSpec(api, m.orgAndRepo, FetchedTag(api, m)).value.value| > 0
  {
  }

  /** A missing or empty MODULE.bazel gives a warning instead of a task. */
  lemma MissingModuleFileWarns(api: GitHubApi, explicit: bool, m: BazelModuleInfo)
    requires NeedsModuleFile(api, explicit, m)
    requires ModuleFileSpec(api, m.orgAndRepo, FetchedTag(api, m)) == Success(None)
      || ModuleFileSpec(api, m.orgAndRepo, FetchedTag(api, m)) == Success(Some(""))
    ensures Step(api, explicit, m) == Success(Warned(NoModuleFile(m.name, FetchedTag(api, m))))
  {
  }

  /** Without a release the module is up to date, even when it lists no versions. */
  lemma NoReleaseIsUpToDate(api: GitHubApi, explicit: bool, m: BazelModuleInfo)
    requires Considered(explicit, m) && LatestReleaseSpec(api, m.orgAndRepo) == Success(None)
    ensures Step(api, explicit, m) == Success(UpToDate)
  {
  }

  /** A module with a release but no versions ends the plan with `ValueError`. */
  lemma NoVersionsFails(api: GitHubApi, explicit: bool, m: BazelModuleInfo)
    requires Considered(explicit, m)
    requires LatestReleaseSpec(api, m.orgAndRepo).Success? && LatestReleaseSpec(api, m.orgAndRepo).value.Some?
    requires |m.versions| == 0
    ensures Step(api, explicit, m) == Failure(ValueError)
  {
  }

  /** Every task comes from a listed module that needs an update. */
  lemma {:induction false} TasksNeedUpdate(api: GitHubApi, explicit: bool, modules: seq<BazelModuleInfo>)
    requires PlanSpec(api, explicit, modules).Success?
    ensures forall t :: t in PlanSpec(api, explicit, modules).value.tasks ==>
      t.moduleInfo in modules && NeedsModuleFile(api, explicit, t.moduleInfo)
      && t.release == LatestReleaseSpec(api, t.moduleInfo.orgAndRepo).value.value
  {
    if |modules| > 0 {
      var p := modules[..|modules| - 1];
      TasksNeedUpdate(api, explicit, p);
      forall t | t in PlanSpec(api, explicit, modules).value.tasks
        ensures t.moduleInfo in modules
      {
        if t in PlanSpec(api, explicit, p).value.tasks {
          assert t.moduleInfo in p;
        }
      }
    }
  }
}
