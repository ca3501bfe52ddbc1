/**
 * `github_wrapper.py`: the release record, its tarball URL, and the wrapper
 * that picks the latest release of a repository and fetches MODULE.bazel at
 * a tag, remembering each answer. The GitHub API is an oracle: a pair of
 * functions giving, for each request, the reply or the exception it raises.
 */
module GitHub {
  import opened Wrappers
  import opened Text
  import opened Errors
  import opened Versions

  /** A release as the registry manager records it; `published_at` is a timestamp. */
  datatype GitHubReleaseInfo = GitHubReleaseInfo(
    orgAndRepo: string,
    version: Version,
    tagName: string,
    publishedAt: int,
    prerelease: bool)

  /** `GitHubReleaseInfo.tarball`. */
  function Tarball(r: GitHubReleaseInfo): (url: string)
    ensures |url| > |r.orgAndRepo| + |r.tagName|
  {
    "https://github.com/" + r.orgAndRepo + "/archive/refs/tags/" + r.tagName + ".tar.gz"
  }

  /** Two releases of one repository with different tags have different tarballs, and vice versa. */
  lemma TarballDistinguishes(a: GitHubReleaseInfo, b: GitHubReleaseInfo)
    requires a.orgAndRepo == b.orgAndRepo || a.tagName == b.tagName
    ensures Tarball(a) == Tarball(b) <==> (a.orgAndRepo == b.orgAndRepo && a.tagName == b.tagName)
  {
    var x, y := Tarball(a), Tarball(b);
    var h := "https://github.com/";
    if x == y {
      if a.tagName == b.tagName {
        var t := "/archive/refs/tags/" + a.tagName + ".tar.gz";
        assert x == (h + a.orgAndRepo) + t;
        assert y == (h + b.orgAndRepo) + t;
        SameSuffix(h + a.orgAndRepo, h + b.orgAndRepo, t);
        SamePrefix(h, a.orgAndRepo, b.orgAndRepo);
      } else {
        var p := h + a.orgAndRepo + "/archive/refs/tags/";
        assert x == p + (a.tagName + ".tar.gz") && y == p + (b.tagName + ".tar.gz");
        SamePrefix(p, a.tagName + ".tar.gz", b.tagName + ".tar.gz");
        SameSuffix(a.tagName, b.tagName, ".tar.gz");
      }
    }
  }

  lemma SameSuffix(p: string, q: string, s: string)
    ensures p + s == q + s ==> p == q
  {
    if p + s == q + s {
      assert p == (p + s)[..|p|];
    }
  }

  lemma SamePrefix(s: string, p: string, q: string)
    ensures s + p == s + q ==> p == q
  {
    if s + p == s + q {
      assert p == (s + p)[|s|..];
    }
  }

  /** `Version(tag.lstrip("v"))`: the version a release tag stands for. */
  function VersionOfTag(tag: string): Version {
    FromString(LStripChar(tag, 'v'))
  }

  /** The version's text is the tag without its leading `v`s, and parses as that text. */
  lemma VersionOfTagStrips(tag: string)
    ensures Valid(VersionOfTag(tag))
    ensures var v := VersionOfTag(tag);
      |Str(v)| <= |tag| && tag == Repeat('v', |tag| - |Str(v)|) + Str(v)
    ensures Str(VersionOfTag(tag)) == [] || Str(VersionOfTag(tag))[0] != 'v'
  {
    var clean := LStripChar(tag, 'v');
    assert tag == tag[..|tag| - |clean|] + clean;
    assert tag[..|tag| - |clean|] == Repeat('v', |tag| - |clean|);
  }

  /** A tag with or without any number of leading `v`s stands for the same version. */
  lemma VersionOfTagIgnoresPrefix(tag: string, k: nat)
    ensures VersionOfTag(Repeat('v', k) + tag) == VersionOfTag(tag)
  {
    LStripCharRepeat(tag, 'v', k);
  }

  // ---------------------------------------------------------------------------
  // The GitHub API oracle
  // ---------------------------------------------------------------------------

  /** A release as the API lists it. */
  datatype ApiRelease = ApiRelease(tagName: string, publishedAt: int, prerelease: bool)

  /** What an API request does: answer, raise a `GithubException`, or raise anything else. */
  datatype Reply<T> = Ok(value: T) | GithubException(status: int) | OtherException

  /** `repo.get_contents(...)`: a file (decoded as UTF-8 when possible) or a directory listing. */
  datatype Contents = FileContents(text: Option<string>) | DirectoryListing

  datatype GitHubApi = GitHubApi(
    releases: string -> Reply<seq<ApiRelease>>,
    contents: (string, string) -> Reply<Contents>)

  /** The API requests the wrapper has sent, in order. */
  datatype Request = ReleasesRequest(repo: string) | ContentsRequest(repo: string, tag: string)

  // ---------------------------------------------------------------------------
  // Selecting the latest release
  // ---------------------------------------------------------------------------

  function ReleaseInfo(orgAndRepo: string, r: ApiRelease): (info: GitHubReleaseInfo)
    ensures info.orgAndRepo == orgAndRepo && info.tagName == r.tagName
    ensures info.version == VersionOfTag(r.tagName)
    ensures info.publishedAt == r.publishedAt && info.prerelease == r.prerelease
  {
    GitHubReleaseInfo(orgAndRepo, VersionOfTag(r.tagName), r.tagName, r.publishedAt, r.prerelease)
  }

  /** The first release with the greatest publication time. */
  function IndexOfLatest(rs: seq<GitHubReleaseInfo>): (i: nat)
    requires |rs| > 0
    ensures i < |rs|
    ensures forall j :: 0 <= j < |rs| ==> rs[j].publishedAt <= rs[i].publishedAt
    ensures forall j :: 0 <= j < i ==> rs[j].publishedAt < rs[i].publishedAt
    decreases |rs|
  {
    if |rs| == 1 then 0
    else
      var k := IndexOfLatest(rs[1..]) + 1;
      assert forall j :: 1 <= j < |rs| ==> rs[j] == rs[1..][j - 1];
      if rs[0].publishedAt >= rs[k].publishedAt then 0 else k
  }

  /**
   * `sorted(releases, key=published_at, reverse=True)[0]`, or nothing without
   * releases. A stable sort keeps equal keys in list order, so ties go to
   * the release listed first.
   */
  function LatestPublished(rs: seq<GitHubReleaseInfo>): (r: Option<GitHubReleaseInfo>)
    ensures r.None? <==> |rs| == 0
    ensures r.Some? ==> r.value in rs
    ensures r.Some? ==> forall j :: 0 <= j < |rs| ==> rs[j].publishedAt <= r.value.publishedAt
  {
    if |rs| == 0 then None else Some(rs[IndexOfLatest(rs)])
  }

  /** One `GitHubReleaseInfo` per listed release, in the order the API lists them. */
  function ReleaseInfos(orgAndRepo: string, rels: seq<ApiRelease>): (infos: seq<GitHubReleaseInfo>)
    ensures |infos| == |rels|
  {
    if |rels| == 0 then [] else ReleaseInfos(orgAndRepo, rels[..|rels| - 1]) + [ReleaseInfo(orgAndRepo, rels[|rels| - 1])]
  }

  /** The `j`-th wrapped release is the `j`-th listed release. */
  lemma {:induction false} ReleaseInfosAt(orgAndRepo: string, rels: seq<ApiRelease>, j: nat)
    requires j < |rels|
    ensures ReleaseInfos(orgAndRepo, rels)[j] == ReleaseInfo(orgAndRepo, rels[j])
    decreases |rels|
  {
    if j < |rels| - 1 {
      ReleaseInfosAt(orgAndRepo, rels[..|rels| - 1], j);
    }
  }

  /** The first listed release with the greatest publication time, before wrapping. */
  function IndexOfLatestListed(rels: seq<ApiRelease>): (i: nat)
    requires |rels| > 0
    ensures i < |rels|
    decreases |rels|
  {
    if |rels| == 1 then 0
    else
      var k := IndexOfLatestListed(rels[1..]) + 1;
      if rels[0].publishedAt >= rels[k].publishedAt then 0 else k
  }

  /** `IndexOfLatestListed` is the first index with the greatest publication time. */
  lemma {:induction false} IndexOfLatestListedIsLatest(rels: seq<ApiRelease>, j: nat)
    requires j < |rels|
    ensures rels[j].publishedAt <= rels[IndexOfLatestListed(rels)].publishedAt
    ensures j < IndexOfLatestListed(rels) ==> rels[j].publishedAt < rels[IndexOfLatestListed(rels)].publishedAt
    decreases |rels|
  {
    if |rels| > 1 {
      var k := IndexOfLatestListed(rels[1..]) + 1;
      assert rels[k] == rels[1..][k - 1];
      if j > 0 {
        IndexOfLatestListedIsLatest(rels[1..], j - 1);
        assert rels[j] == rels[1..][j - 1];
      }
    }
  }

  /** The latest of the listed releases, wrapped. */
  function LatestListed(orgAndRepo: string, rels: seq<ApiRelease>): (r: Option<GitHubReleaseInfo>)
    ensures r.None? <==> |rels| == 0
  {
    if |rels| == 0 then None else Some(ReleaseInfo(orgAndRepo, rels[IndexOfLatestListed(rels)]))
  }

  /**
   * Wrapping every release and then picking the latest picks the wrapped
   * latest release: wrapping keeps publication times and order.
   */
  lemma LatestOfWrapped(orgAndRepo: string, rels: seq<ApiRelease>)
    ensures LatestPublished(ReleaseInfos(orgAndRepo, rels)) == LatestListed(orgAndRepo, rels)
  {
    if |rels| > 0 {
      var rs := ReleaseInfos(orgAndRepo, rels);
      var i := IndexOfLatest(rs);
      var k := IndexOfLatestListed(rels);
      ReleaseInfosAt(orgAndRepo, rels, i);
      ReleaseInfosAt(orgAndRepo, rels, k);
      IndexOfLatestListedIsLatest(rels, i);
      assert i == k;
    }
  }

  /** What `get_latest_release` answers for a repository, the cache aside. */
  function LatestReleaseSpec(api: GitHubApi, orgAndRepo: string): Result<Option<GitHubReleaseInfo>, Error> {
    match api.releases(orgAndRepo)
    case Ok(rels) => Success(LatestListed(orgAndRepo, rels))
    case GithubException(_) => Success(None)
    case OtherException => Failure(NetworkError)
  }

  /** What `try_get_module_file_content` answers for a repository and tag, the cache aside. */
  function ModuleFileSpec(api: GitHubApi, orgAndRepo: string, tag: string): (r: Result<Option<string>, Error>)
    ensures r.Failure? <==> (api.contents(orgAndRepo, tag).GithubException? && api.contents(orgAndRepo, tag).status != 404)
    ensures r.Success? && r.value.Some? <==> (api.contents(orgAndRepo, tag).Ok? && api.contents(orgAndRepo, tag).value.FileContents? && api.contents(orgAndRepo, tag).value.text.Some?)
  {
    match api.contents(orgAndRepo, tag)
    case GithubException(status) => if status == 404 then Success(None) else Failure(ApiError(status))
    case OtherException => Success(None)
    case Ok(DirectoryListing) => Success(None)
    case Ok(FileContents(text)) => Success(text)
  }

  // ---------------------------------------------------------------------------
  // The wrapper and its two caches
  // ---------------------------------------------------------------------------

  /** The loop of `get_latest_release` that wraps every listed release. */
  method CollectReleases(orgAndRepo: string, rels: seq<ApiRelease>) returns (allReleases: seq<GitHubReleaseInfo>)
    ensures allReleases == ReleaseInfos(orgAndRepo, rels)
  {
    allReleases := [];
    var i := 0;
    while i < |rels|
      invariant 0 <= i <= |rels|
      invariant allReleases == ReleaseInfos(orgAndRepo, rels[..i])
    {
      assert rels[..i + 1][..i] == rels[..i];
      allReleases := allReleases + [ReleaseInfo(orgAndRepo, rels[i])];
      i := i + 1;
    }
    assert rels[..i] == rels;
  }

  class GithubWrapper {
    const api: GitHubApi
    var releaseCache: map<string, Option<GitHubReleaseInfo>>
    var moduleFileCache: map<(string, string), Option<string>>
    /** Every request sent to the API so far. */
    var requests: seq<Request>

    /** Every remembered answer is the answer the API gives. */
    ghost predicate Valid()
      reads this
    {
      && (forall repo :: repo in releaseCache ==> LatestReleaseSpec(api, repo) == Success(releaseCache[repo]))
      && (forall key :: key in moduleFileCache ==> ModuleFileSpec(api, key.0, key.1) == Success(moduleFileCache[key]))
    }

    constructor(api: GitHubApi)
      ensures Valid()
      ensures this.api == api && releaseCache == map[] && moduleFileCache == map[] && requests == []
    {
      this.api := api;
      releaseCache := map[];
      moduleFileCache := map[];
      requests := [];
    }

    /** `get_latest_release`: the cached answer, or one API request whose answer is then cached. */
    method GetLatestRelease(orgAndRepo: string) returns (r: Result<Option<GitHubReleaseInfo>, Error>)
      requires Valid()
      modifies this
      ensures Valid()
      ensures r == LatestReleaseSpec(api, orgAndRepo)
      ensures moduleFileCache == old(moduleFileCache)
      ensures orgAndRepo in old(releaseCache) ==>
        releaseCache == old(releaseCache) && requests == old(requests)
      ensures orgAndRepo !in old(releaseCache) ==>
        && requests == old(requests) + [ReleasesRequest(orgAndRepo)]
        && releaseCache == (if r.Success? then old(releaseCache)[orgAndRepo := r.value] else old(releaseCache))
    {
      if orgAndRepo in releaseCache {
        r := Success(releaseCache[orgAndRepo]);
      } else {
        requests := requests + [ReleasesRequest(orgAndRepo)];
        var reply := api.releases(orgAndRepo);
        if reply.OtherException? {
          r := Failure(NetworkError);
        } else if reply.GithubException? {
          releaseCache := releaseCache[orgAndRepo := None];
          r := Success(None);
        } else {
          var rels := reply.value;
          var allReleases := CollectReleases(orgAndRepo, rels);
          var result := LatestPublished(allReleases);
          LatestOfWrapped(orgAndRepo, rels);
          releaseCache := releaseCache[orgAndRepo := result];
          r := Success(result);
        }
      }
    }

    /** `try_get_module_file_content`: cached per repository and tag; a re-raised error is not cached. */
    method TryGetModuleFileContent(orgAndRepo: string, tag: string) returns (r: Result<Option<string>, Error>)
      requires Valid()
      modifies this
      ensures Valid()
      ensures r == ModuleFileSpec(api, orgAndRepo, tag)
      ensures releaseCache == old(releaseCache)
      ensures (orgAndRepo, tag) in old(moduleFileCache) ==>
        moduleFileCache == old(moduleFileCache) && requests == old(requests)
      ensures (orgAndRepo, tag) !in old(moduleFileCache) ==>
        && requests == old(requests) + [ContentsRequest(orgAndRepo, tag)]
        && moduleFileCache == (if r.Success? then old(moduleFileCache)[(orgAndRepo, tag) := r.value] else old(moduleFileCache))
    {
      var key := (orgAndRepo, tag);
      if key in moduleFileCache {
        return Success(moduleFileCache[key]);
      }
      requests := requests + [ContentsRequest(orgAndRepo, tag)];
      var reply := api.contents(orgAndRepo, tag);
      if reply.GithubException? {
        if reply.status == 404 {
          moduleFileCache := moduleFileCache[key := None];
          return Success(None);
        }
        return Failure(ApiError(reply.status));
      }
      if reply.OtherException? {
        moduleFileCache := moduleFileCache[key := None];
        return Success(None);
      }
      if reply.value.DirectoryListing? {
        moduleFileCache := moduleFileCache[key := None];
        return Success(None);
      }
      moduleFileCache := moduleFileCache[key := reply.value.text];
      return Success(reply.value.text);
    }
  }

  // ---------------------------------------------------------------------------
  // Properties of the selection
  // ---------------------------------------------------------------------------

  /** On a tie in publication time the release listed first wins. */
  lemma LatestIsFirstOfLatest(rs: seq<GitHubReleaseInfo>, j: nat)
    requires j < |rs| && LatestPublished(rs).Some?
    requires rs[j].publishedAt == LatestPublished(rs).value.publishedAt
    ensures rs[IndexOfLatest(rs)] == LatestPublished(rs).value && IndexOfLatest(rs) <= j
  {
  }

  /** The latest release is chosen by time, not by version: a later, lower version wins. */
  lemma LatestIsByTimeNotVersion()
    ensures var old1 := GitHubReleaseInfo("o/r", FromString("2.0.0"), "v2.0.0", 1, false);
      var new1 := GitHubReleaseInfo("o/r", FromString("1.5.0"), "v1.5.0", 2, false);
      LatestPublished([old1, new1]) == Some(new1)
  {
  }
}
