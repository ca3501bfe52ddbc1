# Bazel registry manager, modelled in Dafny

This project models the registry manager of a Bazel module registry. The
registry is a tree of `modules/<name>/metadata.json` files. Each module
version lives in `modules/<name>/<version>/` and holds `MODULE.bazel`,
`source.json` and, when needed, `patches/module_dot_bazel_version.patch`.

The manager runs in five steps, and the project models each of them:

- **Reading modules.** It reads every module's `metadata.json` and parses
  its version list into `Version` values. A `Version` is a raw string plus,
  when the string is one, a parsed semantic version. The list is sorted
  newest first.
- **Planning.** For every periodic-pull module (or every module named on the
  command line), it asks GitHub for the latest release. When that release
  is newer, is a semantic version and ships a non-empty `MODULE.bazel`, it
  plans an update.
- **Generating files.** For every planned update it:
  - prepends the release to `metadata.json`;
  - writes `MODULE.bazel`, stamping the release's version and compatibility
    level into it when they disagree and recording the difference as a
    patch;
  - writes `source.json`, with the tarball URL, its Subresource Integrity
    hash (`sha256-` + standard Base64) and the patch hashes.
- **Auditing.** A separate tool checks that every version's
  `compatibility_level` equals its major version.
- **Legacy scripts.** An older pair of scripts does the same job with a
  simpler algorithm: append to `metadata.json` and rewrite the GitHub URL of
  `MODULE.bazel` into a raw-content URL.

## How the model is built

- **Pure code is functions.** Parsing, ordering, planning decisions and file
  contents are functions over datatypes. Python exceptions and `log.fatal`
  calls become `Failure` values of the `Errors.Error` datatype. They are
  never preconditions.
- **Stateful objects are classes.**
  - `GitHub.GithubWrapper` holds the two caches and a log of the requests
    it sent to the API.
  - `UpdateRunner.ModuleUpdateRunner` holds the registry files, a
    `map<string, FileData>`, and the patches it has created.
  - `LegacyGenerate.LegacyWorkspace` plays the same role for the legacy
    scripts.

  Each class method is proved against a pure specification function.
- **Loops are methods with invariants.** This covers the loop over releases,
  the loop over module directories, the planning loop, the chunked hashing
  loop, the audit loop and the legacy enrichment loop.
- **Code outside the model is a parameter.** These are function-typed
  parameters:
  - the GitHub API (`GitHubApi`, `LegacyApi`);
  - SHA-256 (`digest`);
  - the download of a URL (`fetch`);
  - `difflib` (`diff`);
  - the directory tree on disk;
  - `urlparse(...).path` (`urlPath`);
  - the shell pipeline of the legacy generator (`pipeline`).
- **Semantic versions are SemVer 2.0.0, as the `semver` library's pattern
  describes it.** `SemVer` implements SemVer 2.0.0 parsing (section 2,
  sections 9–10) and precedence (section 11). It also proves that `Format` and `Parse` are mutually
  inverse.
- **Python string order.** Comparing Python `str` values is code-point
  lexicographic order, modelled as `Text.LexLess`.

## Model

| member | source | states |
|---|---|---|
| Versions.FromString | src/registry_manager/version.py:5-14 | A version made from any string keeps the string and carries a semantic version exactly when the string parses as one (`Valid`). |
| Versions.FromJson | src/registry_manager/version.py:5-7 | A JSON value becomes a version exactly when it is a string; anything else is `TypeError`; the result prints as the string. |
| Versions.StrOfFromString | src/registry_manager/version.py:35-36 | `str(Version(s)) == s` for every string. |
| Versions.FromStringOfStr | src/registry_manager/version.py:9-14 | Re-parsing the text of a valid version gives the same version. |
| Versions.EqIsIdentity | src/registry_manager/version.py:28-33 | Equality compares raw text only, so on valid versions it is identity ("1.0.0" and "001.00.0000" differ). |
| Versions.LessIrreflexive | src/registry_manager/version.py:20-26 | No version is less than itself. |
| Versions.LessAsymmetric | src/registry_manager/version.py:20-26 | `a < b` and `b < a` never both hold. |
| Versions.LessTransitive | src/registry_manager/version.py:20-26 | `<` is transitive among all-semantic or all-non-semantic versions. |
| Versions.NotLessTransitive | src/registry_manager/version.py:20-26 | "Not less" is transitive on the same homogeneous versions, which the stable sort relies on. |
| Versions.LessTotal | src/registry_manager/version.py:20-33 | Two versions are ordered, equal, or semantic versions of the same precedence. |
| Versions.MixedLessCycle | src/registry_manager/version.py:23-26 | 1.0.9 < 1.0.10 < 1.0.1x < 1.0.9: mixing parsed and unparsed versions makes `<` cyclic. |
| Versions.BuildsSamePrecedence | src/registry_manager/version.py:20-33 | Versions differing only in build metadata are neither less nor equal. |
| Versions.SamePrecedenceNotEqual | src/registry_manager/version.py:20-33 | 1.0.0+a and 1.0.0+b are neither `<` nor `==` in either direction. |
| Versions.PreBeforeRelease | src/registry_manager/version.py:23-24 | A pre-release version is less than its release. |
| Versions.PlainExamples | tests/test_version.py:17-20 | 1.0.0 < 1.0.1, 1.0.0 < 1.1.0, 1.0.0 < 2.0.0. |
| Versions.PreReleaseExample | tests/test_version.py:21 | 1.0.0-alpha < 1.0.0. |
| Versions.LetterA | src/registry_manager/version.py:11-14 | "A" and "B" are not semantic versions. |
| Versions.OneZeroOneX | src/registry_manager/version.py:11-14 | "1.0.1x" is not a semantic version. |
| Versions.VersionSmallerExamples | tests/test_version.py:17-22 | All five orderings the version tests assert, including the raw-text fallback "A" < "B". |
| Versions.ParsesAs | src/registry_manager/version.py:12 | The text of a well-formed semantic version parses back to it. |
| Versions.WithBuild | src/registry_manager/version.py:12 | Appending `+b` to a plain version parses to that version with build `[b]`. |
| Versions.WithPre | src/registry_manager/version.py:12 | Appending `-p` to a plain version parses to that version with pre-release `[p]`. |
| RegistryModel.LatestVersion | src/registry_manager/__init__.py:31-37 | `ValueError` exactly when the module lists no version; otherwise the first listed version. |
| RegistryModel.LatestVersionIsMaximal | src/registry_manager/__init__.py:31-37 | On a descending list the latest version is not less than any listed version. |
| RegistryModel.MajorVersion | src/registry_manager/__init__.py:46-52 | `None` exactly when MODULE.bazel declares no version or a non-semantic one; otherwise its major number. |
| SemVer.Parse | src/registry_manager/version.py:12 | Every parsed version is well formed (canonical numerals, well-formed identifiers). |
| SemVer.ParseNumeral | src/registry_manager/version.py:12 | A numeral parses exactly when it is canonical (digits, no leading zero). |
| SemVer.ParseFormat | src/registry_manager/version.py:12 | `Parse(Format(v)) == v` for every well-formed version. |
| SemVer.FormatParse | src/registry_manager/version.py:12 | `Format(Parse(s)) == s` whenever `s` parses. |
| SemVer.ParseInjective | src/registry_manager/version.py:12 | Two strings that parse to the same version are the same string. |
| SemVer.CutAtFirst | src/registry_manager/version.py:12 | The cut at the first separator splits the text around it, or reports that the separator is absent. |
| SemVer.LessIrreflexive | src/registry_manager/version.py:24 | Precedence is irreflexive. |
| SemVer.LessTrichotomy | src/registry_manager/version.py:24 | Exactly one of less, greater or same precedence holds. |
| SemVer.LessTransitive | src/registry_manager/version.py:24 | Precedence is transitive. |
| SemVer.PreReleaseBeforeRelease | src/registry_manager/version.py:24 | A pre-release has lower precedence than its release (SemVer 2.0.0 section 11.3). |
| SemVer.IdentLessTotal | src/registry_manager/version.py:24 | Pre-release identifier order is a strict total order (numeric before alphanumeric). |
| SemVer.IdentLessTransitive | src/registry_manager/version.py:24 | Pre-release identifier order is transitive. |
| SemVer.PreLessTrichotomy | src/registry_manager/version.py:24 | Pre-release lists are equal or strictly ordered one way (SemVer 2.0.0 section 11.4). |
| SemVer.PreLessTransitive | src/registry_manager/version.py:24 | Pre-release list order is transitive. |
| SemVer.PreLessIrreflexive | src/registry_manager/version.py:24 | No pre-release list precedes itself. |
| Text.LexLessIrreflexive | src/registry_manager/version.py:26 | Python string `<` is irreflexive. |
| Text.LexLessAsymmetric | src/registry_manager/version.py:26 | Python string `<` is asymmetric. |
| Text.LexLessTransitive | src/registry_manager/version.py:26 | Python string `<` is transitive. |
| Text.LexLessTotal | src/registry_manager/version.py:26 | Two different strings are ordered one way or the other. |
| Text.NatToString | src/registry_manager/version.py:35-36 | A number prints as non-empty digits without a leading zero. |
| Text.NatToStringRoundTrip | src/registry_manager/version.py:35-36 | Printed numbers read back as themselves. |
| Text.CanonicalNumeralRoundTrip | src/registry_manager/version.py:12 | A canonical numeral prints back to its own text. |
| Text.LStripChar | src/registry_manager/github_wrapper.py:65 | `lstrip(c)` returns a suffix whose dropped prefix is all `c` and which does not start with `c`. |
| Text.LStripCharRepeat | src/registry_manager/github_wrapper.py:65 | Any number of leading `c` are stripped alike. |
| Text.RStripChar | scripts/check_and_update_modules.py:44 | `rstrip(c)` returns a prefix whose dropped suffix is all `c` and which does not end with `c`. |
| Text.StripSpaces | tools/verify_semver_compatibility_level.py:41 | `strip()` leaves no `str.isspace()` whitespace at either end and never lengthens the text. |
| Text.StripSpacesSlice | tools/verify_semver_compatibility_level.py:41 | `strip()` removes only whitespace at the two ends: the result is a slice of the input with only whitespace before and after it. |
| Text.StripSpacesUnchanged | tools/verify_semver_compatibility_level.py:41 | A string without whitespace at its ends is left unchanged. |
| Text.Split | tools/verify_semver_compatibility_level.py:41 | `split(sep)` yields a non-empty list of separator-free parts that join back to the input. |
| Text.SplitJoin | tools/verify_semver_compatibility_level.py:41 | Splitting a join of separator-free parts returns the parts. |
| Text.LastSegment | src/registry_manager/bazel_wrapper.py:202 | `rsplit('/', 1)[-1]`: the separator-free suffix after the last separator. |
| Text.ReplaceAllNoOccurrence | scripts/check_and_update_modules.py:91 | `replace` leaves a string without occurrences unchanged. |
| Text.ReplaceAllAppend | scripts/check_and_update_modules.py:91 | `replace` on `a + b` keeps `a` when no occurrence starts in `a`. |
| Text.ReplaceAllAtFront | scripts/check_and_update_modules.py:91 | An occurrence at the front is replaced and the scan resumes after it. |
| Text.ReplaceAllShort | scripts/check_and_update_modules.py:91 | A string shorter than the pattern is unchanged. |
| GitHub.Tarball | src/registry_manager/github_wrapper.py:33-35 | The tarball URL embeds the repository and the tag. |
| GitHub.TarballDistinguishes | src/registry_manager/github_wrapper.py:33-35 | For a shared repository or a shared tag, the URLs are equal exactly when both match. |
| GitHub.VersionOfTagStrips | src/registry_manager/github_wrapper.py:65 | A release's version is its tag without its leading `v`s, and the result is valid. |
| GitHub.VersionOfTagIgnoresPrefix | src/registry_manager/github_wrapper.py:65 | `v1.0.0`, `vv1.0.0` and `1.0.0` give the same version. |
| GitHub.ReleaseInfo | src/registry_manager/github_wrapper.py:61-69 | Release info copies repository, tag, publication time and pre-release flag, and derives the version from the tag. |
| GitHub.ReleaseInfos | src/registry_manager/github_wrapper.py:60-70 | One release info per API release. |
| GitHub.ReleaseInfosAt | src/registry_manager/github_wrapper.py:60-70 | The j-th info is built from the j-th API release. |
| GitHub.IndexOfLatest | src/registry_manager/github_wrapper.py:72-75 | Picks a release with the greatest publication time, the first of those on ties. |
| GitHub.LatestPublished | src/registry_manager/github_wrapper.py:72-75 | `None` exactly for no releases; otherwise a listed release published no earlier than any other. |
| GitHub.IndexOfLatestListedIsLatest | src/registry_manager/github_wrapper.py:72-75 | The chosen API release is latest, and strictly later than every release before it. |
| GitHub.LatestListed | src/registry_manager/github_wrapper.py:46-82 | No release exactly when the repository lists none. |
| GitHub.LatestOfWrapped | src/registry_manager/github_wrapper.py:60-76 | Wrapping every release and then picking the latest equals picking first and wrapping once. |
| GitHub.LatestIsFirstOfLatest | src/registry_manager/github_wrapper.py:72-75 | Among releases published at the same latest time, the first listed one wins (stable sort). |
| GitHub.LatestIsByTimeNotVersion | src/registry_manager/github_wrapper.py:72-75 | A later 1.5.0 beats an earlier 2.0.0: latest means published last, not highest version. |
| GitHub.ModuleFileSpec | src/registry_manager/github_wrapper.py:84-125 | Fails exactly on a non-404 GitHub error; yields text exactly for a file that decodes; otherwise `None`. |
| GitHub.CollectReleases | src/registry_manager/github_wrapper.py:60-70 | The loop over API releases builds exactly their release infos. |
| GitHub.GithubWrapper.constructor | src/registry_manager/github_wrapper.py:41-44 | A new wrapper has empty caches and has sent no requests. |
| GitHub.GithubWrapper.GetLatestRelease | src/registry_manager/github_wrapper.py:46-82 | Returns the latest release or the API error, keeps both caches coherent, and asks the API only on a cache miss. |
| GitHub.GithubWrapper.TryGetModuleFileContent | src/registry_manager/github_wrapper.py:84-125 | Returns the MODULE.bazel text, `None` or the error, caches it, and asks the API only on a cache miss. |
| ModuleFile.SkipWhile | src/registry_manager/bazel_wrapper.py:130-134 | The end of a run of matching characters (`\s*`, `\d+`). |
| ModuleFile.KeyEqAt | src/registry_manager/bazel_wrapper.py:130-134 | A `keyword\s*=\s*` match at a position, with maximal trailing whitespace. |
| ModuleFile.KeyEqAtComplete | src/registry_manager/bazel_wrapper.py:130-134 | Every `keyword\s*=\s*` match is the one the scanner finds. |
| ModuleFile.VersionMatchAt | src/registry_manager/bazel_wrapper.py:134 | The scanner reports only matches of `version\s*=\s*['"]([^'"]+)['"]`. |
| ModuleFile.VersionMatchAtComplete | src/registry_manager/bazel_wrapper.py:134 | Every match of the version pattern at a position is found there. |
| ModuleFile.LevelMatchAt | src/registry_manager/bazel_wrapper.py:130 | The scanner reports only matches of `compatibility_level\s*=\s*(\d+)`. |
| ModuleFile.LevelMatchAtComplete | src/registry_manager/bazel_wrapper.py:130 | Every match of the level pattern at a position is found there. |
| ModuleFile.FindVersionFrom | src/registry_manager/bazel_wrapper.py:134 | The leftmost version match at or after a position. |
| ModuleFile.FindLevelFrom | src/registry_manager/bazel_wrapper.py:130 | The leftmost level match at or after a position. |
| ModuleFile.FindVersion | src/registry_manager/bazel_wrapper.py:134 | `re.search`: a version match exists exactly when one is found, and the found one is leftmost. |
| ModuleFile.FindLevel | src/registry_manager/bazel_wrapper.py:130 | `re.search` for the compatibility level, leftmost. |
| ModuleFile.VersionText | src/registry_manager/bazel_wrapper.py:134-135 | The captured version is non-empty and free of quotes. |
| ModuleFile.LevelDigits | src/registry_manager/bazel_wrapper.py:130-131 | The captured level is a non-empty run of digits. |
| ModuleFile.ParseModuleFileContent | src/registry_manager/bazel_wrapper.py:124-141 | The parsed file keeps the full content. |
| ModuleFile.ParseModuleFileContentFields | src/registry_manager/bazel_wrapper.py:124-141 | Version and level are present exactly when their patterns match, and hold the leftmost captures. |
| ModuleFileStamp.Splice | src/registry_manager/bazel_wrapper.py:300-316 | `re.sub` with count 1 replaces exactly one slice and keeps the rest. |
| ModuleFileStamp.StampVersion | src/registry_manager/bazel_wrapper.py:300-305 | Without a version declaration the content is unchanged. |
| ModuleFileStamp.StampVersionNoEarlier | src/registry_manager/bazel_wrapper.py:300-305 | Stamping creates no version declaration earlier than the replaced one. |
| ModuleFileStamp.StampVersionReparses | src/registry_manager/bazel_wrapper.py:300-305 | Re-parsing the stamped text finds the new version text. |
| ModuleFileStamp.StampedVersionMatch | src/registry_manager/bazel_wrapper.py:300-305 | The stamped declaration sits where the old one was and captures the new text. |
| ModuleFileStamp.StampLevel | src/registry_manager/bazel_wrapper.py:307-316 | Without a level declaration the content is unchanged. |
| ModuleFileStamp.StampLevelNoEarlier | src/registry_manager/bazel_wrapper.py:307-316 | Stamping creates no level declaration earlier than the replaced one. |
| ModuleFileStamp.StampLevelReparses | src/registry_manager/bazel_wrapper.py:307-316 | Re-parsing the stamped text finds the new level. |
| ModuleFileStamp.StampedVersionIsRelease | src/registry_manager/bazel_wrapper.py:300-305 | After stamping, MODULE.bazel declares exactly the release's version. |
| ModuleFileStamp.StampedLevelIsMajor | src/registry_manager/bazel_wrapper.py:307-316 | After stamping a semantic release, the declared level is its major version. |
| ModuleFileStamp.StampedLevelKeptForNonSemantic | src/registry_manager/bazel_wrapper.py:307-316 | A non-semantic release stamps only the version. |
| ModuleFileStamp.FirstVersionMatch | src/registry_manager/bazel_wrapper.py:134 | A match with no `v` before it is the one found. |
| ModuleFileStamp.FirstLevelMatch | src/registry_manager/bazel_wrapper.py:130 | A level match with no `y` before its `=` is the one found. |
| ModuleFileStamp.NoDeclarations | src/registry_manager/bazel_wrapper.py:124-141 | Text without `v` and `y` declares neither version nor level. |
| ModuleFileStamp.CompleteVersionMatch | tests/test_module_parsing.py:20-23 | In the complete test declaration the version match captures "1.2.3". |
| ModuleFileStamp.CompleteLevelMatch | tests/test_module_parsing.py:20-24 | In the complete test declaration the level match captures "2". |
| ModuleFileStamp.CompleteDeclarationParses | tests/test_module_parsing.py:20-25 | The complete declaration parses to version 1.2.3, level 2 and major version 1. |
| ModuleFileStamp.MinimalDeclarationParses | tests/test_module_parsing.py:27-32 | `module(name="score_demo")` has no version, level or major version. |
| Hashing.Flatten | src/registry_manager/bazel_wrapper.py:147-153 | A single chunk flattens to itself. |
| Hashing.FlattenAppend | src/registry_manager/bazel_wrapper.py:147-153 | Hashing chunks in two runs sees the concatenation of both. |
| Hashing.Base64Char | src/registry_manager/bazel_wrapper.py:154 | No sextet encodes as the padding character (section 4 of RFC 4648). |
| Hashing.Base64Value | src/registry_manager/bazel_wrapper.py:154 | Decoding a character inverts `Base64Char`. |
| Hashing.Base64CharValue | src/registry_manager/bazel_wrapper.py:154 | Every sextet decodes back from its character. |
| Hashing.Pack | src/registry_manager/bazel_wrapper.py:154 | Three bytes pack into 24 bits. |
| Hashing.Sextets | src/registry_manager/bazel_wrapper.py:154 | 24 bits split into four sextets that recombine to them. |
| Hashing.Quad | src/registry_manager/bazel_wrapper.py:154 | A group encodes as four non-padding characters. |
| Hashing.Base64Encode | src/registry_manager/bazel_wrapper.py:154 | The encoding has length 4·⌈n/3⌉ (section 4 of RFC 4648). |
| Hashing.QuadRoundTrip | src/registry_manager/bazel_wrapper.py:154 | A four-character group decodes back to its 24 bits. |
| Hashing.UnpackPack | src/registry_manager/bazel_wrapper.py:154 | Unpacking 24 bits gives back the three bytes. |
| Hashing.Base64RoundTrip | src/registry_manager/bazel_wrapper.py:154 | Decoding the encoding of any bytes gives them back, padding included. |
| Hashing.Base64Injective | src/registry_manager/bazel_wrapper.py:154 | Different byte strings have different encodings. |
| Hashing.EncodedLength32 | src/registry_manager/bazel_wrapper.py:154 | A 32-byte SHA-256 digest encodes to 44 characters. |
| Hashing.Integrity | src/registry_manager/bazel_wrapper.py:144-154 | The hash is `sha256-` followed by a Base64 text that decodes to the digest; 51 characters for a 32-byte digest. |
| Hashing.Sha256FromBytes | src/registry_manager/bazel_wrapper.py:144-154 | Feeding the chunks to the hash one by one gives the integrity of their concatenation. |
| Hashing.IntegrityIgnoresChunking | src/registry_manager/bazel_wrapper.py:147-153 | Chunk boundaries do not affect the result. |
| Hashing.IntegrityDistinguishesDigests | src/registry_manager/bazel_wrapper.py:144-154 | Different digests give different integrity strings. |
| Hashing.ReadChunks | src/registry_manager/bazel_wrapper.py:161-163 | The body is split into non-empty chunks of at most 1 MiB, in order, ⌈n/2^20⌉ of them. |
| Hashing.Sha256FromUrl | src/registry_manager/bazel_wrapper.py:157-165 | A failed download propagates its error; otherwise the integrity of the downloaded body. |
| Hashing.Utf8Char | src/registry_manager/bazel_wrapper.py:170 | A character encodes in 1 to 4 bytes, 1 exactly for ASCII. |
| Hashing.Utf8Encode | src/registry_manager/bazel_wrapper.py:170 | The encoding is at least as long as the text. |
| Hashing.Utf8RoundTrip | src/registry_manager/bazel_wrapper.py:170 | UTF-8 decoding inverts `str.encode()`. |
| Hashing.Utf8Ascii | src/registry_manager/bazel_wrapper.py:170 | ASCII text encodes byte for byte. |
| Hashing.Sha256FromString | src/registry_manager/bazel_wrapper.py:168-170 | The integrity of the UTF-8 encoding of the string. |
| Json.Get | scripts/check_and_update_modules.py:32 | `dict.get(key, default)`. |
| Metadata.VersionsOf | src/registry_manager/bazel_wrapper.py:45 | Succeeds exactly when every item is a string (else `TypeError`), one version per item in order. |
| Metadata.Insert | src/registry_manager/bazel_wrapper.py:48-51 | Insertion adds exactly one element and keeps adjacent pairs descending. |
| Metadata.SortDescending | src/registry_manager/bazel_wrapper.py:48-51 | The newest-first order: a permutation of the input with every adjacent pair descending (on mixed lists see "## Left out"). |
| Metadata.MixedSortExample | src/registry_manager/bazel_wrapper.py:48-51 | On the mixed list 1.0.9, 1.0.10, 1.0.1x the model's order is 1.0.9, 1.0.1x, 1.0.10. |
| Metadata.AdjacentToDescending | src/registry_manager/bazel_wrapper.py:48-51 | On homogeneous versions, adjacent descending means no element precedes a later one. |
| Metadata.HomogeneousPermutation | src/registry_manager/bazel_wrapper.py:48-51 | Sorting keeps a list all-semantic or all-non-semantic. |
| Metadata.ParseVersions | src/registry_manager/bazel_wrapper.py:34-51 | `None` gives no versions; a non-list is fatal; a list fails with `TypeError` exactly on a non-string; otherwise a descending permutation of the listed versions. |
| Metadata.ParseVersionsDescending | src/registry_manager/bazel_wrapper.py:48-51 | Homogeneous parsed lists are fully descending. |
| Metadata.ParseVersionsKeepsAll | src/registry_manager/bazel_wrapper.py:45-51 | Every listed version appears in the result. |
| Metadata.ParseVersionsOfList | src/registry_manager/bazel_wrapper.py:45-51 | A list of strings parses to the sort of its versions. |
| Metadata.ValidateMetadata | src/registry_manager/bazel_wrapper.py:93-121 | A module results exactly for a single `github:` repository with parseable versions; the module carries its directory, name, `org/repo`, versions and flags. |
| Metadata.TryParseMetadataJson | src/registry_manager/bazel_wrapper.py:73-121 | A module results exactly for a decoded file that passes validation; failures come only from a decoded file. |
| Metadata.NameOnlyWarns | src/registry_manager/bazel_wrapper.py:83-84 | The `score_` name check only warns: the outcome does not depend on the directory name. |
| Metadata.ReadStep | src/registry_manager/bazel_wrapper.py:57-69 | An error ends the read; a missing named module is fatal and a missing listed one is skipped; a module is appended unless obsolete. |
| Metadata.ReadSpec | src/registry_manager/bazel_wrapper.py:54-70 | At most one module per entry, none of them obsolete. |
| Metadata.ReadSpecFailureSticks | src/registry_manager/bazel_wrapper.py:54-70 | Once reading fails, later entries do not change the outcome. |
| Metadata.ReadModules | src/registry_manager/bazel_wrapper.py:54-70 | The loop over named modules or directory entries computes `ReadSpec`. |
| Metadata.ReadEntry | src/registry_manager/bazel_wrapper.py:57-69 | One loop iteration computes `ReadStep`. |
| Metadata.NamedMissingIsFatal | src/registry_manager/bazel_wrapper.py:64 | A named module without valid metadata ends the read fatally. |
| Metadata.ReadSpecModulesFromEntries | src/registry_manager/bazel_wrapper.py:61-69 | Every module read comes from some entry and is not obsolete. |
| Metadata.SortedByPrecedenceExample | tests/test_module_reading.py:93-115 | ["1.0.9", "1.0.10", "1.0.2"] reads as 1.0.10, 1.0.9, 1.0.2 with latest 1.0.10. |
| UpdateRunner.Raws | src/registry_manager/bazel_wrapper.py:237-239 | `[str(v) for v in versions]`, element by element. |
| UpdateRunner.MetadataUpdate | src/registry_manager/bazel_wrapper.py:222-243 | Touches only `metadata.json`, and fails when it is missing. |
| UpdateRunner.MetadataUpdateRefusesListed | src/registry_manager/bazel_wrapper.py:229-233 | `RuntimeError` exactly when the release is already listed. |
| UpdateRunner.MetadataUpdatePrepends | src/registry_manager/bazel_wrapper.py:235-239 | An unlisted release is written first, followed by the sorted old versions. |
| UpdateRunner.VersionsOfRaws | src/registry_manager/bazel_wrapper.py:237-239 | Printing valid versions and reading them back gives the same versions. |
| UpdateRunner.MetadataUpdateReadsBack | src/registry_manager/bazel_wrapper.py:222-243 | Reading the new list gives the old versions plus the release. |
| UpdateRunner.ListedExample | tests/test_file_generation.py:184-187 | ["1.0.9", "1.0.10"] is read as 1.0.10, 1.0.9. |
| UpdateRunner.PrependExample | tests/test_file_generation.py:180-209 | Adding 1.0.11 to ["1.0.9", "1.0.10"] writes ["1.0.11", "1.0.10", "1.0.9"]. |
| UpdateRunner.StampSpec | src/registry_manager/bazel_wrapper.py:268-332 | `AssertionError` exactly when MODULE.bazel declares no version; no patch exactly when version and level already match; else the stamped text. |
| UpdateRunner.PatchHashes | src/registry_manager/bazel_wrapper.py:210-215 | One hash per patch name. |
| UpdateRunner.HashesOf | src/registry_manager/bazel_wrapper.py:212-215 | One entry per named patch, holding the integrity string of its UTF-8 text. |
| UpdateRunner.PatchHashesDecode | src/registry_manager/bazel_wrapper.py:212-215 | Each patch hash is `sha256-` plus the Base64 of the digest of the patch's UTF-8 bytes. |
| UpdateRunner.SourceFields | src/registry_manager/bazel_wrapper.py:204-215 | `integrity`, `strip_prefix` and `url` are always present; `patches` and `patch_strip` are present exactly when there are patches. |
| UpdateRunner.SourceJsonSpec | src/registry_manager/bazel_wrapper.py:200-219 | Fails exactly when the tarball download fails; otherwise a JSON object. |
| UpdateRunner.BuildSourceJson | src/registry_manager/bazel_wrapper.py:202-215 | Hashes the tarball and the patches and builds the document `SourceJsonSpec` describes, or fails with the download error. |
| UpdateRunner.SourceJsonNamesTarball | src/registry_manager/bazel_wrapper.py:202-208 | `url` is the tarball and `strip_prefix` is `<repo>-<version>`. |
| UpdateRunner.SourceJsonIntegrity | src/registry_manager/bazel_wrapper.py:204-206 | `integrity` decodes to the digest of the tarball. |
| UpdateRunner.SourceJsonListsPatches | src/registry_manager/bazel_wrapper.py:210-215 | Patches are listed with `patch_strip` 1 exactly when there are some. |
| UpdateRunner.ModuleText | src/registry_manager/bazel_wrapper.py:256-260 | Without a patch the original MODULE.bazel is written. |
| UpdateRunner.ModuleFilePath | src/registry_manager/bazel_wrapper.py:256 | `MODULE.bazel` lies inside the version directory. |
| UpdateRunner.SourceJsonPath | src/registry_manager/bazel_wrapper.py:217 | `source.json` lies inside the version directory. |
| UpdateRunner.PatchPath | src/registry_manager/bazel_wrapper.py:262-266 | Patches lie under `patches/`, named by the patch. |
| UpdateRunner.PatchFiles | src/registry_manager/bazel_wrapper.py:262-266 | Each patch is written under its own path with its text, and nothing else is. |
| UpdateRunner.WritePatches | src/registry_manager/bazel_wrapper.py:262-266 | The loop over the patches adds exactly the patch files to the registry. |
| UpdateRunner.WrittenFilesContents | src/registry_manager/bazel_wrapper.py:245-266 | MODULE.bazel and every patch are written; every other file keeps its content and no other file appears. |
| UpdateRunner.PatchesFor | src/registry_manager/bazel_wrapper.py:319-329 | No patch without a stamp; otherwise one patch, the diff from the original to the stamped text. |
| UpdateRunner.Finish | src/registry_manager/bazel_wrapper.py:186-198 | The run leaves MODULE.bazel, source.json and every patch in the version directory; every other file keeps its content and no other file appears. |
| UpdateRunner.MetadataOutsideVersionDir | src/registry_manager/bazel_wrapper.py:183-184 | metadata.json is none of the files written into the release's directory. |
| UpdateRunner.GenerateSpec | src/registry_manager/bazel_wrapper.py:186-198 | A metadata failure leaves the files unchanged. Success means the release was not listed; metadata.json then holds the release in front of the sorted old versions, with its other fields kept; the stamped module, the source and the patches are written; every other file keeps its content and no other file appears. |
| UpdateRunner.IsListed | src/registry_manager/bazel_wrapper.py:229 | The `in` loop finds the release exactly when an equal version is listed. |
| UpdateRunner.ModuleUpdateRunner.constructor | src/registry_manager/bazel_wrapper.py:180-184 | The runner starts without patches, at the module and version paths of the update. |
| UpdateRunner.ModuleUpdateRunner.AddVersionToMetadata | src/registry_manager/bazel_wrapper.py:222-243 | Leaves the files as `MetadataUpdate` says, or unchanged on failure. |
| UpdateRunner.ModuleUpdateRunner.CreatePatchForModuleVersionIfMismatch | src/registry_manager/bazel_wrapper.py:268-332 | Returns `StampSpec` and stores the diff only when a stamp was made. |
| UpdateRunner.HashPatches | src/registry_manager/bazel_wrapper.py:210-215 | The loop hashes exactly the stored patches. |
| UpdateRunner.ModuleUpdateRunner.GenerateSourceJson | src/registry_manager/bazel_wrapper.py:200-219 | Writes `source.json` or propagates the download error with the files unchanged. |
| UpdateRunner.ModuleUpdateRunner.WriteFiles | src/registry_manager/bazel_wrapper.py:245-266 | Writes MODULE.bazel and the patch files. |
| UpdateRunner.ModuleUpdateRunner.GenerateFiles | src/registry_manager/bazel_wrapper.py:186-198 | The whole run computes `GenerateSpec`. |
| UpdateRunner.GenerateSucceedsIff | src/registry_manager/bazel_wrapper.py:186-198 | A run succeeds exactly when the metadata update, the stamp check and the tarball download all succeed. |
| UpdateRunner.NoPatchIffMatching | src/registry_manager/bazel_wrapper.py:285-290 | No patch is stored exactly when version and level already match the release. |
| UpdateRunner.MismatchStoresOnePatch | src/registry_manager/bazel_wrapper.py:300-332 | A mismatch stores one patch, writes the stamped MODULE.bazel and lists the patch's hash. |
| UpdateRunner.MatchKeepsOriginal | src/registry_manager/bazel_wrapper.py:285-290 | A match writes the original MODULE.bazel and a source.json without patches. |
| Planner.Step | src/registry_manager/main.py:91-132 | Skipped exactly when not looked at; a planned task is the module's latest release with a non-empty MODULE.bazel. |
| Planner.AfterRelease | src/registry_manager/main.py:100-132 | Something other than "skip" or "up to date" exactly when the module has no version or its latest differs from the release. |
| Planner.PlanSpec | src/registry_manager/main.py:80-139 | At most one task or warning per module. |
| Planner.ConsideredCount | src/registry_manager/main.py:93-95 | No module is looked at without names or periodic pull. |
| Planner.PlanOne | src/registry_manager/main.py:93-132 | One iteration computes `Step`, sending at most two requests, MODULE.bazel only when needed. |
| Planner.QueryModule | src/registry_manager/main.py:99-132 | The GitHub part of one iteration. |
| Planner.CompareAndFetch | src/registry_manager/main.py:100-132 | Computes `AfterRelease` with at most one request, which is for MODULE.bazel. |
| Planner.PlanModuleUpdates | src/registry_manager/main.py:80-139 | The loop computes `PlanSpec`, sends at most two requests per module looked at, and fetches only the MODULE.bazel files it needs. |
| Planner.PlanFailureSticks | src/registry_manager/main.py:80-139 | An error ends the plan, whatever follows. |
| Planner.SkipsNonPeriodic | src/registry_manager/main.py:93-95 | Without names, a module that is not periodic-pull is skipped and asks GitHub nothing. |
| Planner.UpToDateFetchesNothing | src/registry_manager/main.py:100 | A module already at its latest release is up to date, and its MODULE.bazel is not fetched. |
| Planner.NonSemanticWarns | src/registry_manager/main.py:101-107 | A newer non-semantic release gives one warning naming it. |
| Planner.PlannedIff | src/registry_manager/main.py:113-125 | A task is planned exactly when an update is needed and MODULE.bazel is a non-empty file. |
| Planner.MissingModuleFileWarns | src/registry_manager/main.py:126-130 | A missing or empty MODULE.bazel warns instead of planning. |
| Planner.NoReleaseIsUpToDate | src/registry_manager/main.py:99-100 | A repository without releases is up to date. |
| Planner.NoVersionsFails | src/registry_manager/__init__.py:35-36 | A module with a release but no versions ends the plan with `ValueError`. |
| Planner.TasksNeedUpdate | src/registry_manager/main.py:117-125 | Every task comes from a listed module that needs an update, with its latest release. |
| CompatAudit.DropUnderscores | tools/verify_semver_compatibility_level.py:41 | Removing `_` separators from a digit body leaves digits. |
| CompatAudit.PyInt | tools/verify_semver_compatibility_level.py:41 | Python `int()` fails only with `ValueError`. |
| CompatAudit.IntToString | tools/verify_semver_compatibility_level.py:99-109 | `str()` of an integer is non-empty. |
| CompatAudit.PyIntOfDigits | tools/verify_semver_compatibility_level.py:41 | `int()` of plain digits is their value. |
| CompatAudit.PyIntOfIntToString | tools/verify_semver_compatibility_level.py:41 | `int(str(n)) == n` for every integer. |
| CompatAudit.MajorAfterNoBreakSpace | tools/verify_semver_compatibility_level.py:37-41 | A no-break space before the major number is whitespace to `int()`: the major of `"\u00a01.2.3"` is 1. |
| CompatAudit.PyIntOfSigned | tools/verify_semver_compatibility_level.py:41 | `int("-" + digits)` is the negated value. |
| CompatAudit.PyIntRejectsPrefix | tools/verify_semver_compatibility_level.py:41 | A leading `v` makes `int()` raise. |
| CompatAudit.ExtractMajorVersion | tools/verify_semver_compatibility_level.py:37-41 | Failure is `ValueError`. |
| CompatAudit.MajorOfDotted | tools/verify_semver_compatibility_level.py:37-41 | The major version is the value of the digits before the first dot. |
| CompatAudit.MajorAgreesWithSemVer | tools/verify_semver_compatibility_level.py:37-41 | On semantic versions it agrees with the parsed major number. |
| CompatAudit.MajorOfFormat | tools/verify_semver_compatibility_level.py:37-41 | The major version of a formatted semantic version is its major number. |
| CompatAudit.ParseCompatibilityLevel | tools/verify_semver_compatibility_level.py:44-53 | A level exists exactly when the pattern matches. |
| CompatAudit.LevelAgreesWithModuleParser | tools/verify_semver_compatibility_level.py:44-53 | It agrees with the registry manager's MODULE.bazel parser. |
| CompatAudit.ModuleBazelPath | tools/verify_semver_compatibility_level.py:83 | The checked file lies inside the module directory. |
| CompatAudit.Classify | tools/verify_semver_compatibility_level.py:86-111 | Warning exactly without a level, error exactly for a level other than the major version, OK exactly when they agree. |
| CompatAudit.CheckVersion | tools/verify_semver_compatibility_level.py:81-111 | A non-string version fails the assertion; a non-numeric major raises `ValueError`; a result names its MODULE.bazel. |
| CompatAudit.VersionsToCheck | tools/verify_semver_compatibility_level.py:77-80 | Missing `versions` means no versions to check. |
| CompatAudit.VersionResults | tools/verify_semver_compatibility_level.py:81-111 | One result per version. |
| CompatAudit.Analyze | tools/verify_semver_compatibility_level.py:68-112 | The loop over module directories computes `AnalyzeSpec`. |
| CompatAudit.CheckModule | tools/verify_semver_compatibility_level.py:75-111 | The inner loop computes one module's results. |
| CompatAudit.AnalyzeFailureSticks | tools/verify_semver_compatibility_level.py:68-112 | An exception ends the analysis. |
| CompatAudit.VersionFailureSticks | tools/verify_semver_compatibility_level.py:81-111 | An exception in one version ends the module's analysis. |
| CompatAudit.OneResultPerVersion | tools/verify_semver_compatibility_level.py:81-111 | The k-th result is the check of the k-th version and names its file. |
| CompatAudit.CheckVersionClassifies | tools/verify_semver_compatibility_level.py:82-111 | A version's result classifies its major version against its file's level. |
| CompatAudit.NonNumericMajorRaises | tools/verify_semver_compatibility_level.py:39-41 | A version starting with `v` raises `ValueError`. |
| CompatAudit.HasErrorIff | tools/verify_semver_compatibility_level.py:143-151 | The error test finds an error exactly when some result is one. |
| CompatAudit.ExitStatus | tools/verify_semver_compatibility_level.py:143-151 | The exit status is 0 or 1. |
| CompatAudit.ExitStatusIff | tools/verify_semver_compatibility_level.py:143-151 | Exit 1 exactly on an exception or an error result. |
| CompatAudit.WarningsAlonePass | tools/verify_semver_compatibility_level.py:143-151 | Warnings alone exit 0. |
| CompatAudit.WrongLevelIsError | tools/test_verify_semver_compatibility_level.py:63-75 | Version 1.2.3 declaring level 2 is an error and exits 1. |
| CompatAudit.MissingLevelWarns | tools/test_verify_semver_compatibility_level.py:48-60 | Version 1.2.3 declaring no level warns and exits 0. |
| LegacyGenerate.NewMetadata | scripts/generate_module_files.py:46-58 | A new metadata file has exactly the five registry fields. |
| LegacyGenerate.Member | scripts/generate_module_files.py:62 | Python `in` on a list tests element membership; it fails exactly on values without `in`. |
| LegacyGenerate.ChangeMetadataTouchesOnlyMetadata | scripts/generate_module_files.py:41-65 | Only `metadata.json` may change. |
| LegacyGenerate.NewModuleMetadata | scripts/generate_module_files.py:46-58 | A new module gets metadata listing just the version. |
| LegacyGenerate.AppendsMissingVersion | scripts/generate_module_files.py:59-65 | A missing version is appended at the end. |
| LegacyGenerate.ChangeMetadataIdempotent | scripts/generate_module_files.py:62 | Running twice changes nothing the second time. |
| LegacyGenerate.EmptyVersionInString | scripts/generate_module_files.py:62 | A string `versions` field "contains" the empty version. |
| LegacyGenerate.LegacySourceFields | scripts/generate_module_files.py:33-36 | The legacy source has exactly `integrity`, `strip_prefix` and `url`. |
| LegacyGenerate.LegacySourceMatchesPipeline | scripts/generate_module_files.py:33-36 | Its fields are the manager's `source.json` fields without patches. |
| LegacyGenerate.Base64EncodeEdges | scripts/generate_module_files.py:33 | A Base64 text has no whitespace at its ends. |
| LegacyGenerate.LegacyIntegrityMatchesPipeline | scripts/generate_module_files.py:26-33 | Given a correct shell pipeline, the legacy integrity equals the manager's. |
| LegacyGenerate.GeneratedFiles | scripts/generate_module_files.py:68-81 | A run writes MODULE.bazel, the source and the metadata. |
| LegacyGenerate.PathsDiffer | scripts/generate_module_files.py:75-81 | The three generated paths are distinct. |
| LegacyGenerate.LegacyWorkspace.constructor | scripts/generate_module_files.py:68-81 | A workspace starts with the given files and pipeline. |
| LegacyGenerate.LegacyWorkspace.ChangeMetadata | scripts/generate_module_files.py:41-65 | Writes what `ChangeMetadataSpec` says. |
| LegacyGenerate.LegacyWorkspace.GenerateSourceJson | scripts/generate_module_files.py:22-38 | Writes the legacy source fields. |
| LegacyGenerate.LegacyWorkspace.GenerateNeededFiles | scripts/generate_module_files.py:68-81 | Writes what `GenerateSpec` says. |
| LegacyCheck.ActualVersions | scripts/check_and_update_modules.py:23-40 | Exactly the modules with metadata are recorded, each with its last version. |
| LegacyCheck.RecordedIsLast | scripts/check_and_update_modules.py:32-36 | The recorded version is the last listed one, or `None`. |
| LegacyCheck.GeneratedVersionIsRecorded | scripts/check_and_update_modules.py:23-40 | After a generation, the version is recorded. |
| LegacyCheck.ListedVersionNotRecordedAgain | scripts/generate_module_files.py:62 | An already-listed but not-last version is not re-recorded. |
| LegacyCheck.PathParts | scripts/check_and_update_modules.py:44 | The split path is never empty. |
| LegacyCheck.LatestReleaseInfo | scripts/check_and_update_modules.py:42-60 | Release info only for a two-segment path, with its repository name. |
| LegacyCheck.PathMustHaveTwoSegments | scripts/check_and_update_modules.py:44-47 | Only `owner/repo` URLs give release info. |
| LegacyCheck.EnrichOne | scripts/check_and_update_modules.py:64-86 | An entry exactly when a release exists whose `lstrip("v")` differs from the recorded version; the entry's fields. |
| LegacyCheck.EnrichSpec | scripts/check_and_update_modules.py:62-88 | At most one entry per module. |
| LegacyCheck.EnrichModules | scripts/check_and_update_modules.py:62-88 | The loop computes `EnrichSpec`. |
| LegacyCheck.EnrichModule | scripts/check_and_update_modules.py:64-86 | One iteration computes `EnrichOne`. |
| LegacyCheck.EnrichAppend | scripts/check_and_update_modules.py:62-88 | Enrichment of a concatenation is the concatenation. |
| LegacyCheck.UpToDateNotListed | scripts/check_and_update_modules.py:76 | Up-to-date modules give no entries. |
| LegacyCheck.PrefixedTagMatchesRecorded | scripts/check_and_update_modules.py:73 | A `v`-prefixed tag matches its recorded version. |
| LegacyCheck.UnrecordedIsListed | scripts/check_and_update_modules.py:74-76 | A module without a recorded version is listed. |
| LegacyCheck.FetchUrl | scripts/check_and_update_modules.py:91 | The raw-content URL rewrites only the inserted `/blob/` segment. |
| LegacyCheck.RawHostReplaces | scripts/check_and_update_modules.py:91 | The host rewrite replaces only the host when the path does not repeat it. |
| LegacyCheck.FetchUrlIsRawContent | scripts/check_and_update_modules.py:83-91 | For every listed entry the corrected URL is the raw MODULE.bazel of the release tag; for a GitHub URL whose path does not repeat the host, the raw host followed by that path unchanged. |
| LegacyCheck.FetchUrlOfBuilt | scripts/check_and_update_modules.py:83-91 | The corrected URL of any entry built from a module URL and a tag is the raw MODULE.bazel URL of both. |
| LegacyCheck.ToolchainsGccPathKept | scripts/check_and_update_modules.py:125 | The path of `eclipse-score/toolchains_gcc` does not repeat the host, so the corrected URL keeps it. |
| LegacyCheck.BlobInRepositoryBreaksRewrite | scripts/check_and_update_modules.py:91 | As written, a repository path containing `blob` gives a wrong URL. |
| LegacyCheck.AsWrittenOnBlobRepository | scripts/check_and_update_modules.py:91 | As written, the `blob` in the repository name is rewritten too. |
| LegacyCheck.ProcessModule | scripts/check_and_update_modules.py:90-105 | Fetches the URL as line 91 builds it (every `blob` rewritten); a failed fetch changes nothing; otherwise the files are generated from the fetched text. |

## Left out

- I/O formatting: JSON indentation, trailing newlines and file modes are not modelled. A JSON file is a decoded value and a text file its string.
- Metadata.TryParseMetadataJson: a metadata.json that is not valid UTF-8 makes `json.load` raise `UnicodeDecodeError`. The handler catches only `JSONDecodeError` and `OSError`, so the manager then crashes. File values here are already decoded, so the model cannot express that case.
- JSON numbers are integers (`Json.JNum` holds an `int`); floating-point numbers are not modelled. No modelled path looks at a number beyond its truthiness and its inequality to strings.
- Logging: the logging, the warnings of the GitHub wrapper and `gh_logging` are left out, and so is GitHub Actions detection.
- Command line: argument parsing, token lookup and the `main` orchestration are not modelled.
- The acceptability policy is not modelled. Its tests refer to code that is not part of this model.
- `tools/verify_modules.py` is not part of this model.
- SHA-256, `difflib`, the GitHub API, `urlparse` and downloads are parameters. Their internals are not modelled.
- LegacyCheck.ProcessModule: `requests.get` can raise (connection error, timeout), which ends the script. The `fetch` parameter answers only with a text or `None`, so that exit is not modelled.
- `print_results` of the audit tool prints only, so it is left out.
- Pattern classes: `\s` and `\d` in the regular expressions are ASCII only. Python's Unicode classes are wider. `str.strip()` and `int()` do use Python's full `str.isspace()` set (`Text.IsPyWhitespace`).
- CompatAudit.PyInt: `int()` also accepts non-ASCII decimal digits (Arabic-Indic, full-width and other `Nd` digits). The model accepts only `0`-`9`, so such text is a `ValueError` here.
- GitHub.CollectReleases: a `GithubException` raised partway through iterating releases is modelled as an error of the whole call.
- GitHub.GithubWrapper.TryGetModuleFileContent: a UTF-8 decoding failure of the file is the API answering "file without text".
- GitHub.ReleaseInfo: `published_at` is an integer timestamp.
- Metadata.SortDescending: full descending order is claimed only for lists whose versions are all semantic or all non-semantic. There `<` is a strict weak order, and every stable descending sort, CPython's `sorted(reverse=True)` included, gives the same list. On mixed lists `<` is cyclic (`Versions.MixedLessCycle`). The result there is CPython's timsort order (reverse the list, detect runs, binary insertion, reverse again), which the model does not reproduce. For `["1.0.9", "1.0.10", "1.0.1x"]` CPython's order starts with `1.0.1x`, while the model gives 1.0.9, 1.0.1x, 1.0.10 (`Metadata.MixedSortExample`), so the latest version differs. Only adjacent order is claimed there.
- SemVer.Parse: the `semver` library matches its pattern with `$`, which also accepts one trailing newline, so `"1.0.0\n"` parses there. `SemVer.Parse` rejects it, and `Versions.FromString` treats such text as non-semantic.
- The `mod_file` test that starts `_write_files` is not modelled. An update always carries a parsed MODULE.bazel, and a dataclass instance is always true, so the test cannot fail.
- Versions.LessTransitive: stated only for homogeneous triples, for the same reason.

## Findings

| source | as written | input that shows it | evidently intended | confidence | as-written member | corrected member |
|---|---|---|---|---|---|---|
| scripts/check_and_update_modules.py:91 (same rewrite at scripts/generate_module_files.py:97-99) | `.replace("blob", "refs/tags")` replaces every `blob` in the URL (`LegacyCheck.ProcessModule` fetches that URL) | repository `https://github.com/o/blob`, tag `v1` | replace only the `/blob/` segment inserted at line 83 | not executed | LegacyCheck.BlobInRepositoryBreaksRewrite | LegacyCheck.FetchUrlIsRawContent |
