/**
 * `ModuleUpdateRunner` (`bazel_wrapper.py`): writes the registry entries for
 * one new release of a module. The registry is a map from path to file;
 * metadata.json and source.json are held decoded, every other file as text.
 *
 * The SHA-256 digest, the download of the release tarball and
 * `difflib.unified_diff` are parameters of the runner (`Tools`).
 */
module UpdateRunner {
  import opened Wrappers
  import opened Text
  import opened Json
  import opened Errors
  import opened Versions
  import opened GitHub
  import opened RegistryModel
  import opened ModuleFile
  import opened ModuleFileStamp
  import opened Metadata
  import opened Hashing

  /** A file of the registry. */
  datatype FileData =
    | JsonFile(doc: Json)     // a JSON document, as `json.load` reads it back
    | TextFile(text: string)  // any other file

  /** The collaborators the runner calls but the model does not define. */
  datatype Tools = Tools(
    digest: seq<Byte> -> seq<Byte>,                  // `hashlib.sha256().digest()` of the bytes fed
    fetch: string -> Result<seq<Byte>, Error>,       // `urllib.request.urlopen(url).read()`
    diff: (string, string) -> string)                // `"".join(difflib.unified_diff(old, new, ...))`

  const PatchName: string := "module_dot_bazel_version.patch"

  /** The text strings of a list of versions, in order: `[str(v) for v in versions]`. */
  function Raws(vs: seq<Version>): (r: seq<string>)
    ensures |r| == |vs| && forall i :: 0 <= i < |vs| ==> r[i] == Str(vs[i])
  {
    if |vs| == 0 then [] else [Str(vs[0])] + Raws(vs[1..])
  }

  /** Whether a version with the same text as `v` is listed (`v in versions`). */
  predicate Listed(v: Version, vs: seq<Version>) {
    exists i :: 0 <= i < |vs| && Eq(vs[i], v)
  }

  // ---------------------------------------------------------------------------
  // metadata.json
  // ---------------------------------------------------------------------------

  /**
   * `_add_version_to_metadata` on the registry `files`: reads the document at
   * `path`, parses and sorts its versions, and writes it back with the
   * release put in front. Opening a missing file, decoding a file that is not
   * JSON and calling `.get` on a document that is not an object fail.
   */
  function MetadataUpdate(path: string, release: Version, files: map<string, FileData>)
    : (r: Result<map<string, FileData>, Error>)
    ensures r.Success? ==> r.value.Keys == files.Keys + {path}
    ensures r.Success? ==> forall p :: p in files && p != path ==> r.value[p] == files[p]
    ensures path !in files ==> r == Failure(FileMissing)
  {
    if path !in files then Failure(FileMissing)
    else if !files[path].JsonFile? then Failure(JsonDecodeError)
    else
      var doc := files[path].doc;
      if !doc.JObj? then Failure(AttributeError)
      else
        match ParseVersions(Get(doc.fields, "versions", JArr([])))
        case Failure(e) => Failure(e)
        case Success(versions) =>
          if Listed(release, versions) then Failure(RuntimeError)
          else Success(files[path := JsonFile(JObj(doc.fields["versions" := StrArray([Str(release)] + Raws(versions))]))])
  }

  /** The versions a metadata document lists, as `_parse_versions` reads them. */
  function ListedVersions(f: FileData): Result<seq<Version>, Error> {
    if f.JsonFile? && f.doc.JObj? then ParseVersions(Get(f.doc.fields, "versions", JArr([])))
    else Failure(TypeError)
  }

  /** The release is refused exactly when its text is already listed. */
  lemma MetadataUpdateRefusesListed(path: string, release: Version, files: map<string, FileData>)
    requires path in files && ListedVersions(files[path]).Success?
    ensures MetadataUpdate(path, release, files) == Failure(RuntimeError)
      <==> Listed(release, ListedVersions(files[path]).value)
  {
  }

  /** Otherwise the new list is the release followed by the previous list, latest first, not re-sorted. */
  lemma MetadataUpdatePrepends(path: string, release: Version, files: map<string, FileData>)
    requires path in files && ListedVersions(files[path]).Success?
    requires !Listed(release, ListedVersions(files[path]).value)
    ensures MetadataUpdate(path, release, files).Success?
    ensures var doc := MetadataUpdate(path, release, files).value[path].doc;
      doc.JObj? && "versions" in doc.fields &&
      doc.fields["versions"] == StrArray([Str(release)] + Raws(ListedVersions(files[path]).value))
  {
  }

  /** Reading a list of texts written from versions gives the versions back. */
  lemma VersionsOfRaws(vs: seq<Version>)
    requires forall v :: v in vs ==> Valid(v)
    ensures VersionsOf(StrArray(Raws(vs)).items) == Success(vs)
  {
    var raws := Raws(vs);
    var items := StrArray(raws).items;
    assert forall i :: 0 <= i < |items| ==> items[i].JStr?;
    var r := VersionsOf(items);
    forall i | 0 <= i < |vs|
      ensures r.value[i] == vs[i]
    {
      assert items[i].s == Str(vs[i]);
      FromStringOfStr(vs[i]);
    }
    assert r.value == vs;
  }

  /** Reading the rewritten metadata.json gives the previous versions and the release, nothing else. */
  lemma MetadataUpdateReadsBack(path: string, release: Version, files: map<string, FileData>)
    requires path in files && ListedVersions(files[path]).Success? && Valid(release)
    requires MetadataUpdate(path, release, files).Success?
    ensures var after := ListedVersions(MetadataUpdate(path, release, files).value[path]);
      after.Success? && multiset(after.value) == multiset(ListedVersions(files[path]).value) + multiset{release}
  {
    var vs := ListedVersions(files[path]).value;
    MetadataUpdatePrepends(path, release, files);
    var raw := StrArray([Str(release)] + Raws(vs));
    assert Raws([release] + vs) == [Str(release)] + Raws(vs);
    VersionsOfRaws([release] + vs);
    assert ListedVersions(MetadataUpdate(path, release, files).value[path]) == ParseVersions(raw);
  }

  /** Two plain versions sort latest first. */
  lemma SortTwo(a: Version, b: Version)
    requires a.sem == Some(SemVer.SemVer(1, 0, 9, [], []))
    requires b.sem == Some(SemVer.SemVer(1, 0, 10, [], []))
    ensures SortDescending([a, b]) == [b, a]
  {
    assert [a, b][1..] == [b];
    assert SortDescending([b]) == Insert(b, []) == [b];
    assert Insert(a, [b]) == [b] + Insert(a, []);
  }

  /** The entries of a list of two strings, read one by one. */
  lemma VersionsOfTwo(x: string, y: string)
    ensures VersionsOf(StrArray([x, y]).items) == Success([FromString(x), FromString(y)])
  {
    var items := StrArray([x, y]).items;
    assert items == [JStr(x), JStr(y)];
    var r := VersionsOf(items);
    assert r.Success? && |r.value| == 2;
    assert r.value == [FromString(x), FromString(y)];
  }

  /** `["1.0.9", "1.0.10"]` reads as 1.0.10, 1.0.9. */
  lemma ListedExample(f: FileData, x: string, y: string)
    requires x == "1.0.9" && y == "1.0.10"
    requires f == JsonFile(JObj(map["versions" := StrArray([x, y])]))
    ensures ListedVersions(f) == Success([FromString(y), FromString(x)])
  {
    var a, b := FromString(x), FromString(y);
    var raw := StrArray([x, y]);
    assert Get(f.doc.fields, "versions", JArr([])) == raw;
    Digits();
    Plain(x, 1, 0, 9);
    Text1010(y);
    VersionsOfTwo(x, y);
    ParseVersionsOfList(raw);
    SortTwo(a, b);
  }

  /** The texts of that list, in the order read. */
  lemma ListedTexts(f: FileData)
    requires f == JsonFile(JObj(map["versions" := StrArray(["1.0.9", "1.0.10"])]))
    ensures ListedVersions(f).Success? && |ListedVersions(f).value| == 2
    ensures Str(ListedVersions(f).value[0]) == "1.0.10" && Str(ListedVersions(f).value[1]) == "1.0.9"
  {
    ListedExample(f, "1.0.9", "1.0.10");
  }

  /** Putting a release in front of a list of two versions. */
  lemma PrependTwo(path: string, files: map<string, FileData>, release: Version, a: string, b: string)
    requires path in files && ListedVersions(files[path]).Success?
    requires var vs := ListedVersions(files[path]).value; |vs| == 2 && Str(vs[0]) == a && Str(vs[1]) == b
    requires Str(release) != a && Str(release) != b
    ensures MetadataUpdate(path, release, files).Success?
    ensures var doc := MetadataUpdate(path, release, files).value[path].doc;
      doc.JObj? && "versions" in doc.fields && doc.fields["versions"] == StrArray([Str(release), a, b])
  {
    var vs := ListedVersions(files[path]).value;
    assert !Eq(vs[0], release) && !Eq(vs[1], release);
    assert !Listed(release, vs);
    MetadataUpdatePrepends(path, release, files);
    assert Raws(vs) == [a, b];
  }

  /**
   * metadata.json listing `["1.0.9", "1.0.10"]`, updated for release 1.0.11,
   * lists `["1.0.11", "1.0.10", "1.0.9"]`: the old list is sorted by
   * precedence, not by text, before the release is put in front.
   */
  lemma PrependExample(path: string, files: map<string, FileData>, release: Version)
    requires path in files && files[path] == JsonFile(JObj(map["versions" := StrArray(["1.0.9", "1.0.10"])]))
    requires Str(release) == "1.0.11"
    ensures MetadataUpdate(path, release, files).Success?
    ensures var doc := MetadataUpdate(path, release, files).value[path].doc;
      doc.JObj? && "versions" in doc.fields && doc.fields["versions"] == StrArray(["1.0.11", "1.0.10", "1.0.9"])
  {
    ListedTexts(files[path]);
    PrependTwo(path, files, release, "1.0.10", "1.0.9");
  }

  // ---------------------------------------------------------------------------
  // MODULE.bazel
  // ---------------------------------------------------------------------------

  /**
   * `_create_patch_for_module_version_if_mismatch`, as a value: `None` when
   * no patch is needed, else the stamped text. Comparing an absent declared
   * version with the release reaches `Version.__eq__(None)`, whose
   * `isinstance` assertion fails.
   */
  function StampSpec(modFile: ModuleFileContent, release: Version): (r: Result<Option<string>, Error>)
    ensures r.Failure? <==> modFile.version.None?
    ensures r.Failure? ==> r.error == AssertionError
    ensures r == Success(None) <==>
      modFile.version.Some? && Eq(modFile.version.value, release) && MajorVersion(modFile) == modFile.compLevel
    ensures r.Success? && r.value.Some? ==> r.value.value == StampedContent(modFile.content, release)
  {
    if modFile.version.None? then Failure(AssertionError)
    else if Eq(modFile.version.value, release) && MajorVersion(modFile) == modFile.compLevel then Success(None)
    else Success(Some(StampedContent(modFile.content, release)))
  }

  // ---------------------------------------------------------------------------
  // source.json
  // ---------------------------------------------------------------------------

  /** The integrity string of each patch, by name. */
  ghost function PatchHashes(tools: Tools, patches: map<string, string>): (r: map<string, Json>)
    ensures r.Keys == patches.Keys
  {
    HashesOf(tools, patches, patches.Keys)
  }

  /** The integrity strings of the patches named in `names`. */
  ghost function HashesOf(tools: Tools, patches: map<string, string>, names: set<string>): (r: map<string, Json>)
    requires names <= patches.Keys
    ensures r.Keys == names
    ensures forall n :: n in names ==> r[n] == JStr(Integrity(tools.digest, Utf8Encode(patches[n])))
    decreases names
  {
    if names == {} then map[]
    else
      var n :| n in names;
      HashesOf(tools, patches, names - {n})[n := JStr(Integrity(tools.digest, Utf8Encode(patches[n])))]
  }

  /** Hashing one more patch adds its entry. */
  lemma HashesOfAdd(tools: Tools, patches: map<string, string>, names: set<string>, name: string)
    requires names <= patches.Keys && name in patches
    ensures HashesOf(tools, patches, names + {name})
      == HashesOf(tools, patches, names)[name := JStr(Integrity(tools.digest, Utf8Encode(patches[name])))]
  {
    var a := HashesOf(tools, patches, names + {name});
    var b := HashesOf(tools, patches, names)[name := JStr(Integrity(tools.digest, Utf8Encode(patches[name])))];
    MapExtensional(a, b);
  }

  /** The `patches` entry of `_generate_source_json`: the integrity string of each patch text. */
  method HashPatches(tools: Tools, patches: map<string, string>) returns (hashes: map<string, Json>)
    ensures hashes == PatchHashes(tools, patches)
  {
    hashes := map[];
    var todo := patches.Keys;
    ghost var done: set<string> := {};
    while todo != {}
      invariant done + todo == patches.Keys && done !! todo
      invariant hashes == HashesOf(tools, patches, done)
      decreases todo
    {
      var name :| name in todo;
      var h := Sha256FromString(tools.digest, patches[name]);
      HashesOfAdd(tools, patches, done, name);
      hashes := hashes[name := JStr(h)];
      done, todo := done + {name}, todo - {name};
    }
  }

  /** The document of `_generate_source_json`: the tarball's integrity, then the patch hashes when there are patches. */
  method BuildSourceJson(info: ModuleUpdateInfo, patches: map<string, string>, tools: Tools)
    returns (r: Result<Json, Error>)
    ensures r == SourceJsonSpec(info, patches, tools)
  {
    var integrity := Sha256FromUrl(tools.digest, tools.fetch, Tarball(info.release));
    if integrity.Failure? {
      return Failure(integrity.error);
    }
    var hashes: map<string, Json> := map[];
    if |patches| > 0 {
      hashes := HashPatches(tools, patches);
    } else {
      assert patches.Keys == {};
      assert hashes == PatchHashes(tools, patches);
    }
    r := Success(JObj(SourceFields(integrity.value, StripPrefix(info), Tarball(info.release), hashes)));
  }

  /** Each patch's hash decodes to the digest of the patch's UTF-8 bytes. */
  lemma PatchHashesDecode(tools: Tools, patches: map<string, string>, n: string)
    requires n in patches
    ensures var h := PatchHashes(tools, patches)[n];
      && h.JStr? && h.s[..|IntegrityPrefix|] == IntegrityPrefix
      && Base64Decode(h.s[|IntegrityPrefix|..]) == Some(tools.digest(Utf8Encode(patches[n])))
  {
  }

  /** `<repo>-<version>`, the directory the tarball unpacks to. */
  function StripPrefix(info: ModuleUpdateInfo): string {
    LastSegment(info.moduleInfo.orgAndRepo, '/') + "-" + Str(info.release.version)
  }

  /** The entries of source.json, given the tarball's integrity, strip prefix and URL, and the patch hashes. */
  function SourceFields(integrity: string, stripPrefix: string, url: string, hashes: map<string, Json>)
    : (r: map<string, Json>)
    ensures "integrity" in r && r["integrity"] == JStr(integrity)
    ensures "strip_prefix" in r && r["strip_prefix"] == JStr(stripPrefix)
    ensures "url" in r && r["url"] == JStr(url)
    ensures ("patches" in r <==> |hashes| > 0) && ("patch_strip" in r <==> |hashes| > 0)
    ensures |hashes| > 0 ==> r["patch_strip"] == JNum(1) && r["patches"] == JObj(hashes)
  {
    var base := map["integrity" := JStr(integrity), "strip_prefix" := JStr(stripPrefix), "url" := JStr(url)];
    if |hashes| > 0 then base["patch_strip" := JNum(1)]["patches" := JObj(hashes)] else base
  }

  /**
   * The document `_generate_source_json` writes: integrity, strip prefix and
   * URL of the tarball, and the patches only when there are any. A failed
   * download fails.
   */
  ghost function SourceJsonSpec(info: ModuleUpdateInfo, patches: map<string, string>, tools: Tools)
    : (r: Result<Json, Error>)
    ensures tools.fetch(Tarball(info.release)).Failure? <==> r.Failure?
    ensures r.Success? ==> r.value.JObj?
  {
    match tools.fetch(Tarball(info.release))
    case Failure(e) => Failure(e)
    case Success(body) => 
      Success(JObj(SourceFields(Integrity(tools.digest, body), StripPrefix(info), Tarball(info.release), PatchHashes(tools, patches))))
  }

  /** source.json names the tarball and where it unpacks. */
  lemma SourceJsonNamesTarball(info: ModuleUpdateInfo, patches: map<string, string>, tools: Tools)
    requires tools.fetch(Tarball(info.release)).Success?
    ensures var doc := SourceJsonSpec(info, patches, tools).value.fields;
      && "url" in doc && doc["url"] == JStr(Tarball(info.release))
      && "strip_prefix" in doc
      && doc["strip_prefix"] == JStr(LastSegment(info.moduleInfo.orgAndRepo, '/') + "-" + Str(info.release.version))
  {
  }

  /** The integrity string of source.json decodes to the digest of the downloaded tarball. */
  lemma SourceJsonIntegrity(info: ModuleUpdateInfo, patches: map<string, string>, tools: Tools)
    requires tools.fetch(Tarball(info.release)).Success?
    ensures var doc := SourceJsonSpec(info, patches, tools).value.fields;
      && "integrity" in doc && doc["integrity"].JStr?
      && doc["integrity"].s[..|IntegrityPrefix|] == IntegrityPrefix
      && Base64Decode(doc["integrity"].s[|IntegrityPrefix|..]) == Some(tools.digest(tools.fetch(Tarball(info.release)).value))
  {
    var body := tools.fetch(Tarball(info.release)).value;
    var integrity := Integrity(tools.digest, body);
    assert SourceJsonSpec(info, patches, tools).value.fields["integrity"] == JStr(integrity);
  }

  /** source.json has `patch_strip` and `patches` exactly when there are patches, one hash per patch. */
  lemma SourceJsonListsPatches(info: ModuleUpdateInfo, patches: map<string, string>, tools: Tools)
    requires tools.fetch(Tarball(info.release)).Success?
    ensures var doc := SourceJsonSpec(info, patches, tools).value.fields;
      && ("patches" in doc <==> |patches| > 0)
      && ("patch_strip" in doc <==> |patches| > 0)
      && (|patches| > 0 ==> doc["patch_strip"] == JNum(1) && doc["patches"] == JObj(PatchHashes(tools, patches)))
  {
  }

  // ---------------------------------------------------------------------------
  // The runner
  // ---------------------------------------------------------------------------

  /** `modules/<name>`. */
  function ModulePath(info: ModuleUpdateInfo): string {
    "modules/" + info.moduleInfo.name
  }

  /** `modules/<name>/<version>`. */
  function ModuleVersionPath(info: ModuleUpdateInfo): string {
    ModulePath(info) + "/" + Str(info.release.version)
  }

  /** The MODULE.bazel text `_write_files` writes: a non-empty patched text, else the original. */
  function ModuleText(modFile: ModuleFileContent, patched: Option<string>): (t: string)
    ensures patched.None? ==> t == modFile.content
  {
    if patched.Some? && |patched.value| > 0 then patched.value else modFile.content
  }

  /** `<dir>/MODULE.bazel`. */
  function ModuleFilePath(dir: string): (p: string)
    ensures |p| > |dir| + 1 && p[|dir| + 1] == 'M'
  {
    dir + "/MODULE.bazel"
  }

  /** `<dir>/source.json`. */
  function SourceJsonPath(dir: string): (p: string)
    ensures |p| > |dir| + 1 && p[|dir| + 1] == 's'
  {
    dir + "/source.json"
  }

  /** `<dir>/patches/<name>`; the name can be read back from the path. */
  function PatchPath(dir: string, name: string): (p: string)
    ensures |p| > |dir| + 1 && p[|dir| + 1] == 'p'
    ensures PatchNameOf(dir, p) == name
  {
    var p := dir + "/patches/" + name;
    assert p[|dir| + 9..] == name;
    p
  }

  /** The patch name of a path under `<dir>/patches/`. */
  function PatchNameOf(dir: string, p: string): string {
    if |p| >= |dir| + 9 then p[|dir| + 9..] else ""
  }

  /**
   * The files of the patches named in `names`, under `dir`: each named patch
   * has its file, and every file is the path of one of the named patches.
   */
  ghost function PatchFiles(dir: string, patches: map<string, string>, names: set<string>): (r: map<string, FileData>)
    requires names <= patches.Keys
    ensures forall n :: n in names ==> PatchPath(dir, n) in r && r[PatchPath(dir, n)] == TextFile(patches[n])
    ensures forall p :: p in r ==> PatchNameOf(dir, p) in names && p == PatchPath(dir, PatchNameOf(dir, p))
    decreases names
  {
    if names == {} then map[]
    else
      var n :| n in names;
      PatchFiles(dir, patches, names - {n})[PatchPath(dir, n) := TextFile(patches[n])]
  }

  /** Writing one more patch adds its file. */
  lemma PatchFilesAdd(dir: string, patches: map<string, string>, names: set<string>, name: string)
    requires names <= patches.Keys && name in patches
    ensures PatchFiles(dir, patches, names + {name}) == PatchFiles(dir, patches, names)[PatchPath(dir, name) := TextFile(patches[name])]
  {
    var a := PatchFiles(dir, patches, names + {name});
    var b := PatchFiles(dir, patches, names)[PatchPath(dir, name) := TextFile(patches[name])];
    MapExtensional(a, b);
  }

  /** Two maps with the same keys and the same value at each key are equal. */
  lemma MapExtensional<K, V>(a: map<K, V>, b: map<K, V>)
    requires forall k :: k in a ==> k in b && a[k] == b[k]
    requires forall k :: k in b ==> k in a
    ensures a == b
  {
  }

  /** Updating a union at one key is the union with the updated right-hand map. */
  lemma UnionUpdate<K, V>(a: map<K, V>, b: map<K, V>, k: K, v: V)
    ensures (a + b)[k := v] == a + b[k := v]
  {
  }

  /** A union with the empty map changes nothing. */
  lemma UnionEmpty<K, V>(a: map<K, V>)
    ensures a + map[] == a
  {
  }

  /** Writing one more patch over the files written so far gives the files of one more patch. */
  lemma WritePatchStep(base: map<string, FileData>, dir: string, patches: map<string, string>, done: set<string>, name: string)
    requires done <= patches.Keys && name in patches
    ensures (base + PatchFiles(dir, patches, done))[PatchPath(dir, name) := TextFile(patches[name])]
      == base + PatchFiles(dir, patches, done + {name})
  {
    PatchFilesAdd(dir, patches, done, name);
    UnionUpdate(base, PatchFiles(dir, patches, done), PatchPath(dir, name), TextFile(patches[name]));
  }

  /** The loop of `_write_files` that writes each patch under `<dir>/patches/`. */
  method WritePatches(base: map<string, FileData>, dir: string, patches: map<string, string>)
    returns (written: map<string, FileData>)
    ensures written == base + PatchFiles(dir, patches, patches.Keys)
  {
    written := base;
    var todo := patches.Keys;
    ghost var done: set<string> := {};
    UnionEmpty(base);
    while todo != {}
      invariant done + todo == patches.Keys && done !! todo
      invariant written == base + PatchFiles(dir, patches, done)
      decreases todo
    {
      var name :| name in todo;
      WritePatchStep(base, dir, patches, done, name);
      written := written[PatchPath(dir, name) := TextFile(patches[name])];
      done, todo := done + {name}, todo - {name};
    }
  }

  /** `p` is the file of one of the patches under `dir`. */
  predicate IsPatchFile(dir: string, patches: map<string, string>, p: string) {
    exists n :: n in patches && p == PatchPath(dir, n)
  }

  /** The registry after `_write_files`: MODULE.bazel and every patch under the version directory. */
  ghost function WrittenFiles(files: map<string, FileData>, dir: string, text: string, patches: map<string, string>)
    : map<string, FileData>
  {
    files[ModuleFilePath(dir) := TextFile(text)] + PatchFiles(dir, patches, patches.Keys)
  }

  /**
   * `_write_files` writes MODULE.bazel and each patch, leaves every other
   * file alone and creates no other file.
   */
  lemma WrittenFilesContents(files: map<string, FileData>, dir: string, text: string, patches: map<string, string>)
    ensures var r := WrittenFiles(files, dir, text, patches);
      && ModuleFilePath(dir) in r && r[ModuleFilePath(dir)] == TextFile(text)
      && (forall n :: n in patches ==> PatchPath(dir, n) in r && r[PatchPath(dir, n)] == TextFile(patches[n]))
      && (forall p :: p in files && p != ModuleFilePath(dir) && !IsPatchFile(dir, patches, p) ==>
            p in r && r[p] == files[p])
      && (forall p :: p in r ==> p in files || p == ModuleFilePath(dir) || IsPatchFile(dir, patches, p))
  {
    var before := files[ModuleFilePath(dir) := TextFile(text)];
    var written := PatchFiles(dir, patches, patches.Keys);
    var r := before + written;
    forall p | p in written
      ensures IsPatchFile(dir, patches, p)
    {
      assert p == PatchPath(dir, PatchNameOf(dir, p));
    }
    assert ModuleFilePath(dir) !in written;
    forall p | p in files && p != ModuleFilePath(dir) && !IsPatchFile(dir, patches, p)
      ensures p in r && r[p] == files[p]
    {
      assert p !in written && p in before;
    }
  }

  /** The patches a run stores: one, named `module_dot_bazel_version.patch`, when there is a stamped text. */
  function PatchesFor(info: ModuleUpdateInfo, tools: Tools, patched: Option<string>): (r: map<string, string>)
    ensures patched.None? <==> r == map[]
    ensures patched.Some? ==> r.Keys == {PatchName} && r[PatchName] == tools.diff(info.modFile.content, patched.value)
  {
    if patched.Some? then
      var r := map[PatchName := tools.diff(info.modFile.content, patched.value)];
      assert PatchName in r;
      r
    else map[]
  }

  /** The state a run leaves: its outcome, the registry and the runner's patches. */
  datatype RunState = RunState(outcome: Result<(), Error>, files: map<string, FileData>, patches: map<string, string>)

  /** The registry once source.json, MODULE.bazel and the patches are written; nothing else changes. */
  ghost function Finish(info: ModuleUpdateInfo, files: map<string, FileData>, patched: Option<string>,
                  patches: map<string, string>, source: Json): (r: map<string, FileData>)
    ensures var dir := ModuleVersionPath(info);
      && ModuleFilePath(dir) in r && r[ModuleFilePath(dir)] == TextFile(ModuleText(info.modFile, patched))
      && SourceJsonPath(dir) in r && r[SourceJsonPath(dir)] == JsonFile(source)
      && (forall n :: n in patches ==> PatchPath(dir, n) in r && r[PatchPath(dir, n)] == TextFile(patches[n]))
      && (forall p :: p in files && p != ModuleFilePath(dir) && p != SourceJsonPath(dir) && !IsPatchFile(dir, patches, p) ==>
            p in r && r[p] == files[p])
      && (forall p :: p in r ==> p in files || p == ModuleFilePath(dir) || p == SourceJsonPath(dir) || IsPatchFile(dir, patches, p))
  {
    var dir := ModuleVersionPath(info);
    var before := files[SourceJsonPath(dir) := JsonFile(source)];
    WrittenFilesContents(before, dir, ModuleText(info.modFile, patched), patches);
    assert SourceJsonPath(dir) != ModuleFilePath(dir);
    WrittenFiles(before, dir, ModuleText(info.modFile, patched), patches)
  }

  /** A path directly under a module directory is none of the paths inside one of its version directories. */
  lemma NotInVersionDir(m: string, v: string, q: string)
    ensures m + "/metadata.json" != m + "/" + v + "/" + q
  {
    var a, b := m + "/metadata.json", m + "/" + v + "/" + q;
    if |a| == |b| {
      assert b[|m| + 1 + |v|] == '/';
      assert a[|m| + 1 + |v|] == "metadata.json"[|v|];
    }
  }

  /** The module's metadata.json is none of the files written into the release's directory. */
  lemma MetadataOutsideVersionDir(info: ModuleUpdateInfo)
    ensures var mp, dir := ModulePath(info) + "/metadata.json", ModuleVersionPath(info);
      && mp != ModuleFilePath(dir) && mp != SourceJsonPath(dir)
      && forall n :: PatchPath(dir, n) != mp
  {
    var m, v := ModulePath(info), Str(info.release.version);
    NotInVersionDir(m, v, "MODULE.bazel");
    NotInVersionDir(m, v, "source.json");
    forall n ensures PatchPath(ModuleVersionPath(info), n) != m + "/metadata.json" {
      NotInVersionDir(m, v, "patches/" + n);
      assert PatchPath(ModuleVersionPath(info), n) == m + "/" + v + "/" + ("patches/" + n);
    }
  }

  /**
   * `generate_files` on a fresh runner: metadata, then the patch, then
   * source.json, then MODULE.bazel and the patches. The first failure ends
   * the run and leaves what was already written. A successful run leaves
   * metadata.json with the release put in front of the listed versions,
   * writes the release's files and changes nothing else.
   */
  ghost function GenerateSpec(info: ModuleUpdateInfo, files: map<string, FileData>, tools: Tools): (r: RunState)
    ensures var meta := MetadataUpdate(ModulePath(info) + "/metadata.json", info.release.version, files);
      meta.Failure? ==> r == RunState(Failure(meta.error), files, map[])
    ensures r.outcome.Success? ==>
      var patched := StampSpec(info.modFile, info.release.version);
      var dir := ModuleVersionPath(info);
      && patched.Success?
      && r.patches == PatchesFor(info, tools, patched.value)
      && SourceJsonSpec(info, r.patches, tools).Success?
      && ModuleFilePath(dir) in r.files && r.files[ModuleFilePath(dir)] == TextFile(ModuleText(info.modFile, patched.value))
      && SourceJsonPath(dir) in r.files && r.files[SourceJsonPath(dir)] == JsonFile(SourceJsonSpec(info, r.patches, tools).value)
      && forall n :: n in r.patches ==> PatchPath(dir, n) in r.files && r.files[PatchPath(dir, n)] == TextFile(r.patches[n])
    ensures r.outcome.Success? ==>
      var mp, dir := ModulePath(info) + "/metadata.json", ModuleVersionPath(info);
      && mp in files && files[mp].JsonFile? && files[mp].doc.JObj? && ListedVersions(files[mp]).Success?
      && !Listed(info.release.version, ListedVersions(files[mp]).value)
      && mp in r.files
      && r.files[mp] == JsonFile(JObj(files[mp].doc.fields["versions" :=
           StrArray([Str(info.release.version)] + Raws(ListedVersions(files[mp]).value))]))
      && (forall p :: p in files && p != mp && p != ModuleFilePath(dir) && p != SourceJsonPath(dir) && !IsPatchFile(dir, r.patches, p)
            ==> p in r.files && r.files[p] == files[p])
      && (forall p :: p in r.files ==>
            p in files || p == mp || p == ModuleFilePath(dir) || p == SourceJsonPath(dir) || IsPatchFile(dir, r.patches, p))
  {
    match MetadataUpdate(ModulePath(info) + "/metadata.json", info.release.version, files)
    case Failure(e) => RunState(Failure(e), files, map[])
    case Success(files1) =>
      match StampSpec(info.modFile, info.release.version)
      case Failure(e) => RunState(Failure(e), files1, map[])
      case Success(patched) =>
        var patches := PatchesFor(info, tools, patched);
        match SourceJsonSpec(info, patches, tools)
        case Failure(e) => RunState(Failure(e), files1, patches)
        case Success(source) =>
          MetadataOutsideVersionDir(info);
          RunState(Success(()), Finish(info, files1, patched, patches, source), patches)
  }

  /** `v in versions`: a scan comparing texts with `Version.__eq__`. */
  method IsListed(vs: seq<Version>, v: Version) returns (found: bool)
    ensures found <==> Listed(v, vs)
  {
    found := false;
    var i := 0;
    while i < |vs| && !found
      invariant 0 <= i <= |vs|
      invariant found <==> exists k :: 0 <= k < i && Eq(vs[k], v)
    {
      found := Eq(vs[i], v);
      i := i + 1;
    }
  }

  class ModuleUpdateRunner {
    const info: ModuleUpdateInfo
    const tools: Tools
    const modulePath: string
    const moduleVersionPath: string
    var patches: map<string, string>
    var files: map<string, FileData>

    /** `__init__`: no patches yet; the paths of the module and of the release. */
    constructor(info: ModuleUpdateInfo, files: map<string, FileData>, tools: Tools)
      ensures this.info == info && this.tools == tools && this.files == files
      ensures patches == map[]
      ensures modulePath == ModulePath(info) && moduleVersionPath == ModuleVersionPath(info)
    {
      this.info := info;
      this.tools := tools;
      this.files := files;
      this.patches := map[];
      this.modulePath := ModulePath(info);
      this.moduleVersionPath := ModuleVersionPath(info);
    }

    /** `_add_version_to_metadata`. */
    method AddVersionToMetadata() returns (r: Result<(), Error>)
      modifies this
      ensures patches == old(patches)
      ensures var s := MetadataUpdate(modulePath + "/metadata.json", info.release.version, old(files));
        && (s.Success? ==> r == Success(()) && files == s.value)
        && (s.Failure? ==> r == Failure(s.error) && files == old(files))
    {
      var path := modulePath + "/metadata.json";
      if path !in files {
        r := Failure(FileMissing);
      } else if !files[path].JsonFile? {
        r := Failure(JsonDecodeError);
      } else if !files[path].doc.JObj? {
        r := Failure(AttributeError);
      } else {
        var fields := files[path].doc.fields;
        var versions := ParseVersions(Get(fields, "versions", JArr([])));
        if versions.Failure? {
          r := Failure(versions.error);
        } else {
          var present := IsListed(versions.value, info.release.version);
          if present {
            r := Failure(RuntimeError);
          } else {
            var raws := [Str(info.release.version)] + Raws(versions.value);
            files := files[path := JsonFile(JObj(fields["versions" := StrArray(raws)]))];
            r := Success(());
          }
        }
      }
    }

    /** `_create_patch_for_module_version_if_mismatch`: stamps the text and stores the patch when needed. */
    method CreatePatchForModuleVersionIfMismatch() returns (r: Result<Option<string>, Error>)
      modifies this
      ensures files == old(files)
      ensures r == StampSpec(info.modFile, info.release.version)
      ensures r.Success? && r.value.Some? ==>
        patches == old(patches)[PatchName := tools.diff(info.modFile.content, r.value.value)]
      ensures !(r.Success? && r.value.Some?) ==> patches == old(patches)
    {
      var modFile := info.modFile;
      var release := info.release.version;
      if modFile.version.None? {
        return Failure(AssertionError);
      }
      if Eq(modFile.version.value, release) && MajorVersion(modFile) == modFile.compLevel {
        return Success(None);
      }
      var stamped := StampVersion(modFile.content, Str(release));
      if release.sem.Some? {
        stamped := StampLevel(stamped, release.sem.value.major);
      }
      var patchText := tools.diff(modFile.content, stamped);
      patches := patches[PatchName := patchText];
      return Success(Some(stamped));
    }

    /** `_generate_source_json`. */
    method GenerateSourceJson() returns (r: Result<(), Error>)
      modifies this
      ensures patches == old(patches)
      ensures var s := SourceJsonSpec(info, patches, tools);
        && (s.Success? ==> r == Success(()) && files == old(files)[SourceJsonPath(moduleVersionPath) := JsonFile(s.value)])
        && (s.Failure? ==> r == Failure(s.error) && files == old(files))
    {
      var source := BuildSourceJson(info, patches, tools);
      if source.Failure? {
        r := Failure(source.error);
      } else {
        files := files[SourceJsonPath(moduleVersionPath) := JsonFile(source.value)];
        r := Success(());
      }
    }

    /** `_write_files`: MODULE.bazel (the patched text when there is a non-empty one), then each patch. */
    method WriteFiles(patched: Option<string>)
      modifies this
      ensures patches == old(patches)
      ensures files == WrittenFiles(old(files), moduleVersionPath, ModuleText(info.modFile, patched), patches)
    {
      var text := ModuleText(info.modFile, patched);
      files := WritePatches(files[ModuleFilePath(moduleVersionPath) := TextFile(text)], moduleVersionPath, patches);
    }

    /** `generate_files` on a fresh runner. */
    method GenerateFiles() returns (r: Result<(), Error>)
      requires patches == map[]
      requires modulePath == ModulePath(info) && moduleVersionPath == ModuleVersionPath(info)
      modifies this
      ensures var s := GenerateSpec(info, old(files), tools);
        r == s.outcome && files == s.files && patches == s.patches
    {
      ghost var files0 := files;
      r := AddVersionToMetadata();
      if r.Failure? {
        return;
      }
      ghost var files1 := files;
      var patched := CreatePatchForModuleVersionIfMismatch();
      if patched.Failure? {
        return Failure(patched.error);
      }
      assert patches == PatchesFor(info, tools, patched.value);
      r := GenerateSourceJson();
      if r.Failure? {
        return;
      }
      ghost var source := SourceJsonSpec(info, patches, tools).value;
      WriteFiles(patched.value);
      assert files == Finish(info, files1, patched.value, patches, source);
    }
  }

  // ---------------------------------------------------------------------------
  // Properties of a run
  // ---------------------------------------------------------------------------

  /** A run succeeds exactly when the metadata update, the stamp check and the tarball download all do. */
  lemma GenerateSucceedsIff(info: ModuleUpdateInfo, files: map<string, FileData>, tools: Tools)
    ensures GenerateSpec(info, files, tools).outcome.Success? <==>
      && MetadataUpdate(ModulePath(info) + "/metadata.json", info.release.version, files).Success?
      && StampSpec(info.modFile, info.release.version).Success?
      && tools.fetch(Tarball(info.release)).Success?
  {
  }

  /** A run that succeeds stores no patch exactly when the declaration already matches the release. */
  lemma NoPatchIffMatching(info: ModuleUpdateInfo, files: map<string, FileData>, tools: Tools)
    requires MetadataUpdate(ModulePath(info) + "/metadata.json", info.release.version, files).Success?
    requires StampSpec(info.modFile, info.release.version).Success?
    requires tools.fetch(Tarball(info.release)).Success?
    ensures var s := GenerateSpec(info, files, tools);
      (s.patches == map[]) <==>
        info.modFile.version.Some? && Eq(info.modFile.version.value, info.release.version)
        && MajorVersion(info.modFile) == info.modFile.compLevel
  {
    var s := GenerateSpec(info, files, tools);
    if StampSpec(info.modFile, info.release.version).value.Some? {
      assert PatchName in s.patches;
    }
  }

  /** On a mismatch the run stores exactly one patch, and MODULE.bazel holds the stamped text when it is not empty. */
  lemma MismatchStoresOnePatch(info: ModuleUpdateInfo, files: map<string, FileData>, tools: Tools)
    requires MetadataUpdate(ModulePath(info) + "/metadata.json", info.release.version, files).Success?
    requires StampSpec(info.modFile, info.release.version).Success?
    requires StampSpec(info.modFile, info.release.version).value.Some?
    requires tools.fetch(Tarball(info.release)).Success?
    ensures var s := GenerateSpec(info, files, tools);
      var stamped := StampedContent(info.modFile.content, info.release.version);
      var dir := ModuleVersionPath(info);
      && s.patches.Keys == {PatchName}
      && s.patches[PatchName] == tools.diff(info.modFile.content, stamped)
      && PatchPath(dir, PatchName) in s.files
      && s.files[PatchPath(dir, PatchName)] == TextFile(s.patches[PatchName])
      && s.files[ModuleFilePath(dir)] == TextFile(if |stamped| > 0 then stamped else info.modFile.content)
  {
  }

  /** When no patch is needed, MODULE.bazel is the original text and source.json lists no patches. */
  lemma MatchKeepsOriginal(info: ModuleUpdateInfo, files: map<string, FileData>, tools: Tools)
    requires MetadataUpdate(ModulePath(info) + "/metadata.json", info.release.version, files).Success?
    requires StampSpec(info.modFile, info.release.version) == Success(None)
    requires tools.fetch(Tarball(info.release)).Success?
    ensures var s := GenerateSpec(info, files, tools);
      var dir := ModuleVersionPath(info);
      && s.files[ModuleFilePath(dir)] == TextFile(info.modFile.content)
      && s.files[SourceJsonPath(dir)].JsonFile?
      && "patches" !in s.files[SourceJsonPath(dir)].doc.fields
      && "patch_strip" !in s.files[SourceJsonPath(dir)].doc.fields
  {
    SourceJsonListsPatches(info, map[], tools);
  }
}
