/**
 * `scripts/generate_module_files.py`, the older script that adds one release
 * of a module to the registry: it records the version in the module's
 * metadata.json (creating the file for a new module), writes the release's
 * MODULE.bazel unchanged, and writes a source.json naming the tarball.
 */
module LegacyGenerate {
  import opened Wrappers
  import opened Errors
  import opened Text
  import opened Json
  import opened Hashing
  import UpdateRunner

  // ---------------------------------------------------------------------------
  // change_metadata
  // ---------------------------------------------------------------------------

  /** The outcome of a step together with the files it leaves behind. */
  datatype Written = Written(outcome: Result<(), Error>, files: map<string, UpdateRunner.FileData>)

  /** `<module_path>/metadata.json`. */
  function MetadataPath(modulePath: string): string {
    modulePath + "/metadata.json"
  }

  function Homepage(repo: string): string {
    "https://github.com/eclipse-score/" + repo
  }

  function RepositoryEntry(repo: string): string {
    "github:eclipse-score/" + repo
  }

  /** The placeholder maintainer of a new module. */
  const PlaceholderMaintainer: Json :=
    JObj(map["name" := JStr("<tbd>"), "github" := JStr("<tbd>"), "github_user_id" := JNum(0)])

  /** The metadata.json of a module that has none yet: it lists exactly `version`. */
  function NewMetadata(version: string, repo: string): (doc: Json)
    ensures doc.JObj?
    ensures doc.fields.Keys == {"homepage", "maintainers", "repository", "versions", "yanked_versions"}
  {
    JObj(map[
      "homepage" := JStr(Homepage(repo)),
      "maintainers" := JArr([PlaceholderMaintainer]),
      "repository" := JArr([JStr(RepositoryEntry(repo))]),
      "versions" := JArr([JStr(version)]),
      "yanked_versions" := JObj(map[])])
  }

  /**
   * `module_version in value` for the decoded `metadata["versions"]`: list
   * membership, a key of an object, a substring of a string; anything else
   * is not iterable.
   */
  function Member(value: Json, version: string): (r: Result<bool, Error>)
    ensures value.JArr? ==> r == Success(JStr(version) in value.items)
    ensures r.Failure? <==> !(value.JArr? || value.JObj? || value.JStr?)
  {
    match value
    case JArr(items) => Success(JStr(version) in items)
    case JObj(fields) => Success(version in fields)
    case JStr(s) => Success(Contains(s, version))
    case _ => Failure(TypeError)
  }

  /**
   * `change_metadata`. Without a metadata.json a new one lists the version.
   * Otherwise the file must hold an object with a `versions` entry; a
   * version not yet in it is appended at the end. The file is opened for
   * writing before the append, so an entry that has no `append` leaves the
   * file empty.
   */
  function ChangeMetadataSpec(files: map<string, UpdateRunner.FileData>, modulePath: string, version: string, repo: string)
    : (w: Written)
  {
    var path := MetadataPath(modulePath);
    if path !in files then
      Written(Success(()), files[path := UpdateRunner.JsonFile(NewMetadata(version, repo))])
    else match files[path]
      case TextFile(_) => Written(Failure(JsonDecodeError), files)
      case JsonFile(doc) =>
        if !doc.JObj? then Written(Failure(TypeError), files)        // `metadata["versions"]` on a non-object
        else if "versions" !in doc.fields then Written(Failure(KeyError), files)
        else
          var versions := doc.fields["versions"];
          match Member(versions, version)
          case Failure(e) => Written(Failure(e), files)
          case Success(present) =>
            if present then Written(Success(()), files)
            else if versions.JArr? then
              var appended := JArr(versions.items + [JStr(version)]);
              Written(Success(()), files[path := UpdateRunner.JsonFile(JObj(doc.fields["versions" := appended]))])
            else Written(Failure(AttributeError), files[path := UpdateRunner.TextFile("")])
  }

  /** Only metadata.json of the module can change. */
  lemma ChangeMetadataTouchesOnlyMetadata(files: map<string, UpdateRunner.FileData>, modulePath: string, version: string, repo: string)
    ensures var w := ChangeMetadataSpec(files, modulePath, version, repo);
      w.files.Keys == files.Keys + {MetadataPath(modulePath)} || w.files == files
    ensures var w := ChangeMetadataSpec(files, modulePath, version, repo);
      forall p :: p in files && p != MetadataPath(modulePath) ==> p in w.files && w.files[p] == files[p]
  {
  }

  /** A new module gets a metadata.json listing exactly the version, with its homepage and repository. */
  lemma NewModuleMetadata(files: map<string, UpdateRunner.FileData>, modulePath: string, version: string, repo: string)
    requires MetadataPath(modulePath) !in files
    ensures var w := ChangeMetadataSpec(files, modulePath, version, repo);
      && w.outcome.Success?
      && w.files[MetadataPath(modulePath)].JsonFile?
      && var doc := w.files[MetadataPath(modulePath)].doc;
      && doc.JObj?
      && doc.fields["versions"] == JArr([JStr(version)])
      && doc.fields["repository"] == JArr([JStr("github:eclipse-score/" + repo)])
      && doc.fields["homepage"] == JStr("https://github.com/eclipse-score/" + repo)
      && doc.fields["yanked_versions"] == JObj(map[])
  {
  }

  /** A version missing from an existing list is appended at the end; the other entries stay. */
  lemma AppendsMissingVersion(files: map<string, UpdateRunner.FileData>, modulePath: string, version: string, repo: string,
                              fields: map<string, Json>, items: seq<Json>)
    requires MetadataPath(modulePath) in files
    requires files[MetadataPath(modulePath)] == UpdateRunner.JsonFile(JObj(fields))
    requires "versions" in fields && fields["versions"] == JArr(items) && JStr(version) !in items
    ensures var w := ChangeMetadataSpec(files, modulePath, version, repo);
      && w.outcome.Success?
      && w.files[MetadataPath(modulePath)] == UpdateRunner.JsonFile(JObj(fields["versions" := JArr(items + [JStr(version)])]))
  {
  }

  /** Running `change_metadata` again after it succeeded changes nothing. */
  lemma ChangeMetadataIdempotent(files: map<string, UpdateRunner.FileData>, modulePath: string, version: string, repo: string)
    requires ChangeMetadataSpec(files, modulePath, version, repo).outcome.Success?
    ensures var once := ChangeMetadataSpec(files, modulePath, version, repo).files;
      ChangeMetadataSpec(once, modulePath, version, repo) == Written(Success(()), once)
  {
    var path := MetadataPath(modulePath);
    var once := ChangeMetadataSpec(files, modulePath, version, repo).files;
    if path !in files {
      assert once[path].doc.fields["versions"].items[0] == JStr(version);
    } else {
      var doc := files[path].doc;
      var versions := doc.fields["versions"];
      if versions.JArr? && JStr(version) !in versions.items {
        var appended := versions.items + [JStr(version)];
        assert appended[|appended| - 1] == JStr(version);
      }
    }
  }

  /** A string holds the empty string, so `"" in versions` is always true for a string entry. */
  lemma EmptyVersionInString(s: string)
    ensures Member(JStr(s), "") == Success(true)
  {
    assert OccursAt(s, "", 0);
  }

  // ---------------------------------------------------------------------------
  // generate_source_json
  // ---------------------------------------------------------------------------

  /**
   * The entries `generate_source_json` writes: the integrity is `sha256-`
   * before the trimmed output of the hashing shell pipeline.
   */
  function LegacySourceFields(pipelineOutput: string, tarball: string, repo: string, version: string): (r: map<string, Json>)
    ensures r.Keys == {"integrity", "strip_prefix", "url"}
  {
    map["integrity" := JStr(IntegrityPrefix + StripSpaces(pipelineOutput)),
        "strip_prefix" := JStr(repo + "-" + version),
        "url" := JStr(tarball)]
  }

  /** The legacy source.json has the entries the update pipeline writes for a release without patches. */
  lemma LegacySourceMatchesPipeline(pipelineOutput: string, tarball: string, repo: string, version: string)
    ensures LegacySourceFields(pipelineOutput, tarball, repo, version)
      == UpdateRunner.SourceFields(IntegrityPrefix + StripSpaces(pipelineOutput), repo + "-" + version, tarball, map[])
  {
  }

  /** No Base64 character is whitespace. */
  lemma Base64CharNotSpace(n: nat)
    requires n < 64
    ensures !IsPyWhitespace(Base64Char(n))
  {
  }

  /** The text of a non-empty Base64 encoding neither starts nor ends with whitespace. */
  lemma {:induction false} Base64EncodeEdges(bs: seq<Byte>)
    requires |bs| > 0
    ensures var r := Base64Encode(bs); |r| > 0 && !IsPyWhitespace(r[0]) && !IsPyWhitespace(r[|r| - 1])
    decreases |bs|
  {
    var r := Base64Encode(bs);
    if |bs| <= 2 {
      var q := if |bs| == 1 then Pack(bs[0], 0, 0) else Pack(bs[0], bs[1], 0);
      Base64CharNotSpace(Sextets(q)[0]);
    } else {
      var q := Quad(Pack(bs[0], bs[1], bs[2]));
      Base64CharNotSpace(Sextets(Pack(bs[0], bs[1], bs[2]))[0]);
      Base64CharNotSpace(Sextets(Pack(bs[0], bs[1], bs[2]))[3]);
      if |bs| > 3 {
        Base64EncodeEdges(bs[3..]);
      }
      assert r == q + Base64Encode(bs[3..]);
    }
  }

  /**
   * When the shell pipeline prints the Base64 digest followed by a newline,
   * the legacy integrity string is the one the update pipeline computes.
   */
  lemma LegacyIntegrityMatchesPipeline(digest: seq<Byte> -> seq<Byte>, body: seq<Byte>, pipelineOutput: string)
    requires |digest(body)| > 0
    requires pipelineOutput == Base64Encode(digest(body)) + "\n"
    ensures IntegrityPrefix + StripSpaces(pipelineOutput) == Integrity(digest, body)
  {
    var e := Base64Encode(digest(body));
    Base64EncodeEdges(digest(body));
    assert pipelineOutput[..|pipelineOutput| - 1] == e;
    StripSpacesUnchanged(e);
  }

  // ---------------------------------------------------------------------------
  // The script's view of the registry
  // ---------------------------------------------------------------------------

  /** `modules/<name>`. */
  function ModulePath(name: string): string {
    "modules/" + name
  }

  /** `modules/<name>/<version>`. */
  function VersionDir(name: string, version: string): string {
    ModulePath(name) + "/" + version
  }

  /** `generate_needed_files`: metadata first; a failure there stops the script before anything else is written. */
  function GenerateSpec(files: map<string, UpdateRunner.FileData>, pipeline: string -> string,
                        name: string, version: string, content: string, tarball: string, repo: string): (w: Written)
  {
    var meta := ChangeMetadataSpec(files, ModulePath(name), version, repo);
    if meta.outcome.Failure? then meta
    else
      var dir := VersionDir(name, version);
      Written(Success(()), meta.files[UpdateRunner.ModuleFilePath(dir) := UpdateRunner.TextFile(content)]
        [UpdateRunner.SourceJsonPath(dir) := UpdateRunner.JsonFile(JObj(LegacySourceFields(pipeline(tarball), tarball, repo, version)))])
  }

  /**
   * After a successful run the metadata lists the version, MODULE.bazel is
   * the fetched text unchanged, and source.json names the tarball.
   */
  lemma GeneratedFiles(files: map<string, UpdateRunner.FileData>, pipeline: string -> string,
                       name: string, version: string, content: string, tarball: string, repo: string)
    requires GenerateSpec(files, pipeline, name, version, content, tarball, repo).outcome.Success?
    ensures var w := GenerateSpec(files, pipeline, name, version, content, tarball, repo);
      var dir := VersionDir(name, version);
      && w.files[UpdateRunner.ModuleFilePath(dir)] == UpdateRunner.TextFile(content)
      && w.files[UpdateRunner.SourceJsonPath(dir)].JsonFile? && w.files[UpdateRunner.SourceJsonPath(dir)].doc.JObj?
      && w.files[UpdateRunner.SourceJsonPath(dir)].doc.fields["url"] == JStr(tarball)
      && w.files[UpdateRunner.SourceJsonPath(dir)].doc.fields["strip_prefix"] == JStr(repo + "-" + version)
    ensures var w := GenerateSpec(files, pipeline, name, version, content, tarball, repo);
      ChangeMetadataSpec(w.files, ModulePath(name), version, repo).outcome.Success?
  {
    var meta := ChangeMetadataSpec(files, ModulePath(name), version, repo);
    var dir := VersionDir(name, version);
    var w := GenerateSpec(files, pipeline, name, version, content, tarball, repo);
    ChangeMetadataIdempotent(files, ModulePath(name), version, repo);
    PathsDiffer(name, version);
    assert w.files[MetadataPath(ModulePath(name))] == meta.files[MetadataPath(ModulePath(name))];
  }

  /** The metadata path of a module is neither file of a release directory. */
  lemma PathsDiffer(name: string, version: string)
    ensures MetadataPath(ModulePath(name)) != UpdateRunner.ModuleFilePath(VersionDir(name, version))
    ensures MetadataPath(ModulePath(name)) != UpdateRunner.SourceJsonPath(VersionDir(name, version))
    ensures UpdateRunner.ModuleFilePath(VersionDir(name, version)) != UpdateRunner.SourceJsonPath(VersionDir(name, version))
  {
    var m := ModulePath(name);
    var k := |m| + 1;
    assert MetadataPath(m)[k] == 'm';
    assert |UpdateRunner.ModuleFilePath(VersionDir(name, version))| > |MetadataPath(m)| || UpdateRunner.ModuleFilePath(VersionDir(name, version))[k] != 'm' by {
      if |version| > 0 {
        assert UpdateRunner.ModuleFilePath(VersionDir(name, version))[k] == version[0];
      }
    }
    var d := VersionDir(name, version);
    assert UpdateRunner.ModuleFilePath(d)[|d| + 1] == 'M' && UpdateRunner.SourceJsonPath(d)[|d| + 1] == 's';
  }

  // ---------------------------------------------------------------------------
  // The script as it changes the registry
  // ---------------------------------------------------------------------------

  class LegacyWorkspace {
    /** The registry files, by path. */
    var files: map<string, UpdateRunner.FileData>
    /** The standard output of `curl -Ls <url> | sha256sum | ... | base64` for each URL. */
    const pipeline: string -> string

    constructor(files: map<string, UpdateRunner.FileData>, pipeline: string -> string)
      ensures this.files == files && this.pipeline == pipeline
    {
      this.files := files;
      this.pipeline := pipeline;
    }

    /** `change_metadata(module_path, module_name, module_version, repo_name)`. */
    method ChangeMetadata(modulePath: string, moduleName: string, version: string, repo: string) returns (r: Result<(), Error>)
      modifies this
      ensures Written(r, files) == ChangeMetadataSpec(old(files), modulePath, version, repo)
    {
      var path := MetadataPath(modulePath);
      if path !in files {
        var metadata: map<string, Json> := map[];
        metadata := metadata["homepage" := JStr(Homepage(repo))];
        metadata := metadata["maintainers" := JArr([PlaceholderMaintainer])];
        metadata := metadata["repository" := JArr([JStr(RepositoryEntry(repo))])];
        metadata := metadata["versions" := JArr([JStr(version)])];
        metadata := metadata["yanked_versions" := JObj(map[])];
        files := files[path := UpdateRunner.JsonFile(JObj(metadata))];
        r := Success(());
      } else if files[path].TextFile? {
        r := Failure(JsonDecodeError);
      } else if !files[path].doc.JObj? {
        r := Failure(TypeError);
      } else if "versions" !in files[path].doc.fields {
        r := Failure(KeyError);
      } else {
        var metadata := files[path].doc.fields;
        var present := Member(metadata["versions"], version);
        if present.Failure? {
          r := Failure(present.error);
        } else if present.value {
          r := Success(());
        } else {
          files := files[path := UpdateRunner.TextFile("")];
          if metadata["versions"].JArr? {
            metadata := metadata["versions" := JArr(metadata["versions"].items + [JStr(version)])];
            files := files[path := UpdateRunner.JsonFile(JObj(metadata))];
            r := Success(());
          } else {
            r := Failure(AttributeError);
          }
        }
      }
    }

    /** `generate_source_json(new_version_dir, tarball, repo_name, module_version)`. */
    method GenerateSourceJson(dir: string, tarball: string, repo: string, version: string)
      modifies this
      ensures files == old(files)[UpdateRunner.SourceJsonPath(dir) := UpdateRunner.JsonFile(JObj(LegacySourceFields(pipeline(tarball), tarball, repo, version)))]
    {
      var source: map<string, Json> := map[];
      var integrity := IntegrityPrefix + StripSpaces(pipeline(tarball));
      source := source["integrity" := JStr(integrity)];
      source := source["strip_prefix" := JStr(repo + "-" + version)];
      source := source["url" := JStr(tarball)];
      files := files[UpdateRunner.SourceJsonPath(dir) := UpdateRunner.JsonFile(JObj(source))];
    }

    /** `generate_needed_files(module_name, module_version, bazel_module_file_content, tarball, repo_name)`. */
    method GenerateNeededFiles(name: string, version: string, content: string, tarball: string, repo: string)
      returns (r: Result<(), Error>)
      modifies this
      ensures Written(r, files) == GenerateSpec(old(files), pipeline, name, version, content, tarball, repo)
    {
      var modulePath := ModulePath(name);
      r := ChangeMetadata(modulePath, name, version, repo);
      if r.Success? {
        var dir := modulePath + "/" + version;
        files := files[UpdateRunner.ModuleFilePath(dir) := UpdateRunner.TextFile(content)];
        GenerateSourceJson(dir, tarball, repo, version);
      }
    }
  }
}
