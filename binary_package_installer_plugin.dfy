/**
 * The binary-archive installer plugin of the Sling feature-model unpack
 * extension: it recognises registered file resources that are binary
 * archives (by URL extension and by the `Binary-Archive-Version` manifest
 * header), turns each into one transformation result of type
 * `binaryarchive`, and creates an install task for such resources.
 *
 * The OSGi installer types are plain records here; reading the archive's
 * manifest is an input (`ArchiveRead`) rather than a stream operation.
 */
module BinaryPackageInstaller {
  import opened Wrappers

  /** `InstallableResource.TYPE_FILE` of the Sling installer API. */
  const TYPE_FILE: string := "file"
  /** The manifest main attribute whose value `ManifestRead` carries. */
  const BINARY_ARCHIVE_VERSION_HEADER: string := "Binary-Archive-Version"
  const TYPE_BINARY_ARCHIVE: string := "binaryarchive"
  /** Group of an artifact id derived from the URL. */
  const DEFAULT_GROUP_ID: string := "binary.packages"
  /** Dictionary keys the plugin reads. */
  const ARTIFACT_ID_KEY: string := "artifact.id"
  const DIR_KEY: string := "dir"
  const OVERWRITE_KEY: string := "overwrite"

  // ---------------------------------------------------------------- data

  /** The component configuration: `directory()`, `overwrite()`, `file_extensions()`. */
  datatype Config = Config(directory: string, overwrite: string, fileExtensions: seq<string>)

  /** A configuration that sets only `directory`; the others take their declared defaults. */
  function DefaultConfig(directory: string): Config
  {
    Config(directory, "true", [".bin", ".fonts"])
  }

  /** A Sling feature artifact id, reduced to the parts this plugin uses. */
  datatype ArtifactId = ArtifactId(groupId: string, artifactId: string, version: string)

  /** The objects a resource dictionary can hold under the keys the plugin reads. */
  datatype Value = Text(text: string) | Artifact(id: ArtifactId)

  /**
   * The outcome of opening the resource as a JAR and reading its manifest:
   * an I/O failure, a JAR without manifest (`getManifest()` gives null), or
   * the value of `Binary-Archive-Version` among the main attributes (None
   * when the header is absent).
   */
  datatype ArchiveRead = IoFailure | NoManifest | ManifestRead(archiveVersion: Option<string>)

  /**
   * A registered resource. `dictionary` is None when the resource has no
   * dictionary; `reopenFails` says whether opening the input stream a second
   * time, for the transformation result, fails with an I/O error.
   */
  datatype RegisteredResource = RegisteredResource(
    resourceType: string,
    url: string,
    dictionary: Option<map<string, Value>>,
    digest: string,
    archive: ArchiveRead,
    reopenFails: bool)

  /** A transformation result; its input stream is the resource's own and is not modelled. */
  datatype TransformationResult = TransformationResult(
    resourceType: string,
    id: string,
    attributes: map<string, Value>)

  /** Unchecked exceptions that escape `transform`. */
  datatype Failure = NullPointer | ClassCast

  /** `null`, an array of results, or an exception thrown to the caller. */
  datatype TransformOutcome = NoResult | Results(results: seq<TransformationResult>) | Thrown(failure: Failure)

  datatype ResourceState = Install | Uninstall | Installed | Uninstalled | Ignored

  datatype TaskResource = TaskResource(resourceType: string, state: ResourceState)

  datatype TaskResourceGroup = TaskResourceGroup(activeResource: TaskResource)

  /** The install task is opaque: only the group and configuration it is built from. */
  datatype InstallTask = InstallBinaryArchiveTask(group: TaskResourceGroup, config: Config)

  // ------------------------------------------------------------ strings

  /** Java's `s.endsWith(suffix)`. */
  predicate EndsWith(s: string, suffix: string)
  {
    |suffix| <= |s| && s[|s| - |suffix|..] == suffix
  }

  /** Java's `s.lastIndexOf(c)`: the last position holding `c`, or -1. */
  function LastIndexOf(s: string, c: char): (r: int)
    ensures -1 <= r < |s|
  {
    if |s| == 0 then -1
    else if s[|s| - 1] == c then |s| - 1
    else LastIndexOf(s[..|s| - 1], c)
  }

  /** `LastIndexOf` finds `c` at its result, no `c` after it, and -1 only when `c` is absent. */
  lemma {:induction false} LastIndexOfFinds(s: string, c: char)
    ensures LastIndexOf(s, c) >= 0 ==> s[LastIndexOf(s, c)] == c
    ensures forall j :: LastIndexOf(s, c) < j < |s| ==> s[j] != c
    ensures LastIndexOf(s, c) == -1 <==> c !in s
  {
    if |s| > 0 && s[|s| - 1] != c {
      var init := s[..|s| - 1];
      LastIndexOfFinds(init, c);
      assert forall j :: 0 <= j < |init| ==> init[j] == s[j];
      assert s == init + [s[|s| - 1]];
    }
  }

  /** What `u.substring(u.lastIndexOf('/') + 1)` gives: the URL's last path segment. */
  function LastSegment(url: string): string
  {
    url[LastIndexOf(url, '/') + 1..]
  }

  /** A name with the part from its last `.` on removed, if it has a `.`. */
  function StripExtension(name: string): string
  {
    var i := LastIndexOf(name, '.');
    if i >= 0 then name[..i] else name
  }

  /** The artifact name derived from a URL when the dictionary names no artifact. */
  function DerivedName(url: string): string
  {
    StripExtension(LastSegment(url))
  }

  /** The last segment is a suffix of the URL without `/`, starting the URL or following a `/`. */
  lemma LastSegmentShape(url: string)
    ensures var segment := LastSegment(url);
      && EndsWith(url, segment)
      && '/' !in segment
      && (|segment| == |url| || url[|url| - |segment| - 1] == '/')
  {
    LastIndexOfFinds(url, '/');
  }

  /**
   * Stripping keeps a prefix; a name without `.` is kept whole, and otherwise
   * the cut falls on a `.` with no `.` after it.
   */
  lemma StripExtensionShape(name: string)
    ensures var base := StripExtension(name);
      && base <= name
      && ('.' !in name ==> base == name)
      && ('.' in name ==> |base| < |name| && name[|base|] == '.' && '.' !in name[|base| + 1..])
  {
    LastIndexOfFinds(name, '.');
  }

  /** The derived name is a prefix of the last segment and holds no `/`. */
  lemma DerivedNameShape(url: string)
    ensures DerivedName(url) <= LastSegment(url)
    ensures '/' !in DerivedName(url)
  {
    LastSegmentShape(url);
    StripExtensionShape(LastSegment(url));
  }

  // ------------------------------------------------------ specification

  /** Some configured extension is a suffix of `url`. */
  predicate Handles(extensions: seq<string>, url: string)
  {
    exists i :: 0 <= i < |extensions| && EndsWith(url, extensions[i])
  }

  /** The cast `(ArtifactId) dict.get("artifact.id")` succeeds. */
  predicate ArtifactIdCastable(dict: map<string, Value>)
  {
    ARTIFACT_ID_KEY in dict ==> dict[ARTIFACT_ID_KEY].Artifact?
  }

  /** The artifact id taken from the dictionary, or derived from the URL. */
  function ResolvedArtifactId(dict: map<string, Value>, resource: RegisteredResource): ArtifactId
    requires ArtifactIdCastable(dict)
  {
    if ARTIFACT_ID_KEY in dict then dict[ARTIFACT_ID_KEY].id
    else ArtifactId(DEFAULT_GROUP_ID, DerivedName(resource.url), resource.digest)
  }

  /** `dict.get(key)`, falling back to `default` when the key is absent. */
  function ValueOr(dict: map<string, Value>, key: string, default: Value): Value
  {
    if key in dict then dict[key] else default
  }

  /** The attributes of an accepted resource's result. */
  function ResultAttributes(dict: map<string, Value>, config: Config): map<string, Value>
  {
    map[DIR_KEY := ValueOr(dict, DIR_KEY, Text(config.directory)),
        OVERWRITE_KEY := ValueOr(dict, OVERWRITE_KEY, Text(config.overwrite))]
  }

  /** The dictionary `transform` works with: an absent one reads as empty. */
  function DictionaryOf(resource: RegisteredResource): map<string, Value>
  {
    resource.dictionary.GetOr(map[])
  }

  /** What `transform` yields for `resource` under `config`, check by check in source order. */
  function Transformed(resource: RegisteredResource, config: Config): TransformOutcome
  {
    if resource.resourceType != TYPE_FILE || !Handles(config.fileExtensions, resource.url) then NoResult
    else match resource.archive
      case IoFailure => NoResult
      case NoManifest => Thrown(NullPointer)
      case ManifestRead(version) =>
        if version != Some("1") then NoResult
        else ArchiveOutcome(resource, config)
  }

  /** What `transform` yields once the manifest has been accepted. */
  function ArchiveOutcome(resource: RegisteredResource, config: Config): TransformOutcome
  {
    var dict := DictionaryOf(resource);
    if !ArtifactIdCastable(dict) then Thrown(ClassCast)
    else if resource.reopenFails then NoResult
    else
      var aid := ResolvedArtifactId(dict, resource);
      Results([TransformationResult(TYPE_BINARY_ARCHIVE, aid.groupId + ":" + aid.artifactId,
                                    ResultAttributes(dict, config))])
  }

  /** All the conditions under which a resource is turned into a result. */
  predicate Accepts(resource: RegisteredResource, config: Config)
  {
    && resource.resourceType == TYPE_FILE
    && Handles(config.fileExtensions, resource.url)
    && resource.archive == ManifestRead(Some("1"))
    && ArtifactIdCastable(DictionaryOf(resource))
    && !resource.reopenFails
  }

  // ------------------------------------------------------------ methods

  /** `handledExtension`: search the configured extensions for one that ends `url`. */
  method HandledExtension(extensions: seq<string>, url: string) returns (handled: bool)
    ensures handled == Handles(extensions, url)
  {
    for i := 0 to |extensions|
      invariant forall j :: 0 <= j < i ==> !EndsWith(url, extensions[j])
    {
      if EndsWith(url, extensions[i]) {
        return true;
      }
    }
    return false;
  }

  /** The steps `transform` takes to name an artifact after the last segment of its URL. */
  method ArtifactNameFromUrl(u: string) returns (name: string)
    ensures name == DerivedName(u)
  {
    var idx := LastIndexOf(u, '/');
    name := u[idx + 1..];
    var idx2 := LastIndexOf(name, '.');
    if idx2 >= 0 {
      name := name[..idx2];
    }
  }

  /** `transform`: recognise a binary archive and build its single result. */
  method Transform(resource: RegisteredResource, config: Config) returns (outcome: TransformOutcome)
    ensures outcome == Transformed(resource, config)
    ensures outcome.Results? <==> Accepts(resource, config)
  {
    var handled := HandledExtension(config.fileExtensions, resource.url);
    if resource.resourceType != TYPE_FILE || !handled {
      return NoResult;
    }

    match resource.archive {
      case IoFailure =>
        return NoResult;
      case NoManifest =>
        return Thrown(NullPointer);
      case ManifestRead(version) =>
        if version != Some("1") {
          return NoResult;
        }
    }
    outcome := TransformArchive(resource, config);
  }

  /** The rest of `transform`, once the manifest has been accepted: build the single result. */
  method TransformArchive(resource: RegisteredResource, config: Config) returns (outcome: TransformOutcome)
    ensures outcome == ArchiveOutcome(resource, config)
  {
    var dict := resource.dictionary;
    if dict == None {
      dict := Some(map[]);
    }
    var d := dict.value;
    assert d == DictionaryOf(resource);

    var aid: ArtifactId;
    if ARTIFACT_ID_KEY in d {
      match d[ARTIFACT_ID_KEY] {
        case Text(_) =>
          return Thrown(ClassCast);
        case Artifact(id) =>
          aid := id;
      }
    } else {
      var name := ArtifactNameFromUrl(resource.url);
      aid := ArtifactId(DEFAULT_GROUP_ID, name, resource.digest);
    }
    assert aid == ResolvedArtifactId(d, resource);

    var tr := TransformationResult(TYPE_BINARY_ARCHIVE, aid.groupId + ":" + aid.artifactId, map[]);
    if resource.reopenFails {
      return NoResult;
    }

    var attributes: map<string, Value> := map[];
    var dir := if DIR_KEY in d then Some(d[DIR_KEY]) else None;
    attributes := attributes[DIR_KEY := if dir.Some? then dir.value else Text(config.directory)];
    var ow := if OVERWRITE_KEY in d then Some(d[OVERWRITE_KEY]) else None;
    attributes := attributes[OVERWRITE_KEY := if ow.Some? then ow.value else Text(config.overwrite)];
    assert attributes == ResultAttributes(d, config);
    tr := tr.(attributes := attributes);

    return Results([tr]);
  }

  /** `createTask`: a task for an active `binaryarchive` resource that is not being uninstalled. */
  function CreateTask(group: TaskResourceGroup, config: Config): (task: Option<InstallTask>)
    ensures task.Some? <==>
              group.activeResource.resourceType == TYPE_BINARY_ARCHIVE
              && group.activeResource.state != Uninstall
    ensures task.Some? ==> task.value.group == group && task.value.config == config
  {
    var tr := group.activeResource;
    if tr.resourceType != TYPE_BINARY_ARCHIVE then None
    else if tr.state == Uninstall then None
    else Some(InstallBinaryArchiveTask(group, config))
  }

  // ------------------------------------------------------------- lemmas

  /** With no configured extensions no URL is handled; the defaults handle `.bin` and `.fonts`. */
  lemma HandlesDefaults(directory: string, url: string)
    ensures !Handles([], url)
    ensures Handles(DefaultConfig(directory).fileExtensions, url) <==>
              EndsWith(url, ".bin") || EndsWith(url, ".fonts")
    ensures DefaultConfig(directory).overwrite == "true"
    ensures DefaultConfig(directory).directory == directory
  {
    var exts := DefaultConfig(directory).fileExtensions;
    if EndsWith(url, ".bin") {
      assert EndsWith(url, exts[0]);
    }
    if EndsWith(url, ".fonts") {
      assert EndsWith(url, exts[1]);
    }
  }

  /** A result needs a file resource whose URL has a configured extension. */
  lemma ResultsNeedFileWithExtension(resource: RegisteredResource, config: Config)
    requires resource.resourceType != TYPE_FILE || !Handles(config.fileExtensions, resource.url)
    ensures Transformed(resource, config) == NoResult
  {
  }

  /** A result needs the manifest header `Binary-Archive-Version` to be exactly "1". */
  lemma ResultsNeedVersionOne(resource: RegisteredResource, config: Config)
    requires Transformed(resource, config).Results?
    ensures resource.archive.ManifestRead? && resource.archive.archiveVersion == Some("1")
  {
  }

  /** I/O failures give no result and are not thrown to the caller. */
  lemma IoFailuresAreSwallowed(resource: RegisteredResource, config: Config)
    requires resource.archive == IoFailure || resource.reopenFails
    ensures !Transformed(resource, config).Results?
    ensures resource.archive == IoFailure ==> Transformed(resource, config) == NoResult
    ensures Transformed(resource, config) == Thrown(ClassCast) ==> !ArtifactIdCastable(DictionaryOf(resource))
    ensures Transformed(resource, config).Thrown? ==>
              resource.archive == NoManifest || !ArtifactIdCastable(DictionaryOf(resource))
    ensures (resource.reopenFails && resource.archive == ManifestRead(Some("1"))
             && ArtifactIdCastable(DictionaryOf(resource)))
            ==> Transformed(resource, config) == NoResult
  {
  }

  /** The resource is accepted exactly when every check passes. */
  lemma AcceptedExactly(resource: RegisteredResource, config: Config)
    ensures Transformed(resource, config).Results? <==> Accepts(resource, config)
  {
  }

  /**
   * An accepted resource yields exactly one result, of type `binaryarchive`,
   * whose attributes are exactly `dir` and `overwrite`, each taken from the
   * dictionary if present and from the configuration otherwise.
   */
  lemma AcceptedResultShape(resource: RegisteredResource, config: Config)
    requires Accepts(resource, config)
    ensures var out := Transformed(resource, config);
      && out.Results? && |out.results| == 1
      && out.results[0].resourceType == TYPE_BINARY_ARCHIVE
      && out.results[0].attributes.Keys == {"dir", "overwrite"}
      && out.results[0].attributes["dir"] ==
           (if "dir" in DictionaryOf(resource) then DictionaryOf(resource)["dir"] else Text(config.directory))
      && out.results[0].attributes["overwrite"] ==
           (if "overwrite" in DictionaryOf(resource) then DictionaryOf(resource)["overwrite"]
            else Text(config.overwrite))
  {
  }

  /**
   * The result id is `group:artifact` of the dictionary's artifact id, or,
   * when the dictionary has none, `binary.packages:` followed by the name
   * derived from the URL.
   */
  lemma AcceptedResultId(resource: RegisteredResource, config: Config)
    requires Accepts(resource, config)
    ensures var out := Transformed(resource, config);
      var dict := DictionaryOf(resource);
      && out.Results? && |out.results| == 1
      && ("artifact.id" in dict ==>
            out.results[0].id == dict["artifact.id"].id.groupId + ":" + dict["artifact.id"].id.artifactId)
      && ("artifact.id" !in dict ==>
            out.results[0].id == DEFAULT_GROUP_ID + ":" + DerivedName(resource.url))
  {
  }

  /**
   * The last path segment is the only suffix of the URL that holds no `/`
   * and starts the URL or follows a `/`.
   */
  lemma LastSegmentUnique(url: string, segment: string)
    requires EndsWith(url, segment) && '/' !in segment
    requires |segment| == |url| || url[|url| - |segment| - 1] == '/'
    ensures segment == LastSegment(url)
  {
    LastSegmentShape(url);
    var last := LastSegment(url);
    assert |segment| == |last|;
  }

  /** A file name with no `/` put into any folder is the URL's last segment. */
  lemma LastSegmentInFolder(folder: string, file: string)
    requires '/' !in file
    ensures LastSegment(folder + "/" + file) == file
  {
    var url := folder + "/" + file;
    assert url[|url| - |file|..] == file;
    assert url[|url| - |file| - 1] == '/';
    LastSegmentUnique(url, file);
  }

  /** Only the extension after the last `.` is stripped. */
  lemma StripExtensionAppended(name: string, extension: string)
    requires '.' !in extension
    ensures StripExtension(name + "." + extension) == name
  {
    var file := name + "." + extension;
    assert file[|name|] == '.';
    assert forall j :: |name| < j < |file| ==> file[j] == extension[j - |name| - 1];
    StripExtensionShape(file);
    var base := StripExtension(file);
    assert |base| == |name|;
    assert file[..|name|] == name;
  }

  /** A name without `.` or `/` derives to itself, whatever folder it sits in. */
  lemma DerivedNamePlain(folder: string, name: string)
    requires '/' !in name && '.' !in name
    ensures DerivedName(name) == name
    ensures DerivedName(folder + "/" + name) == name
  {
    LastSegmentUnique(name, name);
    LastSegmentInFolder(folder, name);
    StripExtensionShape(name);
  }

  /**
   * Putting an artifact name into a folder and appending an extension, then
   * deriving the name back from that URL, returns the artifact name.
   */
  lemma DerivedNameRoundTrip(folder: string, name: string, extension: string)
    requires '/' !in name && '/' !in extension && '.' !in extension
    ensures DerivedName(folder + "/" + name + "." + extension) == name
  {
    var file := name + "." + extension;
    assert folder + "/" + name + "." + extension == folder + "/" + file;
    assert '/' !in file by {
      forall j | 0 <= j < |file| ensures file[j] != '/' {
        if j < |name| { assert file[j] == name[j]; }
        else if j > |name| { assert file[j] == extension[j - |name| - 1]; }
      }
    }
    LastSegmentInFolder(folder, file);
    StripExtensionAppended(name, extension);
  }

  /** Every result `transform` accepts leads to an install task, unless it is being uninstalled. */
  lemma TransformedResultGetsTask(resource: RegisteredResource, config: Config, state: ResourceState)
    requires Transformed(resource, config).Results?
    ensures var tr := Transformed(resource, config).results[0];
      var group := TaskResourceGroup(TaskResource(tr.resourceType, state));
      CreateTask(group, config).Some? <==> state != Uninstall
  {
    AcceptedExactly(resource, config);
    AcceptedResultShape(resource, config);
  }
}
