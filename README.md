# Sling feature model: binary-archive installer plugin and feature lookup service

This project models two pieces of the Apache Sling feature-model tooling and
proves properties of them in Dafny.

**The binary-archive installer plugin** (`BinaryPackageInstallerPlugin`) is an
OSGi installer resource transformer and task factory.

- `transform` accepts a registered resource only when all of these hold:
  - its type is `file`;
  - its URL ends with one of the configured file extensions (default `.bin` and `.fonts`);
  - its JAR manifest carries `Binary-Archive-Version: 1`.
- An accepted resource yields exactly one transformation result:
  - of type `binaryarchive`;
  - with id `group:artifact`, where the artifact id comes from the resource
    dictionary's `artifact.id`, or is derived from the URL's last path
    segment minus its extension under the group `binary.packages`;
  - with the attributes `dir` and `overwrite`, each taken from the
    dictionary or else from the configuration.
- `createTask` creates an install task for an active `binaryarchive`
  resource unless that resource is being uninstalled.

Module `BinaryPackageInstaller` (file `binary_package_installer_plugin.dfy`):

- The installer API types are records.
- The reading of the archive is an input, `ArchiveRead`. It says whether the
  read failed with an I/O error, found no manifest, or found a manifest, and
  in that case gives the header's value (or none).
- `Transformed` is the specification function. It lists the checks in the
  order the source makes them.
- `Transform` and `TransformArchive` are the imperative methods, proved equal
  to that function. `TransformArchive` is the part after the manifest check.
- `HandledExtension` is the search loop over the extensions, proved equal to
  the predicate `Handles`.

Most rejections return null; two cases throw instead:

- A JAR without a manifest makes `getManifest()` return null. The next call
  then throws a `NullPointerException`, which is not caught.
- A dictionary whose `artifact.id` is not an `ArtifactId` makes the cast throw
  a `ClassCastException`, which is not caught either.

Both appear as `Thrown(...)` outcomes. An `IOException` from either opening of
the resource's stream is caught and gives no result.

**The feature lookup service** (`FeatureServiceImpl`) holds an immutable
snapshot of a map from bundle id to feature name and the set of distinct
feature names. It answers which feature a bundle belongs to and which features
exist.

Module `FeatureService` (file `feature_service_impl.dfy`) models it as a class.

- The class has two `const` fields, so nothing can change them after
  construction.
- `Valid()` is the class invariant: the features are exactly the map's values.
- Dafny maps are values, so the constructor's copy cannot be reached by later
  changes to the caller's map.

Module `Wrappers` (file `wrappers.dfy`) holds `Option`, which stands for Java's
nullable results.

## Model

| member | source | states |
|---|---|---|
| `BinaryPackageInstaller.HandledExtension` | featuremodel-unpack-extension/src/main/java/org/apache/sling/feature/extension/unpack/impl/BinaryPackageInstallerPlugin.java:117-124 | the result is true iff some configured extension is a suffix of the URL |
| `BinaryPackageInstaller.HandlesDefaults` | featuremodel-unpack-extension/src/main/java/org/apache/sling/feature/extension/unpack/impl/BinaryPackageInstallerPlugin.java:53-57 | an empty extension list handles no URL; under `DefaultConfig` (the annotation's defaults, with only `directory` set) the extensions handle exactly the URLs ending in `.bin` or `.fonts`, `overwrite` is `"true"` and `directory` is the one given |
| `BinaryPackageInstaller.LastIndexOf` | featuremodel-unpack-extension/src/main/java/org/apache/sling/feature/extension/unpack/impl/BinaryPackageInstallerPlugin.java:86-88 | `lastIndexOf` gives -1 or a valid position of the string |
| `BinaryPackageInstaller.LastIndexOfFinds` | featuremodel-unpack-extension/src/main/java/org/apache/sling/feature/extension/unpack/impl/BinaryPackageInstallerPlugin.java:86-88 | `lastIndexOf` finds the character at its result, none after it, and gives -1 exactly when the character is absent |
| `BinaryPackageInstaller.LastSegmentShape` | featuremodel-unpack-extension/src/main/java/org/apache/sling/feature/extension/unpack/impl/BinaryPackageInstallerPlugin.java:85-87 | the substring after the last `/` is a suffix of the URL, holds no `/`, and starts the URL or follows a `/` |
| `BinaryPackageInstaller.LastSegmentUnique` | featuremodel-unpack-extension/src/main/java/org/apache/sling/feature/extension/unpack/impl/BinaryPackageInstallerPlugin.java:86-87 | any suffix with those three properties is the last segment, so the segment is determined independently of `lastIndexOf` |
| `BinaryPackageInstaller.LastSegmentInFolder` | featuremodel-unpack-extension/src/main/java/org/apache/sling/feature/extension/unpack/impl/BinaryPackageInstallerPlugin.java:86-87 | for `folder + "/" + file` with no `/` in `file`, the last segment is `file` |
| `BinaryPackageInstaller.StripExtensionShape` | featuremodel-unpack-extension/src/main/java/org/apache/sling/feature/extension/unpack/impl/BinaryPackageInstallerPlugin.java:88-91 | the stripped name is a prefix; it is the whole name when there is no `.`, and otherwise it is cut at a `.` with no `.` after it |
| `BinaryPackageInstaller.StripExtensionAppended` | featuremodel-unpack-extension/src/main/java/org/apache/sling/feature/extension/unpack/impl/BinaryPackageInstallerPlugin.java:88-91 | stripping `name + "." + ext` with no `.` in `ext` gives back `name`, even when `name` itself holds dots |
| `BinaryPackageInstaller.DerivedNameShape` | featuremodel-unpack-extension/src/main/java/org/apache/sling/feature/extension/unpack/impl/BinaryPackageInstallerPlugin.java:84-91 | the derived artifact name is a prefix of the URL's last segment and contains no `/` |
| `BinaryPackageInstaller.DerivedNamePlain` | featuremodel-unpack-extension/src/main/java/org/apache/sling/feature/extension/unpack/impl/BinaryPackageInstallerPlugin.java:84-91 | a name with no `.` and no `/` derives to itself, alone or inside any folder |
| `BinaryPackageInstaller.DerivedNameRoundTrip` | featuremodel-unpack-extension/src/main/java/org/apache/sling/feature/extension/unpack/impl/BinaryPackageInstallerPlugin.java:84-91 | deriving the name of `folder + "/" + name + "." + ext` returns `name` when `name` and `ext` hold no `/` and `ext` holds no `.` |
| `BinaryPackageInstaller.ArtifactNameFromUrl` | featuremodel-unpack-extension/src/main/java/org/apache/sling/feature/extension/unpack/impl/BinaryPackageInstallerPlugin.java:85-91 | the step-by-step reassignment of `name` computes the derived name |
| `BinaryPackageInstaller.Transform` | featuremodel-unpack-extension/src/main/java/org/apache/sling/feature/extension/unpack/impl/BinaryPackageInstallerPlugin.java:64-115 | `transform` gives the specified outcome, and it gives results exactly when every acceptance check passes |
| `BinaryPackageInstaller.TransformArchive` | featuremodel-unpack-extension/src/main/java/org/apache/sling/feature/extension/unpack/impl/BinaryPackageInstallerPlugin.java:78-108 | after the manifest check, the way the dictionary, artifact id, result id and attributes are built gives the specified outcome |
| `BinaryPackageInstaller.ResultsNeedFileWithExtension` | featuremodel-unpack-extension/src/main/java/org/apache/sling/feature/extension/unpack/impl/BinaryPackageInstallerPlugin.java:65-68 | a resource that is not of type `file`, or whose URL has no configured extension, gives no result |
| `BinaryPackageInstaller.ResultsNeedVersionOne` | featuremodel-unpack-extension/src/main/java/org/apache/sling/feature/extension/unpack/impl/BinaryPackageInstallerPlugin.java:71-75 | any result implies a manifest whose `Binary-Archive-Version` is exactly `"1"`; a missing header or any other value rejects |
| `BinaryPackageInstaller.IoFailuresAreSwallowed` | featuremodel-unpack-extension/src/main/java/org/apache/sling/feature/extension/unpack/impl/BinaryPackageInstallerPlugin.java:109-114 | an I/O failure on either opening of the stream gives no result; whatever is thrown then comes from a missing manifest or a failed cast, never from the I/O failure; a failed manifest read, or a failed second opening after the manifest and cast checks pass, gives exactly null |
| `BinaryPackageInstaller.AcceptedExactly` | featuremodel-unpack-extension/src/main/java/org/apache/sling/feature/extension/unpack/impl/BinaryPackageInstallerPlugin.java:64-115 | results are produced iff: type file, handled extension, version header "1", castable `artifact.id`, and the second stream opens |
| `BinaryPackageInstaller.AcceptedResultShape` | featuremodel-unpack-extension/src/main/java/org/apache/sling/feature/extension/unpack/impl/BinaryPackageInstallerPlugin.java:95-108 | an accepted resource yields exactly one result, of type `binaryarchive`, whose attributes are exactly `dir` and `overwrite`, each the dictionary's value if present and the configuration's otherwise |
| `BinaryPackageInstaller.AcceptedResultId` | featuremodel-unpack-extension/src/main/java/org/apache/sling/feature/extension/unpack/impl/BinaryPackageInstallerPlugin.java:83-97 | the result id is `groupId:artifactId` of the dictionary's artifact id, or `binary.packages:` plus the name derived from the URL when there is none |
| `BinaryPackageInstaller.CreateTask` | featuremodel-unpack-extension/src/main/java/org/apache/sling/feature/extension/unpack/impl/BinaryPackageInstallerPlugin.java:127-139 | a task is created iff the active resource is of type `binaryarchive` and not in state UNINSTALL, and it is built from that group and the configuration |
| `BinaryPackageInstaller.TransformedResultGetsTask` | featuremodel-unpack-extension/src/main/java/org/apache/sling/feature/extension/unpack/impl/BinaryPackageInstallerPlugin.java:127-138 | the result of an accepted transform, as active resource, gets a task in every state except UNINSTALL |
| `FeatureService.FeatureServiceImpl.constructor` | featuremodel/feature-service/src/main/java/org/apache/sling/feature/service/impl/FeatureServiceImpl.java:34-40 | the stored map equals the argument, the features are its distinct values, and the invariant holds |
| `FeatureService.FeatureServiceImpl.ListFeatures` | featuremodel/feature-service/src/main/java/org/apache/sling/feature/service/impl/FeatureServiceImpl.java:43-45 | a name is listed iff some bundle id maps to it |
| `FeatureService.FeatureServiceImpl.GetFeatureForBundle` | featuremodel/feature-service/src/main/java/org/apache/sling/feature/service/impl/FeatureServiceImpl.java:48-50 | the mapped name when the bundle id is a key and none (null) otherwise; any name returned is a listed feature |
| `FeatureService.ListedFeatureHasBundle` | featuremodel/feature-service/src/main/java/org/apache/sling/feature/service/impl/FeatureServiceImpl.java:38-39 | every listed feature is the answer for at least one bundle id |
| `FeatureService.FeatureCountAtMostBundleCount` | featuremodel/feature-service/src/main/java/org/apache/sling/feature/service/impl/FeatureServiceImpl.java:38 | duplicates collapse: there are no more listed features than mapped bundles |

## Left out

- Reading the JAR is not modelled: the `JarInputStream`, `getManifest` and `getInputStream` calls. Their outcome is the input `ArchiveRead` plus the flag `reopenFails`. The header name is matched case-insensitively, as `java.util.jar.Attributes` does, and the model sees only the resulting value.
- The result's input stream (`setInputStream`) is not modelled. It has no observable content in this excerpt.
- `e.printStackTrace()` is left out because it is console output.
- `ArtifactId` and `InstallableResource.TYPE_FILE` (`"file"`) are not part of this model's source files:
  - `ArtifactId` is a record of group, artifact and version;
  - the derived id's null classifier and type are dropped;
  - any argument checks its constructor may make are not modelled.
- `InstallBinaryArchiveTask` is not part of this model. `createTask` returns it as an opaque value built from the group and the configuration.
- OSGi wiring is left out. That covers the component annotations and the activation that injects `config`. The configuration is a parameter of each operation.
- `config.directory()` has no default in the source and may be null when unconfigured. The model takes it as a string.
- Null inputs are not modelled because they are host-framework errors:
  - a null resource type or URL;
  - a null active resource in `createTask`;
  - a digest of null.
- Resource dictionary values are `Text` or `Artifact`. Values of other Java types under `dir` or `overwrite` would be copied the same way.
- `FeatureServiceImpl` left out:
  - a `null` value in the caller's map (Java would then list `null` as a feature);
  - a `null` key;
  - the choice of `Collection` over `Set` as the return type of `listFeatures`.
- The unmodifiable wrappers and the copy on construction need no code: Dafny's maps and sets are immutable values and the fields are `const`.
- `MisbehavingServerExtension` is left out. It is a test HTTP server with timing and network I/O.
- `Features` is left out. It delegates to an implementation that is not part of this model.
- `FeatureBundleBuilder` is left out. It is an interface without implementation.
