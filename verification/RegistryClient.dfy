/** Installing a dependency from a hosted registry: choosing a version, honouring the lock entry, checking
    the package cache or the downloaded archive, and writing the lock entry. */
module RegistryClient {
  import opened Wrappers
  import opened RegistryNames
  import opened RegistryVersions
  import opened RegistryServer
  import opened LockFile

  /** A dependency table of the manifest that names a registry; `registry` is normalised and `path` has its
      default filled in. */
  datatype Dependency = Dependency(
    name: string, registry: string, package: Option<string>, path: string, versionReq: Option<string>)

  const MAX_METADATA_BYTES: nat := 2 * 1024 * 1024

  datatype PackageMetadata = PackageMetadata(name: string, latest: Option<string>, versions: seq<StoredVersion>)

  datatype ClientError =
    | BadManifest
    | BadLock
    | NoPackage
    | TooLarge
    | BadMetadata
    | LockedVersionMissing
    | NoCandidate
    | LockMismatch
    | BadCache
    | NoArchive
    | BadArchive
    | LockNotWritten

  /** Unpacked packages of the project, by path. */
  type Caches = map<string, Tree>

  datatype Project = Project(caches: Caches, lock: Document)

  // ----- what the server answers -----

  function Served(ops: Semver, memory: Registry, package: string): Option<PackageMetadata> {
    if !ValidPackageName(package) || package !in memory then None
    else
      var stored := memory[package];
      var latest := Latest(ops, stored.versions, None);
      Some(PackageMetadata(
        stored.name,
        if latest.Some? then Some(latest.value.version) else None,
        Sorted(ops, stored.versions)))
  }

  predicate StartsWith(s: string, prefix: string) {
    |s| >= |prefix| && s[..|prefix|] == prefix
  }

  predicate EndsWith(s: string, suffix: string) {
    |s| >= |suffix| && s[|s| - |suffix|..] == suffix
  }

  /** The artifact route, asked for an archive; other files are served under another media type, and
      longer ones are refused by the client. */
  function FetchedArchive(files: Files, path: string): Option<Content> {
    if StartsWith(path, "artifacts/") && ValidRelativePath(path) && path in files && EndsWith(path, ".tar.gz")
       && files[path].size <= MAX_ARCHIVE_BYTES
    then Some(files[path]) else None
  }

  // ----- what the client accepts -----

  predicate IsLetter(c: char) {
    'a' <= c <= 'z' || 'A' <= c <= 'Z'
  }

  predicate HasUrlScheme(value: string) {
    exists i | 0 < i < |value| ::
      && value[i] == ':'
      && IsLetter(value[0])
      && forall j | 0 < j < i :: IsAlphanumeric(value[j]) || value[j] in {'+', '-', '.'}
  }

  predicate AcceptsPath(path: string) {
    && path != [] && !HasUrlScheme(path) && path[0] != '/' && '\\' !in path
    && forall s | s in Split(path) :: s != [] && s != "." && s != ".."
  }

  predicate AcceptsPair(path: Option<string>, integrity: Option<string>) {
    && path.Some? == integrity.Some?
    && (path.Some? ==> AcceptsPath(path.value) && ValidIntegrity(integrity.value))
  }

  predicate AcceptsProvenance(provenance: Provenance) {
    && AcceptsPair(provenance.attestationPath, provenance.attestationIntegrity)
    && AcceptsPair(provenance.signaturePath, provenance.signatureIntegrity)
    && (provenance.signatureKind.Some? ==>
          ValidSignatureKind(provenance.signatureKind.value) && provenance.signaturePath.Some?)
  }

  predicate AcceptsVersion(ops: Semver, v: StoredVersion) {
    && ops.valid(v.version)
    && AcceptsPath(v.archivePath)
    && ValidIntegrity(v.archiveIntegrity)
    && ValidIntegrity(v.packageIntegrity)
    && v.mediaType == ARCHIVE_MEDIA_TYPE
    && (v.provenance.Some? ==> AcceptsProvenance(v.provenance.value))
  }

  predicate AcceptsMetadata(ops: Semver, metadata: PackageMetadata, expected: string) {
    && ValidPackageName(metadata.name)
    && metadata.name == expected
    && (metadata.latest.Some? ==> ops.valid(metadata.latest.value))
    && Distinct(metadata.versions)
    && forall v | v in metadata.versions :: AcceptsVersion(ops, v)
  }

  /** `load_package`; `size` is the length of the response. */
  function LoadedPackage(ops: Semver, size: PackageMetadata -> nat, memory: Registry, package: string)
    : Result<PackageMetadata, ClientError>
  {
    var metadata := Served(ops, memory, package);
    if metadata.None? then Err(NoPackage)
    else if size(metadata.value) > MAX_METADATA_BYTES then Err(TooLarge)
    else if !AcceptsMetadata(ops, metadata.value, package) then Err(BadMetadata)
    else Ok(metadata.value)
  }

  // ----- the manifest -----

  predicate ValidManifest(ops: Semver, dep: Dependency) {
    && IsSegment(dep.name)
    && (dep.package.Some? ==> ValidPackageName(dep.package.value))
    && (dep.versionReq.Some? ==> ops.validReq(dep.versionReq.value))
  }

  function Source(registry: string, package: string): string {
    "registry+" + registry + "#" + package
  }

  function SpecOf(dep: Dependency): DependencySpec {
    var package := if dep.package.Some? then dep.package.value else dep.name;
    DependencySpec(
      dep.name,
      if dep.package == Some(dep.name) then None else dep.package,
      Source(dep.registry, package), dep.path, None, None, None, Some(dep.registry), dep.versionReq,
      None, None, None, None, None, None)
  }

  function RegistryPackageName(spec: DependencySpec): string {
    if spec.package.Some? then spec.package.value else spec.name
  }

  /** The registry becomes the base address that discovery gave. */
  function Refreshed(spec: DependencySpec, base: string): DependencySpec {
    if spec.registry == Some(base) then spec
    else spec.(registry := Some(base), source := Source(base, RegistryPackageName(spec)))
  }

  // ----- choosing a version -----

  function LatestOf(ops: Semver, metadata: PackageMetadata, spec: DependencySpec): Result<StoredVersion, ClientError> {
    var latest := LatestBySorting(ops, metadata.versions, spec.versionReq);
    if latest.Some? then Ok(latest.value) else Err(NoCandidate)
  }

  function Selected(ops: Semver, metadata: PackageMetadata, spec: DependencySpec, locked: Option<LockedPackage>)
    : Result<StoredVersion, ClientError>
  {
    if locked.Some? && locked.value.packageVersion.Some?
       && (spec.versionReq.Some? ==> ops.matches(spec.versionReq.value, locked.value.packageVersion.value)) then
      var found := Find(metadata.versions, locked.value.packageVersion.value);
      if found.Some? then Ok(found.value) else Err(LockedVersionMissing)
    else LatestOf(ops, metadata, spec)
  }

  function AttestationIntegrity(v: StoredVersion): Option<string> {
    if v.provenance.Some? then v.provenance.value.attestationIntegrity else None
  }

  function SignatureIntegrity(v: StoredVersion): Option<string> {
    if v.provenance.Some? then v.provenance.value.signatureIntegrity else None
  }

  function SignatureKind(v: StoredVersion): Option<string> {
    if v.provenance.Some? then v.provenance.value.signatureKind else None
  }

  /** A lock entry for this very version must agree with the registry in every field. */
  predicate AgreesWithLock(spec: DependencySpec, locked: Option<LockedPackage>, v: StoredVersion) {
    locked.Some? && locked.value.packageVersion == Some(v.version) ==>
      var lock := locked.value;
      && lock.source == spec.source
      && lock.registry == spec.registry
      && lock.package == spec.package
      && lock.archiveIntegrity == Some(v.archiveIntegrity)
      && lock.integrity == Some(v.packageIntegrity)
      && lock.provenance == AttestationIntegrity(v)
      && lock.signature == SignatureIntegrity(v)
      && lock.signatureKind == SignatureKind(v)
  }

  // ----- the package itself -----

  /** `found` is the hash the client gets for the tree. */
  predicate IsPackage(tree: Tree, found: string, package: string, v: StoredVersion) {
    found == v.packageIntegrity && tree.name == Some(package) && tree.version == Some(v.version)
  }

  /** The caches afterwards, and whether the right package is there. A package that unpacks wrongly stays. */
  function Unpacked(files: Files, caches: Caches, path: string, found: string, package: string, v: StoredVersion)
    : (Caches, Result<(), ClientError>)
  {
    if path in caches then (caches, if IsPackage(caches[path], found, package, v) then Ok(()) else Err(BadCache))
    else
      var archive := if AcceptsPath(v.archivePath) then FetchedArchive(files, v.archivePath) else None;
      if archive.None? then (caches, Err(NoArchive))
      else if archive.value.integrity != v.archiveIntegrity then (caches, Err(BadArchive))
      else
        var tree := archive.value.tree;
        (caches[path := tree],
         if archive.value.unpacks && IsPackage(tree, found, package, v) then Ok(()) else Err(BadArchive))
  }

  function Filled(spec: DependencySpec, v: StoredVersion): DependencySpec {
    spec.(
      packageVersion := Some(v.version),
      archiveIntegrity := Some(v.archiveIntegrity),
      integrity := Some(v.packageIntegrity),
      provenance := AttestationIntegrity(v),
      signature := SignatureIntegrity(v),
      signatureKind := SignatureKind(v))
  }

  /** The version that is right for a dependency, by the server's answer and the lock entry. */
  function Resolved(ops: Semver, size: PackageMetadata -> nat, memory: Registry, spec: DependencySpec,
                    locked: Option<LockedPackage>)
    : Result<StoredVersion, ClientError>
  {
    var metadata := LoadedPackage(ops, size, memory, RegistryPackageName(spec));
    if metadata.Err? then Err(metadata.error)
    else
      var v := Selected(ops, metadata.value, spec, locked);
      if v.Ok? && !AgreesWithLock(spec, locked, v.value) then Err(LockMismatch) else v
  }

  datatype Install = Install(project: Project, result: Result<DependencySpec, ClientError>)

  /** One dependency of `rco install`: `found` is the hash of the cached or unpacked tree. */
  function Installed(ops: Semver, size: PackageMetadata -> nat, memory: Registry, files: Files, base: string,
                     project: Project, dep: Dependency, found: string)
    : Install
  {
    if !ValidManifest(ops, dep) then Install(project, Err(BadManifest))
    else
      var locked := Locked(ops, project.lock, dep.name);
      if locked.Err? then Install(project, Err(BadLock))
      else
        var spec := Refreshed(SpecOf(dep), base);
        var v := Resolved(ops, size, memory, spec, locked.value);
        if v.Err? then Install(project, Err(v.error))
        else
          var (caches, checked) := Unpacked(files, project.caches, dep.path, found, RegistryPackageName(spec), v.value);
          if checked.Err? then Install(project.(caches := caches), Err(checked.error))
          else
            var filled := Filled(spec, v.value);
            var lock := Edited(ops, project.lock, filled);
            if lock.None? then Install(project.(caches := caches), Err(LockNotWritten))
            else Install(Project(caches, lock.value), Ok(filled))
  }
}
