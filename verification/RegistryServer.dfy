/** The hosted registry server: a package map in memory, its copy on disk, the artifact files, and the
    table of remembered responses. A request is checked and looked up first (`Begin`) and carried out
    later, in one section under the registry lock (`Commit`), so requests interleave between the two. */
module RegistryServer {
  import opened Wrappers
  import opened RegistryNames
  import opened RegistryVersions
  import opened RegistryIdempotency

  const PROTOCOL := "ricochet-hosted-registry-v1"
  const ARCHIVE_MEDIA_TYPE := "application/vnd.ricochet.package.archive.v1+gzip"

  const MAX_ARCHIVE_BYTES: nat := 128 * 1024 * 1024

  /** An unpacked package: what its tree can hash to, depending on the order in which its directories are
      listed, and what its manifest says. */
  datatype Tree = Tree(integrities: set<string>, name: Option<string>, version: Option<string>)

  /** The tree is that of the package, and one of its hashes is the integrity. */
  predicate HoldsPackage(tree: Tree, package: string, version: string, integrity: string) {
    integrity in tree.integrities && tree.name == Some(package) && tree.version == Some(version)
  }

  /** A byte string as the registry sees it: its length and integrity, what it unpacks to, as far as it unpacks,
      and whether it unpacks to the end. */
  datatype Content = Content(size: nat, integrity: string, tree: Tree, unpacks: bool)

  datatype Metadata = Metadata(
    protocol: string,
    package: string,
    version: string,
    packageIntegrity: string,
    archiveIntegrity: string,
    provenanceIntegrity: Option<string>,
    signatureIntegrity: Option<string>,
    signatureKind: Option<string>)

  /** `found` is the hash the server gets when it unpacks the archive to check it. */
  datatype Upload = Upload(
    metadata: Metadata,
    archive: Content,
    found: string,
    provenance: Option<Content>,
    signature: Option<Content>,
    digest: string)

  datatype Action = Publish(upload: Upload) | Yank

  /** A request of an authenticated publisher. */
  datatype Request = Request(
    key: string, tokenHash: string, publisher: string, package: string, version: string, action: Action)

  datatype StoredPackage = StoredPackage(name: string, versions: seq<StoredVersion>)

  type Registry = map<string, StoredPackage>
  type Files = map<string, Content>

  datatype Added = Added(package: string, version: string)

  /** `added` is the history of versions entered into the memory map, for the theorems. */
  datatype Server = Server(
    memory: Registry,
    disk: Option<Registry>,
    files: Files,
    records: Records,
    pending: seq<Request>,
    added: seq<Added>)

  /** The operation on the file system that fails while a request is carried out. */
  datatype Fault = NoFault | ArchiveWrite | ProvenanceWrite | SignatureWrite | Save

  datatype Step =
    | Begin(request: Request)
    | Commit(index: nat, fault: Fault, now: string, nowMs: int)
    | Restart

  function Empty(): Server {
    Server(map[], None, map[], map[], [], [])
  }

  // ----- checks before anything is looked up -----

  /** An optional part and its integrity come together, and agree. */
  predicate ValidPart(part: Option<Content>, integrity: Option<string>) {
    && part.Some? == integrity.Some?
    && (part.Some? ==> ValidIntegrity(integrity.value) && part.value.integrity == integrity.value)
  }

  predicate ValidUpload(package: string, version: string, upload: Upload) {
    var metadata := upload.metadata;
    && metadata.protocol == PROTOCOL
    && metadata.package == package
    && metadata.version == version
    && ValidIntegrity(metadata.archiveIntegrity)
    && ValidIntegrity(metadata.packageIntegrity)
    && upload.archive.integrity == metadata.archiveIntegrity
    && ValidPart(upload.provenance, metadata.provenanceIntegrity)
    && ValidPart(upload.signature, metadata.signatureIntegrity)
    && (metadata.signatureKind.Some? ==>
          ValidSignatureKind(metadata.signatureKind.value) && metadata.signatureIntegrity.Some?)
    && upload.archive.size <= MAX_ARCHIVE_BYTES
    && upload.archive.unpacks
    && HoldsPackage(upload.archive.tree, package, version, upload.found)
    && upload.found == metadata.packageIntegrity
  }

  predicate ValidRequest(ops: Semver, request: Request) {
    && ValidPackageName(request.package)
    && ops.valid(request.version)
    && (request.action.Publish? ==> ValidUpload(request.package, request.version, request.action.upload))
  }

  /** The integrity of the empty byte string, which stands for the body of a yank. */
  const EMPTY_DIGEST := "sha256:e3b0c44298fc1c149afbf4c8996fb92427ae41e4649b934ca495991b7852b855"

  function FingerprintOf(request: Request): Fingerprint {
    var path := "/v1/packages/" + request.package + "/versions/" + request.version;
    match request.action
    case Publish(upload) => Fingerprint(request.tokenHash, "PUT", path, upload.digest)
    case Yank => Fingerprint(request.tokenHash, "POST", path + "/yank", EMPTY_DIGEST)
  }

  /** The answer before the registry lock is taken; None lets the request through. */
  function EarlyAnswer(ops: Semver, records: Records, request: Request): Option<Response> {
    if !ValidRequest(ops, request) then Some(BadRequest)
    else Replay(records, request.key, FingerprintOf(request))
  }

  // ----- publishing -----

  function ArchivePath(package: string, version: string): string {
    ArtifactPath(package, version, ArchiveLeaf(package, version))
  }

  function PackageEntry(registry: Registry, package: string): StoredPackage {
    if package in registry then registry[package] else StoredPackage(package, [])
  }

  function Body(ops: Semver, package: StoredPackage): Response {
    var latest := Latest(ops, package.versions, None);
    PackageBody(package.name, if latest.Some? then Some(latest.value.version) else None, package.versions)
  }

  /** Files are created, never overwritten: a path that is taken is a failure. */
  function WriteNew(files: Files, path: string, content: Content, fails: bool): Option<Files> {
    if fails || path in files then None else Some(files[path := content])
  }

  datatype Written = Written(files: Files, provenance: Result<Option<Provenance>, ()>)

  function WriteArtifacts(files: Files, package: string, version: string, upload: Upload, fault: Fault): Written {
    var metadata := upload.metadata;
    if upload.provenance.None? && upload.signature.None? && metadata.signatureKind.None? then
      Written(files, Ok(None))
    else
      var attestation := ArtifactPath(package, version, "provenance.attestation");
      var signature := ArtifactPath(package, version, "signature.sig");
      var files1 :=
        if upload.provenance.None? then Some(files)
        else WriteNew(files, attestation, upload.provenance.value, fault == ProvenanceWrite);
      if files1.None? then Written(files, Err(()))
      else
        var files2 :=
          if upload.signature.None? then files1
          else WriteNew(files1.value, signature, upload.signature.value, fault == SignatureWrite);
        if files2.None? then Written(files1.value, Err(()))
        else Written(files2.value, Ok(Some(Provenance(
          if upload.provenance.Some? then Some(attestation) else None,
          if upload.provenance.Some? then metadata.provenanceIntegrity else None,
          if upload.signature.Some? then Some(signature) else None,
          if upload.signature.Some? then metadata.signatureIntegrity else None,
          metadata.signatureKind))))
  }

  function NewVersion(request: Request, provenance: Option<Provenance>, now: string): StoredVersion
    requires request.action.Publish?
  {
    var metadata := request.action.upload.metadata;
    StoredVersion(
      request.version, now, false,
      ArchivePath(request.package, request.version), metadata.archiveIntegrity, ARCHIVE_MEDIA_TYPE,
      metadata.packageIntegrity, provenance, Some(request.publisher), None, None)
  }

  /** The archive, then the optional artifacts; what was written before a failure stays. */
  function WriteUpload(files: Files, package: string, version: string, upload: Upload, fault: Fault): Written {
    var archived := WriteNew(files, ArchivePath(package, version), upload.archive, fault == ArchiveWrite);
    if archived.None? then Written(files, Err(()))
    else WriteArtifacts(archived.value, package, version, upload, fault)
  }

  /** How a section ends: the new state, the response, and whether the response is remembered. */
  datatype Outcome = Outcome(server: Server, response: Response, remembered: bool)

  function Listing(ops: Semver, entry: StoredPackage, v: StoredVersion): StoredPackage {
    StoredPackage(entry.name, Sorted(ops, entry.versions + [v]))
  }

  function PublishSection(ops: Semver, s: Server, request: Request, fault: Fault, now: string): Outcome
    requires request.action.Publish?
  {
    var upload := request.action.upload;
    var entry := PackageEntry(s.memory, request.package);
    var entered := s.(memory := s.memory[request.package := entry]);
    if Find(entry.versions, request.version).Some? then Outcome(entered, VersionExists, true)
    else
      var written := WriteUpload(s.files, request.package, request.version, upload, fault);
      if written.provenance.Err? then Outcome(entered.(files := written.files), InternalError, false)
      else
        var package := Listing(ops, entry, NewVersion(request, written.provenance.value, now));
        var listed := entered.(
          memory := s.memory[request.package := package],
          files := written.files,
          added := s.added + [Added(request.package, request.version)]);
        if fault == Save then Outcome(listed, InternalError, false)
        else Outcome(listed.(disk := Some(listed.memory)), Body(ops, package), true)
  }

  // ----- yanking -----

  function Marked(v: StoredVersion, publisher: string, now: string): StoredVersion {
    if v.yanked then v else v.(yanked := true, yankedAt := Some(now), yankedBy := Some(publisher))
  }

  /** The first entry for the version is marked. */
  function MarkYanked(versions: seq<StoredVersion>, version: string, publisher: string, now: string): (r: seq<StoredVersion>)
    ensures |r| == |versions|
    ensures forall i | 0 <= i < |r| :: r[i] == versions[i] || r[i] == Marked(versions[i], publisher, now)
  {
    if versions == [] then []
    else if versions[0].version == version then [Marked(versions[0], publisher, now)] + versions[1..]
    else [versions[0]] + MarkYanked(versions[1..], version, publisher, now)
  }

  function YankSection(ops: Semver, s: Server, request: Request, fault: Fault, now: string): Outcome {
    if request.package !in s.memory then Outcome(s, NotFound, false)
    else
      var entry := s.memory[request.package];
      var found := Find(entry.versions, request.version);
      if found.None? then Outcome(s, NotFound, false)
      else
        var package := entry.(versions := MarkYanked(entry.versions, request.version, request.publisher, now));
        var marked := s.(memory := s.memory[request.package := package]);
        if found.value.yanked then Outcome(marked, Body(ops, package), true)
        else if fault == Save then Outcome(marked, InternalError, false)
        else Outcome(marked.(disk := Some(marked.memory)), Body(ops, package), true)
  }

  // ----- steps -----

  function Section(ops: Semver, s: Server, request: Request, fault: Fault, now: string): Outcome {
    if request.action.Publish? then PublishSection(ops, s, request, fault, now)
    else YankSection(ops, s, request, fault, now)
  }

  /** The section, and the response into the table when it is one to remember. */
  ghost function CarryOut(ops: Semver, s: Server, request: Request, fault: Fault, now: string, nowMs: int): (Server, Response) {
    var outcome := Section(ops, s, request, fault, now);
    if outcome.remembered then
      var record := Record(FingerprintOf(request), nowMs, outcome.response);
      (outcome.server.(records := Stored(s.records, request.key, record)), outcome.response)
    else (outcome.server, outcome.response)
  }

  predicate LoaderAcceptsPair(path: Option<string>, integrity: Option<string>) {
    && path.Some? == integrity.Some?
    && (path.Some? ==> ValidRelativePath(path.value) && ValidIntegrity(integrity.value))
  }

  predicate LoaderAcceptsProvenance(provenance: Provenance) {
    && LoaderAcceptsPair(provenance.attestationPath, provenance.attestationIntegrity)
    && LoaderAcceptsPair(provenance.signaturePath, provenance.signatureIntegrity)
    && (provenance.signatureKind.Some? ==>
          ValidSignatureKind(provenance.signatureKind.value) && provenance.signaturePath.Some?)
  }

  predicate LoaderAcceptsVersion(ops: Semver, v: StoredVersion) {
    && ops.valid(v.version)
    && ValidRelativePath(v.archivePath)
    && ValidIntegrity(v.archiveIntegrity)
    && ValidIntegrity(v.packageIntegrity)
    && v.mediaType == ARCHIVE_MEDIA_TYPE
    && (v.provenance.Some? ==> LoaderAcceptsProvenance(v.provenance.value))
  }

  predicate LoaderAcceptsPackage(ops: Semver, name: string, package: StoredPackage) {
    && ValidPackageName(name)
    && package.name == name
    && Distinct(package.versions)
    && forall v | v in package.versions :: LoaderAcceptsVersion(ops, v)
  }

  predicate LoaderAccepts(ops: Semver, registry: Registry) {
    forall name | name in registry :: LoaderAcceptsPackage(ops, name, registry[name])
  }

  /** What a starting server has in memory; None when it refuses to start. */
  function Loaded(ops: Semver, disk: Option<Registry>): Option<Registry> {
    if disk.None? then Some(map[])
    else if LoaderAccepts(ops, disk.value) then disk
    else None
  }

  /** A crash at any point of a section is a commit with a fault followed by a restart. */
  ghost function Next(ops: Semver, s: Server, step: Step): Server {
    match step
    case Begin(request) =>
      if EarlyAnswer(ops, s.records, request).Some? then s else s.(pending := s.pending + [request])
    case Commit(index, fault, now, nowMs) =>
      if index >= |s.pending| then s
      else
        var rest := s.(pending := s.pending[..index] + s.pending[index + 1..]);
        CarryOut(ops, rest, s.pending[index], fault, now, nowMs).0
    case Restart =>
      var loaded := Loaded(ops, s.disk);
      if loaded.None? then s
      else s.(memory := loaded.value, records := map[], pending := [])
  }

  ghost function Run(ops: Semver, s: Server, steps: seq<Step>): Server
    decreases |steps|
  {
    if steps == [] then s else Run(ops, Next(ops, s, steps[0]), steps[1..])
  }
}
