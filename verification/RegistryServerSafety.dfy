/** What every run of the server keeps, whatever is interleaved, fails midway, or is cut off by a restart. */
module RegistryServerSafety {
  import opened Wrappers
  import opened RegistryNames
  import opened RegistryVersions
  import opened RegistryIdempotency
  import opened RegistryServer

  /** The entry for a package version. */
  function At(registry: Registry, package: string, version: string): Option<StoredVersion> {
    Find(PackageEntry(registry, package).versions, version)
  }

  /** A published version changes in one way only: it is yanked once, which nothing alters later. */
  predicate Becomes(v: StoredVersion, w: StoredVersion) {
    || w == v
    || (!v.yanked && w.yanked && w == v.(yanked := true, yankedAt := w.yankedAt, yankedBy := w.yankedBy))
  }

  ghost predicate Evolves(before: Registry, after: Registry) {
    forall p, ver :: At(before, p, ver).Some? ==>
      At(after, p, ver).Some? && Becomes(At(before, p, ver).value, At(after, p, ver).value)
  }

  predicate Grows(before: Files, after: Files) {
    forall path | path in before :: path in after && after[path] == before[path]
  }

  predicate HasFile(files: Files, path: Option<string>, integrity: Option<string>) {
    path.Some? ==> path.value in files && Some(files[path.value].integrity) == integrity
  }

  /** The files of a version are there, under the paths its entry names, and are what the entry says. */
  predicate Backed(files: Files, package: string, v: StoredVersion) {
    && v.archivePath == ArchivePath(package, v.version)
    && v.archivePath in files
    && files[v.archivePath].integrity == v.archiveIntegrity
    && files[v.archivePath].size <= MAX_ARCHIVE_BYTES
    && files[v.archivePath].unpacks
    && HoldsPackage(files[v.archivePath].tree, package, v.version, v.packageIntegrity)
    && (v.provenance.Some? ==>
          && HasFile(files, v.provenance.value.attestationPath, v.provenance.value.attestationIntegrity)
          && HasFile(files, v.provenance.value.signaturePath, v.provenance.value.signatureIntegrity))
  }

  predicate PackageKept(ops: Semver, files: Files, name: string, package: StoredPackage) {
    && LoaderAcceptsPackage(ops, name, package)
    && Ascend(ops, package.versions)
    && forall v | v in package.versions :: Backed(files, name, v)
  }

  predicate WellKept(ops: Semver, files: Files, registry: Registry) {
    forall name | name in registry :: PackageKept(ops, files, name, registry[name])
  }

  predicate AddedOnce(added: seq<Added>, files: Files) {
    && (forall i, j | 0 <= i < |added| && 0 <= j < |added| && added[i] == added[j] :: i == j)
    && (forall a | a in added :: ArchivePath(a.package, a.version) in files)
  }

  ghost predicate Inv(ops: Semver, s: Server) {
    && WellKept(ops, s.files, s.memory)
    && (s.disk.Some? ==> WellKept(ops, s.files, s.disk.value) && Evolves(s.disk.value, s.memory))
    && (forall request | request in s.pending :: ValidRequest(ops, request))
    && AddedOnce(s.added, s.files)
  }

  // ----- the version list of one package -----

  lemma Pushed(ops: Semver, versions: seq<StoredVersion>, v: StoredVersion)
    requires ops.Lawful() && AllValid(ops, versions) && ops.valid(v.version)
    requires Distinct(versions) && Find(versions, v.version).None?
    ensures var r := Sorted(ops, versions + [v]);
            && Distinct(r) && Ascend(ops, r)
            && (forall x :: x in r <==> x in versions || x == v)
            && (forall ver :: Find(r, ver) == if ver == v.version then Some(v) else Find(versions, ver))
  {
    var all := versions + [v];
    DistinctSnoc(versions, v);
    hide Sorted, Ascend, AllValid, Distinct, Find;
    SortedIsDistinct(ops, all);
    ValidSnoc(ops, versions, v);
    SortedAscends(ops, all);
    var r := Sorted(ops, all);
    assert v in all;
    FindByElement(r, v);
    forall ver | ver != v.version ensures Find(r, ver) == Find(versions, ver) {
      if Find(versions, ver).Some? {
        FindByElement(r, Find(versions, ver).value);
      }
    }
  }

  lemma DistinctSnoc(versions: seq<StoredVersion>, v: StoredVersion)
    requires Distinct(versions) && Find(versions, v.version).None?
    ensures Distinct(versions + [v])
  {
    hide Find;
    assert forall i | 0 <= i < |versions| :: versions[i] in versions;
  }

  lemma ValidSnoc(ops: Semver, versions: seq<StoredVersion>, v: StoredVersion)
    requires AllValid(ops, versions) && ops.valid(v.version)
    ensures AllValid(ops, versions + [v])
  {
  }

  lemma {:induction false} MarkedFound(versions: seq<StoredVersion>, version: string, publisher: string, now: string, ver: string)
    requires Find(versions, version).Some?
    ensures Find(MarkYanked(versions, version, publisher, now), ver)
         == if ver == version then Some(Marked(Find(versions, version).value, publisher, now)) else Find(versions, ver)
  {
    if versions[0].version == version {
      assert ([Marked(versions[0], publisher, now)] + versions[1..])[1..] == versions[1..];
    } else {
      MarkedFound(versions[1..], version, publisher, now, ver);
      var rest := MarkYanked(versions[1..], version, publisher, now);
      assert ([versions[0]] + rest)[1..] == rest;
    }
  }

  lemma MarkedKeepsOrder(ops: Semver, versions: seq<StoredVersion>, version: string, publisher: string, now: string)
    ensures var r := MarkYanked(versions, version, publisher, now);
            && (Distinct(versions) ==> Distinct(r))
            && (Ascend(ops, versions) ==> Ascend(ops, r))
            && (forall x | x in r :: x in versions || exists v | v in versions :: x == Marked(v, publisher, now))
  {
    var r := MarkYanked(versions, version, publisher, now);
    assert forall i | 0 <= i < |r| :: r[i].version == versions[i].version && versions[i] in versions;
  }

  // ----- one package of the map -----

  lemma KeptUpdated(ops: Semver, before: Files, files: Files, registry: Registry, package: string, entry: StoredPackage)
    requires WellKept(ops, before, registry) && Grows(before, files)
    requires PackageKept(ops, files, package, entry)
    ensures WellKept(ops, files, registry[package := entry])
  {
    var updated := registry[package := entry];
    forall name | name in updated ensures PackageKept(ops, files, name, updated[name]) {
      if name != package { PackageKeptByGrowth(ops, before, files, name, registry[name]); }
    }
  }

  lemma PackageKeptByGrowth(ops: Semver, before: Files, files: Files, name: string, package: StoredPackage)
    requires PackageKept(ops, before, name, package) && Grows(before, files)
    ensures PackageKept(ops, files, name, package)
  {
    forall v | v in package.versions ensures Backed(files, name, v) {
      assert Backed(before, name, v);
    }
  }

  lemma KeptByGrowth(ops: Semver, before: Files, files: Files, registry: Registry)
    requires WellKept(ops, before, registry) && Grows(before, files)
    ensures WellKept(ops, files, registry)
  {
    forall name | name in registry ensures PackageKept(ops, files, name, registry[name]) {
      PackageKeptByGrowth(ops, before, files, name, registry[name]);
    }
  }

  lemma EvolvesTransitively(a: Registry, b: Registry, c: Registry)
    requires Evolves(a, b) && Evolves(b, c)
    ensures Evolves(a, c)
  {
    forall p, ver | At(a, p, ver).Some?
      ensures At(c, p, ver).Some? && Becomes(At(a, p, ver).value, At(c, p, ver).value)
    {
      assert At(b, p, ver).Some?;
    }
  }

  lemma EntryKept(ops: Semver, files: Files, registry: Registry, package: string)
    requires WellKept(ops, files, registry) && ValidPackageName(package)
    ensures PackageKept(ops, files, package, PackageEntry(registry, package))
  {
  }

  // ----- the two sections -----

  /** What a section leaves behind, besides the response. */
  ghost predicate Keeps(ops: Semver, s: Server, t: Server) {
    && WellKept(ops, t.files, t.memory) && Grows(s.files, t.files)
    && Evolves(s.memory, t.memory)
    && (t.disk == s.disk || t.disk == Some(t.memory))
    && t.records == s.records && t.pending == s.pending
    && AddedOnce(t.added, t.files) && s.added <= t.added
  }

  lemma Artifacts(ops: Semver, files: Files, request: Request, fault: Fault)
    requires ops.Lawful() && ValidRequest(ops, request) && request.action.Publish?
    ensures var written := WriteArtifacts(files, request.package, request.version, request.action.upload, fault);
            && Grows(files, written.files)
            && (written.provenance.Ok? && written.provenance.value.Some? ==>
                  var provenance := written.provenance.value.value;
                  && LoaderAcceptsProvenance(provenance)
                  && HasFile(written.files, provenance.attestationPath, provenance.attestationIntegrity)
                  && HasFile(written.files, provenance.signaturePath, provenance.signatureIntegrity))
  {
    hide ValidRequest, WriteArtifacts, Grows, ValidPart, IsStored, LoaderAcceptsPair, HasFile, ValidRelativePath,
         ArtifactPath, ValidSignatureKind;
    var upload := request.action.upload;
    ArtifactsWritten(files, request.package, request.version, upload, fault);
    PartsValid(ops, request);
    var written := WriteArtifacts(files, request.package, request.version, upload, fault);
    if written.provenance.Ok? && written.provenance.value.Some? {
      var p, m := written.provenance.value.value, upload.metadata;
      var a := ArtifactPath(request.package, request.version, "provenance.attestation");
      var b := ArtifactPath(request.package, request.version, "signature.sig");
      PairAccepted(written.files, a, upload.provenance, m.provenanceIntegrity, p.attestationPath, p.attestationIntegrity);
      PairAccepted(written.files, b, upload.signature, m.signatureIntegrity, p.signaturePath, p.signatureIntegrity);
    }
  }

  lemma PartsValid(ops: Semver, request: Request)
    requires ops.Lawful() && ValidRequest(ops, request) && request.action.Publish?
    ensures var upload := request.action.upload;
            && ValidPart(upload.provenance, upload.metadata.provenanceIntegrity)
            && ValidPart(upload.signature, upload.metadata.signatureIntegrity)
            && (upload.metadata.signatureKind.Some? ==>
                  ValidSignatureKind(upload.metadata.signatureKind.value) && upload.metadata.signatureIntegrity.Some?)
    ensures ValidRelativePath(ArtifactPath(request.package, request.version, "provenance.attestation"))
    ensures ValidRelativePath(ArtifactPath(request.package, request.version, "signature.sig"))
  {
    hide ValidRelativePath, ArtifactPath, ValidPart, ValidSignatureKind, ValidPackageName, ValidIntegrity, PlainSegment;
    LeavesArePlain();
    ArtifactPathIsValid(ops, request.package, request.version, "provenance.attestation");
    ArtifactPathIsValid(ops, request.package, request.version, "signature.sig");
  }

  lemma LeavesArePlain()
    ensures PlainSegment("provenance.attestation") && PlainSegment("signature.sig")
  {
  }

  lemma PairAccepted(files: Files, path: string, part: Option<Content>, integrity: Option<string>,
                     notedPath: Option<string>, notedIntegrity: Option<string>)
    requires ValidPart(part, integrity) && ValidRelativePath(path)
    requires IsStored(files, path, part, integrity, notedPath, notedIntegrity)
    ensures LoaderAcceptsPair(notedPath, notedIntegrity) && HasFile(files, notedPath, notedIntegrity)
    ensures notedPath.Some? == integrity.Some?
  {
    hide ValidRelativePath, ValidIntegrity;
  }

  /** Which files the artifacts become, and what is noted of them. */
  lemma ArtifactsWritten(files: Files, package: string, version: string, upload: Upload, fault: Fault)
    ensures var written := WriteArtifacts(files, package, version, upload, fault);
            && Grows(files, written.files)
            && (written.provenance.Ok? && written.provenance.value.Some? ==>
                  var provenance := written.provenance.value.value;
                  && provenance.signatureKind == upload.metadata.signatureKind
                  && IsStored(written.files, ArtifactPath(package, version, "provenance.attestation"), upload.provenance,
                              upload.metadata.provenanceIntegrity, provenance.attestationPath,
                              provenance.attestationIntegrity)
                  && IsStored(written.files, ArtifactPath(package, version, "signature.sig"), upload.signature,
                              upload.metadata.signatureIntegrity, provenance.signaturePath, provenance.signatureIntegrity))
  {
    hide ArtifactPath, WriteNew;
    var a := ArtifactPath(package, version, "provenance.attestation");
    var b := ArtifactPath(package, version, "signature.sig");
    if upload.provenance.Some? {
      NewFileIsThere(files, a, upload.provenance.value, fault == ProvenanceWrite);
    }
    if upload.signature.Some? {
      var before := if upload.provenance.None? then Some(files)
                    else WriteNew(files, a, upload.provenance.value, fault == ProvenanceWrite);
      if before.Some? { NewFileIsThere(before.value, b, upload.signature.value, fault == SignatureWrite); }
    }
  }

  /** A part that came with the upload is a file now, and noted with its integrity. */
  predicate IsStored(files: Files, path: string, part: Option<Content>, integrity: Option<string>,
                     notedPath: Option<string>, notedIntegrity: Option<string>)
  {
    if part.None? then notedPath.None? && notedIntegrity.None?
    else notedPath == Some(path) && notedIntegrity == integrity && path in files && files[path] == part.value
  }

  lemma NewFileIsThere(files: Files, path: string, content: Content, fails: bool)
    ensures var written := WriteNew(files, path, content, fails);
            written.Some? ==> Grows(files, written.value) && path in written.value && written.value[path] == content
  {
  }

  lemma Uploaded(ops: Semver, files: Files, request: Request, fault: Fault, now: string)
    requires ops.Lawful() && ValidRequest(ops, request) && request.action.Publish?
    ensures var path := ArchivePath(request.package, request.version);
            var written := WriteUpload(files, request.package, request.version, request.action.upload, fault);
            && Grows(files, written.files)
            && (written.provenance.Ok? ==>
                  var v := NewVersion(request, written.provenance.value, now);
                  && path !in files && path in written.files
                  && LoaderAcceptsVersion(ops, v) && Backed(written.files, request.package, v))
  {
    var archived := files[ArchivePath(request.package, request.version) := request.action.upload.archive];
    Artifacts(ops, archived, request, fault);
    ArchiveLeafIsPlain(ops, request.package, request.version);
    ArtifactPathIsValid(ops, request.package, request.version, ArchiveLeaf(request.package, request.version));
    hide ValidRelativePath, ArtifactPath, ValidIntegrity, ValidSignatureKind, ValidPackageName, WriteArtifacts, ArchiveLeaf;
  }

  lemma PublishedPackage(ops: Semver, before: Files, files: Files, name: string, package: StoredPackage, v: StoredVersion)
    requires ops.Lawful() && PackageKept(ops, before, name, package) && Grows(before, files)
    requires LoaderAcceptsVersion(ops, v) && Backed(files, name, v) && Find(package.versions, v.version).None?
    ensures PackageKept(ops, files, name, Listing(ops, package, v))
  {
    PackageKeptByGrowth(ops, before, files, name, package);
    assert AllValid(ops, package.versions) && ops.valid(v.version);
    hide LoaderAcceptsVersion, Backed, ValidPackageName;
    Pushed(ops, package.versions, v);
  }

  lemma EnteredEvolves(registry: Registry, package: string)
    ensures Evolves(registry, registry[package := PackageEntry(registry, package)])
  {
  }

  lemma PublishKeeps(ops: Semver, s: Server, request: Request, fault: Fault, now: string)
    requires ops.Lawful() && WellKept(ops, s.files, s.memory) && AddedOnce(s.added, s.files)
    requires ValidRequest(ops, request) && request.action.Publish?
    ensures Keeps(ops, s, PublishSection(ops, s, request, fault, now).server)
  {
    hide WellKept, Evolves, WriteUpload, ValidRequest, PackageKept, PackageEntry, Find, Body, AddedOnce, NewVersion,
         Listing, Grows;
    var entry := PackageEntry(s.memory, request.package);
    EntryEnters(ops, s, request);
    GrowsToItself(s.files);
    if Find(entry.versions, request.version).None? {
      var written := WriteUpload(s.files, request.package, request.version, request.action.upload, fault);
      UploadGrows(ops, s.files, request, fault, now);
      KeptByGrowth(ops, s.files, written.files, s.memory[request.package := entry]);
      AddedKept(s.added, s.files, written.files);
      ListedKeeps(ops, s, request, fault, now);
    }
  }

  lemma GrowsToItself(files: Files)
    ensures Grows(files, files)
  {
  }

  lemma UploadGrows(ops: Semver, files: Files, request: Request, fault: Fault, now: string)
    requires ops.Lawful() && ValidRequest(ops, request) && request.action.Publish?
    ensures Grows(files, WriteUpload(files, request.package, request.version, request.action.upload, fault).files)
  {
    Uploaded(ops, files, request, fault, now);
    hide *;
  }

  /** A package that is entered empty changes nothing that is served. */
  lemma EntryEnters(ops: Semver, s: Server, request: Request)
    requires WellKept(ops, s.files, s.memory) && ValidRequest(ops, request)
    ensures var memory := s.memory[request.package := PackageEntry(s.memory, request.package)];
            WellKept(ops, s.files, memory) && Evolves(s.memory, memory)
  {
    var entry := PackageEntry(s.memory, request.package);
    EntryKept(ops, s.files, s.memory, request.package);
    hide PackageKept, PackageEntry, WellKept;
    KeptUpdated(ops, s.files, s.files, s.memory, request.package, entry);
    EnteredEvolves(s.memory, request.package);
  }

  lemma ListedKeeps(ops: Semver, s: Server, request: Request, fault: Fault, now: string)
    requires ops.Lawful() && WellKept(ops, s.files, s.memory) && AddedOnce(s.added, s.files)
    requires ValidRequest(ops, request) && request.action.Publish?
    requires At(s.memory, request.package, request.version).None?
    ensures var written := WriteUpload(s.files, request.package, request.version, request.action.upload, fault);
            written.provenance.Ok? ==>
              var v := NewVersion(request, written.provenance.value, now);
              var memory := s.memory[request.package := Listing(ops, PackageEntry(s.memory, request.package), v)];
              && WellKept(ops, written.files, memory)
              && Evolves(s.memory, memory)
              && AddedOnce(s.added + [Added(request.package, request.version)], written.files)
  {
    var entry := PackageEntry(s.memory, request.package);
    var written := WriteUpload(s.files, request.package, request.version, request.action.upload, fault);
    Uploaded(ops, s.files, request, fault, now);
    EntryKept(ops, s.files, s.memory, request.package);
    if written.provenance.Ok? {
      var v := NewVersion(request, written.provenance.value, now);
      hide ArchivePath, WriteUpload, PackageKept, PackageEntry, LoaderAcceptsVersion, Backed, WellKept, Listing;
      PublishedPackage(ops, s.files, written.files, request.package, entry, v);
      PublishedEvolves(ops, s.files, s.memory, request.package, v);
      KeptUpdated(ops, s.files, written.files, s.memory, request.package, Listing(ops, entry, v));
      AddedAgain(s, request, written.files);
    }
  }

  lemma PublishedEvolves(ops: Semver, files: Files, registry: Registry, package: string, v: StoredVersion)
    requires ops.Lawful() && ValidPackageName(package) && WellKept(ops, files, registry) && ops.valid(v.version)
    requires At(registry, package, v.version).None?
    ensures var updated := registry[package := Listing(ops, PackageEntry(registry, package), v)];
            forall p, ver :: At(updated, p, ver) == if p == package && ver == v.version then Some(v) else At(registry, p, ver)
  {
    var entry := PackageEntry(registry, package);
    EntryKept(ops, files, registry, package);
    assert AllValid(ops, entry.versions);
    Pushed(ops, entry.versions, v);
  }

  lemma AddedKept(added: seq<Added>, before: Files, files: Files)
    requires AddedOnce(added, before) && Grows(before, files)
    ensures AddedOnce(added, files)
  {
  }

  lemma AddedAgain(s: Server, request: Request, files: Files)
    requires AddedOnce(s.added, s.files) && Grows(s.files, files)
    requires ArchivePath(request.package, request.version) !in s.files
    requires ArchivePath(request.package, request.version) in files
    ensures AddedOnce(s.added + [Added(request.package, request.version)], files)
  {
    assert Added(request.package, request.version) !in s.added;
  }

  lemma YankedEvolves(registry: Registry, package: string, version: string, publisher: string, now: string)
    requires At(registry, package, version).Some?
    ensures var entry := PackageEntry(registry, package);
            var updated := registry[package := entry.(versions := MarkYanked(entry.versions, version, publisher, now))];
            forall p, ver :: At(updated, p, ver)
                          == if p == package && ver == version then Some(Marked(At(registry, p, ver).value, publisher, now))
                             else At(registry, p, ver)
  {
    var entry := PackageEntry(registry, package);
    forall ver { MarkedFound(entry.versions, version, publisher, now, ver); }
  }

  lemma YankedEntryKeeps(ops: Semver, files: Files, registry: Registry, package: string, version: string,
                         publisher: string, now: string)
    requires WellKept(ops, files, registry) && At(registry, package, version).Some?
    ensures var entry := registry[package];
            var updated := registry[package := entry.(versions := MarkYanked(entry.versions, version, publisher, now))];
            WellKept(ops, files, updated) && Evolves(registry, updated)
  {
    var entry := registry[package];
    var marked := entry.(versions := MarkYanked(entry.versions, version, publisher, now));
    YankedEvolves(registry, package, version, publisher, now);
    assert PackageKept(ops, files, package, entry);
    hide PackageKept, MarkYanked;
    MarkedIsKept(ops, files, package, entry, version, publisher, now);
    KeptUpdated(ops, files, files, registry, package, marked);
  }

  lemma YankKeeps(ops: Semver, s: Server, request: Request, fault: Fault, now: string)
    requires WellKept(ops, s.files, s.memory) && AddedOnce(s.added, s.files)
    ensures Keeps(ops, s, YankSection(ops, s, request, fault, now).server)
  {
    hide WellKept, Evolves, AddedOnce, MarkYanked, Find, Body;
    EvolvesToItself(s.memory);
    if request.package in s.memory && Find(s.memory[request.package].versions, request.version).Some? {
      YankedEntryKeeps(ops, s.files, s.memory, request.package, request.version, request.publisher, now);
    }
  }

  lemma MarkedIsKept(ops: Semver, files: Files, name: string, package: StoredPackage,
                     version: string, publisher: string, now: string)
    requires PackageKept(ops, files, name, package)
    ensures PackageKept(ops, files, name, package.(versions := MarkYanked(package.versions, version, publisher, now)))
  {
    var versions := MarkYanked(package.versions, version, publisher, now);
    MarkedKeepsOrder(ops, package.versions, version, publisher, now);
    forall x | x in versions ensures LoaderAcceptsVersion(ops, x) && Backed(files, name, x) {
      if x !in package.versions {
        var v :| v in package.versions && x == Marked(v, publisher, now);
        assert LoaderAcceptsVersion(ops, v) && Backed(files, name, v);
      }
    }
  }

  // ----- steps and runs -----

  lemma SectionKeeps(ops: Semver, s: Server, request: Request, fault: Fault, now: string)
    requires ops.Lawful() && WellKept(ops, s.files, s.memory) && AddedOnce(s.added, s.files) && ValidRequest(ops, request)
    ensures Keeps(ops, s, Section(ops, s, request, fault, now).server)
  {
    if request.action.Publish? {
      PublishKeeps(ops, s, request, fault, now);
    } else {
      YankKeeps(ops, s, request, fault, now);
    }
  }

  /** What is on the disk only evolves, restarts included; so does what is in memory, until a restart. */
  ghost predicate Persists(s: Server, t: Server) {
    && Grows(s.files, t.files)
    && s.added <= t.added
    && (s.disk.Some? ==> t.disk.Some? && Evolves(s.disk.value, t.disk.value))
  }

  lemma NextKeepsInv(ops: Semver, s: Server, step: Step)
    requires ops.Lawful() && Inv(ops, s)
    ensures Inv(ops, Next(ops, s, step)) && Persists(s, Next(ops, s, step))
    ensures !step.Restart? ==> Evolves(s.memory, Next(ops, s, step).memory)
  {
    hide WellKept, Evolves, AddedOnce, ValidRequest, Section, Replay, FingerprintOf, CarryOut;
    NothingKeepsInv(ops, s);
    match step
    case Begin(request) =>
    case Commit(index, fault, now, nowMs) =>
      if index < |s.pending| { CommitKeepsInv(ops, s, index, fault, now, nowMs); }
    case Restart =>
      RestartKeepsInv(ops, s);
  }

  lemma NothingKeepsInv(ops: Semver, s: Server)
    requires Inv(ops, s)
    ensures Persists(s, s) && Evolves(s.memory, s.memory)
  {
    hide Evolves;
    if s.disk.Some? { EvolvesToItself(s.disk.value); }
    EvolvesToItself(s.memory);
  }

  lemma CommitKeepsInv(ops: Semver, s: Server, index: nat, fault: Fault, now: string, nowMs: int)
    requires ops.Lawful() && Inv(ops, s) && index < |s.pending|
    ensures var rest := s.(pending := s.pending[..index] + s.pending[index + 1..]);
            var t := CarryOut(ops, rest, s.pending[index], fault, now, nowMs).0;
            Inv(ops, t) && Persists(s, t) && Evolves(s.memory, t.memory)
  {
    hide WellKept, Evolves, AddedOnce, ValidRequest, Section, FingerprintOf;
    var request, rest := s.pending[index], s.pending[..index] + s.pending[index + 1..];
    assert request in s.pending && forall r | r in rest :: r in s.pending;
    var before := s.(pending := rest);
    SectionKeeps(ops, before, request, fault, now);
    SectionKeepsInv(ops, s, rest, Section(ops, before, request, fault, now).server);
  }

  lemma EvolvesToItself(registry: Registry)
    ensures Evolves(registry, registry)
  {
  }

  lemma SectionKeepsInv(ops: Semver, s: Server, rest: seq<Request>, t: Server)
    requires ops.Lawful() && Inv(ops, s) && forall r | r in rest :: r in s.pending
    requires Keeps(ops, s.(pending := rest), t)
    ensures Inv(ops, t) && Persists(s, t) && Evolves(s.memory, t.memory)
  {
    hide WellKept, Evolves, AddedOnce, ValidRequest, Grows;
    EvolvesToItself(t.memory);
    if s.disk.Some? {
      EvolvesToItself(s.disk.value);
      KeptByGrowth(ops, s.files, t.files, s.disk.value);
      EvolvesTransitively(s.disk.value, s.memory, t.memory);
    }
  }

  lemma RestartKeepsInv(ops: Semver, s: Server)
    requires Inv(ops, s)
    ensures Inv(ops, Next(ops, s, Restart)) && Persists(s, Next(ops, s, Restart))
  {
    if s.disk.Some? { EvolvesToItself(s.disk.value); }
  }

  lemma EmptyHoldsInv(ops: Semver)
    ensures Inv(ops, Empty())
  {
  }

  lemma PersistsTransitively(a: Server, b: Server, c: Server)
    requires Persists(a, b) && Persists(b, c)
    ensures Persists(a, c)
  {
    if a.disk.Some? { EvolvesTransitively(a.disk.value, b.disk.value, c.disk.value); }
  }

  /** The registry over every run of begun, committed, failing and interrupted requests. */
  lemma {:induction false} RunKeepsInv(ops: Semver, s: Server, steps: seq<Step>)
    requires ops.Lawful() && Inv(ops, s)
    ensures Inv(ops, Run(ops, s, steps)) && Persists(s, Run(ops, s, steps))
    decreases |steps|
  {
    hide Inv, Next;
    if steps == [] {
      if s.disk.Some? { EvolvesToItself(s.disk.value); }
    } else {
      NextKeepsInv(ops, s, steps[0]);
      RunKeepsInv(ops, Next(ops, s, steps[0]), steps[1..]);
      hide Persists;
      PersistsTransitively(s, Next(ops, s, steps[0]), Run(ops, s, steps));
    }
  }

  predicate NoRestart(steps: seq<Step>) {
    forall step | step in steps :: !step.Restart?
  }

  /** Published releases are immutable: between restarts, what is in memory only ever gets yanked. */
  lemma {:induction false} ReleasesAreImmutable(ops: Semver, s: Server, steps: seq<Step>)
    requires ops.Lawful() && Inv(ops, s) && NoRestart(steps)
    ensures Evolves(s.memory, Run(ops, s, steps).memory)
    decreases |steps|
  {
    hide Inv, Next;
    if steps == [] {
      EvolvesToItself(s.memory);
    } else {
      hide Evolves;
      NextKeepsInv(ops, s, steps[0]);
      ReleasesAreImmutable(ops, Next(ops, s, steps[0]), steps[1..]);
      EvolvesTransitively(s.memory, Next(ops, s, steps[0]).memory, Run(ops, s, steps).memory);
    }
  }

  /** Whatever happened before, a saved state loads again, and is what the server then serves. */
  lemma SavedStateLoads(ops: Semver, steps: seq<Step>)
    requires ops.Lawful()
    ensures var s := Run(ops, Empty(), steps);
            && Loaded(ops, s.disk).Some?
            && Next(ops, s, Restart).memory == (if s.disk.None? then map[] else s.disk.value)
  {
    EmptyHoldsInv(ops);
    RunKeepsInv(ops, Empty(), steps);
  }

  /** No interleaving, failure or restart lets a package version be entered a second time. */
  lemma EachVersionIsAddedOnce(ops: Semver, steps: seq<Step>, i: nat, j: nat)
    requires ops.Lawful()
    requires var added := Run(ops, Empty(), steps).added;
             i < |added| && j < |added| && added[i] == added[j]
    ensures i == j
  {
    EmptyHoldsInv(ops);
    RunKeepsInv(ops, Empty(), steps);
  }
}
