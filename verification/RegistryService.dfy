/** The server's handlers, updating the registry, the files and the remembered responses in place. */
module RegistryService {
  import opened Wrappers
  import opened RegistryNames
  import opened RegistryVersions
  import opened RegistryIdempotency
  import opened RegistryServer

  /** Files are added, and never changed or removed. */
  predicate FilesKept(before: Files, after: Files) {
    forall path | path in before :: path in after && after[path] == before[path]
  }

  class HostedRegistry {
    const ops: Semver
    var memory: Registry
    var disk: Option<Registry>
    var files: Files
    var records: Records
    ghost var added: seq<Added>

    /** Starts on what the disk holds; refuses a document it would not accept. */
    constructor (ops: Semver, disk: Option<Registry>, files: Files)
      requires Loaded(ops, disk).Some?
      ensures this.ops == ops
      ensures State() == Server(Loaded(ops, disk).value, disk, files, map[], [], [])
    {
      this.ops := ops;
      this.memory := Loaded(ops, disk).value;
      this.disk := disk;
      this.files := files;
      this.records := map[];
      this.added := [];
    }

    /** The state between two requests. */
    ghost function State(): Server
      reads this
    {
      Server(memory, disk, files, records, [], added)
    }

    /** Position of the first entry for the version; the length when there is none. */
    static method IndexOf(versions: seq<StoredVersion>, version: string) returns (i: nat)
      ensures i <= |versions|
      ensures forall j | 0 <= j < i :: versions[j].version != version
      ensures i < |versions| ==> versions[i].version == version
    {
      i := 0;
      while i < |versions| && versions[i].version != version
        invariant i <= |versions|
        invariant forall j | 0 <= j < i :: versions[j].version != version
      {
        i := i + 1;
      }
    }

    method PackageResponse(package: StoredPackage) returns (response: Response)
      requires ops.Lawful()
      ensures response == Body(ops, package)
    {
      var latest := LatestNonYankedVersion(ops, package.versions);
      response := PackageBody(
        package.name, if latest.Some? then Some(latest.value.version) else None, package.versions);
    }

    method Remember(request: Request, response: Response, nowMs: int)
      modifies this`records
      ensures records == Stored(old(records), request.key, Record(FingerprintOf(request), nowMs, response))
    {
      records := Store(records, request.key, Record(FingerprintOf(request), nowMs, response));
    }

    method WriteNewFile(path: string, content: Content, fails: bool) returns (written: bool)
      modifies this`files
      ensures written == WriteNew(old(files), path, content, fails).Some?
      ensures files == if written then WriteNew(old(files), path, content, fails).value else old(files)
    {
      written := !fails && path !in files;
      if written { files := files[path := content]; }
    }

    method WriteOptionalArtifacts(package: string, version: string, upload: Upload, fault: Fault)
      returns (provenance: Result<Option<Provenance>, ()>)
      modifies this`files
      ensures Written(files, provenance) == WriteArtifacts(old(files), package, version, upload, fault)
      ensures FilesKept(old(files), files)
    {
      if upload.provenance.None? && upload.signature.None? && upload.metadata.signatureKind.None? {
        return Ok(None);
      }
      var stored := Provenance(None, None, None, None, upload.metadata.signatureKind);
      if upload.provenance.Some? {
        var path := ArtifactPath(package, version, "provenance.attestation");
        var written := WriteNewFile(path, upload.provenance.value, fault == ProvenanceWrite);
        if !written { return Err(()); }
        stored := stored.(attestationPath := Some(path), attestationIntegrity := upload.metadata.provenanceIntegrity);
      }
      if upload.signature.Some? {
        var path := ArtifactPath(package, version, "signature.sig");
        var written := WriteNewFile(path, upload.signature.value, fault == SignatureWrite);
        if !written { return Err(()); }
        stored := stored.(signaturePath := Some(path), signatureIntegrity := upload.metadata.signatureIntegrity);
      }
      return Ok(Some(stored));
    }

    method WriteFiles(package: string, version: string, upload: Upload, fault: Fault)
      returns (provenance: Result<Option<Provenance>, ()>)
      modifies this`files
      ensures Written(files, provenance) == WriteUpload(old(files), package, version, upload, fault)
      ensures FilesKept(old(files), files)
    {
      var written := WriteNewFile(ArchivePath(package, version), upload.archive, fault == ArchiveWrite);
      if !written { return Err(()); }
      provenance := WriteOptionalArtifacts(package, version, upload, fault);
    }

    /** The registry part of a publish, under the lock; says whether the response is to be remembered. */
    method PublishLocked(request: Request, fault: Fault, now: string) returns (response: Response, remembered: bool)
      requires ops.Lawful() && request.action.Publish?
      modifies this`memory, this`disk, this`files, this`added
      ensures Outcome(State(), response, remembered) == PublishSection(ops, old(State()), request, fault, now)
      ensures response.PackageBody? ==> remembered && disk == Some(memory)
      ensures FilesKept(old(files), files)
    {
      hide WriteUpload, ArchivePath, Find, Sorted, Body;
      var upload, package, version := request.action.upload, request.package, request.version;
      if package !in memory {
        memory := memory[package := StoredPackage(package, [])];
      }
      var entry := memory[package];
      assert entry == PackageEntry(old(memory), package) && memory == old(memory)[package := entry];
      var i := IndexOf(entry.versions, version);
      FoundAt(entry.versions, version, i);
      hide PackageEntry;
      if i < |entry.versions| { return VersionExists, true; }
      var provenance := WriteFiles(package, version, upload, fault);
      if provenance.Err? { return InternalError, false; }
      var stored := StoredVersion(
        version, now, false, ArchivePath(package, version), upload.metadata.archiveIntegrity, ARCHIVE_MEDIA_TYPE,
        upload.metadata.packageIntegrity, provenance.value, Some(request.publisher), None, None);
      entry := entry.(versions := Sorted(ops, entry.versions + [stored]));
      memory := memory[package := entry];
      added := added + [Added(package, version)];
      assert memory == old(memory)[package := entry];
      response := PackageResponse(entry);
      if fault == Save { return InternalError, false; }
      disk := Some(memory);
      remembered := true;
    }

    /** The registry part of a yank. */
    method YankLocked(request: Request, fault: Fault, now: string) returns (response: Response, remembered: bool)
      requires ops.Lawful() && request.action.Yank?
      modifies this`memory, this`disk
      ensures Outcome(State(), response, remembered) == YankSection(ops, old(State()), request, fault, now)
      ensures response.PackageBody? ==> remembered && (disk == Some(memory) || memory == old(memory))
    {
      hide Find, MarkYanked, Body;
      if request.package !in memory { return NotFound, false; }
      var entry := memory[request.package];
      var i := IndexOf(entry.versions, request.version);
      FoundAt(entry.versions, request.version, i);
      if i == |entry.versions| { return NotFound, false; }
      var v, changed := entry.versions[i], false;
      if !v.yanked {
        v := v.(yanked := true, yankedAt := Some(now), yankedBy := Some(request.publisher));
        changed := true;
      }
      MarkedAt(entry.versions, request.version, request.publisher, now, i);
      entry := entry.(versions := entry.versions[i := v]);
      assert !changed ==> entry == old(memory)[request.package];
      memory := memory[request.package := entry];
      response := PackageResponse(entry);
      if changed {
        if fault == Save { return InternalError, false; }
        disk := Some(memory);
      }
      remembered := true;
    }

    /** A whole request, with nothing in between: checks, lookup, section. */
    method Serve(request: Request, fault: Fault, now: string, nowMs: int) returns (response: Response)
      requires ops.Lawful()
      modifies this`memory, this`disk, this`files, this`records, this`added
      ensures var early := EarlyAnswer(ops, old(records), request);
              if early.Some? then State() == old(State()) && response == early.value
              else (State(), response) == CarryOut(ops, old(State()), request, fault, now, nowMs)
      ensures FilesKept(old(files), files)
      ensures memory != old(memory) && response.PackageBody? ==> disk == Some(memory)
    {
      if !ValidRequest(ops, request) { return BadRequest; }
      var replayed := Replay(records, request.key, FingerprintOf(request));
      if replayed.Some? { return replayed.value; }
      hide PublishSection, YankSection, FingerprintOf;
      var remembered;
      if request.action.Publish? {
        response, remembered := PublishLocked(request, fault, now);
      } else {
        response, remembered := YankLocked(request, fault, now);
      }
      if remembered { Remember(request, response, nowMs); }
    }
  }

  lemma {:induction false} FoundAt(versions: seq<StoredVersion>, version: string, i: nat)
    requires i <= |versions| && forall j | 0 <= j < i :: versions[j].version != version
    requires i < |versions| ==> versions[i].version == version
    ensures Find(versions, version) == if i < |versions| then Some(versions[i]) else None
  {
    if i > 0 { FoundAt(versions[1..], version, i - 1); }
  }

  lemma {:induction false} MarkedAt(versions: seq<StoredVersion>, version: string, publisher: string, now: string, i: nat)
    requires i < |versions| && versions[i].version == version
    requires forall j | 0 <= j < i :: versions[j].version != version
    ensures MarkYanked(versions, version, publisher, now) == versions[i := Marked(versions[i], publisher, now)]
  {
    if i > 0 { MarkedAt(versions[1..], version, publisher, now, i - 1); }
  }
}
