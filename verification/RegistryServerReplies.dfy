/** What the responses of the server promise: when a publish goes through, what a lost save costs, when a
    yank is on the disk, and which retries are answered with the remembered response. */
module RegistryServerReplies {
  import opened Wrappers
  import opened RegistryNames
  import opened RegistryVersions
  import opened RegistryIdempotency
  import opened RegistryServer
  import opened RegistryServerSafety

  // ----- which entries a section touches -----

  /** Where a publish ends: refused, failed before listing, or listed. */
  lemma PublishOutcome(ops: Semver, s: Server, request: Request, fault: Fault, now: string)
    requires ops.Lawful() && WellKept(ops, s.files, s.memory) && ValidRequest(ops, request) && request.action.Publish?
    ensures var outcome := PublishSection(ops, s, request, fault, now);
            var written := WriteUpload(s.files, request.package, request.version, request.action.upload, fault);
            var listed := At(s.memory, request.package, request.version).None? && written.provenance.Ok?;
            && (outcome.response.PackageBody? <==> listed && fault != Save)
            && (outcome.response.PackageBody? ==> outcome.server.disk == Some(outcome.server.memory))
            && forall p, ver :: At(outcome.server.memory, p, ver)
                             == if listed && p == request.package && ver == request.version
                                then Some(NewVersion(request, written.provenance.value, now))
                                else At(s.memory, p, ver)
  {
    hide WellKept, WriteUpload, NewVersion, ArchivePath, Listing, Find, Evolves;
    var written := WriteUpload(s.files, request.package, request.version, request.action.upload, fault);
    if At(s.memory, request.package, request.version).None? && written.provenance.Ok? {
      NewVersionIs(request, written.provenance.value, now);
      PublishedEvolves(ops, s.files, s.memory, request.package, NewVersion(request, written.provenance.value, now));
    } else {
      EntryEntered(s.memory, request.package);
    }
  }

  lemma NewVersionIs(request: Request, provenance: Option<Provenance>, now: string)
    requires request.action.Publish?
    ensures NewVersion(request, provenance, now).version == request.version
  {
  }

  lemma EntryEntered(registry: Registry, package: string)
    ensures forall p, ver :: At(registry[package := PackageEntry(registry, package)], p, ver) == At(registry, p, ver)
  {
  }

  /** A section changes no entry but that of its own package version. */
  lemma SectionTouchesOneVersion(ops: Semver, s: Server, request: Request, fault: Fault, now: string, p: string, ver: string)
    requires ops.Lawful() && WellKept(ops, s.files, s.memory) && ValidRequest(ops, request)
    requires p != request.package || ver != request.version
    ensures At(Section(ops, s, request, fault, now).server.memory, p, ver) == At(s.memory, p, ver)
  {
    hide WellKept, MarkYanked, Body, Find, PublishSection, ValidRequest;
    if request.action.Publish? {
      PublishOutcome(ops, s, request, fault, now);
    } else if At(s.memory, request.package, request.version).Some? {
      YankedEvolves(s.memory, request.package, request.version, request.publisher, now);
    }
  }

  lemma LeavesDiffer(package: string, version: string)
    ensures ArchivePath(package, version) != ArtifactPath(package, version, "provenance.attestation")
    ensures ArchivePath(package, version) != ArtifactPath(package, version, "signature.sig")
    ensures ArtifactPath(package, version, "provenance.attestation") != ArtifactPath(package, version, "signature.sig")
  {
    var archive, attestation, signature :=
      ArchivePath(package, version), ArtifactPath(package, version, "provenance.attestation"),
      ArtifactPath(package, version, "signature.sig");
    assert archive[|archive| - 1] == 'z';
    assert attestation[|attestation| - 1] == 'n';
    assert signature[|signature| - 1] == 'g';
  }

  lemma UploadSucceedsIff(files: Files, package: string, version: string, upload: Upload, fault: Fault)
    requires fault == NoFault || fault == Save
    ensures WriteUpload(files, package, version, upload, fault).provenance.Ok? <==>
            && ArchivePath(package, version) !in files
            && (upload.provenance.Some? ==> ArtifactPath(package, version, "provenance.attestation") !in files)
            && (upload.signature.Some? ==> ArtifactPath(package, version, "signature.sig") !in files)
  {
    LeavesDiffer(package, version);
    hide ArtifactPath, ArchivePath;
  }

  /** A publish without a fault succeeds exactly when the version is not listed and none of its files is
      there; what is then listed, saved and served under the listed path is what was uploaded. */
  lemma PublishSucceedsIff(ops: Semver, s: Server, request: Request, now: string)
    requires ops.Lawful() && WellKept(ops, s.files, s.memory) && ValidRequest(ops, request) && request.action.Publish?
    ensures var outcome := PublishSection(ops, s, request, NoFault, now);
            var upload := request.action.upload;
            && (outcome.response.PackageBody? <==>
                  && At(s.memory, request.package, request.version).None?
                  && ArchivePath(request.package, request.version) !in s.files
                  && (upload.provenance.Some? ==>
                        ArtifactPath(request.package, request.version, "provenance.attestation") !in s.files)
                  && (upload.signature.Some? ==>
                        ArtifactPath(request.package, request.version, "signature.sig") !in s.files))
            && (outcome.response.PackageBody? ==>
                  && outcome.server.disk == Some(outcome.server.memory)
                  && var v := At(outcome.server.memory, request.package, request.version);
                  && v.Some? && !v.value.yanked
                  && v.value.packageIntegrity == upload.metadata.packageIntegrity
                  && v.value.archiveIntegrity == upload.archive.integrity
                  && Backed(outcome.server.files, request.package, v.value))
  {
    PublishOutcome(ops, s, request, NoFault, now);
    Uploaded(ops, s.files, request, NoFault, now);
    UploadSucceedsIff(s.files, request.package, request.version, request.action.upload, NoFault);
    hide WellKept, WriteUpload, ArchivePath, ArtifactPath, Listing, Body, Find, Backed, LoaderAcceptsVersion;
  }

  // ----- a version lost with a failed save -----

  /** The archive is there, but no list names the version. */
  predicate Gone(s: Server, package: string, version: string) {
    && ArchivePath(package, version) in s.files
    && At(s.memory, package, version).None?
    && (s.disk.Some? ==> At(s.disk.value, package, version).None?)
  }

  lemma OwnVersionStaysGone(ops: Semver, s: Server, request: Request, fault: Fault, now: string)
    requires Gone(s, request.package, request.version)
    ensures At(Section(ops, s, request, fault, now).server.memory, request.package, request.version).None?
    ensures request.action.Publish? ==> Section(ops, s, request, fault, now).response == InternalError
  {
    hide ArchivePath;
  }

  lemma NextKeepsGone(ops: Semver, s: Server, step: Step, package: string, version: string)
    requires ops.Lawful() && Inv(ops, s) && Gone(s, package, version)
    ensures Gone(Next(ops, s, step), package, version)
  {
    hide ArchivePath, Find, WellKept, Evolves, AddedOnce, ValidRequest, PackageEntry;
    NextKeepsInv(ops, s, step);
    if step.Commit? && step.index < |s.pending| {
      var request := s.pending[step.index];
      assert request in s.pending;
      var rest := s.(pending := s.pending[..step.index] + s.pending[step.index + 1..]);
      var t := Section(ops, rest, request, step.fault, step.now).server;
      SectionKeeps(ops, rest, request, step.fault, step.now);
      if request.package == package && request.version == version {
        OwnVersionStaysGone(ops, rest, request, step.fault, step.now);
      } else {
        SectionTouchesOneVersion(ops, rest, request, step.fault, step.now, package, version);
      }
      hide Section;
      assert At(t.memory, package, version).None?;
    } else if step.Restart? {
      assert At(map[], package, version).None? by { EmptyListsNothing(package, version); }
    }
  }

  lemma EmptyListsNothing(package: string, version: string)
    ensures At(map[], package, version).None?
  {
  }

  lemma {:induction false} RunKeepsGone(ops: Semver, s: Server, steps: seq<Step>, package: string, version: string)
    requires ops.Lawful() && Inv(ops, s) && Gone(s, package, version)
    ensures Gone(Run(ops, s, steps), package, version)
    decreases |steps|
  {
    hide Inv, Next, Gone;
    if steps != [] {
      NextKeepsInv(ops, s, steps[0]);
      NextKeepsGone(ops, s, steps[0], package, version);
      RunKeepsGone(ops, Next(ops, s, steps[0]), steps[1..], package, version);
    }
  }

  /** A publish whose save fails is listed, and not on the disk. */
  lemma FailedSaveIsUnsaved(ops: Semver, s: Server, index: nat, now: string, nowMs: int)
    requires ops.Lawful() && Inv(ops, s) && index < |s.pending| && s.pending[index].action.Publish?
    requires At(s.memory, s.pending[index].package, s.pending[index].version).None?
    requires PublishSection(ops, s, s.pending[index], NoFault, now).response.PackageBody?
    ensures var request := s.pending[index];
            var failed := Next(ops, s, Commit(index, Save, now, nowMs));
            && At(failed.memory, request.package, request.version).Some?
            && (failed.disk.Some? ==> At(failed.disk.value, request.package, request.version).None?)
  {
    hide *;
    var request := s.pending[index];
    var rest := s.(pending := s.pending[..index] + s.pending[index + 1..]);
    KeptSoFar(ops, s, index);
    AnywayPublished(ops, s, rest, request, now);
    FailedSaveIsListed(ops, rest, request, now);
    FailedCommit(ops, s, index, now, nowMs);
    if s.disk.Some? { UnlistedOnDisk(s.disk.value, s.memory, request.package, request.version); }
  }

  lemma KeptSoFar(ops: Semver, s: Server, index: nat)
    requires Inv(ops, s) && index < |s.pending|
    ensures WellKept(ops, s.files, s.memory) && ValidRequest(ops, s.pending[index])
    ensures s.disk.Some? ==> LoaderAccepts(ops, s.disk.value) && Evolves(s.disk.value, s.memory)
  {
    hide ValidRequest, Evolves, LoaderAcceptsPackage;
    assert s.pending[index] in s.pending;
  }

  /** What is waiting makes no difference to a section. */
  lemma AnywayPublished(ops: Semver, s: Server, rest: Server, request: Request, now: string)
    requires rest == s.(pending := rest.pending) && request.action.Publish?
    ensures PublishSection(ops, rest, request, NoFault, now).response == PublishSection(ops, s, request, NoFault, now).response
  {
    hide Find, WriteUpload, PackageEntry, Listing, Body, NewVersion;
  }

  lemma FailedCommit(ops: Semver, s: Server, index: nat, now: string, nowMs: int)
    requires index < |s.pending| && s.pending[index].action.Publish?
    requires var rest := s.(pending := s.pending[..index] + s.pending[index + 1..]);
             !PublishSection(ops, rest, s.pending[index], Save, now).remembered
    ensures var rest := s.(pending := s.pending[..index] + s.pending[index + 1..]);
            Next(ops, s, Commit(index, Save, now, nowMs)) == PublishSection(ops, rest, s.pending[index], Save, now).server
  {
    hide PublishSection;
  }

  lemma UnlistedOnDisk(disk: Registry, memory: Registry, package: string, version: string)
    requires Evolves(disk, memory)
    ensures At(memory, package, version).None? ==> At(disk, package, version).None?
  {
  }

  lemma FailedSaveIsListed(ops: Semver, s: Server, request: Request, now: string)
    requires ops.Lawful() && WellKept(ops, s.files, s.memory) && ValidRequest(ops, request) && request.action.Publish?
    requires PublishSection(ops, s, request, NoFault, now).response.PackageBody?
    ensures var outcome := PublishSection(ops, s, request, Save, now);
            && outcome.server == PublishSection(ops, s, request, NoFault, now).server.(disk := s.disk)
            && outcome.response == InternalError && !outcome.remembered
            && At(outcome.server.memory, request.package, request.version).Some?
            && ArchivePath(request.package, request.version) in outcome.server.files
  {
    var upload := request.action.upload;
    assert WriteUpload(s.files, request.package, request.version, upload, Save)
        == WriteUpload(s.files, request.package, request.version, upload, NoFault);
    PublishOutcome(ops, s, request, NoFault, now);
    PublishOutcome(ops, s, request, Save, now);
    Uploaded(ops, s.files, request, Save, now);
    hide WellKept, WriteUpload, ArchivePath, Listing, Body, Find, NewVersion;
  }

  // ----- yanking -----

  /** A yank that is answered with success is on the disk exactly when it marked the version itself or the
      disk had it already: a repetition after a failed save is answered without saving. */
  lemma YankIsSavedIff(ops: Semver, s: Server, request: Request, fault: Fault, now: string)
    requires YankSection(ops, s, request, fault, now).response.PackageBody?
    ensures var t := YankSection(ops, s, request, fault, now).server;
            && At(s.memory, request.package, request.version).Some?
            && At(t.memory, request.package, request.version).Some?
            && At(t.memory, request.package, request.version).value.yanked
            && ((t.disk.Some? && YankedAt(t.disk.value, request)) <==>
                  || !YankedAt(s.memory, request)
                  || (s.disk.Some? && YankedAt(s.disk.value, request)))
  {
    hide MarkYanked, Body;
    YankedEvolves(s.memory, request.package, request.version, request.publisher, now);
  }

  predicate YankedAt(registry: Registry, request: Request) {
    var v := At(registry, request.package, request.version);
    v.Some? && v.value.yanked
  }

  /** The failing case is reachable: yank with a failing save, then the same yank again. */
  lemma RepeatedYankMayNotBeSaved(ops: Semver, s: Server, request: Request, now: string)
    requires request.action.Yank? && At(s.memory, request.package, request.version).Some?
    requires !YankedAt(s.memory, request) && s.disk == Some(s.memory)
    ensures var first := YankSection(ops, s, request, Save, now);
            var second := YankSection(ops, first.server, request, NoFault, now);
            && first.response == InternalError
            && second.response.PackageBody?
            && !YankedAt(second.server.disk.value, request)
  {
    hide MarkYanked, Body;
    YankedEvolves(s.memory, request.package, request.version, request.publisher, now);
    var t := YankSection(ops, s, request, Save, now).server;
    assert At(t.memory, request.package, request.version).value.yanked;
    YankAgain(ops, t, request, now);
  }

  lemma YankAgain(ops: Semver, s: Server, request: Request, now: string)
    requires YankedAt(s.memory, request)
    ensures var outcome := YankSection(ops, s, request, NoFault, now);
            outcome.response.PackageBody? && outcome.server.disk == s.disk
  {
  }

  // ----- repetitions -----

  /** No request with the key is between its lookup and its section. */
  predicate Settled(s: Server, key: string) {
    forall request | request in s.pending :: request.key != key
  }

  /** The key is in the table at every state of the run. */
  ghost predicate Retained(ops: Semver, s: Server, steps: seq<Step>, key: string)
    decreases |steps|
  {
    key in s.records && (steps != [] ==> Retained(ops, Next(ops, s, steps[0]), steps[1..], key))
  }

  lemma NextKeepsRecord(ops: Semver, s: Server, step: Step, key: string)
    requires key in s.records && Settled(s, key)
    ensures var t := Next(ops, s, step);
            && Settled(t, key)
            && (key in t.records ==> t.records[key] == s.records[key])
  {
    hide Section, ValidRequest, FingerprintOf, Loaded;
    if step.Commit? && step.index < |s.pending| {
      var request := s.pending[step.index];
      assert request in s.pending;
      var rest := s.(pending := s.pending[..step.index] + s.pending[step.index + 1..]);
      assert forall r | r in rest.pending :: r in s.pending;
      SectionLeavesRecords(ops, rest, request, step.fault, step.now);
    }
  }

  lemma SectionLeavesRecords(ops: Semver, s: Server, request: Request, fault: Fault, now: string)
    ensures var t := Section(ops, s, request, fault, now).server;
            t.records == s.records && t.pending == s.pending
  {
    hide Find, Body, MarkYanked, Sorted, WriteArtifacts, WriteNew, PackageEntry, ArchivePath;
  }

  /** Once no request with the key is under way, its record does not change for as long as it is kept. */
  lemma {:induction false} RecordIsFinal(ops: Semver, s: Server, steps: seq<Step>, key: string)
    requires Settled(s, key) && Retained(ops, s, steps, key)
    ensures var t := Run(ops, s, steps);
            Settled(t, key) && key in t.records && t.records[key] == s.records[key]
    decreases |steps|
  {
    hide Next;
    if steps != [] {
      NextKeepsRecord(ops, s, steps[0], key);
      RecordIsFinal(ops, Next(ops, s, steps[0]), steps[1..], key);
    }
  }

  /** A request that alone holds its key is carried out once: through any later run that keeps the record,
      a repetition gets the same response, another request under the key is refused, and neither changes
      anything. */
  lemma RepetitionsGetTheSameResponse(ops: Semver, s: Server, index: nat, fault: Fault, now: string, nowMs: int,
                                      steps: seq<Step>, again: Request)
    requires index < |s.pending|
    requires forall i | 0 <= i < |s.pending| && i != index :: s.pending[i].key != s.pending[index].key
    requires ValidRequest(ops, again) && again.key == s.pending[index].key
    requires var rest := s.(pending := s.pending[..index] + s.pending[index + 1..]);
             Section(ops, rest, s.pending[index], fault, now).remembered
    requires Retained(ops, Next(ops, s, Commit(index, fault, now, nowMs)), steps, s.pending[index].key)
    ensures var request := s.pending[index];
            var rest := s.(pending := s.pending[..index] + s.pending[index + 1..]);
            var t := Run(ops, Next(ops, s, Commit(index, fault, now, nowMs)), steps);
            && Next(ops, t, Begin(again)) == t
            && EarlyAnswer(ops, t.records, again)
            == Some(if FingerprintOf(again) == FingerprintOf(request)
                    then Section(ops, rest, request, fault, now).response else KeyConflict)
  {
    hide *;
    var request := s.pending[index];
    var rest := s.(pending := s.pending[..index] + s.pending[index + 1..]);
    var t := Next(ops, s, Commit(index, fault, now, nowMs));
    CommitRemembers(ops, s, index, fault, now, nowMs);
    RetainedNow(ops, t, steps, request.key);
    RecordIsFinal(ops, t, steps, request.key);
    LookedUp(ops, Run(ops, t, steps), again);
    BeginAnswered(ops, Run(ops, t, steps), again);
  }

  lemma RetainedNow(ops: Semver, s: Server, steps: seq<Step>, key: string)
    requires Retained(ops, s, steps, key)
    ensures key in s.records
  {
  }

  lemma LookedUp(ops: Semver, s: Server, again: Request)
    requires ValidRequest(ops, again) && again.key in s.records
    ensures EarlyAnswer(ops, s.records, again)
         == Some(if s.records[again.key].fingerprint == FingerprintOf(again) then s.records[again.key].response
                 else KeyConflict)
  {
    hide ValidRequest, FingerprintOf;
  }

  /** The section leaves its response in the table, and no request with the key under way. */
  lemma CommitRemembers(ops: Semver, s: Server, index: nat, fault: Fault, now: string, nowMs: int)
    requires index < |s.pending|
    requires forall i | 0 <= i < |s.pending| && i != index :: s.pending[i].key != s.pending[index].key
    requires var rest := s.(pending := s.pending[..index] + s.pending[index + 1..]);
             Section(ops, rest, s.pending[index], fault, now).remembered
    ensures var request := s.pending[index];
            var rest := s.(pending := s.pending[..index] + s.pending[index + 1..]);
            var t := Next(ops, s, Commit(index, fault, now, nowMs));
            && Settled(t, request.key)
            && (request.key in t.records ==>
                  t.records[request.key]
                  == Record(FingerprintOf(request), nowMs, Section(ops, rest, request, fault, now).response))
  {
    var request := s.pending[index];
    var rest := s.(pending := s.pending[..index] + s.pending[index + 1..]);
    hide Section, FingerprintOf, Stored;
    SectionLeavesRecords(ops, rest, request, fault, now);
    NoOtherWaits(s, index);
    StoredUnderKey(s.records, request.key, Record(FingerprintOf(request), nowMs, Section(ops, rest, request, fault, now).response));
  }

  lemma NoOtherWaits(s: Server, index: nat)
    requires index < |s.pending|
    requires forall i | 0 <= i < |s.pending| && i != index :: s.pending[i].key != s.pending[index].key
    ensures forall r | r in s.pending[..index] + s.pending[index + 1..] :: r.key != s.pending[index].key
  {
    var rest := s.pending[..index] + s.pending[index + 1..];
    forall j | 0 <= j < |rest| ensures rest[j].key != s.pending[index].key {
      var i := if j < index then j else j + 1;
      assert rest[j] == s.pending[i];
    }
  }

  lemma StoredUnderKey(records: Records, key: string, record: Record)
    ensures key in Stored(records, key, record) ==> Stored(records, key, record)[key] == record
  {
  }

  lemma BeginAnswered(ops: Semver, s: Server, request: Request)
    requires EarlyAnswer(ops, s.records, request).Some?
    ensures Next(ops, s, Begin(request)) == s
  {
  }

  /** With two copies of a publish under way the promise fails: the second finds the version the first has
      just entered, and its refusal replaces the remembered success. */
  lemma TwinsForgetTheSuccess(ops: Semver, s: Server, request: Request, now: string, after: string, ms: int, later: int)
    requires ops.Lawful() && WellKept(ops, s.files, s.memory) && ValidRequest(ops, request) && request.action.Publish?
    requires PublishSection(ops, s, request, NoFault, now).response.PackageBody?
    ensures var (first, _) := CarryOut(ops, s, request, NoFault, now, ms);
            var (second, response) := CarryOut(ops, first, request, NoFault, after, later);
            && response == VersionExists
            && second.memory == first.memory && second.files == first.files
            && (request.key in second.records ==>
                  EarlyAnswer(ops, second.records, request) == Some(VersionExists))
  {
    PublishSucceedsIff(ops, s, request, now);
    var first := CarryOut(ops, s, request, NoFault, now, ms).0;
    assert At(first.memory, request.package, request.version).Some?;
    hide ValidRequest, FingerprintOf;
    SecondPublishIsRefused(ops, first, request, NoFault, after);
    hide Section;
  }

  lemma SecondPublishIsRefused(ops: Semver, s: Server, request: Request, fault: Fault, now: string)
    requires request.action.Publish? && At(s.memory, request.package, request.version).Some?
    ensures Section(ops, s, request, fault, now) == Outcome(s, VersionExists, true)
  {
    var entry := s.memory[request.package];
    assert s.memory[request.package := entry] == s.memory;
  }
}
