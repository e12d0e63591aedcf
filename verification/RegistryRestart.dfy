/** What restarts leave of the releases the server lists. */
module RegistryRestart {
  import opened Wrappers
  import opened RegistryIdempotency
  import opened RegistryNames
  import opened RegistryVersions
  import opened RegistryServer
  import opened RegistryServerSafety
  import opened RegistryServerReplies

  /** The same published release, whether yanked or not. */
  predicate SameRelease(v: StoredVersion, w: StoredVersion) {
    w == v.(yanked := w.yanked, yankedAt := w.yankedAt, yankedBy := w.yankedBy)
  }

  lemma WellKeptIsAccepted(ops: Semver, files: Files, registry: Registry)
    requires WellKept(ops, files, registry)
    ensures LoaderAccepts(ops, registry)
  {
    forall name | name in registry ensures LoaderAcceptsPackage(ops, name, registry[name]) {
      assert PackageKept(ops, files, name, registry[name]);
    }
  }

  lemma ListedStays(ops: Semver, s: Server, steps: seq<Step>, package: string, version: string)
    requires ops.Lawful() && Inv(ops, s) && At(s.memory, package, version).Some?
    requires NoRestart(steps) || (s.disk.Some? && At(s.disk.value, package, version).Some?)
    ensures var now := At(Run(ops, s, steps).memory, package, version);
            now.Some? && SameRelease(At(s.memory, package, version).value, now.value)
  {
    hide At, WellKept, AddedOnce, ValidRequest, Run;
    var t := Run(ops, s, steps);
    if NoRestart(steps) {
      ReleasesAreImmutable(ops, s, steps);
    } else {
      RunKeepsInv(ops, s, steps);
      var before, after := At(s.disk.value, package, version), At(t.disk.value, package, version);
      assert before.Some? && after.Some? && Becomes(before.value, after.value);
    }
  }

  predicate IsSaved(s: Server, package: string, version: string) {
    s.disk.Some? && At(s.disk.value, package, version).Some?
  }

  /** What a restart makes of a listed release, for all later times. */
  lemma AfterRestart(ops: Semver, u: Server, steps: seq<Step>, package: string, version: string)
    requires ops.Lawful() && Inv(ops, u) && At(u.memory, package, version).Some?
    ensures var t := Run(ops, Next(ops, u, Restart), steps);
            var now := At(t.memory, package, version);
            && Inv(ops, t)
            && (now.Some? <==> u.disk.Some? && At(u.disk.value, package, version).Some?)
            && (now.Some? ==> SameRelease(At(u.memory, package, version).value, now.value))
  {
    hide *;
    NextKeepsInv(ops, u, Restart);
    RunKeepsInv(ops, Next(ops, u, Restart), steps);
    if u.disk.Some? && At(u.disk.value, package, version).Some? {
      SavedComesBack(ops, u, steps, package, version);
    } else {
      UnsavedIsGone(ops, u, package, version);
      RunKeepsGone(ops, Next(ops, u, Restart), steps, package, version);
      GoneIsUnlisted(Run(ops, Next(ops, u, Restart), steps), package, version);
    }
  }

  lemma SavedComesBack(ops: Semver, u: Server, steps: seq<Step>, package: string, version: string)
    requires ops.Lawful() && Inv(ops, u) && Inv(ops, Next(ops, u, Restart)) && At(u.memory, package, version).Some?
    requires u.disk.Some? && At(u.disk.value, package, version).Some?
    ensures var now := At(Run(ops, Next(ops, u, Restart), steps).memory, package, version);
            now.Some? && SameRelease(At(u.memory, package, version).value, now.value)
  {
    RestartServesTheDisk(ops, u);
    assert Becomes(At(u.disk.value, package, version).value, At(u.memory, package, version).value);
    hide At, Next, Inv, Evolves, Run, NoRestart;
    ListedStays(ops, Next(ops, u, Restart), steps, package, version);
  }

  lemma UnsavedIsGone(ops: Semver, u: Server, package: string, version: string)
    requires Inv(ops, u) && At(u.memory, package, version).Some?
    requires u.disk.Some? ==> At(u.disk.value, package, version).None?
    ensures Gone(Next(ops, u, Restart), package, version)
  {
    ListedArchive(ops, u, package, version);
    EmptyListsNothing(package, version);
    if u.disk.Some? { RestartServesTheDisk(ops, u); }
    hide At, Inv, ArchivePath, LoaderAccepts;
  }

  lemma GoneIsUnlisted(s: Server, package: string, version: string)
    requires Gone(s, package, version)
    ensures At(s.memory, package, version).None?
  {
  }

  lemma RestartServesTheDisk(ops: Semver, u: Server)
    requires Inv(ops, u) && u.disk.Some?
    ensures var r := Next(ops, u, Restart);
            r.memory == u.disk.value && r.disk == u.disk
  {
    WellKeptIsAccepted(ops, u.files, u.disk.value);
  }

  lemma ListedArchive(ops: Semver, u: Server, package: string, version: string)
    requires WellKept(ops, u.files, u.memory) && At(u.memory, package, version).Some?
    ensures ArchivePath(package, version) in u.files
  {
    var v := At(u.memory, package, version).value;
    assert PackageKept(ops, u.files, package, u.memory[package]);
    assert Backed(u.files, package, v);
  }

  // ----- a version whose save failed -----

  /** Every attempt to publish the version is an internal error. */
  ghost predicate NeverAgain(ops: Semver, s: Server, package: string, version: string) {
    forall again: Request, fault, now ::
      again.action.Publish? && again.package == package && again.version == version ==>
      Section(ops, s, again, fault, now).response == InternalError
  }

  /** A publish whose save fails is listed until the server restarts. If by then another change has been saved
      with it, it stays listed for all later times; if not, as when the server restarts at once, it is in no
      list ever again, and cannot be published again. */
  lemma FailedSaveLosesTheVersion(ops: Semver, s: Server, index: nat, now: string, nowMs: int,
                                  before: seq<Step>, after: seq<Step>)
    requires ops.Lawful() && Inv(ops, s) && index < |s.pending| && s.pending[index].action.Publish?
    requires At(s.memory, s.pending[index].package, s.pending[index].version).None?
    requires PublishSection(ops, s, s.pending[index], NoFault, now).response.PackageBody?
    requires NoRestart(before)
    ensures var package, version := s.pending[index].package, s.pending[index].version;
            var failed := Next(ops, s, Commit(index, Save, now, nowMs));
            var u := Run(ops, failed, before);
            var later := Run(ops, Next(ops, u, Restart), after);
            && At(failed.memory, package, version).Some? && At(u.memory, package, version).Some?
            && (before == [] ==> !IsSaved(u, package, version))
            && (At(later.memory, package, version).Some? <==> IsSaved(u, package, version))
            && (!IsSaved(u, package, version) ==>
                  Gone(later, package, version) && NeverAgain(ops, later, package, version))
  {
    hide *;
    var package, version := s.pending[index].package, s.pending[index].version;
    var failed := Next(ops, s, Commit(index, Save, now, nowMs));
    var u := Run(ops, failed, before);
    FailedSaveIsUnsaved(ops, s, index, now, nowMs);
    NextKeepsInv(ops, s, Commit(index, Save, now, nowMs));
    RunKeepsInv(ops, failed, before);
    ListedStays(ops, failed, before, package, version);
    NothingRuns(ops, failed, before);
    SavedIs(u, package, version);
    AfterRestart(ops, u, after, package, version);
    if !IsSaved(u, package, version) {
      LostForEver(ops, u, after, package, version);
    }
  }

  lemma NothingRuns(ops: Semver, s: Server, steps: seq<Step>)
    ensures steps == [] ==> Run(ops, s, steps) == s
  {
  }

  lemma SavedIs(s: Server, package: string, version: string)
    ensures IsSaved(s, package, version) <==> s.disk.Some? && At(s.disk.value, package, version).Some?
  {
  }

  lemma LostForEver(ops: Semver, u: Server, steps: seq<Step>, package: string, version: string)
    requires ops.Lawful() && Inv(ops, u) && At(u.memory, package, version).Some? && !IsSaved(u, package, version)
    ensures var later := Run(ops, Next(ops, u, Restart), steps);
            Gone(later, package, version) && NeverAgain(ops, later, package, version)
  {
    hide At, Inv, Next, Run, Gone, Section;
    UnsavedIsGone(ops, u, package, version);
    NextKeepsInv(ops, u, Restart);
    RunKeepsGone(ops, Next(ops, u, Restart), steps, package, version);
    var later := Run(ops, Next(ops, u, Restart), steps);
    forall again: Request, fault, now | again.action.Publish? && again.package == package && again.version == version
      ensures Section(ops, later, again, fault, now).response == InternalError
    {
      OwnVersionStaysGone(ops, later, again, fault, now);
    }
  }

  /** Any publish that succeeds saves everything that is listed. */
  lemma AnotherPublishSaves(ops: Semver, u: Server, index: nat, fault: Fault, now: string, nowMs: int,
                            package: string, version: string)
    requires ops.Lawful() && Inv(ops, u) && At(u.memory, package, version).Some?
    requires index < |u.pending| && u.pending[index].action.Publish?
    requires var rest := u.(pending := u.pending[..index] + u.pending[index + 1..]);
             Section(ops, rest, u.pending[index], fault, now).response.PackageBody?
    ensures IsSaved(Next(ops, u, Commit(index, fault, now, nowMs)), package, version)
  {
    hide At, WellKept, ValidRequest, Evolves, PublishSection, AddedOnce;
    var rest := u.(pending := u.pending[..index] + u.pending[index + 1..]);
    assert u.pending[index] in u.pending;
    PublishOutcome(ops, rest, u.pending[index], fault, now);
    NextKeepsInv(ops, u, Commit(index, fault, now, nowMs));
    var t := Next(ops, u, Commit(index, fault, now, nowMs));
    assert t.disk == Some(t.memory);
    EvolvedIsListed(u.memory, t.memory, package, version);
  }

  lemma EvolvedIsListed(before: Registry, after: Registry, package: string, version: string)
    requires Evolves(before, after) && At(before, package, version).Some?
    ensures At(after, package, version).Some?
  {
  }
}
