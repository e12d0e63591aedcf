/** A lock entry pins what it was written for: reinstalling against any later state of the server. */
module Reinstall {
  import opened Wrappers
  import opened RegistryNames
  import opened RegistryVersions
  import opened RegistryServer
  import opened RegistryServerSafety
  import opened RegistryRestart
  import opened LockFile
  import opened RegistryClient

  // ----- the client accepts whatever a well-kept server serves -----

  lemma NoColonNoScheme(value: string)
    requires ':' !in value
    ensures !HasUrlScheme(value)
  {
  }

  lemma PathAccepted(path: string)
    requires ValidRelativePath(path)
    ensures AcceptsPath(path)
  {
    NoColonNoScheme(path);
  }

  lemma VersionAccepted(ops: Semver, v: StoredVersion)
    requires LoaderAcceptsVersion(ops, v)
    ensures AcceptsVersion(ops, v)
  {
    PathAccepted(v.archivePath);
    hide ValidRelativePath, AcceptsPath, ValidIntegrity, ValidSignatureKind;
    if v.provenance.Some? {
      var provenance := v.provenance.value;
      if provenance.attestationPath.Some? { PathAccepted(provenance.attestationPath.value); }
      if provenance.signaturePath.Some? { PathAccepted(provenance.signaturePath.value); }
    }
  }

  lemma LatestIsValid(ops: Semver, versions: seq<StoredVersion>)
    requires AllValid(ops, versions)
    ensures var latest := Latest(ops, versions, None);
            latest.Some? ==> ops.valid(latest.value.version)
  {
    if versions != [] {
      assert AllValid(ops, versions[1..]);
      LatestIsValid(ops, versions[1..]);
    }
  }

  /** The answer for the package is not longer than what the client reads. */
  predicate Fits(ops: Semver, size: PackageMetadata -> nat, memory: Registry, package: string) {
    var metadata := Served(ops, memory, package);
    metadata.Some? ==> size(metadata.value) <= MAX_METADATA_BYTES
  }

  /** Every package of a state the loader accepts is served in a form the client accepts, as long as the
      answer is short enough. */
  lemma ServedIsAccepted(ops: Semver, size: PackageMetadata -> nat, memory: Registry, package: string)
    requires LoaderAccepts(ops, memory) && package in memory
    ensures var metadata := LoadedPackage(ops, size, memory, package);
            && (metadata.Ok? <==> Fits(ops, size, memory, package))
            && (metadata.Ok? ==>
                  && AcceptsMetadata(ops, metadata.value, package)
                  && forall ver :: Find(metadata.value.versions, ver) == At(memory, package, ver))
  {
    MetadataAccepted(ops, memory, package);
    hide AcceptsMetadata, LoaderAccepts, At, Find, Sorted, Latest;
  }

  lemma MetadataAccepted(ops: Semver, memory: Registry, package: string)
    requires LoaderAccepts(ops, memory) && package in memory
    ensures var metadata := Served(ops, memory, package);
            && metadata.Some? && AcceptsMetadata(ops, metadata.value, package)
            && forall ver :: Find(metadata.value.versions, ver) == At(memory, package, ver)
  {
    var stored := memory[package];
    assert LoaderAcceptsPackage(ops, package, stored);
    var sorted := Sorted(ops, stored.versions);
    SortedIsDistinct(ops, stored.versions);
    LatestIsValid(ops, stored.versions);
    forall v | v in sorted ensures AcceptsVersion(ops, v) { VersionAccepted(ops, v); }
    hide LoaderAcceptsVersion, AcceptsVersion, ValidPackageName, Sorted, Latest;
    forall ver ensures Find(sorted, ver) == Find(stored.versions, ver) {
      if Find(stored.versions, ver).Some? {
        FindByElement(sorted, Find(stored.versions, ver).value);
      }
    }
  }

  /** If every version takes at least a byte, a package with too many of them does not fit, and no install of it
      succeeds. */
  lemma TooManyVersions(ops: Semver, size: PackageMetadata -> nat, memory: Registry, files: Files, base: string,
                        project: Project, dep: Dependency, found: string)
    requires forall metadata :: size(metadata) >= |metadata.versions|
    requires ValidPackageName(PackageName(dep)) && PackageName(dep) in memory
    requires |memory[PackageName(dep)].versions| > MAX_METADATA_BYTES
    ensures !Fits(ops, size, memory, PackageName(dep))
    ensures Installed(ops, size, memory, files, base, project, dep, found).result.Err?
  {
    TooLong(ops, size, memory, PackageName(dep));
    hide Locked, LoadedPackage, Fits, Unpacked, Filled, Edited;
    if ValidManifest(ops, dep) { SpecNamesThePackage(ops, dep, base); }
    hide ValidManifest, Refreshed, SpecOf, ValidPackageName;
  }

  lemma TooLong(ops: Semver, size: PackageMetadata -> nat, memory: Registry, package: string)
    requires forall metadata :: size(metadata) >= |metadata.versions|
    requires ValidPackageName(package) && package in memory && |memory[package].versions| > MAX_METADATA_BYTES
    ensures !Fits(ops, size, memory, package) && LoadedPackage(ops, size, memory, package) == Err(TooLarge)
  {
    hide ValidPackageName, Latest, Sorted, AcceptsMetadata;
    assert |Served(ops, memory, package).value.versions| == |memory[package].versions|;
  }

  // ----- the archive of a listed version -----

  lemma ArchiveNameEnds(package: string, version: string)
    ensures StartsWith(ArchivePath(package, version), "artifacts/")
    ensures EndsWith(ArchivePath(package, version), ".tar.gz")
  {
    var path := ArchivePath(package, version);
    var rest := package + "/" + version + "/" + Alias(package) + "-" + version + ".tar.gz";
    assert path == "artifacts/" + rest;
    var init := "artifacts/" + package + "/" + version + "/" + Alias(package) + "-" + version;
    assert path == init + ".tar.gz";
  }

  /** However its directories are listed, the tree is accepted as the package. */
  ghost predicate AlwaysPackage(tree: Tree, package: string, v: StoredVersion) {
    forall found | found in tree.integrities :: IsPackage(tree, found, package, v)
  }

  /** A listed version can be downloaded, and unpacks to the package it is listed as; that it is accepted
      however its directories are listed, is the case exactly when they have one hash only. */
  lemma ListedIsFetched(ops: Semver, files: Files, memory: Registry, package: string, version: string)
    requires WellKept(ops, files, memory) && At(memory, package, version).Some?
    ensures var v := At(memory, package, version).value;
            var archive := FetchedArchive(files, v.archivePath);
            && AcceptsPath(v.archivePath)
            && archive.Some?
            && archive.value.integrity == v.archiveIntegrity
            && archive.value.unpacks
            && HoldsPackage(archive.value.tree, package, v.version, v.packageIntegrity)
            && (AlwaysPackage(archive.value.tree, package, v)
                <==> archive.value.tree.integrities == {v.packageIntegrity})
  {
    var v := At(memory, package, version).value;
    assert PackageKept(ops, files, package, memory[package]);
    assert LoaderAcceptsVersion(ops, v) && Backed(files, package, v);
    PathAccepted(v.archivePath);
    ArchiveNameEnds(package, version);
    OneHashOnly(files[v.archivePath].tree, package, v);
  }

  lemma OneHashOnly(tree: Tree, package: string, v: StoredVersion)
    requires HoldsPackage(tree, package, v.version, v.packageIntegrity)
    ensures AlwaysPackage(tree, package, v) <==> tree.integrities == {v.packageIntegrity}
  {
    if AlwaysPackage(tree, package, v) {
      forall h ensures h in tree.integrities <==> h == v.packageIntegrity {
        assert h in tree.integrities ==> IsPackage(tree, h, package, v);
      }
    }
  }

  // ----- what a first install leaves -----

  /** What an install of v leaves in the project, for whoever reads it. */
  ghost predicate Pinned(ops: Semver, base: string, project: Project, dep: Dependency, v: StoredVersion) {
    var spec := Refreshed(SpecOf(dep), base);
    && ValidManifest(ops, dep)
    && (dep.versionReq.Some? ==> ops.matches(dep.versionReq.value, v.version))
    && Locked(ops, project.lock, dep.name) == Ok(Some(LockOf(Filled(spec, v))))
    && (dep.path in project.caches ==>
          HoldsPackage(project.caches[dep.path], PackageName(dep), v.version, v.packageIntegrity))
  }

  function PackageName(dep: Dependency): string {
    if dep.package.Some? then dep.package.value else dep.name
  }

  lemma SpecNamesThePackage(ops: Semver, dep: Dependency, base: string)
    requires ValidManifest(ops, dep)
    ensures var spec := Refreshed(SpecOf(dep), base);
            && RegistryPackageName(spec) == PackageName(dep) && ValidPackageName(PackageName(dep))
            && spec == SpecOf(dep).(registry := Some(base), source := Source(base, PackageName(dep)))
  {
    assert dep.name[0] in dep.name;
    hide Source;
  }

  lemma SelectedSatisfies(ops: Semver, metadata: PackageMetadata, spec: DependencySpec, locked: Option<LockedPackage>)
    requires ops.Lawful() && Distinct(metadata.versions)
    ensures var v := Selected(ops, metadata, spec, locked);
            v.Ok? ==>
              && Find(metadata.versions, v.value.version) == Some(v.value)
              && (spec.versionReq.Some? ==> ops.matches(spec.versionReq.value, v.value.version))
  {
    var req := spec.versionReq;
    SortingFindsTheLatest(ops, metadata.versions, req);
    LatestIsLatest(ops, metadata.versions, req);
    var latest := Latest(ops, metadata.versions, req);
    if latest.Some? {
      var k :| 0 <= k < |metadata.versions| && metadata.versions[k] == latest.value && IsLatestAt(ops, metadata.versions, req, k);
      FindByElement(metadata.versions, metadata.versions[k]);
    }
  }

  lemma ResolvedIsListed(ops: Semver, size: PackageMetadata -> nat, files: Files, memory: Registry,
                         spec: DependencySpec, locked: Option<LockedPackage>)
    requires ops.Lawful() && WellKept(ops, files, memory)
    ensures var v := Resolved(ops, size, memory, spec, locked);
            v.Ok? ==>
              && At(memory, RegistryPackageName(spec), v.value.version) == Some(v.value)
              && (spec.versionReq.Some? ==> ops.matches(spec.versionReq.value, v.value.version))
  {
    var package := RegistryPackageName(spec);
    WellKeptIsAccepted(ops, files, memory);
    hide WellKept, AgreesWithLock, LoaderAccepts, Find;
    var metadata := LoadedPackage(ops, size, memory, package);
    if metadata.Ok? {
      ServedIsAccepted(ops, size, memory, package);
      hide Served, AcceptsVersion;
      SelectedSatisfies(ops, metadata.value, spec, locked);
    }
  }

  /** What an install writes, it reads back: the reader's extra checks always pass. */
  lemma EntryReadsBack(ops: Semver, doc: Document, base: string, dep: Dependency, v: StoredVersion)
    requires ValidManifest(ops, dep)
    ensures var filled := Filled(Refreshed(SpecOf(dep), base), v);
            var edited := Edited(ops, doc, filled);
            && filled.packageVersion == Some(v.version)
            && (edited.Some? ==> Locked(ops, edited.value, dep.name) == Ok(Some(LockOf(filled))))
  {
    SpecNamesThePackage(ops, dep, base);
    hide Edited, Locked, ValidPackageName, Source, LockOf;
    var filled := Filled(Refreshed(SpecOf(dep), base), v);
    if Edited(ops, doc, filled).Some? { LockRoundTrip(ops, doc, filled); }
  }

  /** The hash is one the tree can have, if the install came to hash one. */
  ghost predicate CanFind(install: Install, dep: Dependency, found: string) {
    dep.path in install.project.caches ==> found in install.project.caches[dep.path].integrities
  }

  lemma InstallSteps(ops: Semver, size: PackageMetadata -> nat, memory: Registry, files: Files, base: string,
                     project: Project, dep: Dependency, found: string)
    requires Installed(ops, size, memory, files, base, project, dep, found).result.Ok?
    ensures var install := Installed(ops, size, memory, files, base, project, dep, found);
            var spec := Refreshed(SpecOf(dep), base);
            var locked := Locked(ops, project.lock, dep.name);
            && ValidManifest(ops, dep) && locked.Ok?
            && var v := Resolved(ops, size, memory, spec, locked.value);
            && v.Ok?
            && install.result.value == Filled(spec, v.value)
            && Edited(ops, project.lock, Filled(spec, v.value)) == Some(install.project.lock)
            && dep.path in install.project.caches
            && IsPackage(install.project.caches[dep.path], found, RegistryPackageName(spec), v.value)
  {
    hide Edited, Locked, Resolved, FetchedArchive, AcceptsPath, ValidManifest, Refreshed, SpecOf, Filled;
  }

  /** A successful install installs a listed release that meets the requirement, and pins it. */
  lemma InstallPins(ops: Semver, size: PackageMetadata -> nat, memory: Registry, files: Files, base: string,
                    project: Project, dep: Dependency, found: string)
    requires ops.Lawful() && WellKept(ops, files, memory)
    requires var install := Installed(ops, size, memory, files, base, project, dep, found);
             install.result.Ok? && CanFind(install, dep, found)
    ensures var install := Installed(ops, size, memory, files, base, project, dep, found);
            var spec := install.result.value;
            && spec.packageVersion.Some?
            && var v := At(memory, PackageName(dep), spec.packageVersion.value);
            && v.Some?
            && spec == Filled(Refreshed(SpecOf(dep), base), v.value)
            && dep.path in install.project.caches
            && Pinned(ops, base, install.project, dep, v.value)
  {
    InstallSteps(ops, size, memory, files, base, project, dep, found);
    SpecNamesThePackage(ops, dep, base);
    var locked := Locked(ops, project.lock, dep.name).value;
    var spec := Refreshed(SpecOf(dep), base);
    assert spec.versionReq == dep.versionReq;
    var v := Resolved(ops, size, memory, spec, locked).value;
    var after := Installed(ops, size, memory, files, base, project, dep, found).project;
    assert HoldsPackage(after.caches[dep.path], PackageName(dep), v.version, v.packageIntegrity);
    hide *;
    ResolvedIsListed(ops, size, files, memory, spec, locked);
    EntryReadsBack(ops, project.lock, base, dep, v);
    assert Pinned(ops, base, after, dep, v) by {
      PinnedBy(ops, base, after, dep, v);
    }
  }

  lemma PinnedBy(ops: Semver, base: string, project: Project, dep: Dependency, v: StoredVersion)
    requires ValidManifest(ops, dep) && (dep.versionReq.Some? ==> ops.matches(dep.versionReq.value, v.version))
    requires Locked(ops, project.lock, dep.name) == Ok(Some(LockOf(Filled(Refreshed(SpecOf(dep), base), v))))
    requires dep.path in project.caches ==>
               HoldsPackage(project.caches[dep.path], PackageName(dep), v.version, v.packageIntegrity)
    ensures Pinned(ops, base, project, dep, v)
  {
  }

  // ----- reinstalling -----

  /** The pinned release is chosen again whenever it is still listed, yanked or not, and the answer of the
      server is not too long; otherwise the install is refused. */
  lemma PinnedIsResolved(ops: Semver, size: PackageMetadata -> nat, files: Files, memory: Registry, base: string,
                         dep: Dependency, v: StoredVersion)
    requires ops.Lawful() && WellKept(ops, files, memory) && ValidManifest(ops, dep)
    requires dep.versionReq.Some? ==> ops.matches(dep.versionReq.value, v.version)
    requires var w := At(memory, PackageName(dep), v.version);
             w.Some? ==> SameRelease(v, w.value)
    ensures var spec := Refreshed(SpecOf(dep), base);
            var w := At(memory, PackageName(dep), v.version);
            var resolved := Resolved(ops, size, memory, spec, Some(LockOf(Filled(spec, v))));
            if w.Some? && Fits(ops, size, memory, PackageName(dep)) then resolved == Ok(w.value) else resolved.Err?
  {
    hide WellKept, LoaderAccepts, ValidPackageName, ValidManifest, Source, Served, AcceptsMetadata, Find;
    SpecNamesThePackage(ops, dep, base);
    var package := PackageName(dep);
    WellKeptIsAccepted(ops, files, memory);
    if package in memory {
      hide LoadedPackage, Fits;
      ServedIsAccepted(ops, size, memory, package);
    } else {
      NotListed(ops, size, memory, package, v.version);
    }
  }

  lemma NotListed(ops: Semver, size: PackageMetadata -> nat, memory: Registry, package: string, version: string)
    requires package !in memory
    ensures At(memory, package, version).None? && LoadedPackage(ops, size, memory, package).Err?
  {
  }

  lemma PinnedIsWritable(ops: Semver, base: string, project: Project, dep: Dependency, v: StoredVersion)
    requires Pinned(ops, base, project, dep, v)
    ensures Edited(ops, project.lock, Filled(Refreshed(SpecOf(dep), base), v)).Some?
  {
    hide ValidIntegrity, ValidSignatureKind, ValidCommit, ValidPackageName, Get, TableOf, Fields;
    hide Source, SpecOf, Refreshed, Filled;
  }

  /** The tree whose hash an install checks. */
  function HashedTree(files: Files, caches: Caches, path: string, v: StoredVersion): Option<Tree> {
    if path in caches then Some(caches[path])
    else
      var archive := FetchedArchive(files, v.archivePath);
      if archive.Some? then Some(archive.value.tree) else None
  }

  /** Against a well-kept server, reinstalling a pinned release succeeds exactly when it is still listed, the
      answer that lists it is not too long, and the tree is found with the hash it was published with. It then
      installs the same version with the same integrities, and the lock entry stays as it was. */
  lemma ReinstallIff(ops: Semver, size: PackageMetadata -> nat, files: Files, memory: Registry, base: string,
                     project: Project, dep: Dependency, v: StoredVersion, found: string)
    requires ops.Lawful() && WellKept(ops, files, memory) && Pinned(ops, base, project, dep, v)
    requires var w := At(memory, PackageName(dep), v.version);
             w.Some? ==> SameRelease(v, w.value)
    ensures var again := Installed(ops, size, memory, files, base, project, dep, found);
            var listed := At(memory, PackageName(dep), v.version).Some? && Fits(ops, size, memory, PackageName(dep));
            && (again.result.Ok? <==> listed && found == v.packageIntegrity)
            && (again.result.Ok? ==>
                  && again.result.value == Filled(Refreshed(SpecOf(dep), base), v)
                  && Pinned(ops, base, again.project, dep, v))
            && (listed ==>
                  && HashedTree(files, project.caches, dep.path, v).Some?
                  && again.project.caches == project.caches[dep.path := HashedTree(files, project.caches, dep.path, v).value])
            && (!listed ==> again.project == project)
  {
    hide Edited, Locked, LockOf, WellKept, Resolved, At, FetchedArchive, HashedTree, ValidManifest, Refreshed, SpecOf,
         Filled, Fits, Installed, Unpacked, HoldsPackage, PackageName, RegistryPackageName, Find;
    SpecNamesThePackage(ops, dep, base);
    PinnedIsWritable(ops, base, project, dep, v);
    PinnedIsResolved(ops, size, files, memory, base, dep, v);
    EntryReadsBack(ops, project.lock, base, dep, v);
    InstallEnds(ops, size, memory, files, base, project, dep, found, LockOf(Filled(Refreshed(SpecOf(dep), base), v)));
    var listed := At(memory, PackageName(dep), v.version);
    if listed.Some? {
      UnpackedAgain(ops, files, memory, base, project, dep, v, found);
      FilledAlike(Refreshed(SpecOf(dep), base), v, listed.value);
    }
  }

  lemma FilledAlike(spec: DependencySpec, v: StoredVersion, w: StoredVersion)
    requires SameRelease(v, w)
    ensures Filled(spec, w) == Filled(spec, v)
  {
  }

  /** How an install goes on from the version that is right. */
  lemma InstallEnds(ops: Semver, size: PackageMetadata -> nat, memory: Registry, files: Files, base: string,
                    project: Project, dep: Dependency, found: string, lock: LockedPackage)
    requires ValidManifest(ops, dep) && Locked(ops, project.lock, dep.name) == Ok(Some(lock))
    ensures var spec := Refreshed(SpecOf(dep), base);
            var v := Resolved(ops, size, memory, spec, Some(lock));
            Installed(ops, size, memory, files, base, project, dep, found)
            == if v.Err? then Install(project, Err(v.error))
               else
                 var unpacked := Unpacked(files, project.caches, dep.path, found, RegistryPackageName(spec), v.value);
                 var edited := Edited(ops, project.lock, Filled(spec, v.value));
                 if unpacked.1.Err? then Install(project.(caches := unpacked.0), Err(unpacked.1.error))
                 else if edited.None? then Install(project.(caches := unpacked.0), Err(LockNotWritten))
                 else Install(Project(unpacked.0, edited.value), Ok(Filled(spec, v.value)))
  {
    hide Edited, Locked, Resolved, Unpacked, ValidManifest, Refreshed, SpecOf, Filled;
  }

  /** The tree of a pinned release is there, and accepted when it is found with the published hash. */
  lemma UnpackedAgain(ops: Semver, files: Files, memory: Registry, base: string, project: Project, dep: Dependency,
                      v: StoredVersion, found: string)
    requires WellKept(ops, files, memory) && Pinned(ops, base, project, dep, v)
    requires At(memory, PackageName(dep), v.version).Some?
    requires SameRelease(v, At(memory, PackageName(dep), v.version).value)
    ensures var w := At(memory, PackageName(dep), v.version).value;
            var unpacked := Unpacked(files, project.caches, dep.path, found, PackageName(dep), w);
            var tree := HashedTree(files, project.caches, dep.path, v);
            && tree.Some? && unpacked.0 == project.caches[dep.path := tree.value]
            && (unpacked.1.Ok? <==> found == v.packageIntegrity)
            && HoldsPackage(tree.value, PackageName(dep), v.version, v.packageIntegrity)
  {
    ListedIsFetched(ops, files, memory, PackageName(dep), v.version);
    hide WellKept, Locked, ValidManifest, SpecOf, Refreshed, At, FetchedArchive, AcceptsPath, AlwaysPackage;
  }

  // ----- over runs of the server -----

  /** The project as the install left it, as far as the dependency is concerned; its package cache may have
      been deleted, and everything else in the project may differ. */
  predicate StillInstalled(ops: Semver, left: Project, later: Project, dep: Dependency) {
    && Locked(ops, later.lock, dep.name) == Locked(ops, left.lock, dep.name)
    && (dep.path in later.caches && dep.path in left.caches ==> later.caches[dep.path] == left.caches[dep.path])
  }

  /** The same release under the same lock entry, and its package in the cache. */
  ghost predicate SameInstall(ops: Semver, first: Install, again: Install, dep: Dependency) {
    && again.result.Ok? && again.result == first.result
    && Locked(ops, again.project.lock, dep.name) == Locked(ops, first.project.lock, dep.name)
    && Cached(first, dep) && Cached(again, dep)
  }

  predicate Cached(install: Install, dep: Dependency)
    requires install.result.Ok?
  {
    var spec := install.result.value;
    && dep.path in install.project.caches && spec.packageVersion.Some? && spec.integrity.Some?
    && HoldsPackage(install.project.caches[dep.path], PackageName(dep), spec.packageVersion.value, spec.integrity.value)
  }

  /** An install that succeeded, and a project that has been left alone since. */
  ghost predicate InstalledBefore(ops: Semver, size: PackageMetadata -> nat, s: Server, base: string, project: Project,
                                  dep: Dependency, found: string, later: Project)
  {
    var first := Installed(ops, size, s.memory, s.files, base, project, dep, found);
    && first.result.Ok? && CanFind(first, dep, found)
    && StillInstalled(ops, first.project, later, dep)
  }

  /** The tree to be checked has the hash of the release, however it is listed. */
  predicate OneHash(t: Server, later: Project, dep: Dependency, v: StoredVersion) {
    var tree := HashedTree(t.files, later.caches, dep.path, v);
    tree.Some? && tree.value.integrities == {v.packageIntegrity}
  }

  /** There is a tree to be checked, it is that of the release, and one of its hashes is the published one. */
  predicate TreeIsThere(t: Server, later: Project, dep: Dependency, v: StoredVersion) {
    var tree := HashedTree(t.files, later.caches, dep.path, v);
    tree.Some? && HoldsPackage(tree.value, PackageName(dep), v.version, v.packageIntegrity)
  }

  /** The release of an install is listed, in an answer that is not too long, and the tree to be checked has
      the hash of the release however it is listed. */
  predicate Reinstallable(ops: Semver, size: PackageMetadata -> nat, t: Server, later: Project, dep: Dependency,
                          version: Option<string>)
  {
    && version.Some?
    && Fits(ops, size, t.memory, PackageName(dep))
    && var w := At(t.memory, PackageName(dep), version.value);
    && w.Some? && OneHash(t, later, dep, w.value)
  }

  /** Whatever hash the tree is found with, the reinstall ends as the first install did. */
  ghost predicate AlwaysAgain(ops: Semver, size: PackageMetadata -> nat, first: Install, t: Server, base: string,
                              later: Project, dep: Dependency)
  {
    forall found ::
      var again := Installed(ops, size, t.memory, t.files, base, later, dep, found);
      CanFind(again, dep, found) ==> SameInstall(ops, first, again, dep)
  }

  /** Reinstalling in a later state of the server. */
  lemma ReinstallLater(ops: Semver, size: PackageMetadata -> nat, s: Server, t: Server, base: string, project: Project,
                       dep: Dependency, found: string, later: Project)
    requires ops.Lawful() && Inv(ops, s) && Inv(ops, t)
    requires InstalledBefore(ops, size, s, base, project, dep, found, later)
    requires var version := Installed(ops, size, s.memory, s.files, base, project, dep, found).result.value.packageVersion;
             version.Some? ==>
               var was, now := At(s.memory, PackageName(dep), version.value), At(t.memory, PackageName(dep), version.value);
               was.Some? && now.Some? ==> SameRelease(was.value, now.value)
    ensures var first := Installed(ops, size, s.memory, s.files, base, project, dep, found);
            && first.result.value.packageVersion.Some?
            && (AlwaysAgain(ops, size, first, t, base, later, dep)
                <==> Reinstallable(ops, size, t, later, dep, first.result.value.packageVersion))
            && var w := At(t.memory, PackageName(dep), first.result.value.packageVersion.value);
            w.Some? ==> TreeIsThere(t, later, dep, w.value)
  {
    InstallPins(ops, size, s.memory, s.files, base, project, dep, found);
    var first := Installed(ops, size, s.memory, s.files, base, project, dep, found);
    var v := At(s.memory, PackageName(dep), first.result.value.packageVersion.value).value;
    assert v.version == first.result.value.packageVersion.value;
    PinnedLater(ops, base, first.project, later, dep, v);
    if At(t.memory, PackageName(dep), v.version).Some? {
      TreeIsStillThere(ops, t, base, later, dep, v);
    }
    hide TreeIsThere;
    hide Installed, WellKept, AddedOnce, ValidRequest, Evolves, At, Fits, HashedTree, Pinned;
    forall again ensures AgainIff(ops, size, first, t, base, later, dep, v, again) {
      AgainOnce(ops, size, first, t, base, later, dep, v, again);
    }
    hide AgainIff, AlwaysAgain, Reinstallable;
    FromEachHash(ops, size, first, t, base, later, dep, v);
  }

  lemma TreeIsStillThere(ops: Semver, t: Server, base: string, later: Project, dep: Dependency, v: StoredVersion)
    requires WellKept(ops, t.files, t.memory) && Pinned(ops, base, later, dep, v)
    requires At(t.memory, PackageName(dep), v.version).Some?
    requires SameRelease(v, At(t.memory, PackageName(dep), v.version).value)
    ensures TreeIsThere(t, later, dep, At(t.memory, PackageName(dep), v.version).value)
  {
    UnpackedAgain(ops, t.files, t.memory, base, later, dep, v, v.packageIntegrity);
    hide WellKept, Pinned, At, Unpacked, FetchedArchive;
  }

  /** What one reinstall comes to. */
  ghost predicate AgainIff(ops: Semver, size: PackageMetadata -> nat, first: Install, t: Server, base: string,
                           later: Project, dep: Dependency, v: StoredVersion, found: string)
    requires first.result.Ok?
  {
    var again := Installed(ops, size, t.memory, t.files, base, later, dep, found);
    var listed := At(t.memory, PackageName(dep), v.version).Some? && Fits(ops, size, t.memory, PackageName(dep));
    var tree := HashedTree(t.files, later.caches, dep.path, v);
    && (SameInstall(ops, first, again, dep) <==> listed && found == v.packageIntegrity)
    && (listed ==> tree.Some? && v.packageIntegrity in tree.value.integrities
                   && (CanFind(again, dep, found) <==> found in tree.value.integrities))
    && (found == v.packageIntegrity ==> CanFind(again, dep, found))
  }

  lemma AgainOnce(ops: Semver, size: PackageMetadata -> nat, first: Install, t: Server, base: string,
                  later: Project, dep: Dependency, v: StoredVersion, found: string)
    requires ops.Lawful() && WellKept(ops, t.files, t.memory)
    requires first.result == Ok(Filled(Refreshed(SpecOf(dep), base), v))
    requires Pinned(ops, base, first.project, dep, v) && dep.path in first.project.caches
    requires Pinned(ops, base, later, dep, v)
    requires var w := At(t.memory, PackageName(dep), v.version);
             w.Some? ==> SameRelease(v, w.value)
    ensures AgainIff(ops, size, first, t, base, later, dep, v, found)
  {
    hide Installed, WellKept, At, Fits, HashedTree, Locked, ValidManifest, SpecOf, Refreshed;
    ReinstallIff(ops, size, t.files, t.memory, base, later, dep, v, found);
    var again := Installed(ops, size, t.memory, t.files, base, later, dep, found);
    if At(t.memory, PackageName(dep), v.version).Some? && Fits(ops, size, t.memory, PackageName(dep)) {
      UnpackedAgain(ops, t.files, t.memory, base, later, dep, v, found);
    }
  }

  lemma FromEachHash(ops: Semver, size: PackageMetadata -> nat, first: Install, t: Server, base: string,
                     later: Project, dep: Dependency, v: StoredVersion)
    requires first.result.Ok? && first.result.value.packageVersion == Some(v.version)
    requires var w := At(t.memory, PackageName(dep), v.version);
             w.Some? ==> SameRelease(v, w.value)
    requires forall found :: AgainIff(ops, size, first, t, base, later, dep, v, found)
    ensures AlwaysAgain(ops, size, first, t, base, later, dep)
       <==> Reinstallable(ops, size, t, later, dep, first.result.value.packageVersion)
  {
    hide Installed, At, Fits, FetchedArchive, CanFind, SameInstall;
    var h := v.packageIntegrity;
    assert AgainIff(ops, size, first, t, base, later, dep, v, h);
    var tree := HashedTree(t.files, later.caches, dep.path, v);
    if AlwaysAgain(ops, size, first, t, base, later, dep) {
      assert SameInstall(ops, first, Installed(ops, size, t.memory, t.files, base, later, dep, h), dep);
      forall found ensures found in tree.value.integrities <==> found == h {
        assert AgainIff(ops, size, first, t, base, later, dep, v, found);
      }
      assert tree.value.integrities == {h};
    }
    if Reinstallable(ops, size, t, later, dep, first.result.value.packageVersion) {
      forall found ensures var again := Installed(ops, size, t.memory, t.files, base, later, dep, found);
                           CanFind(again, dep, found) ==> SameInstall(ops, first, again, dep) {
        assert AgainIff(ops, size, first, t, base, later, dep, v, found);
      }
    }
  }

  lemma PinnedLater(ops: Semver, base: string, left: Project, later: Project, dep: Dependency, v: StoredVersion)
    requires Pinned(ops, base, left, dep, v) && dep.path in left.caches && StillInstalled(ops, left, later, dep)
    ensures Pinned(ops, base, later, dep, v)
  {
  }

  /** Reinstalling is stable: whatever is published, yanked or fails after an install, and whatever restarts
      once the release is on the server's disk, a reinstall ends as the first install did, with the package
      cache or without it, and leaves the same lock entry, if and only if the answer for the package has not
      grown too long and its tree has one hash in every order of listing. */
  lemma ReinstallIsStable(ops: Semver, size: PackageMetadata -> nat, s: Server, base: string, project: Project,
                          dep: Dependency, found: string, steps: seq<Step>, later: Project)
    requires ops.Lawful() && Inv(ops, s)
    requires InstalledBefore(ops, size, s, base, project, dep, found, later)
    requires var spec := Installed(ops, size, s.memory, s.files, base, project, dep, found).result.value;
             || NoRestart(steps)
             || (spec.packageVersion.Some? && s.disk.Some?
                 && At(s.disk.value, PackageName(dep), spec.packageVersion.value).Some?)
    ensures var first := Installed(ops, size, s.memory, s.files, base, project, dep, found);
            var t := Run(ops, s, steps);
            && first.result.value.packageVersion.Some?
            && var w := At(t.memory, PackageName(dep), first.result.value.packageVersion.value);
            && w.Some? && TreeIsThere(t, later, dep, w.value)
            && (AlwaysAgain(ops, size, first, t, base, later, dep)
                <==> Fits(ops, size, t.memory, PackageName(dep)) && OneHash(t, later, dep, w.value))
  {
    hide Installed, WellKept, AddedOnce, ValidRequest, Evolves;
    InstallPins(ops, size, s.memory, s.files, base, project, dep, found);
    var spec := Installed(ops, size, s.memory, s.files, base, project, dep, found).result.value;
    ListedStays(ops, s, steps, PackageName(dep), spec.packageVersion.value);
    RunKeepsInv(ops, s, steps);
    hide Inv, Run, InstalledBefore, AlwaysAgain, Fits, HashedTree;
    ReinstallLater(ops, size, s, Run(ops, s, steps), base, project, dep, found, later);
  }

  /** Once the server has restarted, a reinstall succeeds, besides, if and only if the release had been saved
      by then: a release that was served from memory alone, because its save had failed, is lost for ever. */
  lemma ReinstallAfterRestartIff(ops: Semver, size: PackageMetadata -> nat, s: Server, base: string, project: Project,
                                 dep: Dependency, found: string, before: seq<Step>, after: seq<Step>, later: Project)
    requires ops.Lawful() && Inv(ops, s) && NoRestart(before)
    requires InstalledBefore(ops, size, s, base, project, dep, found, later)
    ensures var first := Installed(ops, size, s.memory, s.files, base, project, dep, found);
            var u := Run(ops, s, before);
            var t := Run(ops, Next(ops, u, Restart), after);
            && first.result.value.packageVersion.Some?
            && var version := first.result.value.packageVersion.value;
            && At(u.memory, PackageName(dep), version).Some?
            && (AlwaysAgain(ops, size, first, t, base, later, dep) <==>
                  && u.disk.Some? && At(u.disk.value, PackageName(dep), version).Some?
                  && Fits(ops, size, t.memory, PackageName(dep))
                  && OneHash(t, later, dep, At(u.memory, PackageName(dep), version).value))
  {
    hide Installed, WellKept, AddedOnce, ValidRequest, Evolves, At;
    InstallPins(ops, size, s.memory, s.files, base, project, dep, found);
    var package := PackageName(dep);
    var version := Installed(ops, size, s.memory, s.files, base, project, dep, found).result.value.packageVersion.value;
    var u := Run(ops, s, before);
    ListedStays(ops, s, before, package, version);
    RunKeepsInv(ops, s, before);
    AfterRestart(ops, u, after, package, version);
    var t := Run(ops, Next(ops, u, Restart), after);
    hide Inv, Run, Next, InstalledBefore, AlwaysAgain, Fits, HashedTree;
    ReinstallLater(ops, size, s, t, base, project, dep, found, later);
  }
}
