/** Installing in place: the project's package caches and lock file. */
module RegistryInstall {
  import opened Wrappers
  import opened RegistryNames
  import opened RegistryVersions
  import opened RegistryServer
  import opened LockFile
  import opened RegistryClient

  class LocalProject {
    var caches: Caches
    const lock: Lock

    constructor (caches: Caches, lock: Lock)
      ensures this.caches == caches && this.lock == lock
    {
      this.caches := caches;
      this.lock := lock;
    }

    ghost function State(): Project
      reads this, lock
    {
      Project(caches, lock.doc)
    }

    /** The package is taken from its cache, or else downloaded and unpacked into it. */
    method Unpack(files: Files, path: string, found: string, package: string, v: StoredVersion)
      returns (r: Result<(), ClientError>)
      modifies this`caches
      ensures (caches, r) == Unpacked(files, old(caches), path, found, package, v)
      ensures forall p | p in old(caches) :: p in caches && caches[p] == old(caches)[p]
    {
      if path in caches {
        return if IsPackage(caches[path], found, package, v) then Ok(()) else Err(BadCache);
      }
      if !AcceptsPath(v.archivePath) { return Err(NoArchive); }
      var archive := FetchedArchive(files, v.archivePath);
      if archive.None? { return Err(NoArchive); }
      if archive.value.integrity != v.archiveIntegrity { return Err(BadArchive); }
      caches := caches[path := archive.value.tree];
      if !archive.value.unpacks { return Err(BadArchive); }
      return if IsPackage(caches[path], found, package, v) then Ok(()) else Err(BadArchive);
    }

    method Install(ops: Semver, size: PackageMetadata -> nat, memory: Registry, files: Files, base: string,
                   dep: Dependency, found: string)
      returns (r: Result<DependencySpec, ClientError>)
      modifies this`caches, lock
      ensures RegistryClient.Install(State(), r) == Installed(ops, size, memory, files, base, old(State()), dep, found)
      ensures forall path | path in old(caches) :: path in caches && caches[path] == old(caches)[path]
      ensures r.Ok? ==> dep.path in caches
      ensures r.Err? ==> lock.doc == old(lock.doc)
    {
      hide Edited, Locked, Resolved, FetchedArchive, AcceptsPath, ValidManifest;
      if !ValidManifest(ops, dep) { return Err(BadManifest); }
      var locked := Locked(ops, lock.doc, dep.name);
      if locked.Err? { return Err(BadLock); }
      var spec := SpecOf(dep);
      if spec.registry != Some(base) {
        spec := spec.(registry := Some(base), source := Source(base, RegistryPackageName(spec)));
      }
      var v := Resolved(ops, size, memory, spec, locked.value);
      if v.Err? { return Err(v.error); }
      var unpacked := Unpack(files, dep.path, found, RegistryPackageName(spec), v.value);
      if unpacked.Err? { return Err(unpacked.error); }
      spec := Filled(spec, v.value);
      var written := lock.Write(ops, spec);
      if !written { return Err(LockNotWritten); }
      return Ok(spec);
    }
  }
}
