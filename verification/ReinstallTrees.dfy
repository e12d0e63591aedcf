/** Which packages can be reinstalled for ever, told from the files in them. */
module ReinstallTrees {
  import opened RegistryNames
  import opened RegistryVersions
  import opened RegistryServer
  import opened RegistryServerSafety
  import opened RegistryClient
  import opened Reinstall
  import PackageTree
  import PackageCopy
  import PackageOrder
  import PackageHashes
  import Utf8

  /** The tree to be checked always has the published hash, if and only if no two of its files have one
      slash-separated name and different contents. */
  lemma OneHashIffNoClash(t: Server, later: Project, dep: Dependency, v: StoredVersion,
                          entries: seq<PackageTree.Entry>, digest: seq<Utf8.Byte> -> string)
    requires TreeIsThere(t, later, dep, v)
    requires PackageTree.WellFormed(entries) && PackageCopy.Copy(entries, [], PackageCopy.NOTHING).ok
    requires PackageHashes.Injective(digest)
    requires PackageHashes.Describes(HashedTree(t.files, later.caches, dep.path, v).value, entries, digest)
    ensures PackageTree.Collect(entries, []).Ok?
    ensures OneHash(t, later, dep, v) <==> PackageOrder.NoClash(PackageTree.Collect(entries, []).value)
  {
    var tree := HashedTree(t.files, later.caches, dep.path, v).value;
    PackageHashes.OneHashIff(tree, entries, digest);
    hide PackageTree.Collect, PackageOrder.NoClash, PackageHashes.Describes, HashedTree;
    if hash :| tree.integrities == {hash} {
      assert v.packageIntegrity in tree.integrities;
    }
  }

  /** Reinstalling is stable, for the files of the package: with the tree unpacked from them, every reinstall in
      every later state of the server ends as the first install did, if and only if the answer for the package
      has not grown too long and no two files have one slash-separated name and different contents. */
  lemma StableIffNoClash(ops: Semver, size: PackageMetadata -> nat, s: Server, base: string, project: Project,
                         dep: Dependency, found: string, steps: seq<Step>, later: Project,
                         entries: seq<PackageTree.Entry>, digest: seq<Utf8.Byte> -> string)
    requires ops.Lawful() && Inv(ops, s)
    requires InstalledBefore(ops, size, s, base, project, dep, found, later)
    requires var spec := Installed(ops, size, s.memory, s.files, base, project, dep, found).result.value;
             || NoRestart(steps)
             || (spec.packageVersion.Some? && s.disk.Some?
                 && At(s.disk.value, PackageName(dep), spec.packageVersion.value).Some?)
    requires PackageTree.WellFormed(entries) && PackageCopy.Copy(entries, [], PackageCopy.NOTHING).ok
    requires PackageHashes.Injective(digest)
    ensures var first := Installed(ops, size, s.memory, s.files, base, project, dep, found);
            var t := Run(ops, s, steps);
            && first.result.value.packageVersion.Some?
            && var w := At(t.memory, PackageName(dep), first.result.value.packageVersion.value);
            && w.Some?
            && var tree := HashedTree(t.files, later.caches, dep.path, w.value);
            && tree.Some?
            && PackageTree.Collect(entries, []).Ok?
            && (PackageHashes.Describes(tree.value, entries, digest) ==>
                  (AlwaysAgain(ops, size, first, t, base, later, dep)
                   <==> && Fits(ops, size, t.memory, PackageName(dep))
                        && PackageOrder.NoClash(PackageTree.Collect(entries, []).value)))
  {
    ReinstallIsStable(ops, size, s, base, project, dep, found, steps, later);
    PackageCopy.CopiedFiles(entries);
    hide Inv, Run, Installed, InstalledBefore, AlwaysAgain, Fits, HashedTree, OneHash, At;
    hide PackageTree.Collect, PackageOrder.NoClash, PackageHashes.Describes, PackageTree.WellFormed, PackageCopy.Copy;
    var first, t := Installed(ops, size, s.memory, s.files, base, project, dep, found), Run(ops, s, steps);
    var w := At(t.memory, PackageName(dep), first.result.value.packageVersion.value).value;
    if PackageHashes.Describes(HashedTree(t.files, later.caches, dep.path, w).value, entries, digest) {
      OneHashIffNoClash(t, later, dep, w, entries, digest);
    }
  }
}
