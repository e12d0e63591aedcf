/** What an unpacked package can hash to, and when that is one hash only. */
module PackageHashes {
  import opened Wrappers
  import opened Utf8
  import opened PackageTree
  import opened PackageCopy
  import opened PackageOrder
  import opened RegistryServer

  /** Without collisions. */
  ghost predicate Injective(digest: seq<Byte> -> string) {
    forall a, b :: digest(a) == digest(b) ==> a == b
  }

  /** A hash that the files of the entries have in some order of listing. */
  ghost predicate HashOf(entries: seq<Entry>, digest: seq<Byte> -> string, hash: string) {
    exists shown ::
      && Shows(shown, Copy(entries, [], NOTHING).destination)
      && TreePreimage(shown).Ok? && hash == digest(TreePreimage(shown).value)
  }

  /** What the registry knows as a tree is these files. */
  ghost predicate Describes(tree: Tree, entries: seq<Entry>, digest: seq<Byte> -> string) {
    forall hash :: hash in tree.integrities <==> HashOf(entries, digest, hash)
  }

  /** A package is found with one hash, the same at every hashing, if and only if no two of its files have one
      slash-separated name and different contents. */
  lemma OneHashIff(tree: Tree, entries: seq<Entry>, digest: seq<Byte> -> string)
    requires WellFormed(entries) && Copy(entries, [], NOTHING).ok
    requires Injective(digest) && Describes(tree, entries, digest)
    ensures Collect(entries, []).Ok?
    ensures (exists hash :: tree.integrities == {hash}) <==> NoClash(Collect(entries, []).value)
  {
    CopiedFiles(entries);
    if NoClash(Collect(entries, []).value) {
      OneHash(tree, entries, digest);
    } else {
      TwoHashes(tree, entries, digest);
    }
  }

  lemma OneHash(tree: Tree, entries: seq<Entry>, digest: seq<Byte> -> string)
    requires WellFormed(entries) && Copy(entries, [], NOTHING).ok && Collect(entries, []).Ok?
    requires Describes(tree, entries, digest) && NoClash(Collect(entries, []).value)
    ensures exists hash :: tree.integrities == {hash}
  {
    CopyHashesAlikeIff(entries);
    CopyIsShown(entries);
    hide Shows, Copy, WellFormed, Kept, NoClash, Collect;
    var preimage := TreePreimage(entries).value;
    var hash := digest(preimage);
    assert TreePreimage(Kept(entries)) == TreePreimage(entries);
    forall h ensures h in tree.integrities <==> h == hash {
      assert HashOf(entries, digest, h) <==> h == hash;
    }
    assert tree.integrities == {hash};
  }

  lemma TwoHashes(tree: Tree, entries: seq<Entry>, digest: seq<Byte> -> string)
    requires WellFormed(entries) && Copy(entries, [], NOTHING).ok && Collect(entries, []).Ok?
    requires Injective(digest) && Describes(tree, entries, digest) && !NoClash(Collect(entries, []).value)
    ensures !exists hash :: tree.integrities == {hash}
  {
    hide Shows, Copy, Collect, WellFormed, TreePreimage, Slash;
    var files := Collect(entries, []).value;
    var f, g :| f in files && g in files && Slash(f.path) == Slash(g.path) && f.content != g.content;
    var a := ShownWithFirst(entries, f);
    var b := ShownWithFirst(entries, g);
    OtherHash(a, b, f, g);
    var x, y := digest(TreePreimage(a).value), digest(TreePreimage(b).value);
    assert HashOf(entries, digest, x) && HashOf(entries, digest, y);
    assert x in tree.integrities && y in tree.integrities && x != y;
  }

  lemma OtherHash(a: seq<Entry>, b: seq<Entry>, f: PathFile, g: PathFile)
    requires WellFormed(a) && Collect(a, []).Ok? && Collect(a, []).value != [] && Collect(a, []).value[0] == f
    requires WellFormed(b) && Collect(b, []).Ok? && Collect(b, []).value != [] && Collect(b, []).value[0] == g
    requires Slash(f.path) == Slash(g.path) && f.content != g.content
    ensures TreePreimage(a).Ok? && TreePreimage(b).Ok? && TreePreimage(a) != TreePreimage(b)
  {
    CollectedNulFree(a, []);
    CollectedNulFree(b, []);
    PreimageOfTree(a);
    PreimageOfTree(b);
    FirstOfNamed(Collect(a, []).value);
    hide *;
    OtherPreimage(a, b, g);
  }

  lemma FirstOfNamed(files: seq<PathFile>)
    requires files != []
    ensures First(Named(files), Slash(files[0].path)) == Some(files[0].content)
  {
    hide Slash;
  }
}
