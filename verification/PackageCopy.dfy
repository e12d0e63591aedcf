/** Copying a package tree, and when the copy hashes like the original however its directories are listed. */
module PackageCopy {
  import opened Wrappers
  import opened Utf8
  import opened PackageTree

  /** What a copy has created. */
  datatype Destination = Destination(dirs: set<Path>, files: map<Path, seq<Byte>>)

  const NOTHING := Destination({}, map[])

  datatype Copying = Copying(destination: Destination, ok: bool)

  /** A refused symbolic link leaves what was copied before it. */
  function CopyEntry(e: Entry, prefix: Path, d: Destination): Copying
    decreases e
  {
    var path := prefix + [e.name];
    match e.node
    case Symlink => Copying(d, false)
    case Dir(entries) => if IsGitDir(e) then Copying(d, true) else Copy(entries, path, d.(dirs := d.dirs + {path}))
    case File(content) => Copying(d.(files := d.files[path := content]), true)
    case Special => Copying(d, true)
  }

  function Copy(entries: seq<Entry>, prefix: Path, d: Destination): Copying
    decreases entries
  {
    if entries == [] then Copying(d, true)
    else
      var head := CopyEntry(entries[0], prefix, d);
      if !head.ok then head else Copy(entries[1..], prefix, head.destination)
  }

  // ----- reading a directory back -----

  /** All files below, `.git` or not. */
  function EntryFiles(e: Entry, prefix: Path): seq<PathFile>
    decreases e
  {
    match e.node
    case Dir(entries) => Files(entries, prefix + [e.name])
    case File(content) => [PathFile(prefix + [e.name], content)]
    case _ => []
  }

  function Files(entries: seq<Entry>, prefix: Path): seq<PathFile>
    decreases entries
  {
    if entries == [] then [] else EntryFiles(entries[0], prefix) + Files(entries[1..], prefix)
  }

  function EntryDirs(e: Entry, prefix: Path): set<Path>
    decreases e
  {
    if e.node.Dir? then {prefix + [e.name]} + Dirs(e.node.entries, prefix + [e.name]) else {}
  }

  function Dirs(entries: seq<Entry>, prefix: Path): set<Path>
    decreases entries
  {
    if entries == [] then {} else EntryDirs(entries[0], prefix) + Dirs(entries[1..], prefix)
  }

  /** Nothing but files and directories. */
  predicate Plain(entries: seq<Entry>) {
    entries != [] ==>
      && (entries[0].node.File? || (entries[0].node.Dir? && Plain(entries[0].node.entries)))
      && Plain(entries[1..])
  }

  /** The tree holds exactly the directories and files that were created, in some order of listing. */
  ghost predicate Shows(entries: seq<Entry>, d: Destination) {
    && WellFormed(entries) && Plain(entries)
    && Dirs(entries, []) == d.dirs
    && forall f :: f in Files(entries, []) <==> f.path in d.files && d.files[f.path] == f.content
  }

  // ----- what is collected -----

  predicate Below(path: Path, prefix: Path) {
    |path| > |prefix| && path[..|prefix|] == prefix
  }

  lemma {:induction false} CollectedBelow(entries: seq<Entry>, prefix: Path)
    requires Collect(entries, prefix).Ok?
    ensures forall f | f in Collect(entries, prefix).value ::
              Below(f.path, prefix) && exists e | e in entries :: e.name == f.path[|prefix|]
    decreases entries
  {
    if entries != [] {
      EntryCollectedBelow(entries[0], prefix);
      CollectedBelow(entries[1..], prefix);
      assert entries[0] in entries && forall e | e in entries[1..] :: e in entries;
    }
  }

  lemma {:induction false} EntryCollectedBelow(e: Entry, prefix: Path)
    requires CollectEntry(e, prefix).Ok?
    ensures forall f | f in CollectEntry(e, prefix).value :: Below(f.path, prefix) && f.path[|prefix|] == e.name
    decreases e
  {
    if e.node.Dir? && !IsGitDir(e) {
      var path := prefix + [e.name];
      CollectedBelow(e.node.entries, path);
      forall f | f in CollectEntry(e, prefix).value ensures Below(f.path, prefix) && f.path[|prefix|] == e.name {
        assert f.path[..|path|] == path;
        assert f.path[..|prefix|] == path[..|prefix|] == prefix;
        assert f.path[|prefix|] == path[|prefix|];
      }
    }
  }

  predicate DistinctPaths(files: seq<PathFile>) {
    forall i, j | 0 <= i < j < |files| :: files[i].path != files[j].path
  }

  lemma DistinctConcat(a: seq<PathFile>, b: seq<PathFile>)
    requires DistinctPaths(a) && DistinctPaths(b)
    requires forall f, g | f in a && g in b :: f.path != g.path
    ensures DistinctPaths(a + b)
  {
  }

  lemma {:induction false} CollectedDistinct(entries: seq<Entry>, prefix: Path)
    requires WellFormed(entries) && Collect(entries, prefix).Ok?
    ensures DistinctPaths(Collect(entries, prefix).value)
    decreases entries
  {
    if entries != [] {
      var e := entries[0];
      if e.node.Dir? && !IsGitDir(e) { CollectedDistinct(e.node.entries, prefix + [e.name]); }
      CollectedDistinct(entries[1..], prefix);
      EntryCollectedBelow(e, prefix);
      CollectedBelow(entries[1..], prefix);
      DistinctConcat(CollectEntry(e, prefix).value, Collect(entries[1..], prefix).value);
    }
  }

  // ----- the copy creates what is collected -----

  function Put(files: map<Path, seq<Byte>>, more: seq<PathFile>): map<Path, seq<Byte>>
    decreases |more|
  {
    if more == [] then files else Put(files[more[0].path := more[0].content], more[1..])
  }

  lemma {:induction false} PutConcat(files: map<Path, seq<Byte>>, a: seq<PathFile>, b: seq<PathFile>)
    ensures Put(files, a + b) == Put(Put(files, a), b)
    decreases |a|
  {
    if a == [] {
      assert a + b == b;
    } else {
      assert (a + b)[1..] == a[1..] + b;
      PutConcat(files[a[0].path := a[0].content], a[1..], b);
    }
  }

  lemma {:induction false} CopyPutsCollected(entries: seq<Entry>, prefix: Path, d: Destination)
    ensures Copy(entries, prefix, d).ok <==> Collect(entries, prefix).Ok?
    ensures Copy(entries, prefix, d).ok ==>
              Copy(entries, prefix, d).destination.files == Put(d.files, Collect(entries, prefix).value)
    decreases entries
  {
    if entries != [] {
      EntryPutsCollected(entries[0], prefix, d);
      var head := CopyEntry(entries[0], prefix, d);
      if head.ok {
        CopyPutsCollected(entries[1..], prefix, head.destination);
        if Collect(entries[1..], prefix).Ok? {
          PutConcat(d.files, CollectEntry(entries[0], prefix).value, Collect(entries[1..], prefix).value);
        }
      }
    }
  }

  lemma {:induction false} EntryPutsCollected(e: Entry, prefix: Path, d: Destination)
    ensures CopyEntry(e, prefix, d).ok <==> CollectEntry(e, prefix).Ok?
    ensures CopyEntry(e, prefix, d).ok ==>
              CopyEntry(e, prefix, d).destination.files == Put(d.files, CollectEntry(e, prefix).value)
    decreases e
  {
    if e.node.Dir? && !IsGitDir(e) {
      var path := prefix + [e.name];
      CopyPutsCollected(e.node.entries, path, d.(dirs := d.dirs + {path}));
    } else if e.node.File? {
      var f := PathFile(prefix + [e.name], e.node.content);
      assert Put(d.files, [f]) == Put(d.files[f.path := f.content], [f][1..]);
    }
  }

  lemma {:induction false} PutHolds(files: map<Path, seq<Byte>>, more: seq<PathFile>)
    requires DistinctPaths(more)
    ensures forall f: PathFile :: f.path in Put(files, more) && Put(files, more)[f.path] == f.content <==>
              || f in more
              || ((forall g | g in more :: g.path != f.path) && f.path in files && files[f.path] == f.content)
    decreases |more|
  {
    if more != [] {
      var first, rest := more[0], more[1..];
      PutHolds(files[first.path := first.content], rest);
      assert forall g | g in rest :: g.path != first.path;
      assert more == [first] + rest;
    }
  }

  /** Only what was collected, and all of it, is in the copy. */
  lemma CopiedFiles(entries: seq<Entry>)
    requires WellFormed(entries) && Copy(entries, [], NOTHING).ok
    ensures Collect(entries, []).Ok?
    ensures var copied := Copy(entries, [], NOTHING).destination.files;
            forall f: PathFile :: f.path in copied && copied[f.path] == f.content <==> f in Collect(entries, []).value
  {
    CopyPutsCollected(entries, [], NOTHING);
    CollectedDistinct(entries, []);
    PutHolds(NOTHING.files, Collect(entries, []).value);
  }

  predicate NoGit(paths: set<Path>) {
    forall p | p in paths :: p != [] && p[|p| - 1] != ".git"
  }

  lemma {:induction false} CopiedDirs(entries: seq<Entry>, prefix: Path, d: Destination)
    requires NoGit(d.dirs)
    ensures NoGit(Copy(entries, prefix, d).destination.dirs)
    decreases entries
  {
    if entries != [] {
      EntryCopiedDirs(entries[0], prefix, d);
      var head := CopyEntry(entries[0], prefix, d);
      if head.ok { CopiedDirs(entries[1..], prefix, head.destination); }
    }
  }

  lemma {:induction false} EntryCopiedDirs(e: Entry, prefix: Path, d: Destination)
    requires NoGit(d.dirs)
    ensures NoGit(CopyEntry(e, prefix, d).destination.dirs)
    decreases e
  {
    if e.node.Dir? && !IsGitDir(e) {
      var path := prefix + [e.name];
      assert path[|path| - 1] == e.name;
      CopiedDirs(e.node.entries, path, d.(dirs := d.dirs + {path}));
    }
  }

  /** In a plain tree without `.git` directories everything is collected. */
  lemma {:induction false} AllCollected(entries: seq<Entry>, prefix: Path)
    requires Plain(entries) && NoGit(Dirs(entries, prefix))
    ensures Collect(entries, prefix) == Ok(Files(entries, prefix))
    decreases entries
  {
    if entries != [] {
      var e := entries[0];
      if e.node.Dir? {
        var path := prefix + [e.name];
        assert path in Dirs(entries, prefix) && path[|path| - 1] == e.name;
        assert Dirs(e.node.entries, path) <= Dirs(entries, prefix);
        AllCollected(e.node.entries, path);
      }
      AllCollected(entries[1..], prefix);
    }
  }

  /** A tree that shows the copy has the same files collected as the original. */
  lemma ShownIsCollected(entries: seq<Entry>, shown: seq<Entry>)
    requires WellFormed(entries) && Copy(entries, [], NOTHING).ok && Shows(shown, Copy(entries, [], NOTHING).destination)
    ensures Collect(entries, []).Ok? && Collect(shown, []).Ok?
    ensures DistinctPaths(Collect(entries, []).value) && DistinctPaths(Collect(shown, []).value)
    ensures forall f :: f in Collect(shown, []).value <==> f in Collect(entries, []).value
  {
    CopiedFiles(entries);
    CopiedDirs(entries, [], NOTHING);
    AllCollected(shown, []);
    CollectedDistinct(entries, []);
    CollectedDistinct(shown, []);
  }
}
