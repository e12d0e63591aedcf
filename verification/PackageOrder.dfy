/** When the hash of a package does not depend on the order in which its directories are listed. */
module PackageOrder {
  import opened Wrappers
  import opened StringOrder
  import opened Utf8
  import opened PackageTree
  import opened PackageCopy

  // ----- the sort forgets the order, where names decide contents -----

  /** No two files with one slash-separated name and different contents. */
  predicate NoClash(files: seq<PathFile>) {
    forall f, g | f in files && g in files && Slash(f.path) == Slash(g.path) :: f.content == g.content
  }

  lemma InsertionsCommute(a: Item, b: Item, s: seq<Item>)
    requires a.name == b.name ==> a == b
    ensures Inserted(a, Inserted(b, s)) == Inserted(b, Inserted(a, s))
  {
    LessIsTotal(a.name, b.name);
    if Less(a.name, b.name) {
      LesserCommutes(a, b, s);
    } else if Less(b.name, a.name) {
      LesserCommutes(b, a, s);
    }
  }

  lemma {:induction false} LesserCommutes(a: Item, b: Item, s: seq<Item>)
    requires Less(a.name, b.name)
    ensures Inserted(a, Inserted(b, s)) == Inserted(b, Inserted(a, s))
  {
    LessIsAsymmetric(a.name, b.name);
    if s != [] {
      var n := s[0].name;
      if AtMost(b.name, n) {
        if Less(b.name, n) { LessIsTransitive(a.name, b.name, n); }
      } else if !AtMost(a.name, n) {
        LesserCommutes(a, b, s[1..]);
      }
    }
  }

  lemma {:induction false} SortedInsertedAnywhere(u: seq<Item>, x: Item, v: seq<Item>)
    requires forall y | y in u && y.name == x.name :: y == x
    ensures Sorted(u + [x] + v) == Inserted(x, Sorted(u + v))
  {
    if u == [] {
      assert u + [x] + v == [x] + v && u + v == v;
    } else {
      assert (u + [x] + v)[1..] == u[1..] + [x] + v && (u + v)[1..] == u[1..] + v;
      SortedInsertedAnywhere(u[1..], x, v);
      assert u[0] in u;
      InsertionsCommute(u[0], x, Sorted(u[1..] + v));
    }
  }

  lemma {:induction false} SameFilesSameSort(a: seq<PathFile>, b: seq<PathFile>)
    requires DistinctPaths(a) && DistinctPaths(b) && NoClash(a) && forall f :: f in a <==> f in b
    ensures Sorted(Named(a)) == Sorted(Named(b))
  {
    if a == [] {
      EmptyAlike(a, b);
    } else {
      var f := a[0];
      assert f in b;
      var k :| 0 <= k < |b| && b[k] == f;
      var u, v := b[..k], b[k + 1..];
      assert b == u + [f] + v;
      assert forall g | g in u :: g in b;
      RestAlike(a, u, v);
      SameFilesSameSort(a[1..], u + v);
      NamedAround(a, u, f, v);
    }
  }

  lemma EmptyAlike(a: seq<PathFile>, b: seq<PathFile>)
    requires forall f :: f in a <==> f in b
    ensures a == [] ==> b == []
  {
    assert b != [] ==> b[0] in b;
  }

  lemma NamedAround(a: seq<PathFile>, u: seq<PathFile>, f: PathFile, v: seq<PathFile>)
    requires a != [] && a[0] == f && NoClash(a) && forall g | g in u :: g in a
    requires Sorted(Named(a[1..])) == Sorted(Named(u + v))
    ensures Sorted(Named(a)) == Sorted(Named(u + [f] + v))
  {
    hide *;
    OthersEqual(u, f, a);
    NamedFront(a);
    NamedMiddle(u, f, v);
    var x := Item(Slash(f.path), f.content);
    SortedFront(x, Named(a[1..]));
    SortedInsertedAnywhere(Named(u), x, Named(v));
  }

  lemma SortedFront(x: Item, tail: seq<Item>)
    ensures Sorted([x] + tail) == Inserted(x, Sorted(tail))
  {
    assert ([x] + tail)[1..] == tail;
    hide Inserted;
  }

  lemma NamedFront(a: seq<PathFile>)
    requires a != []
    ensures Named(a) == [Item(Slash(a[0].path), a[0].content)] + Named(a[1..])
  {
    hide Slash;
  }

  lemma NamedMiddle(u: seq<PathFile>, f: PathFile, v: seq<PathFile>)
    ensures Named(u + [f] + v) == Named(u) + [Item(Slash(f.path), f.content)] + Named(v)
    ensures Named(u + v) == Named(u) + Named(v)
  {
    hide *;
    NamedOne(f);
    NamedConcat(u, v);
    NamedConcat(u + [f], v);
    NamedConcat(u, [f]);
  }

  lemma NamedOne(f: PathFile)
    ensures Named([f]) == [Item(Slash(f.path), f.content)]
  {
    hide Slash;
  }

  lemma NamedConcat(a: seq<PathFile>, b: seq<PathFile>)
    ensures Named(a + b) == Named(a) + Named(b)
  {
    hide Slash;
  }

  lemma OthersEqual(u: seq<PathFile>, f: PathFile, a: seq<PathFile>)
    requires f in a && NoClash(a) && forall g | g in u :: g in a
    ensures var x := Item(Slash(f.path), f.content);
            forall y | y in Named(u) && y.name == x.name :: y == x
  {
    hide Slash;
    var named := Named(u);
    assert forall i | 0 <= i < |u| :: u[i] in a;
    assert forall i | 0 <= i < |named| :: named[i] == Item(Slash(u[i].path), u[i].content);
  }

  lemma DistinctAround(u: seq<PathFile>, f: PathFile, v: seq<PathFile>)
    requires DistinctPaths(u + [f] + v)
    ensures DistinctPaths(u + v) && f !in u + v
    ensures forall g | g in u + v :: g in u + [f] + v
  {
    var b, w := u + [f] + v, u + v;
    assert b[|u|] == f;
    forall i | 0 <= i < |w| ensures w[i].path != f.path && w[i] in b {
      if i < |u| { assert b[i] == w[i]; } else { assert b[i + 1] == w[i]; }
    }
    forall i, j | 0 <= i < j < |w| ensures w[i].path != w[j].path {
      var k, l := if i < |u| then i else i + 1, if j < |u| then j else j + 1;
      assert b[k] == w[i] && b[l] == w[j];
    }
  }

  lemma RestAlike(a: seq<PathFile>, u: seq<PathFile>, v: seq<PathFile>)
    requires a != [] && DistinctPaths(a) && DistinctPaths(u + [a[0]] + v) && NoClash(a)
    requires forall f :: f in a <==> f in u + [a[0]] + v
    ensures DistinctPaths(a[1..]) && DistinctPaths(u + v) && NoClash(a[1..])
    ensures forall f :: f in a[1..] <==> f in u + v
  {
    DistinctAround([], a[0], a[1..]);
    DistinctAround(u, a[0], v);
    assert [] + [a[0]] + a[1..] == a && [] + a[1..] == a[1..];
  }

  // ----- where names clash, the order shows -----

  /** The content of the first item of a name. */
  function First(items: seq<Item>, name: string): Option<seq<Byte>> {
    if items == [] then None
    else if items[0].name == name then Some(items[0].content)
    else First(items[1..], name)
  }

  lemma {:induction false} FirstAfterInsertion(x: Item, s: seq<Item>, name: string)
    ensures First(Inserted(x, s), name) == if x.name == name then Some(x.content) else First(s, name)
  {
    if s != [] && !AtMost(x.name, s[0].name) {
      FirstAfterInsertion(x, s[1..], name);
      assert ([s[0]] + Inserted(x, s[1..]))[1..] == Inserted(x, s[1..]);
    } else {
      assert ([x] + s)[1..] == s;
    }
  }

  /** The sort is stable: of one name, the first stays the first. */
  lemma {:induction false} FirstAfterSort(items: seq<Item>, name: string)
    ensures First(Sorted(items), name) == First(items, name)
  {
    if items != [] {
      FirstAfterSort(items[1..], name);
      FirstAfterInsertion(items[0], Sorted(items[1..]), name);
    }
  }

  /** What the copy leaves of a tree. */
  function KeptEntry(e: Entry): seq<Entry>
    decreases e
  {
    match e.node
    case File(_) => [e]
    case Dir(entries) => if IsGitDir(e) then [] else [Entry(e.name, Dir(Kept(entries)))]
    case _ => []
  }

  function Kept(entries: seq<Entry>): (r: seq<Entry>)
    ensures forall x | x in r :: exists e | e in entries :: e.name == x.name
    decreases entries
  {
    if entries == [] then []
    else
      assert forall e | e in entries[1..] :: e in entries;
      assert entries[0] in entries;
      KeptEntry(entries[0]) + Kept(entries[1..])
  }

  lemma {:induction false} KeptIsTree(entries: seq<Entry>)
    requires WellFormed(entries)
    ensures WellFormed(Kept(entries)) && Plain(Kept(entries))
    decreases entries
  {
    if entries != [] {
      var e, rest := entries[0], entries[1..];
      KeptIsTree(rest);
      if e.node.Dir? && !IsGitDir(e) {
        KeptIsTree(e.node.entries);
        KeptCons(Entry(e.name, Dir(Kept(e.node.entries))), rest);
      } else if e.node.File? {
        KeptCons(e, rest);
      } else {
        assert Kept(entries) == Kept(rest);
      }
    }
  }

  lemma KeptCons(e: Entry, rest: seq<Entry>)
    requires ValidName(e.name) && (forall x | x in rest :: x.name != e.name) && !e.node.Symlink? && !e.node.Special?
    requires e.node.Dir? ==> WellFormed(e.node.entries) && Plain(e.node.entries)
    requires WellFormed(Kept(rest)) && Plain(Kept(rest))
    ensures WellFormed([e] + Kept(rest)) && Plain([e] + Kept(rest))
  {
    assert ([e] + Kept(rest))[1..] == Kept(rest);
  }

  lemma {:induction false} KeptFiles(entries: seq<Entry>, prefix: Path)
    requires Collect(entries, prefix).Ok?
    ensures Files(Kept(entries), prefix) == Collect(entries, prefix).value
    decreases entries
  {
    if entries != [] {
      var e, rest := entries[0], entries[1..];
      KeptFiles(rest, prefix);
      var kept := KeptEntry(e);
      if e.node.Dir? && !IsGitDir(e) { KeptFiles(e.node.entries, prefix + [e.name]); }
      if kept == [] {
        assert Kept(entries) == Kept(rest);
      } else {
        assert (kept + Kept(rest))[1..] == Kept(rest);
      }
    }
  }

  lemma {:induction false} KeptDirs(entries: seq<Entry>, prefix: Path, d: Destination)
    requires Copy(entries, prefix, d).ok
    ensures Copy(entries, prefix, d).destination.dirs == d.dirs + Dirs(Kept(entries), prefix)
    decreases entries
  {
    if entries != [] {
      var e, rest := entries[0], entries[1..];
      KeptDirs(rest, prefix, CopyEntry(e, prefix, d).destination);
      var kept := KeptEntry(e);
      var path := prefix + [e.name];
      if e.node.Dir? && !IsGitDir(e) { KeptDirs(e.node.entries, path, d.(dirs := d.dirs + {path})); }
      if kept == [] {
        assert Kept(entries) == Kept(rest);
      } else {
        assert (kept + Kept(rest))[1..] == Kept(rest);
      }
    }
  }

  /** The copy is a tree: there is always a listing that shows it. */
  lemma CopyIsShown(entries: seq<Entry>)
    requires WellFormed(entries) && Copy(entries, [], NOTHING).ok
    ensures Shows(Kept(entries), Copy(entries, [], NOTHING).destination)
  {
    CopiedFiles(entries);
    KeptIsTree(entries);
    KeptFiles(entries, []);
    KeptDirs(entries, [], NOTHING);
  }

  predicate SameNames(a: seq<Entry>, b: seq<Entry>) {
    && (forall e | e in a :: exists x | x in b :: x.name == e.name)
    && (forall x | x in b :: exists e | e in a :: e.name == x.name)
  }

  /** The two are listings of one tree. */
  ghost predicate SameTree(a: seq<Entry>, b: seq<Entry>, prefix: Path) {
    && WellFormed(a) && WellFormed(b) && Plain(a) && Plain(b) && SameNames(a, b)
    && Dirs(a, prefix) == Dirs(b, prefix)
    && forall g :: g in Files(a, prefix) <==> g in Files(b, prefix)
  }

  predicate StartsWithFile(entries: seq<Entry>, prefix: Path, f: PathFile) {
    entries != [] && EntryFiles(entries[0], prefix) != [] && EntryFiles(entries[0], prefix)[0] == f
  }

  /** The same tree, listed so that a given file comes first. */
  lemma {:induction false} ToFront(entries: seq<Entry>, prefix: Path, f: PathFile) returns (moved: seq<Entry>)
    requires WellFormed(entries) && Plain(entries) && f in Files(entries, prefix)
    ensures SameTree(entries, moved, prefix) && StartsWithFile(moved, prefix, f)
    decreases entries
  {
    var e, rest := entries[0], entries[1..];
    if f in EntryFiles(e, prefix) {
      if e.node.Dir? {
        var sub := ToFront(e.node.entries, prefix + [e.name], f);
        moved := [Entry(e.name, Dir(sub))] + rest;
        FrontReplaced(entries, sub, prefix, f);
      } else {
        moved := entries;
      }
    } else {
      var m := ToFront(rest, prefix, f);
      moved := [m[0], e] + m[1..];
      FrontSwapped(entries, m, prefix);
    }
  }

  lemma {:induction false} FrontReplaced(entries: seq<Entry>, sub: seq<Entry>, prefix: Path, f: PathFile)
    requires WellFormed(entries) && Plain(entries) && entries != [] && entries[0].node.Dir?
    requires SameTree(entries[0].node.entries, sub, prefix + [entries[0].name])
    requires StartsWithFile(sub, prefix + [entries[0].name], f)
    ensures var moved := [Entry(entries[0].name, Dir(sub))] + entries[1..];
            SameTree(entries, moved, prefix) && StartsWithFile(moved, prefix, f)
  {
    hide WellFormed, Plain, Files, Dirs, SameNames, EntryFiles;
    ReplacedIsTree(entries, sub);
    ReplacedFiles(entries, sub, prefix);
    assert entries == [entries[0]] + entries[1..];
    NamesCons(entries[0], Entry(entries[0].name, Dir(sub)), entries[1..]);
    ReplacedFirst(entries[0].name, sub, prefix, f);
  }

  lemma {:induction false} ReplacedIsTree(entries: seq<Entry>, sub: seq<Entry>)
    requires WellFormed(entries) && Plain(entries) && entries != [] && entries[0].node.Dir?
    requires WellFormed(sub) && Plain(sub)
    ensures var moved := [Entry(entries[0].name, Dir(sub))] + entries[1..];
            WellFormed(moved) && Plain(moved)
  {
    var moved := [Entry(entries[0].name, Dir(sub))] + entries[1..];
    assert moved[1..] == entries[1..];
  }

  lemma {:induction false} ReplacedFiles(entries: seq<Entry>, sub: seq<Entry>, prefix: Path)
    requires entries != [] && entries[0].node.Dir?
    requires var path := prefix + [entries[0].name];
             && Dirs(entries[0].node.entries, path) == Dirs(sub, path)
             && forall g :: g in Files(entries[0].node.entries, path) <==> g in Files(sub, path)
    ensures var moved := [Entry(entries[0].name, Dir(sub))] + entries[1..];
            && Dirs(entries, prefix) == Dirs(moved, prefix)
            && forall g :: g in Files(entries, prefix) <==> g in Files(moved, prefix)
  {
    var e, rest, path := entries[0], entries[1..], prefix + [entries[0].name];
    var moved := [Entry(e.name, Dir(sub))] + rest;
    assert moved[1..] == rest;
    assert Files(moved, prefix) == Files(sub, path) + Files(rest, prefix);
    assert Files(entries, prefix) == Files(e.node.entries, path) + Files(rest, prefix);
    hide Files;
  }

  lemma {:induction false} ReplacedFirst(name: string, sub: seq<Entry>, prefix: Path, f: PathFile)
    requires StartsWithFile(sub, prefix + [name], f)
    ensures var first := Entry(name, Dir(sub));
            EntryFiles(first, prefix) != [] && EntryFiles(first, prefix)[0] == f
  {
    var path := prefix + [name];
    assert Files(sub, path) == EntryFiles(sub[0], path) + Files(sub[1..], path);
  }

  lemma NamesCons(e: Entry, first: Entry, rest: seq<Entry>)
    requires e.name == first.name
    ensures SameNames([e] + rest, [first] + rest)
  {
    var a, b := [e] + rest, [first] + rest;
    assert forall i | 0 <= i < |a| :: a[i].name == b[i].name && a[i] in a && b[i] in b;
  }

  lemma {:induction false} FrontSwapped(entries: seq<Entry>, m: seq<Entry>, prefix: Path)
    requires WellFormed(entries) && Plain(entries) && entries != [] && m != []
    requires SameTree(entries[1..], m, prefix)
    ensures SameTree(entries, [m[0], entries[0]] + m[1..], prefix)
  {
    NamesSwapped(entries, m);
    SwappedIsTree(entries[0], m);
    FilesSwapped(entries, m, prefix);
    hide WellFormed, Plain, Files, Dirs, SameNames;
  }

  lemma {:induction false} FilesSwapped(entries: seq<Entry>, m: seq<Entry>, prefix: Path)
    requires entries != [] && m != []
    requires Dirs(entries[1..], prefix) == Dirs(m, prefix)
    requires forall g :: g in Files(entries[1..], prefix) <==> g in Files(m, prefix)
    ensures var moved := [m[0], entries[0]] + m[1..];
            && Dirs(entries, prefix) == Dirs(moved, prefix)
            && forall g :: g in Files(entries, prefix) <==> g in Files(moved, prefix)
  {
    var e, rest := entries[0], entries[1..];
    SwappedFiles(e, m, prefix);
    assert Files(m, prefix) == EntryFiles(m[0], prefix) + Files(m[1..], prefix);
    assert Dirs(m, prefix) == EntryDirs(m[0], prefix) + Dirs(m[1..], prefix);
    assert Files(entries, prefix) == EntryFiles(e, prefix) + Files(rest, prefix);
    assert Dirs(entries, prefix) == EntryDirs(e, prefix) + Dirs(rest, prefix);
    hide *;
    SwappedMembers(EntryFiles(m[0], prefix), EntryFiles(e, prefix), Files(m[1..], prefix), Files(rest, prefix));
  }

  lemma SwappedMembers<T>(first: seq<T>, e: seq<T>, others: seq<T>, rest: seq<T>)
    requires forall g :: g in rest <==> g in first + others
    ensures forall g :: g in e + rest <==> g in first + (e + others)
  {
  }

  lemma {:induction false} NamesSwapped(entries: seq<Entry>, m: seq<Entry>)
    requires WellFormed(entries) && entries != [] && m != [] && SameNames(entries[1..], m)
    ensures SameNames(entries, [m[0], entries[0]] + m[1..])
    ensures forall x | x in m :: x.name != entries[0].name
  {
    var e, rest, moved := entries[0], entries[1..], [m[0], entries[0]] + m[1..];
    assert forall x :: x in m <==> x == m[0] || x in m[1..];
    assert forall x :: x in entries <==> x == e || x in rest;
    assert forall x :: x in moved <==> x == e || x in m;
  }

  lemma {:induction false} SwappedIsTree(e: Entry, m: seq<Entry>)
    requires WellFormed(m) && Plain(m) && m != [] && forall x | x in m :: x.name != e.name
    requires ValidName(e.name) && !e.node.Symlink? && !e.node.Special?
    requires e.node.Dir? ==> WellFormed(e.node.entries) && Plain(e.node.entries)
    ensures WellFormed([m[0], e] + m[1..]) && Plain([m[0], e] + m[1..])
  {
    var moved := [m[0], e] + m[1..];
    assert moved[1..] == [e] + m[1..] && moved[1..][1..] == m[1..];
    assert m[0] in m && forall x | x in m[1..] :: x in m;
    assert WellFormed([e] + m[1..]) && Plain([e] + m[1..]);
  }

  lemma {:induction false} SwappedFiles(e: Entry, m: seq<Entry>, prefix: Path)
    requires m != []
    ensures var moved := [m[0], e] + m[1..];
            && Files(moved, prefix) == EntryFiles(m[0], prefix) + (EntryFiles(e, prefix) + Files(m[1..], prefix))
            && Dirs(moved, prefix) == EntryDirs(m[0], prefix) + (EntryDirs(e, prefix) + Dirs(m[1..], prefix))
  {
    var moved := [m[0], e] + m[1..];
    assert moved[1..] == [e] + m[1..] && moved[1..][1..] == m[1..];
  }

  lemma ShowsMoved(entries: seq<Entry>, moved: seq<Entry>, d: Destination)
    requires Shows(entries, d) && SameTree(entries, moved, [])
    ensures Shows(moved, d)
  {
  }

  // ----- the theorem -----

  ghost predicate OrderFree(entries: seq<Entry>) {
    forall shown :: Shows(shown, Copy(entries, [], NOTHING).destination) ==> TreePreimage(shown) == TreePreimage(entries)
  }

  /** A copy hashes like the original, in every order of listing, if and only if no two files that are hashed
      have one slash-separated name and different contents. */
  lemma CopyHashesAlikeIff(entries: seq<Entry>)
    requires WellFormed(entries) && Copy(entries, [], NOTHING).ok
    ensures Collect(entries, []).Ok?
    ensures OrderFree(entries) <==> NoClash(Collect(entries, []).value)
  {
    CopiedFiles(entries);
    var files := Collect(entries, []).value;
    if NoClash(files) {
      forall shown | Shows(shown, Copy(entries, [], NOTHING).destination)
        ensures TreePreimage(shown) == TreePreimage(entries)
      {
        ShownIsCollected(entries, shown);
        SameFilesSameSort(files, Collect(shown, []).value);
      }
    } else {
      var shown := ClashShows(entries);
      assert !OrderFree(entries);
    }
  }

  /** With a clash, some listing of the copy puts the other content first, and hashes differently. */
  lemma ClashShows(entries: seq<Entry>) returns (shown: seq<Entry>)
    requires WellFormed(entries) && Copy(entries, [], NOTHING).ok && Collect(entries, []).Ok?
    requires !NoClash(Collect(entries, []).value)
    ensures Shows(shown, Copy(entries, [], NOTHING).destination)
    ensures TreePreimage(shown) != TreePreimage(entries)
  {
    hide Shows, Copy, Collect, WellFormed, TreePreimage, Slash, First;
    var files := Collect(entries, []).value;
    var f, g :| f in files && g in files && Slash(f.path) == Slash(g.path) && f.content != g.content;
    var name := Slash(f.path);
    if First(Named(files), name) == Some(f.content) { f := g; }
    shown := ShownWithFirst(entries, f);
    CollectedNulFree(entries, []);
    CollectedNulFree(shown, []);
    OtherPreimage(entries, shown, f);
  }

  lemma OtherPreimage(entries: seq<Entry>, shown: seq<Entry>, f: PathFile)
    requires Collect(entries, []).Ok? && Collect(shown, []).Ok?
    requires NulFreeNames(Collect(entries, []).value) && NulFreeNames(Collect(shown, []).value)
    requires Collect(shown, []).value != [] && Collect(shown, []).value[0] == f
    requires First(Named(Collect(entries, []).value), Slash(f.path)) != Some(f.content)
    ensures TreePreimage(shown) != TreePreimage(entries)
  {
    PreimageOfTree(entries);
    PreimageOfTree(shown);
    hide *;
    OtherFirst(Collect(entries, []).value, Collect(shown, []).value, f);
    SortsDiffer(Collect(entries, []).value, Collect(shown, []).value);
  }

  lemma PreimageOfTree(entries: seq<Entry>)
    ensures Collect(entries, []).Ok? ==> TreePreimage(entries) == Ok(Preimage(Sorted(Named(Collect(entries, []).value))))
  {
    hide Collect, Preimage, Sorted, Named;
  }

  lemma ShownWithFirst(entries: seq<Entry>, f: PathFile) returns (shown: seq<Entry>)
    requires WellFormed(entries) && Copy(entries, [], NOTHING).ok && Collect(entries, []).Ok?
    requires f in Collect(entries, []).value
    ensures WellFormed(shown) && Shows(shown, Copy(entries, [], NOTHING).destination)
    ensures Collect(shown, []).Ok? && Collect(shown, []).value != [] && Collect(shown, []).value[0] == f
  {
    CopyIsShown(entries);
    KeptFiles(entries, []);
    CopiedDirs(entries, [], NOTHING);
    hide Copy, Collect, WellFormed, Plain, Kept, Dirs;
    shown := ToFront(Kept(entries), [], f);
    ShowsMoved(Kept(entries), shown, Copy(entries, [], NOTHING).destination);
    AllCollected(shown, []);
  }

  lemma OtherFirst(a: seq<PathFile>, b: seq<PathFile>, f: PathFile)
    requires b != [] && b[0] == f && First(Named(a), Slash(f.path)) != Some(f.content)
    ensures Sorted(Named(a)) != Sorted(Named(b))
  {
    hide Slash, Sorted;
    FirstAfterSort(Named(a), Slash(f.path));
    FirstAfterSort(Named(b), Slash(f.path));
  }

  predicate NulFreeNames(files: seq<PathFile>) {
    forall f | f in files :: '\0' !in Slash(f.path)
  }

  lemma SortsDiffer(a: seq<PathFile>, b: seq<PathFile>)
    requires NulFreeNames(a) && NulFreeNames(b)
    ensures Sorted(Named(a)) != Sorted(Named(b)) ==> Preimage(Sorted(Named(a))) != Preimage(Sorted(Named(b)))
  {
    NamedNulFree(a);
    NamedNulFree(b);
    SortedNulFree(Named(a));
    SortedNulFree(Named(b));
    hide Sorted, Preimage, NulFree, NulFreeNames;
    if Preimage(Sorted(Named(a))) == Preimage(Sorted(Named(b))) {
      PreimageIsUniquelyDecodable(Sorted(Named(a)), Sorted(Named(b)));
    }
  }

  lemma NamedNulFree(files: seq<PathFile>)
    requires NulFreeNames(files)
    ensures NulFree(Named(files))
  {
    hide Slash;
    assert forall i | 0 <= i < |files| :: files[i] in files;
  }

  predicate NulFreePath(path: Path) {
    forall name | name in path :: '\0' !in name
  }

  lemma {:induction false} JoinedNulFree(path: Path)
    requires NulFreePath(path)
    ensures '\0' !in Joined(path) && '\0' !in Slash(path)
  {
    if path != [] {
      assert path[0] in path;
      if |path| > 1 { JoinedNulFree(path[1..]); }
    }
  }

  lemma {:induction false} CollectedPathsNulFree(entries: seq<Entry>, prefix: Path)
    requires WellFormed(entries) && Collect(entries, prefix).Ok? && NulFreePath(prefix)
    ensures forall f | f in Collect(entries, prefix).value :: NulFreePath(f.path)
    decreases entries
  {
    if entries != [] {
      var e := entries[0];
      CollectedPathsNulFree(entries[1..], prefix);
      assert NulFreePath(prefix + [e.name]);
      if e.node.Dir? && !IsGitDir(e) { CollectedPathsNulFree(e.node.entries, prefix + [e.name]); }
    }
  }

  lemma CollectedNulFree(entries: seq<Entry>, prefix: Path)
    requires WellFormed(entries) && Collect(entries, prefix).Ok? && NulFreePath(prefix)
    ensures NulFreeNames(Collect(entries, prefix).value)
  {
    CollectedPathsNulFree(entries, prefix);
    forall f | f in Collect(entries, prefix).value ensures '\0' !in Slash(f.path) {
      JoinedNulFree(f.path);
    }
  }

  lemma {:induction false} SortedNulFree(items: seq<Item>)
    requires NulFree(items)
    ensures NulFree(Sorted(items))
  {
    if items != [] {
      assert items[0] in items;
      SortedNulFree(items[1..]);
      InsertedNulFree(items[0], Sorted(items[1..]));
    }
  }

  lemma {:induction false} InsertedNulFree(x: Item, s: seq<Item>)
    requires NulFree(s) && '\0' !in x.name
    ensures NulFree(Inserted(x, s))
  {
    if s != [] && !AtMost(x.name, s[0].name) {
      assert s[0] in s;
      InsertedNulFree(x, s[1..]);
    }
  }

  // ----- names without backslashes -----

  predicate PlainPath(path: Path) {
    forall name | name in path :: name != "" && '/' !in name && '\\' !in name
  }

  function FirstSlash(s: string): nat {
    if s == [] || s[0] == '/' then 0 else 1 + FirstSlash(s[1..])
  }

  lemma {:induction false} SlashAfter(name: string, rest: string)
    requires '/' !in name
    ensures FirstSlash(name + "/" + rest) == |name|
    ensures FirstSlash(name) == |name|
  {
    if name != [] {
      assert (name + "/" + rest)[1..] == name[1..] + "/" + rest;
      SlashAfter(name[1..], rest);
    }
  }

  lemma PlainTail(p: Path)
    requires PlainPath(p) && p != []
    ensures PlainPath(p[1..])
  {
    assert forall n | n in p[1..] :: n in p;
  }

  lemma {:induction false} JoinedIsInjective(p: Path, q: Path)
    requires PlainPath(p) && PlainPath(q) && p != [] && q != [] && Joined(p) == Joined(q)
    ensures p == q
  {
    assert p[0] in p && q[0] in q;
    SlashAfter(p[0], Joined(p[1..]));
    SlashAfter(q[0], Joined(q[1..]));
    assert p[0] == Joined(p)[..|p[0]|] && q[0] == Joined(q)[..|q[0]|];
    if |p| > 1 && |q| > 1 {
      assert Joined(p[1..]) == Joined(p)[|p[0]| + 1..] && Joined(q[1..]) == Joined(q)[|q[0]| + 1..];
      PlainTail(p);
      PlainTail(q);
      JoinedIsInjective(p[1..], q[1..]);
      assert p == [p[0]] + p[1..] && q == [q[0]] + q[1..];
    }
  }

  lemma {:induction false} JoinedPlain(p: Path)
    requires PlainPath(p)
    ensures '\\' !in Joined(p)
  {
    if p != [] {
      assert p[0] in p;
      PlainTail(p);
      JoinedPlain(p[1..]);
    }
  }

  /** Where no name holds a backslash, the slash-separated name is the path: nothing clashes. */
  lemma PlainPathsNeverClash(files: seq<PathFile>)
    requires DistinctPaths(files) && forall f | f in files :: PlainPath(f.path) && f.path != []
    ensures NoClash(files)
  {
    forall f, g | f in files && g in files && Slash(f.path) == Slash(g.path) ensures f.content == g.content {
      JoinedPlain(f.path);
      JoinedPlain(g.path);
      assert Slash(f.path) == Joined(f.path) && Slash(g.path) == Joined(g.path);
      JoinedIsInjective(f.path, g.path);
      var i :| 0 <= i < |files| && files[i] == f;
      var j :| 0 <= j < |files| && files[j] == g;
    }
  }

  /** Two files that a package can hold at once and that have one slash-separated name. */
  const CLASHING := [Entry("a\\b", File([1])), Entry("a", Dir([Entry("b", File([2]))]))]

  /** Such a package can be published, and its hash depends on the order of listing. */
  lemma ClashingTree()
    ensures WellFormed(CLASHING) && Copy(CLASHING, [], NOTHING).ok
    ensures !OrderFree(CLASHING)
  {
    ClashingIsCollected();
    CopyPutsCollected(CLASHING, [], NOTHING);
    CopyHashesAlikeIff(CLASHING);
    ClashingNames();
    hide *;
    var f, g := PathFile(["a\\b"], [1]), PathFile(["a", "b"], [2]);
    var files := Collect(CLASHING, []).value;
    assert files[0] == f && files[1] == g;
    assert f in files && g in files;
    ClashRefutes(files, f, g);
  }

  lemma ClashRefutes(files: seq<PathFile>, f: PathFile, g: PathFile)
    requires f in files && g in files && Slash(f.path) == Slash(g.path) && f.content != g.content
    ensures !NoClash(files)
  {
  }

  lemma ClashingIsCollected()
    ensures WellFormed(CLASHING)
    ensures Collect(CLASHING, []) == Ok([PathFile(["a\\b"], [1]), PathFile(["a", "b"], [2])])
  {
    var inner := [Entry("b", File([2]))];
    assert inner[1..] == [] && CLASHING[1..] == [Entry("a", Dir(inner))] && CLASHING[1..][1..] == [];
    assert WellFormed(inner) && WellFormed(CLASHING[1..]);
    assert [] + ["a"] == ["a"] && ["a"] + ["b"] == ["a", "b"] && [] + ["a\\b"] == ["a\\b"];
    var f, g := PathFile(["a\\b"], [1]), PathFile(["a", "b"], [2]);
    var dir := Entry("a", Dir(inner));
    assert dir.name != ".git" && [g] + [] == [g];
    assert Collect(inner, ["a"]) == Ok([g]);
    assert CollectEntry(dir, []) == Ok([g]) && CollectEntry(CLASHING[0], []) == Ok([f]);
    assert Collect([], []) == Ok([]) && Collect([dir], []) == Ok([g]);
    assert [f] + [g] == [f, g];
  }

  lemma ClashingNames()
    ensures Slash(["a\\b"]) == Slash(["a", "b"])
  {
    assert ["a", "b"][1..] == ["b"];
    assert Joined(["a", "b"]) == "a/b";
    assert SlashChars("a\\b") == "a/b" == SlashChars("a/b");
  }
}
