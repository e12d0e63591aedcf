/** The two walks over a package tree, as loops: one pushes the files to hash, the other creates the copy. */
module PackageWalk {
  import opened Wrappers
  import opened Utf8
  import opened Decimal
  import opened PackageTree
  import opened PackageCopy

  lemma {:induction false} CollectFrom(entries: seq<Entry>, prefix: Path, i: nat)
    requires i < |entries|
    ensures var head, tail := CollectEntry(entries[i], prefix), Collect(entries[i + 1..], prefix);
            Collect(entries[i..], prefix) == (if head.Err? || tail.Err? then Err(()) else Ok(head.value + tail.value))
  {
    assert entries[i..][0] == entries[i] && entries[i..][1..] == entries[i + 1..];
  }

  lemma {:induction false} CopyFrom(entries: seq<Entry>, prefix: Path, d: Destination, i: nat)
    requires i < |entries|
    ensures var head := CopyEntry(entries[i], prefix, d);
            Copy(entries[i..], prefix, d) == (if !head.ok then head else Copy(entries[i + 1..], prefix, head.destination))
  {
    assert entries[i..][0] == entries[i] && entries[i..][1..] == entries[i + 1..];
  }

  /** `files` with more pushed onto it, or the refusal. */
  function Pushed(files: seq<PathFile>, more: Result<seq<PathFile>, ()>): Result<seq<PathFile>, ()> {
    if more.Ok? then Ok(files + more.value) else Err(())
  }

  lemma {:induction false} PushedFrom(files: seq<PathFile>, entries: seq<Entry>, prefix: Path, i: nat)
    requires i < |entries|
    ensures var head := Pushed(files, CollectEntry(entries[i], prefix));
            && (head.Err? ==> Pushed(files, Collect(entries[i..], prefix)).Err?)
            && (head.Ok? ==>
                  Pushed(files, Collect(entries[i..], prefix)) == Pushed(head.value, Collect(entries[i + 1..], prefix)))
  {
    CollectFrom(entries, prefix, i);
    var head, tail := CollectEntry(entries[i], prefix), Collect(entries[i + 1..], prefix);
    if head.Ok? && tail.Ok? {
      assert files + (head.value + tail.value) == files + head.value + tail.value;
    }
  }

  method CollectFiles(entries: seq<Entry>, prefix: Path, files: seq<PathFile>) returns (r: Result<seq<PathFile>, ()>)
    ensures r == Pushed(files, Collect(entries, prefix))
    decreases entries, 1
  {
    var pushed, i := files, 0;
    assert entries[0..] == entries;
    while i < |entries|
      invariant i <= |entries|
      invariant Pushed(pushed, Collect(entries[i..], prefix)) == Pushed(files, Collect(entries, prefix))
    {
      PushedFrom(pushed, entries, prefix, i);
      assert pushed + [] == pushed;
      var e := entries[i];
      if e.node.Symlink? { return Err(()); }
      if e.node.Dir? {
        if e.name != ".git" {
          var below := CollectFiles(e.node.entries, prefix + [e.name], pushed);
          if below.Err? { return Err(()); }
          pushed := below.value;
        }
      } else if e.node.File? {
        pushed := pushed + [PathFile(prefix + [e.name], e.node.content)];
      }
      i := i + 1;
    }
    assert pushed + [] == pushed;
    r := Ok(pushed);
  }

  method FeedFile(fed: seq<Byte>, item: Item) returns (r: seq<Byte>)
    ensures r == fed + Framed(item)
  {
    hide Bytes, Digits;
    r := fed + Bytes(item.name);
    r := r + [0];
    r := r + Digits(|item.content|);
    r := r + [0];
    r := r + item.content;
    r := r + [0];
  }

  method Feed(files: seq<Item>) returns (fed: seq<Byte>)
    ensures fed == Preimage(files)
  {
    hide Framed, Bytes, CharBytes;
    fed := HEADER;
    var i := 0;
    assert files[0..] == files;
    while i < |files|
      invariant i <= |files|
      invariant fed + FramedAll(files[i..]) == Preimage(files)
    {
      ghost var before := fed;
      FramedFrom(files, i);
      fed := FeedFile(fed, files[i]);
      assert before + (Framed(files[i]) + FramedAll(files[i + 1..])) == fed + FramedAll(files[i + 1..]);
      i := i + 1;
    }
  }

  lemma FramedFrom(files: seq<Item>, i: nat)
    requires i < |files|
    ensures FramedAll(files[i..]) == Framed(files[i]) + FramedAll(files[i + 1..])
  {
    hide Framed;
    assert files[i..][0] == files[i] && files[i..][1..] == files[i + 1..];
  }

  /** `package_tree_integrity`, up to the digest. */
  method PackageTreePreimage(entries: seq<Entry>) returns (r: Result<seq<Byte>, ()>)
    ensures r == TreePreimage(entries)
  {
    hide Preimage, Sorted, Named, Collect;
    var collected := CollectFiles(entries, [], []);
    if collected.Err? { return Err(()); }
    assert collected.value == Collect(entries, []).value;
    var fed := Feed(Sorted(Named(collected.value)));
    r := Ok(fed);
  }

  class CopyTarget {
    var dirs: set<Path>
    var files: map<Path, seq<Byte>>

    constructor ()
      ensures State() == NOTHING
    {
      dirs := {};
      files := map[];
    }

    ghost function State(): Destination
      reads this
    {
      Destination(dirs, files)
    }

    /** `copy_package_tree_entries`; false when a symbolic link is met. */
    method CopyEntries(entries: seq<Entry>, prefix: Path) returns (ok: bool)
      modifies this
      ensures Copying(State(), ok) == Copy(entries, prefix, old(State()))
      decreases entries
    {
      var i := 0;
      assert entries[0..] == entries;
      while i < |entries|
        invariant i <= |entries|
        invariant Copy(entries[i..], prefix, State()) == Copy(entries, prefix, old(State()))
      {
        var e := entries[i];
        CopyFrom(entries, prefix, State(), i);
        if e.node.Symlink? { return false; }
        if !(e.name == ".git" && e.node.Dir?) {
          var path := prefix + [e.name];
          if e.node.Dir? {
            dirs := dirs + {path};
            var copied := CopyEntries(e.node.entries, path);
            if !copied { return false; }
          } else if e.node.File? {
            files := files[path := e.node.content];
          }
        }
        i := i + 1;
      }
      ok := true;
    }
  }
}
