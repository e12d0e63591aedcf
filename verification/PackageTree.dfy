/** Hashing and copying a package's directory tree. A directory is listed in whatever order the system
    gives; the digest itself is not modelled, only the bytes that are digested. */
module PackageTree {
  import opened Wrappers
  import opened StringOrder
  import opened Utf8
  import opened Decimal

  datatype Node = File(content: seq<Byte>) | Dir(entries: seq<Entry>) | Symlink | Special

  /** An entry of a directory; the order in the list is the order of listing. */
  datatype Entry = Entry(name: string, node: Node)

  type Path = seq<string>

  datatype PathFile = PathFile(path: Path, content: seq<Byte>)

  /** A file under its slash-separated name, as it is hashed. */
  datatype Item = Item(name: string, content: seq<Byte>)

  predicate ValidName(name: string) {
    name != "" && '/' !in name && '\0' !in name
  }

  /** Names are valid, and distinct within a directory. */
  predicate WellFormed(entries: seq<Entry>) {
    entries != [] ==>
      && ValidName(entries[0].name)
      && (forall e | e in entries[1..] :: e.name != entries[0].name)
      && (entries[0].node.Dir? ==> WellFormed(entries[0].node.entries))
      && WellFormed(entries[1..])
  }

  // ----- collecting the files to hash -----

  predicate IsGitDir(e: Entry) {
    e.node.Dir? && e.name == ".git"
  }

  /** The files under an entry, `.git` directories left out; symbolic links are refused. */
  function CollectEntry(e: Entry, prefix: Path): Result<seq<PathFile>, ()>
    decreases e
  {
    match e.node
    case Symlink => Err(())
    case Dir(entries) => if IsGitDir(e) then Ok([]) else Collect(entries, prefix + [e.name])
    case File(content) => Ok([PathFile(prefix + [e.name], content)])
    case Special => Ok([])
  }

  function Collect(entries: seq<Entry>, prefix: Path): Result<seq<PathFile>, ()>
    decreases entries
  {
    if entries == [] then Ok([])
    else
      var head, tail := CollectEntry(entries[0], prefix), Collect(entries[1..], prefix);
      if head.Err? || tail.Err? then Err(()) else Ok(head.value + tail.value)
  }

  // ----- the bytes that are hashed -----

  function SlashChars(s: string): (r: string)
    ensures |r| == |s|
    ensures forall i | 0 <= i < |s| :: r[i] == if s[i] == '\\' then '/' else s[i]
  {
    if s == [] then [] else [if s[0] == '\\' then '/' else s[0]] + SlashChars(s[1..])
  }

  function Joined(path: Path): string {
    if path == [] then ""
    else if |path| == 1 then path[0]
    else path[0] + "/" + Joined(path[1..])
  }

  /** The relative name of a file: backslashes become slashes too. */
  function Slash(path: Path): string {
    SlashChars(Joined(path))
  }

  function Named(files: seq<PathFile>): (r: seq<Item>)
    ensures |r| == |files|
    ensures forall i | 0 <= i < |files| :: r[i] == Item(Slash(files[i].path), files[i].content)
  {
    if files == [] then [] else [Item(Slash(files[0].path), files[0].content)] + Named(files[1..])
  }

  function Inserted(x: Item, sorted: seq<Item>): seq<Item> {
    if sorted == [] || AtMost(x.name, sorted[0].name) then [x] + sorted
    else [sorted[0]] + Inserted(x, sorted[1..])
  }

  /** The stable sort by name. */
  function Sorted(items: seq<Item>): seq<Item> {
    if items == [] then [] else Inserted(items[0], Sorted(items[1..]))
  }

  /** The bytes of `ricochet-package-integrity-v1` and a NUL. */
  const HEADER: seq<Byte> :=
    [114, 105, 99, 111, 99, 104, 101, 116, 45, 112, 97, 99, 107, 97, 103, 101,
     45, 105, 110, 116, 101, 103, 114, 105, 116, 121, 45, 118, 49, 0]

  function Framed(item: Item): (r: seq<Byte>)
    ensures r != []
  {
    Bytes(item.name) + [0] + Digits(|item.content|) + [0] + item.content + [0]
  }

  function FramedAll(items: seq<Item>): seq<Byte> {
    if items == [] then [] else Framed(items[0]) + FramedAll(items[1..])
  }

  function Preimage(items: seq<Item>): seq<Byte> {
    HEADER + FramedAll(items)
  }

  function TreePreimage(entries: seq<Entry>): Result<seq<Byte>, ()> {
    var files := Collect(entries, []);
    if files.Err? then Err(()) else Ok(Preimage(Sorted(Named(files.value))))
  }

  // ----- unique decoding -----

  function FirstNul(s: seq<Byte>): nat {
    if s == [] || s[0] == 0 then 0 else 1 + FirstNul(s[1..])
  }

  lemma {:induction false} NulAfter(a: seq<Byte>, x: seq<Byte>)
    requires 0 !in a
    ensures FirstNul(a + [0] + x) == |a|
  {
    if a != [] {
      assert (a + [0] + x)[1..] == a[1..] + [0] + x;
      NulAfter(a[1..], x);
    }
  }

  /** Two NUL-terminated strings with the same bytes from the start are the same, and so is what follows. */
  lemma SplitAtNul(a: seq<Byte>, x: seq<Byte>, b: seq<Byte>, y: seq<Byte>)
    requires 0 !in a && 0 !in b && a + [0] + x == b + [0] + y
    ensures a == b && x == y
  {
    NulAfter(a, x);
    NulAfter(b, y);
    assert a == (a + [0] + x)[..|a|] && b == (b + [0] + y)[..|b|];
    assert x == (a + [0] + x)[|a| + 1..] && y == (b + [0] + y)[|b| + 1..];
  }

  lemma FrameDecided(a: Item, x: seq<Byte>, b: Item, y: seq<Byte>)
    requires '\0' !in a.name && '\0' !in b.name && Framed(a) + x == Framed(b) + y
    ensures a == b && x == y
  {
    hide Bytes, Digits;
    AsciiInBytes(a.name, 0);
    AsciiInBytes(b.name, 0);
    var m, n := Digits(|a.content|), Digits(|b.content|);
    var p, q := a.content + [0] + x, b.content + [0] + y;
    assert Framed(a) + x == Bytes(a.name) + [0] + (m + [0] + p);
    assert Framed(b) + y == Bytes(b.name) + [0] + (n + [0] + q);
    SplitAtNul(Bytes(a.name), m + [0] + p, Bytes(b.name), n + [0] + q);
    SplitAtNul(m, p, n, q);
    BytesAreInjective(a.name, b.name);
    DigitsAreInjective(|a.content|, |b.content|);
    assert a.content == p[..|a.content|] && b.content == q[..|b.content|];
    assert x == p[|a.content| + 1..] && y == q[|b.content| + 1..];
  }

  predicate NulFree(items: seq<Item>) {
    forall item | item in items :: '\0' !in item.name
  }

  lemma {:induction false} FramesDecided(a: seq<Item>, b: seq<Item>)
    requires NulFree(a) && NulFree(b) && FramedAll(a) == FramedAll(b)
    ensures a == b
  {
    if a != [] && b != [] {
      FrameDecided(a[0], FramedAll(a[1..]), b[0], FramedAll(b[1..]));
      FramesDecided(a[1..], b[1..]);
      assert a == [a[0]] + a[1..] && b == [b[0]] + b[1..];
    }
  }

  lemma HeaderSpells()
    ensures HEADER == Bytes("ricochet-package-integrity-v1") + [0]
  {
    hide Bytes;
    BytesOfAscii("ricochet-package-integrity-v1", HEADER[..29]);
  }

  /** Different lists of NUL-free names and contents are hashed as different byte strings. */
  lemma PreimageIsUniquelyDecodable(a: seq<Item>, b: seq<Item>)
    requires NulFree(a) && NulFree(b) && Preimage(a) == Preimage(b)
    ensures a == b
  {
    assert FramedAll(a) == Preimage(a)[|HEADER|..] && FramedAll(b) == Preimage(b)[|HEADER|..];
    FramesDecided(a, b);
  }
}
