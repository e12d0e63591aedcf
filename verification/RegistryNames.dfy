/** Package names, versions, integrities and the artifact paths made from them. Versions are semantic
    versions, whose parsing and precedence (section 11 of Semantic Versioning 2.0.0) are parameters. */
module RegistryNames {

  datatype Semver = Semver(
    valid: string -> bool,
    // precedence: the first version is not later than the second
    atMost: (string, string) -> bool,
    validReq: string -> bool,
    // requirement, version
    matches: (string, string) -> bool)
  {
    /** Precedence is total and transitive, and a version starts with a digit and is made of the
        characters of the grammar in section 9 and 10: digits, letters, `.`, `-` and `+`. */
    ghost predicate Lawful() {
      && (forall a, b :: valid(a) && valid(b) ==> atMost(a, b) || atMost(b, a))
      && (forall a, b, c :: atMost(a, b) && atMost(b, c) ==> atMost(a, c))
      && (forall v :: valid(v) ==> v != [] && '0' <= v[0] <= '9' && forall c | c in v :: IsVersionChar(c))
    }
  }

  predicate IsAlphanumeric(c: char) {
    'a' <= c <= 'z' || 'A' <= c <= 'Z' || '0' <= c <= '9'
  }

  predicate IsVersionChar(c: char) {
    IsAlphanumeric(c) || c == '.' || c == '-' || c == '+'
  }

  predicate IsSegment(s: string) {
    s != [] && forall c | c in s :: IsAlphanumeric(c) || c == '_' || c == '-'
  }

  /** `name`, or `@scope/name`. */
  predicate ValidPackageName(name: string) {
    if name != [] && name[0] == '@' then
      exists i | 1 <= i < |name| :: name[i] == '/' && IsSegment(name[1..i]) && IsSegment(name[i + 1..])
    else IsSegment(name)
  }

  predicate IsHexDigit(c: char) {
    '0' <= c <= '9' || 'a' <= c <= 'f' || 'A' <= c <= 'F'
  }

  predicate ValidIntegrity(integrity: string) {
    && |integrity| == 71 && integrity[..7] == "sha256:"
    && forall i | 7 <= i < 71 :: IsHexDigit(integrity[i])
  }

  predicate ValidSignatureKind(kind: string) {
    kind != [] && forall c | c in kind :: IsAlphanumeric(c) || c == '_' || c == '-' || c == '.'
  }

  // ----- paths -----

  function Split(path: string): (r: seq<string>)
    ensures r != []
  {
    if path == [] then [[]]
    else
      var rest := Split(path[1..]);
      if path[0] == '/' then [[]] + rest else [[path[0]] + rest[0]] + rest[1..]
  }

  predicate ValidRelativePath(path: string) {
    && path != [] && path[0] != '/' && ':' !in path && '\\' !in path
    && forall s | s in Split(path) :: s != [] && s != "." && s != ".."
  }

  /** The part of a package name after its last slash. */
  function Alias(package: string): string {
    var segments := Split(package);
    segments[|segments| - 1]
  }

  function ArtifactPath(package: string, version: string, leaf: string): string {
    "artifacts/" + package + "/" + version + "/" + leaf
  }

  function ArchiveLeaf(package: string, version: string): string {
    Alias(package) + "-" + version + ".tar.gz"
  }

  lemma {:induction false} SplitConcat(a: string, b: string)
    ensures Split(a + "/" + b) == Split(a) + Split(b)
  {
    if a == [] {
      assert a + "/" + b == ['/'] + b;
    } else {
      assert (a + "/" + b)[1..] == a[1..] + "/" + b;
      SplitConcat(a[1..], b);
    }
  }

  lemma {:induction false} SplitSegment(s: string)
    requires '/' !in s
    ensures Split(s) == [s]
  {
    if s != [] {
      SplitSegment(s[1..]);
      assert [s[0]] + s[1..] == s;
    }
  }

  predicate PlainSegment(s: string) {
    s != [] && s[0] != '.' && '/' !in s && ':' !in s && '\\' !in s
  }

  predicate PlainPath(path: string) {
    forall s | s in Split(path) :: PlainSegment(s)
  }

  lemma {:induction false} CharInSplit(path: string, c: char)
    requires c in path && c != '/'
    ensures exists s | s in Split(path) :: c in s
  {
    var rest := Split(path[1..]);
    if path[0] == c {
      assert Split(path)[0] == [path[0]] + rest[0];
      assert c in Split(path)[0];
    } else {
      CharInSplit(path[1..], c);
      var s :| s in rest && c in s;
      if path[0] == '/' {
        assert s in Split(path);
      } else if s == rest[0] {
        assert c in Split(path)[0];
      } else {
        var k :| 0 <= k < |rest| && rest[k] == s;
        assert Split(path)[k] == s;
      }
    }
  }

  lemma PlainPathIsValid(path: string)
    requires PlainPath(path)
    ensures ValidRelativePath(path)
  {
    forall c | c == ':' || c == '\\' ensures c !in path {
      if c in path { CharInSplit(path, c); }
    }
    assert Split(path)[0] in Split(path);
  }

  lemma PlainConcat(a: string, b: string)
    requires PlainPath(a) && PlainPath(b)
    ensures PlainPath(a + "/" + b)
  {
    SplitConcat(a, b);
  }

  lemma SegmentIsPlain(s: string)
    requires IsSegment(s)
    ensures PlainSegment(s) && PlainSegment(['@'] + s)
  {
    assert s[0] in s;
  }

  lemma LeafIsPlain(s: string)
    requires PlainSegment(s)
    ensures PlainPath(s)
  {
    SplitSegment(s);
  }

  lemma NameIsPlain(name: string)
    requires ValidPackageName(name)
    ensures PlainPath(name)
    ensures IsSegment(Alias(name))
  {
    if name[0] == '@' {
      var i :| 1 <= i < |name| && name[i] == '/' && IsSegment(name[1..i]) && IsSegment(name[i + 1..]);
      assert name == name[..i] + "/" + name[i + 1..];
      assert name[..i] == ['@'] + name[1..i];
      SegmentIsPlain(name[1..i]);
      SegmentIsPlain(name[i + 1..]);
      SplitSegment(name[..i]);
      SplitSegment(name[i + 1..]);
      SplitConcat(name[..i], name[i + 1..]);
    } else {
      SegmentIsPlain(name);
      SplitSegment(name);
    }
  }

  lemma VersionIsPlain(ops: Semver, version: string)
    requires ops.Lawful() && ops.valid(version)
    ensures PlainPath(version)
  {
    assert version[0] in version;
    LeafIsPlain(version);
  }

  lemma RootIsPlain()
    ensures PlainPath("artifacts")
  {
    LeafIsPlain("artifacts");
  }

  /** Whatever the registry stores, the loader's path check accepts. */
  lemma ArtifactPathIsValid(ops: Semver, package: string, version: string, leaf: string)
    requires ops.Lawful() && ValidPackageName(package) && ops.valid(version) && PlainSegment(leaf)
    ensures ValidRelativePath(ArtifactPath(package, version, leaf))
  {
    NameIsPlain(package);
    VersionIsPlain(ops, version);
    LeafIsPlain(leaf);
    RootIsPlain();
    hide PlainPath, ValidRelativePath;
    var root := "artifacts";
    PlainConcat(root, package);
    PlainConcat(root + "/" + package, version);
    PlainConcat(root + "/" + package + "/" + version, leaf);
    assert ArtifactPath(package, version, leaf) == root + "/" + package + "/" + version + "/" + leaf;
    PlainPathIsValid(ArtifactPath(package, version, leaf));
  }

  lemma ArchiveLeafIsPlain(ops: Semver, package: string, version: string)
    requires ops.Lawful() && ValidPackageName(package) && ops.valid(version)
    ensures PlainSegment(ArchiveLeaf(package, version))
  {
    NameIsPlain(package);
    var leaf := ArchiveLeaf(package, version);
    forall c | c in leaf ensures c != '/' && c != ':' && c != '\\' {
      assert c in Alias(package) || c == '-' || c in version || c in ".tar.gz";
    }
    assert leaf[0] == Alias(package)[0];
    assert Alias(package)[0] in Alias(package);
  }
}
