/** The lock file: a TOML document with one table per package, written and read back field by field. */
module LockFile {
  import opened Wrappers
  import opened RegistryNames

  /** A TOML value as the code looks at it: a string, a table, or something it ignores. */
  datatype Item = Text(text: string) | Table(entries: map<string, Item>) | Other

  type Document = map<string, Item>

  /** A dependency as it is being installed. */
  datatype DependencySpec = DependencySpec(
    name: string,
    package: Option<string>,
    source: string,
    path: string,
    git: Option<string>,
    rev: Option<string>,
    commit: Option<string>,
    registry: Option<string>,
    versionReq: Option<string>,
    packageVersion: Option<string>,
    archiveIntegrity: Option<string>,
    integrity: Option<string>,
    provenance: Option<string>,
    signature: Option<string>,
    signatureKind: Option<string>)

  /** A lock entry. */
  datatype LockedPackage = LockedPackage(
    source: string,
    package: Option<string>,
    path: string,
    git: Option<string>,
    rev: Option<string>,
    commit: Option<string>,
    registry: Option<string>,
    versionReq: Option<string>,
    packageVersion: Option<string>,
    archiveIntegrity: Option<string>,
    integrity: Option<string>,
    provenance: Option<string>,
    signature: Option<string>,
    signatureKind: Option<string>)

  predicate ValidCommit(commit: string) {
    |commit| == 40 && forall c | c in commit :: IsHexDigit(c)
  }

  // ----- writing -----

  predicate Writable(ops: Semver, spec: DependencySpec) {
    && (spec.versionReq.Some? ==> ops.validReq(spec.versionReq.value))
    && (spec.packageVersion.Some? ==> ops.valid(spec.packageVersion.value))
    && (spec.archiveIntegrity.Some? ==> ValidIntegrity(spec.archiveIntegrity.value))
    && (spec.integrity.Some? ==> ValidIntegrity(spec.integrity.value))
    && (spec.provenance.Some? ==> ValidIntegrity(spec.provenance.value))
    && (spec.signature.Some? ==> ValidIntegrity(spec.signature.value))
    && (spec.signatureKind.Some? ==> ValidSignatureKind(spec.signatureKind.value) && spec.signature.Some?)
  }

  function Put(table: map<string, Item>, key: string, value: Option<string>): map<string, Item> {
    if value.Some? then table[key := Text(value.value)] else table
  }

  /** The fields of an entry, in the order they are written. */
  function Fields(spec: DependencySpec): seq<(string, Option<string>)> {
    [ ("source", Some(spec.source)),
      ("package", spec.package),
      ("path", Some(spec.path)),
      ("git", spec.git),
      ("rev", spec.rev),
      ("commit", spec.commit),
      ("registry", spec.registry),
      ("version_req", spec.versionReq),
      ("version", spec.packageVersion),
      ("archive_integrity", spec.archiveIntegrity),
      ("integrity", spec.integrity),
      ("provenance", spec.provenance),
      ("signature", spec.signature),
      ("signature_kind", spec.signatureKind) ]
  }

  function TableOf(fields: seq<(string, Option<string>)>): map<string, Item> {
    if fields == [] then map[]
    else
      var last := fields[|fields| - 1];
      Put(TableOf(fields[..|fields| - 1]), last.0, last.1)
  }

  /** The document with the entry in place; None when it is refused, and then nothing is written. */
  function Edited(ops: Semver, doc: Document, spec: DependencySpec): Option<Document> {
    var packages := if "package" in doc then doc["package"] else Table(map[]);
    if !packages.Table? || !Writable(ops, spec) then None
    else Some(doc["package" := Table(packages.entries[spec.name := Table(TableOf(Fields(spec)))])])
  }

  // ----- reading -----

  function Get(table: map<string, Item>, key: string): Option<string> {
    if key in table && table[key].Text? then Some(table[key].text) else None
  }

  /** The table of an entry, if the document has one. */
  function EntryTable(doc: Document, name: string): Option<map<string, Item>> {
    if "package" in doc && doc["package"].Table?
       && name in doc["package"].entries && doc["package"].entries[name].Table?
    then Some(doc["package"].entries[name].entries) else None
  }

  predicate Readable(ops: Semver, lock: LockedPackage) {
    && (lock.package.Some? ==> ValidPackageName(lock.package.value))
    && (lock.commit.Some? ==> ValidCommit(lock.commit.value))
    && (lock.versionReq.Some? ==> ops.validReq(lock.versionReq.value))
    && (lock.packageVersion.Some? ==> ops.valid(lock.packageVersion.value))
    && (lock.archiveIntegrity.Some? ==> ValidIntegrity(lock.archiveIntegrity.value))
    && (lock.integrity.Some? ==> ValidIntegrity(lock.integrity.value))
    && (lock.provenance.Some? ==> ValidIntegrity(lock.provenance.value))
    && (lock.signature.Some? ==> ValidIntegrity(lock.signature.value))
    && (lock.signatureKind.Some? ==> ValidSignatureKind(lock.signatureKind.value) && lock.signature.Some?)
  }

  /** The entry for a name: absent, present, or present and refused. */
  function Locked(ops: Semver, doc: Document, name: string): Result<Option<LockedPackage>, ()> {
    var entry := EntryTable(doc, name);
    if entry.None? then Ok(None)
    else
      var t := entry.value;
      var source, path := Get(t, "source"), Get(t, "path");
      if source.None? || path.None? then Err(())
      else
        var lock := LockedPackage(
          source.value, Get(t, "package"), path.value, Get(t, "git"), Get(t, "rev"), Get(t, "commit"),
          Get(t, "registry"), Get(t, "version_req"), Get(t, "version"), Get(t, "archive_integrity"),
          Get(t, "integrity"), Get(t, "provenance"), Get(t, "signature"), Get(t, "signature_kind"));
        if Readable(ops, lock) then Ok(Some(lock)) else Err(())
  }

  /** The entry a spec stands for. */
  function LockOf(spec: DependencySpec): LockedPackage {
    LockedPackage(
      spec.source, spec.package, spec.path, spec.git, spec.rev, spec.commit, spec.registry, spec.versionReq,
      spec.packageVersion, spec.archiveIntegrity, spec.integrity, spec.provenance, spec.signature, spec.signatureKind)
  }

  // ----- writing and reading back -----

  predicate DistinctKeys(fields: seq<(string, Option<string>)>) {
    forall i, j | 0 <= i < j < |fields| :: fields[i].0 != fields[j].0
  }

  lemma {:induction false} AbsentKey(fields: seq<(string, Option<string>)>, key: string)
    requires forall i | 0 <= i < |fields| :: fields[i].0 != key
    ensures Get(TableOf(fields), key) == None
  {
    if fields != [] { AbsentKey(fields[..|fields| - 1], key); }
  }

  lemma {:induction false} FieldReadsBack(fields: seq<(string, Option<string>)>, i: nat)
    requires DistinctKeys(fields) && i < |fields|
    ensures Get(TableOf(fields), fields[i].0) == fields[i].1
  {
    var init := fields[..|fields| - 1];
    if i < |init| {
      FieldReadsBack(init, i);
      assert fields[i].0 != fields[|fields| - 1].0;
    } else {
      AbsentKey(init, fields[i].0);
    }
  }

  /** No two keys agree in both length and first letter. */
  lemma KeysAreDistinct(spec: DependencySpec)
    ensures DistinctKeys(Fields(spec))
  {
    var fields := Fields(spec);
    var lengths := [6, 7, 4, 3, 3, 6, 8, 11, 7, 17, 9, 10, 9, 14];
    var firsts := ['s', 'p', 'p', 'g', 'r', 'c', 'r', 'v', 'v', 'a', 'i', 'p', 's', 's'];
    assert forall i | 0 <= i < 14 :: |fields[i].0| == lengths[i] && fields[i].0[0] == firsts[i];
    assert forall i, j | 0 <= i < j < 14 :: lengths[i] != lengths[j] || firsts[i] != firsts[j];
  }

  lemma FieldsReadBack(spec: DependencySpec)
    ensures var t := TableOf(Fields(spec));
            && Get(t, "source") == Some(spec.source) && Get(t, "path") == Some(spec.path)
            && LockOf(spec) == LockedPackage(
                 spec.source, Get(t, "package"), spec.path, Get(t, "git"), Get(t, "rev"), Get(t, "commit"),
                 Get(t, "registry"), Get(t, "version_req"), Get(t, "version"), Get(t, "archive_integrity"),
                 Get(t, "integrity"), Get(t, "provenance"), Get(t, "signature"), Get(t, "signature_kind"))
  {
    var fields := Fields(spec);
    KeysAreDistinct(spec);
    hide TableOf, Get;
    forall i | 0 <= i < |fields| ensures Get(TableOf(fields), fields[i].0) == fields[i].1 {
      FieldReadsBack(fields, i);
    }
    assert fields[0].0 == "source" && fields[1].0 == "package" && fields[2].0 == "path" && fields[3].0 == "git";
    assert fields[4].0 == "rev" && fields[5].0 == "commit" && fields[6].0 == "registry";
    assert fields[7].0 == "version_req" && fields[8].0 == "version" && fields[9].0 == "archive_integrity";
    assert fields[10].0 == "integrity" && fields[11].0 == "provenance" && fields[12].0 == "signature";
    assert fields[13].0 == "signature_kind";
  }

  /** A written entry reads back as the spec that wrote it, if and only if its package name and commit,
      which only the reader checks, are well formed. */
  lemma LockRoundTrip(ops: Semver, doc: Document, spec: DependencySpec)
    requires Edited(ops, doc, spec).Some?
    ensures var entry := Locked(ops, Edited(ops, doc, spec).value, spec.name);
            && (entry.Ok? <==>
                  && (spec.package.Some? ==> ValidPackageName(spec.package.value))
                  && (spec.commit.Some? ==> ValidCommit(spec.commit.value)))
            && (entry.Ok? ==> entry.value == Some(LockOf(spec)))
  {
    FieldsReadBack(spec);
    hide TableOf, Fields, Get, ValidPackageName, ValidCommit, ValidIntegrity, ValidSignatureKind;
    var written := Edited(ops, doc, spec).value;
    assert EntryTable(written, spec.name) == Some(TableOf(Fields(spec)));
  }

  /** The other entries, and the rest of the document, are untouched. */
  lemma OtherEntriesKept(ops: Semver, doc: Document, spec: DependencySpec, name: string, key: string)
    requires Edited(ops, doc, spec).Some? && name != spec.name && key != "package"
    ensures var written := Edited(ops, doc, spec).value;
            && Locked(ops, written, name) == Locked(ops, doc, name)
            && (key in written <==> key in doc) && (key in doc ==> written[key] == doc[key])
  {
    hide TableOf, Fields, Get, Readable;
    var written := Edited(ops, doc, spec).value;
    assert EntryTable(written, name) == EntryTable(doc, name);
  }

  /** Writing what the document already says changes nothing. */
  lemma RewritingIsStable(ops: Semver, doc: Document, spec: DependencySpec)
    requires Edited(ops, doc, spec).Some?
    ensures var once := Edited(ops, doc, spec).value;
            Edited(ops, once, spec) == Some(once)
  {
    hide TableOf, Fields;
    var once := Edited(ops, doc, spec).value;
    var table := Table(TableOf(Fields(spec)));
    var entries := once["package"].entries;
    assert entries[spec.name := table] == entries;
    assert once["package" := Table(entries)] == once;
  }

  /** `write_lockfile`: the file is read, edited and written whole. */
  class Lock {
    var doc: Document

    constructor (doc: Document)
      ensures this.doc == doc
    {
      this.doc := doc;
    }

    method Write(ops: Semver, spec: DependencySpec) returns (written: bool)
      modifies this
      ensures written == Edited(ops, old(doc), spec).Some?
      ensures doc == if written then Edited(ops, old(doc), spec).value else old(doc)
    {
      var edited := doc;
      if "package" !in edited { edited := edited["package" := Table(map[])]; }
      if !edited["package"].Table? { return false; }
      if !Writable(ops, spec) { return false; }
      var fields, table := Fields(spec), map[];
      var i := 0;
      while i < |fields|
        invariant i <= |fields|
        invariant table == TableOf(fields[..i])
      {
        assert fields[..i + 1][..i] == fields[..i];
        table := Put(table, fields[i].0, fields[i].1);
        i := i + 1;
      }
      assert fields[..i] == fields;
      var packages := edited["package"].entries;
      edited := edited["package" := Table(packages[spec.name := Table(table)])];
      assert edited == Edited(ops, old(doc), spec).value;
      doc := edited;
      return true;
    }
  }
}
