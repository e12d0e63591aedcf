/** The table of remembered responses: lookup by key, and pruning down to the retention cap. */
module RegistryIdempotency {
  import opened FiniteSets
  import opened Wrappers
  import opened StringOrder
  import opened RegistryVersions

  const MAX_RECORDS: nat := 4096

  datatype Response =
    | PackageBody(name: string, latest: Option<string>, versions: seq<StoredVersion>)
    | VersionExists
    | NotFound
    | InternalError
    | KeyConflict
    | BadRequest

  /** What must be the same for a request to count as a repetition. */
  datatype Fingerprint = Fingerprint(tokenHash: string, httpMethod: string, path: string, bodyDigest: string)

  datatype Record = Record(fingerprint: Fingerprint, storedAtMs: int, response: Response)

  type Records = map<string, Record>

  /** The lookup before a request is carried out: None lets it through. */
  function Replay(records: Records, key: string, fingerprint: Fingerprint): Option<Response> {
    if key !in records then None
    else if records[key].fingerprint == fingerprint then Some(records[key].response)
    else Some(KeyConflict)
  }

  /** The order of removal: by time stored, then by key. */
  predicate Older(records: Records, a: string, b: string)
    requires a in records && b in records
  {
    || records[a].storedAtMs < records[b].storedAtMs
    || (records[a].storedAtMs == records[b].storedAtMs && Less(a, b))
  }

  predicate IsOldest(records: Records, key: string) {
    key in records && forall k | k in records :: k == key || Older(records, key, k)
  }

  lemma OlderIsTotal(records: Records, a: string, b: string)
    requires a in records && b in records
    ensures Older(records, a, b) || a == b || Older(records, b, a)
    ensures Older(records, a, b) ==> a != b && !Older(records, b, a)
  {
    LessIsTotal(a, b);
    if Less(a, b) { LessIsAsymmetric(a, b); }
  }

  lemma OlderIsTransitive(records: Records, a: string, b: string, c: string)
    requires a in records && b in records && c in records
    requires Older(records, a, b) && Older(records, b, c)
    ensures Older(records, a, c)
  {
    if Less(a, b) && Less(b, c) { LessIsTransitive(a, b, c); }
  }

  lemma {:induction false} OldestAmong(records: Records, keys: set<string>) returns (oldest: string)
    requires keys != {} && keys <= records.Keys
    ensures oldest in keys && forall k | k in keys :: k == oldest || Older(records, oldest, k)
    decreases keys
  {
    var key :| key in keys;
    if keys == {key} {
      oldest := key;
    } else {
      oldest := OldestAmong(records, keys - {key});
      OlderIsTotal(records, key, oldest);
      if Older(records, key, oldest) {
        forall k | k in keys ensures k == key || Older(records, key, k) {
          if k != key && k != oldest { OlderIsTransitive(records, key, oldest, k); }
        }
        oldest := key;
      }
    }
  }

  lemma OldestExists(records: Records)
    requires records != map[]
    ensures exists key :: IsOldest(records, key)
  {
    assert records.Keys != {} by {
      var key :| key in records;
      assert key in records.Keys;
    }
    var oldest := OldestAmong(records, records.Keys);
    assert IsOldest(records, oldest);
  }

  /** What pruning promises: at most the cap is left, exactly the cap when something was removed,
      survivors are unaltered, and every removed record is older than every survivor. */
  ghost predicate IsPruned(records: Records, kept: Records) {
    && kept.Keys <= records.Keys && (forall k | k in kept :: kept[k] == records[k])
    && |kept| == (if |records| <= MAX_RECORDS then |records| else MAX_RECORDS)
    && forall k, r | k in kept && r in records && r !in kept :: Older(records, r, k)
  }

  lemma PrunedIsUnique(records: Records, a: Records, b: Records)
    requires IsPruned(records, a) && IsPruned(records, b)
    ensures a == b
  {
    if !(a.Keys <= b.Keys) {
      var x :| x in a && x !in b;
      if b.Keys <= a.Keys {
        SmallerSet(b.Keys, a.Keys, x);
      } else {
        var y :| y in b && y !in a;
        OlderIsTotal(records, x, y);
      }
    } else if !(b.Keys <= a.Keys) {
      var y :| y in b && y !in a;
      SmallerSet(a.Keys, b.Keys, y);
    }
    assert a.Keys == b.Keys;
  }

  lemma SmallerSet(a: set<string>, b: set<string>, x: string)
    requires a <= b && x in b && x !in a
    ensures |a| < |b|
  {
    SubsetSize(a, b - {x});
  }

  /** The loop of `prune_idempotency_records`. */
  method Prune(records: Records) returns (kept: Records)
    ensures IsPruned(records, kept)
  {
    kept := records;
    while |kept| > MAX_RECORDS
      invariant kept.Keys <= records.Keys && forall k | k in kept :: kept[k] == records[k]
      invariant |kept| == |records| || |kept| >= MAX_RECORDS
      invariant |kept| <= |records|
      invariant forall k, r | k in kept && r in records && r !in kept :: Older(records, r, k)
      decreases |kept|
    {
      OldestExists(kept);
      var oldest :| oldest in kept && IsOldest(kept, oldest);
      var rest := kept - {oldest};
      assert rest.Keys == kept.Keys - {oldest};
      forall k, r | k in rest && r in records && r !in rest ensures Older(records, r, k) {
        if r == oldest { assert Older(kept, oldest, k); }
      }
      kept := rest;
    }
    SubsetSize(kept.Keys, records.Keys);
  }

  ghost function Pruned(records: Records): (kept: Records)
    ensures IsPruned(records, kept)
    decreases |records|
  {
    if |records| <= MAX_RECORDS then records
    else
      OldestExists(records);
      var oldest :| IsOldest(records, oldest);
      var rest := records - {oldest};
      assert rest.Keys == records.Keys - {oldest};
      var kept := Pruned(rest);
      RemovedOldest(records, oldest, kept);
      kept
  }

  lemma RemovedOldest(records: Records, oldest: string, kept: Records)
    requires |records| > MAX_RECORDS && IsOldest(records, oldest)
    requires IsPruned(records - {oldest}, kept)
    ensures IsPruned(records, kept)
  {
    var rest := records - {oldest};
    assert rest.Keys == records.Keys - {oldest};
    forall k, r | k in kept && r in records && r !in kept ensures Older(records, r, k) {
      if r != oldest { assert Older(rest, r, k); }
    }
  }

  ghost function Stored(records: Records, key: string, record: Record): Records {
    Pruned(records[key := record])
  }

  method Store(records: Records, key: string, record: Record) returns (stored: Records)
    ensures stored == Stored(records, key, record)
  {
    stored := Prune(records[key := record]);
    PrunedIsUnique(records[key := record], stored, Pruned(records[key := record]));
  }
}
