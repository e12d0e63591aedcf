/** The versions of one package: their order, and the latest one that is not yanked, as the server
    keeps it and as the client picks it. */
module RegistryVersions {
  import opened Wrappers
  import opened RegistryNames

  datatype Provenance = Provenance(
    attestationPath: Option<string>,
    attestationIntegrity: Option<string>,
    signaturePath: Option<string>,
    signatureIntegrity: Option<string>,
    signatureKind: Option<string>)

  datatype StoredVersion = StoredVersion(
    version: string,
    publishedAt: string,
    yanked: bool,
    archivePath: string,
    archiveIntegrity: string,
    mediaType: string,
    packageIntegrity: string,
    provenance: Option<Provenance>,
    publisher: Option<string>,
    yankedAt: Option<string>,
    yankedBy: Option<string>)

  predicate AllValid(ops: Semver, versions: seq<StoredVersion>) {
    forall v | v in versions :: ops.valid(v.version)
  }

  predicate Distinct(versions: seq<StoredVersion>) {
    forall i, j | 0 <= i < |versions| && 0 <= j < |versions| && versions[i].version == versions[j].version :: i == j
  }

  predicate Ascend(ops: Semver, versions: seq<StoredVersion>) {
    forall i, j | 0 <= i < j < |versions| :: ops.atMost(versions[i].version, versions[j].version)
  }

  /** The first entry for a version. */
  function Find(versions: seq<StoredVersion>, version: string): (r: Option<StoredVersion>)
    ensures r.Some? ==> r.value in versions && r.value.version == version
    ensures r.None? ==> forall v | v in versions :: v.version != version
  {
    if versions == [] then None
    else if versions[0].version == version then Some(versions[0])
    else Find(versions[1..], version)
  }

  lemma FindByElement(versions: seq<StoredVersion>, v: StoredVersion)
    requires Distinct(versions) && v in versions
    ensures Find(versions, v.version) == Some(v)
  {
  }

  /** Insertion keeping the order of equals: v stood before all of the list. */
  function Inserted(ops: Semver, v: StoredVersion, sorted: seq<StoredVersion>): (r: seq<StoredVersion>)
    ensures |r| == |sorted| + 1
    ensures forall x :: x in r <==> x == v || x in sorted
  {
    if sorted == [] || ops.atMost(v.version, sorted[0].version) then [v] + sorted
    else [sorted[0]] + Inserted(ops, v, sorted[1..])
  }

  /** The stable sort of `sort_by`. */
  function Sorted(ops: Semver, versions: seq<StoredVersion>): (r: seq<StoredVersion>)
    ensures |r| == |versions|
    ensures forall x :: x in r <==> x in versions
  {
    if versions == [] then [] else Inserted(ops, versions[0], Sorted(ops, versions[1..]))
  }

  lemma {:induction false} InsertedAscends(ops: Semver, v: StoredVersion, sorted: seq<StoredVersion>)
    requires ops.Lawful() && ops.valid(v.version) && AllValid(ops, sorted) && Ascend(ops, sorted)
    ensures Ascend(ops, Inserted(ops, v, sorted))
  {
    if sorted != [] {
      assert sorted[0] in sorted;
      if ops.atMost(v.version, sorted[0].version) {
        forall j | 0 <= j < |sorted| ensures ops.atMost(v.version, sorted[j].version) {
          if j > 0 { assert ops.atMost(sorted[0].version, sorted[j].version); }
        }
      } else {
        InsertedAscends(ops, v, sorted[1..]);
        var rest := Inserted(ops, v, sorted[1..]);
        forall j | 0 <= j < |rest| ensures ops.atMost(sorted[0].version, rest[j].version) {
          assert rest[j] in rest;
          if rest[j] != v {
            var k :| 0 <= k < |sorted[1..]| && sorted[1..][k] == rest[j];
            assert ops.atMost(sorted[0].version, sorted[k + 1].version);
          }
        }
      }
    }
  }

  lemma {:induction false} SortedAscends(ops: Semver, versions: seq<StoredVersion>)
    requires ops.Lawful() && AllValid(ops, versions)
    ensures Ascend(ops, Sorted(ops, versions))
  {
    if versions != [] {
      assert versions[0] in versions;
      SortedAscends(ops, versions[1..]);
      InsertedAscends(ops, versions[0], Sorted(ops, versions[1..]));
    }
  }

  lemma DistinctCons(v: StoredVersion, rest: seq<StoredVersion>)
    requires Distinct(rest) && forall x | x in rest :: x.version != v.version
    ensures Distinct([v] + rest)
  {
    assert forall i | 0 <= i < |rest| :: rest[i] in rest;
  }

  lemma {:induction false} InsertedIsDistinct(ops: Semver, v: StoredVersion, sorted: seq<StoredVersion>)
    requires Distinct(sorted) && forall x | x in sorted :: x.version != v.version
    ensures Distinct(Inserted(ops, v, sorted))
  {
    if sorted == [] || ops.atMost(v.version, sorted[0].version) {
      DistinctCons(v, sorted);
    } else {
      assert forall i | 0 <= i < |sorted| - 1 :: sorted[1..][i] == sorted[i + 1];
      InsertedIsDistinct(ops, v, sorted[1..]);
      DistinctCons(sorted[0], Inserted(ops, v, sorted[1..]));
    }
  }

  lemma {:induction false} SortedIsDistinct(ops: Semver, versions: seq<StoredVersion>)
    requires Distinct(versions)
    ensures Distinct(Sorted(ops, versions))
  {
    if versions != [] {
      assert forall i | 0 <= i < |versions| - 1 :: versions[1..][i] == versions[i + 1];
      SortedIsDistinct(ops, versions[1..]);
      InsertedIsDistinct(ops, versions[0], Sorted(ops, versions[1..]));
    }
  }

  // ----- the latest version -----

  predicate Candidate(ops: Semver, v: StoredVersion, req: Option<string>) {
    !v.yanked && ops.valid(v.version) && (req.Some? ==> ops.matches(req.value, v.version))
  }

  /** Number k is a candidate, no candidate comes after it in precedence, and of equals it is the last. */
  predicate IsLatestAt(ops: Semver, versions: seq<StoredVersion>, req: Option<string>, k: nat)
    requires k < |versions|
  {
    && Candidate(ops, versions[k], req)
    && forall j | 0 <= j < |versions| && Candidate(ops, versions[j], req) ::
         && ops.atMost(versions[j].version, versions[k].version)
         && (j > k ==> !ops.atMost(versions[k].version, versions[j].version))
  }

  function Latest(ops: Semver, versions: seq<StoredVersion>, req: Option<string>): Option<StoredVersion> {
    if versions == [] then None
    else
      var rest := Latest(ops, versions[1..], req);
      if !Candidate(ops, versions[0], req) then rest
      else if rest.Some? && ops.atMost(versions[0].version, rest.value.version) then rest
      else Some(versions[0])
  }

  /** There is a latest version whenever there is a candidate, and it is one of the versions. */
  lemma {:induction false} LatestIsLatest(ops: Semver, versions: seq<StoredVersion>, req: Option<string>)
    requires ops.Lawful()
    ensures Latest(ops, versions, req).None? <==> forall v | v in versions :: !Candidate(ops, v, req)
    ensures Latest(ops, versions, req).Some? ==>
              exists k | 0 <= k < |versions| ::
                versions[k] == Latest(ops, versions, req).value && IsLatestAt(ops, versions, req, k)
  {
    if versions != [] {
      var tail := versions[1..];
      LatestIsLatest(ops, tail, req);
      assert forall j | 0 <= j < |tail| :: tail[j] == versions[j + 1];
      var rest := Latest(ops, tail, req);
      var beaten := rest.Some? && ops.atMost(versions[0].version, rest.value.version);
      if rest.Some? && (beaten || !Candidate(ops, versions[0], req)) {
        var k :| 0 <= k < |tail| && tail[k] == rest.value && IsLatestAt(ops, tail, req, k);
        assert IsLatestAt(ops, versions, req, k + 1);
      } else if Candidate(ops, versions[0], req) {
        FirstIsLatest(ops, versions, req);
      }
    }
  }

  lemma FirstIsLatest(ops: Semver, versions: seq<StoredVersion>, req: Option<string>)
    requires ops.Lawful() && versions != [] && Candidate(ops, versions[0], req)
    requires var rest := Latest(ops, versions[1..], req);
             && (rest.None? ==> forall v | v in versions[1..] :: !Candidate(ops, v, req))
             && (rest.Some? ==>
                   && !ops.atMost(versions[0].version, rest.value.version)
                   && exists k | 0 <= k < |versions[1..]| ::
                        versions[1..][k] == rest.value && IsLatestAt(ops, versions[1..], req, k))
    ensures IsLatestAt(ops, versions, req, 0)
  {
    var tail, rest := versions[1..], Latest(ops, versions[1..], req);
    forall j | 0 < j < |versions| && Candidate(ops, versions[j], req)
      ensures ops.atMost(versions[j].version, versions[0].version) && !ops.atMost(versions[0].version, versions[j].version)
    {
      assert tail[j - 1] == versions[j] && versions[j] in tail;
      var k :| 0 <= k < |tail| && tail[k] == rest.value && IsLatestAt(ops, tail, req, k);
      assert ops.atMost(tail[j - 1].version, tail[k].version);
      assert ops.atMost(tail[k].version, versions[0].version);
    }
  }

  lemma LatestIsUnique(ops: Semver, versions: seq<StoredVersion>, req: Option<string>, k: nat, l: nat)
    requires k < |versions| && l < |versions|
    requires IsLatestAt(ops, versions, req, k) && IsLatestAt(ops, versions, req, l)
    ensures k == l
  {
  }

  // ----- the client's way: filter, sort, take the last -----

  function Candidates(ops: Semver, versions: seq<StoredVersion>, req: Option<string>): seq<StoredVersion> {
    if versions == [] then []
    else (if Candidate(ops, versions[0], req) then [versions[0]] else []) + Candidates(ops, versions[1..], req)
  }

  function LatestBySorting(ops: Semver, versions: seq<StoredVersion>, req: Option<string>): Option<StoredVersion> {
    Last(Sorted(ops, Candidates(ops, versions, req)))
  }

  function Last(versions: seq<StoredVersion>): Option<StoredVersion> {
    if versions == [] then None else Some(versions[|versions| - 1])
  }

  lemma {:induction false} CandidatesAreValid(ops: Semver, versions: seq<StoredVersion>, req: Option<string>)
    ensures AllValid(ops, Candidates(ops, versions, req))
  {
    if versions != [] { CandidatesAreValid(ops, versions[1..], req); }
  }

  lemma {:induction false} LastOfInserted(ops: Semver, v: StoredVersion, sorted: seq<StoredVersion>)
    requires ops.Lawful() && ops.valid(v.version) && AllValid(ops, sorted) && Ascend(ops, sorted) && sorted != []
    ensures var last := sorted[|sorted| - 1];
            Inserted(ops, v, sorted)[|sorted|] == if ops.atMost(v.version, last.version) then last else v
  {
    hide Ascend, AllValid;
    var last := sorted[|sorted| - 1];
    if ops.atMost(v.version, sorted[0].version) {
      FrontIsLeast(ops, v, sorted);
    } else if |sorted| > 1 {
      RestAscends(ops, sorted);
      LastOfInserted(ops, v, sorted[1..]);
    } else {
      assert Inserted(ops, v, sorted[1..]) == [v];
    }
  }

  lemma RestAscends(ops: Semver, sorted: seq<StoredVersion>)
    requires AllValid(ops, sorted) && Ascend(ops, sorted) && sorted != []
    ensures AllValid(ops, sorted[1..]) && Ascend(ops, sorted[1..])
  {
  }

  lemma FrontIsLeast(ops: Semver, v: StoredVersion, sorted: seq<StoredVersion>)
    requires ops.Lawful() && ops.valid(v.version) && AllValid(ops, sorted) && Ascend(ops, sorted) && sorted != []
    requires ops.atMost(v.version, sorted[0].version)
    ensures ops.atMost(v.version, sorted[|sorted| - 1].version)
  {
    assert |sorted| > 1 ==> ops.atMost(sorted[0].version, sorted[|sorted| - 1].version);
  }

  lemma SortedFront(ops: Semver, v: StoredVersion, rest: seq<StoredVersion>)
    ensures Sorted(ops, [v] + rest) == Inserted(ops, v, Sorted(ops, rest))
  {
    assert ([v] + rest)[1..] == rest;
  }

  lemma LastOfSorted(ops: Semver, v: StoredVersion, rest: seq<StoredVersion>)
    requires ops.Lawful() && ops.valid(v.version) && AllValid(ops, rest)
    ensures Last(Sorted(ops, [v] + rest))
         == match Last(Sorted(ops, rest)) {
              case None => Some(v)
              case Some(last) => if ops.atMost(v.version, last.version) then Some(last) else Some(v)
            }
  {
    hide Sorted, Ascend;
    SortedFront(ops, v, rest);
    if rest != [] {
      SortedAscends(ops, rest);
      LastOfInserted(ops, v, Sorted(ops, rest));
    }
  }

  lemma CandidatesStep(ops: Semver, versions: seq<StoredVersion>, req: Option<string>)
    requires versions != []
    ensures var rest := Candidates(ops, versions[1..], req);
            Candidates(ops, versions, req) == if Candidate(ops, versions[0], req) then [versions[0]] + rest else rest
  {
  }

  /** The client's sorting and the server's scan agree on every list of versions. */
  lemma {:induction false} SortingFindsTheLatest(ops: Semver, versions: seq<StoredVersion>, req: Option<string>)
    requires ops.Lawful()
    ensures LatestBySorting(ops, versions, req) == Latest(ops, versions, req)
  {
    if versions != [] {
      SortingFindsTheLatest(ops, versions[1..], req);
      CandidatesAreValid(ops, versions[1..], req);
      CandidatesStep(ops, versions, req);
      if Candidate(ops, versions[0], req) {
        LastOfSorted(ops, versions[0], Candidates(ops, versions[1..], req));
      }
    }
  }

  /** The server's scan, keeping the best version so far; of equals the later one wins. */
  method LatestNonYankedVersion(ops: Semver, versions: seq<StoredVersion>) returns (r: Option<StoredVersion>)
    requires ops.Lawful()
    ensures r == Latest(ops, versions, None)
  {
    ghost var best := 0;
    r := None;
    var i := 0;
    while i < |versions|
      invariant i <= |versions|
      invariant r.None? ==> forall j | 0 <= j < i :: !Candidate(ops, versions[j], None)
      invariant r.Some? ==> best < i && r.value == versions[best] && IsLatestAt(ops, versions[..i], None, best)
    {
      if Candidate(ops, versions[i], None) {
        if r.None? || ops.atMost(r.value.version, versions[i].version) {
          r, best := Some(versions[i]), i;
        }
      }
      i := i + 1;
    }
    assert versions[..i] == versions;
    LatestIsLatest(ops, versions, None);
    if r.Some? {
      assert versions[best] in versions;
      var k :| 0 <= k < |versions| && versions[k] == Latest(ops, versions, None).value && IsLatestAt(ops, versions, None, k);
      LatestIsUnique(ops, versions, None, best, k);
    }
  }
}
