/** The sequential runners as the source writes them: loops of transactions over one database file. */
module MigrationFile {
  import opened Wrappers
  import opened StringOrder
  import opened MigrationRunner

  /** The down scripts by version: no entry when the migration file is missing, None when it has no down script. */
  type DownScripts<!S> = map<string, Option<Script<S>>>

  /** The schema after undoing the j largest applied versions, or None when some script is missing or fails. */
  function Undone<S>(downs: DownScripts<S>, applied: seq<string>, j: nat, schema: S): Option<S>
    requires j <= |applied|
  {
    if j == 0 then Some(schema)
    else
      match Undone(downs, applied, j - 1, schema) {
        case None => None
        case Some(mid) =>
          var version := applied[|applied| - j];
          if version in downs && downs[version].Some? then downs[version].value(mid) else None
      }
  }

  class DatabaseFile<!S> {
    var recorded: set<string>
    var schema: S

    constructor (schema: S)
      ensures recorded == {} && this.schema == schema
    {
      recorded := {};
      this.schema := schema;
    }

    function View(): Database<S>
      reads this
    {
      Database(recorded, schema)
    }

    /** One transaction; a fault stands for any error of the environment. */
    method Commit(migration: Migration<S>, fault: bool) returns (ok: bool)
      modifies this
      ensures ok <==> !fault && Transaction(old(View()), migration).Some?
      ensures View() == if ok then Transaction(old(View()), migration).value else old(View())
    {
      if fault { return false; }
      match migration.up(schema) {
        case None => return false;
        case Some(after) =>
          if migration.version in recorded { return false; }
          schema := after;
          recorded := recorded + {migration.version};
      }
      ok := true;
    }

    /** The packaged program's loop: the version is looked up inside each transaction. `next` is the
        number of migrations dealt with. */
    method ApplyPackaged(list: seq<Migration<S>>, faults: nat -> bool) returns (ok: bool, next: nat)
      requires Distinct(list)
      modifies this
      ensures next <= |list| && (ok <==> next == |list|)
      ensures recorded == old(recorded) + Versions(list, Missing(list, old(recorded), next))
      ensures Fold(list, Missing(list, old(recorded), next), old(schema)) == Some(schema)
      ensures forall i | 0 <= i < next :: list[i].version in recorded
      ensures !ok ==> faults(next) || (list[next].version !in recorded && list[next].up(schema).None?)
    {
      hide Missing, Versions, Fold;
      ProgressStart(list, View());
      next := 0;
      while next < |list|
        invariant next <= |list|
        invariant Progress(list, old(View()), View(), next)
      {
        ProgressStep(list, old(View()), View(), next);
        if faults(next) { return false, next; }
        if list[next].version !in recorded {
          var committed := Commit(list[next], false);
          if !committed { return false, next; }
        }
        next := next + 1;
      }
      ok := true;
    }

    /** The command-line loop: the recorded versions are read once at the start. */
    method ApplyCommandLine(list: seq<Migration<S>>, faults: nat -> bool) returns (ok: bool, next: nat, appliedCount: nat)
      requires Distinct(list)
      modifies this
      ensures next <= |list| && (ok <==> next == |list|)
      ensures recorded == old(recorded) + Versions(list, Missing(list, old(recorded), next))
      ensures Fold(list, Missing(list, old(recorded), next), old(schema)) == Some(schema)
      ensures forall i | 0 <= i < next :: list[i].version in recorded
      ensures appliedCount == |Missing(list, old(recorded), next)|
      ensures !ok ==> list[next].version !in recorded && (faults(next) || list[next].up(schema).None?)
    {
      hide Missing, Versions, Fold;
      ProgressStart(list, View());
      var applied := recorded;
      next, appliedCount := 0, 0;
      while next < |list|
        invariant next <= |list| && applied == recorded
        invariant Progress(list, old(View()), View(), next)
        invariant appliedCount == |Missing(list, old(recorded), next)|
      {
        ProgressStep(list, old(View()), View(), next);
        if list[next].version !in applied {
          var committed := Commit(list[next], faults(next));
          if !committed { return false, next, appliedCount; }
          applied := applied + {list[next].version};
          appliedCount := appliedCount + 1;
        }
        next := next + 1;
      }
      ok := true;
    }

    /** Rolls back the largest versions first, one transaction each. `applied` is the ascending listing
        of the recorded versions that the query returned. */
    method Rollback(applied: seq<string>, downs: DownScripts<S>, steps: nat, faults: nat -> bool)
      returns (ok: bool, rolledBack: nat)
      requires Ascending(applied) && Elements(applied) == recorded
      modifies this
      ensures rolledBack <= steps && rolledBack <= |applied|
      ensures ok <==> rolledBack == if steps < |applied| then steps else |applied|
      ensures recorded == Elements(applied[..|applied| - rolledBack])
      ensures Undone(downs, applied, rolledBack, old(schema)) == Some(schema)
      ensures !ok ==> faults(rolledBack) || Undone(downs, applied, rolledBack + 1, old(schema)).None?
    {
      hide Less, Ascending, Elements, Undone;
      rolledBack := 0;
      assert applied[..|applied|] == applied;
      NothingUndone(downs, applied, schema);
      while rolledBack < steps && rolledBack < |applied|
        invariant rolledBack <= steps && rolledBack <= |applied|
        invariant recorded == Elements(applied[..|applied| - rolledBack])
        invariant Undone(downs, applied, rolledBack, old(schema)) == Some(schema)
      {
        var version := applied[|applied| - 1 - rolledBack];
        UndoneStep(downs, applied, rolledBack, old(schema), schema);
        if version !in downs || downs[version].None? { return false, rolledBack; }
        if faults(rolledBack) { return false, rolledBack; }
        match downs[version].value(schema) {
          case None => return false, rolledBack;
          case Some(after) =>
            schema := after;
            recorded := recorded - {version};
        }
        rolledBack := rolledBack + 1;
      }
      ok := true;
    }
  }

  // ----- the loop invariant of rolling back -----

  lemma NothingUndone<S>(downs: DownScripts<S>, applied: seq<string>, schema: S)
    ensures Undone(downs, applied, 0, schema) == Some(schema)
  {
  }

  /** One more version undone. */
  lemma UndoneStep<S>(downs: DownScripts<S>, applied: seq<string>, j: nat, schema: S, mid: S)
    requires Ascending(applied) && j < |applied| && Undone(downs, applied, j, schema) == Some(mid)
    ensures var version := applied[|applied| - 1 - j];
            && Elements(applied[..|applied| - j]) - {version} == Elements(applied[..|applied| - (j + 1)])
            && Undone(downs, applied, j + 1, schema)
            == if version in downs && downs[version].Some? then downs[version].value(mid) else None
  {
    hide Less, Elements;
    var rest := applied[..|applied| - j];
    ElementsButLast(rest);
    assert rest[..|rest| - 1] == applied[..|applied| - (j + 1)];
  }

  // ----- the loop invariant of applying -----

  ghost predicate Progress<S>(list: seq<Migration<S>>, start: Database<S>, now: Database<S>, next: nat)
    requires next <= |list|
  {
    var done := Missing(list, start.recorded, next);
    && now.recorded == start.recorded + Versions(list, done)
    && Fold(list, done, start.schema) == Some(now.schema)
    && forall i | 0 <= i < next :: list[i].version in now.recorded
  }

  lemma ProgressStart<S>(list: seq<Migration<S>>, start: Database<S>)
    ensures Missing(list, start.recorded, 0) == [] && Progress(list, start, start, 0)
  {
    assert Versions(list, []) == {};
  }

  lemma ProgressStep<S>(list: seq<Migration<S>>, start: Database<S>, now: Database<S>, next: nat)
    requires Distinct(list) && next < |list| && Progress(list, start, now, next)
    ensures list[next].version in now.recorded ==>
              && Missing(list, start.recorded, next + 1) == Missing(list, start.recorded, next)
              && Progress(list, start, now, next + 1)
    ensures list[next].version !in now.recorded ==>
              && |Missing(list, start.recorded, next + 1)| == |Missing(list, start.recorded, next)| + 1
              && (Transaction(now, list[next]).Some? ==> Progress(list, start, Transaction(now, list[next]).value, next + 1))
  {
    var done := Missing(list, start.recorded, next);
    RecordedIsLogged(list, done, next);
    VersionsExtended(list, done, next);
    FoldExtended(list, done, next, start.schema);
    hide Versions, Fold, Distinct;
  }

  // ----- rolling back a prefix -----

  predicate VersionsAscend<S>(list: seq<Migration<S>>) {
    forall i, j | 0 <= i < j < |list| :: Less(list[i].version, list[j].version)
  }

  function Prefix<S>(list: seq<Migration<S>>, n: nat): (r: seq<string>)
    requires n <= |list|
    ensures |r| == n && forall i | 0 <= i < n :: r[i] == list[i].version
  {
    seq(n, i requires 0 <= i < n => list[i].version)
  }

  /** Wherever the up script of a listed migration succeeds, its down script takes the result back. */
  ghost predicate Inverts<S(!new)>(list: seq<Migration<S>>, downs: DownScripts<S>) {
    forall i | 0 <= i < |list| ::
      && list[i].version in downs && downs[list[i].version].Some?
      && forall s, t :: list[i].up(s) == Some(t) ==> downs[list[i].version].value(t) == Some(s)
  }

  lemma AppliedIsPrefix<S>(list: seq<Migration<S>>, applied: seq<string>, n: nat)
    requires VersionsAscend(list) && n <= |list|
    requires Ascending(applied) && Elements(applied) == Versions(list, Upto(n))
    ensures applied == Prefix(list, n)
  {
    forall v | v in Versions(list, Upto(n)) ensures v in Elements(Prefix(list, n)) {
      var k :| 0 <= k < |Upto(n)| && list[Upto(n)[k]].version == v;
      assert Prefix(list, n)[k] == v;
    }
    forall v | v in Elements(Prefix(list, n)) ensures v in Versions(list, Upto(n)) {
      var k :| 0 <= k < n && Prefix(list, n)[k] == v;
      assert list[Upto(n)[k]].version == v;
    }
    AscendingListingIsUnique(applied, Prefix(list, n));
  }

  /** From a prefix of n migrations, undoing j of them leaves the schema of the first n - j, and never
      fails for want of a script. */
  lemma {:induction false} UndoneIsShorterPrefix<S(!new)>(
      list: seq<Migration<S>>, downs: DownScripts<S>, empty: S, n: nat, j: nat, schema: S)
    requires j <= n <= |list| && Inverts(list, downs)
    requires Fold(list, Upto(n), empty) == Some(schema)
    ensures Fold(list, Upto(n - j), empty).Some?
    ensures Undone(downs, Prefix(list, n), j, schema) == Fold(list, Upto(n - j), empty)
  {
    if j > 0 {
      UndoneIsShorterPrefix(list, downs, empty, n, j - 1, schema);
      FoldBack(list, downs, n - j, empty);
      assert Prefix(list, n)[n - j] == list[n - j].version;
      hide Fold, Upto, Prefix, Inverts;
    }
  }

  lemma FoldBack<S(!new)>(list: seq<Migration<S>>, downs: DownScripts<S>, k: nat, empty: S)
    requires k < |list| && Inverts(list, downs) && Fold(list, Upto(k + 1), empty).Some?
    ensures Fold(list, Upto(k), empty).Some?
    ensures list[k].version in downs && downs[list[k].version].Some?
    ensures downs[list[k].version].value(Fold(list, Upto(k + 1), empty).value) == Fold(list, Upto(k), empty)
  {
    assert Upto(k + 1) == Upto(k) + [k];
    FoldExtended(list, Upto(k), k, empty);
    hide Fold, Upto;
  }

  /** Rolling back from a prefix of the list, as far as it gets, leaves a shorter prefix. */
  lemma RollbackLeavesPrefix<S(!new)>(
      list: seq<Migration<S>>, downs: DownScripts<S>, empty: S, n: nat,
      before: Database<S>, applied: seq<string>, j: nat, after: Database<S>)
    requires VersionsAscend(list) && Inverts(list, downs)
    requires n <= |list| && IsPrefix(list, empty, before, n)
    requires Ascending(applied) && Elements(applied) == before.recorded
    requires j <= |applied| && after.recorded == Elements(applied[..|applied| - j])
    requires Undone(downs, applied, j, before.schema) == Some(after.schema)
    ensures j <= n && IsPrefix(list, empty, after, n - j)
  {
    AppliedIsPrefix(list, applied, n);
    UndoneIsShorterPrefix(list, downs, empty, n, j, before.schema);
    assert applied[..n - j] == Prefix(list, n - j);
    forall v | v in Versions(list, Upto(n - j)) ensures v in after.recorded {
      var k :| 0 <= k < |Upto(n - j)| && list[Upto(n - j)[k]].version == v;
      assert Prefix(list, n - j)[k] == v;
    }
    forall v | v in after.recorded ensures v in Versions(list, Upto(n - j)) {
      var k :| 0 <= k < n - j && Prefix(list, n - j)[k] == v;
      assert list[Upto(n - j)[k]].version == v;
    }
  }
}
