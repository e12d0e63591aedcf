/** Applying and rolling back migrations. A database is the set of recorded versions and a schema; a
    script is a partial function on schemas, and a transaction applies it and records its version, or
    does nothing. Packaged programs look the version up inside the transaction; the command-line runner
    reads the recorded versions once, before its first transaction. */
module MigrationRunner {
  import opened Wrappers

  type Script<!S> = S -> Option<S>

  datatype Migration<!S> = Migration(version: string, up: Script<S>)

  datatype Database<!S> = Database(recorded: set<string>, schema: S)

  datatype Status = Active | Failed | Done

  /** A program working through the list; `seen` is what the command-line runner read when it started. */
  datatype Launcher = Packaged(index: nat, status: Status) | CommandLine(index: nat, status: Status, seen: set<string>)

  /** `log` is history: the numbers of the scripts that took effect, in order. */
  datatype System<!S> = System(database: Database<S>, launchers: seq<Launcher>, log: seq<nat>)

  datatype Action =
    | StartPackaged
    | StartCommandLine
    | Advance(launcher: nat)
    | Finish(launcher: nat)
    | Fail(launcher: nat)

  /** The transaction of one migration: the script, then the row with the version as primary key. */
  function Transaction<S>(database: Database<S>, migration: Migration<S>): Option<Database<S>> {
    match migration.up(database.schema)
    case None => None
    case Some(schema) =>
      if migration.version in database.recorded then None
      else Some(Database(database.recorded + {migration.version}, schema))
  }

  /** What a launcher does with the migration it has come to. */
  function Attempt<S>(database: Database<S>, migration: Migration<S>, launcher: Launcher): (Database<S>, Launcher, bool) {
    var skip := migration.version in if launcher.Packaged? then database.recorded else launcher.seen;
    if skip then (database, launcher.(index := launcher.index + 1), false)
    else
      match Transaction(database, migration)
      case None => (database, launcher.(status := Failed), false)
      case Some(after) =>
        var next := launcher.(index := launcher.index + 1);
        (after, if next.Packaged? then next else next.(seen := next.seen + {migration.version}), true)
  }

  function Next<S>(list: seq<Migration<S>>, s: System<S>, action: Action): Option<System<S>> {
    match action
    case StartPackaged => Some(s.(launchers := s.launchers + [Packaged(0, Active)]))
    case StartCommandLine => Some(s.(launchers := s.launchers + [CommandLine(0, Active, s.database.recorded)]))
    case Advance(k) =>
      if k >= |s.launchers| || s.launchers[k].status != Active || s.launchers[k].index >= |list| then None
      else
        var index := s.launchers[k].index;
        var (database, launcher, applied) := Attempt(s.database, list[index], s.launchers[k]);
        Some(System(database, s.launchers[k := launcher], if applied then s.log + [index] else s.log))
    case Finish(k) =>
      if k >= |s.launchers| || s.launchers[k].status != Active || s.launchers[k].index < |list| then None
      else Some(s.(launchers := s.launchers[k := s.launchers[k].(status := Done)]))
    case Fail(k) =>
      if k >= |s.launchers| || s.launchers[k].status != Active then None
      else Some(s.(launchers := s.launchers[k := s.launchers[k].(status := Failed)]))
  }

  function Run<S>(list: seq<Migration<S>>, start: Database<S>, actions: seq<Action>): Option<System<S>> {
    if actions == [] then Some(System(start, [], []))
    else
      match Run(list, start, actions[..|actions| - 1]) {
        case None => None
        case Some(s) => Next(list, s, actions[|actions| - 1])
      }
  }

  // ----- what the list means -----

  predicate Distinct<S>(list: seq<Migration<S>>) {
    forall i, j | 0 <= i < |list| && 0 <= j < |list| && list[i].version == list[j].version :: i == j
  }

  /** The numbers of the migrations not yet recorded, in list order, up to a bound. */
  function Missing<S>(list: seq<Migration<S>>, recorded: set<string>, bound: nat): (r: seq<nat>)
    requires bound <= |list|
    ensures forall k | 0 <= k < |r| :: r[k] < bound && list[r[k]].version !in recorded
    ensures forall k, l | 0 <= k < l < |r| :: r[k] < r[l]
  {
    if bound == 0 then []
    else if list[bound - 1].version in recorded then Missing(list, recorded, bound - 1)
    else Missing(list, recorded, bound - 1) + [bound - 1]
  }

  lemma {:induction false} MissingIsAll<S>(list: seq<Migration<S>>, recorded: set<string>, bound: nat, i: nat)
    requires i < bound <= |list| && list[i].version !in recorded
    ensures i in Missing(list, recorded, bound)
  {
    if i < bound - 1 { MissingIsAll(list, recorded, bound - 1, i); }
  }

  /** Running the numbered scripts in order, or None when one of them fails. */
  function Fold<S>(list: seq<Migration<S>>, numbers: seq<nat>, schema: S): Option<S>
    requires forall k | 0 <= k < |numbers| :: numbers[k] < |list|
  {
    if numbers == [] then Some(schema)
    else
      match Fold(list, numbers[..|numbers| - 1], schema) {
        case None => None
        case Some(before) => list[numbers[|numbers| - 1]].up(before)
      }
  }

  function Versions<S>(list: seq<Migration<S>>, numbers: seq<nat>): (r: set<string>)
    requires forall k | 0 <= k < |numbers| :: numbers[k] < |list|
  {
    set k | 0 <= k < |numbers| :: list[numbers[k]].version
  }

  // ----- the invariant -----

  ghost predicate Inv<S>(list: seq<Migration<S>>, start: Database<S>, s: System<S>) {
    var missing := Missing(list, start.recorded, |list|);
    && s.log <= missing
    && s.database.recorded == start.recorded + Versions(list, s.log)
    && Fold(list, s.log, start.schema) == Some(s.database.schema)
    && forall k | 0 <= k < |s.launchers| :: LauncherInv(list, s.database, s.launchers[k])
  }

  ghost predicate LauncherInv<S>(list: seq<Migration<S>>, database: Database<S>, launcher: Launcher) {
    && launcher.index <= |list|
    && (launcher.status == Done ==> launcher.index == |list|)
    && (launcher.CommandLine? ==> launcher.seen <= database.recorded)
    && forall i | 0 <= i < launcher.index :: list[i].version in database.recorded
  }

  lemma VersionsExtended<S>(list: seq<Migration<S>>, numbers: seq<nat>, number: nat)
    requires number < |list| && forall k | 0 <= k < |numbers| :: numbers[k] < |list|
    ensures Versions(list, numbers + [number]) == Versions(list, numbers) + {list[number].version}
  {
    var longer := numbers + [number];
    forall v ensures v in Versions(list, longer) <==> v in Versions(list, numbers) + {list[number].version} {
      if v in Versions(list, numbers) {
        var k :| 0 <= k < |numbers| && list[numbers[k]].version == v;
        assert longer[k] == numbers[k];
      }
      assert longer[|numbers|] == number;
    }
  }

  lemma RecordedIsLogged<S>(list: seq<Migration<S>>, log: seq<nat>, number: nat)
    requires Distinct(list) && number < |list|
    requires forall k | 0 <= k < |log| :: log[k] < |list|
    ensures list[number].version in Versions(list, log) <==> number in log
  {
    if list[number].version in Versions(list, log) {
      var k :| 0 <= k < |log| && list[log[k]].version == list[number].version;
      assert log[k] == number;
    }
    if number in log {
      var k :| 0 <= k < |log| && log[k] == number;
      assert list[log[k]].version in Versions(list, log);
    }
  }

  lemma NextInOrder(all: seq<nat>, taken: seq<nat>, number: nat)
    requires forall k, l | 0 <= k < l < |all| :: all[k] < all[l]
    requires taken <= all && number in all && number !in taken
    requires forall m | m in all && m < number :: m in taken
    ensures taken + [number] <= all
  {
    var k :| 0 <= k < |all| && all[k] == number;
    assert forall j | 0 <= j < |taken| :: taken[j] == all[j] && taken[j] != number;
    var m := all[|taken|];
    assert m !in taken && m in all && m <= number;
    assert taken + [number] == all[..|taken| + 1];
  }

  /** A launcher that has everything before its index recorded can only apply the next missing script. */
  lemma AppliedIsNextMissing<S>(list: seq<Migration<S>>, recorded: set<string>, log: seq<nat>, index: nat)
    requires Distinct(list) && index < |list| && log <= Missing(list, recorded, |list|)
    requires list[index].version !in recorded + Versions(list, log)
    requires forall i | 0 <= i < index :: list[i].version in recorded + Versions(list, log)
    ensures log + [index] <= Missing(list, recorded, |list|)
  {
    var missing := Missing(list, recorded, |list|);
    hide Versions, Missing;
    RecordedIsLogged(list, log, index);
    forall m | m in missing && m < index ensures m in log {
      RecordedIsLogged(list, log, m);
      assert list[m].version in recorded + Versions(list, log);
    }
    MissingIsAll(list, recorded, |list|, index);
    NextInOrder(missing, log, index);
  }

  lemma FoldExtended<S>(list: seq<Migration<S>>, numbers: seq<nat>, number: nat, schema: S)
    requires number < |list| && forall k | 0 <= k < |numbers| :: numbers[k] < |list|
    ensures Fold(list, numbers + [number], schema)
         == match Fold(list, numbers, schema) { case None => None case Some(before) => list[number].up(before) }
  {
    assert (numbers + [number])[..|numbers|] == numbers;
  }

  lemma AppliedKeepsHistory<S>(list: seq<Migration<S>>, start: Database<S>, s: System<S>, index: nat)
    requires Distinct(list) && Inv(list, start, s) && index < |list|
    requires Transaction(s.database, list[index]).Some?
    requires forall i | 0 <= i < index :: list[i].version in s.database.recorded
    ensures var after, log := Transaction(s.database, list[index]).value, s.log + [index];
            && log <= Missing(list, start.recorded, |list|)
            && after.recorded == start.recorded + Versions(list, log)
            && Fold(list, log, start.schema) == Some(after.schema)
  {
    hide Versions, Missing, Fold;
    FoldExtended(list, s.log, index, start.schema);
    AppliedIsNextMissing(list, start.recorded, s.log, index);
    VersionsExtended(list, s.log, index);
  }

  lemma AttemptKeepsLauncher<S>(list: seq<Migration<S>>, database: Database<S>, launcher: Launcher)
    requires LauncherInv(list, database, launcher) && launcher.status == Active && launcher.index < |list|
    ensures var (after, moved, applied) := Attempt(database, list[launcher.index], launcher);
            && LauncherInv(list, after, moved)
            && database.recorded <= after.recorded
            && (applied ==> Transaction(database, list[launcher.index]) == Some(after))
            && (!applied ==> after == database)
  {
  }

  lemma AdvanceKeepsInv<S>(list: seq<Migration<S>>, start: Database<S>, s: System<S>, k: nat)
    requires Distinct(list) && Inv(list, start, s) && Next(list, s, Advance(k)).Some?
    ensures Inv(list, start, Next(list, s, Advance(k)).value)
  {
    var launcher := s.launchers[k];
    assert LauncherInv(list, s.database, launcher);
    AttemptKeepsLauncher(list, s.database, launcher);
    if Attempt(s.database, list[launcher.index], launcher).2 {
      AppliedKeepsHistory(list, start, s, launcher.index);
    }
    var t := Next(list, s, Advance(k)).value;
    hide Attempt, Missing, Versions, Fold;
    forall l | 0 <= l < |t.launchers| ensures LauncherInv(list, t.database, t.launchers[l]) {
      assert LauncherInv(list, s.database, s.launchers[l]);
    }
  }

  lemma NextKeepsInv<S>(list: seq<Migration<S>>, start: Database<S>, s: System<S>, action: Action)
    requires Distinct(list) && Inv(list, start, s) && Next(list, s, action).Some?
    ensures Inv(list, start, Next(list, s, action).value)
  {
    if action.Advance? {
      AdvanceKeepsInv(list, start, s, action.launcher);
    }
  }

  lemma {:induction false} RunKeepsInv<S>(list: seq<Migration<S>>, start: Database<S>, actions: seq<Action>)
    requires Distinct(list) && Run(list, start, actions).Some?
    ensures Inv(list, start, Run(list, start, actions).value)
  {
    if actions == [] {
      assert Versions(list, []) == {};
    } else {
      RunKeepsInv(list, start, actions[..|actions| - 1]);
      NextKeepsInv(list, start, Run(list, start, actions[..|actions| - 1]).value, actions[|actions| - 1]);
    }
  }

  // ----- what holds of every run -----

  /** With any number of launchers of both kinds, failing wherever they like, each script takes effect
      at most once, in list order, and only if its version was not recorded at the start; what is
      recorded and the schema are exactly those of the scripts that took effect. */
  lemma EachScriptAtMostOnceInOrder<S>(list: seq<Migration<S>>, start: Database<S>, actions: seq<Action>)
    requires Distinct(list) && Run(list, start, actions).Some?
    ensures var s := Run(list, start, actions).value;
            && (forall k, l | 0 <= k < l < |s.log| :: s.log[k] < s.log[l])
            && (forall k | 0 <= k < |s.log| :: s.log[k] < |list| && list[s.log[k]].version !in start.recorded)
            && s.database.recorded == start.recorded + Versions(list, s.log)
            && Fold(list, s.log, start.schema) == Some(s.database.schema)
  {
    RunKeepsInv(list, start, actions);
  }

  predicate SomeoneIsDone<S>(s: System<S>) {
    exists k | 0 <= k < |s.launchers| :: s.launchers[k].status == Done
  }

  /** Once any launcher is done, every script is in. */
  lemma DoneMeansComplete<S>(list: seq<Migration<S>>, start: Database<S>, actions: seq<Action>)
    requires Distinct(list) && Run(list, start, actions).Some?
    requires SomeoneIsDone(Run(list, start, actions).value)
    ensures var s := Run(list, start, actions).value;
            && s.log == Missing(list, start.recorded, |list|)
            && forall i | 0 <= i < |list| :: list[i].version in s.database.recorded
  {
    RunKeepsInv(list, start, actions);
    var s := Run(list, start, actions).value;
    var k :| 0 <= k < |s.launchers| && s.launchers[k].status == Done;
    assert LauncherInv(list, s.database, s.launchers[k]);
    AllRecordedMeansAllLogged(list, start.recorded, s.log);
  }

  lemma AllTaken(all: seq<nat>, taken: seq<nat>)
    requires forall k, l | 0 <= k < l < |all| :: all[k] < all[l]
    requires taken <= all && forall m | m in all :: m in taken
    ensures taken == all
  {
    if all != [] {
      assert all[|all| - 1] in all;
      var l :| 0 <= l < |taken| && taken[l] == all[|all| - 1];
      assert all[l] == all[|all| - 1];
    }
  }

  lemma AllRecordedMeansAllLogged<S>(list: seq<Migration<S>>, recorded: set<string>, log: seq<nat>)
    requires Distinct(list) && log <= Missing(list, recorded, |list|)
    requires forall i | 0 <= i < |list| :: list[i].version in recorded + Versions(list, log)
    ensures log == Missing(list, recorded, |list|)
  {
    var missing := Missing(list, recorded, |list|);
    hide Versions, Missing;
    forall m | m in missing ensures m in log {
      RecordedIsLogged(list, log, m);
      assert list[m].version in recorded + Versions(list, log);
    }
    AllTaken(missing, log);
  }

  // ----- a database whose recorded versions are a prefix of the list -----

  function Upto(n: nat): (r: seq<nat>)
    ensures |r| == n && forall k | 0 <= k < n :: r[k] == k
  {
    seq(n, k requires 0 <= k < n => k)
  }

  /** The first n migrations are recorded and the schema is what they make of the empty one. */
  ghost predicate IsPrefix<S>(list: seq<Migration<S>>, empty: S, database: Database<S>, n: nat)
    requires n <= |list|
  {
    && database.recorded == Versions(list, Upto(n))
    && Fold(list, Upto(n), empty) == Some(database.schema)
  }

  lemma {:induction false} MissingAfterPrefix<S>(list: seq<Migration<S>>, n: nat, bound: nat)
    requires Distinct(list) && n <= bound <= |list|
    ensures Upto(n) + Missing(list, Versions(list, Upto(n)), bound) == Upto(bound)
  {
    if bound == n {
      MissingInPrefix(list, n, n);
    } else {
      RecordedIsLogged(list, Upto(n), bound - 1);
      MissingAfterPrefix(list, n, bound - 1);
      hide Versions, Upto;
      assert Upto(bound) == Upto(bound - 1) + [bound - 1];
    }
  }

  lemma {:induction false} MissingInPrefix<S>(list: seq<Migration<S>>, n: nat, bound: nat)
    requires bound <= n <= |list|
    ensures Missing(list, Versions(list, Upto(n)), bound) == []
  {
    hide Versions, Upto;
    if bound > 0 {
      InPrefix(list, n, bound - 1);
      MissingInPrefix(list, n, bound - 1);
    }
  }

  lemma InPrefix<S>(list: seq<Migration<S>>, n: nat, i: nat)
    requires i < n <= |list|
    ensures list[i].version in Versions(list, Upto(n))
  {
    assert list[Upto(n)[i]].version in Versions(list, Upto(n));
  }

  lemma {:induction false} FoldConcat<S>(list: seq<Migration<S>>, a: seq<nat>, b: seq<nat>, schema: S)
    requires forall k | 0 <= k < |a| :: a[k] < |list|
    requires forall k | 0 <= k < |b| :: b[k] < |list|
    ensures Fold(list, a + b, schema)
         == match Fold(list, a, schema) { case None => None case Some(mid) => Fold(list, b, mid) }
  {
    if b == [] {
      assert a + b == a;
    } else {
      assert (a + b)[..|a + b| - 1] == a + b[..|b| - 1];
      FoldConcat(list, a, b[..|b| - 1], schema);
    }
  }

  lemma VersionsConcat<S>(list: seq<Migration<S>>, a: seq<nat>, b: seq<nat>)
    requires forall k | 0 <= k < |a| :: a[k] < |list|
    requires forall k | 0 <= k < |b| :: b[k] < |list|
    ensures Versions(list, a + b) == Versions(list, a) + Versions(list, b)
  {
    var ab := a + b;
    forall v | v in Versions(list, a) + Versions(list, b) ensures v in Versions(list, ab) {
      if v in Versions(list, a) {
        var k :| 0 <= k < |a| && list[a[k]].version == v;
        assert ab[k] == a[k];
      } else {
        var k :| 0 <= k < |b| && list[b[k]].version == v;
        assert ab[|a| + k] == b[k];
      }
    }
    forall v | v in Versions(list, ab) ensures v in Versions(list, a) + Versions(list, b) {
      var k :| 0 <= k < |ab| && list[ab[k]].version == v;
      if k < |a| { assert list[a[k]].version == v; } else { assert list[b[k - |a|]].version == v; }
    }
  }

  /** Started on a prefix, the database is a prefix after every step of every interleaving, and the
      whole list once any launcher is done. */
  lemma DatabaseStaysPrefix<S>(list: seq<Migration<S>>, empty: S, start: Database<S>, n: nat, actions: seq<Action>)
    requires Distinct(list) && n <= |list| && IsPrefix(list, empty, start, n)
    requires Run(list, start, actions).Some?
    ensures var s := Run(list, start, actions).value;
            && n + |s.log| <= |list|
            && IsPrefix(list, empty, s.database, n + |s.log|)
            && (SomeoneIsDone(s) ==> n + |s.log| == |list|)
  {
    hide *;
    RunKeepsInv(list, start, actions);
    PrefixExtends(list, empty, start, n, Run(list, start, actions).value);
    if SomeoneIsDone(Run(list, start, actions).value) {
      DoneMeansComplete(list, start, actions);
      RestOfPrefix(list, empty, start, n);
    }
  }

  lemma RestOfPrefix<S>(list: seq<Migration<S>>, empty: S, start: Database<S>, n: nat)
    requires Distinct(list) && n <= |list| && IsPrefix(list, empty, start, n)
    ensures n + |Missing(list, start.recorded, |list|)| == |list|
  {
    MissingAfterPrefix(list, n, |list|);
    hide Versions, Missing, Fold, Upto;
    assert |Upto(n) + Missing(list, start.recorded, |list|)| == |list|;
  }

  lemma PrefixExtends<S>(list: seq<Migration<S>>, empty: S, start: Database<S>, n: nat, s: System<S>)
    requires Distinct(list) && n <= |list| && IsPrefix(list, empty, start, n) && Inv(list, start, s)
    ensures n + |s.log| <= |list| && IsPrefix(list, empty, s.database, n + |s.log|)
  {
    hide Versions, Missing, Fold, Upto;
    var missing := Missing(list, start.recorded, |list|);
    MissingAfterPrefix(list, n, |list|);
    assert |Upto(n) + missing| == |list|;
    assert s.log == missing[..|s.log|];
    assert Upto(n) + s.log == (Upto(n) + missing)[..n + |s.log|] == Upto(n + |s.log|);
    FoldConcat(list, Upto(n), s.log, empty);
    VersionsConcat(list, Upto(n), s.log);
  }
}
