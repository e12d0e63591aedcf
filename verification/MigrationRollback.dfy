/** Rolling back while other programs apply or roll back. A rollback reads the recorded versions once, and its
    transactions do not look whether the row they delete is still there, so two of them can undo one
    migration twice; when that happens, and when not. */
module MigrationRollback {
  import opened Wrappers
  import opened StringOrder
  import opened MigrationRunner
  import opened MigrationFile

  /** A rollback at work; `applied` is what it read when it started. */
  datatype Roller = Roller(applied: seq<string>, steps: nat, taken: nat, status: Status)

  /** What took effect; `found` says whether the deleted row was there. */
  datatype Event = Applied(version: string) | Undoing(version: string, found: bool)

  datatype World<!S> = World(database: Database<S>, launchers: seq<Launcher>, rollers: seq<Roller>, log: seq<Event>)

  datatype Move =
    | Launch(action: Action)
    | StartRollback(applied: seq<string>, steps: nat)
    | Undo(roller: nat)
    | FinishRollback(roller: nat)
    | FailRollback(roller: nat)

  /** The version a rollback undoes next. */
  function Target(roller: Roller): Option<string> {
    if roller.taken < roller.steps && roller.taken < |roller.applied|
    then Some(roller.applied[|roller.applied| - 1 - roller.taken]) else None
  }

  function AppliedBy<S>(list: seq<Migration<S>>, numbers: seq<nat>): seq<Event> {
    if numbers == [] || numbers[0] >= |list| then [] else [Applied(list[numbers[0]].version)]
  }

  function Next<S>(list: seq<Migration<S>>, downs: DownScripts<S>, w: World<S>, move: Move): Option<World<S>> {
    match move
    case Launch(action) =>
      (match MigrationRunner.Next(list, System(w.database, w.launchers, []), action)
       case None => None
       case Some(t) => Some(World(t.database, t.launchers, w.rollers, w.log + AppliedBy(list, t.log))))
    case StartRollback(applied, steps) =>
      if !Ascending(applied) || Elements(applied) != w.database.recorded then None
      else Some(w.(rollers := w.rollers + [Roller(applied, steps, 0, Active)]))
    case Undo(k) =>
      if k >= |w.rollers| || w.rollers[k].status != Active || Target(w.rollers[k]).None? then None
      else
        var roller, version := w.rollers[k], Target(w.rollers[k]).value;
        var after := if version in downs && downs[version].Some? then downs[version].value(w.database.schema) else None;
        if after.None? then Some(w.(rollers := w.rollers[k := roller.(status := Failed)]))
        else Some(World(Database(w.database.recorded - {version}, after.value), w.launchers,
                        w.rollers[k := roller.(taken := roller.taken + 1)],
                        w.log + [Undoing(version, version in w.database.recorded)]))
    case FinishRollback(k) =>
      if k >= |w.rollers| || w.rollers[k].status != Active || Target(w.rollers[k]).Some? then None
      else Some(w.(rollers := w.rollers[k := w.rollers[k].(status := Done)]))
    case FailRollback(k) =>
      if k >= |w.rollers| || w.rollers[k].status != Active then None
      else Some(w.(rollers := w.rollers[k := w.rollers[k].(status := Failed)]))
  }

  function Run<S>(list: seq<Migration<S>>, downs: DownScripts<S>, start: Database<S>, moves: seq<Move>): Option<World<S>> {
    if moves == [] then Some(World(start, [], [], []))
    else
      match Run(list, downs, start, moves[..|moves| - 1]) {
        case None => None
        case Some(w) => Next(list, downs, w, moves[|moves| - 1])
      }
  }

  // ----- the recorded versions are the history's -----

  function After(recorded: set<string>, log: seq<Event>): set<string> {
    if log == [] then recorded
    else
      var before, last := After(recorded, log[..|log| - 1]), log[|log| - 1];
      if last.Applied? then before + {last.version} else before - {last.version}
  }

  lemma AfterSnoc(recorded: set<string>, log: seq<Event>, event: Event)
    ensures After(recorded, log + [event])
         == if event.Applied? then After(recorded, log) + {event.version} else After(recorded, log) - {event.version}
  {
    assert (log + [event])[..|log|] == log;
  }

  ghost predicate WasRecorded(recorded: set<string>, log: seq<Event>, version: string) {
    exists p | 0 <= p <= |log| :: version in After(recorded, log[..p])
  }

  ghost predicate SoundAt(recorded: set<string>, log: seq<Event>, k: nat)
    requires k < |log|
  {
    log[k].Undoing? ==>
      && (log[k].found <==> log[k].version in After(recorded, log[..k]))
      && WasRecorded(recorded, log[..k], log[k].version)
  }

  ghost predicate Inv<S>(start: Database<S>, w: World<S>) {
    && w.database.recorded == After(start.recorded, w.log)
    && (forall k | 0 <= k < |w.log| :: SoundAt(start.recorded, w.log, k))
    && (forall k, v | 0 <= k < |w.rollers| && v in w.rollers[k].applied :: WasRecorded(start.recorded, w.log, v))
  }

  lemma WasStays(recorded: set<string>, log: seq<Event>, more: seq<Event>, version: string)
    requires WasRecorded(recorded, log, version)
    ensures WasRecorded(recorded, log + more, version)
  {
    var p :| 0 <= p <= |log| && version in After(recorded, log[..p]);
    assert (log + more)[..p] == log[..p];
  }

  lemma NowIsWas(recorded: set<string>, log: seq<Event>, version: string)
    requires version in After(recorded, log)
    ensures WasRecorded(recorded, log, version)
  {
    assert log[..|log|] == log;
  }

  lemma SoundSnoc(recorded: set<string>, log: seq<Event>, event: Event)
    requires forall k | 0 <= k < |log| :: SoundAt(recorded, log, k)
    requires event.Undoing? ==>
               (event.found <==> event.version in After(recorded, log)) && WasRecorded(recorded, log, event.version)
    ensures forall k | 0 <= k < |log + [event]| :: SoundAt(recorded, log + [event], k)
  {
    var longer := log + [event];
    forall k | 0 <= k < |longer| ensures SoundAt(recorded, longer, k) {
      if k < |log| {
        assert SoundAt(recorded, log, k) && longer[..k] == log[..k];
      } else {
        assert longer[..k] == log;
      }
    }
  }

  /** An event that follows the database, with rollers that know of nothing new. */
  lemma EventKeepsInv<S>(start: Database<S>, w: World<S>, event: Event, t: World<S>)
    requires Inv(start, w) && t.log == w.log + [event]
    requires event.Undoing? ==>
               (event.found <==> event.version in w.database.recorded) && WasRecorded(start.recorded, w.log, event.version)
    requires t.database.recorded
          == if event.Applied? then w.database.recorded + {event.version} else w.database.recorded - {event.version}
    requires |t.rollers| == |w.rollers| && forall k | 0 <= k < |w.rollers| :: t.rollers[k].applied == w.rollers[k].applied
    ensures Inv(start, t)
  {
    hide After, SoundAt, WasRecorded;
    AfterSnoc(start.recorded, w.log, event);
    SoundSnoc(start.recorded, w.log, event);
    forall k, v | 0 <= k < |t.rollers| && v in t.rollers[k].applied ensures WasRecorded(start.recorded, t.log, v) {
      assert v in w.rollers[k].applied;
      WasStays(start.recorded, w.log, [event], v);
    }
  }

  lemma LaunchKeepsInv<S>(list: seq<Migration<S>>, downs: DownScripts<S>, start: Database<S>, w: World<S>, action: Action)
    requires Inv(start, w) && Next(list, downs, w, Launch(action)).Some?
    ensures Inv(start, Next(list, downs, w, Launch(action)).value)
  {
    var t := MigrationRunner.Next(list, System(w.database, w.launchers, []), action).value;
    var u := Next(list, downs, w, Launch(action)).value;
    LaunchEffect(list, w.database, w.launchers, action);
    hide Inv, MigrationRunner.Next;
    if t.log == [] {
      assert u.log == w.log;
      SameKeepsInv(start, w, u);
    } else {
      EventKeepsInv(start, w, Applied(list[t.log[0]].version), u);
    }
  }

  lemma SameKeepsInv<S>(start: Database<S>, w: World<S>, t: World<S>)
    requires Inv(start, w) && t.log == w.log && t.database.recorded == w.database.recorded
    requires forall k, v | 0 <= k < |t.rollers| && v in t.rollers[k].applied :: WasRecorded(start.recorded, w.log, v)
    ensures Inv(start, t)
  {
  }

  /** A launcher's step records at most one version, and logs it. */
  lemma LaunchEffect<S>(list: seq<Migration<S>>, database: Database<S>, launchers: seq<Launcher>, action: Action)
    ensures var t := MigrationRunner.Next(list, System(database, launchers, []), action);
            t.Some? ==>
              if t.value.log == [] then t.value.database.recorded == database.recorded
              else |t.value.log| == 1 && t.value.log[0] < |list|
                   && t.value.database.recorded == database.recorded + {list[t.value.log[0]].version}
  {
  }

  lemma NextKeepsInv<S>(list: seq<Migration<S>>, downs: DownScripts<S>, start: Database<S>, w: World<S>, move: Move)
    requires Inv(start, w) && Next(list, downs, w, move).Some?
    ensures Inv(start, Next(list, downs, w, move).value)
  {
    var t := Next(list, downs, w, move).value;
    match move
    case Launch(action) => LaunchKeepsInv(list, downs, start, w, action);
    case StartRollback(applied, steps) =>
      forall v | v in applied ensures WasRecorded(start.recorded, w.log, v) {
        assert v in Elements(applied);
        NowIsWas(start.recorded, w.log, v);
      }
    case Undo(k) =>
      var version := Target(w.rollers[k]).value;
      assert version in w.rollers[k].applied;
      if t.log != w.log { EventKeepsInv(start, w, Undoing(version, version in w.database.recorded), t); }
    case _ =>
  }

  lemma {:induction false} RunKeepsInv<S>(list: seq<Migration<S>>, downs: DownScripts<S>, start: Database<S>, moves: seq<Move>)
    requires Run(list, downs, start, moves).Some?
    ensures Inv(start, Run(list, downs, start, moves).value)
  {
    if moves != [] {
      RunKeepsInv(list, downs, start, moves[..|moves| - 1]);
      NextKeepsInv(list, downs, start, Run(list, downs, start, moves[..|moves| - 1]).value, moves[|moves| - 1]);
    }
  }

  // ----- when a migration is undone once for each time it was applied -----

  predicate AllFound(log: seq<Event>) {
    forall k | 0 <= k < |log| && log[k].Undoing? :: log[k].found
  }

  predicate AppliedWithin(log: seq<Event>, i: nat, j: nat, version: string)
    requires i <= j <= |log|
  {
    exists m | i <= m < j :: log[m] == Applied(version)
  }

  /** Between two undoings of a version it is applied again. */
  predicate UndoneOnce(log: seq<Event>) {
    forall i, j | 0 <= i < j < |log| && log[i].Undoing? && log[j].Undoing? && log[i].version == log[j].version ::
      AppliedWithin(log, i, j, log[i].version)
  }

  /** A version that was not recorded and is again has been applied between. */
  lemma {:induction false} BackByApplying(recorded: set<string>, log: seq<Event>, i: nat, j: nat, version: string)
    requires i <= j <= |log|
    requires version !in After(recorded, log[..i]) && version in After(recorded, log[..j])
    ensures AppliedWithin(log, i, j, version)
    decreases j
  {
    var last := log[j - 1];
    assert log[..j] == log[..j - 1] + [last];
    AfterSnoc(recorded, log[..j - 1], last);
    if last != Applied(version) {
      BackByApplying(recorded, log, i, j - 1, version);
    }
  }

  /** A version that was recorded and is not any more has been undone, and not applied since. */
  lemma {:induction false} GoneByUndoing(recorded: set<string>, log: seq<Event>, p: nat, j: nat, version: string)
    returns (i: nat)
    requires p <= j <= |log|
    requires version in After(recorded, log[..p]) && version !in After(recorded, log[..j])
    ensures i < j && log[i].Undoing? && log[i].version == version && !AppliedWithin(log, i, j, version)
    decreases j
  {
    var last := log[j - 1];
    assert log[..j] == log[..j - 1] + [last];
    AfterSnoc(recorded, log[..j - 1], last);
    if last.Undoing? && last.version == version {
      i := j - 1;
    } else {
      i := GoneByUndoing(recorded, log, p, j - 1, version);
    }
  }

  /** In every interleaving of applying and rolling back: each migration is undone at most once for each time
      it was applied if and only if every delete finds its row. */
  lemma UndoneOnceIff<S>(list: seq<Migration<S>>, downs: DownScripts<S>, start: Database<S>, moves: seq<Move>)
    requires Run(list, downs, start, moves).Some?
    ensures var log := Run(list, downs, start, moves).value.log;
            UndoneOnce(log) <==> AllFound(log)
  {
    RunKeepsInv(list, downs, start, moves);
    var log := Run(list, downs, start, moves).value.log;
    assert forall k | 0 <= k < |log| :: SoundAt(start.recorded, log, k);
    hide Run, Inv, After;
    if AllFound(log) {
      forall i, j | 0 <= i < j < |log| && log[i].Undoing? && log[j].Undoing? && log[i].version == log[j].version
        ensures AppliedWithin(log, i, j, log[i].version)
      {
        FoundAgain(start.recorded, log, i, j);
      }
    } else {
      var k :| 0 <= k < |log| && log[k].Undoing? && !log[k].found;
      assert SoundAt(start.recorded, log, k);
      var p :| 0 <= p <= k && log[k].version in After(start.recorded, log[..k][..p]);
      assert log[..k][..p] == log[..p];
      var i := GoneByUndoing(start.recorded, log, p, k, log[k].version);
    }
  }

  lemma FoundAgain(recorded: set<string>, log: seq<Event>, i: nat, j: nat)
    requires i < j < |log| && log[i].Undoing? && log[j].Undoing? && log[i].version == log[j].version
    requires log[j].found && SoundAt(recorded, log, j)
    ensures AppliedWithin(log, i, j, log[i].version)
  {
    var version := log[i].version;
    assert log[..i + 1] == log[..i] + [log[i]];
    AfterSnoc(recorded, log[..i], log[i]);
    BackByApplying(recorded, log, i + 1, j, version);
  }

  // ----- one rollback at a time -----

  predicate Idle(rollers: seq<Roller>) {
    forall k | 0 <= k < |rollers| :: rollers[k].status != Active
  }

  /** A rollback starts only when those before it have ended; programs may apply migrations meanwhile. */
  ghost predicate OneAtATime<S>(list: seq<Migration<S>>, downs: DownScripts<S>, start: Database<S>, moves: seq<Move>) {
    forall k | 0 <= k < |moves| && moves[k].StartRollback? ::
      Run(list, downs, start, moves[..k]).Some? ==> Idle(Run(list, downs, start, moves[..k]).value.rollers)
  }

  /** Only the last roller works, and what it has still to undo is recorded. */
  predicate Undisturbed<S>(w: World<S>) {
    && (forall k | 0 <= k < |w.rollers| - 1 :: w.rollers[k].status != Active)
    && (w.rollers != [] && w.rollers[|w.rollers| - 1].status == Active ==>
          var roller := w.rollers[|w.rollers| - 1];
          && Ascending(roller.applied)
          && roller.taken <= |roller.applied|
          && forall i | 0 <= i < |roller.applied| - roller.taken :: roller.applied[i] in w.database.recorded)
  }

  lemma NextUndisturbed<S>(list: seq<Migration<S>>, downs: DownScripts<S>, w: World<S>, move: Move)
    requires Undisturbed(w) && AllFound(w.log) && Next(list, downs, w, move).Some?
    requires move.StartRollback? ==> Idle(w.rollers)
    ensures Undisturbed(Next(list, downs, w, move).value) && AllFound(Next(list, downs, w, move).value.log)
  {
    match move
    case Launch(action) =>
      LaunchEffect(list, w.database, w.launchers, action);
      hide MigrationRunner.Next;
    case StartRollback(applied, steps) =>
      assert forall i | 0 <= i < |applied| :: applied[i] in Elements(applied);
    case Undo(k) =>
      UndoUndisturbed(list, downs, w, k);
    case _ =>
  }

  lemma UndoUndisturbed<S>(list: seq<Migration<S>>, downs: DownScripts<S>, w: World<S>, k: nat)
    requires Undisturbed(w) && AllFound(w.log) && Next(list, downs, w, Undo(k)).Some?
    ensures Undisturbed(Next(list, downs, w, Undo(k)).value) && AllFound(Next(list, downs, w, Undo(k)).value.log)
  {
    var roller := w.rollers[k];
    var n := |roller.applied| - 1 - roller.taken;
    forall i | 0 <= i < n ensures roller.applied[i] != roller.applied[n] {
      AscendingDiffer(roller.applied, i, n);
    }
    hide Less;
  }

  lemma AscendingDiffer(s: seq<string>, i: nat, j: nat)
    requires Ascending(s) && i < j < |s|
    ensures s[i] != s[j]
  {
    LessIsAsymmetric(s[i], s[j]);
  }

  /** Rollbacks one after the other undo nothing twice. */
  lemma OneAtATimeUndoesOnce<S>(list: seq<Migration<S>>, downs: DownScripts<S>, start: Database<S>,
                                                   moves: seq<Move>)
    requires Run(list, downs, start, moves).Some? && OneAtATime(list, downs, start, moves)
    ensures UndoneOnce(Run(list, downs, start, moves).value.log)
  {
    StaysUndisturbed(list, downs, start, moves);
    hide *;
    UndoneOnceIff(list, downs, start, moves);
  }

  lemma {:induction false} StaysUndisturbed<S>(list: seq<Migration<S>>, downs: DownScripts<S>, start: Database<S>,
                                               moves: seq<Move>)
    requires Run(list, downs, start, moves).Some? && OneAtATime(list, downs, start, moves)
    ensures var w := Run(list, downs, start, moves).value;
            Undisturbed(w) && AllFound(w.log)
  {
    if moves != [] {
      var init, last := moves[..|moves| - 1], moves[|moves| - 1];
      assert forall k | 0 <= k < |init| :: moves[..k] == init[..k] && moves[k] == init[k];
      StaysUndisturbed(list, downs, start, init);
      NextUndisturbed(list, downs, Run(list, downs, start, init).value, last);
    }
  }

  /** Two rollbacks that have read the same versions both undo the last one. */
  lemma TwoRollbacksUndoTwice<S>(list: seq<Migration<S>>, downs: DownScripts<S>, schema: S, version: string)
    returns (moves: seq<Move>)
    requires version in downs && downs[version].Some?
    requires downs[version].value(schema).Some? && downs[version].value(downs[version].value(schema).value).Some?
    ensures var start := Database({version}, schema);
            && Run(list, downs, start, moves).Some?
            && Run(list, downs, start, moves).value.log == [Undoing(version, true), Undoing(version, false)]
            && !UndoneOnce(Run(list, downs, start, moves).value.log)
            && Starts(moves) == 2
  {
    var start := Database({version}, schema);
    var applied := [version];
    assert Elements(applied) == {version} by { assert applied[0] == version; }
    assert Ascending(applied);
    var w0: World<S> := World(start, [], [], []);
    var roller := Roller(applied, 1, 0, Active);
    var w1 := Moved(list, downs, start, [], w0, StartRollback(applied, 1));
    var a1 := [StartRollback(applied, 1)];
    var w2 := Moved(list, downs, start, a1, w1, StartRollback(applied, 1));
    var a2 := a1 + [StartRollback(applied, 1)];
    assert w2.rollers == [roller, roller];
    var w3 := Moved(list, downs, start, a2, w2, Undo(0));
    var a3 := a2 + [Undo(0)];
    assert w3.database.recorded == {} && w3.rollers[1] == roller;
    var w4 := Moved(list, downs, start, a3, w3, Undo(1));
    moves := a3 + [Undo(1)];
    var log := w4.log;
    assert log == [Undoing(version, true), Undoing(version, false)];
    assert log[0].version == log[1].version && !AppliedWithin(log, 0, 1, log[0].version);
    StartsSnoc([], StartRollback(applied, 1));
    assert [] + [StartRollback(applied, 1)] == a1;
    StartsSnoc(a1, StartRollback(applied, 1));
    StartsSnoc(a2, Undo(0));
    StartsSnoc(a3, Undo(1));
  }

  lemma Moved<S>(list: seq<Migration<S>>, downs: DownScripts<S>, start: Database<S>, moves: seq<Move>,
                                    w: World<S>, move: Move)
    returns (t: World<S>)
    requires Run(list, downs, start, moves) == Some(w) && Next(list, downs, w, move).Some?
    ensures t == Next(list, downs, w, move).value && Run(list, downs, start, moves + [move]) == Some(t)
  {
    t := Next(list, downs, w, move).value;
    assert (moves + [move])[..|moves|] == moves;
  }

  // ----- how many rollbacks may be at work -----

  /** How many rollbacks are started. */
  function Starts(moves: seq<Move>): nat {
    if moves == [] then 0 else Starts(moves[..|moves| - 1]) + if moves[|moves| - 1].StartRollback? then 1 else 0
  }

  lemma StartsSnoc(moves: seq<Move>, move: Move)
    ensures Starts(moves + [move]) == Starts(moves) + if move.StartRollback? then 1 else 0
  {
    assert (moves + [move])[..|moves|] == moves;
  }

  function AtWork(rollers: seq<Roller>): nat {
    if rollers == [] then 0 else AtWork(rollers[..|rollers| - 1]) + if rollers[|rollers| - 1].status == Active then 1 else 0
  }

  /** Never are more than so many rollbacks at work. */
  ghost predicate AtMostAtWork<S>(list: seq<Migration<S>>, downs: DownScripts<S>, start: Database<S>, moves: seq<Move>,
                                  most: nat)
  {
    forall k | 0 <= k <= |moves| :: WorkBounded(Run(list, downs, start, moves[..k]), most)
  }

  predicate WorkBounded<S>(w: Option<World<S>>, most: nat) {
    w.Some? ==> AtWork(w.value.rollers) <= most
  }

  /** However so many rollbacks work together with any launchers, nothing is undone twice. */
  ghost predicate AlwaysOnce<S(!new)>(list: seq<Migration<S>>, downs: DownScripts<S>, most: nat) {
    forall start: Database<S>, moves: seq<Move> ::
      Run(list, downs, start, moves).Some? && AtMostAtWork(list, downs, start, moves, most)
      ==> UndoneOnce(Run(list, downs, start, moves).value.log)
  }

  lemma {:induction false} AtWorkAreThere(rollers: seq<Roller>)
    ensures AtWork(rollers) <= |rollers|
  {
    if rollers != [] { AtWorkAreThere(rollers[..|rollers| - 1]); }
  }

  lemma {:induction false} RollersAreStarted<S>(list: seq<Migration<S>>, downs: DownScripts<S>, start: Database<S>,
                                                moves: seq<Move>)
    requires Run(list, downs, start, moves).Some?
    ensures |Run(list, downs, start, moves).value.rollers| == Starts(moves)
  {
    if moves != [] {
      RollersAreStarted(list, downs, start, moves[..|moves| - 1]);
      hide MigrationRunner.Next;
    }
  }

  lemma {:induction false} FewerStarts(moves: seq<Move>, k: nat)
    requires k <= |moves|
    ensures Starts(moves[..k]) <= Starts(moves)
    decreases |moves|
  {
    if k == |moves| {
      assert moves[..k] == moves;
    } else {
      assert moves[..|moves| - 1][..k] == moves[..k];
      FewerStarts(moves[..|moves| - 1], k);
    }
  }

  lemma StartedAreMost<S>(list: seq<Migration<S>>, downs: DownScripts<S>, start: Database<S>, moves: seq<Move>)
    ensures AtMostAtWork(list, downs, start, moves, Starts(moves))
  {
    hide Run, Starts;
    forall k | 0 <= k <= |moves| ensures WorkBounded(Run(list, downs, start, moves[..k]), Starts(moves)) {
      var w := Run(list, downs, start, moves[..k]);
      FewerStarts(moves, k);
      if w.Some? {
        RollersAreStarted(list, downs, start, moves[..k]);
        AtWorkAreThere(w.value.rollers);
      }
    }
  }

  lemma {:induction false} NobodyAtWork(rollers: seq<Roller>)
    requires AtWork(rollers) == 0
    ensures Idle(rollers)
  {
    if rollers != [] { NobodyAtWork(rollers[..|rollers| - 1]); }
  }

  lemma OneAtWork<S>(list: seq<Migration<S>>, downs: DownScripts<S>, start: Database<S>, moves: seq<Move>)
    requires Run(list, downs, start, moves).Some? && AtMostAtWork(list, downs, start, moves, 1)
    ensures OneAtATime(list, downs, start, moves)
  {
    forall k | 0 <= k < |moves| && moves[k].StartRollback? && Run(list, downs, start, moves[..k]).Some?
      ensures Idle(Run(list, downs, start, moves[..k]).value.rollers)
    {
      StartsAlone(list, downs, start, moves, k);
    }
  }

  lemma {:induction false} PrefixRuns<S>(list: seq<Migration<S>>, downs: DownScripts<S>, start: Database<S>,
                                         moves: seq<Move>, k: nat)
    requires k <= |moves| && Run(list, downs, start, moves).Some?
    ensures Run(list, downs, start, moves[..k]).Some?
    decreases |moves|
  {
    if k == |moves| {
      assert moves[..k] == moves;
    } else {
      assert moves[..|moves| - 1][..k] == moves[..k];
      PrefixRuns(list, downs, start, moves[..|moves| - 1], k);
    }
  }

  lemma StartsAlone<S>(list: seq<Migration<S>>, downs: DownScripts<S>, start: Database<S>, moves: seq<Move>, k: nat)
    requires Run(list, downs, start, moves).Some? && AtMostAtWork(list, downs, start, moves, 1)
    requires k < |moves| && moves[k].StartRollback? && Run(list, downs, start, moves[..k]).Some?
    ensures Idle(Run(list, downs, start, moves[..k]).value.rollers)
  {
    PrefixRuns(list, downs, start, moves, k + 1);
    assert moves[..k + 1][..k] == moves[..k] && moves[..k + 1][k] == moves[k];
    var w, t := Run(list, downs, start, moves[..k]).value, Run(list, downs, start, moves[..k + 1]).value;
    assert t == Next(list, downs, w, moves[k]).value;
    assert WorkBounded(Run(list, downs, start, moves[..k + 1]), 1);
    assert t.rollers[..|t.rollers| - 1] == w.rollers;
    NobodyAtWork(w.rollers);
  }

  /** Where some down script can run twice in a row: nothing is ever undone twice if and only if at most one
      rollback is at work at a time. */
  lemma RollbacksAtWorkIff<S(!new)>(list: seq<Migration<S>>, downs: DownScripts<S>, schema: S, version: string, most: nat)
    requires version in downs && downs[version].Some?
    requires downs[version].value(schema).Some? && downs[version].value(downs[version].value(schema).value).Some?
    ensures AlwaysOnce(list, downs, most) <==> most <= 1
  {
    hide Run, UndoneOnce, AtMostAtWork;
    if most <= 1 {
      forall start: Database<S>, moves: seq<Move>
        | Run(list, downs, start, moves).Some? && AtMostAtWork(list, downs, start, moves, most)
        ensures UndoneOnce(Run(list, downs, start, moves).value.log)
      {
        FewerAtWork(list, downs, start, moves, most, 1);
        OneAtWork(list, downs, start, moves);
        OneAtATimeUndoesOnce(list, downs, start, moves);
      }
    } else {
      var moves := TwoRollbacksUndoTwice(list, downs, schema, version);
      StartedAreMost(list, downs, Database({version}, schema), moves);
      FewerAtWork(list, downs, Database({version}, schema), moves, 2, most);
    }
  }

  lemma FewerAtWork<S>(list: seq<Migration<S>>, downs: DownScripts<S>, start: Database<S>, moves: seq<Move>, few: nat,
                       most: nat)
    requires AtMostAtWork(list, downs, start, moves, few) && few <= most
    ensures AtMostAtWork(list, downs, start, moves, most)
  {
    forall k | 0 <= k <= |moves| ensures WorkBounded(Run(list, downs, start, moves[..k]), most) {
      assert WorkBounded(Run(list, downs, start, moves[..k]), few);
    }
  }
}
