/** One-use action tokens: bound to a document generation, limited in number and in age. The registry
    on values, and then as a system of calls that read the clock before they take the lock. */
module SecureActions {
  import opened FiniteSets
  import opened Wrappers

  // in nanoseconds
  const ACTION_LIFETIME: nat := 300_000_000_000
  const MAX_ACTIONS_PER_DOCUMENT: nat := 32
  const TOKEN_ATTEMPTS: nat := 16

  /** `serial` numbers the issues; it is history. */
  datatype Entry<T> = Entry(generation: nat, issuedAt: nat, binding: T, serial: nat)

  type Entries<T> = map<string, Entry<T>>

  datatype Error = Missing | WrongGeneration | Expired | Capacity | Token

  // What the token source answers when asked for one more token.
  datatype Draw = Drawn(id: string) | DrawFailed

  function SaturatingSub(a: nat, b: nat): nat {
    if a < b then 0 else a - b
  }

  predicate IsExpired(now: nat, issuedAt: nat) {
    SaturatingSub(now, issuedAt) >= ACTION_LIFETIME
  }

  function Retained<T>(entries: Entries<T>, now: nat): Entries<T> {
    map id | id in entries && !IsExpired(now, entries[id].issuedAt) :: entries[id]
  }

  function InGeneration<T>(entries: Entries<T>, generation: nat): set<string> {
    set id | id in entries && entries[id].generation == generation
  }

  /** The first drawn id that is not in use, if one comes before a failure and within the attempts. */
  function FreshId<T>(entries: Entries<T>, draws: seq<Draw>): Option<string> {
    if draws == [] || draws[0].DrawFailed? then None
    else if draws[0].id in entries then FreshId(entries, draws[1..])
    else Some(draws[0].id)
  }

  function Issued<T>(entries: Entries<T>, now: nat, generation: nat, binding: T, serial: nat, draws: seq<Draw>)
    : (Entries<T>, Result<string, Error>)
    requires |draws| == TOKEN_ATTEMPTS
  {
    var kept := Retained(entries, now);
    if |InGeneration(kept, generation)| >= MAX_ACTIONS_PER_DOCUMENT then (kept, Err(Capacity))
    else
      match FreshId(kept, draws)
      case None => (kept, Err(Token))
      case Some(id) => (kept[id := Entry(generation, now, binding, serial)], Ok(id))
  }

  function Taken<T>(entries: Entries<T>, id: string, generation: nat, now: nat): (Entries<T>, Result<T, Error>) {
    if id !in entries then (entries, Err(Missing))
    else if entries[id].generation != generation then (entries, Err(WrongGeneration))
    else if IsExpired(now, entries[id].issuedAt) then (entries - {id}, Err(Error.Expired))
    else (entries - {id}, Ok(entries[id].binding))
  }

  function WithoutGeneration<T>(entries: Entries<T>, generation: nat): Entries<T> {
    map id | id in entries && entries[id].generation != generation :: entries[id]
  }

  // ----- the registry as the program keeps it -----

  class SecretActionRegistry<T> {
    var entries: Entries<T>
    ghost var issues: nat

    constructor ()
      ensures entries == map[] && issues == 0
    {
      entries := map[];
      issues := 0;
    }

    method Issue(now: nat, generation: nat, binding: T, serial: nat, draws: seq<Draw>) returns (r: Result<string, Error>)
      requires |draws| == TOKEN_ATTEMPTS
      modifies this`entries
      ensures (entries, r) == Issued(old(entries), now, generation, binding, serial, draws)
      ensures r.Ok? ==> r.value !in Retained(old(entries), now)
    {
      entries := Retained(entries, now);
      if |InGeneration(entries, generation)| >= MAX_ACTIONS_PER_DOCUMENT {
        return Err(Capacity);
      }
      var attempt := 0;
      assert draws[0..] == draws;
      while attempt < TOKEN_ATTEMPTS
        invariant attempt <= TOKEN_ATTEMPTS
        invariant entries == Retained(old(entries), now)
        invariant FreshId(entries, draws[attempt..]) == FreshId(entries, draws)
      {
        assert draws[attempt..][1..] == draws[attempt + 1..];
        match draws[attempt] {
          case DrawFailed => return Err(Token);
          case Drawn(id) =>
            if id !in entries {
              entries := entries[id := Entry(generation, now, binding, serial)];
              return Ok(id);
            }
        }
        attempt := attempt + 1;
      }
      r := Err(Token);
    }

    method Take(id: string, generation: nat, now: nat) returns (r: Result<T, Error>)
      modifies this`entries
      ensures (entries, r) == Taken(old(entries), id, generation, now)
      ensures r.Ok? <==>
        && id in old(entries) && old(entries)[id].generation == generation
        && SaturatingSub(now, old(entries)[id].issuedAt) < ACTION_LIFETIME
      ensures r == Err(WrongGeneration) ==> entries == old(entries)
    {
      if id !in entries { return Err(Missing); }
      var entry := entries[id];
      if entry.generation != generation { return Err(WrongGeneration); }
      if IsExpired(now, entry.issuedAt) {
        entries := entries - {id};
        return Err(Error.Expired);
      }
      entries := entries - {id};
      r := Ok(entry.binding);
    }

    method InvalidateGeneration(generation: nat)
      modifies this`entries
      ensures entries == WithoutGeneration(old(entries), generation)
      ensures forall id | id in old(entries) :: id in entries <==> old(entries)[id].generation != generation
    {
      entries := WithoutGeneration(entries, generation);
    }

    method InvalidateAll()
      modifies this`entries
      ensures entries == map[]
    {
      entries := map[];
    }
  }

  // ----- interleaved calls -----

  datatype Call<T> =
    | IssueCall(now: nat, generation: nat, binding: T)
    | TakeCall(now: nat, id: string, generation: nat)

  datatype Event<T> =
    | Issuance(id: string, entry: Entry<T>)
    | Redemption(id: string, entry: Entry<T>, asked: nat, readAt: nat, removedAt: nat)

  datatype System<T> = System(
    clock: nat,
    entries: Entries<T>,
    // calls that have read the clock and wait for the lock
    calls: seq<Call<T>>,
    issues: nat,
    log: seq<Event<T>>)

  datatype Action<T> =
    | Tick(duration: nat)
    | StartIssue(generation: nat, binding: T)
    | StartTake(id: string, generation: nat)
    | RunIssue(call: nat, draws: seq<Draw>)
    | RunTake(call: nat)
    | InvalidateGeneration(generation: nat)
    | InvalidateAll

  function Without<X>(s: seq<X>, k: nat): seq<X>
    requires k < |s|
  {
    s[..k] + s[k + 1..]
  }

  function Next<T>(s: System<T>, action: Action<T>): Option<System<T>> {
    match action
    case Tick(duration) => Some(s.(clock := s.clock + duration))
    case StartIssue(generation, binding) => Some(s.(calls := s.calls + [IssueCall(s.clock, generation, binding)]))
    case StartTake(id, generation) => Some(s.(calls := s.calls + [TakeCall(s.clock, id, generation)]))
    case RunIssue(k, draws) =>
      if k >= |s.calls| || !s.calls[k].IssueCall? || |draws| != TOKEN_ATTEMPTS then None
      else
        var call := s.calls[k];
        var (entries, r) := Issued(s.entries, call.now, call.generation, call.binding, s.issues, draws);
        Some(System(s.clock, entries, Without(s.calls, k), s.issues + 1,
                    if r.Ok? then s.log + [Issuance(r.value, entries[r.value])] else s.log))
    case RunTake(k) =>
      if k >= |s.calls| || !s.calls[k].TakeCall? then None
      else
        var call := s.calls[k];
        var (entries, r) := Taken(s.entries, call.id, call.generation, call.now);
        Some(s.(entries := entries, calls := Without(s.calls, k),
                log := if r.Ok?
                       then s.log + [Redemption(call.id, s.entries[call.id], call.generation, call.now, s.clock)]
                       else s.log))
    case InvalidateGeneration(generation) => Some(s.(entries := WithoutGeneration(s.entries, generation)))
    case InvalidateAll => Some(s.(entries := map[]))
  }

  function Run<T>(actions: seq<Action<T>>): Option<System<T>> {
    if actions == [] then Some(System(0, map[], [], 0, []))
    else
      match Run(actions[..|actions| - 1]) {
        case None => None
        case Some(s) => Next(s, actions[|actions| - 1])
      }
  }

  // ----- the invariant -----

  predicate WithinCapacity<T>(entries: Entries<T>, generation: nat) {
    |InGeneration(entries, generation)| <= MAX_ACTIONS_PER_DOCUMENT
  }

  predicate NotRedeemed<T>(log: seq<Event<T>>, serial: nat) {
    forall k | 0 <= k < |log| && log[k].Redemption? :: log[k].entry.serial != serial
  }

  /** Every live entry is one issue, not redeemed yet. */
  ghost predicate Live<T>(s: System<T>) {
    && (forall id | id in s.entries ::
          && Issuance(id, s.entries[id]) in s.log
          && s.entries[id].issuedAt <= s.clock
          && NotRedeemed(s.log, s.entries[id].serial))
    && (forall id, other | id in s.entries && other in s.entries && s.entries[id].serial == s.entries[other].serial ::
          id == other)
  }

  ghost predicate SoundAt<T>(log: seq<Event<T>>, issues: nat, k: nat)
    requires k < |log|
  {
    match log[k]
    case Issuance(_, entry) => entry.serial < issues
    case Redemption(id, entry, asked, readAt, removedAt) =>
      && Issuance(id, entry) in log[..k]
      && asked == entry.generation
      && !IsExpired(readAt, entry.issuedAt)
      && readAt <= removedAt
      && NotRedeemed(log[..k], entry.serial)
  }

  ghost predicate Inv<T>(s: System<T>) {
    && (forall generation: nat :: WithinCapacity(s.entries, generation))
    && Live(s)
    && (forall k | 0 <= k < |s.log| :: SoundAt(s.log, s.issues, k))
    && (forall k | 0 <= k < |s.calls| :: s.calls[k].now <= s.clock)
  }

  lemma SubsetCapacity<T>(entries: Entries<T>, fewer: Entries<T>, generation: nat)
    requires forall id | id in fewer :: id in entries && fewer[id] == entries[id]
    ensures |InGeneration(fewer, generation)| <= |InGeneration(entries, generation)|
  {
    assert InGeneration(fewer, generation) <= InGeneration(entries, generation);
    SubsetSize(InGeneration(fewer, generation), InGeneration(entries, generation));
  }

  lemma SoundExtended<T>(log: seq<Event<T>>, issues: nat, event: Event<T>, later: nat)
    requires issues <= later && forall k | 0 <= k < |log| :: SoundAt(log, issues, k)
    requires SoundAt(log + [event], later, |log|)
    ensures forall k | 0 <= k < |log + [event]| :: SoundAt(log + [event], later, k)
  {
    forall k | 0 <= k < |log| ensures SoundAt(log + [event], later, k) {
      assert SoundAt(log, issues, k);
      assert (log + [event])[..k] == log[..k];
    }
  }

  lemma FewerEntriesKeepInv<T>(s: System<T>, entries: Entries<T>)
    requires Inv(s) && forall id | id in entries :: id in s.entries && entries[id] == s.entries[id]
    ensures Inv(s.(entries := entries))
  {
    forall generation: nat ensures WithinCapacity(entries, generation) {
      assert WithinCapacity(s.entries, generation);
      SubsetCapacity(s.entries, entries, generation);
    }
  }

  lemma CallRemoved<T>(s: System<T>, k: nat)
    requires Inv(s) && k < |s.calls|
    ensures Inv(s.(calls := Without(s.calls, k)))
  {
  }

  lemma IssueKeepsInv<T>(s: System<T>, k: nat, draws: seq<Draw>)
    requires Inv(s) && Next(s, RunIssue(k, draws)).Some?
    ensures Inv(Next(s, RunIssue(k, draws)).value)
  {
    var call := s.calls[k];
    var kept := s.(entries := Retained(s.entries, call.now), calls := Without(s.calls, k));
    FewerEntriesKeepInv(s, Retained(s.entries, call.now));
    CallRemoved(s.(entries := Retained(s.entries, call.now)), k);
    AddEntryKeepsInv(kept, call.now, call.generation, call.binding, draws);
  }

  lemma {:induction false} FreshIdIsFresh<T>(entries: Entries<T>, draws: seq<Draw>)
    ensures FreshId(entries, draws).Some? ==> FreshId(entries, draws).value !in entries
  {
    if draws != [] { FreshIdIsFresh(entries, draws[1..]); }
  }

  lemma OneMoreEntry<T>(entries: Entries<T>, id: string, entry: Entry<T>, generation: nat)
    requires id !in entries && WithinCapacity(entries, generation)
    requires |InGeneration(entries, entry.generation)| < MAX_ACTIONS_PER_DOCUMENT
    ensures WithinCapacity(entries[id := entry], generation)
  {
    assert InGeneration(entries[id := entry], generation)
        == InGeneration(entries, generation) + if generation == entry.generation then {id} else {};
  }

  lemma LiveWithNewEntry<T>(s: System<T>, id: string, entry: Entry<T>)
    requires Inv(s) && id !in s.entries && entry.issuedAt <= s.clock && entry.serial == s.issues
    ensures Live(System(s.clock, s.entries[id := entry], s.calls, s.issues + 1, s.log + [Issuance(id, entry)]))
  {
    NewSerialIsNew(s);
    var longer := s.log + [Issuance(id, entry)];
    assert longer[|s.log|] == Issuance(id, entry);
    forall other | other in s.entries ensures Issuance(other, s.entries[other]) in longer {
      assert Issuance(other, s.entries[other]) in s.log;
    }
  }

  lemma AddEntryKeepsInv<T>(s: System<T>, now: nat, generation: nat, binding: T, draws: seq<Draw>)
    requires Inv(s) && now <= s.clock
    ensures Inv(s.(issues := s.issues + 1))
    ensures |InGeneration(s.entries, generation)| < MAX_ACTIONS_PER_DOCUMENT && FreshId(s.entries, draws).Some? ==>
              var id, entry := FreshId(s.entries, draws).value, Entry(generation, now, binding, s.issues);
              Inv(System(s.clock, s.entries[id := entry], s.calls, s.issues + 1, s.log + [Issuance(id, entry)]))
  {
    var later := s.issues + 1;
    forall k | 0 <= k < |s.log| ensures SoundAt(s.log, later, k) {
      assert SoundAt(s.log, s.issues, k);
    }
    assert Inv(s.(issues := later));
    if |InGeneration(s.entries, generation)| < MAX_ACTIONS_PER_DOCUMENT && FreshId(s.entries, draws).Some? {
      FreshIdIsFresh(s.entries, draws);
      var id, entry := FreshId(s.entries, draws).value, Entry(generation, now, binding, s.issues);
      SoundExtended(s.log, s.issues, Issuance(id, entry), s.issues + 1);
      LiveWithNewEntry(s, id, entry);
      hide InGeneration, Live, SoundAt, FreshId;
      var after := s.entries[id := entry];
      forall g: nat ensures WithinCapacity(after, g) {
        OneMoreEntry(s.entries, id, entry, g);
      }
    }
  }

  lemma NewSerialIsNew<T>(s: System<T>)
    requires Inv(s)
    ensures NotRedeemed(s.log, s.issues)
    ensures forall id | id in s.entries :: s.entries[id].serial < s.issues
  {
    forall k | 0 <= k < |s.log| && s.log[k].Redemption? ensures s.log[k].entry.serial < s.issues {
      assert SoundAt(s.log, s.issues, k);
      var j :| 0 <= j < k && s.log[..k][j] == Issuance(s.log[k].id, s.log[k].entry);
      assert SoundAt(s.log, s.issues, j);
    }
    forall id | id in s.entries ensures s.entries[id].serial < s.issues {
      var j :| 0 <= j < |s.log| && s.log[j] == Issuance(id, s.entries[id]);
      assert SoundAt(s.log, s.issues, j);
    }
  }

  lemma TakeKeepsInv<T>(s: System<T>, k: nat)
    requires Inv(s) && Next(s, RunTake(k)).Some?
    ensures Inv(Next(s, RunTake(k)).value)
  {
    var call := s.calls[k];
    var (entries, r) := Taken(s.entries, call.id, call.generation, call.now);
    var fewer := s.(entries := entries, calls := Without(s.calls, k));
    FewerEntriesKeepInv(s, entries);
    CallRemoved(s.(entries := entries), k);
    if r.Ok? {
      var event := Redemption(call.id, s.entries[call.id], call.generation, call.now, s.clock);
      assert (s.log + [event])[..|s.log|] == s.log;
      SoundExtended(s.log, s.issues, event, s.issues);
    }
  }

  lemma NextKeepsInv<T>(s: System<T>, action: Action<T>)
    requires Inv(s) && Next(s, action).Some?
    ensures Inv(Next(s, action).value)
  {
    match action
    case RunIssue(k, draws) => IssueKeepsInv(s, k, draws);
    case RunTake(k) => TakeKeepsInv(s, k);
    case InvalidateGeneration(generation) => FewerEntriesKeepInv(s, WithoutGeneration(s.entries, generation));
    case InvalidateAll => FewerEntriesKeepInv(s, map[]);
    case _ =>
  }

  lemma {:induction false} RunKeepsInv<T>(actions: seq<Action<T>>)
    requires Run(actions).Some?
    ensures Inv(Run(actions).value)
  {
    if actions == [] {
      assert forall generation: nat :: InGeneration<T>(map[], generation) == {};
    } else {
      RunKeepsInv(actions[..|actions| - 1]);
      NextKeepsInv(Run(actions[..|actions| - 1]).value, actions[|actions| - 1]);
    }
  }

  // ----- what holds of every run -----

  lemma CapacityHolds<T>(actions: seq<Action<T>>, generation: nat)
    requires Run(actions).Some?
    ensures |InGeneration(Run(actions).value.entries, generation)| <= MAX_ACTIONS_PER_DOCUMENT
  {
    RunKeepsInv(actions);
    assert WithinCapacity(Run(actions).value.entries, generation);
  }

  /** In every interleaving an issue is redeemed at most once. */
  lemma EachIssueRedeemedAtMostOnce<T>(actions: seq<Action<T>>, i: nat, j: nat)
    requires Run(actions).Some?
    requires var log := Run(actions).value.log;
             && i < |log| && log[i].Redemption? && j < |log| && log[j].Redemption?
             && log[i].entry.serial == log[j].entry.serial
    ensures i == j
  {
    RunKeepsInv(actions);
    var s := Run(actions).value;
    if i < j { LaterRedemptionDiffers(s.log, s.issues, i, j); }
    if j < i { LaterRedemptionDiffers(s.log, s.issues, j, i); }
  }

  lemma LaterRedemptionDiffers<T>(log: seq<Event<T>>, issues: nat, i: nat, j: nat)
    requires i < j < |log| && log[i].Redemption? && log[j].Redemption? && SoundAt(log, issues, j)
    ensures log[i].entry.serial != log[j].entry.serial
  {
    assert log[..j][i] == log[i];
  }

  /** A redemption gives the binding of an earlier issue of the same id, asked for under the generation
      it was issued for, and young enough by the redeeming call's own reading of the clock. */
  lemma RedemptionsMatchTheirIssue<T>(actions: seq<Action<T>>, k: nat)
    requires Run(actions).Some?
    requires k < |Run(actions).value.log| && Run(actions).value.log[k].Redemption?
    ensures var log := Run(actions).value.log;
            var r := log[k];
            && (exists j | 0 <= j < k :: log[j] == Issuance(r.id, r.entry))
            && r.asked == r.entry.generation
            && r.readAt < r.entry.issuedAt + ACTION_LIFETIME
            && r.readAt <= r.removedAt
  {
    RunKeepsInv(actions);
    var s := Run(actions).value;
    assert SoundAt(s.log, s.issues, k);
    var j :| 0 <= j < k && s.log[..k][j] == Issuance(s.log[k].id, s.log[k].entry);
    assert s.log[j] == Issuance(s.log[k].id, s.log[k].entry);
  }

  /** If the token source never repeats itself, no id is redeemed twice. */
  lemma DistinctTokensRedeemOnce<T>(actions: seq<Action<T>>, i: nat, j: nat)
    requires Run(actions).Some?
    requires forall k, l | 0 <= k < |Run(actions).value.log| && 0 <= l < |Run(actions).value.log| ::
      var a, b := Run(actions).value.log[k], Run(actions).value.log[l];
      a.Issuance? && b.Issuance? && a.id == b.id ==> k == l
    requires var log := Run(actions).value.log;
             && i < |log| && log[i].Redemption? && j < |log| && log[j].Redemption? && log[i].id == log[j].id
    ensures i == j
  {
    RedemptionsMatchTheirIssue(actions, i);
    RedemptionsMatchTheirIssue(actions, j);
    var log := Run(actions).value.log;
    EachIssueRedeemedAtMostOnce(actions, i, if log[i].entry.serial == log[j].entry.serial then j else i);
  }

  /** No redemption came later than so long after its call had read the clock. */
  predicate WaitsAtMost<T>(log: seq<Event<T>>, wait: nat) {
    forall k | 0 <= k < |log| && log[k].Redemption? :: log[k].removedAt <= log[k].readAt + wait
  }

  /** No entry was so old, or older, when it was redeemed. */
  predicate RedeemedBefore<T>(log: seq<Event<T>>, age: nat) {
    forall k | 0 <= k < |log| && log[k].Redemption? :: log[k].removedAt < log[k].entry.issuedAt + age
  }

  /** No run whose calls wait so long redeems an entry of that age. */
  ghost predicate AlwaysBefore<T(!new)>(wait: nat, age: nat) {
    forall actions: seq<Action<T>> ::
      Run(actions).Some? && WaitsAtMost(Run(actions).value.log, wait) ==> RedeemedBefore(Run(actions).value.log, age)
  }

  /** The age is checked against the clock as it was read before the lock: the bound on the age at which
      entries are redeemed is the lifetime and the longest wait for the lock together, and no less. So the
      lifetime itself is kept if and only if no call waits. */
  lemma AgeBoundIff<T(!new)>(binding: T, wait: nat, age: nat)
    ensures AlwaysBefore<T>(wait, age) <==> ACTION_LIFETIME + wait <= age
    ensures AlwaysBefore<T>(wait, ACTION_LIFETIME) <==> wait == 0
  {
    AgeBounded<T>(wait);
    var actions, late := LateRedemption(binding, wait);
    hide Run;
    assert WaitsAtMost(Run(actions).value.log, wait);
    var last := Run(actions).value.log[1];
    assert last.removedAt == last.entry.issuedAt + ACTION_LIFETIME - 1 + wait;
  }

  lemma AgeBounded<T(!new)>(wait: nat)
    ensures AlwaysBefore<T>(wait, ACTION_LIFETIME + wait)
  {
    forall actions: seq<Action<T>> | Run(actions).Some? && WaitsAtMost(Run(actions).value.log, wait)
      ensures RedeemedBefore(Run(actions).value.log, ACTION_LIFETIME + wait)
    {
      var log := Run(actions).value.log;
      forall k | 0 <= k < |log| && log[k].Redemption?
        ensures log[k].removedAt < log[k].entry.issuedAt + ACTION_LIFETIME + wait
      {
        RedemptionsMatchTheirIssue(actions, k);
      }
    }
  }

  /** A call reads the clock a moment before the entry expires, and then waits. */
  lemma LateRedemption<T>(binding: T, wait: nat) returns (actions: seq<Action<T>>, late: Event<T>)
    ensures late.Redemption? && late.entry.issuedAt == 0
    ensures late.readAt == ACTION_LIFETIME - 1 && late.removedAt == late.readAt + wait
    ensures Run(actions).Some? && |Run(actions).value.log| == 2
    ensures Run(actions).value.log[0].Issuance? && Run(actions).value.log[1] == late
  {
    var id := "t";
    var draws := seq(TOKEN_ATTEMPTS, i => Drawn(id));
    var entry := Entry(0, 0, binding, 0);
    var s0: System<T> := System(0, map[], [], 0, []);
    var s1 := Stepped([], s0, StartIssue(0, binding));
    assert InGeneration<T>(map[], 0) == {} && Retained<T>(map[], 0) == map[];
    var a1 := [StartIssue(0, binding)];
    assert Without(s1.calls, 0) == [];
    var s2 := Stepped(a1, s1, RunIssue(0, draws));
    var a2 := a1 + [RunIssue(0, draws)];
    assert s2.entries == map[id := entry] && s2.calls == [] && s2.log == [Issuance(id, entry)];
    var s3 := Stepped(a2, s2, Tick(ACTION_LIFETIME - 1));
    var a3 := a2 + [Tick(ACTION_LIFETIME - 1)];
    var s4 := Stepped(a3, s3, StartTake(id, 0));
    var a4 := a3 + [StartTake(id, 0)];
    var s5 := Stepped(a4, s4, Tick(wait));
    var a5 := a4 + [Tick(wait)];
    var s6 := Stepped(a5, s5, RunTake(0));
    actions := a5 + [RunTake(0)];
    late := Redemption(id, entry, 0, ACTION_LIFETIME - 1, ACTION_LIFETIME - 1 + wait);
    assert s6.log == [Issuance(id, entry), late];
  }

  lemma Stepped<T>(actions: seq<Action<T>>, s: System<T>, action: Action<T>) returns (t: System<T>)
    requires Run(actions) == Some(s) && Next(s, action).Some?
    ensures t == Next(s, action).value && Run(actions + [action]) == Some(t)
  {
    t := Next(s, action).value;
    assert (actions + [action])[..|actions|] == actions;
  }
}
