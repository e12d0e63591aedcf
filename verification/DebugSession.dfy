/** The debug-web session as interleaved steps: the VM thread pauses, waits on a channel and goes on;
    any number of request handlers check the shared status under its lock, release it, and send later. */
module DebugSession {
  import opened Wrappers
  import opened DebugProtocol

  datatype Request = Request(command: DebugCommand, pauseId: Option<nat>)

  /** A request the status check let through. `handler` and `at`, the pause it was accepted in, are
      history: the program carries only the command. */
  datatype Accepted = Accepted(handler: nat, request: Request, at: nat)

  datatype Refusal = AlreadyComplete | NotPaused | StalePauseId

  datatype Phase = Running | Waiting | Leaving(action: DebugAction) | Finished

  datatype Event =
    | Accept(entry: Accepted)
    | Refuse(handler: nat, reason: Refusal)
    | Consume(entry: Accepted, during: nat)
    | HungUp(during: nat)

  datatype Session = Session(
    // the shared status
    paused: bool,
    completed: bool,
    pauseId: nat,
    // the VM thread
    pauseCount: nat,
    phase: Phase,
    receiving: bool,
    // the channel, and the handlers between their check and their send
    queue: seq<Accepted>,
    inFlight: seq<Accepted>,
    serving: bool,
    // history
    log: seq<Event>)

  const START := Session(false, false, 0, 0, Running, true, [], [], true, [])

  datatype Action =
    | Pause
    | Check(handler: nat, request: Request)
    | Send(index: nat)
    | Receive
    | HangUp
    | Leave
    | Complete
    | StopServing
    | DropReceiver

  /** The status check of one request; None lets it through. */
  function Refused(s: Session, request: Request): Option<Refusal> {
    if s.completed then Some(AlreadyComplete)
    else if !s.paused then Some(NotPaused)
    else if request.pauseId.Some? && request.pauseId.value != s.pauseId then Some(StalePauseId)
    else None
  }

  function MarkCompleted(s: Session): Session {
    s.(paused := false, completed := true)
  }

  /** One step, or None when the step cannot happen in this state. */
  function Next(s: Session, action: Action): Option<Session> {
    match action
    case Pause =>
      if s.phase != Running then None
      else Some(s.(paused := true, completed := false, pauseId := s.pauseCount + 1,
                   pauseCount := s.pauseCount + 1, phase := Waiting))
    case Check(handler, request) =>
      if !s.serving then None
      else
        match Refused(s, request) {
          case Some(reason) => Some(s.(log := s.log + [Refuse(handler, reason)]))
          case None =>
            var entry := Accepted(handler, request, s.pauseId);
            Some(s.(paused := if CommandResumes(request.command) then false else s.paused,
                    inFlight := s.inFlight + [entry],
                    log := s.log + [Accept(entry)]))
        }
    case Send(index) =>
      if index >= |s.inFlight| then None
      else
        var rest := s.(inFlight := s.inFlight[..index] + s.inFlight[index + 1..]);
        if s.receiving then Some(rest.(queue := s.queue + [s.inFlight[index]])) else Some(MarkCompleted(rest))
    case Receive =>
      if s.phase != Waiting || s.queue == [] then None
      else
        var entry := s.queue[0];
        var rest := s.(queue := s.queue[1..], log := s.log + [Consume(entry, s.pauseCount)]);
        match AppliedAction(entry.request.command) {
          case Some(chosen) => Some(rest.(phase := Leaving(chosen)))
          case None => Some(rest)
        }
    case HangUp =>
      // recv fails only when every sender is gone: the server is down and no handler is left
      if s.phase != Waiting || s.queue != [] || s.serving || s.inFlight != [] then None
      else Some(s.(phase := Leaving(Abort), log := s.log + [HungUp(s.pauseCount)]))
    case Leave =>
      if !s.phase.Leaving? then None else Some(s.(paused := false, phase := Running))
    case Complete =>
      if s.phase != Running then None else Some(MarkCompleted(s.(phase := Finished)))
    case StopServing => Some(s.(serving := false))
    case DropReceiver => if s.phase != Finished then None else Some(s.(receiving := false, queue := []))
  }

  /** The state after a run, or None when some step of it cannot happen. */
  function Run(actions: seq<Action>): Option<Session> {
    if actions == [] then Some(START)
    else
      match Run(actions[..|actions| - 1]) {
        case None => None
        case Some(s) => Next(s, actions[|actions| - 1])
      }
  }

  // ----- counting resumes -----

  predicate IsResumeAt(entry: Accepted, pause: nat) {
    CommandResumes(entry.request.command) && entry.at == pause
  }

  function Resumes(entries: seq<Accepted>, pause: nat): nat {
    if entries == [] then 0
    else Resumes(entries[..|entries| - 1], pause) + (if IsResumeAt(entries[|entries| - 1], pause) then 1 else 0)
  }

  function AcceptedResumes(log: seq<Event>, pause: nat): nat {
    if log == [] then 0
    else
      var last := log[|log| - 1];
      AcceptedResumes(log[..|log| - 1], pause) + (if last.Accept? && IsResumeAt(last.entry, pause) then 1 else 0)
  }

  function ConsumedResumes(log: seq<Event>, pause: nat): nat {
    if log == [] then 0
    else
      var last := log[|log| - 1];
      ConsumedResumes(log[..|log| - 1], pause) + (if last.Consume? && IsResumeAt(last.entry, pause) then 1 else 0)
  }

  function HangUps(log: seq<Event>, pause: nat): nat {
    if log == [] then 0
    else HangUps(log[..|log| - 1], pause) + (if log[|log| - 1] == HungUp(pause) then 1 else 0)
  }

  lemma {:induction false} ResumesConcat(a: seq<Accepted>, b: seq<Accepted>, pause: nat)
    ensures Resumes(a + b, pause) == Resumes(a, pause) + Resumes(b, pause)
  {
    if b == [] {
      assert a + b == a;
    } else {
      assert (a + b)[..|a + b| - 1] == a + b[..|b| - 1];
      ResumesConcat(a, b[..|b| - 1], pause);
    }
  }

  lemma ResumesRemoved(entries: seq<Accepted>, index: nat, pause: nat)
    requires index < |entries|
    ensures Resumes(entries, pause)
         == Resumes(entries[..index] + entries[index + 1..], pause) + (if IsResumeAt(entries[index], pause) then 1 else 0)
  {
    assert entries == entries[..index] + ([entries[index]] + entries[index + 1..]);
    ResumesConcat(entries[..index], [entries[index]] + entries[index + 1..], pause);
    ResumesConcat([entries[index]], entries[index + 1..], pause);
    ResumesConcat(entries[..index], entries[index + 1..], pause);
    assert [entries[index]][..0] == [];
  }

  function Outstanding(s: Session, pause: nat): nat {
    Resumes(s.inFlight, pause) + Resumes(s.queue, pause)
  }

  // ----- the invariant -----

  predicate FromPast(entries: seq<Accepted>, log: seq<Event>, now: nat) {
    forall e | e in entries ::
      && 1 <= e.at <= now
      && (e.request.pauseId.Some? ==> e.request.pauseId.value == e.at)
      && Accept(e) in log
  }

  predicate Sound(log: seq<Event>, now: nat) {
    && (forall k | 0 <= k < |log| && log[k].Accept? ::
          && 1 <= log[k].entry.at <= now
          && (log[k].entry.request.pauseId.Some? ==> log[k].entry.request.pauseId.value == log[k].entry.at))
    && (forall k | 0 <= k < |log| && log[k].Consume? ::
          && log[k].entry.at <= log[k].during <= now
          && Accept(log[k].entry) in log[..k]
          && (CommandResumes(log[k].entry.request.command) ==> log[k].during == log[k].entry.at))
  }

  /** Every resume accepted in a pause is outstanding or was consumed in it, never both; a pause that
      is over was ended by exactly one resume or by the server hanging up. */
  predicate Accounts(s: Session, pause: nat) {
    && AcceptedResumes(s.log, pause) == Outstanding(s, pause) + ConsumedResumes(s.log, pause)
    && AcceptedResumes(s.log, pause) <= 1
    && (pause == 0 || pause > s.pauseCount ==> AcceptedResumes(s.log, pause) == 0 && HangUps(s.log, pause) == 0)
    && (1 <= pause <= s.pauseCount && (pause < s.pauseCount || s.phase != Waiting) ==>
          Outstanding(s, pause) == 0 && ConsumedResumes(s.log, pause) + HangUps(s.log, pause) == 1)
    && (pause == s.pauseCount && s.phase == Waiting ==>
          && ConsumedResumes(s.log, pause) == 0 && HangUps(s.log, pause) == 0
          && (Outstanding(s, pause) == 1 <==> !s.paused))
  }

  ghost predicate Inv(s: Session) {
    && s.pauseId == s.pauseCount
    && FromPast(s.inFlight, s.log, s.pauseCount) && FromPast(s.queue, s.log, s.pauseCount)
    && Sound(s.log, s.pauseCount)
    && (s.completed ==> s.phase == Finished)
    && (s.phase == Finished ==> s.completed && !s.paused)
    && (!s.receiving ==> s.phase == Finished)
    && (s.phase == Waiting ==> s.pauseCount > 0)
    && (s.paused && s.phase != Waiting ==> s.phase.Leaving? && !s.serving && s.inFlight == [])
    && forall pause: nat :: Accounts(s, pause)
  }

  // ----- every step keeps it -----

  lemma LogExtended(log: seq<Event>, event: Event, pause: nat)
    ensures AcceptedResumes(log + [event], pause)
         == AcceptedResumes(log, pause) + (if event.Accept? && IsResumeAt(event.entry, pause) then 1 else 0)
    ensures ConsumedResumes(log + [event], pause)
         == ConsumedResumes(log, pause) + (if event.Consume? && IsResumeAt(event.entry, pause) then 1 else 0)
    ensures HangUps(log + [event], pause) == HangUps(log, pause) + (if event == HungUp(pause) then 1 else 0)
  {
    assert (log + [event])[..|log|] == log;
  }

  lemma {:induction false} OutstandingMember(entries: seq<Accepted>, entry: Accepted)
    requires entry in entries && CommandResumes(entry.request.command)
    ensures Resumes(entries, entry.at) > 0
  {
    if entries[|entries| - 1] != entry {
      OutstandingMember(entries[..|entries| - 1], entry);
    }
  }

  lemma SoundExtended(log: seq<Event>, event: Event, now: nat, later: nat)
    requires Sound(log, now) && now <= later
    requires event.Accept? ==>
      && 1 <= event.entry.at <= later
      && (event.entry.request.pauseId.Some? ==> event.entry.request.pauseId.value == event.entry.at)
    requires event.Consume? ==>
      && event.entry.at <= event.during <= later
      && Accept(event.entry) in log
      && (CommandResumes(event.entry.request.command) ==> event.during == event.entry.at)
    ensures Sound(log + [event], later)
  {
    var longer := log + [event];
    assert forall k | 0 <= k <= |log| :: longer[..k] == log[..k];
    assert log[..|log|] == log;
  }

  lemma PauseKeepsInv(s: Session)
    requires Inv(s) && Next(s, Pause).Some?
    ensures Inv(Next(s, Pause).value)
  {
    var t := Next(s, Pause).value;
    forall pause: nat ensures Accounts(t, pause) {
      assert Accounts(s, pause);
    }
  }

  lemma CheckAccounts(s: Session, handler: nat, request: Request, pause: nat)
    requires Inv(s) && Next(s, Check(handler, request)).Some?
    ensures Accounts(Next(s, Check(handler, request)).value, pause)
  {
    var t := Next(s, Check(handler, request)).value;
    var event := t.log[|s.log|];
    assert t.log == s.log + [event];
    assert Accounts(s, pause);
    LogExtended(s.log, event, pause);
    if event.Accept? {
      ResumesConcat(s.inFlight, [event.entry], pause);
      OneResume(event.entry, pause);
    }
    hide Resumes, AcceptedResumes, ConsumedResumes, HangUps, Sound, FromPast;
  }

  lemma OneResume(entry: Accepted, pause: nat)
    ensures Resumes([entry], pause) == if IsResumeAt(entry, pause) then 1 else 0
  {
    assert [entry][..0] == [];
  }

  lemma CheckKeepsInv(s: Session, handler: nat, request: Request)
    requires Inv(s) && Next(s, Check(handler, request)).Some?
    ensures Inv(Next(s, Check(handler, request)).value)
  {
    var t := Next(s, Check(handler, request)).value;
    var event := t.log[|s.log|];
    assert t.log == s.log + [event];
    SoundExtended(s.log, event, s.pauseCount, s.pauseCount);
    forall pause: nat ensures Accounts(t, pause) {
      CheckAccounts(s, handler, request, pause);
    }
    hide Accounts, Sound;
  }

  lemma SendKeepsInv(s: Session, index: nat)
    requires Inv(s) && Next(s, Send(index)).Some?
    ensures Inv(Next(s, Send(index)).value)
  {
    var t := Next(s, Send(index)).value;
    var entry := s.inFlight[index];
    assert entry in s.inFlight;
    forall pause: nat ensures Accounts(t, pause) {
      assert Accounts(s, pause);
      ResumesRemoved(s.inFlight, index, pause);
      ResumesConcat(s.queue, [entry], pause);
      OneResume(entry, pause);
    }
  }

  /** A resume at the head of the queue belongs to the pause that is waiting for it. */
  lemma QueuedResumeIsCurrent(s: Session)
    requires Inv(s) && s.queue != [] && CommandResumes(s.queue[0].request.command)
    ensures s.queue[0].at == s.pauseCount && s.phase == Waiting && !s.paused
    ensures Outstanding(s, s.pauseCount) == 1
  {
    assert s.queue[0] in s.queue;
    OutstandingMember(s.queue, s.queue[0]);
    assert Accounts(s, s.queue[0].at);
  }

  lemma ReceiveAccounts(s: Session, pause: nat)
    requires Inv(s) && Next(s, Receive).Some?
    ensures Accounts(Next(s, Receive).value, pause)
  {
    hide Resumes, AcceptedResumes, ConsumedResumes, HangUps, Sound, FromPast;
    var entry := s.queue[0];
    assert Accounts(s, pause);
    if CommandResumes(entry.request.command) { QueuedResumeIsCurrent(s); }
    LogExtended(s.log, Consume(entry, s.pauseCount), pause);
    assert s.queue[..0] + s.queue[1..] == s.queue[1..];
    ResumesRemoved(s.queue, 0, pause);
  }

  lemma ReceiveKeepsInv(s: Session)
    requires Inv(s) && Next(s, Receive).Some?
    ensures Inv(Next(s, Receive).value)
  {
    var entry := s.queue[0];
    assert entry in s.queue;
    if CommandResumes(entry.request.command) { QueuedResumeIsCurrent(s); }
    SoundExtended(s.log, Consume(entry, s.pauseCount), s.pauseCount, s.pauseCount);
    forall pause: nat ensures Accounts(Next(s, Receive).value, pause) {
      ReceiveAccounts(s, pause);
    }
  }

  lemma OtherKeepsInv(s: Session, action: Action)
    requires Inv(s) && Next(s, action).Some?
    requires action in {HangUp, Leave, Complete, StopServing, DropReceiver}
    ensures Inv(Next(s, action).value)
  {
    var t := Next(s, action).value;
    if action == HangUp {
      SoundExtended(s.log, HungUp(s.pauseCount), s.pauseCount, s.pauseCount);
    }
    forall pause: nat ensures Accounts(t, pause) {
      assert Accounts(s, pause);
      if action == HangUp { LogExtended(s.log, HungUp(s.pauseCount), pause); }
    }
  }

  lemma NextKeepsInv(s: Session, action: Action)
    requires Inv(s) && Next(s, action).Some?
    ensures Inv(Next(s, action).value)
  {
    match action
    case Pause => PauseKeepsInv(s);
    case Check(handler, request) => CheckKeepsInv(s, handler, request);
    case Send(index) => SendKeepsInv(s, index);
    case Receive => ReceiveKeepsInv(s);
    case _ => OtherKeepsInv(s, action);
  }

  lemma {:induction false} RunKeepsInv(actions: seq<Action>)
    requires Run(actions).Some?
    ensures Inv(Run(actions).value)
  {
    if actions != [] {
      RunKeepsInv(actions[..|actions| - 1]);
      NextKeepsInv(Run(actions[..|actions| - 1]).value, actions[|actions| - 1]);
    }
  }

  // ----- what holds of every run -----

  lemma {:induction false} OneAcceptIsCounted(log: seq<Event>, i: nat, pause: nat)
    requires i < |log| && log[i].Accept? && IsResumeAt(log[i].entry, pause)
    ensures AcceptedResumes(log, pause) >= 1
  {
    if i < |log| - 1 { OneAcceptIsCounted(log[..|log| - 1], i, pause); }
  }

  lemma {:induction false} TwoAcceptsAreCounted(log: seq<Event>, i: nat, j: nat, pause: nat)
    requires i < j < |log|
    requires log[i].Accept? && IsResumeAt(log[i].entry, pause)
    requires log[j].Accept? && IsResumeAt(log[j].entry, pause)
    ensures AcceptedResumes(log, pause) >= 2
  {
    if j < |log| - 1 {
      TwoAcceptsAreCounted(log[..|log| - 1], i, j, pause);
    } else {
      OneAcceptIsCounted(log[..|log| - 1], i, pause);
    }
  }

  /** In every interleaving, at most one resume is accepted in each pause. */
  lemma AtMostOneResumeAcceptedPerPause(actions: seq<Action>, i: nat, j: nat)
    requires Run(actions).Some?
    requires var log := Run(actions).value.log;
             && i < |log| && log[i].Accept? && CommandResumes(log[i].entry.request.command)
             && j < |log| && log[j].Accept? && CommandResumes(log[j].entry.request.command)
             && log[i].entry.at == log[j].entry.at
    ensures i == j
  {
    RunKeepsInv(actions);
    var s := Run(actions).value;
    var pause := s.log[i].entry.at;
    assert Accounts(s, pause);
    if i < j { TwoAcceptsAreCounted(s.log, i, j, pause); }
    if j < i { TwoAcceptsAreCounted(s.log, j, i, pause); }
  }

  /** A command is only ever received after it was accepted; a resume is received in the very pause it
      was accepted in, which is the pause its request named when it named one. */
  lemma ResumesAreConsumedInTheirOwnPause(actions: seq<Action>, k: nat)
    requires Run(actions).Some?
    requires k < |Run(actions).value.log| && Run(actions).value.log[k].Consume?
    ensures var log := Run(actions).value.log;
            var entry := log[k].entry;
            && Accept(entry) in log[..k]
            && entry.at <= log[k].during
            && (entry.request.pauseId.Some? ==> entry.request.pauseId.value == entry.at)
            && (CommandResumes(entry.request.command) ==> log[k].during == entry.at)
  {
    RunKeepsInv(actions);
    var log := Run(actions).value.log;
    var a :| 0 <= a < k && log[..k][a] == Accept(log[k].entry);
    assert log[a].Accept?;
  }

  /** Every pause that is over was ended exactly once: by one resume, or by the server going away. */
  lemma PastPausesEndedOnce(actions: seq<Action>, pause: nat)
    requires Run(actions).Some?
    requires var s := Run(actions).value;
             1 <= pause <= s.pauseCount && (pause < s.pauseCount || s.phase != Waiting)
    ensures var log := Run(actions).value.log;
            && ConsumedResumes(log, pause) + HangUps(log, pause) == 1
            && AcceptedResumes(log, pause) == ConsumedResumes(log, pause)
  {
    RunKeepsInv(actions);
    assert Accounts(Run(actions).value, pause);
  }

  /** The waiting pause: a resume is outstanding exactly when the status no longer says paused. */
  lemma WaitingPauseHasOneResumeAtMost(actions: seq<Action>)
    requires Run(actions).Some? && Run(actions).value.phase == Waiting
    ensures var s := Run(actions).value;
            && ConsumedResumes(s.log, s.pauseCount) == 0
            && AcceptedResumes(s.log, s.pauseCount) == Outstanding(s, s.pauseCount)
            && Outstanding(s, s.pauseCount) == if s.paused then 0 else 1
  {
    RunKeepsInv(actions);
    assert Accounts(Run(actions).value, Run(actions).value.pauseCount);
  }

  lemma {:induction false} RunConcat(actions: seq<Action>, more: seq<Action>)
    requires Run(actions + more).Some?
    ensures Run(actions).Some?
    ensures more != [] ==>
      && Run(actions + more[..|more| - 1]).Some?
      && Run(actions + more) == Next(Run(actions + more[..|more| - 1]).value, more[|more| - 1])
  {
    if more == [] {
      assert actions + more == actions;
    } else {
      assert (actions + more)[..|actions + more| - 1] == actions + more[..|more| - 1];
      RunConcat(actions, more[..|more| - 1]);
    }
  }

  /** Once the session is complete it stays complete, and from then on nothing is accepted and nothing
      is received. */
  lemma {:induction false} NothingAfterCompletion(actions: seq<Action>, more: seq<Action>)
    requires Run(actions + more).Some?
    requires Run(actions).Some? && Run(actions).value.completed
    ensures var before, after := Run(actions).value, Run(actions + more).value;
            && after.completed
            && before.log <= after.log
            && forall k | |before.log| <= k < |after.log| :: after.log[k].Refuse? && after.log[k].reason == AlreadyComplete
  {
    if more == [] {
      assert actions + more == actions;
    } else {
      RunConcat(actions, more);
      NothingAfterCompletion(actions, more[..|more| - 1]);
      RunKeepsInv(actions + more[..|more| - 1]);
    }
  }

  /** When the program is over, every resume that was accepted has been received. */
  lemma NoResumeIsLost(actions: seq<Action>, pause: nat)
    requires Run(actions).Some? && Run(actions).value.phase == Finished
    ensures var log := Run(actions).value.log;
            AcceptedResumes(log, pause) == ConsumedResumes(log, pause)
  {
    RunKeepsInv(actions);
    assert Accounts(Run(actions).value, pause);
  }

  /** Breakpoint commands, unlike resumes, can arrive in a later pause than the one they were accepted in. */
  lemma BreakpointsMayArriveLate() returns (actions: seq<Action>)
    ensures Run(actions).Some?
    ensures exists k | 0 <= k < |Run(actions).value.log| ::
              var event := Run(actions).value.log[k]; event.Consume? && event.entry.at < event.during
  {
    hide Run;
    StartsEmpty();
    var list := Request(ListBreakpoints, None);
    var go := Request(Resume(DebugAction.Continue), None);
    var a1 := [Pause];
    var s1 := Stepped([], START, Pause);
    assert [] + [Pause] == a1;
    var s2 := Stepped(a1, s1, Check(0, list));
    var a2 := a1 + [Check(0, list)];
    var s3 := Stepped(a2, s2, Check(1, go));
    var a3 := a2 + [Check(1, go)];
    var s4 := Stepped(a3, s3, Send(1));
    var a4 := a3 + [Send(1)];
    var s5 := Stepped(a4, s4, Receive);
    var a5 := a4 + [Receive];
    var s6 := Stepped(a5, s5, Leave);
    var a6 := a5 + [Leave];
    var s7 := Stepped(a6, s6, Pause);
    var a7 := a6 + [Pause];
    var s8 := Stepped(a7, s7, Send(0));
    var a8 := a7 + [Send(0)];
    var s9 := Stepped(a8, s8, Receive);
    actions := a8 + [Receive];
    var last := |s9.log| - 1;
    assert s9.log[last] == Consume(Accepted(0, list, 1), 2);
  }

  lemma StartsEmpty()
    ensures Run([]) == Some(START)
  {
  }

  lemma Stepped(actions: seq<Action>, s: Session, action: Action) returns (t: Session)
    requires Run(actions) == Some(s) && Next(s, action).Some?
    ensures t == Next(s, action).value && Run(actions + [action]) == Some(t)
  {
    t := Next(s, action).value;
    assert (actions + [action])[..|actions|] == actions;
  }

  // ----- the session as the program keeps it -----

  /** The shared status, the channel and the handlers, with one method for each section the program
      runs without giving up a lock. */
  class DebugWebSession {
    var paused: bool
    var completed: bool
    var pauseId: nat
    var pauseCount: nat
    var phase: Phase
    var queue: seq<Accepted>
    var inFlight: seq<Accepted>
    var receiving: bool
    var serving: bool
    ghost var log: seq<Event>

    ghost function View(): Session
      reads this
    {
      Session(paused, completed, pauseId, pauseCount, phase, receiving, queue, inFlight, serving, log)
    }

    ghost predicate Valid()
      reads this
    {
      Inv(View())
    }

    constructor ()
      ensures Valid() && View() == START
    {
      paused, completed, pauseId, pauseCount := false, false, 0, 0;
      phase, queue, inFlight := Running, [], [];
      receiving, serving, log := true, true, [];
      new;
      RunKeepsInv([]);
    }

    /** The controller is called: a new pause is announced in the shared status. */
    method EnterPause()
      requires Valid() && phase == Running
      modifies this
      ensures Valid() && Some(View()) == Next(old(View()), Pause)
    {
      hide Inv;
      NextKeepsInv(View(), Pause);
      pauseCount := pauseCount + 1;
      paused := true;
      completed := false;
      pauseId := pauseCount;
      phase := Waiting;
    }

    /** A handler's check under the status lock. */
    method CheckControl(handler: nat, request: Request) returns (refused: Option<Refusal>)
      requires Valid() && serving
      modifies this
      ensures Valid() && Some(View()) == Next(old(View()), Check(handler, request))
      ensures refused == Refused(old(View()), request)
    {
      hide Inv;
      NextKeepsInv(View(), Check(handler, request));
      if completed {
        log := log + [Refuse(handler, AlreadyComplete)];
        return Some(AlreadyComplete);
      }
      if !paused {
        log := log + [Refuse(handler, NotPaused)];
        return Some(NotPaused);
      }
      match request.pauseId {
        case Some(id) =>
          if id != pauseId {
            log := log + [Refuse(handler, StalePauseId)];
            return Some(StalePauseId);
          }
        case None =>
      }
      if CommandResumes(request.command) {
        paused := false;
      }
      inFlight := inFlight + [Accepted(handler, request, pauseId)];
      log := log + [Accept(Accepted(handler, request, pauseId))];
      refused := None;
    }

    /** A handler's send, after it let go of the status lock; without a receiver the session is over. */
    method SendControl(index: nat) returns (sent: bool)
      requires Valid() && index < |inFlight|
      modifies this
      ensures Valid() && Some(View()) == Next(old(View()), Send(index))
      ensures sent <==> old(receiving)
      ensures !sent ==> completed && !paused
    {
      hide Inv;
      NextKeepsInv(View(), Send(index));
      sent := receiving;
      if sent {
        queue := queue + [inFlight[index]];
      } else {
        paused := false;
        completed := true;
      }
      inFlight := inFlight[..index] + inFlight[index + 1..];
    }

    /** One round of the controller's loop; a returned action ends the pause. Nothing comes any more once
        the queue is empty and every sender is gone, which counts as an abort. */
    method ReceiveCommand() returns (action: Option<DebugAction>)
      requires Valid() && phase == Waiting
      requires queue != [] || (!serving && inFlight == [])
      modifies this
      ensures Valid() && Some(View()) == Next(old(View()), if old(queue) != [] then Receive else HangUp)
      ensures action.Some? <==> phase != Waiting
      ensures action.Some? ==> phase == Leaving(action.value)
      ensures action.Some? && old(queue) != [] ==> old(queue)[0].at == pauseCount
    {
      hide Inv, Outstanding;
      if queue == [] {
        NextKeepsInv(View(), HangUp);
        phase := Leaving(Abort);
        log := log + [HungUp(pauseCount)];
        return Some(Abort);
      }
      NextKeepsInv(View(), Receive);
      if CommandResumes(queue[0].request.command) { QueuedResumeIsCurrent(View()); }
      var entry := queue[0];
      queue := queue[1..];
      log := log + [Consume(entry, pauseCount)];
      action := AppliedAction(entry.request.command);
      if action.Some? {
        phase := Leaving(action.value);
      }
    }

    method LeavePause()
      requires Valid() && phase.Leaving?
      modifies this
      ensures Valid() && Some(View()) == Next(old(View()), Leave)
    {
      hide Inv;
      NextKeepsInv(View(), Leave);
      paused := false;
      phase := Running;
    }

    method MarkSessionCompleted()
      requires Valid() && phase == Running
      modifies this
      ensures Valid() && Some(View()) == Next(old(View()), Complete)
    {
      hide Inv;
      NextKeepsInv(View(), Complete);
      phase := Finished;
      paused := false;
      completed := true;
    }
  }
}
