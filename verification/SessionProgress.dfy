/** That a session goes on (stream/session.go): why Run may end at all, what the attempt counter
    counts, and that an open session without a reason to end dials, installs and consumes again. */
module SessionProgress {
  import opened Results
  import opened SessionProtocol

  // ---------- Why Run ends ----------

  /** A step of Run on which it may end although the session is open: the context has ended, the
      handler failed, the wait was not resumed, or there were too many failures in a row. */
  predicate GivesReason(cfg: Config, s: State, a: Action) {
    || (s.pc.Head? && a == CheckHead(true))
    || (s.pc.CheckStop? && a == CheckEnded(true))
    || (s.pc.Consuming? && a.EndConsuming? && a.failed)
    || (s.pc.Waiting? && a == Wait(false))
    || (s.pc.Waiting? && a.Wait? && cfg.maxReconnectAttempts > 0 && s.attempt > cfg.maxReconnectAttempts)
  }

  /** Some step of the run gave a reason. */
  predicate HasReason(cfg: Config, s: State, actions: seq<Action>) {
    actions != [] &&
      var front, last := actions[..|actions| - 1], actions[|actions| - 1];
      HasReason(cfg, s, front) || GivesReason(cfg, RunFrom(cfg, s, front), last)
  }

  /** Run is past its loop, or will leave it once the ended connection is closed. */
  predicate Ending(pc: Pc) {
    || pc.Finishing? || pc.FinishClose? || pc.Returned? || pc.Rejected?
    || (pc.Ended? && pc.handlerFailed) || (pc.Attributed? && pc.handlerFailed) || (pc.Removed? && pc.handlerFailed)
  }

  lemma EndsForAReason(cfg: Config, s: State, a: Action, reason: bool)
    requires Ending(s.pc) ==> s.shared.closed || reason
    ensures Ending(Step(cfg, s, a).pc) ==> Step(cfg, s, a).shared.closed || reason || GivesReason(cfg, s, a)
    ensures s.shared.closed ==> Step(cfg, s, a).shared.closed
  {
  }

  /** Over every run: Run only ends because the session was closed or for one of these reasons. A
      lost connection, a failed dial or hook, or a requested reconnect is none. */
  lemma {:induction false} RunEndsOnlyForAReason(cfg: Config, actions: seq<Action>)
    ensures Ending(RunOf(cfg, actions).pc) ==>
              RunOf(cfg, actions).shared.closed || HasReason(cfg, START, actions)
  {
    if actions != [] {
      var front := actions[..|actions| - 1];
      RunEndsOnlyForAReason(cfg, front);
      EndsForAReason(cfg, RunOf(cfg, front), actions[|actions| - 1], HasReason(cfg, START, front));
    }
  }

  lemma ReasonEnds(cfg: Config, s: State, a: Action)
    requires GivesReason(cfg, s, a)
    ensures Ending(Step(cfg, s, a).pc)
  {
  }

  lemma EndingStep(cfg: Config, s: State, a: Action, t: State)
    requires Ending(s.pc) && t == Step(cfg, s, a)
    ensures Ending(t.pc) && StepsLeft(t.pc) <= StepsLeft(s.pc) - (if Due(s.pc, a) then 1 else 0)
  {
  }

  lemma {:induction false} EndingGoesOn(cfg: Config, s: State, actions: seq<Action>, t: State)
    requires Ending(s.pc) && t == RunFrom(cfg, s, actions)
    ensures Ending(t.pc) && StepsLeft(t.pc) + OwnSteps(cfg, s, actions) <= StepsLeft(s.pc)
    decreases |actions|
  {
    if actions != [] {
      var front := actions[..|actions| - 1];
      EndingGoesOn(cfg, s, front, RunFrom(cfg, s, front));
      EndingStep(cfg, RunFrom(cfg, s, front), actions[|actions| - 1], t);
    }
  }

  /** Each of these reasons does end Run, also in an open session: at most six steps of its own later
      it has returned. */
  lemma ReasonMakesRunReturn(cfg: Config, s: State, a: Action, u: State, actions: seq<Action>, t: State)
    requires GivesReason(cfg, s, a) && u == Step(cfg, s, a) && t == RunFrom(cfg, u, actions)
    requires OwnSteps(cfg, u, actions) >= 6
    ensures t.pc.Returned?
  {
    ReasonEnds(cfg, s, a);
    EndingGoesOn(cfg, u, actions, t);
    EndingIsShort(u.pc);
    EndingIsShort(t.pc);
  }

  lemma EndingIsShort(pc: Pc)
    requires Ending(pc)
    ensures StepsLeft(pc) <= 6 && (StepsLeft(pc) == 0 <==> pc.Returned?)
  {
  }

  // ---------- What is counted ----------

  /** A failed dial, the end of a connection whose hook failed, or of one that was consumed. */
  predicate Fails(s: State, a: Action) {
    || (s.pc.Dialing? && a == Dial(false))
    || (s.pc.HookRemoved? && a.CloseAfterHook?)
    || (s.pc.CheckStop? && a == CheckEnded(false) && !s.shared.closed)
  }

  /** The failures since a hook last completed. */
  function FailuresInARow(cfg: Config, actions: seq<Action>): nat {
    if actions == [] then 0
    else
      var front, last := actions[..|actions| - 1], actions[|actions| - 1];
      var s := RunOf(cfg, front);
      if s.pc.Hooking? && last == Hook(true) then 0
      else FailuresInARow(cfg, front) + (if Fails(s, last) then 1 else 0)
  }

  lemma StepCounts(cfg: Config, s: State, a: Action)
    ensures Step(cfg, s, a).attempt
         == if s.pc.Hooking? && a == Hook(true) then 0 else s.attempt + (if Fails(s, a) then 1 else 0)
  {
  }

  lemma {:induction false} AttemptCountsFailures(cfg: Config, actions: seq<Action>)
    ensures RunOf(cfg, actions).attempt == FailuresInARow(cfg, actions)
  {
    if actions != [] {
      var front := actions[..|actions| - 1];
      AttemptCountsFailures(cfg, front);
      StepCounts(cfg, RunOf(cfg, front), actions[|actions| - 1]);
    }
  }

  // ---------- Going on ----------

  /** How many steps of its own Run is away from consuming a connection: three from dialing. */
  function StepsToConsuming(pc: Pc): nat {
    match pc
    case Consuming(_) => 0
    case Hooking(_) => 1
    case Opened(_) => 2
    case Dialing => 3
    case Head => 4
    case Idle => 5
    case Waiting => 5
    case CheckStop => 6
    case HookRemoved(_) => 6
    case HookFailed(_) => 7
    case Removed(_, _) => 7
    case Attributed(_, _) => 8
    case Ended(_, _) => 9
    case _ => 10
  }

  /** The environment's part of a step succeeds: a dial or a hook that is due. */
  predicate Succeeds(s: State, a: Action) {
    && (s.pc.Dialing? && a.Dial? ==> a.ok)
    && (s.pc.Hooking? && a.Hook? ==> a.ok)
  }

  predicate AllSucceed(cfg: Config, s: State, actions: seq<Action>) {
    actions != [] ==>
      var front, last := actions[..|actions| - 1], actions[|actions| - 1];
      AllSucceed(cfg, s, front) && Succeeds(RunFrom(cfg, s, front), last)
  }

  lemma StepGoesOn(cfg: Config, s: State, a: Action, t: State)
    requires t == Step(cfg, s, a) && !t.shared.closed && !Ending(s.pc) && (s.pc.Idle? ==> !s.shared.started)
    requires !GivesReason(cfg, s, a) && Succeeds(s, a)
    requires Due(s.pc, a) ==> !s.pc.Consuming?
    ensures !Ending(t.pc) && (t.pc.Idle? ==> !t.shared.started)
    ensures StepsToConsuming(t.pc) == StepsToConsuming(s.pc) - (if Due(s.pc, a) then 1 else 0)
  {
  }

  lemma ClosedStays(cfg: Config, s: State, a: Action)
    ensures s.shared.closed ==> Step(cfg, s, a).shared.closed
  {
  }

  /** Each step of its own brings Run one closer, whatever other callers do in between. */
  lemma {:induction false} OwnStepsLeadOn(cfg: Config, s: State, actions: seq<Action>, t: State)
    requires !Ending(s.pc) && (s.pc.Idle? ==> !s.shared.started) && t == RunFrom(cfg, s, actions)
    requires !t.shared.closed && !HasReason(cfg, s, actions) && AllSucceed(cfg, s, actions)
    requires OwnSteps(cfg, s, actions) <= StepsToConsuming(s.pc)
    ensures !Ending(t.pc) && (t.pc.Idle? ==> !t.shared.started)
    ensures StepsToConsuming(t.pc) == StepsToConsuming(s.pc) - OwnSteps(cfg, s, actions)
    decreases |actions|
  {
    if actions != [] {
      var front, last := actions[..|actions| - 1], actions[|actions| - 1];
      var m := RunFrom(cfg, s, front);
      ClosedStays(cfg, m, last);
      OwnStepsLeadOn(cfg, s, front, m);
      StepGoesOn(cfg, m, last, t);
    }
  }

  lemma WhereItIs(pc: Pc)
    requires !Ending(pc)
    ensures StepsToConsuming(pc) == 0 <==> pc.Consuming?
    ensures StepsToConsuming(pc) == 3 <==> pc.Dialing?
    ensures StepsToConsuming(pc) <= 9
  {
  }

  /** A session that is not closed and has no reason to end goes on: from wherever Run stands, also
      from a failed dial, a failed hook or an ended connection, its own steps lead to consuming a
      connection, at most nine of them, as long as dialing and the hook succeed. */
  lemma RunConsumesAgain(cfg: Config, before: seq<Action>, actions: seq<Action>, s: State, t: State)
    requires s == RunOf(cfg, before) && !Ending(s.pc) && t == RunFrom(cfg, s, actions)
    requires !t.shared.closed && !HasReason(cfg, s, actions) && AllSucceed(cfg, s, actions)
    requires OwnSteps(cfg, s, actions) == StepsToConsuming(s.pc)
    ensures t.pc.Consuming? && t.shared.connection == Some(t.pc.c) && StepsToConsuming(s.pc) <= 9
  {
    RunKeepsInv(cfg, before);
    OwnStepsLeadOn(cfg, s, actions, t);
    WhereItIs(s.pc);
    WhereItIs(t.pc);
    RunFromKeepsInv(cfg, s, actions);
  }

  lemma {:induction false} RunFromKeepsInv(cfg: Config, s: State, actions: seq<Action>)
    requires Inv(cfg, s)
    ensures Inv(cfg, RunFrom(cfg, s, actions))
  {
    if actions != [] {
      RunFromKeepsInv(cfg, s, actions[..|actions| - 1]);
      StepKeepsInv(cfg, RunFrom(cfg, s, actions[..|actions| - 1]), actions[|actions| - 1]);
    }
  }

  /** Dials and hooks may fail in any way on the route to the next dial: what is asked for above is
      only that the three last steps succeed. */
  lemma RunDialsAgain(cfg: Config, before: seq<Action>, actions: seq<Action>, s: State, t: State)
    requires s == RunOf(cfg, before) && !Ending(s.pc) && StepsToConsuming(s.pc) >= 3
    requires t == RunFrom(cfg, s, actions) && !t.shared.closed && !HasReason(cfg, s, actions)
    requires OwnSteps(cfg, s, actions) == StepsToConsuming(s.pc) - 3
    ensures t.pc.Dialing?
  {
    RunKeepsInv(cfg, before);
    NothingDialedYet(cfg, s, actions, t);
    WhereItIs(t.pc);
  }

  /** Before the next dial nothing is up to dialing or the hook. */
  lemma {:induction false} NothingDialedYet(cfg: Config, s: State, actions: seq<Action>, t: State)
    requires !Ending(s.pc) && (s.pc.Idle? ==> !s.shared.started) && StepsToConsuming(s.pc) >= 3
    requires t == RunFrom(cfg, s, actions) && !t.shared.closed && !HasReason(cfg, s, actions)
    requires OwnSteps(cfg, s, actions) <= StepsToConsuming(s.pc) - 3
    ensures !Ending(t.pc) && (t.pc.Idle? ==> !t.shared.started)
    ensures StepsToConsuming(t.pc) == StepsToConsuming(s.pc) - OwnSteps(cfg, s, actions)
    decreases |actions|
  {
    if actions != [] {
      var front, last := actions[..|actions| - 1], actions[|actions| - 1];
      var m := RunFrom(cfg, s, front);
      ClosedStays(cfg, m, last);
      NothingDialedYet(cfg, s, front, m);
      StepGoesOn(cfg, m, last, t);
    }
  }

  // ---------- What other callers bring about ----------

  /** Close closes: at once for writes and installs, and the connection in use, if there is one, is
      the caller's to close. A second Close does nothing. */
  lemma CloseTakesEffect(cfg: Config, s: State, t: State)
    requires t == Step(cfg, s, CallClose)
    ensures t.shared.closed && t.pc == s.pc
    ensures !s.shared.closed ==> t.shared.connection.None?
    ensures !s.shared.closed && s.shared.connection.Some? ==> s.shared.connection.value in t.owed
    ensures s.shared.closed ==> t == s
  {
  }

  /** A reconnect request is for the generation in use and leaves its connection to be closed; a
      session without one takes no request. */
  lemma RequestTakesEffect(cfg: Config, s: State, t: State)
    requires t == Step(cfg, s, CallReconnect)
    ensures LockTarget(s.shared).Ok? ==>
              && t.requestedFor == s.shared.generation && t.shared == s.shared.(reconnect := true)
              && LockTarget(s.shared).value in t.owed && t.pc == s.pc
    ensures LockTarget(s.shared).Err? ==> t == s
  {
  }

  /** What is owed can be closed at any time, and is then closed. */
  lemma OwedIsClosed(cfg: Config, s: State, c: nat)
    requires c in s.owed
    ensures Step(cfg, s, CloseOwed(c)) == s.(closedConnections := s.closedConnections + {c}, owed := s.owed - {c})
  {
  }

  /** A caller that still holds an older connection cannot disturb the one in use, and a request is
      put down to a connection at most once. */
  lemma OlderConnectionsDisturbNothing(s: Shared, c: nat)
    ensures s.connection != Some(c) ==> LockRemove(s, c) == s && LockAttribute(s, c) == s && !Requested(s, c)
    ensures s.connection == Some(c) ==> LockRemove(s, c) == s.(connection := None)
    ensures !Requested(LockAttribute(s, c), c)
    ensures LockFinish(s).connection == None
  {
  }

  /** Run can be begun once, and not after Close. */
  lemma BegunOnce(s: Shared)
    ensures !s.started && !s.closed ==> LockStart(s) == s.(started := true)
    ensures s.started || s.closed ==> LockStart(s) == s
  {
  }
}
