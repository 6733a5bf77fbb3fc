/** The reconnecting session (stream/session.go) as a state machine: `Run` against concurrent
    calls of `Close` and `Reconnect`. Every section under the session's lock is one step, and so
    is every call outside it; the order in which the steps of different callers happen is free. */
module SessionProtocol {
  import opened Results

  /** The fields behind the lock. Connections are numbered in the order `Connect` returned them. */
  datatype Shared = Shared(
    connection: Option<nat>, generation: nat, started: bool, closed: bool, reconnect: bool)

  const NEW_SESSION := Shared(None, 0, false, false, false)

  // ---------- The sections under the lock ----------

  function LockStart(s: Shared): Shared {
    if s.closed || s.started then s else s.(started := true)
  }

  function LockInstall(s: Shared, c: nat): Shared {
    if s.closed then s
    else s.(connection := Some(c), reconnect := false, generation := s.generation + 1)
  }

  function LockRemove(s: Shared, c: nat): Shared {
    if s.connection == Some(c) then s.(connection := None) else s
  }

  /** Whether the end of a connection is put down to a reconnect request. */
  predicate Requested(s: Shared, c: nat) {
    s.connection == Some(c) && s.reconnect
  }

  function LockAttribute(s: Shared, c: nat): Shared {
    if Requested(s, c) then s.(reconnect := false) else s
  }

  function LockReconnect(s: Shared): Shared {
    if s.closed || s.connection.None? then s else s.(reconnect := true)
  }

  function LockClose(s: Shared): Shared {
    if s.closed then s else s.(closed := true, reconnect := false, connection := None)
  }

  function LockFinish(s: Shared): Shared {
    s.(connection := None)
  }

  datatype WriteError = SessionClosed | NotConnected | ConnectionFailed

  /** The connection a write or a reconnect request concerns, or why there is none. */
  function LockTarget(s: Shared): Result<nat, WriteError> {
    if s.closed then Err(SessionClosed)
    else if s.connection.None? then Err(NotConnected)
    else Ok(s.connection.value)
  }

  // ---------- Where Run stands ----------

  datatype Pc =
    | Idle
    | Head
    | Dialing
    | Opened(c: nat)
    | Rejected(c: nat)
    | Hooking(c: nat)
    | HookFailed(c: nat)
    | HookRemoved(c: nat)
    | Consuming(c: nat)
    | Ended(c: nat, handlerFailed: bool)
    | Attributed(c: nat, handlerFailed: bool)
    | Removed(c: nat, handlerFailed: bool)
    | CheckStop
    | Waiting
    | Finishing
    | FinishClose(left: Option<nat>)
    | Returned

  /** An ended connection that was put down to a request: the generation the request was made
      for, and the generation of the connection. */
  datatype Attribution = Attribution(requestedFor: nat, ended: nat)

  datatype Config = Config(maxReconnectAttempts: nat)

  /** The session with its history: how many connections were opened, which were closed and
      installed, which close calls other goroutines still owe, and for which generation the
      latest request was made. */
  datatype State = State(
    shared: Shared, pc: Pc, attempt: nat,
    dialed: nat, closedConnections: set<nat>, owed: set<nat>,
    installs: seq<nat>, requestedFor: nat, attributions: seq<Attribution>)

  const START := State(NEW_SESSION, Idle, 0, 0, {}, {}, [], 0, [])

  /** One step. The booleans are what the environment decides: whether the context has ended,
      whether dialing, the hook or the wait succeed, how consuming ends. */
  datatype Action =
    | CallRun
    | CheckHead(contextDone: bool)
    | Dial(ok: bool)
    | Install
    | CloseRejected
    | Hook(ok: bool)
    | RemoveAfterHook
    | CloseAfterHook
    | EndConsuming(failed: bool, closesIt: bool)
    | Attribute
    | RemoveEnded
    | CloseEnded
    | CheckEnded(contextDone: bool)
    | Wait(resumes: bool)
    | FinishLock
    | FinishConnection
    | CallClose
    | CallReconnect
    | CloseOwed(c: nat)

  function CloseConnection(s: State, c: nat): State {
    s.(closedConnections := s.closedConnections + {c})
  }

  function Failed(s: State): State {
    s.(attempt := s.attempt + 1, pc := Waiting)
  }

  function StepInstall(s: State): State
    requires s.pc.Opened?
  {
    if s.shared.closed then s.(pc := Rejected(s.pc.c))
    else s.(shared := LockInstall(s.shared, s.pc.c), pc := Hooking(s.pc.c), installs := s.installs + [s.pc.c])
  }

  function StepAttribute(s: State): State
    requires s.pc.Ended?
  {
    s.(shared := LockAttribute(s.shared, s.pc.c), pc := Attributed(s.pc.c, s.pc.handlerFailed),
       attributions := if Requested(s.shared, s.pc.c)
                       then s.attributions + [Attribution(s.requestedFor, s.shared.generation)]
                       else s.attributions)
  }

  /** waitToReconnect gives up when stopped, when the policy says so, or after too many attempts. */
  function StepWait(cfg: Config, s: State, resumes: bool): State {
    if s.shared.closed || !resumes
       || (cfg.maxReconnectAttempts > 0 && s.attempt > cfg.maxReconnectAttempts)
    then s.(pc := Finishing) else s.(pc := Head)
  }

  function StepClose(s: State): State {
    s.(shared := LockClose(s.shared),
       owed := if s.shared.connection.Some? && !s.shared.closed
               then s.owed + {s.shared.connection.value} else s.owed)
  }

  function StepReconnect(s: State): State {
    if s.shared.closed || s.shared.connection.None? then s
    else s.(shared := LockReconnect(s.shared), requestedFor := s.shared.generation,
            owed := s.owed + {s.shared.connection.value})
  }

  /** The steps of Run itself; a step that is not due leaves the state as it is. */
  function RunStep(cfg: Config, s: State, a: Action): State {
    match (a, s.pc)
    case (CallRun, Idle) =>
      if s.shared.closed || s.shared.started then s
      else s.(shared := LockStart(s.shared), pc := Head)
    case (CheckHead(done), Head) => s.(pc := if s.shared.closed || done then Finishing else Dialing)
    case (Dial(ok), Dialing) =>
      if ok then s.(pc := Opened(s.dialed), dialed := s.dialed + 1) else Failed(s)
    case (Install, Opened(_)) => StepInstall(s)
    case (CloseRejected, Rejected(c)) => CloseConnection(s, c).(pc := Finishing)
    case (Hook(ok), Hooking(c)) =>
      if ok then s.(pc := Consuming(c), attempt := 0) else s.(pc := HookFailed(c))
    case (RemoveAfterHook, HookFailed(c)) => s.(shared := LockRemove(s.shared, c), pc := HookRemoved(c))
    case (CloseAfterHook, HookRemoved(c)) => Failed(CloseConnection(s, c))
    case (EndConsuming(failed, closesIt), Consuming(c)) =>
      (if closesIt then CloseConnection(s, c) else s).(pc := Ended(c, failed))
    case (Attribute, Ended(_, _)) => StepAttribute(s)
    case (RemoveEnded, Attributed(c, failed)) =>
      s.(shared := LockRemove(s.shared, c), pc := Removed(c, failed))
    case (CloseEnded, Removed(c, failed)) =>
      CloseConnection(s, c).(pc := if failed then Finishing else CheckStop)
    case (CheckEnded(done), CheckStop) => if s.shared.closed || done then s.(pc := Finishing) else Failed(s)
    case (Wait(resumes), Waiting) => StepWait(cfg, s, resumes)
    case (FinishLock, Finishing) =>
      s.(shared := LockFinish(s.shared), pc := FinishClose(s.shared.connection))
    case (FinishConnection, FinishClose(left)) =>
      (if left.Some? then CloseConnection(s, left.value) else s).(pc := Returned)
    case _ => s
  }

  function Step(cfg: Config, s: State, a: Action): State {
    match a
    case CallClose => StepClose(s)
    case CallReconnect => StepReconnect(s)
    case CloseOwed(c) => if c in s.owed then CloseConnection(s, c).(owed := s.owed - {c}) else s
    case _ => RunStep(cfg, s, a)
  }

  function RunFrom(cfg: Config, s: State, actions: seq<Action>): State {
    if actions == [] then s
    else Step(cfg, RunFrom(cfg, s, actions[..|actions| - 1]), actions[|actions| - 1])
  }

  function RunOf(cfg: Config, actions: seq<Action>): State {
    RunFrom(cfg, START, actions)
  }

  // ---------- Invariants ----------

  /** The connection Run is responsible for closing. */
  function Held(pc: Pc): Option<nat> {
    match pc
    case Opened(c) => Some(c)
    case Rejected(c) => Some(c)
    case Hooking(c) => Some(c)
    case HookFailed(c) => Some(c)
    case HookRemoved(c) => Some(c)
    case Consuming(c) => Some(c)
    case Ended(c, _) => Some(c)
    case Attributed(c, _) => Some(c)
    case Removed(c, _) => Some(c)
    case FinishClose(left) => left
    case _ => None
  }

  /** The connection that may still be in the session's field. */
  function Installable(pc: Pc): Option<nat> {
    match pc
    case Hooking(c) => Some(c)
    case HookFailed(c) => Some(c)
    case Consuming(c) => Some(c)
    case Ended(c, _) => Some(c)
    case Attributed(c, _) => Some(c)
    case _ => None
  }

  /** Nothing opened is forgotten. */
  ghost predicate NothingForgotten(s: State) {
    && (Held(s.pc).Some? ==> Held(s.pc).value < s.dialed)
    && forall c: nat {:trigger c in s.closedConnections} | c < s.dialed ::
         c in s.closedConnections || Held(s.pc) == Some(c)
  }

  ghost predicate InstallsCounted(s: State) {
    && s.shared.generation == |s.installs|
    && (Installable(s.pc).Some? ==> s.installs != [] && s.installs[|s.installs| - 1] == Installable(s.pc).value)
    && (s.shared.connection.Some? ==> s.shared.connection == Installable(s.pc))
    && (!s.shared.closed && Unexamined(s.pc) ==> s.shared.connection == Installable(s.pc))
  }

  /** Before the current connection's end is examined nothing is attributed to it yet. */
  predicate Unexamined(pc: Pc) {
    pc.Hooking? || pc.HookFailed? || pc.Consuming? || pc.Ended?
  }

  /** What was put down to a request was put down to one for that connection; nothing yet to the
      current one if it has not been examined. */
  ghost predicate LogOk(log: seq<Attribution>, generation: nat, unexamined: bool) {
    && (forall i {:trigger log[i]} | 0 <= i < |log| ::
          && log[i].requestedFor == log[i].ended <= generation
          && (unexamined ==> log[i].ended < generation))
    && (forall i, j | 0 <= i < j < |log| :: log[i].ended < log[j].ended)
  }

  ghost predicate Attributable(s: State) {
    && (s.shared.reconnect ==> s.requestedFor == s.shared.generation > 0)
    && LogOk(s.attributions, s.shared.generation, Unexamined(s.pc))
  }

  /** A request for the current connection stays pending until its end is examined. */
  ghost predicate RequestPending(s: State) {
    && s.requestedFor <= s.shared.generation
    && (!s.shared.closed && Unexamined(s.pc) && s.requestedFor == s.shared.generation ==> s.shared.reconnect)
  }

  ghost predicate AttemptsBounded(cfg: Config, s: State) {
    cfg.maxReconnectAttempts > 0 && !s.pc.Finishing? && !s.pc.FinishClose? && !s.pc.Returned? ==>
      s.attempt <= cfg.maxReconnectAttempts + (if s.pc.Waiting? then 1 else 0)
  }

  ghost predicate Inv(cfg: Config, s: State) {
    && NothingForgotten(s) && InstallsCounted(s) && Attributable(s) && RequestPending(s) && AttemptsBounded(cfg, s)
    && (s.shared.closed ==> s.shared.connection.None? && !s.shared.reconnect)
    && (s.pc.Idle? ==> s.dialed == 0 && !s.shared.started)
    && (s.pc.FinishClose? ==> s.pc.left.None?)
  }

  lemma StepForgetsNothing(cfg: Config, s: State, a: Action)
    requires Inv(cfg, s)
    ensures NothingForgotten(Step(cfg, s, a))
  {
  }

  lemma StepCountsInstalls(cfg: Config, s: State, a: Action)
    requires Inv(cfg, s)
    ensures InstallsCounted(Step(cfg, s, a))
  {
  }

  lemma FlagFollowsGeneration(cfg: Config, s: State, a: Action)
    requires Inv(cfg, s)
    ensures var t := Step(cfg, s, a);
            t.shared.reconnect ==> t.requestedFor == t.shared.generation > 0
  {
  }

  /** Only examining a connection adds to the log, and only an install makes a new one. */
  lemma LogMoves(cfg: Config, s: State, a: Action, t: State)
    requires Inv(cfg, s) && t == Step(cfg, s, a)
    ensures || (t.attributions == s.attributions && t.shared.generation == s.shared.generation
                && (Unexamined(t.pc) ==> Unexamined(s.pc)))
            || (t.attributions == s.attributions && t.shared.generation == s.shared.generation + 1)
            || (t.attributions == s.attributions + [Attribution(s.shared.generation, s.shared.generation)]
                && t.shared.generation == s.shared.generation && Unexamined(s.pc) && !Unexamined(t.pc))
  {
  }

  lemma LogStays(log: seq<Attribution>, generation: nat, before: bool, more: seq<Attribution>, next: nat, after: bool)
    requires LogOk(log, generation, before)
    requires || (more == log && next == generation && (after ==> before))
             || (more == log && next == generation + 1)
             || (more == log + [Attribution(generation, generation)] && next == generation && before && !after)
    ensures LogOk(more, next, after)
  {
  }

  lemma StepAttributes(cfg: Config, s: State, a: Action)
    requires Inv(cfg, s)
    ensures Attributable(Step(cfg, s, a))
  {
    var t := Step(cfg, s, a);
    FlagFollowsGeneration(cfg, s, a);
    LogMoves(cfg, s, a, t);
    LogStays(s.attributions, s.shared.generation, Unexamined(s.pc),
             t.attributions, t.shared.generation, Unexamined(t.pc));
  }

  lemma StepKeepsInv(cfg: Config, s: State, a: Action)
    requires Inv(cfg, s)
    ensures Inv(cfg, Step(cfg, s, a))
  {
    StepForgetsNothing(cfg, s, a);
    StepCountsInstalls(cfg, s, a);
    StepAttributes(cfg, s, a);
  }

  lemma {:induction false} RunKeepsInv(cfg: Config, actions: seq<Action>)
    ensures Inv(cfg, RunOf(cfg, actions))
  {
    if actions != [] {
      RunKeepsInv(cfg, actions[..|actions| - 1]);
      StepKeepsInv(cfg, RunOf(cfg, actions[..|actions| - 1]), actions[|actions| - 1]);
    }
  }

  // ---------- What the session promises ----------

  /** When Run has returned, every connection `Connect` ever returned has been closed and none
      is installed. */
  lemma ReturnsWithEverythingClosed(cfg: Config, actions: seq<Action>)
    requires RunOf(cfg, actions).pc.Returned?
    ensures var s := RunOf(cfg, actions);
            && s.shared.connection.None?
            && forall c: nat | c < s.dialed :: c in s.closedConnections
  {
    RunKeepsInv(cfg, actions);
  }

  /** The generation counts the installed connections, and the installed one is the newest. */
  lemma GenerationCountsInstalls(cfg: Config, actions: seq<Action>)
    ensures var s := RunOf(cfg, actions);
            && s.shared.generation == |s.installs|
            && (s.shared.connection.Some? ==>
                  s.installs != [] && s.shared.connection.value == s.installs[|s.installs| - 1])
  {
    RunKeepsInv(cfg, actions);
  }

  lemma StepAfterClose(cfg: Config, s: State, a: Action)
    requires Inv(cfg, s) && s.shared.closed
    ensures var t := Step(cfg, s, a);
            t.shared.closed && t.installs == s.installs && t.shared.generation == s.shared.generation
  {
  }

  /** Once Close has had the lock, no connection is installed any more. */
  lemma {:induction false} NothingInstalledAfterClose(cfg: Config, actions: seq<Action>, n: nat)
    requires n <= |actions| && RunOf(cfg, actions[..n]).shared.closed
    ensures var s, t := RunOf(cfg, actions[..n]), RunOf(cfg, actions);
            && t.shared.closed && t.shared.connection.None?
            && t.installs == s.installs && t.shared.generation == s.shared.generation
    decreases |actions|
  {
    RunKeepsInv(cfg, actions);
    if n == |actions| {
      assert actions[..n] == actions;
    } else {
      var front := actions[..|actions| - 1];
      assert front[..n] == actions[..n];
      NothingInstalledAfterClose(cfg, front, n);
      RunKeepsInv(cfg, front);
      StepAfterClose(cfg, RunOf(cfg, front), actions[|actions| - 1]);
    }
  }

  /** The end of a connection is put down to a request only if the request was made for that very
      connection, and at most once per connection. */
  lemma RequestsMeanTheirOwnConnection(cfg: Config, actions: seq<Action>)
    ensures var log := RunOf(cfg, actions).attributions;
            && (forall i | 0 <= i < |log| :: log[i].requestedFor == log[i].ended)
            && (forall i, j | 0 <= i < j < |log| :: log[i].ended < log[j].ended)
  {
    RunKeepsInv(cfg, actions);
  }

  /** And a request made while its connection was in use is honoured: unless the session has been
      closed meanwhile, the end of that connection is put down to it. */
  lemma RequestsAreHonoured(cfg: Config, actions: seq<Action>)
    requires var s := RunOf(cfg, actions);
             s.pc.Ended? && !s.shared.closed && s.requestedFor == s.shared.generation
    ensures var s := RunOf(cfg, actions);
            Step(cfg, s, Attribute).attributions
              == s.attributions + [Attribution(s.shared.generation, s.shared.generation)]
  {
    RunKeepsInv(cfg, actions);
  }

  /** A write goes to the newest installed connection, which Run still holds and will close. While
      an open session hooks up or consumes a connection, a write goes there and to no other. */
  lemma WritesGoToTheNewest(cfg: Config, actions: seq<Action>, s: State, target: Result<nat, WriteError>)
    requires s == RunOf(cfg, actions) && target == LockTarget(s.shared)
    ensures target.Ok? ==>
              && s.installs != [] && target.value == s.installs[|s.installs| - 1]
              && Held(s.pc) == Some(target.value) && target.value < s.dialed
    ensures Unexamined(s.pc) ==> target == if s.shared.closed then Err(SessionClosed) else Ok(s.pc.c)
    ensures target == Err(SessionClosed) <==> s.shared.closed
  {
    RunKeepsInv(cfg, actions);
  }

  /** With a limit on attempts, no connection is dialed after more failures in a row than that. */
  lemma NeverDialsTooOften(cfg: Config, actions: seq<Action>)
    requires cfg.maxReconnectAttempts > 0 && RunOf(cfg, actions).pc.Dialing?
    ensures RunOf(cfg, actions).attempt <= cfg.maxReconnectAttempts
  {
    RunKeepsInv(cfg, actions);
  }

  // ---------- Close makes Run return ----------

  /** How many more steps of its own Run can take once the session is closed. */
  function StepsLeft(pc: Pc): nat {
    match pc
    case Idle => 0
    case Returned => 0
    case FinishClose(_) => 1
    case Finishing => 2
    case Head => 3
    case CheckStop => 3
    case Waiting => 3
    case Rejected(_) => 3
    case Removed(_, _) => 4
    case HookRemoved(_) => 4
    case Opened(_) => 4
    case Dialing => 5
    case Attributed(_, _) => 5
    case HookFailed(_) => 5
    case Ended(_, _) => 6
    case Consuming(_) => 7
    case Hooking(_) => 8
  }

  /** The step of its own that Run takes next. */
  predicate Due(pc: Pc, a: Action) {
    match pc
    case Idle => a.CallRun?
    case Head => a.CheckHead?
    case Dialing => a.Dial?
    case Opened(_) => a.Install?
    case Rejected(_) => a.CloseRejected?
    case Hooking(_) => a.Hook?
    case HookFailed(_) => a.RemoveAfterHook?
    case HookRemoved(_) => a.CloseAfterHook?
    case Consuming(_) => a.EndConsuming?
    case Ended(_, _) => a.Attribute?
    case Attributed(_, _) => a.RemoveEnded?
    case Removed(_, _) => a.CloseEnded?
    case CheckStop => a.CheckEnded?
    case Waiting => a.Wait?
    case Finishing => a.FinishLock?
    case FinishClose(_) => a.FinishConnection?
    case Returned => false
  }

  lemma StepBringsCloser(cfg: Config, s: State, a: Action)
    requires s.shared.closed && !s.pc.Idle?
    ensures var t := Step(cfg, s, a);
            && t.shared.closed && !t.pc.Idle?
            && StepsLeft(t.pc) <= StepsLeft(s.pc) - (if Due(s.pc, a) then 1 else 0)
  {
  }

  /** How many of the actions are Run's own steps, in the run that starts from s. */
  function OwnSteps(cfg: Config, s: State, actions: seq<Action>): nat {
    if actions == [] then 0
    else
      var front, last := actions[..|actions| - 1], actions[|actions| - 1];
      OwnSteps(cfg, s, front) + (if Due(RunFrom(cfg, s, front).pc, last) then 1 else 0)
  }

  lemma {:induction false} OwnStepsBringCloser(cfg: Config, s: State, actions: seq<Action>, t: State)
    requires s.shared.closed && !s.pc.Idle? && t == RunFrom(cfg, s, actions)
    ensures t.shared.closed && !t.pc.Idle?
    ensures StepsLeft(t.pc) + OwnSteps(cfg, s, actions) <= StepsLeft(s.pc)
    decreases |actions|
  {
    if actions != [] {
      var front := actions[..|actions| - 1];
      OwnStepsBringCloser(cfg, s, front, RunFrom(cfg, s, front));
      StepBringsCloser(cfg, RunFrom(cfg, s, front), actions[|actions| - 1]);
    }
  }

  /** Close makes Run return: wherever Run stood, after eight more steps of its own it has
      returned, whatever other callers do in between. */
  lemma CloseMakesRunReturn(cfg: Config, s: State, actions: seq<Action>, t: State)
    requires s.shared.closed && !s.pc.Idle? && t == RunFrom(cfg, s, actions)
    requires OwnSteps(cfg, s, actions) >= 8
    ensures t.pc.Returned?
  {
    OwnStepsBringCloser(cfg, s, actions, t);
    FewSteps(s.pc);
    FewSteps(t.pc);
  }

  lemma FewSteps(pc: Pc)
    ensures StepsLeft(pc) <= 8
    ensures StepsLeft(pc) == 0 <==> pc.Idle? || pc.Returned?
  {
  }
}
