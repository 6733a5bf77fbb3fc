/** The subscriptions of a Binance market stream (exchange/binance/websocket.go): what is
    remembered, what the current connection has been told, and the command lock between them. The
    machine runs beside the session's own (stream/session.go): a connection is installed before
    its connect hook resubscribes it. */
module MarketStreams {
  import opened Results
  import opened Sorting
  import SP = SessionProtocol

  const MAX_MARKET_STREAMS := 1024

  /** The names among `names` that are, or are not, remembered. */
  function Pick(names: seq<string>, streams: set<string>, remembered: bool): (picked: seq<string>)
    ensures |picked| <= |names|
    ensures forall n :: n in picked <==> n in names && ((n in streams) == remembered)
  {
    if names == [] then []
    else
      var front, last := Pick(names[..|names| - 1], streams, remembered), names[|names| - 1];
      assert names == names[..|names| - 1] + [last];
      if (last in streams) == remembered then front + [last] else front
  }

  /** The names a command has to send: nothing when all is as asked already or too much is asked. */
  function ToSend(subscribe: bool, names: seq<string>, streams: set<string>): seq<string> {
    var picked := Pick(names, streams, !subscribe);
    if subscribe && |streams| + |picked| > MAX_MARKET_STREAMS then [] else picked
  }

  ghost function After(subscribe: bool, names: seq<string>, streams: set<string>): set<string> {
    if subscribe then streams + SetOf(names) else streams - SetOf(names)
  }

  lemma {:induction false} NamesAtMost(names: seq<string>)
    ensures |SetOf(names)| <= |names|
  {
    if names != [] {
      var front, last := names[..|names| - 1], names[|names| - 1];
      NamesAtMost(front);
      SetOfSnoc(front, last);
      assert names == front + [last];
    }
  }

  /** A command that goes through keeps the number of streams within the limit. */
  lemma LimitKept(subscribe: bool, names: seq<string>, streams: set<string>)
    requires |streams| <= MAX_MARKET_STREAMS
    ensures |After(subscribe, ToSend(subscribe, names, streams), streams)| <= MAX_MARKET_STREAMS
  {
    var sent := ToSend(subscribe, names, streams);
    NamesAtMost(sent);
    if subscribe {
      Union(streams, SetOf(sent));
    } else {
      Smaller(streams - SetOf(sent), streams);
    }
  }

  lemma Union<T>(a: set<T>, b: set<T>)
    ensures |a + b| <= |a| + |b|
  {
    assert |a + b| == |a| + |b| - |a * b|;
  }

  lemma {:induction false} Smaller<T>(a: set<T>, b: set<T>)
    requires a <= b
    ensures |a| <= |b|
  {
    assert b == a + (b - a) && a !! (b - a);
  }

  // ---------- The machine ----------

  /** Who holds the command lock, and how far it has come. */
  datatype Holder =
    | Free
    | Command(subscribe: bool, names: seq<string>, target: Option<nat>, written: bool)
    | Resubscribing(c: nat)

  /** `wire` is what each connection has been told, `hooked` the connections whose hook has
      completed, `hookResult` what the running hook returned. */
  datatype State = State(
    session: SP.State, streams: set<string>, holder: Holder,
    wire: map<nat, set<string>>, hooked: set<nat>, hookResult: Option<bool>)

  datatype Action =
    | Session(a: SP.Action)
    | BeginCommand(subscribe: bool, names: seq<string>)
    | AbandonCommand
    | ReadTarget
    | WriteCommand(ok: bool)
    | Remember
    | LockForHook
    | WriteHook(ok: bool)

  function Wire(s: State, c: nat): set<string> {
    if c in s.wire then s.wire[c] else {}
  }

  /** Session steps are the session's own; its hook step returns what the hook returned. */
  ghost function StepSession(cfg: SP.Config, s: State, a: SP.Action): State {
    if a.Hook? && s.session.pc.Hooking? then
      if s.hookResult == Some(a.ok) then s.(session := SP.Step(cfg, s.session, a), hookResult := None) else s
    else s.(session := SP.Step(cfg, s.session, a))
  }

  /** `session.Write` reads the connection under the session's lock and writes to it later. */
  ghost function StepReadTarget(s: State): State
    requires s.holder.Command?
  {
    match SP.LockTarget(s.session.shared)
    case Err(_) => s.(holder := Free)
    case Ok(c) => s.(holder := s.holder.(target := Some(c)))
  }

  ghost function StepWrite(s: State, ok: bool): State
    requires s.holder.Command? && s.holder.target.Some?
  {
    var t := s.holder.target.value;
    if ok
    then s.(wire := s.wire[t := After(s.holder.subscribe, s.holder.names, Wire(s, t))],
            holder := s.holder.(written := true))
    else s.(holder := Free)
  }

  ghost function StepWriteHook(s: State, ok: bool): State
    requires s.holder.Resubscribing?
  {
    var c := s.holder.c;
    if ok || s.streams == {}
    then s.(wire := s.wire[c := Wire(s, c) + s.streams], hooked := s.hooked + {c},
            hookResult := Some(true), holder := Free)
    else s.(hookResult := Some(false), holder := Free)
  }

  ghost function Step(cfg: SP.Config, s: State, a: Action): State {
    match a
    case Session(b) => StepSession(cfg, s, b)
    case BeginCommand(subscribe, names) =>
      var picked := ToSend(subscribe, names, s.streams);
      if s.holder.Free? && picked != [] then s.(holder := Command(subscribe, picked, None, false)) else s
    case AbandonCommand => if s.holder.Command? && !s.holder.written then s.(holder := Free) else s
    case ReadTarget => if s.holder.Command? && s.holder.target.None? then StepReadTarget(s) else s
    case WriteCommand(ok) =>
      if s.holder.Command? && s.holder.target.Some? && !s.holder.written then StepWrite(s, ok) else s
    case Remember =>
      if s.holder.Command? && s.holder.written
      then s.(streams := After(s.holder.subscribe, s.holder.names, s.streams), holder := Free) else s
    case LockForHook =>
      if s.holder.Free? && s.session.pc.Hooking? && s.hookResult.None?
      then s.(holder := Resubscribing(s.session.pc.c)) else s
    case WriteHook(ok) => if s.holder.Resubscribing? then StepWriteHook(s, ok) else s
  }

  ghost function RunFrom(cfg: SP.Config, s: State, actions: seq<Action>): State {
    if actions == [] then s
    else Step(cfg, RunFrom(cfg, s, actions[..|actions| - 1]), actions[|actions| - 1])
  }

  ghost function RunOf(cfg: SP.Config, initial: set<string>, actions: seq<Action>): State {
    RunFrom(cfg, State(SP.START, initial, Free, map[], {}, None), actions)
  }

  // ---------- Invariant ----------

  /** What a connection has been told agrees with the remembered set: exactly once its hook has
      completed, and never beyond it before. */
  ghost predicate InStep(s: State, c: nat, streams: set<string>) {
    if c in s.hooked then Wire(s, c) == streams else Wire(s, c) <= streams
  }

  /** The agreement for the current connection, by what the holder of the lock has done. */
  ghost predicate Agreed(s: State, c: nat) {
    match s.holder
    case Free => InStep(s, c, s.streams)
    case Resubscribing(_) => InStep(s, c, s.streams)
    case Command(subscribe, names, target, written) =>
      if target.Some? && target.value != c then c !in s.hooked && Wire(s, c) == {}
      else InStep(s, c, if written then After(subscribe, names, s.streams) else s.streams)
  }

  /** Connections not installed yet have been told nothing. */
  ghost predicate NotYetTold(s: State, c: nat) {
    c !in s.wire && c !in s.hooked
  }

  ghost predicate HookState(s: State) {
    && (s.holder.Resubscribing? ==>
          s.session.pc == SP.Hooking(s.holder.c) && s.hookResult.None? && s.holder.c !in s.hooked)
    && (s.session.pc.Hooking? ==> (s.session.pc.c in s.hooked <==> s.hookResult == Some(true)))
    && (s.session.pc.HookFailed? ==> s.session.pc.c !in s.hooked)
    && (s.hookResult.Some? ==> s.session.pc.Hooking?)
    && (s.session.pc.Consuming? ==> s.session.pc.c in s.hooked)
    && (s.session.pc.Ended? ==> s.session.pc.c in s.hooked)
    && (s.session.pc.Attributed? ==> s.session.pc.c in s.hooked)
  }

  ghost predicate Told(s: State) {
    && (forall c {:trigger c in s.wire} | c in s.wire :: c < s.session.dialed)
    && (forall c {:trigger c in s.hooked} | c in s.hooked :: c < s.session.dialed)
    && (s.session.pc.Opened? ==> NotYetTold(s, s.session.pc.c))
    && (s.session.pc.Opened? && s.holder.Command? ==> s.holder.target != Some(s.session.pc.c))
    && (s.holder.Command? && s.holder.target.Some? ==> s.holder.target.value < s.session.dialed)
  }

  ghost predicate Inv(cfg: SP.Config, s: State) {
    && SP.Inv(cfg, s.session) && HookState(s) && Told(s)
    && CurrentAgrees(s) && WithinLimit(s)
  }

  ghost predicate CurrentAgrees(s: State) {
    && (s.session.shared.connection.Some? ==> Agreed(s, s.session.shared.connection.value))
    && (s.holder.Command? && s.holder.written ==> s.holder.target.Some?)
  }

  ghost predicate LimitOk(streams: set<string>, holder: Holder) {
    && |streams| <= MAX_MARKET_STREAMS
    && (holder.Command? ==> |After(holder.subscribe, holder.names, streams)| <= MAX_MARKET_STREAMS)
  }

  ghost predicate WithinLimit(s: State) {
    LimitOk(s.streams, s.holder)
  }

  /** Where Run can have come from, as far as the hook is concerned. */
  ghost predicate HookMoves(s: State, t: State) {
    var p, q := s.session.pc, t.session.pc;
    && (q.Hooking? ==> q == p || (p.Opened? && p.c == q.c))
    && (q.HookFailed? ==> q == p || (p == SP.Hooking(q.c) && s.hookResult == Some(false)))
    && (q.Consuming? ==> q == p || (p == SP.Hooking(q.c) && s.hookResult == Some(true)))
    && (q.Ended? ==> q == p || p == SP.Consuming(q.c))
    && (q.Attributed? ==> q == p || (p.Ended? && p.c == q.c))
    && (t.hookResult == s.hookResult || t.hookResult.None?)
    && (p.Hooking? ==> q == p || (s.hookResult.Some? && t.hookResult.None?))
    && (q == p ==> t.hookResult == s.hookResult)
  }

  /** A session step leaves the connection, drops it, or installs the one just opened. */
  ghost predicate SessionMove(s: State, t: State) {
    && t.streams == s.streams && t.holder == s.holder && t.wire == s.wire && t.hooked == s.hooked
    && HookMoves(s, t)
    && t.session.dialed >= s.session.dialed
    && (t.session.pc.Opened? ==>
          t.session.pc == s.session.pc || (t.session.pc.c == s.session.dialed < t.session.dialed))
    && (t.session.shared.connection == s.session.shared.connection
        || t.session.shared.connection.None?
        || (s.session.pc.Opened? && t.session.shared.connection == Some(s.session.pc.c)))
  }

  lemma SessionStepHookMoves(cfg: SP.Config, s: State, a: SP.Action)
    requires HookState(s)
    ensures HookMoves(s, StepSession(cfg, s, a))
  {
  }

  lemma SessionStepMoves(cfg: SP.Config, s: State, a: SP.Action)
    requires HookState(s)
    ensures SessionMove(s, StepSession(cfg, s, a))
  {
    SessionStepHookMoves(cfg, s, a);
  }

  lemma MoveKeepsTold(s: State, t: State)
    requires SessionMove(s, t) && Told(s)
    ensures Told(t)
  {
  }

  lemma MoveKeepsHooks(s: State, t: State)
    requires SessionMove(s, t) && HookState(s) && Told(s)
    ensures HookState(t)
  {
  }

  lemma MoveKeepsAgreement(s: State, t: State)
    requires SessionMove(s, t) && HookState(s) && Told(s) && CurrentAgrees(s)
    ensures CurrentAgrees(t)
  {
  }

  lemma SessionStepKeepsInv(cfg: SP.Config, s: State, a: SP.Action)
    requires Inv(cfg, s)
    ensures Inv(cfg, StepSession(cfg, s, a))
  {
    var t := StepSession(cfg, s, a);
    SP.StepKeepsInv(cfg, s.session, a);
    SessionStepMoves(cfg, s, a);
    MoveKeepsTold(s, t);
    MoveKeepsHooks(s, t);
    MoveKeepsAgreement(s, t);
  }

  lemma HookStepKeepsInv(cfg: SP.Config, s: State, a: Action)
    requires Inv(cfg, s) && (a.LockForHook? || a.WriteHook?)
    ensures Inv(cfg, Step(cfg, s, a))
  {
  }

  lemma CommandStepTold(cfg: SP.Config, s: State, a: Action)
    requires Inv(cfg, s)
    requires a.BeginCommand? || a.AbandonCommand? || a.ReadTarget? || a.WriteCommand? || a.Remember?
    ensures var t := Step(cfg, s, a); t.session == s.session && Told(t) && HookState(t)
  {
  }

  /** A sent command moves the connection it was sent to exactly as the remembered set will
      move. A connection installed meanwhile has still been told nothing. */
  lemma WriteAgrees(s: State, c: nat)
    requires s.holder.Command? && s.holder.target.Some? && !s.holder.written
    requires Agreed(s, c)
    ensures Agreed(StepWrite(s, true), c)
  {
    var t := s.holder.target.value;
    var told := After(s.holder.subscribe, s.holder.names, Wire(s, t));
    assert Wire(StepWrite(s, true), t) == told;
    if t != c {
      assert Wire(StepWrite(s, true), c) == Wire(s, c);
    }
  }

  lemma RememberAgrees(cfg: SP.Config, s: State, c: nat)
    requires s.holder.Command? && s.holder.written && s.holder.target.Some?
    requires Agreed(s, c)
    ensures Agreed(Step(cfg, s, Remember), c)
  {
  }

  lemma CommandStepAgrees(cfg: SP.Config, s: State, a: Action)
    requires Inv(cfg, s)
    requires a.BeginCommand? || a.AbandonCommand? || a.ReadTarget? || a.WriteCommand? || a.Remember?
    ensures CurrentAgrees(Step(cfg, s, a))
  {
    if s.session.shared.connection.Some? && s.holder.Command? && s.holder.target.Some? {
      var c := s.session.shared.connection.value;
      if a.WriteCommand? && !s.holder.written {
        WriteAgrees(s, c);
      } else if a.Remember? && s.holder.written {
        RememberAgrees(cfg, s, c);
      }
    }
  }

  lemma CommandStepKeepsInv(cfg: SP.Config, s: State, a: Action)
    requires Inv(cfg, s)
    requires a.BeginCommand? || a.AbandonCommand? || a.ReadTarget? || a.WriteCommand? || a.Remember?
    ensures Inv(cfg, Step(cfg, s, a))
  {
    CommandStepTold(cfg, s, a);
    CommandStepAgrees(cfg, s, a);
    CommandStepLimit(cfg, s, a);
  }

  /** What a command step makes of the remembered set and the command under way. */
  ghost predicate CommandMove(streams: set<string>, holder: Holder, streams': set<string>, holder': Holder) {
    || (streams' == streams && !holder'.Command?)
    || (streams' == streams && holder.Command? && holder'.Command?
        && holder'.subscribe == holder.subscribe && holder'.names == holder.names)
    || (streams' == streams && holder'.Command?
        && exists names :: holder'.names == ToSend(holder'.subscribe, names, streams))
    || (holder.Command? && streams' == After(holder.subscribe, holder.names, streams) && !holder'.Command?)
  }

  lemma CommandStepMoves(cfg: SP.Config, s: State, a: Action)
    requires a.BeginCommand? || a.AbandonCommand? || a.ReadTarget? || a.WriteCommand? || a.Remember?
    ensures var t := Step(cfg, s, a); CommandMove(s.streams, s.holder, t.streams, t.holder)
  {
  }

  lemma MoveKeepsLimit(streams: set<string>, holder: Holder, streams': set<string>, holder': Holder)
    requires LimitOk(streams, holder) && CommandMove(streams, holder, streams', holder')
    ensures LimitOk(streams', holder')
  {
    if streams' == streams && holder'.Command? {
      if names :| holder'.names == ToSend(holder'.subscribe, names, streams) {
        LimitKept(holder'.subscribe, names, streams);
      }
    }
  }

  lemma CommandStepLimit(cfg: SP.Config, s: State, a: Action)
    requires WithinLimit(s)
    requires a.BeginCommand? || a.AbandonCommand? || a.ReadTarget? || a.WriteCommand? || a.Remember?
    ensures WithinLimit(Step(cfg, s, a))
  {
    var t := Step(cfg, s, a);
    CommandStepMoves(cfg, s, a);
    MoveKeepsLimit(s.streams, s.holder, t.streams, t.holder);
  }

  lemma {:induction false} RunKeepsInv(cfg: SP.Config, initial: set<string>, actions: seq<Action>)
    requires |initial| <= MAX_MARKET_STREAMS
    ensures Inv(cfg, RunOf(cfg, initial, actions))
  {
    if actions != [] {
      RunKeepsInv(cfg, initial, actions[..|actions| - 1]);
      var s, a := RunOf(cfg, initial, actions[..|actions| - 1]), actions[|actions| - 1];
      match a
      case Session(b) => SessionStepKeepsInv(cfg, s, b);
      case LockForHook => HookStepKeepsInv(cfg, s, a);
      case WriteHook(_) => HookStepKeepsInv(cfg, s, a);
      case _ => CommandStepKeepsInv(cfg, s, a);
    }
  }

  /** Over every interleaving of commands, connection losses, installs and hooks: whenever nobody
      holds the command lock and the current connection's hook has completed, that connection has
      been told exactly the remembered streams; before that, never more than those. */
  lemma SubscriptionsAgree(cfg: SP.Config, initial: set<string>, actions: seq<Action>)
    requires |initial| <= MAX_MARKET_STREAMS
    ensures var s := RunOf(cfg, initial, actions);
            s.holder.Free? && s.session.shared.connection.Some? ==>
              var c := s.session.shared.connection.value;
              if c in s.hooked then Wire(s, c) == s.streams else Wire(s, c) <= s.streams
  {
    RunKeepsInv(cfg, initial, actions);
  }

  /** At any moment, also in the middle of a command, the connection being consumed has
      completed its hook, and no more than the limit is remembered. */
  lemma ConsumedConnectionsAreSubscribed(cfg: SP.Config, initial: set<string>, actions: seq<Action>)
    requires |initial| <= MAX_MARKET_STREAMS
    ensures var s := RunOf(cfg, initial, actions);
            && |s.streams| <= MAX_MARKET_STREAMS
            && (s.session.pc.Consuming? ==> s.session.pc.c in s.hooked)
  {
    RunKeepsInv(cfg, initial, actions);
  }

  // ---------- One command ----------

  /** What other goroutines may do while a command holds the lock. */
  predicate ByOthers(a: Action) {
    a.Session? || a.BeginCommand? || a.LockForHook? || a.WriteHook?
  }

  ghost predicate AllByOthers(actions: seq<Action>) {
    forall i {:trigger actions[i]} | 0 <= i < |actions| :: ByOthers(actions[i])
  }

  ghost predicate SameForCommand(s: State, t: State) {
    t.streams == s.streams && t.holder == s.holder && t.wire == s.wire
  }

  lemma {:induction false} OthersLeaveCommand(cfg: SP.Config, s: State, actions: seq<Action>)
    requires s.holder.Command? && AllByOthers(actions)
    ensures SameForCommand(s, RunFrom(cfg, s, actions))
  {
    if actions != [] {
      var front, last := actions[..|actions| - 1], actions[|actions| - 1];
      OthersLeaveCommand(cfg, s, front);
      assert ByOthers(last);
    }
  }

  /** A command from its lock to its end, with anything others do between its steps: the target is
      read, the write answers, and what was sent is remembered if it was written. */
  ghost function RunCommand(
    cfg: SP.Config, s: State, subscribe: bool, names: seq<string>,
    first: seq<Action>, second: seq<Action>, ok: bool, third: seq<Action>): State
  {
    var begun := RunFrom(cfg, Step(cfg, s, BeginCommand(subscribe, names)), first);
    var targeted := RunFrom(cfg, Step(cfg, begun, ReadTarget), second);
    var written := Step(cfg, targeted, WriteCommand(ok));
    if ok then Step(cfg, RunFrom(cfg, written, third), Remember) else written
  }

  /** Whatever happens in between, a command with a target leaves the lock free, the remembered set
      as the object's `Subscribe` and `Unsubscribe` promise, and its target told the same. */
  lemma CommandKeepsItsPromise(
    cfg: SP.Config, s: State, subscribe: bool, names: seq<string>,
    first: seq<Action>, second: seq<Action>, ok: bool, third: seq<Action>, c: nat)
    requires s.holder.Free? && ToSend(subscribe, names, s.streams) != []
    requires AllByOthers(first) && AllByOthers(second) && AllByOthers(third)
    requires var begun := RunFrom(cfg, Step(cfg, s, BeginCommand(subscribe, names)), first);
             SP.LockTarget(begun.session.shared) == Ok(c)
    ensures var sent := if ok then ToSend(subscribe, names, s.streams) else [];
            var t := RunCommand(cfg, s, subscribe, names, first, second, ok, third);
            && t.holder.Free?
            && t.streams == After(subscribe, sent, s.streams)
            && Wire(t, c) == After(subscribe, sent, Wire(s, c))
            && forall d: nat | d != c :: Wire(t, d) == Wire(s, d)
  {
    var locked := Step(cfg, s, BeginCommand(subscribe, names));
    OthersLeaveCommand(cfg, locked, first);
    var begun := RunFrom(cfg, locked, first);
    var read := Step(cfg, begun, ReadTarget);
    OthersLeaveCommand(cfg, read, second);
    var targeted := RunFrom(cfg, read, second);
    var written := Step(cfg, targeted, WriteCommand(ok));
    if ok {
      OthersLeaveCommand(cfg, written, third);
    }
  }

  /** A command with nothing to send, without a target or given up leaves everything as it was. */
  lemma CommandMayEndEarly(cfg: SP.Config, s: State, subscribe: bool, names: seq<string>, t: State)
    requires s.holder.Free? && t == Step(cfg, s, BeginCommand(subscribe, names))
    ensures ToSend(subscribe, names, s.streams) == [] ==> t == s
    ensures ToSend(subscribe, names, s.streams) != [] ==> t.holder.Command? && Step(cfg, t, AbandonCommand) == s
    ensures ToSend(subscribe, names, s.streams) != [] && SP.LockTarget(s.session.shared).Err? ==>
              Step(cfg, t, ReadTarget) == s
  {
  }

  // ---------- One hook ----------

  ghost predicate NoHookWrite(actions: seq<Action>) {
    forall i {:trigger actions[i]} | 0 <= i < |actions| :: !actions[i].WriteHook?
  }

  /** The hook of connection c holds the command lock and has not written yet. */
  ghost predicate HookRuns(s: State, c: nat) {
    s.holder == Resubscribing(c) && s.session.pc == SP.Hooking(c) && s.hookResult.None?
  }

  lemma {:induction false} OthersLeaveHook(cfg: SP.Config, s: State, c: nat, actions: seq<Action>)
    requires HookRuns(s, c) && NoHookWrite(actions)
    ensures var t := RunFrom(cfg, s, actions);
            HookRuns(t, c) && t.streams == s.streams && t.wire == s.wire && t.hooked == s.hooked
  {
    if actions != [] {
      var front, last := actions[..|actions| - 1], actions[|actions| - 1];
      OthersLeaveHook(cfg, s, c, front);
      OneLeavesHook(cfg, RunFrom(cfg, s, front), c, last);
    }
  }

  lemma OneLeavesHook(cfg: SP.Config, s: State, c: nat, a: Action)
    requires HookRuns(s, c) && !a.WriteHook?
    ensures var t := Step(cfg, s, a);
            HookRuns(t, c) && t.streams == s.streams && t.wire == s.wire && t.hooked == s.hooked
  {
  }

  /** A hook whenever the command lock is free: whatever others do in between, it tells its
      connection all remembered streams and lets it be consumed, or fails with its write and tells
      it nothing. With nothing remembered it cannot fail. */
  lemma HookResubscribes(cfg: SP.Config, s: State, c: nat, between: seq<Action>, ok: bool, t: State, u: State)
    requires s.holder.Free? && s.session.pc == SP.Hooking(c) && s.hookResult.None? && NoHookWrite(between)
    requires t == Step(cfg, RunFrom(cfg, Step(cfg, s, LockForHook), between), WriteHook(ok))
    requires u == Step(cfg, t, Session(SP.Hook(ok || s.streams == {})))
    ensures t.holder.Free? && t.streams == s.streams
    ensures if ok || s.streams == {}
            then Wire(t, c) == Wire(s, c) + s.streams && t.hooked == s.hooked + {c} && u.session.pc == SP.Consuming(c)
            else t.wire == s.wire && t.hooked == s.hooked && u.session.pc == SP.HookFailed(c)
    ensures u.holder.Free? && u.hookResult.None? && u.wire == t.wire && u.streams == s.streams
  {
    OthersLeaveHook(cfg, Step(cfg, s, LockForHook), c, between);
  }
}
