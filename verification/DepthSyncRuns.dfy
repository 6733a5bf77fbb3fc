/** Properties of every run of the Binance synchroniser: what mode it is in, in what order it
    publishes, and that it publishes the exchange's own book. */
module DepthSyncRuns {
  import opened Results
  import opened Integers
  import opened BookLevels
  import opened ExchangeLog
  import opened DepthSync

  // ---------- Modes ----------

  datatype Mode = Fetching | RetryArmed | SnapshotPending | Live

  ghost predicate InMode(s: Sync, m: Mode) {
    && (s.fetching <==> m.Fetching?)
    && (s.retryArmed <==> m.RetryArmed?)
    && (s.pending.Some? <==> m.SnapshotPending?)
    && (s.state.Some? <==> m.Live?)
    && (s.buffer != [] <==> m.Fetching? || m.RetryArmed?)
  }

  ghost predicate InSomeMode(s: Sync) {
    exists m :: InMode(s, m)
  }

  ghost predicate Untouched(s: Sync) {
    s == START
  }

  ghost predicate Accepted(cfg: Config, input: DepthInput) {
    ValidateInput(cfg.symbol, input).None?
  }

  /** Everything buffered passed validation and belongs to the current generation. */
  ghost predicate BufferOk(cfg: Config, s: Sync) {
    && |s.buffer| <= cfg.maxBufferedEvents
    && forall i {:trigger Accepted(cfg, s.buffer[i])} | 0 <= i < |s.buffer| ::
         Accepted(cfg, s.buffer[i]) && s.buffer[i].generation == s.generation
  }

  // ---------- Order of publication ----------

  ghost predicate Before(v: LocalOrderBookView, w: LocalOrderBookView) {
    || v.generation < w.generation
    || (v.generation == w.generation && v.lastUpdateID < w.lastUpdateID)
  }

  /** Two views in a row: later in order, and a synchronisation id that changes, by one, exactly
      when a gap or a new connection lies between them. */
  ghost predicate Follows(v: LocalOrderBookView, w: LocalOrderBookView) {
    && Before(v, w)
    && v.gapCount <= w.gapCount
    && w.synchronizationID == v.synchronizationID + (
         if v.generation == w.generation && v.gapCount == w.gapCount then 0 else 1)
  }

  ghost predicate Chain(views: seq<LocalOrderBookView>) {
    forall i {:trigger views[i]} | 0 < i < |views| :: Follows(views[i - 1], views[i])
  }

  /** Whatever is published next from here lies beyond this id: the waiting snapshot does, or
      the first buffered event ends beyond it. */
  ghost predicate Ahead(s: Sync, id: int64) {
    || (s.pending.Some? && s.pending.value.lastUpdateID > id)
    || (s.buffer != [] && s.buffer[0].event.finalUpdateID > id)
  }

  /** How the running state continues the views published so far. */
  ghost predicate Continues(s: Sync) {
    if s.published == [] then s.synchronizationID == 0 && s.state.None?
    else
      var last := s.published[|s.published| - 1];
      && last.generation <= s.generation && last.gapCount <= s.gapCount
      && last.synchronizationID == s.synchronizationID
      && (s.state.Some? ==>
            && s.generation == last.generation && s.gapCount == last.gapCount
            && s.state.value.lastUpdateID == last.lastUpdateID)
      && (s.state.None? && s.generation == last.generation ==>
            s.gapCount > last.gapCount && Ahead(s, last.lastUpdateID))
  }

  ghost predicate Inv(cfg: Config, s: Sync) {
    && PendingValid(s)
    && Chain(s.published)
    && (s.stop.None? ==>
          && (if s.generation == 0 then Untouched(s) else InSomeMode(s))
          && BufferOk(cfg, s)
          && Continues(s))
  }

  // ---------- One step ----------

  lemma BufferSuffix(cfg: Config, s: Sync, k: nat)
    requires BufferOk(cfg, s) && k <= |s.buffer|
    ensures BufferOk(cfg, s.(buffer := s.buffer[k..]))
  {
    var t := s.(buffer := s.buffer[k..]);
    forall i {:trigger Accepted(cfg, t.buffer[i])} | 0 <= i < |t.buffer|
      ensures Accepted(cfg, t.buffer[i]) && t.buffer[i].generation == s.generation
    {
      assert Accepted(cfg, s.buffer[k + i]);
    }
  }

  lemma {:induction false} DropStaleSuffix(buffer: seq<DepthInput>, id: int64) returns (k: nat)
    ensures k <= |buffer| && DropStale(buffer, id) == buffer[k..]
  {
    if buffer != [] && buffer[0].event.finalUpdateID <= id {
      k := DropStaleSuffix(buffer[1..], id);
      assert buffer[1..][k..] == buffer[k + 1..];
      k := k + 1;
    } else {
      assert buffer[0..] == buffer;
      k := 0;
    }
  }

  lemma DropStaleKeepsBuffer(cfg: Config, s: Sync, id: int64)
    requires BufferOk(cfg, s)
    ensures BufferOk(cfg, s.(buffer := DropStale(s.buffer, id)))
  {
    var k := DropStaleSuffix(s.buffer, id);
    BufferSuffix(cfg, s, k);
  }

  /** A dropped event ended at or before the snapshot. */
  lemma {:induction false} DropStaleDrops(buffer: seq<DepthInput>, id: int64)
    requires buffer != []
    ensures DropStale(buffer, id) == buffer || buffer[0].event.finalUpdateID <= id
  {
  }

  /** Replay never goes back, and a gap leaves events that reach at least as far as the buffer's
      first event did. Validated events cannot break a replay halfway. */
  lemma {:induction false} ReplayGoesForward(cfg: Config, state: DepthState, s: Sync)
    requires BufferOk(cfg, s)
    ensures var r := Replay(state, s.buffer);
            && !r.Broken?
            && (r.Synchronized? ==>
                  && r.state.lastUpdateID >= state.lastUpdateID
                  && (s.buffer != [] ==> r.state.lastUpdateID >= s.buffer[0].event.finalUpdateID))
            && (r.GapAt? ==>
                  && r.rest != [] && BufferOk(cfg, s.(buffer := r.rest))
                  && r.rest[0].event.finalUpdateID > state.lastUpdateID
                  && r.rest[0].event.finalUpdateID >= s.buffer[0].event.finalUpdateID)
    decreases s.buffer
  {
    if s.buffer != [] {
      assert Accepted(cfg, s.buffer[0]);
      var tail := s.(buffer := s.buffer[1..]);
      BufferSuffix(cfg, s, 1);
      match ApplyEvent(state, s.buffer[0].event)
      case Skipped => ReplayGoesForward(cfg, state, tail);
      case Gap =>
      case Applied(next) => ReplayGoesForward(cfg, next, tail);
      case Malformed => assert false;
    }
  }

  ghost predicate Attempting(cfg: Config, s: Sync) {
    && s.stop.None? && s.generation > 0
    && s.pending.Some? && ValidSnapshot(s.pending.value)
    && s.state.None? && !s.fetching && !s.retryArmed && s.buffer != []
    && BufferOk(cfg, s) && Continues(s)
  }

  lemma TrimmingKeepsAhead(cfg: Config, s: Sync, id: int64)
    requires Attempting(cfg, s) && Ahead(s, id)
    ensures if Trimmed(s).buffer == [] then s.pending.value.lastUpdateID > id
            else Trimmed(s).buffer[0].event.finalUpdateID > id
  {
    DropStaleDrops(s.buffer, s.pending.value.lastUpdateID);
  }

  /** After trimming, the first event alone decides: too new, or the replay begins with it. */
  lemma ReplayOutcome(cfg: Config, s: Sync)
    requires Attempting(cfg, s) && Trimmed(s).buffer != []
    ensures Trimmed(s).buffer[0].event.firstUpdateID <= Trimmed(s).buffer[0].event.finalUpdateID
    ensures var b, r := Trimmed(s), Replay(FromSnapshot(s.pending.value), Trimmed(s).buffer);
            && !r.Broken?
            && (r.Synchronized? ==> r.state.lastUpdateID >= b.buffer[0].event.finalUpdateID)
            && (r.GapAt? ==> r.rest != [] && BufferOk(cfg, b.(buffer := r.rest))
                             && r.rest[0].event.finalUpdateID >= b.buffer[0].event.finalUpdateID)
  {
    DropStaleKeepsBuffer(cfg, s, s.pending.value.lastUpdateID);
    assert Accepted(cfg, Trimmed(s).buffer[0]);
    ReplayGoesForward(cfg, FromSnapshot(s.pending.value), Trimmed(s));
  }

  lemma AttemptReaches(cfg: Config, s: Sync, id: int64)
    requires Attempting(cfg, s) && Ahead(s, id)
    ensures var (t, synchronized) := TrySynchronize(s);
            && t.stop.None?
            && (synchronized ==> t.state.value.lastUpdateID > id)
            && (!synchronized ==> Ahead(t, id))
  {
    TrimmingKeepsAhead(cfg, s, id);
    if Trimmed(s).buffer != [] {
      ReplayOutcome(cfg, s);
    }
  }

  lemma AttemptOutcome(cfg: Config, s: Sync)
    requires Attempting(cfg, s)
    ensures var (t, synchronized) := TrySynchronize(s);
            && t.stop.None? && t.generation == s.generation && t.published == s.published
            && s.gapCount <= t.gapCount
            && BufferOk(cfg, t)
            && t.synchronizationID == s.synchronizationID + (if synchronized then 1 else 0)
            && (synchronized ==> InMode(t, Live) && t.gapCount == s.gapCount)
            && (!synchronized ==> InMode(t, SnapshotPending) || InMode(t, RetryArmed))
  {
    DropStaleKeepsBuffer(cfg, s, s.pending.value.lastUpdateID);
    if Trimmed(s).buffer != [] {
      ReplayOutcome(cfg, s);
    }
  }

  lemma ChainSnoc(views: seq<LocalOrderBookView>, view: LocalOrderBookView)
    requires Chain(views) && (views != [] ==> Follows(views[|views| - 1], view))
    ensures Chain(views + [view])
  {
  }

  lemma SnapshotStepKeepsInv(cfg: Config, s: Sync, result: Option<OrderBook>, handlerOk: bool)
    requires Inv(cfg, s) && s.stop.None? && s.fetching
    ensures Inv(cfg, OnSnapshot(cfg, s, result, handlerOk))
  {
    var t := s.(fetching := false);
    if result.None? {
      assert InMode(t.(retryArmed := true), RetryArmed);
    } else if ValidSnapshot(result.value) {
      AttemptKeepsInv(cfg, t.(pending := result), handlerOk);
    }
  }

  /** The views published on the current connection, as seen by the next one. */
  ghost predicate PublishedHere(s: Sync) {
    s.published != [] && s.published[|s.published| - 1].generation == s.generation
  }

  ghost function LastID(s: Sync): int64
    requires s.published != []
  {
    s.published[|s.published| - 1].lastUpdateID
  }

  lemma InstalledFollows(cfg: Config, s: Sync, t: Sync)
    requires Continues(s) && s.state.None?
    requires t.published == s.published && t.generation == s.generation && t.gapCount == s.gapCount
    requires t.synchronizationID == s.synchronizationID + 1 && t.state.Some?
    requires PublishedHere(s) ==> t.state.value.lastUpdateID > LastID(s)
    ensures t.published != [] ==> Follows(t.published[|t.published| - 1], ViewOf(cfg, t))
  {
  }

  lemma WaitingContinues(s: Sync, t: Sync)
    requires Continues(s) && s.state.None? && t.state.None?
    requires t.published == s.published && t.generation == s.generation && s.gapCount <= t.gapCount
    requires t.synchronizationID == s.synchronizationID
    requires PublishedHere(s) ==> Ahead(t, LastID(s))
    ensures Continues(t)
  {
  }

  lemma AttemptKeepsInv(cfg: Config, s: Sync, handlerOk: bool)
    requires Attempting(cfg, s) && Chain(s.published)
    ensures Inv(cfg, SynchronizeAndPublish(cfg, s, handlerOk))
  {
    AttemptOutcome(cfg, s);
    if PublishedHere(s) {
      AttemptReaches(cfg, s, LastID(s));
    }
    var (t, synchronized) := TrySynchronize(s);
    if synchronized {
      InstalledFollows(cfg, s, t);
      PublishKeepsInv(cfg, t, handlerOk);
    } else {
      WaitingContinues(s, t);
    }
  }

  lemma PublishKeepsInv(cfg: Config, t: Sync, handlerOk: bool)
    requires t.stop.None? && t.generation > 0 && InMode(t, Live) && BufferOk(cfg, t)
    requires Chain(t.published)
    requires t.published != [] ==> Follows(t.published[|t.published| - 1], ViewOf(cfg, t))
    ensures Inv(cfg, Publish(cfg, t, handlerOk))
  {
    ChainSnoc(t.published, ViewOf(cfg, t));
    assert InMode(Publish(cfg, t, handlerOk), Live);
  }

  lemma LiveStepKeepsInv(cfg: Config, s: Sync, input: DepthInput, handlerOk: bool)
    requires Inv(cfg, s) && s.stop.None? && s.generation > 0 && s.state.Some?
    requires Accepted(cfg, input) && input.generation == s.generation
    requires cfg.maxBufferedEvents > 0
    ensures Inv(cfg, OnLive(cfg, s, input, handlerOk))
  {
    match ApplyEvent(s.state.value, input.event)
    case Skipped =>
    case Gap =>
      assert InMode(OnLive(cfg, s, input, handlerOk), Fetching);
    case Applied(book) =>
      PublishKeepsInv(cfg, s.(state := Some(book)), handlerOk);
    case Malformed => assert false;
  }

  lemma BufferSnoc(cfg: Config, s: Sync, input: DepthInput)
    requires BufferOk(cfg, s) && Accepted(cfg, input) && input.generation == s.generation
    requires |s.buffer| < cfg.maxBufferedEvents
    ensures BufferOk(cfg, s.(buffer := s.buffer + [input]))
  {
    var t := s.(buffer := s.buffer + [input]);
    forall i {:trigger Accepted(cfg, t.buffer[i])} | 0 <= i < |t.buffer|
      ensures Accepted(cfg, t.buffer[i]) && t.buffer[i].generation == t.generation
    {
      if i < |s.buffer| {
        assert Accepted(cfg, s.buffer[i]);
      }
    }
  }

  /** Between messages, with a possibly just-cleared connection: no book, and whatever was
      published on this connection is still ahead of us. */
  ghost predicate Awaiting(cfg: Config, s: Sync) {
    && PendingValid(s) && Chain(s.published) && s.stop.None? && s.generation > 0
    && s.state.None? && BufferOk(cfg, s) && Continues(s)
    && (s.fetching || s.retryArmed ==> s.pending.None? && !(s.fetching && s.retryArmed))
    && (s.pending.Some? ==> s.buffer == [])
  }

  lemma BufferingStepKeepsInv(cfg: Config, s: Sync, input: DepthInput, handlerOk: bool)
    requires Awaiting(cfg, s)
    requires Accepted(cfg, input) && input.generation == s.generation
    ensures Inv(cfg, OnBuffering(cfg, s, input, handlerOk))
  {
    var t := s.(buffer := s.buffer + [input]);
    if |t.buffer| <= cfg.maxBufferedEvents {
      BufferSnoc(cfg, s, input);
      if t.pending.Some? {
        AttemptKeepsInv(cfg, t, handlerOk);
        AttemptOutcome(cfg, t);
      } else {
        var u := StartWhenIdle(t);
        assert InMode(u, if u.fetching then Fetching else RetryArmed);
      }
    }
  }

  lemma InputStepKeepsInv(cfg: Config, s: Sync, input: DepthInput, handlerOk: bool)
    requires Inv(cfg, s) && s.stop.None? && cfg.maxBufferedEvents > 0
    ensures Inv(cfg, OnInput(cfg, s, input, handlerOk))
  {
    if ValidateInput(cfg.symbol, input).None? && input.generation >= s.generation {
      assert Accepted(cfg, input);
      var t := EnterGeneration(s, input.generation);
      if t.state.Some? {
        LiveStepKeepsInv(cfg, t, input, handlerOk);
      } else {
        BufferingStepKeepsInv(cfg, t, input, handlerOk);
      }
    }
  }

  lemma StepKeepsInv(cfg: Config, s: Sync, a: Arrival)
    requires Inv(cfg, s) && cfg.maxBufferedEvents > 0
    ensures Inv(cfg, Step(cfg, s, a))
  {
    if Ready(s, a) {
      match a
      case InputArrives(input, handlerOk) => InputStepKeepsInv(cfg, s, input, handlerOk);
      case SnapshotArrives(result, handlerOk) => SnapshotStepKeepsInv(cfg, s, result, handlerOk);
      case RetryFires => assert InMode(Step(cfg, s, a), Fetching);
      case ContextEnds =>
      case StreamEnds =>
    }
  }

  lemma {:induction false} RunKeepsInv(cfg: Config, arrivals: seq<Arrival>)
    requires cfg.maxBufferedEvents > 0
    ensures Inv(cfg, Run(cfg, arrivals))
  {
    if arrivals != [] {
      RunKeepsInv(cfg, arrivals[..|arrivals| - 1]);
      StepKeepsInv(cfg, Run(cfg, arrivals[..|arrivals| - 1]), arrivals[|arrivals| - 1]);
    }
  }

  // ---------- Whole runs ----------

  /** Whatever arrives, once the first event was accepted a running synchroniser is in exactly
      one mode: fetching, waiting to retry, holding a snapshot that waits for the next event, or
      live. It buffers only in the first two, and never more than its limit. */
  lemma AlwaysInOneMode(cfg: Config, arrivals: seq<Arrival>)
    requires cfg.maxBufferedEvents > 0
    requires Run(cfg, arrivals).stop.None? && Run(cfg, arrivals).generation > 0
    ensures exists m :: InMode(Run(cfg, arrivals), m)
    ensures forall m, n | InMode(Run(cfg, arrivals), m) && InMode(Run(cfg, arrivals), n) :: m == n
    ensures BufferOk(cfg, Run(cfg, arrivals))
  {
    RunKeepsInv(cfg, arrivals);
  }

  lemma {:induction false} ChainIsOrdered(views: seq<LocalOrderBookView>, i: nat, j: nat)
    requires Chain(views) && i < j < |views|
    ensures Before(views[i], views[j])
    decreases j
  {
    assert Follows(views[j - 1], views[j]);
    if i < j - 1 {
      ChainIsOrdered(views, i, j - 1);
    }
  }

  /** Whatever the exchange and the network do, published (generation, update id) pairs grow
      strictly over the whole run, also across gap recoveries and reconnects, and consecutive
      views share a synchronisation id exactly when no gap or reconnect lies between them. */
  lemma PublishesInOrder(cfg: Config, arrivals: seq<Arrival>)
    requires cfg.maxBufferedEvents > 0
    ensures var views := Run(cfg, arrivals).published;
            && (forall i, j | 0 <= i < j < |views| :: Before(views[i], views[j]))
            && (forall i {:trigger views[i]} | 0 < i < |views| :: Follows(views[i - 1], views[i]))
  {
    RunKeepsInv(cfg, arrivals);
    var views := Run(cfg, arrivals).published;
    forall i, j | 0 <= i < j < |views| ensures Before(views[i], views[j]) {
      ChainIsOrdered(views, i, j);
    }
  }

  // ---------- Stopping ----------

  /** The reasons for which one arrival may end a run. */
  ghost predicate StopAllowed(cfg: Config, s: Sync, a: Arrival, stop: Option<Stop>) {
    stop.Some? ==>
      match a
      case InputArrives(input, handlerOk) =>
        || stop == ValidateInput(cfg.symbol, input)
        || (stop == Some(BufferOverflow) && Accepted(cfg, input) && |s.buffer| == cfg.maxBufferedEvents)
        || (stop == Some(HandlerError) && !handlerOk)
      case SnapshotArrives(result, handlerOk) =>
        || (stop == Some(InvalidSnapshot) && result.Some? && !ValidSnapshot(result.value))
        || (stop == Some(HandlerError) && !handlerOk)
      case RetryFires => false
      case ContextEnds => stop == Some(ContextDone)
      case StreamEnds => stop == Some(StreamDone)
  }

  /** Validation is the only place where bad texts end a run: once it passed, applying buffered
      or live events cannot fail halfway, and a valid snapshot never ends a run. */
  lemma OnlyValidationRejects(cfg: Config, arrivals: seq<Arrival>, a: Arrival)
    requires cfg.maxBufferedEvents > 0 && Run(cfg, arrivals).stop.None?
    ensures StopAllowed(cfg, Run(cfg, arrivals), a, Step(cfg, Run(cfg, arrivals), a).stop)
  {
    RunKeepsInv(cfg, arrivals);
    var s := Run(cfg, arrivals);
    if Ready(s, a) {
      match a
      case InputArrives(input, handlerOk) =>
        if Accepted(cfg, input) {
          InputStops(cfg, s, input, handlerOk);
        }
      case SnapshotArrives(result, handlerOk) => SnapshotStops(cfg, s, result, handlerOk);
      case _ =>
    }
  }

  lemma SnapshotStops(cfg: Config, s: Sync, result: Option<OrderBook>, handlerOk: bool)
    requires Inv(cfg, s) && s.stop.None? && s.fetching
    ensures StopAllowed(cfg, s, SnapshotArrives(result, handlerOk),
                        OnSnapshot(cfg, s, result, handlerOk).stop)
  {
    if result.Some? && ValidSnapshot(result.value) {
      AttemptOutcome(cfg, s.(fetching := false, pending := result));
    }
  }

  lemma InputStops(cfg: Config, s: Sync, input: DepthInput, handlerOk: bool)
    requires Inv(cfg, s) && s.stop.None? && cfg.maxBufferedEvents > 0
    requires ValidateInput(cfg.symbol, input).None?
    ensures var stop := OnInput(cfg, s, input, handlerOk).stop;
            || stop.None?
            || (stop == Some(BufferOverflow) && |s.buffer| == cfg.maxBufferedEvents)
            || (stop == Some(HandlerError) && !handlerOk)
  {
    if input.generation >= s.generation {
      assert Accepted(cfg, input);
      var t := EnterGeneration(s, input.generation);
      var u := t.(buffer := t.buffer + [input]);
      if t.state.None? && |u.buffer| <= cfg.maxBufferedEvents {
        BufferSnoc(cfg, t, input);
        if u.pending.Some? {
          AttemptOutcome(cfg, u);
        }
      }
    }
  }

  // ---------- The exchange's book ----------

  ghost predicate FaithfulEvent(log: Log, event: DepthEvent) {
    && 1 <= event.firstUpdateID as int <= event.finalUpdateID as int <= |log|
    && FaithfulRows(log, event.firstUpdateID as int - 1, event.finalUpdateID as int, Bid, event.bids)
    && FaithfulRows(log, event.firstUpdateID as int - 1, event.finalUpdateID as int, Ask, event.asks)
  }

  ghost predicate FaithfulSnapshot(log: Log, snapshot: OrderBook) {
    && 0 <= snapshot.lastUpdateID as int <= |log|
    && CompleteRows(log, snapshot.lastUpdateID as int, Bid, RowsOf(snapshot.bids))
    && CompleteRows(log, snapshot.lastUpdateID as int, Ask, RowsOf(snapshot.asks))
  }

  /** A message that passes validation tells the truth about the log. */
  ghost predicate Faithful(cfg: Config, log: Log, a: Arrival) {
    && (a.InputArrives? && Accepted(cfg, a.input) ==> FaithfulEvent(log, a.input.event))
    && (a.SnapshotArrives? && a.result.Some? && ValidSnapshot(a.result.value) ==>
          FaithfulSnapshot(log, a.result.value))
  }

  ghost predicate StateMirrors(log: Log, state: DepthState) {
    && 0 <= state.lastUpdateID as int <= |log|
    && Mirrors(state.bids, log, state.lastUpdateID as int, Bid)
    && Mirrors(state.asks, log, state.lastUpdateID as int, Ask)
  }

  /** The view shows the top of the exchange's own book at the view's update id. */
  ghost predicate ShowsExchangeBook(cfg: Config, log: Log, view: LocalOrderBookView) {
    && 0 <= view.lastUpdateID as int <= |log|
    && IsTopOfBook(view.bids, BookAt(log, view.lastUpdateID as int, Bid), cfg.viewDepth, true)
    && IsTopOfBook(view.asks, BookAt(log, view.lastUpdateID as int, Ask), cfg.viewDepth, false)
  }

  ghost predicate AllFaithful(log: Log, buffer: seq<DepthInput>) {
    forall i {:trigger FaithfulEvent(log, buffer[i].event)} | 0 <= i < |buffer| ::
      FaithfulEvent(log, buffer[i].event)
  }

  ghost predicate AllShow(cfg: Config, log: Log, views: seq<LocalOrderBookView>) {
    forall i {:trigger ShowsExchangeBook(cfg, log, views[i])} | 0 <= i < |views| ::
      ShowsExchangeBook(cfg, log, views[i])
  }

  ghost predicate Truthful(cfg: Config, log: Log, s: Sync) {
    && PendingValid(s)
    && (s.state.Some? ==> StateMirrors(log, s.state.value))
    && (s.pending.Some? ==> FaithfulSnapshot(log, s.pending.value))
    && AllFaithful(log, s.buffer)
    && AllShow(cfg, log, s.published)
  }

  lemma AppliedMirrors(log: Log, state: DepthState, event: DepthEvent)
    requires StateMirrors(log, state) && FaithfulEvent(log, event)
    ensures var r := ApplyEvent(state, event);
            !r.Malformed? && (r.Applied? ==> StateMirrors(log, r.state))
  {
    if event.finalUpdateID > state.lastUpdateID && event.firstUpdateID <= state.lastUpdateID + 1 {
      var from, at, until :=
        event.firstUpdateID as int - 1, state.lastUpdateID as int, event.finalUpdateID as int;
      FaithfulRowsAdvance(state.bids, event.bids, log, from, at, until, Bid);
      FaithfulRowsAdvance(state.asks, event.asks, log, from, at, until, Ask);
    }
  }

  lemma AllFaithfulTail(log: Log, buffer: seq<DepthInput>, k: nat)
    requires AllFaithful(log, buffer) && k <= |buffer|
    ensures AllFaithful(log, buffer[k..])
  {
    forall i {:trigger FaithfulEvent(log, buffer[k..][i].event)} | 0 <= i < |buffer| - k
      ensures FaithfulEvent(log, buffer[k..][i].event)
    {
      assert FaithfulEvent(log, buffer[k + i].event);
    }
  }

  lemma {:induction false} ReplayMirrors(log: Log, state: DepthState, buffer: seq<DepthInput>)
    requires StateMirrors(log, state) && AllFaithful(log, buffer)
    ensures var r := Replay(state, buffer);
            && (r.Synchronized? ==> StateMirrors(log, r.state))
            && (r.GapAt? ==> AllFaithful(log, r.rest))
    decreases buffer
  {
    if buffer != [] {
      assert FaithfulEvent(log, buffer[0].event);
      AppliedMirrors(log, state, buffer[0].event);
      AllFaithfulTail(log, buffer, 1);
      match ApplyEvent(state, buffer[0].event)
      case Skipped => ReplayMirrors(log, state, buffer[1..]);
      case Gap =>
      case Applied(next) => ReplayMirrors(log, next, buffer[1..]);
      case Malformed =>
    }
  }

  lemma PublishTruthful(cfg: Config, log: Log, s: Sync, handlerOk: bool)
    requires Truthful(cfg, log, s) && s.state.Some?
    ensures Truthful(cfg, log, Publish(cfg, s, handlerOk))
  {
    var book, view := s.state.value, ViewOf(cfg, s);
    MirrorShowsBook(book.bids, log, book.lastUpdateID as int, Bid, cfg.viewDepth);
    MirrorShowsBook(book.asks, log, book.lastUpdateID as int, Ask, cfg.viewDepth);
    var views := s.published + [view];
    forall i {:trigger ShowsExchangeBook(cfg, log, views[i])} | 0 <= i < |views|
      ensures ShowsExchangeBook(cfg, log, views[i])
    {
      if i < |s.published| {
        assert ShowsExchangeBook(cfg, log, s.published[i]);
      }
    }
  }

  lemma SnapshotStateMirrors(log: Log, snapshot: OrderBook)
    requires ValidSnapshot(snapshot) && FaithfulSnapshot(log, snapshot)
    ensures StateMirrors(log, FromSnapshot(snapshot))
  {
    CompleteRowsMirror(RowsOf(snapshot.bids), log, snapshot.lastUpdateID as int, Bid);
    CompleteRowsMirror(RowsOf(snapshot.asks), log, snapshot.lastUpdateID as int, Ask);
  }

  lemma TrimmedTruthful(cfg: Config, log: Log, s: Sync)
    requires Truthful(cfg, log, s) && s.pending.Some?
    ensures Truthful(cfg, log, Trimmed(s))
  {
    var k := DropStaleSuffix(s.buffer, s.pending.value.lastUpdateID);
    AllFaithfulTail(log, s.buffer, k);
  }

  lemma ConcludeTruthful(cfg: Config, log: Log, s: Sync, replayed: Replayed)
    requires Truthful(cfg, log, s)
    requires replayed.Synchronized? ==> StateMirrors(log, replayed.state)
    requires replayed.GapAt? ==> AllFaithful(log, replayed.rest)
    ensures Truthful(cfg, log, Conclude(s, replayed).0)
  {
  }

  lemma RetryTruthful(cfg: Config, log: Log, s: Sync)
    requires Truthful(cfg, log, s)
    ensures Truthful(cfg, log, s.(pending := None, retryArmed := true))
  {
  }

  lemma AttemptIs(s: Sync, r: Sync)
    requires PendingValid(s) && r == TrySynchronize(s).0
    requires s.pending.Some? && s.buffer != []
    ensures || r == Trimmed(s)
            || r == Trimmed(s).(pending := None, retryArmed := true)
            || r == Conclude(Trimmed(s), Replay(FromSnapshot(s.pending.value), Trimmed(s).buffer)).0
  {
  }

  lemma AttemptTruthful(cfg: Config, log: Log, s: Sync, r: Sync)
    requires Truthful(cfg, log, s) && r == TrySynchronize(s).0
    ensures Truthful(cfg, log, r)
  {
    if s.pending.Some? && s.buffer != [] {
      AttemptIs(s, r);
      var t, snapshot := Trimmed(s), s.pending.value;
      TrimmedTruthful(cfg, log, s);
      if r == t {
      } else if r == t.(pending := None, retryArmed := true) {
        RetryTruthful(cfg, log, t);
      } else {
        SnapshotStateMirrors(log, snapshot);
        var replayed := Replay(FromSnapshot(snapshot), t.buffer);
        ReplayMirrors(log, FromSnapshot(snapshot), t.buffer);
        ConcludeTruthful(cfg, log, t, replayed);
      }
    }
  }

  lemma SynchronizeTruthful(cfg: Config, log: Log, s: Sync, handlerOk: bool)
    requires Truthful(cfg, log, s)
    ensures Truthful(cfg, log, SynchronizeAndPublish(cfg, s, handlerOk))
  {
    var (t, synchronized) := TrySynchronize(s);
    AttemptTruthful(cfg, log, s, t);
    if synchronized {
      PublishTruthful(cfg, log, t, handlerOk);
    }
  }

  lemma BufferedTruthful(cfg: Config, log: Log, s: Sync, input: DepthInput)
    requires Truthful(cfg, log, s) && FaithfulEvent(log, input.event)
    ensures Truthful(cfg, log, s.(buffer := s.buffer + [input]))
  {
    var buffer := s.buffer + [input];
    forall i {:trigger FaithfulEvent(log, buffer[i].event)} | 0 <= i < |buffer|
      ensures FaithfulEvent(log, buffer[i].event)
    {
      if i < |s.buffer| {
        assert FaithfulEvent(log, s.buffer[i].event);
      }
    }
  }

  lemma LiveTruthful(cfg: Config, log: Log, s: Sync, input: DepthInput, handlerOk: bool)
    requires Truthful(cfg, log, s) && s.state.Some? && FaithfulEvent(log, input.event)
    ensures Truthful(cfg, log, OnLive(cfg, s, input, handlerOk))
  {
    AppliedMirrors(log, s.state.value, input.event);
    match ApplyEvent(s.state.value, input.event)
    case Applied(book) => PublishTruthful(cfg, log, s.(state := Some(book)), handlerOk);
    case _ =>
  }

  lemma InputTruthful(cfg: Config, log: Log, s: Sync, input: DepthInput, handlerOk: bool)
    requires Truthful(cfg, log, s)
    requires Accepted(cfg, input) ==> FaithfulEvent(log, input.event)
    ensures Truthful(cfg, log, OnInput(cfg, s, input, handlerOk))
  {
    if Accepted(cfg, input) && input.generation >= s.generation {
      var t := EnterGeneration(s, input.generation);
      if t.state.Some? {
        LiveTruthful(cfg, log, t, input, handlerOk);
      } else {
        BufferedTruthful(cfg, log, t, input);
        SynchronizeTruthful(cfg, log, t.(buffer := t.buffer + [input]), handlerOk);
      }
    }
  }

  lemma StepTruthful(cfg: Config, log: Log, s: Sync, a: Arrival)
    requires Truthful(cfg, log, s) && Faithful(cfg, log, a)
    ensures Truthful(cfg, log, Step(cfg, s, a))
  {
    if Ready(s, a) {
      match a
      case InputArrives(input, handlerOk) => InputTruthful(cfg, log, s, input, handlerOk);
      case SnapshotArrives(result, handlerOk) =>
        if result.Some? && ValidSnapshot(result.value) {
          SynchronizeTruthful(cfg, log, s.(fetching := false, pending := result), handlerOk);
        }
      case _ =>
    }
  }

  lemma {:induction false} RunTruthful(cfg: Config, log: Log, arrivals: seq<Arrival>)
    requires forall i | 0 <= i < |arrivals| :: Faithful(cfg, log, arrivals[i])
    ensures Truthful(cfg, log, Run(cfg, arrivals))
  {
    if arrivals != [] {
      var n := |arrivals| - 1;
      RunTruthful(cfg, log, arrivals[..n]);
      StepTruthful(cfg, log, Run(cfg, arrivals[..n]), arrivals[n]);
    }
  }

  /** Over every interleaving of events, snapshots however late, failures, retries and
      reconnects: if the messages that pass validation are true of one exchange log, every view
      the handler ever gets shows the exchange's own book at the view's update id. */
  lemma PublishesExchangeBook(cfg: Config, log: Log, arrivals: seq<Arrival>, i: nat)
    requires forall i | 0 <= i < |arrivals| :: Faithful(cfg, log, arrivals[i])
    requires i < |Run(cfg, arrivals).published|
    ensures ShowsExchangeBook(cfg, log, Run(cfg, arrivals).published[i])
  {
    RunTruthful(cfg, log, arrivals);
  }

  // ---------- Synchronisation happens ----------

  ghost predicate Adjoins(buffer: seq<DepthInput>, i: nat)
    requires i < |buffer|
  {
    && buffer[i].event.firstUpdateID <= buffer[i].event.finalUpdateID
    && (i > 0 ==>
          buffer[i].event.firstUpdateID as int == buffer[i - 1].event.finalUpdateID as int + 1)
  }

  /** Each buffered event begins where the one before it ended. */
  ghost predicate Contiguous(buffer: seq<DepthInput>) {
    forall i {:trigger Adjoins(buffer, i)} | 0 <= i < |buffer| :: Adjoins(buffer, i)
  }

  lemma ContiguousTail(buffer: seq<DepthInput>)
    requires Contiguous(buffer) && |buffer| > 1
    ensures Contiguous(buffer[1..])
    ensures buffer[0].event.finalUpdateID as int + 1 == buffer[1].event.firstUpdateID as int
    ensures buffer[0].event.finalUpdateID < buffer[1].event.finalUpdateID
  {
    assert Adjoins(buffer, 1);
    forall i {:trigger Adjoins(buffer[1..], i)} | 0 <= i < |buffer| - 1
      ensures Adjoins(buffer[1..], i)
    {
      assert Adjoins(buffer, i + 1) && Adjoins(buffer, i);
    }
  }

  ghost predicate Reaches(buffer: seq<DepthInput>, id: int64) {
    && buffer != []
    && buffer[0].event.firstUpdateID as int <= id as int + 1
    && id < buffer[|buffer| - 1].event.finalUpdateID
  }

  lemma {:induction false} DropStaleContiguous(buffer: seq<DepthInput>, id: int64)
    requires Contiguous(buffer) && Reaches(buffer, id)
    ensures var rest := DropStale(buffer, id);
            && Contiguous(rest) && Reaches(rest, id)
            && rest[|rest| - 1] == buffer[|buffer| - 1]
  {
    if buffer[0].event.finalUpdateID <= id {
      ContiguousTail(buffer);
      DropStaleContiguous(buffer[1..], id);
    }
  }

  lemma {:induction false} ReplayContiguous(cfg: Config, state: DepthState, s: Sync)
    requires BufferOk(cfg, s) && Contiguous(s.buffer) && s.buffer != []
    requires s.buffer[0].event.firstUpdateID as int <= state.lastUpdateID as int + 1
    requires s.buffer[0].event.finalUpdateID > state.lastUpdateID
    ensures var r := Replay(state, s.buffer);
            && r.Synchronized? && r.state.lastUpdateID == s.buffer[|s.buffer| - 1].event.finalUpdateID
            && r.state.eventTime == s.buffer[|s.buffer| - 1].event.eventTime
    decreases s.buffer
  {
    assert Accepted(cfg, s.buffer[0]);
    if |s.buffer| > 1 {
      BufferSuffix(cfg, s, 1);
      ContiguousTail(s.buffer);
      ReplayContiguous(cfg, ApplyEvent(state, s.buffer[0].event).state, s.(buffer := s.buffer[1..]));
    }
  }

  /** With an unbroken buffer, an arriving snapshot leads to a publication exactly when the
      buffer reaches from the snapshot to beyond it, and then at the last buffered event. */
  lemma BridgingSnapshotPublishes(
    cfg: Config, arrivals: seq<Arrival>, snapshot: OrderBook, handlerOk: bool, s: Sync, t: Sync)
    requires cfg.maxBufferedEvents > 0 && s == Run(cfg, arrivals)
    requires s.stop.None? && s.fetching && Contiguous(s.buffer) && ValidSnapshot(snapshot)
    requires t == Step(cfg, s, SnapshotArrives(Some(snapshot), handlerOk))
    ensures |t.published| == |s.published| + 1 <==> Reaches(s.buffer, snapshot.lastUpdateID)
    ensures |t.published| == |s.published| + 1 ==>
              s.buffer != []
              && t.published[|s.published|].lastUpdateID == s.buffer[|s.buffer| - 1].event.finalUpdateID
    ensures |t.published| != |s.published| + 1 ==> t.published == s.published
  {
    var p := s.(fetching := false, pending := Some(snapshot));
    FetchingCanAttempt(cfg, arrivals, snapshot, s, p);
    var (u, synchronized) := TrySynchronize(p);
    AttemptDecides(cfg, p, u, synchronized);
    SnapshotIsAttempt(cfg, s, snapshot, handlerOk, t, u, synchronized);
  }

  lemma FetchingCanAttempt(cfg: Config, arrivals: seq<Arrival>, snapshot: OrderBook, s: Sync, p: Sync)
    requires cfg.maxBufferedEvents > 0 && s == Run(cfg, arrivals)
    requires s.stop.None? && s.fetching && ValidSnapshot(snapshot)
    requires p == s.(fetching := false, pending := Some(snapshot))
    ensures PendingValid(s) && Attempting(cfg, p)
  {
    RunKeepsInv(cfg, arrivals);
  }

  /** An attempt on adjoining events succeeds exactly when they reach over the snapshot. */
  lemma AttemptDecides(cfg: Config, p: Sync, u: Sync, synchronized: bool)
    requires Attempting(cfg, p) && Contiguous(p.buffer) && (u, synchronized) == TrySynchronize(p)
    ensures synchronized <==> Reaches(p.buffer, p.pending.value.lastUpdateID)
    ensures u.published == p.published
    ensures synchronized ==>
              u.state.Some? && u.state.value.lastUpdateID == p.buffer[|p.buffer| - 1].event.finalUpdateID
  {
    if Reaches(p.buffer, p.pending.value.lastUpdateID) {
      AttemptSucceeds(cfg, p);
    } else {
      NothingReached(cfg, p);
      AttemptOutcome(cfg, p);
    }
  }

  /** What a valid snapshot does to a waiting book is one attempt, published if it succeeds. */
  lemma SnapshotIsAttempt(
    cfg: Config, s: Sync, snapshot: OrderBook, handlerOk: bool, t: Sync, u: Sync, synchronized: bool)
    requires s.stop.None? && s.fetching && ValidSnapshot(snapshot) && PendingValid(s)
    requires t == Step(cfg, s, SnapshotArrives(Some(snapshot), handlerOk))
    requires (u, synchronized) == TrySynchronize(s.(fetching := false, pending := Some(snapshot)))
    ensures synchronized ==>
              && u.state.Some? && |t.published| == |u.published| + 1
              && t.published[|u.published|].lastUpdateID == u.state.value.lastUpdateID
    ensures !synchronized ==> t.published == u.published
  {
  }

  lemma AttemptInstalls(s: Sync, book: DepthState)
    requires PendingValid(s) && s.pending.Some? && s.buffer != [] && Trimmed(s).buffer != []
    requires Trimmed(s).buffer[0].event.firstUpdateID as int <= s.pending.value.lastUpdateID as int + 1
    requires Replay(FromSnapshot(s.pending.value), Trimmed(s).buffer) == Synchronized(book)
    ensures TrySynchronize(s).1 && TrySynchronize(s).0.state == Some(book)
    ensures TrySynchronize(s).0.published == s.published
  {
  }

  lemma AttemptSucceeds(cfg: Config, s: Sync)
    requires Attempting(cfg, s) && Contiguous(s.buffer)
    requires Reaches(s.buffer, s.pending.value.lastUpdateID)
    ensures var (t, synchronized) := TrySynchronize(s);
            && synchronized && t.published == s.published
            && t.state.value.lastUpdateID == s.buffer[|s.buffer| - 1].event.finalUpdateID
  {
    var snapshot := s.pending.value;
    DropStaleContiguous(s.buffer, snapshot.lastUpdateID);
    DropStaleKeepsBuffer(cfg, s, snapshot.lastUpdateID);
    ReplayContiguous(cfg, FromSnapshot(snapshot), Trimmed(s));
    AttemptInstalls(s, Replay(FromSnapshot(snapshot), Trimmed(s).buffer).state);
  }

  lemma NothingReached(cfg: Config, s: Sync)
    requires Attempting(cfg, s) && Contiguous(s.buffer)
    requires !Reaches(s.buffer, s.pending.value.lastUpdateID)
    ensures !TrySynchronize(s).1
  {
    var id := s.pending.value.lastUpdateID;
    assert Adjoins(s.buffer, 0);
    if s.buffer[|s.buffer| - 1].event.finalUpdateID <= id {
      AllStale(s.buffer, id);
    } else {
      assert Trimmed(s).buffer == s.buffer;
    }
  }

  lemma {:induction false} AllStale(buffer: seq<DepthInput>, id: int64)
    requires Contiguous(buffer) && buffer != []
    requires buffer[|buffer| - 1].event.finalUpdateID <= id
    ensures DropStale(buffer, id) == []
    ensures buffer[0].event.finalUpdateID <= buffer[|buffer| - 1].event.finalUpdateID
  {
    if |buffer| > 1 {
      ContiguousTail(buffer);
      AllStale(buffer[1..], id);
    }
  }
}
