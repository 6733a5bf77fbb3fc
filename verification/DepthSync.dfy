/** What the Binance synchroniser (exchange/binance/local_order_book.go) does on each select
    case, as a function from state to state, and what that means over whole runs. */
module DepthSync {
  import opened Results
  import opened Integers
  import opened BookLevels

  // ---------- Messages ----------

  datatype DepthEvent = DepthEvent(
    eventType: string, eventTime: int, symbol: string,
    firstUpdateID: int64, finalUpdateID: int64, bids: seq<Row>, asks: seq<Row>)

  datatype DepthInput = DepthInput(generation: nat, event: DepthEvent)

  datatype OrderBook = OrderBook(lastUpdateID: int64, bids: seq<BookLevel>, asks: seq<BookLevel>)

  datatype LocalOrderBookView = LocalOrderBookView(
    symbol: string, generation: nat, synchronizationID: nat, gapCount: nat,
    lastUpdateID: int64, eventTime: int, bids: seq<BookLevel>, asks: seq<BookLevel>)

  datatype Config = Config(symbol: string, maxBufferedEvents: nat, viewDepth: nat)

  datatype Stop =
    | GenerationZero | UnexpectedEvent | InvalidUpdateIDs | InvalidLevel
    | InvalidSnapshot | BufferOverflow | HandlerError | ContextDone | StreamDone

  ghost predicate EventRowsValid(event: DepthEvent) {
    ValidRows(event.bids) && ValidRows(event.asks)
  }

  /** `validateInput`: the first complaint, if any. */
  ghost function ValidateInput(symbol: string, input: DepthInput): Option<Stop> {
    var event := input.event;
    if input.generation == 0 then Some(GenerationZero)
    else if event.eventType != "depthUpdate" || event.symbol != symbol then Some(UnexpectedEvent)
    else if event.firstUpdateID <= 0 || event.finalUpdateID < event.firstUpdateID then Some(InvalidUpdateIDs)
    else if !EventRowsValid(event) then Some(InvalidLevel)
    else None
  }

  /** `validateDepthSnapshot`. */
  ghost predicate ValidSnapshot(snapshot: OrderBook) {
    && 0 < snapshot.lastUpdateID < MAX_INT64 as int64
    && ValidRows(RowsOf(snapshot.bids)) && ValidRows(RowsOf(snapshot.asks))
  }

  // ---------- The book ----------

  datatype DepthState = DepthState(bids: Levels, asks: Levels, lastUpdateID: int64, eventTime: int)

  datatype ApplyResult = Skipped | Gap | Applied(state: DepthState) | Malformed

  /** `localDepthState.apply`. The sum below cannot overflow: a book at the largest id has
      already skipped every event. */
  ghost function ApplyEvent(state: DepthState, event: DepthEvent): ApplyResult {
    if event.finalUpdateID <= state.lastUpdateID then Skipped
    else if event.firstUpdateID > state.lastUpdateID + 1 then Gap
    else if !EventRowsValid(event) then Malformed
    else Applied(DepthState(ApplyRows(state.bids, event.bids), ApplyRows(state.asks, event.asks),
                            event.finalUpdateID, event.eventTime))
  }

  /** `newLocalDepthState`. */
  ghost function FromSnapshot(snapshot: OrderBook): DepthState
    requires ValidSnapshot(snapshot)
  {
    DepthState(ApplyRows(map[], RowsOf(snapshot.bids)), ApplyRows(map[], RowsOf(snapshot.asks)),
               snapshot.lastUpdateID, 0)
  }

  // ---------- The synchroniser ----------

  datatype Sync = Sync(
    buffer: seq<DepthInput>, generation: nat, state: Option<DepthState>,
    pending: Option<OrderBook>, synchronizationID: nat, gapCount: nat,
    fetching: bool, retryArmed: bool,
    published: seq<LocalOrderBookView>, stop: Option<Stop>)

  ghost predicate PendingValid(s: Sync) {
    s.pending.Some? ==> ValidSnapshot(s.pending.value)
  }

  ghost const START := Sync([], 0, None, None, 0, 0, false, false, [], None)

  ghost function StartSnapshot(s: Sync): Sync {
    if s.fetching then s else s.(retryArmed := false, fetching := true)
  }

  ghost function ViewOf(cfg: Config, s: Sync): LocalOrderBookView
    requires s.state.Some?
  {
    var book := s.state.value;
    LocalOrderBookView(
      cfg.symbol, s.generation, s.synchronizationID, s.gapCount, book.lastUpdateID, book.eventTime,
      View(book.bids, cfg.viewDepth, true), View(book.asks, cfg.viewDepth, false))
  }

  ghost function Publish(cfg: Config, s: Sync, handlerOk: bool): Sync
    requires s.state.Some?
  {
    s.(published := s.published + [ViewOf(cfg, s)],
       stop := if handlerOk then None else Some(HandlerError))
  }

  /** The events that end at or before the snapshot are dropped from the front. */
  ghost function DropStale(buffer: seq<DepthInput>, id: int64): (rest: seq<DepthInput>)
    ensures rest != [] ==> rest[0].event.finalUpdateID > id
  {
    if buffer != [] && buffer[0].event.finalUpdateID <= id then DropStale(buffer[1..], id) else buffer
  }

  datatype Replayed = Synchronized(state: DepthState) | GapAt(rest: seq<DepthInput>) | Broken

  /** Apply a buffer to a candidate book; a gap leaves the gap event and everything behind it. */
  ghost function Replay(state: DepthState, buffer: seq<DepthInput>): Replayed
    decreases buffer
  {
    if buffer == [] then Synchronized(state)
    else
      match ApplyEvent(state, buffer[0].event)
      case Skipped => Replay(state, buffer[1..])
      case Gap => GapAt(buffer)
      case Applied(next) => Replay(next, buffer[1..])
      case Malformed => Broken
  }

  /** What a finished replay leads to. */
  ghost function Conclude(s: Sync, replayed: Replayed): (r: (Sync, bool))
    requires PendingValid(s)
    ensures r.1 <==> replayed.Synchronized?
    ensures r.1 ==> r.0.state.Some?
    ensures PendingValid(r.0)
  {
    match replayed
    case Synchronized(book) =>
      (s.(state := Some(book), pending := None, buffer := [],
          synchronizationID := s.synchronizationID + 1), true)
    case GapAt(rest) =>
      (s.(gapCount := s.gapCount + 1, buffer := rest, pending := None, retryArmed := true), false)
    case Broken => (s.(stop := Some(InvalidLevel)), false)
  }

  ghost function Trimmed(s: Sync): Sync
    requires s.pending.Some?
  {
    s.(buffer := DropStale(s.buffer, s.pending.value.lastUpdateID))
  }

  /** `trySynchronize`; the second result says whether a book was installed. */
  ghost function TrySynchronize(s: Sync): (r: (Sync, bool))
    requires PendingValid(s)
    ensures r.1 ==> r.0.state.Some?
    ensures PendingValid(r.0)
  {
    if s.pending.None? || s.buffer == [] then (s, false)
    else
      var t := Trimmed(s);
      if t.buffer == [] then (t, false)
      else if t.buffer[0].event.firstUpdateID > s.pending.value.lastUpdateID + 1 then
        (t.(pending := None, retryArmed := true), false)
      else Conclude(t, Replay(FromSnapshot(s.pending.value), t.buffer))
  }

  ghost function SynchronizeAndPublish(cfg: Config, s: Sync, handlerOk: bool): (t: Sync)
    requires PendingValid(s)
    ensures PendingValid(t)
  {
    var (t, synchronized) := TrySynchronize(s);
    if synchronized then Publish(cfg, t, handlerOk) else t
  }

  ghost function OnSnapshot(cfg: Config, s: Sync, result: Option<OrderBook>, handlerOk: bool): (t: Sync)
    requires PendingValid(s)
    ensures PendingValid(t)
  {
    var t := s.(fetching := false);
    if result.None? then t.(retryArmed := true)
    else if !ValidSnapshot(result.value) then t.(stop := Some(InvalidSnapshot))
    else SynchronizeAndPublish(cfg, t.(pending := result), handlerOk)
  }

  ghost function StartWhenIdle(s: Sync): Sync {
    if s.stop.None? && s.state.None? && s.pending.None? && !s.fetching && !s.retryArmed
    then StartSnapshot(s) else s
  }

  /** A newer generation forgets everything learnt on the older connection. */
  ghost function EnterGeneration(s: Sync, generation: nat): Sync {
    if s.generation == 0 || generation > s.generation
    then s.(generation := generation, state := None, pending := None, buffer := []) else s
  }

  ghost function OnLive(cfg: Config, s: Sync, input: DepthInput, handlerOk: bool): (t: Sync)
    requires s.state.Some? && PendingValid(s)
    ensures PendingValid(t)
  {
    match ApplyEvent(s.state.value, input.event)
    case Skipped => s
    case Gap =>
      StartSnapshot(s.(gapCount := s.gapCount + 1, state := None, pending := None, buffer := [input]))
    case Applied(book) => Publish(cfg, s.(state := Some(book)), handlerOk)
    case Malformed => s.(stop := Some(InvalidLevel))
  }

  ghost function OnBuffering(cfg: Config, s: Sync, input: DepthInput, handlerOk: bool): (t: Sync)
    requires PendingValid(s)
    ensures PendingValid(t)
  {
    var t := s.(buffer := s.buffer + [input]);
    if |t.buffer| > cfg.maxBufferedEvents then t.(stop := Some(BufferOverflow))
    else StartWhenIdle(SynchronizeAndPublish(cfg, t, handlerOk))
  }

  ghost function OnInput(cfg: Config, s: Sync, input: DepthInput, handlerOk: bool): (t: Sync)
    requires PendingValid(s)
    ensures PendingValid(t)
  {
    var complaint := ValidateInput(cfg.symbol, input);
    if complaint.Some? then s.(stop := complaint)
    else if input.generation < s.generation then s
    else
      var t := EnterGeneration(s, input.generation);
      if t.state.Some? then OnLive(cfg, t, input, handlerOk) else OnBuffering(cfg, t, input, handlerOk)
  }

  /** What the select statement can receive. A handler outcome is part of the arrival that
      may lead to a call of the handler. */
  datatype Arrival =
    | InputArrives(input: DepthInput, handlerOk: bool)
    | SnapshotArrives(result: Option<OrderBook>, handlerOk: bool)
    | RetryFires
    | ContextEnds
    | StreamEnds

  /** A snapshot result exists only while one is being fetched, a timer fires only when armed. */
  predicate Ready(s: Sync, a: Arrival) {
    && s.stop.None?
    && (a.SnapshotArrives? ==> s.fetching)
    && (a.RetryFires? ==> s.retryArmed)
  }

  ghost function Step(cfg: Config, s: Sync, a: Arrival): (t: Sync)
    requires PendingValid(s)
    ensures PendingValid(t)
  {
    if !Ready(s, a) then s
    else
      match a
      case InputArrives(input, handlerOk) => OnInput(cfg, s, input, handlerOk)
      case SnapshotArrives(result, handlerOk) => OnSnapshot(cfg, s, result, handlerOk)
      case RetryFires => StartSnapshot(s.(retryArmed := false))
      case ContextEnds => s.(stop := Some(ContextDone))
      case StreamEnds => s.(stop := Some(StreamDone))
  }

  ghost function Run(cfg: Config, arrivals: seq<Arrival>): (s: Sync)
    ensures PendingValid(s)
  {
    if arrivals == [] then START
    else Step(cfg, Run(cfg, arrivals[..|arrivals| - 1]), arrivals[|arrivals| - 1])
  }
}
