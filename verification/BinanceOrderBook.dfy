/** The Binance local order book (exchange/binance/local_order_book.go) in its own form: a book
    object changed in place and the variables of `runInputs`, one method per select case. */
module BinanceOrderBook {
  import opened Results
  import opened Integers
  import opened BookLevels
  import opened DepthSync
  import opened DepthSyncRuns

  class LocalDepthState {
    var bids: Levels
    var asks: Levels
    var lastUpdateID: int64
    var eventTime: int

    ghost function Abs(): DepthState
      reads this
    {
      DepthState(bids, asks, lastUpdateID, eventTime)
    }

    ghost predicate Valid()
      reads this
    {
      WellFormed(bids) && WellFormed(asks)
    }

    constructor Empty(id: int64)
      ensures Abs() == DepthState(map[], map[], id, 0)
    {
      bids, asks, lastUpdateID, eventTime := map[], map[], id, 0;
    }

    /** `newLocalDepthState`; null stands for its error. */
    static method FromSnapshot(snapshot: OrderBook) returns (state: LocalDepthState?)
      ensures state == null <==> !(ValidRows(RowsOf(snapshot.bids)) && ValidRows(RowsOf(snapshot.asks)))
      ensures state != null ==>
                && fresh(state) && state.Valid()
                && state.Abs() == DepthState(
                     ApplyRows(map[], RowsOf(snapshot.bids)), ApplyRows(map[], RowsOf(snapshot.asks)),
                     snapshot.lastUpdateID, 0)
    {
      var built := new LocalDepthState.Empty(snapshot.lastUpdateID);
      var bidsOk, newBids := ApplyLocalLevels(built.bids, RowsOf(snapshot.bids));
      if !bidsOk {
        return null;
      }
      built.bids := newBids;
      var asksOk, newAsks := ApplyLocalLevels(built.asks, RowsOf(snapshot.asks));
      if !asksOk {
        return null;
      }
      built.asks := newAsks;
      ApplyRowsMeaning(map[], RowsOf(snapshot.bids));
      ApplyRowsMeaning(map[], RowsOf(snapshot.asks));
      return built;
    }

    method Apply(event: DepthEvent) returns (applied: bool, gap: bool, failed: bool)
      requires Valid()
      modifies this
      ensures !failed ==> Valid()
      ensures match ApplyEvent(old(Abs()), event)
              case Skipped => !applied && !gap && !failed && Abs() == old(Abs())
              case Gap => !applied && gap && !failed && Abs() == old(Abs())
              case Applied(next) => applied && !gap && !failed && Abs() == next
              case Malformed => !applied && !gap && failed
    {
      if event.finalUpdateID <= lastUpdateID {
        return false, false, false;
      }
      if event.firstUpdateID > lastUpdateID + 1 {
        return false, true, false;
      }
      var bidsOk, newBids := ApplyLocalLevels(bids, event.bids);
      if !bidsOk {
        return false, false, true;
      }
      ApplyRowsMeaning(bids, event.bids);
      bids := newBids;
      var asksOk, newAsks := ApplyLocalLevels(asks, event.asks);
      if !asksOk {
        return false, false, true;
      }
      ApplyRowsMeaning(asks, event.asks);
      asks := newAsks;
      lastUpdateID := event.finalUpdateID;
      eventTime := event.eventTime;
      return true, false, false;
    }
  }

  class LocalOrderBook {
    const cfg: Config

    var buffer: seq<DepthInput>
    var currentGeneration: nat
    var state: LocalDepthState?
    var pendingSnapshot: Option<OrderBook>
    var synchronizationID: nat
    var gapCount: nat
    var fetching: bool
    var retryArmed: bool
    /** What the handler was given, and the value `runInputs` returned. */
    var published: seq<LocalOrderBookView>
    var stop: Option<Stop>

    ghost function Abs(): Sync
      reads this, state
    {
      Sync(buffer, currentGeneration, if state == null then None else Some(state.Abs()),
           pendingSnapshot, synchronizationID, gapCount, fetching, retryArmed, published, stop)
    }

    ghost predicate Valid()
      reads this, state
    {
      && cfg.maxBufferedEvents > 0
      && PendingValid(Abs())
      && (state != null ==> state.Valid())
    }

    constructor (cfg: Config)
      requires cfg.maxBufferedEvents > 0
      ensures Valid() && Abs() == START && this.cfg == cfg
    {
      this.cfg := cfg;
      buffer, currentGeneration, state, pendingSnapshot := [], 0, null, None;
      synchronizationID, gapCount, fetching, retryArmed := 0, 0, false, false;
      published, stop := [], None;
    }

    method StartSnapshotFetch()
      requires Valid()
      modifies this
      ensures Valid() && state == old(state)
      ensures Abs() == StartSnapshot(old(Abs()))
    {
      if fetching {
        return;
      }
      retryArmed := false;
      fetching := true;
    }

    method PublishView(handlerOk: bool)
      requires Valid() && state != null && stop.None?
      modifies this
      ensures Valid() && state == old(state)
      ensures Abs() == Publish(cfg, old(Abs()), handlerOk)
    {
      var bidRows := SortedLocalLevels(state.bids, cfg.viewDepth, true);
      var askRows := SortedLocalLevels(state.asks, cfg.viewDepth, false);
      published := published + [LocalOrderBookView(
        cfg.symbol, currentGeneration, synchronizationID, gapCount,
        state.lastUpdateID, state.eventTime, bidRows, askRows)];
      if !handlerOk {
        stop := Some(HandlerError);
      }
    }

    /** How many events at the front the snapshot already contains. */
    static method FirstRelevant(buffer: seq<DepthInput>, id: int64) returns (first: nat)
      ensures first <= |buffer| && DropStale(buffer, id) == buffer[first..]
    {
      first := 0;
      while first < |buffer| && buffer[first].event.finalUpdateID <= id
        invariant first <= |buffer|
        invariant DropStale(buffer[first..], id) == DropStale(buffer, id)
      {
        assert buffer[first..][1..] == buffer[first + 1..];
        first := first + 1;
      }
    }

    /** Replay the buffer onto a candidate; `index` is where a gap or an error stopped it. */
    method ReplayBuffer(candidate: LocalDepthState) returns (index: nat, gap: bool, failed: bool)
      requires candidate.Valid() && candidate != state
      modifies candidate
      ensures index <= |buffer|
      ensures match Replay(old(candidate.Abs()), buffer)
              case Synchronized(book) => !gap && !failed && candidate.Valid() && candidate.Abs() == book
              case GapAt(rest) => gap && !failed && rest == buffer[index..]
              case Broken => !gap && failed
    {
      index := 0;
      while index < |buffer|
        invariant index <= |buffer| && candidate.Valid()
        invariant Replay(candidate.Abs(), buffer[index..]) == Replay(old(candidate.Abs()), buffer)
      {
        assert buffer[index..][1..] == buffer[index + 1..];
        var applied;
        applied, gap, failed := candidate.Apply(buffer[index].event);
        if failed || gap {
          return;
        }
        index := index + 1;
      }
      return index, false, false;
    }

    method Synchronize() returns (synchronized: bool)
      requires Valid() && stop.None?
      modifies this
      ensures Valid() && (state == old(state) || fresh(state))
      ensures (Abs(), synchronized) == TrySynchronize(old(Abs()))
    {
      if pendingSnapshot.None? || |buffer| == 0 {
        return false;
      }
      var snapshot := pendingSnapshot.value;
      var firstRelevant := FirstRelevant(buffer, snapshot.lastUpdateID);
      buffer := buffer[firstRelevant..];
      if |buffer| == 0 {
        return false;
      }
      if snapshot.lastUpdateID == MAX_INT64 as int64 {
        assert false;
      }
      if buffer[0].event.firstUpdateID > snapshot.lastUpdateID + 1 {
        pendingSnapshot := None;
        retryArmed := true;
        return false;
      }
      var candidate := BuildCandidate(snapshot);
      var index, gap, failed := ReplayBuffer(candidate);
      synchronized := Finish(candidate, index, gap, failed);
    }

    /** A validated snapshot always builds. */
    static method BuildCandidate(snapshot: OrderBook) returns (candidate: LocalDepthState)
      requires ValidSnapshot(snapshot)
      ensures fresh(candidate) && candidate.Valid() && candidate.Abs() == FromSnapshot(snapshot)
    {
      var built := LocalDepthState.FromSnapshot(snapshot);
      if built == null {
        assert false;
      }
      candidate := built;
    }

    /** Make the replayed candidate the book, unless the buffer had a gap. */
    method Finish(candidate: LocalDepthState, index: nat, gap: bool, failed: bool)
      returns (synchronized: bool)
      requires Valid() && index <= |buffer|
      requires !gap && !failed ==> candidate.Valid()
      modifies this
      ensures Valid()
      ensures !gap && !failed ==> state == candidate
      ensures gap || failed ==> state == old(state)
      ensures (Abs(), synchronized) == Conclude(old(Abs()),
                if failed then Broken else if gap then GapAt(old(buffer)[index..])
                else Synchronized(candidate.Abs()))
    {
      if failed {
        stop := Some(InvalidLevel);
        return false;
      }
      if gap {
        gapCount := gapCount + 1;
        buffer := buffer[index..];
        pendingSnapshot := None;
        retryArmed := true;
        return false;
      }
      state := candidate;
      pendingSnapshot := None;
      buffer := [];
      synchronizationID := synchronizationID + 1;
      return true;
    }

    method SynchronizeThenPublish(handlerOk: bool)
      requires Valid() && stop.None?
      modifies this
      ensures Valid() && (state == old(state) || fresh(state))
      ensures Abs() == SynchronizeAndPublish(cfg, old(Abs()), handlerOk)
    {
      var synchronized := Synchronize();
      if synchronized {
        PublishView(handlerOk);
      }
    }

    method OnSnapshotResult(result: Option<OrderBook>, handlerOk: bool)
      requires Valid() && stop.None?
      modifies this
      ensures Valid() && (state == old(state) || fresh(state))
      ensures Abs() == OnSnapshot(cfg, old(Abs()), result, handlerOk)
    {
      fetching := false;
      if result.None? {
        retryArmed := true;
        return;
      }
      var valid := CheckSnapshot(result.value);
      if !valid {
        stop := Some(InvalidSnapshot);
        return;
      }
      pendingSnapshot := result;
      SynchronizeThenPublish(handlerOk);
    }

    method CheckSnapshot(snapshot: OrderBook) returns (valid: bool)
      ensures valid <==> ValidSnapshot(snapshot)
    {
      if snapshot.lastUpdateID <= 0 || snapshot.lastUpdateID == MAX_INT64 as int64 {
        return false;
      }
      var bidsOk := CheckRows(RowsOf(snapshot.bids));
      if !bidsOk {
        return false;
      }
      valid := CheckRows(RowsOf(snapshot.asks));
    }

    method CheckInput(input: DepthInput) returns (complaint: Option<Stop>)
      ensures complaint == ValidateInput(cfg.symbol, input)
    {
      if input.generation == 0 {
        return Some(GenerationZero);
      }
      var event := input.event;
      if event.eventType != "depthUpdate" || event.symbol != cfg.symbol {
        return Some(UnexpectedEvent);
      }
      if event.firstUpdateID <= 0 || event.finalUpdateID < event.firstUpdateID {
        return Some(InvalidUpdateIDs);
      }
      var bidsOk := CheckRows(event.bids);
      var asksOk := CheckRows(event.asks);
      return if bidsOk && asksOk then None else Some(InvalidLevel);
    }

    method OnInputEvent(input: DepthInput, handlerOk: bool)
      requires Valid() && stop.None? && Inv(cfg, Abs())
      modifies this, state
      ensures Valid() && (state == old(state) || fresh(state) || state == null)
      ensures Abs() == OnInput(cfg, old(Abs()), input, handlerOk)
    {
      var complaint := CheckInput(input);
      if complaint.Some? {
        stop := complaint;
        return;
      }
      if input.generation < currentGeneration {
        return;
      }
      if currentGeneration == 0 || input.generation > currentGeneration {
        currentGeneration := input.generation;
        state := null;
        pendingSnapshot := None;
        buffer := [];
      }
      if state != null {
        OnLiveEvent(input, handlerOk);
      } else {
        OnBufferedEvent(input, handlerOk);
      }
    }

    method OnLiveEvent(input: DepthInput, handlerOk: bool)
      requires Valid() && stop.None? && state != null && Accepted(cfg, input)
      modifies this, state
      ensures Valid() && (state == old(state) || state == null)
      ensures Abs() == OnLive(cfg, old(Abs()), input, handlerOk)
    {
      var applied, gap, failed := state.Apply(input.event);
      if failed {
        assert false;
      }
      if gap {
        gapCount := gapCount + 1;
        state := null;
        pendingSnapshot := None;
        buffer := [input];
        StartSnapshotFetch();
        return;
      }
      if applied {
        PublishView(handlerOk);
      }
    }

    method OnBufferedEvent(input: DepthInput, handlerOk: bool)
      requires Valid() && stop.None? && state == null
      modifies this
      ensures Valid() && (state == null || fresh(state))
      ensures Abs() == OnBuffering(cfg, old(Abs()), input, handlerOk)
    {
      buffer := buffer + [input];
      if |buffer| > cfg.maxBufferedEvents {
        stop := Some(BufferOverflow);
        return;
      }
      if pendingSnapshot.Some? {
        SynchronizeThenPublish(handlerOk);
        if stop.Some? {
          return;
        }
      }
      if state == null && pendingSnapshot.None? && !fetching && !retryArmed {
        StartSnapshotFetch();
      }
    }

    /** One turn of the select statement; a case that is not ready is never chosen. */
    method Receive(a: Arrival)
      requires Valid() && Inv(cfg, Abs())
      modifies this, state
      ensures Valid() && (state == old(state) || fresh(state) || state == null)
      ensures Abs() == Step(cfg, old(Abs()), a)
    {
      if stop.Some? {
        return;
      }
      match a
      case InputArrives(input, handlerOk) =>
        OnInputEvent(input, handlerOk);
      case SnapshotArrives(result, handlerOk) =>
        if fetching {
          OnSnapshotResult(result, handlerOk);
        }
      case RetryFires =>
        if retryArmed {
          retryArmed := false;
          StartSnapshotFetch();
        }
      case ContextEnds => stop := Some(ContextDone);
      case StreamEnds => stop := Some(StreamDone);
    }

    /** `runInputs` over the choices its select statement makes. */
    method RunInputs(arrivals: seq<Arrival>)
      requires Valid() && Abs() == START
      modifies this
      ensures Abs() == Run(cfg, arrivals)
    {
      for i := 0 to |arrivals|
        invariant Valid() && Abs() == Run(cfg, arrivals[..i])
        invariant state == null || fresh(state)
      {
        assert arrivals[..i + 1][..i] == arrivals[..i];
        RunKeepsInv(cfg, arrivals[..i]);
        Receive(arrivals[i]);
      }
      assert arrivals[..|arrivals|] == arrivals;
    }
  }
}
