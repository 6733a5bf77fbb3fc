/** The Bitget order book in its own form (exchange/bitget/local_order_book.go): the variables the
    handler closure captures and the book it changes in place. */
module BitgetHandler {
  import opened Results
  import opened BookLevels
  import opened BitgetOrderBook

  class LocalOrderBookState {
    var bids: Levels
    var asks: Levels
    var sequence: int
    var timestamp: int
    var maxDepth: Option<int>
    var bridged: bool

    ghost function Abs(): Book
      reads this
    {
      Book(bids, asks, sequence, timestamp, maxDepth, bridged)
    }

    ghost predicate Valid()
      reads this
    {
      WellFormed(bids) && WellFormed(asks)
    }

    constructor ()
      ensures Abs() == EMPTY_BOOK && Valid()
    {
      bids, asks, sequence, timestamp, maxDepth, bridged := map[], map[], 0, 0, None, false;
    }

    method Apply(update: Update, timestamp: int) returns (ok: bool)
      requires Valid()
      modifies this
      ensures ok <==> ValidRows(RowsOf(update.bids)) && ValidRows(RowsOf(update.asks))
      ensures ok ==> Valid() && Abs() == ApplyUpdate(old(Abs()), update, timestamp)
    {
      var bidsOk, newBids := ApplyLocalLevels(bids, RowsOf(update.bids));
      if !bidsOk {
        return false;
      }
      var asksOk, newAsks := ApplyLocalLevels(asks, RowsOf(update.asks));
      if !asksOk {
        return false;
      }
      ApplyRowsWellFormed(bids, RowsOf(update.bids));
      ApplyRowsWellFormed(asks, RowsOf(update.asks));
      bids, asks := newBids, newAsks;
      sequence := update.sequence;
      this.timestamp := timestamp;
      if update.maxDepth.Number? {
        maxDepth := Some(update.maxDepth.value);
      }
      return true;
    }
  }

  /** `validateLocalOrderBookUpdate`: the timestamp to use, or nothing. */
  method ValidateUpdate(action: string, update: Update, envelope: int) returns (timestamp: Option<int>)
    ensures timestamp.Some? <==> ValidUpdate(action, update, envelope)
    ensures timestamp.Some? ==> timestamp.value == TimestampOf(update, envelope) > 0
  {
    if action != "snapshot" && action != "update" {
      return None;
    }
    if update.sequence <= 0 || update.previousSequence < 0 {
      return None;
    }
    var bidsOk := CheckRows(RowsOf(update.bids));
    if !bidsOk {
      return None;
    }
    var asksOk := CheckRows(RowsOf(update.asks));
    if !asksOk {
      return None;
    }
    if !update.maxDepth.Absent? {
      if update.maxDepth.Malformed? || update.maxDepth.value < 0 || update.maxDepth.value > MAX_VIEW_DEPTH {
        return None;
      }
    }
    var value := envelope;
    if !update.timestamp.Absent? {
      if update.timestamp.Malformed? || update.timestamp.value <= 0 {
        return None;
      }
      value := update.timestamp.value;
    }
    if value <= 0 {
      return None;
    }
    return Some(value);
  }

  class LocalOrderBook {
    const cfg: Config
    var state: LocalOrderBookState?
    var currentGeneration: nat
    var recoveryGeneration: nat
    var synchronizationID: nat
    var gapCount: nat

    ghost function Abs(): Machine
      reads this, state
    {
      Machine(currentGeneration, recoveryGeneration, synchronizationID, gapCount,
              if state == null then None else Some(state.Abs()))
    }

    ghost predicate Valid()
      reads this, state
    {
      state != null ==> state.Valid()
    }

    constructor (cfg: Config)
      ensures Valid() && Abs() == START && this.cfg == cfg
    {
      this.cfg := cfg;
      state, currentGeneration, recoveryGeneration, synchronizationID, gapCount := null, 0, 0, 0, 0;
    }

    /** The view for the handler; `reconnect` gives the connection up, `failed` ends the run. */
    method Handle(message: Message)
      returns (view: Option<LocalOrderBookView>, reconnect: bool, failed: bool)
      requires Valid()
      modifies this, state
      ensures Valid()
      ensures var (m, outcome) := BitgetOrderBook.Handle(old(Abs()), message);
              && Abs() == m
              && (reconnect <==> outcome.Recover?) && (failed <==> outcome.Invalid?)
              && view == (if outcome.Published? then Some(Render(cfg, outcome.publication)) else None)
    {
      view, reconnect, failed := None, false, false;
      var generation := message.generation;
      if generation == 0 {
        failed := true;
        return;
      }
      if generation < currentGeneration {
        return;
      }
      if generation > currentGeneration {
        currentGeneration := generation;
        state := null;
        recoveryGeneration := 0;
      }
      if recoveryGeneration == generation {
        return;
      }
      if |message.updates| != 1 {
        failed := true;
        return;
      }
      var update := message.updates[0];
      var timestamp := ValidateUpdate(message.action, update, message.timestamp);
      if timestamp.None? {
        failed := true;
        return;
      }
      if message.action == "snapshot" {
        view := TakeSnapshot(update, timestamp.value);
      } else {
        view, reconnect := TakeUpdate(update, timestamp.value);
      }
    }

    method TakeSnapshot(update: Update, timestamp: int) returns (view: Option<LocalOrderBookView>)
      requires Valid() && ValidRows(RowsOf(update.bids)) && ValidRows(RowsOf(update.asks))
      modifies this
      ensures Valid()
      ensures var (m, outcome) := OnSnapshot(old(Abs()), update, timestamp);
              Abs() == m && view == Some(Render(cfg, outcome.publication))
    {
      var candidate := new LocalOrderBookState();
      var ok := candidate.Apply(update, timestamp);
      state := candidate;
      synchronizationID := synchronizationID + 1;
      var v := CurrentView(None);
      return Some(v);
    }

    method TakeUpdate(update: Update, timestamp: int)
      returns (view: Option<LocalOrderBookView>, reconnect: bool)
      requires Valid() && ValidRows(RowsOf(update.bids)) && ValidRows(RowsOf(update.asks))
      modifies this, state
      ensures Valid()
      ensures var (m, outcome) := OnUpdate(old(Abs()), update, timestamp);
              && Abs() == m && (reconnect <==> outcome.Recover?)
              && view == (if outcome.Published? then Some(Render(cfg, outcome.publication)) else None)
    {
      if update.sequence <= update.previousSequence || state == null {
        GiveUp();
        return None, true;
      }
      if !state.bridged {
        if update.previousSequence > state.sequence || update.sequence < state.sequence {
          GiveUp();
          return None, true;
        }
        var ok := state.Apply(update, timestamp);
        state.bridged := true;
        var v := CurrentView(Some(update.previousSequence));
        return Some(v), false;
      }
      if update.previousSequence == 0 || update.sequence < state.sequence {
        GiveUp();
        return None, true;
      }
      if update.sequence == state.sequence {
        return None, false;
      }
      if update.previousSequence != state.sequence {
        GiveUp();
        return None, true;
      }
      var ok := state.Apply(update, timestamp);
      var v := CurrentView(Some(update.previousSequence));
      return Some(v), false;
    }

    method CurrentView(ghost previous: Option<int>) returns (view: LocalOrderBookView)
      requires Valid() && state != null
      ensures view == Render(cfg, Publish(Abs(), previous))
    {
      var bidRows := SortedLocalLevels(state.bids, cfg.viewDepth, true);
      var askRows := SortedLocalLevels(state.asks, cfg.viewDepth, false);
      return LocalOrderBookView(
        cfg.symbol, currentGeneration, synchronizationID, gapCount,
        state.sequence, state.timestamp, state.maxDepth, bidRows, askRows);
    }

    /** `recoverFromGap`, up to the reconnect. */
    method GiveUp()
      modifies this
      ensures Valid() && Abs() == RecoverFromGap(old(Abs())).0
    {
      gapCount := gapCount + 1;
      state := null;
      recoveryGeneration := currentGeneration;
    }
  }
}
