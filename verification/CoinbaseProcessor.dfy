/** The Coinbase order book processor (exchange/coinbase/local_order_book.go) in its own form: a
    book and a processor whose fields each message changes in place. */
module CoinbaseProcessor {
  import opened Results
  import opened Integers
  import opened BookLevels
  import opened CoinbaseOrderBook

  /** `parseLocalOrderBookUpdate`. */
  function ParseUpdate(update: Update): (r: Option<Level>)
    ensures r.Some? <==> ValidUpdate(update)
    ensures r.Some? ==> r == ParseDepthFields(RowOf(update))
  {
    if update.side != "bid" && update.side != "offer" then None
    else
      var level := ParseDepthFields(RowOf(update));
      if level.None? || !update.eventTime.parses then None else level
  }

  lemma ReplayStep(book: Book, updates: seq<Update>, i: nat)
    requires i < |updates| && ValidUpdates(updates[..i]) && ValidUpdate(updates[i])
    ensures ValidUpdates(updates[..i + 1])
    ensures Replay(book, updates[..i + 1]) == ApplyUpdate(Replay(book, updates[..i]), updates[i])
  {
    assert updates[..i + 1] == updates[..i] + [updates[i]];
    ReplaySnoc(book, updates[..i], updates[i]);
  }

  class LocalOrderBookState {
    var bids: Levels
    var asks: Levels
    var timestamp: string
    var eventTime: string

    ghost function Abs(): Book
      reads this
    {
      Book(bids, asks, timestamp, eventTime)
    }

    ghost predicate Valid()
      reads this
    {
      WellFormed(bids) && WellFormed(asks)
    }

    constructor ()
      ensures Abs() == EMPTY_BOOK && Valid()
    {
      bids, asks, timestamp, eventTime := map[], map[], "", "";
    }

    /** One level of the side the update names; `before` is the book at the latest event time. */
    method Put(update: Update, level: Level, ghost before: Book)
      requires Valid() && ValidUpdate(update) && Some(level) == ParseDepthFields(RowOf(update))
      requires before == Abs().(eventTime := before.eventTime)
      modifies this
      ensures Valid() && timestamp == old(timestamp)
      ensures Abs().(eventTime := update.eventTime.text) == ApplyUpdate(before, update)
    {
      ApplyLevelWellFormed(if update.side == "bid" then bids else asks, RowOf(update));
      if update.side == "bid" {
        bids := ApplyLevel(bids, level);
      } else {
        asks := ApplyLevel(asks, level);
      }
    }

    method Apply(timestamp: string, updates: seq<Update>) returns (ok: bool)
      requires Valid()
      modifies this
      ensures Valid()
      ensures ok <==> ValidUpdates(updates)
      ensures ok ==> Abs() == ApplyEvent(old(Abs()), timestamp, updates)
    {
      var latestEventTime := eventTime;
      for i := 0 to |updates|
        invariant Valid() && ValidUpdates(updates[..i]) && this.timestamp == old(this.timestamp)
        invariant Abs().(eventTime := latestEventTime) == Replay(old(Abs()), updates[..i])
      {
        var parsed := ParseUpdate(updates[i]);
        if parsed.None? {
          return false;
        }
        ReplayStep(old(Abs()), updates, i);
        Put(updates[i], parsed.value, Replay(old(Abs()), updates[..i]));
        latestEventTime := updates[i].eventTime.text;
      }
      assert updates[..|updates|] == updates;
      this.timestamp := timestamp;
      eventTime := latestEventTime;
      return true;
    }
  }

  class LocalOrderBookProcessor {
    const cfg: Config
    var generation: nat
    var synchronizationID: nat
    var gapCount: nat
    var sequenceNumber: int64
    var sequenceSet: bool
    var state: LocalOrderBookState?

    ghost function Abs(): Processor
      reads this, state
    {
      Processor(generation, synchronizationID, gapCount, sequenceNumber, sequenceSet,
                if state == null then None else Some(state.Abs()))
    }

    ghost predicate Valid()
      reads this, state
    {
      state != null ==> state.Valid()
    }

    constructor (cfg: Config)
      ensures Valid() && Abs() == START && this.cfg == cfg
    {
      this.cfg := cfg;
      generation, synchronizationID, gapCount := 0, 0, 0;
      sequenceNumber, sequenceSet, state := 0, false, null;
    }

    /** The view for the handler; `reconnect` asks for a new connection, `failed` ends the run. */
    method Process(m: Message) returns (view: Option<LocalOrderBookView>, reconnect: bool, failed: bool)
      requires Valid()
      modifies this, state
      ensures Valid()
      ensures var (q, outcome) := CoinbaseOrderBook.Process(cfg, old(Abs()), m);
              && Abs() == q
              && (reconnect <==> outcome.Reconnect?) && (failed <==> outcome.Invalid?)
              && view == (if outcome.Published? then Some(Render(cfg, outcome.publication)) else None)
    {
      view, reconnect, failed := None, false, false;
      if m.generation == 0 {
        failed := true;
        return;
      }
      if m.generation < generation {
        return;
      }
      if generation == 0 || m.generation > generation {
        generation := m.generation;
        sequenceSet := false;
        state := null;
      }
      var targets := FilterEvents(m.events);
      if |targets| == 0 {
        return;
      }
      if m.sequenceNumber < 0 {
        failed := true;
        return;
      }
      if sequenceSet {
        if m.sequenceNumber <= sequenceNumber {
          return;
        }
        if sequenceNumber == MAX_INT64 as int64 || m.sequenceNumber != sequenceNumber + 1 {
          Gap();
          reconnect := true;
          return;
        }
      }
      view, reconnect, failed := AcceptMessage(m, targets);
    }

    /** The closure of `Run`: errors end the run and other channels are passed over before the
        processor sees them. */
    method Handle(m: Message) returns (view: Option<LocalOrderBookView>, reconnect: bool, failed: bool)
      requires Valid()
      modifies this, state
      ensures Valid()
      ensures var (q, outcome) := CoinbaseOrderBook.Handle(cfg, old(Abs()), m);
              && Abs() == q
              && (reconnect <==> outcome.Reconnect?) && (failed <==> outcome.Invalid?)
              && view == (if outcome.Published? then Some(Render(cfg, outcome.publication)) else None)
    {
      if m.messageType == "error" {
        return None, false, true;
      }
      if m.channel != LEVEL2_DATA {
        return None, false, false;
      }
      if !m.decodes {
        return None, false, true;
      }
      view, reconnect, failed := Process(m);
    }

    method FilterEvents(events: seq<Event>) returns (result: seq<Event>)
      ensures result == TargetEvents(cfg, events)
    {
      result := [];
      for i := 0 to |events|
        invariant result == TargetEvents(cfg, events[..i])
      {
        assert events[..i + 1][..i] == events[..i];
        if events[i].productID == cfg.productID {
          result := result + [events[i]];
        }
      }
      assert events[..|events|] == events;
    }

    method ValidateEvent(event: Event) returns (ok: bool)
      ensures ok <==> ValidEvent(cfg, event)
    {
      if event.productID != cfg.productID || (event.eventType != "snapshot" && event.eventType != "update") {
        return false;
      }
      for i := 0 to |event.updates|
        invariant ValidUpdates(event.updates[..i])
      {
        if ParseUpdate(event.updates[i]).None? {
          return false;
        }
      }
      return true;
    }

    method AcceptMessage(m: Message, targets: seq<Event>)
      returns (view: Option<LocalOrderBookView>, reconnect: bool, failed: bool)
      requires Valid() && targets != []
      modifies this, state
      ensures Valid()
      ensures var (q, outcome) := Accept(cfg, old(Abs()), m, targets);
              && Abs() == q
              && (reconnect <==> outcome.Reconnect?) && (failed <==> outcome.Invalid?)
              && view == (if outcome.Published? then Some(Render(cfg, outcome.publication)) else None)
    {
      view, reconnect, failed := None, false, false;
      if !m.timestamp.parses {
        failed := true;
        return;
      }
      ghost var before := Abs();
      EachEventFacts(cfg, before, m.timestamp.text, targets);
      var progress := TakeEvents(m.timestamp.text, targets);
      if progress.Stopped? {
        reconnect, failed := progress.outcome.Reconnect?, progress.outcome.Invalid?;
        return;
      }
      sequenceNumber := m.sequenceNumber;
      sequenceSet := true;
      var bidRows := SortedLocalLevels(state.bids, cfg.viewDepth, true);
      var askRows := SortedLocalLevels(state.asks, cfg.viewDepth, false);
      view := Some(LocalOrderBookView(
        cfg.productID, cfg.viewDepth, generation, synchronizationID, gapCount,
        sequenceNumber, state.timestamp, state.eventTime, bidRows, askRows));
    }

    /** The loop over the events of the product. */
    method TakeEvents(timestamp: string, targets: seq<Event>) returns (progress: Progress)
      requires Valid()
      modifies this, state
      ensures Valid()
      ensures (Abs(), progress) == EachEvent(cfg, old(Abs()), timestamp, targets)
    {
      for i := 0 to |targets|
        invariant Valid() && (state == old(state) || state == null || fresh(state))
        invariant (Abs(), Going) == EachEvent(cfg, old(Abs()), timestamp, targets[..i])
      {
        OneMoreEvent(cfg, old(Abs()), timestamp, targets, i);
        var step := TakeEvent(timestamp, targets[i]);
        if step.Stopped? {
          StoppedStays(cfg, old(Abs()), timestamp, targets, i + 1);
          return step;
        }
      }
      assert targets[..|targets|] == targets;
      return Going;
    }

    method TakeEvent(timestamp: string, event: Event) returns (progress: Progress)
      requires Valid()
      modifies this, state
      ensures Valid() && (state == old(state) || state == null || fresh(state))
      ensures (Abs(), progress) == OneEvent(cfg, old(Abs()), timestamp, event)
    {
      var valid := ValidateEvent(event);
      if !valid {
        return Stopped(Invalid);
      }
      if event.eventType == "snapshot" {
        var candidate := new LocalOrderBookState();
        var ok := candidate.Apply(timestamp, event.updates);
        state := candidate;
        synchronizationID := synchronizationID + 1;
        return Going;
      }
      if state == null {
        Gap();
        return Stopped(Reconnect);
      }
      var ok := state.Apply(timestamp, event.updates);
      return Going;
    }

    /** `sequenceGap`. */
    method Gap()
      modifies this
      ensures Valid() && state == null && Abs() == SequenceGap(old(Abs()))
    {
      gapCount := gapCount + 1;
      sequenceSet := false;
      state := null;
    }
  }

  lemma OneMoreEvent(cfg: Config, p: Processor, timestamp: string, events: seq<Event>, i: nat)
    requires i < |events|
    ensures var (q, progress) := EachEvent(cfg, p, timestamp, events[..i]);
            EachEvent(cfg, p, timestamp, events[..i + 1])
              == (if progress.Stopped? then (q, progress) else OneEvent(cfg, q, timestamp, events[i]))
  {
    assert events[..i + 1][..i] == events[..i];
  }

  lemma {:induction false} StoppedStays(cfg: Config, p: Processor, timestamp: string, events: seq<Event>, n: nat)
    requires n <= |events| && EachEvent(cfg, p, timestamp, events[..n]).1.Stopped?
    ensures EachEvent(cfg, p, timestamp, events) == EachEvent(cfg, p, timestamp, events[..n])
    decreases |events| - n
  {
    if n == |events| {
      assert events[..n] == events;
    } else {
      OneMoreEvent(cfg, p, timestamp, events, n);
      StoppedStays(cfg, p, timestamp, events, n + 1);
    }
  }
}
