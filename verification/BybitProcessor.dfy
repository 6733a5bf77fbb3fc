/** The Bybit order book processor (exchange/bybit/local_order_book.go) in its own form: the
    book and the processor are objects whose fields each message changes in place. */
module BybitProcessor {
  import opened Results
  import opened Integers
  import opened Decimals
  import opened Sorting
  import opened BookLevels
  import opened BybitOrderBook

  /** `pruneLocalOrderBookLevels`: delete every level behind the best `depth`, finding its key by
      reading its price text again. */
  method Prune(values: Levels, depth: nat, descending: bool) returns (pruned: Levels)
    requires WellFormed(values)
    ensures pruned == BestOf(values, depth, descending)
  {
    var levels := SortedLocalLevels(values, |values|, descending);
    ShowsAll(values, descending);
    pruned := values;
    if |levels| > depth {
      ghost var keys := SortedKeys(values.Keys, descending);
      forall index | 0 <= index < |levels| ensures TextIs(levels[index].price, keys[index]) {
        KeyOfText(values, descending, index);
      }
      pruned := DeleteFrom(values, levels, keys, depth);
      RestIsWorse(values, depth, descending);
    } else {
      AllAreBest(values, depth, descending);
    }
  }

  ghost predicate TextIs(text: string, price: real) {
    IsDecimal(text) && DecimalValue(text) == price
  }

  method PriceOfText(text: string, ghost key: real) returns (price: real)
    requires TextIs(text, key)
    ensures price == key
  {
    price := DecimalValue(text);
  }

  /** The deleting loop. */
  method DeleteFrom(values: Levels, levels: seq<BookLevel>, ghost keys: seq<real>, depth: nat)
    returns (pruned: Levels)
    requires depth <= |levels| == |keys|
    requires forall i {:trigger TextIs(levels[i].price, keys[i])} | 0 <= i < |levels| ::
               TextIs(levels[i].price, keys[i])
    ensures pruned == Without(values, keys[depth..])
  {
    pruned := values;
    NothingDropped(values, keys[depth..depth]);
    for index := depth to |levels|
      invariant pruned == Without(values, keys[depth..index])
    {
      var price := PriceOfText(levels[index].price, keys[index]);
      NextDropped(values, keys, depth, index, price);
      pruned := pruned - {price};
    }
    assert keys[depth..|levels|] == keys[depth..];
  }

  ghost function Without(values: Levels, keys: seq<real>): Levels {
    Restrict(values, values.Keys - SetOf(keys))
  }

  lemma NothingDropped(values: Levels, keys: seq<real>)
    requires keys == []
    ensures Without(values, keys) == values
  {
    assert values.Keys * (values.Keys - SetOf(keys)) == values.Keys;
  }

  lemma DropOne(values: Levels, keys: seq<real>, price: real)
    ensures Without(values, keys + [price]) == Without(values, keys) - {price}
  {
    assert SetOf(keys + [price]) == SetOf(keys) + {price};
    assert Without(values, keys + [price]).Keys == (Without(values, keys) - {price}).Keys;
  }

  lemma NextDropped(values: Levels, keys: seq<real>, depth: nat, index: nat, price: real)
    requires depth <= index < |keys| && keys[index] == price
    ensures Without(values, keys[depth..index + 1]) == Without(values, keys[depth..index]) - {price}
  {
    assert keys[depth..index + 1] == keys[depth..index] + [price];
    DropOne(values, keys[depth..index], price);
  }

  lemma ShowsAll(values: Levels, descending: bool)
    requires WellFormed(values)
    ensures |SortedKeys(values.Keys, descending)| == |values| == |View(values, |values|, descending)|
  {
    SortedKeysFacts(values.Keys, descending);
    BestKeysFacts(values.Keys, |values|, descending);
  }

  lemma RestrictAll(values: Levels, keys: set<real>)
    requires keys == values.Keys
    ensures Restrict(values, keys) == values
  {
    assert values.Keys * keys == values.Keys;
  }

  lemma AllAreBest(values: Levels, depth: nat, descending: bool)
    requires |values| <= depth
    ensures values == BestOf(values, depth, descending)
  {
    SortedKeysFacts(values.Keys, descending);
    SortedKeysSet(values.Keys, descending);
    assert BestKeys(values.Keys, depth, descending) == SortedKeys(values.Keys, descending);
    RestrictAll(values, SetOf(BestKeys(values.Keys, depth, descending)));
  }

  lemma RestIsWorse(values: Levels, depth: nat, descending: bool)
    requires |values| > depth && |SortedKeys(values.Keys, descending)| == |values|
    ensures Without(values, SortedKeys(values.Keys, descending)[depth..]) == BestOf(values, depth, descending)
  {
    var keys := SortedKeys(values.Keys, descending);
    SortedKeysFacts(values.Keys, descending);
    assert BestKeys(values.Keys, depth, descending) == keys[..depth];
    SortedKeysSet(values.Keys, descending);
    KeysDiffer(keys, descending);
    SplitSet(keys, depth);
    RestrictSame(values, values.Keys - SetOf(keys[depth..]), SetOf(keys[..depth]));
  }

  lemma RestrictSame(values: Levels, one: set<real>, two: set<real>)
    requires values.Keys * one == values.Keys * two
    ensures Restrict(values, one) == Restrict(values, two)
  {
  }

  lemma AllKeysShown(values: Levels, descending: bool)
    requires WellFormed(values)
    ensures BestKeys(values.Keys, |values|, descending) == SortedKeys(values.Keys, descending)
  {
    SortedKeysFacts(values.Keys, descending);
  }

  /** The text of a listed level leads back to its key. */
  lemma KeyOfText(values: Levels, descending: bool, index: nat)
    requires WellFormed(values) && index < |values|
    ensures |View(values, |values|, descending)| == |values| == |SortedKeys(values.Keys, descending)|
    ensures var text := View(values, |values|, descending)[index].price;
            IsDecimal(text) && DecimalValue(text) == SortedKeys(values.Keys, descending)[index]
  {
    SortedKeysFacts(values.Keys, descending);
    AllKeysShown(values, descending);
    ViewRows(values, |values|, descending);
  }

  lemma KeysDiffer(keys: seq<real>, descending: bool)
    requires forall i, j | 0 <= i < j < |keys| :: Better(keys[i], keys[j], descending)
    ensures forall i, j | 0 <= i < j < |keys| :: keys[i] != keys[j]
  {
    forall i, j | 0 <= i < j < |keys| ensures keys[i] != keys[j] {
      assert Better(keys[i], keys[j], descending);
    }
  }

  class LocalOrderBookState {
    var bids: Levels
    var asks: Levels
    var updateID: int64
    var sequence: int64
    var timestamp: int
    var matchingTime: int

    ghost function Abs(): Book
      reads this
    {
      Book(bids, asks, updateID, sequence, timestamp, matchingTime)
    }

    ghost predicate Valid()
      reads this
    {
      WellFormed(bids) && WellFormed(asks)
    }

    constructor ()
      ensures Abs() == Book(map[], map[], 0, 0, 0, 0) && Valid()
    {
      bids, asks, updateID, sequence, timestamp, matchingTime := map[], map[], 0, 0, 0, 0;
    }

    method Apply(timestamp: int, event: StreamOrderBook, depth: nat) returns (ok: bool)
      requires Valid()
      modifies this
      ensures ok <==> ValidRows(event.bids) && ValidRows(event.asks)
      ensures ok ==> Valid() && Abs() == ApplyEvent(old(bids), old(asks), timestamp, event, depth)
    {
      var bidsOk, newBids := ApplyLocalLevels(bids, event.bids);
      if !bidsOk {
        return false;
      }
      var asksOk, newAsks := ApplyLocalLevels(asks, event.asks);
      if !asksOk {
        return false;
      }
      ApplyRowsWellFormed(bids, event.bids);
      ApplyRowsWellFormed(asks, event.asks);
      bids := Prune(newBids, depth, true);
      asks := Prune(newAsks, depth, false);
      BestOfWellFormed(newBids, depth, true);
      BestOfWellFormed(newAsks, depth, false);
      updateID := event.updateID;
      sequence := event.sequence;
      this.timestamp := timestamp;
      matchingTime := event.matchingTime;
      return true;
    }
  }

  class LocalOrderBookProcessor {
    const cfg: Config
    var generation: nat
    var synchronizationID: nat
    var gapCount: nat
    var state: LocalOrderBookState?

    ghost function Abs(): Processor
      reads this, state
    {
      Processor(generation, synchronizationID, gapCount,
                if state == null then None else Some(state.Abs()))
    }

    ghost predicate Valid()
      reads this, state
    {
      state != null ==> state.Valid()
    }

    constructor (cfg: Config)
      ensures Valid() && Abs() == START && this.cfg == cfg
    {
      this.cfg := cfg;
      generation, synchronizationID, gapCount, state := 0, 0, 0, null;
    }

    /** The view for the handler; `reconnect` asks for a new connection, `failed` ends the run. */
    method Process(m: Message) returns (view: Option<LocalOrderBookView>, reconnect: bool, failed: bool)
      requires Valid()
      modifies this, state
      ensures Valid()
      ensures var (q, outcome) := BybitOrderBook.Process(cfg, old(Abs()), m);
              && Abs() == q
              && (reconnect <==> outcome.Reconnect?) && (failed <==> outcome.Invalid?)
              && view == (if outcome.Published? then Some(Render(cfg, outcome.publication)) else None)
    {
      if m.generation == 0 {
        return None, false, true;
      }
      if m.generation < generation {
        return None, false, false;
      }
      if generation == 0 || m.generation > generation {
        generation := m.generation;
        state := null;
      }
      var valid := CheckEvent(m.messageType, m.event);
      if !valid {
        return None, false, true;
      }
      if m.messageType == "snapshot" {
        view := TakeSnapshot(m);
        return view, false, false;
      }
      view, reconnect := TakeDelta(m);
      failed := false;
    }

    method CheckEvent(messageType: string, event: StreamOrderBook) returns (valid: bool)
      ensures valid <==> ValidEvent(cfg, messageType, event)
    {
      if messageType != "snapshot" && messageType != "delta" {
        return false;
      }
      if event.symbol != cfg.symbol || event.updateID <= 0 || event.sequence <= 0 {
        return false;
      }
      if messageType == "delta" && cfg.depth == 1 {
        return false;
      }
      if messageType == "snapshot" && (|event.bids| > cfg.depth || |event.asks| > cfg.depth) {
        return false;
      }
      var bidsOk := CheckRows(event.bids);
      var asksOk := CheckRows(event.asks);
      return bidsOk && asksOk;
    }

    method RenderView() returns (view: LocalOrderBookView)
      requires Valid() && state != null
      ensures view == Render(cfg, Publish(Abs()))
    {
      var bidRows := SortedLocalLevels(state.bids, cfg.viewDepth, true);
      var askRows := SortedLocalLevels(state.asks, cfg.viewDepth, false);
      return LocalOrderBookView(
        cfg.symbol, cfg.depth, generation, synchronizationID, gapCount,
        state.updateID, state.sequence, state.timestamp, state.matchingTime, bidRows, askRows);
    }

    method TakeSnapshot(m: Message) returns (view: Option<LocalOrderBookView>)
      requires Valid() && ValidRows(m.event.bids) && ValidRows(m.event.asks)
      modifies this
      ensures Valid()
      ensures var (q, outcome) := OnSnapshot(cfg, old(Abs()), m);
              Abs() == q && view == Some(Render(cfg, outcome.publication))
    {
      var book := new LocalOrderBookState();
      var ok := book.Apply(m.timestamp, m.event, cfg.depth);
      state := book;
      synchronizationID := synchronizationID + 1;
      var v := RenderView();
      return Some(v);
    }

    method TakeDelta(m: Message) returns (view: Option<LocalOrderBookView>, reconnect: bool)
      requires Valid() && ValidRows(m.event.bids) && ValidRows(m.event.asks)
      modifies this, state
      ensures Valid()
      ensures var (q, outcome) := OnDelta(cfg, old(Abs()), m);
              && Abs() == q && (reconnect <==> outcome.Reconnect?)
              && view == (if outcome.Published? then Some(Render(cfg, outcome.publication)) else None)
    {
      if state == null || m.event.updateID == 1 {
        Gap();
        return None, true;
      }
      if m.event.updateID == state.updateID {
        return None, false;
      }
      if state.updateID == MAX_INT64 as int64 || m.event.updateID != state.updateID + 1
         || m.event.sequence <= state.sequence {
        Gap();
        return None, true;
      }
      var ok := state.Apply(m.timestamp, m.event, cfg.depth);
      var v := RenderView();
      return Some(v), false;
    }

    method Gap()
      modifies this
      ensures Valid() && Abs() == SequenceGap(old(Abs())).0
    {
      gapCount := gapCount + 1;
      state := null;
    }
  }
}
