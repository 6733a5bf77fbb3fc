/** The Bybit local order book (exchange/bybit/local_order_book.go): snapshots and deltas of a
    stream that shows only the best `depth` levels of each side. */
module BybitOrderBook {
  import opened Results
  import opened Integers
  import opened Sorting
  import opened BookLevels

  // ---------- Messages and state ----------

  datatype StreamOrderBook = StreamOrderBook(
    symbol: string, bids: seq<Row>, asks: seq<Row>,
    updateID: int64, sequence: int64, matchingTime: int)

  datatype Message = Message(
    generation: nat, messageType: string, timestamp: int, event: StreamOrderBook)

  datatype Config = Config(symbol: string, depth: nat, viewDepth: nat)

  datatype Book = Book(
    bids: Levels, asks: Levels, updateID: int64, sequence: int64, timestamp: int, matchingTime: int)

  datatype Processor = Processor(
    generation: nat, synchronizationID: nat, gapCount: nat, state: Option<Book>)

  datatype LocalOrderBookView = LocalOrderBookView(
    symbol: string, depth: nat, generation: nat, synchronizationID: nat, gapCount: nat,
    updateID: int64, sequence: int64, timestamp: int, matchingTime: int,
    bids: seq<BookLevel>, asks: seq<BookLevel>)

  /** What is handed to the handler, before it is rendered as a view. */
  datatype Publication = Publication(
    generation: nat, synchronizationID: nat, gapCount: nat, book: Book)

  datatype Outcome = Ignored | Published(publication: Publication) | Reconnect | Invalid

  const START := Processor(0, 0, 0, None)

  ghost predicate ValidEvent(cfg: Config, messageType: string, event: StreamOrderBook) {
    && (messageType == "snapshot" || messageType == "delta")
    && event.symbol == cfg.symbol && event.updateID > 0 && event.sequence > 0
    && (messageType == "delta" ==> cfg.depth != 1)
    && (messageType == "snapshot" ==> |event.bids| <= cfg.depth && |event.asks| <= cfg.depth)
    && ValidRows(event.bids) && ValidRows(event.asks)
  }

  // ---------- Transition ----------

  /** Apply the rows of both sides, then keep only the best `depth` levels of each. */
  ghost function ApplyEvent(bids: Levels, asks: Levels, timestamp: int, event: StreamOrderBook, depth: nat): Book
    requires ValidRows(event.bids) && ValidRows(event.asks)
  {
    Book(BestOf(ApplyRows(bids, event.bids), depth, true),
         BestOf(ApplyRows(asks, event.asks), depth, false),
         event.updateID, event.sequence, timestamp, event.matchingTime)
  }

  function Publish(p: Processor): Publication
    requires p.state.Some?
  {
    Publication(p.generation, p.synchronizationID, p.gapCount, p.state.value)
  }

  /** `state.view`: the texts of the best `viewDepth` levels of each side. */
  ghost function Render(cfg: Config, publication: Publication): LocalOrderBookView {
    var book := publication.book;
    LocalOrderBookView(
      cfg.symbol, cfg.depth, publication.generation, publication.synchronizationID,
      publication.gapCount, book.updateID, book.sequence, book.timestamp, book.matchingTime,
      View(book.bids, cfg.viewDepth, true), View(book.asks, cfg.viewDepth, false))
  }

  ghost function SequenceGap(p: Processor): (Processor, Outcome) {
    (p.(gapCount := p.gapCount + 1, state := None), Reconnect)
  }

  ghost function EnterGeneration(p: Processor, generation: nat): Processor {
    if p.generation == 0 || generation > p.generation
    then p.(generation := generation, state := None) else p
  }

  /** A snapshot always replaces the book. */
  ghost function OnSnapshot(cfg: Config, p: Processor, m: Message): (Processor, Outcome)
    requires ValidRows(m.event.bids) && ValidRows(m.event.asks)
  {
    var q := p.(state := Some(ApplyEvent(map[], map[], m.timestamp, m.event, cfg.depth)),
                synchronizationID := p.synchronizationID + 1);
    (q, Published(Publish(q)))
  }

  ghost predicate Continues(book: Book, event: StreamOrderBook) {
    && book.updateID != MAX_INT64 as int64 && event.updateID == book.updateID + 1
    && event.sequence > book.sequence
  }

  ghost function OnDelta(cfg: Config, p: Processor, m: Message): (Processor, Outcome)
    requires ValidRows(m.event.bids) && ValidRows(m.event.asks)
  {
    if p.state.None? || m.event.updateID == 1 then SequenceGap(p)
    else
      var book := p.state.value;
      if m.event.updateID == book.updateID then (p, Ignored)
      else if !Continues(book, m.event) then SequenceGap(p)
      else
        var q := p.(state := Some(ApplyEvent(book.bids, book.asks, m.timestamp, m.event, cfg.depth)));
        (q, Published(Publish(q)))
  }

  /** `processor.process`. */
  ghost function Process(cfg: Config, p: Processor, m: Message): (Processor, Outcome) {
    if m.generation == 0 then (p, Invalid)
    else if m.generation < p.generation then (p, Ignored)
    else
      var q := EnterGeneration(p, m.generation);
      if !ValidEvent(cfg, m.messageType, m.event) then (q, Invalid)
      else if m.messageType == "snapshot" then OnSnapshot(cfg, q, m)
      else OnDelta(cfg, q, m)
  }

  // ---------- Pruning loses nothing that can be seen ----------

  /** The rows mention every level that is among the best after them but was not before. */
  ghost predicate MentionsNewcomers(full: Levels, rows: seq<Row>, depth: nat, descending: bool)
    requires ValidRows(rows)
  {
    forall k | k in BestOf(ApplyRows(full, rows), depth, descending) && k !in BestOf(full, depth, descending) ::
      LastQuantity(rows, k).Some?
  }

  lemma BestOfDomain(levels: Levels, depth: nat, descending: bool)
    ensures AllIn(BestKeys(levels.Keys, depth, descending), BestOf(levels, depth, descending).Keys)
    ensures |BestOf(levels, depth, descending)| <= depth
  {
    var keys := BestKeys(levels.Keys, depth, descending);
    BestKeysFacts(levels.Keys, depth, descending);
    assert BestOf(levels, depth, descending).Keys == levels.Keys * SetOf(keys);
    ElementsFacts(keys, levels.Keys);
  }

  lemma BestOfWellFormed(levels: Levels, depth: nat, descending: bool)
    requires WellFormed(levels)
    ensures WellFormed(BestOf(levels, depth, descending))
  {
    var best := BestOf(levels, depth, descending);
    forall k {:trigger LevelOk(best, k)} ensures LevelOk(best, k) {
      assert LevelOk(levels, k);
    }
  }

  lemma ElementsFacts(keys: seq<real>, s: set<real>)
    requires AllIn(keys, s)
    ensures AllIn(keys, s * SetOf(keys))
    ensures |s * SetOf(keys)| <= |keys|
  {
    forall i {:trigger keys[i]} | 0 <= i < |keys| ensures keys[i] in s * SetOf(keys) {
      assert keys[i] in s;
    }
    SubsetOfSeq(keys, s * SetOf(keys));
  }

  lemma {:induction false} SubsetOfSeq<T>(keys: seq<T>, s: set<T>)
    requires forall k | k in s :: k in keys
    ensures |s| <= |keys|
  {
    if keys == [] {
      assert s == {};
    } else {
      forall k | k in s - {keys[0]} ensures k in keys[1..] {
        assert keys == [keys[0]] + keys[1..];
      }
      SubsetOfSeq(keys[1..], s - {keys[0]});
      assert s <= (s - {keys[0]}) + {keys[0]};
    }
  }

  lemma SmallerKeepsBest(small: Levels, large: Levels, depth: nat, descending: bool)
    requires small.Keys <= large.Keys && forall k | k in small :: small[k] == large[k]
    requires BestOf(large, depth, descending).Keys <= small.Keys
    ensures BestOf(small, depth, descending) == BestOf(large, depth, descending)
  {
    var keys := BestKeys(large.Keys, depth, descending);
    BestOfDomain(large, depth, descending);
    assert AllIn(keys, small.Keys);
    BestKeysOfSubset(small.Keys, large.Keys, depth, descending);
    RestrictAgrees(small, large, SetOf(keys));
  }

  /** Pruning commutes with the full book: applying a delta to the best levels and pruning gives
      the best levels of the complete book after the delta. */
  lemma PruningCommutes(full: Levels, rows: seq<Row>, depth: nat, descending: bool)
    requires ValidRows(rows) && MentionsNewcomers(full, rows, depth, descending)
    ensures BestOf(ApplyRows(BestOf(full, depth, descending), rows), depth, descending)
         == BestOf(ApplyRows(full, rows), depth, descending)
  {
    var pruned := BestOf(full, depth, descending);
    var small, large := ApplyRows(pruned, rows), ApplyRows(full, rows);
    forall k
      ensures k in small ==> k in large && small[k] == large[k]
      ensures k in BestOf(large, depth, descending) ==> k in small
    {
      if LastQuantity(rows, k).Some? || k in pruned || k !in full {
        ApplyRowsAt(pruned, full, rows, k);
      } else {
        ApplyRowsAt(pruned, map[], rows, k);
        UnmentionedStaysOut(map[], rows, k);
      }
    }
    SmallerKeepsBest(small, large, depth, descending);
  }

  lemma {:induction false} UnmentionedStaysOut(levels: Levels, rows: seq<Row>, k: real)
    requires ValidRows(rows) && LastQuantity(rows, k).None? && k !in levels
    ensures k !in ApplyRows(levels, rows)
  {
    if rows != [] {
      UnmentionedStaysOut(levels, rows[..|rows| - 1], k);
    }
  }

  /** A view no deeper than the pruning depth cannot tell the pruned map from the complete one. */
  lemma ViewOfBest(full: Levels, depth: nat, viewDepth: nat, descending: bool)
    requires viewDepth <= depth
    ensures View(BestOf(full, depth, descending), viewDepth, descending) == View(full, viewDepth, descending)
  {
    var best, shown := BestOf(full, depth, descending), BestKeys(full.Keys, viewDepth, descending);
    BestPrefix(full, depth, viewDepth, descending);
    BestKeysOfSubset(best.Keys, full.Keys, viewDepth, descending);
    SameRows(best, full, shown);
  }

  lemma BestPrefix(full: Levels, depth: nat, viewDepth: nat, descending: bool)
    requires viewDepth <= depth
    ensures AllIn(BestKeys(full.Keys, viewDepth, descending), BestOf(full, depth, descending).Keys)
  {
    BestOfDomain(full, depth, descending);
    SortedKeysFacts(full.Keys, descending);
    PrefixIn(BestKeys(full.Keys, viewDepth, descending), BestKeys(full.Keys, depth, descending),
             BestOf(full, depth, descending).Keys);
  }

  lemma PrefixIn(shown: seq<real>, kept: seq<real>, keys: set<real>)
    requires shown <= kept && AllIn(kept, keys)
    ensures AllIn(shown, keys)
  {
    forall i {:trigger shown[i]} | 0 <= i < |shown| ensures shown[i] in keys {
      assert shown[i] == kept[i];
    }
  }

  lemma {:induction false} SameRows(small: Levels, large: Levels, keys: seq<real>)
    requires AllIn(keys, small.Keys)
    requires small.Keys <= large.Keys && forall k | k in small :: small[k] == large[k]
    ensures AllIn(keys, large.Keys) && Rows(small, keys) == Rows(large, keys)
  {
    if keys != [] {
      assert keys[0] in small.Keys;
      assert AllIn(keys[1..], small.Keys) by {
        forall i {:trigger keys[1..][i]} | 0 <= i < |keys| - 1 ensures keys[1..][i] in small.Keys {
          assert keys[i + 1] in small.Keys;
        }
      }
      SameRows(small, large, keys[1..]);
    }
  }

  // ---------- Runs ----------

  /** The processor, the views handed out so far, and whether a message was invalid. */
  datatype Run = Run(p: Processor, views: seq<Publication>, ended: bool)

  const NO_RUN := Run(START, [], false)

  ghost function Feed(cfg: Config, r: Run, m: Message): Run {
    if r.ended then r
    else
      var (q, outcome) := Process(cfg, r.p, m);
      Run(q, if outcome.Published? then r.views + [outcome.publication] else r.views, outcome.Invalid?)
  }

  ghost function RunOf(cfg: Config, messages: seq<Message>): Run {
    if messages == [] then NO_RUN
    else Feed(cfg, RunOf(cfg, messages[..|messages| - 1]), messages[|messages| - 1])
  }

  // ---------- Order, with no assumption on the stream ----------

  /** Inside one synchronisation every update follows the one before it; anything else begins a
      new synchronisation with a snapshot. */
  ghost predicate Follows(v: Publication, w: Publication) {
    && v.generation <= w.generation && v.gapCount <= w.gapCount
    && if v.synchronizationID == w.synchronizationID
       then v.generation == w.generation && v.gapCount == w.gapCount
            && w.book.updateID as int == v.book.updateID as int + 1 && w.book.sequence > v.book.sequence
       else w.synchronizationID == v.synchronizationID + 1
  }

  /** How the processor continues the last published view. */
  ghost predicate After(last: Publication, p: Processor) {
    && last.synchronizationID == p.synchronizationID
    && last.generation <= p.generation && last.gapCount <= p.gapCount
    && (p.state.Some? ==>
          && last.generation == p.generation && last.gapCount == p.gapCount
          && last.book == p.state.value)
  }

  ghost predicate Bounded(cfg: Config, p: Processor) {
    p.state.Some? ==> |p.state.value.bids| <= cfg.depth && |p.state.value.asks| <= cfg.depth
  }

  ghost predicate Chain(views: seq<Publication>) {
    forall i {:trigger views[i]} | 0 < i < |views| :: Follows(views[i - 1], views[i])
  }

  lemma ChainSnoc(views: seq<Publication>, next: Publication)
    requires Chain(views) && (views != [] ==> Follows(views[|views| - 1], next))
    ensures Chain(views + [next])
  {
  }

  ghost predicate Orderly(cfg: Config, r: Run) {
    && Chain(r.views)
    && Bounded(cfg, r.p)
    && if r.views == [] then r.p.synchronizationID == 0 && r.p.state.None?
       else After(r.views[|r.views| - 1], r.p)
  }

  lemma ApplyIsBounded(cfg: Config, bids: Levels, asks: Levels, timestamp: int, event: StreamOrderBook)
    requires ValidRows(event.bids) && ValidRows(event.asks)
    ensures |ApplyEvent(bids, asks, timestamp, event, cfg.depth).bids| <= cfg.depth
    ensures |ApplyEvent(bids, asks, timestamp, event, cfg.depth).asks| <= cfg.depth
  {
    BestOfDomain(ApplyRows(bids, event.bids), cfg.depth, true);
    BestOfDomain(ApplyRows(asks, event.asks), cfg.depth, false);
  }

  ghost predicate Advances(cfg: Config, last: Publication, q: Processor, outcome: Outcome) {
    && Bounded(cfg, q)
    && (outcome.Published? ==> Follows(last, outcome.publication) && After(outcome.publication, q))
    && (!outcome.Published? ==> After(last, q))
  }

  lemma OnDeltaFollows(cfg: Config, p: Processor, m: Message, last: Publication)
    requires After(last, p) && Bounded(cfg, p) && ValidEvent(cfg, "delta", m.event)
    ensures var (q, outcome) := OnDelta(cfg, p, m); Advances(cfg, last, q, outcome)
  {
    if p.state.Some? {
      var book := p.state.value;
      ApplyIsBounded(cfg, book.bids, book.asks, m.timestamp, m.event);
      if Continues(book, m.event) {
        NextFollows(cfg, p, last, ApplyEvent(book.bids, book.asks, m.timestamp, m.event, cfg.depth));
      }
    }
  }

  /** The next book of a synchronisation. */
  lemma NextFollows(cfg: Config, p: Processor, last: Publication, next: Book)
    requires After(last, p) && p.state.Some?
    requires |next.bids| <= cfg.depth && |next.asks| <= cfg.depth
    requires p.state.value.updateID as int + 1 == next.updateID as int && next.sequence > p.state.value.sequence
    ensures var q := p.(state := Some(next)); Advances(cfg, last, q, Published(Publish(q)))
  {
  }

  lemma OnSnapshotFollows(cfg: Config, p: Processor, m: Message, last: Publication)
    requires After(last, p) && ValidEvent(cfg, "snapshot", m.event)
    ensures var (q, outcome) := OnSnapshot(cfg, p, m); Advances(cfg, last, q, outcome)
  {
    ApplyIsBounded(cfg, map[], map[], m.timestamp, m.event);
  }

  /** One message: the view it publishes follows the last one. */
  lemma ProcessFollows(cfg: Config, p: Processor, m: Message, last: Publication)
    requires After(last, p) && Bounded(cfg, p)
    ensures var (q, outcome) := Process(cfg, p, m); Advances(cfg, last, q, outcome)
  {
    var e := EnterGeneration(p, m.generation);
    if m.generation >= p.generation && ValidEvent(cfg, m.messageType, m.event) {
      if m.messageType == "snapshot" {
        OnSnapshotFollows(cfg, e, m, last);
      } else {
        OnDeltaFollows(cfg, e, m, last);
      }
    }
  }

  /** The first view can only come from a snapshot. */
  lemma ProcessBegins(cfg: Config, p: Processor, m: Message)
    requires p.synchronizationID == 0 && p.state.None?
    ensures var (q, outcome) := Process(cfg, p, m);
            && Bounded(cfg, q)
            && (outcome.Published? ==> After(outcome.publication, q))
            && (!outcome.Published? ==> q.synchronizationID == 0 && q.state.None?)
  {
    if ValidEvent(cfg, m.messageType, m.event) {
      ApplyIsBounded(cfg, map[], map[], m.timestamp, m.event);
    }
  }

  lemma FeedOrderly(cfg: Config, r: Run, m: Message)
    requires Orderly(cfg, r) && !r.ended
    ensures Orderly(cfg, Feed(cfg, r, m))
  {
    var (q, outcome) := Process(cfg, r.p, m);
    if r.views == [] {
      ProcessBegins(cfg, r.p, m);
    } else {
      ProcessFollows(cfg, r.p, m, r.views[|r.views| - 1]);
    }
    if outcome.Published? {
      ChainSnoc(r.views, outcome.publication);
    }
  }

  /** Whatever the stream sends: published views follow one another without a missing update
      inside a synchronisation, and neither side ever holds more than `depth` levels. */
  lemma {:induction false} RunOrderly(cfg: Config, messages: seq<Message>)
    ensures Orderly(cfg, RunOf(cfg, messages))
  {
    if messages != [] {
      var r := RunOf(cfg, messages[..|messages| - 1]);
      RunOrderly(cfg, messages[..|messages| - 1]);
      if !r.ended {
        FeedOrderly(cfg, r, messages[|messages| - 1]);
      }
    }
  }
}
