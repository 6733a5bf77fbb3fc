/** The Coinbase local order book (exchange/coinbase/local_order_book.go): messages of several
    events, snapshots and updates mixed, numbered per message. */
module CoinbaseOrderBook {
  import opened Results
  import opened Integers
  import opened BookLevels

  /** A timestamp text, and whether `time.Parse` takes it. */
  datatype Time = Time(text: string, parses: bool)

  datatype Update = Update(side: string, eventTime: Time, price: string, quantity: string)

  datatype Event = Event(eventType: string, productID: string, updates: seq<Update>)

  /** The channel on which level2 data arrives. */
  const LEVEL2_DATA := "l2_data"

  /** A stream message of any channel; `events` are its level2 events, if they decode. */
  datatype Message = Message(
    messageType: string, channel: string, generation: nat, sequenceNumber: int64, timestamp: Time,
    decodes: bool, events: seq<Event>)

  datatype Config = Config(productID: string, viewDepth: nat)

  datatype Book = Book(bids: Levels, asks: Levels, timestamp: string, eventTime: string)

  const EMPTY_BOOK := Book(map[], map[], "", "")

  datatype Processor = Processor(
    generation: nat, synchronizationID: nat, gapCount: nat,
    sequenceNumber: int64, sequenceSet: bool, state: Option<Book>)

  const START := Processor(0, 0, 0, 0, false, None)

  /** What is handed to the handler before rendering. */
  datatype Publication = Publication(
    generation: nat, synchronizationID: nat, gapCount: nat, sequenceNumber: int64, book: Book)

  datatype LocalOrderBookView = LocalOrderBookView(
    productID: string, viewDepth: nat, generation: nat, synchronizationID: nat, gapCount: nat,
    sequenceNumber: int64, timestamp: string, eventTime: string,
    bids: seq<BookLevel>, asks: seq<BookLevel>)

  datatype Outcome = Ignored | Published(publication: Publication) | Reconnect | Invalid

  function RowOf(update: Update): Row {
    [update.price, update.quantity]
  }

  ghost predicate ValidUpdate(update: Update) {
    (update.side == "bid" || update.side == "offer") && ValidRow(RowOf(update)) && update.eventTime.parses
  }

  ghost predicate ValidUpdates(updates: seq<Update>) {
    forall i {:trigger ValidUpdate(updates[i])} | 0 <= i < |updates| :: ValidUpdate(updates[i])
  }

  ghost predicate ValidEvent(cfg: Config, event: Event) {
    && event.productID == cfg.productID && (event.eventType == "snapshot" || event.eventType == "update")
    && ValidUpdates(event.updates)
  }

  // ---------- Transition ----------

  ghost function ApplyUpdate(book: Book, update: Update): Book
    requires ValidUpdate(update)
  {
    var level := ParseDepthFields(RowOf(update)).value;
    if update.side == "bid"
    then book.(bids := ApplyLevel(book.bids, level), eventTime := update.eventTime.text)
    else book.(asks := ApplyLevel(book.asks, level), eventTime := update.eventTime.text)
  }

  ghost function Replay(book: Book, updates: seq<Update>): Book
    requires ValidUpdates(updates)
  {
    if updates == [] then book
    else ApplyUpdate(Replay(book, updates[..|updates| - 1]), updates[|updates| - 1])
  }

  ghost function ApplyEvent(book: Book, timestamp: string, updates: seq<Update>): Book
    requires ValidUpdates(updates)
  {
    Replay(book, updates).(timestamp := timestamp)
  }

  function SequenceGap(p: Processor): Processor {
    p.(gapCount := p.gapCount + 1, sequenceSet := false, state := None)
  }

  function EnterGeneration(p: Processor, generation: nat): Processor {
    if p.generation == 0 || generation > p.generation
    then p.(generation := generation, sequenceSet := false, state := None) else p
  }

  /** How far the loop over a message's events has come. */
  datatype Progress = Going | Stopped(outcome: Outcome)

  ghost function OneEvent(cfg: Config, p: Processor, timestamp: string, event: Event): (Processor, Progress) {
    if !ValidEvent(cfg, event) then (p, Stopped(Invalid))
    else if event.eventType == "snapshot" then
      (p.(state := Some(ApplyEvent(EMPTY_BOOK, timestamp, event.updates)),
          synchronizationID := p.synchronizationID + 1), Going)
    else if p.state.None? then (SequenceGap(p), Stopped(Reconnect))
    else (p.(state := Some(ApplyEvent(p.state.value, timestamp, event.updates))), Going)
  }

  ghost function EachEvent(cfg: Config, p: Processor, timestamp: string, events: seq<Event>): (Processor, Progress) {
    if events == [] then (p, Going)
    else
      var (q, progress) := EachEvent(cfg, p, timestamp, events[..|events| - 1]);
      if progress.Stopped? then (q, progress) else OneEvent(cfg, q, timestamp, events[|events| - 1])
  }

  function TargetEvents(cfg: Config, events: seq<Event>): seq<Event> {
    if events == [] then []
    else
      var front, last := TargetEvents(cfg, events[..|events| - 1]), events[|events| - 1];
      if last.productID == cfg.productID then front + [last] else front
  }

  function Publish(p: Processor): Publication
    requires p.state.Some?
  {
    Publication(p.generation, p.synchronizationID, p.gapCount, p.sequenceNumber, p.state.value)
  }

  ghost function Render(cfg: Config, p: Publication): LocalOrderBookView {
    LocalOrderBookView(
      cfg.productID, cfg.viewDepth, p.generation, p.synchronizationID, p.gapCount,
      p.sequenceNumber, p.book.timestamp, p.book.eventTime,
      View(p.book.bids, cfg.viewDepth, true), View(p.book.asks, cfg.viewDepth, false))
  }

  /** The part of `process` after the sequence checks. */
  ghost function Accept(cfg: Config, p: Processor, m: Message, targets: seq<Event>): (Processor, Outcome) {
    if !m.timestamp.parses then (p, Invalid)
    else
      var (q, progress) := EachEvent(cfg, p, m.timestamp.text, targets);
      if progress.Stopped? then (q, progress.outcome)
      else
        var r := q.(sequenceNumber := m.sequenceNumber, sequenceSet := true);
        (r, if r.state.Some? then Published(Publish(r)) else Ignored)
  }

  predicate IsNext(p: Processor, sequenceNumber: int64) {
    p.sequenceNumber as int < MAX_INT64 && sequenceNumber == p.sequenceNumber + 1
  }

  /** `processor.process`. */
  ghost function Process(cfg: Config, p: Processor, m: Message): (Processor, Outcome) {
    if m.generation == 0 then (p, Invalid)
    else if m.generation < p.generation then (p, Ignored)
    else
      var q, targets := EnterGeneration(p, m.generation), TargetEvents(cfg, m.events);
      if targets == [] then (q, Ignored)
      else if m.sequenceNumber < 0 then (q, Invalid)
      else if q.sequenceSet && m.sequenceNumber <= q.sequenceNumber then (q, Ignored)
      else if q.sequenceSet && !IsNext(q, m.sequenceNumber) then (SequenceGap(q), Reconnect)
      else Accept(cfg, q, m, targets)
  }

  /** The closure of `Run`: an error message ends the run, other channels are not looked at. */
  ghost function Handle(cfg: Config, p: Processor, m: Message): (Processor, Outcome) {
    if m.messageType == "error" then (p, Invalid)
    else if m.channel != LEVEL2_DATA then (p, Ignored)
    else if !m.decodes then (p, Invalid)
    else Process(cfg, p, m)
  }

  // ---------- Runs ----------

  /** `accepted` lists the target events of the messages published since the last reset: the
      start of a connection or a gap. */
  datatype Run = Run(p: Processor, views: seq<Publication>, accepted: seq<Event>, ended: bool)

  /** What of the accepted events a message keeps, before its own are added. */
  function Kept(r: Run, m: Message): seq<Event> {
    if m.channel != LEVEL2_DATA || EnterGeneration(r.p, m.generation) == r.p then r.accepted else []
  }

  function AcceptedAfter(cfg: Config, r: Run, m: Message, outcome: Outcome): seq<Event> {
    match outcome
    case Published(_) => Kept(r, m) + TargetEvents(cfg, m.events)
    case Ignored => if m.generation < r.p.generation then r.accepted else Kept(r, m)
    case _ => []
  }

  ghost function Advance(cfg: Config, r: Run, m: Message): Run {
    if r.ended then r
    else
      var (q, outcome) := Handle(cfg, r.p, m);
      Run(q, if outcome.Published? then r.views + [outcome.publication] else r.views,
          AcceptedAfter(cfg, r, m, outcome), outcome.Invalid?)
  }

  ghost function RunOf(cfg: Config, messages: seq<Message>): Run {
    if messages == [] then Run(START, [], [], false)
    else Advance(cfg, RunOf(cfg, messages[..|messages| - 1]), messages[|messages| - 1])
  }

  // ---------- Order, with no assumption on the stream ----------

  function Snapshots(events: seq<Event>): nat {
    if events == [] then 0
    else Snapshots(events[..|events| - 1]) + (if events[|events| - 1].eventType == "snapshot" then 1 else 0)
  }

  /** A message after the loop over its events. */
  lemma {:induction false} EachEventFacts(cfg: Config, p: Processor, timestamp: string, events: seq<Event>)
    ensures var (q, progress) := EachEvent(cfg, p, timestamp, events);
            && q.generation == p.generation && q.synchronizationID >= p.synchronizationID
            && q.sequenceNumber == p.sequenceNumber
            && (progress.Going? ==> q.gapCount == p.gapCount && (events != [] ==> q.state.Some?))
            && (progress.Going? && events != [] ==> q.state.value.timestamp == timestamp)
            && (progress.Going? ==> q.synchronizationID == p.synchronizationID + Snapshots(events))
            && (progress.Stopped? ==> progress.outcome.Reconnect? || progress.outcome.Invalid?)
            && (progress.Stopped? && progress.outcome.Reconnect? ==>
                  q.gapCount == p.gapCount + 1 && q.state.None? && !q.sequenceSet)
  {
    if events != [] {
      EachEventFacts(cfg, p, timestamp, events[..|events| - 1]);
    }
  }

  /** The number is remembered exactly while there is a book. */
  ghost predicate Settled(p: Processor) {
    p.sequenceSet <==> p.state.Some?
  }

  /** Between two resets the numbers are consecutive; a reset shows as a later generation or a
      higher gap count, and after it the book starts from a snapshot. */
  ghost predicate Follows(v: Publication, w: Publication) {
    && v.generation <= w.generation && v.gapCount <= w.gapCount
    && v.synchronizationID <= w.synchronizationID
    && if v.generation == w.generation && v.gapCount == w.gapCount
       then w.sequenceNumber as int == v.sequenceNumber as int + 1
       else w.synchronizationID > v.synchronizationID
  }

  /** How the processor continues the last published view. */
  ghost predicate After(last: Publication, p: Processor) {
    && last.generation <= p.generation && last.gapCount <= p.gapCount
    && last.synchronizationID <= p.synchronizationID
    && (p.state.Some? <==> last.generation == p.generation && last.gapCount == p.gapCount)
    && (p.state.Some? ==> p.sequenceNumber == last.sequenceNumber && p.state.value == last.book)
  }

  ghost predicate Chain(views: seq<Publication>) {
    forall i {:trigger views[i]} | 0 < i < |views| :: Follows(views[i - 1], views[i])
  }

  ghost predicate Orderly(r: Run) {
    && Chain(r.views) && Settled(r.p)
    && (if r.views == [] then r.p.state.None? else After(r.views[|r.views| - 1], r.p))
  }

  /** From no book, only a snapshot leads to one. */
  lemma {:induction false} BookNeedsSnapshot(cfg: Config, p: Processor, timestamp: string, events: seq<Event>)
    requires p.state.None?
    ensures var (q, progress) := EachEvent(cfg, p, timestamp, events);
            progress.Going? && events != [] ==>
              events[0].eventType == "snapshot" && q.synchronizationID > p.synchronizationID
  {
    if |events| > 1 {
      BookNeedsSnapshot(cfg, p, timestamp, events[..|events| - 1]);
    } else if |events| == 1 {
      assert events[..0] == [];
    }
  }

  lemma ProcessFollows(cfg: Config, p: Processor, m: Message, last: Publication)
    requires Settled(p) && After(last, p)
    ensures var (q, outcome) := Process(cfg, p, m);
            && (!outcome.Invalid? ==> Settled(q))
            && (!outcome.Invalid? && !outcome.Published? ==> After(last, q))
            && (outcome.Published? ==> Follows(last, outcome.publication) && After(outcome.publication, q))
  {
    var e, targets := EnterGeneration(p, m.generation), TargetEvents(cfg, m.events);
    EachEventFacts(cfg, e, m.timestamp.text, targets);
    if e.state.None? {
      BookNeedsSnapshot(cfg, e, m.timestamp.text, targets);
    }
  }

  lemma ProcessBegins(cfg: Config, p: Processor, m: Message)
    requires Settled(p) && p.state.None?
    ensures var (q, outcome) := Process(cfg, p, m);
            && (!outcome.Invalid? ==> Settled(q))
            && (!outcome.Invalid? && !outcome.Published? ==> q.state.None?)
            && (outcome.Published? ==> After(outcome.publication, q))
  {
    var e, targets := EnterGeneration(p, m.generation), TargetEvents(cfg, m.events);
    EachEventFacts(cfg, e, m.timestamp.text, targets);
  }

  lemma AdvanceOrderly(cfg: Config, r: Run, m: Message)
    requires Orderly(r) && !r.ended
    ensures Advance(cfg, r, m).ended || Orderly(Advance(cfg, r, m))
    ensures Chain(Advance(cfg, r, m).views)
  {
    if r.views == [] {
      ProcessBegins(cfg, r.p, m);
    } else {
      ProcessFollows(cfg, r.p, m, r.views[|r.views| - 1]);
    }
  }

  /** Whatever the stream sends, up to the first invalid message: the number is remembered
      exactly while there is a book, and the views between two resets carry consecutive numbers. */
  lemma {:induction false} RunOrderly(cfg: Config, messages: seq<Message>)
    ensures Chain(RunOf(cfg, messages).views)
    ensures !RunOf(cfg, messages).ended ==> Orderly(RunOf(cfg, messages))
  {
    if messages != [] {
      RunOrderly(cfg, messages[..|messages| - 1]);
      if !RunOf(cfg, messages[..|messages| - 1]).ended {
        AdvanceOrderly(cfg, RunOf(cfg, messages[..|messages| - 1]), messages[|messages| - 1]);
      }
    }
  }

  // ---------- The book is a replay ----------

  /** The updates of the latest snapshot among the events. */
  ghost function LastSnapshot(events: seq<Event>): seq<Update> {
    if events == [] then []
    else if events[|events| - 1].eventType == "snapshot" then events[|events| - 1].updates
    else LastSnapshot(events[..|events| - 1])
  }

  /** All updates after it, with the borders between events and messages forgotten. */
  ghost function AfterSnapshot(events: seq<Event>): seq<Update> {
    if events == [] then []
    else if events[|events| - 1].eventType == "snapshot" then []
    else AfterSnapshot(events[..|events| - 1]) + events[|events| - 1].updates
  }

  ghost predicate AllValid(cfg: Config, events: seq<Event>) {
    forall i {:trigger ValidEvent(cfg, events[i])} | 0 <= i < |events| :: ValidEvent(cfg, events[i])
  }

  ghost predicate SameLevels(one: Book, two: Book) {
    one.bids == two.bids && one.asks == two.asks
  }

  lemma ReplaySnoc(book: Book, updates: seq<Update>, update: Update)
    requires ValidUpdates(updates) && ValidUpdate(update)
    ensures ValidUpdates(updates + [update])
    ensures Replay(book, updates + [update]) == ApplyUpdate(Replay(book, updates), update)
  {
    assert (updates + [update])[..|updates|] == updates;
  }

  lemma {:induction false} ReplayConcat(book: Book, first: seq<Update>, second: seq<Update>)
    requires ValidUpdates(first) && ValidUpdates(second)
    ensures ValidUpdates(first + second)
    ensures Replay(book, first + second) == Replay(Replay(book, first), second)
  {
    if second == [] {
      assert first + second == first;
    } else {
      var front, last := second[..|second| - 1], second[|second| - 1];
      ReplayConcat(book, first, front);
      assert first + second == first + front + [last];
      ReplaySnoc(book, first + front, last);
    }
  }

  lemma {:induction false} ReplayLevels(one: Book, two: Book, updates: seq<Update>)
    requires ValidUpdates(updates) && SameLevels(one, two)
    ensures SameLevels(Replay(one, updates), Replay(two, updates))
  {
    if updates != [] {
      ReplayLevels(one, two, updates[..|updates| - 1]);
    }
  }

  /** The event time of the last update, or an earlier one when there is no update. */
  function LatestTime(earlier: string, updates: seq<Update>): string {
    if updates == [] then earlier else updates[|updates| - 1].eventTime.text
  }

  lemma ReplayTime(book: Book, updates: seq<Update>)
    requires ValidUpdates(updates)
    ensures Replay(book, updates).eventTime == LatestTime(book.eventTime, updates)
  {
  }

  /** The book has the levels that the updates since the latest snapshot leave behind when
      replayed from an empty book in order, and the event time of the last of them. */
  ghost predicate IsReplay(cfg: Config, book: Book, events: seq<Event>) {
    && AllValid(cfg, events) && events != [] && events[0].eventType == "snapshot"
    && ValidUpdates(LastSnapshot(events) + AfterSnapshot(events))
    && SameLevels(book, Replay(EMPTY_BOOK, LastSnapshot(events) + AfterSnapshot(events)))
    && book.eventTime == LatestTime("", LastSnapshot(events) + AfterSnapshot(events))
  }

  lemma AfterUpdateIsReplay(cfg: Config, book: Book, timestamp: string, events: seq<Event>, event: Event)
    requires IsReplay(cfg, book, events) && ValidEvent(cfg, event) && event.eventType == "update"
    ensures IsReplay(cfg, ApplyEvent(book, timestamp, event.updates), events + [event])
  {
    var snapshot, later := LastSnapshot(events), AfterSnapshot(events);
    assert (events + [event])[..|events|] == events;
    assert snapshot + (later + event.updates) == (snapshot + later) + event.updates;
    ReplayConcat(EMPTY_BOOK, snapshot + later, event.updates);
    ReplayLevels(book, Replay(EMPTY_BOOK, snapshot + later), event.updates);
    ReplayTime(book, event.updates);
  }

  lemma AfterSnapshotIsReplay(cfg: Config, timestamp: string, events: seq<Event>, event: Event)
    requires ValidEvent(cfg, event) && event.eventType == "snapshot" && AllValid(cfg, events)
    requires events != [] ==> events[0].eventType == "snapshot"
    ensures IsReplay(cfg, ApplyEvent(EMPTY_BOOK, timestamp, event.updates), events + [event])
  {
    assert LastSnapshot(events + [event]) + AfterSnapshot(events + [event]) == event.updates;
    ReplayTime(EMPTY_BOOK, event.updates);
  }

  /** The book, when there is one, replays the accepted events; without one nothing is kept. */
  ghost predicate StateReplays(cfg: Config, state: Option<Book>, events: seq<Event>) {
    if state.Some? then IsReplay(cfg, state.value, events) else events == []
  }

  lemma {:induction false} EachEventReplays(
    cfg: Config, p: Processor, timestamp: string, kept: seq<Event>, events: seq<Event>)
    requires StateReplays(cfg, p.state, kept)
    ensures var (q, progress) := EachEvent(cfg, p, timestamp, events);
            progress.Going? ==> StateReplays(cfg, q.state, kept + events)
  {
    if events == [] {
      assert kept + events == kept;
    } else {
      var front, last := events[..|events| - 1], events[|events| - 1];
      EachEventReplays(cfg, p, timestamp, kept, front);
      assert kept + events == kept + front + [last];
      var (q, progress) := EachEvent(cfg, p, timestamp, front);
      if progress.Going? && ValidEvent(cfg, last) {
        if last.eventType == "snapshot" {
          AfterSnapshotIsReplay(cfg, timestamp, kept + front, last);
        } else if q.state.Some? {
          AfterUpdateIsReplay(cfg, q.state.value, timestamp, kept + front, last);
        }
      }
    }
  }

  lemma AdvanceReplays(cfg: Config, r: Run, m: Message)
    requires Orderly(r) && !r.ended && StateReplays(cfg, r.p.state, r.accepted)
    ensures Advance(cfg, r, m).ended
         || StateReplays(cfg, Advance(cfg, r, m).p.state, Advance(cfg, r, m).accepted)
  {
    var e, targets := EnterGeneration(r.p, m.generation), TargetEvents(cfg, m.events);
    if m.channel == LEVEL2_DATA && m.generation >= r.p.generation {
      EachEventReplays(cfg, e, m.timestamp.text, Kept(r, m), targets);
      EachEventFacts(cfg, e, m.timestamp.text, targets);
    }
  }

  /** Over every run: the book is the left-to-right replay of all target updates since the
      latest snapshot, however they were split into events and messages. */
  lemma {:induction false} BookIsReplay(cfg: Config, messages: seq<Message>)
    requires !RunOf(cfg, messages).ended
    ensures StateReplays(cfg, RunOf(cfg, messages).p.state, RunOf(cfg, messages).accepted)
  {
    if messages != [] {
      var front := messages[..|messages| - 1];
      RunOrderly(cfg, front);
      BookIsReplay(cfg, front);
      AdvanceReplays(cfg, RunOf(cfg, front), messages[|messages| - 1]);
    }
  }
}
