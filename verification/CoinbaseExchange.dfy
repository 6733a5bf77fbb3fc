/** The Coinbase local order book (exchange/coinbase/local_order_book.go) against the exchange's own
    book. What a message has to tell depends on its own number alone; that the processor strings
    together the right messages is the work of its number check. */
module CoinbaseExchange {
  import opened Results
  import opened BookLevels
  import opened ExchangeLog
  import opened CoinbaseOrderBook

  // ---------- Updates and the log ----------

  ghost predicate IsChange(update: Update, change: Change) {
    && ValidUpdate(update)
    && change.side == (if update.side == "bid" then Bid else Ask)
    && change.price == PriceOf(RowOf(update)) && change.quantity == QuantityOf(RowOf(update))
  }

  /** The updates are the exchange's own changes n+1, n+2, ... */
  ghost predicate Carries(log: Log, n: nat, updates: seq<Update>) {
    && n + |updates| <= |log|
    && forall i {:trigger updates[i]} | 0 <= i < |updates| :: IsChange(updates[i], log[n + i])
  }

  ghost function RowsFor(updates: seq<Update>, side: string): seq<Row> {
    if updates == [] then []
    else
      var front, last := RowsFor(updates[..|updates| - 1], side), updates[|updates| - 1];
      if last.side == side then front + [RowOf(last)] else front
  }

  /** The snapshot's updates list the exchange's book after n changes. */
  ghost predicate CompleteSnapshot(log: Log, n: nat, updates: seq<Update>) {
    && n <= |log| && ValidUpdates(updates)
    && CompleteRows(log, n, Bid, RowsFor(updates, "bid"))
    && CompleteRows(log, n, Ask, RowsFor(updates, "offer"))
  }

  ghost predicate BookMirrors(log: Log, n: nat, book: Book) {
    n <= |log| && Mirrors(book.bids, log, n, Bid) && Mirrors(book.asks, log, n, Ask)
  }

  lemma {:induction false} ReplayBySides(book: Book, updates: seq<Update>)
    requires ValidUpdates(updates)
    ensures ValidRows(RowsFor(updates, "bid")) && ValidRows(RowsFor(updates, "offer"))
    ensures Replay(book, updates).bids == ApplyRows(book.bids, RowsFor(updates, "bid"))
    ensures Replay(book, updates).asks == ApplyRows(book.asks, RowsFor(updates, "offer"))
  {
    if updates != [] {
      var front, last := updates[..|updates| - 1], updates[|updates| - 1];
      ReplayBySides(book, front);
      assert ValidUpdate(last);
      if last.side == "bid" {
        ApplyRowsSnoc(book.bids, RowsFor(front, "bid"), RowOf(last));
      } else {
        ApplyRowsSnoc(book.asks, RowsFor(front, "offer"), RowOf(last));
      }
    }
  }

  lemma SnapshotMirrors(log: Log, n: nat, updates: seq<Update>)
    requires CompleteSnapshot(log, n, updates)
    ensures BookMirrors(log, n, Replay(EMPTY_BOOK, updates))
  {
    ReplayBySides(EMPTY_BOOK, updates);
    CompleteRowsMirror(RowsFor(updates, "bid"), log, n, Bid);
    CompleteRowsMirror(RowsFor(updates, "offer"), log, n, Ask);
  }

  lemma ChangeMirrors(log: Log, n: nat, book: Book, update: Update)
    requires BookMirrors(log, n, book) && n < |log| && IsChange(update, log[n])
    ensures BookMirrors(log, n + 1, ApplyUpdate(book, update))
  {
    var changed := if update.side == "bid" then book.bids else book.asks;
    ApplyLevelMeaning(changed, RowOf(update));
  }

  lemma {:induction false} ChangesMirror(log: Log, n: nat, book: Book, updates: seq<Update>)
    requires BookMirrors(log, n, book) && ValidUpdates(updates) && Carries(log, n, updates)
    ensures BookMirrors(log, n + |updates|, Replay(book, updates))
  {
    if updates != [] {
      var front := updates[..|updates| - 1];
      ChangesMirror(log, n, book, front);
      ChangeMirrors(log, n + |front|, Replay(book, front), updates[|updates| - 1]);
    }
  }

  /** The view of a book, rendered, is the top of the exchange's book after n changes. */
  ghost predicate ShowsExchangeBook(cfg: Config, log: Log, n: nat, p: Publication) {
    var view := Render(cfg, p);
    && n <= |log|
    && IsTopOfBook(view.bids, BookAt(log, n, Bid), cfg.viewDepth, true)
    && IsTopOfBook(view.asks, BookAt(log, n, Ask), cfg.viewDepth, false)
  }

  lemma MirrorIsShown(cfg: Config, log: Log, n: nat, p: Publication)
    requires BookMirrors(log, n, p.book)
    ensures ShowsExchangeBook(cfg, log, n, p)
  {
    MirrorShowsBook(p.book.bids, log, n, Bid, cfg.viewDepth);
    MirrorShowsBook(p.book.asks, log, n, Ask, cfg.viewDepth);
  }

  // ---------- One message ----------

  /** How many of the product's changes the exchange had made when it sent message u of connection
      g; for a number it never sent, any value will do. */
  type Positions = (nat, int) -> nat

  /** The events lead from the exchange's book after `from` changes to its book after `until`: an
      update event carries the next changes, a snapshot event lists the book where it stands. What
      comes before a snapshot in the same message does not matter. */
  ghost predicate TrueEvents(log: Log, from: nat, until: nat, events: seq<Event>) {
    if events == [] then from == until
    else
      var front, last := events[..|events| - 1], events[|events| - 1];
      if last.eventType == "snapshot" then CompleteSnapshot(log, until, last.updates)
      else
        && |last.updates| <= until && Carries(log, until - |last.updates|, last.updates)
        && TrueEvents(log, from, until - |last.updates|, front)
  }

  /** What is true of a message with valid events of the product: they lead from where its
      predecessor in the connection stands to where it stands itself. */
  ghost predicate TrueMessage(cfg: Config, log: Log, position: Positions, m: Message) {
    var u := m.sequenceNumber as int;
    m.channel == LEVEL2_DATA && AllValid(cfg, TargetEvents(cfg, m.events)) ==>
      TrueEvents(log, position(m.generation, u - 1), position(m.generation, u), TargetEvents(cfg, m.events))
  }

  /** A book, if there is one, is the exchange's after n changes. */
  ghost predicate StateMirrors(log: Log, n: nat, state: Option<Book>) {
    state.Some? ==> BookMirrors(log, n, state.value)
  }

  lemma SnapshotEventMirrors(cfg: Config, log: Log, n: nat, p: Processor, timestamp: string, event: Event, q: Processor)
    requires event.eventType == "snapshot" && CompleteSnapshot(log, n, event.updates)
    requires OneEvent(cfg, p, timestamp, event) == (q, Going)
    ensures StateMirrors(log, n, q.state)
  {
    SnapshotMirrors(log, n, event.updates);
  }

  lemma UpdateEventMirrors(cfg: Config, log: Log, n: nat, p: Processor, timestamp: string, event: Event, q: Processor)
    requires event.eventType != "snapshot" && Carries(log, n, event.updates)
    requires StateMirrors(log, n, p.state) && OneEvent(cfg, p, timestamp, event) == (q, Going)
    ensures StateMirrors(log, n + |event.updates|, q.state)
  {
    ChangesMirror(log, n, p.state.value, event.updates);
  }

  /** The loop over the events of a true message brings the book to where the message stands. */
  lemma {:induction false} EventsMirror(
    cfg: Config, log: Log, p: Processor, from: nat, until: nat, timestamp: string, events: seq<Event>, r: Processor)
    requires StateMirrors(log, from, p.state) && TrueEvents(log, from, until, events)
    requires EachEvent(cfg, p, timestamp, events) == (r, Going)
    ensures StateMirrors(log, until, r.state)
    decreases |events|
  {
    if events != [] {
      var front, last := events[..|events| - 1], events[|events| - 1];
      var q := EachEvent(cfg, p, timestamp, front).0;
      if last.eventType == "snapshot" {
        SnapshotEventMirrors(cfg, log, until, q, timestamp, last, r);
      } else {
        var n := until - |last.updates|;
        EventsMirror(cfg, log, p, from, n, timestamp, front, q);
        UpdateEventMirrors(cfg, log, n, q, timestamp, last, r);
      }
    }
  }

  /** A message whose loop runs through had valid events. */
  lemma {:induction false} GoingMeansValid(cfg: Config, p: Processor, timestamp: string, events: seq<Event>)
    requires EachEvent(cfg, p, timestamp, events).1.Going?
    ensures AllValid(cfg, events)
  {
    if events != [] {
      GoingMeansValid(cfg, p, timestamp, events[..|events| - 1]);
      forall i {:trigger ValidEvent(cfg, events[i])} | 0 <= i < |events| ensures ValidEvent(cfg, events[i]) {
        assert i < |events| - 1 ==> ValidEvent(cfg, events[..|events| - 1][i]);
      }
    }
  }

  /** The remembered book is the exchange's at the remembered number of the connection. */
  ghost predicate Tracks(log: Log, position: Positions, p: Processor) {
    && Settled(p)
    && StateMirrors(log, position(p.generation, p.sequenceNumber as int), p.state)
  }

  /** What the loop keeps of the processor. */
  lemma LoopKeeps(cfg: Config, p: Processor, timestamp: string, events: seq<Event>, r: Processor)
    requires EachEvent(cfg, p, timestamp, events) == (r, Going)
    ensures r.generation == p.generation && (events != [] ==> r.state.Some?)
  {
    EachEventFacts(cfg, p, timestamp, events);
  }

  /** The part behind the number checks. */
  lemma AcceptTracks(
    cfg: Config, log: Log, position: Positions, p: Processor, m: Message, targets: seq<Event>,
    q: Processor, outcome: Outcome)
    requires Tracks(log, position, p) && p.generation == m.generation && m.channel == LEVEL2_DATA
    requires p.sequenceSet ==> IsNext(p, m.sequenceNumber)
    requires targets == TargetEvents(cfg, m.events) && targets != []
    requires TrueMessage(cfg, log, position, m)
    requires (q, outcome) == Accept(cfg, p, m, targets)
    ensures !outcome.Invalid? ==> Tracks(log, position, q)
    ensures outcome.Published? ==> q.state.Some? && outcome.publication == Publish(q)
  {
    var (r, progress) := EachEvent(cfg, p, m.timestamp.text, targets);
    if progress.Going? {
      LoopKeeps(cfg, p, m.timestamp.text, targets, r);
      LoopTracks(cfg, log, position, p, m, targets, r);
    } else {
      LoopStops(cfg, p, m.timestamp.text, targets, r, progress);
    }
  }

  lemma LoopStops(cfg: Config, p: Processor, timestamp: string, events: seq<Event>, r: Processor, progress: Progress)
    requires EachEvent(cfg, p, timestamp, events) == (r, progress) && progress.Stopped?
    ensures progress.outcome.Invalid? || (progress.outcome.Reconnect? && r.state.None? && !r.sequenceSet)
  {
    EachEventFacts(cfg, p, timestamp, events);
  }

  lemma LoopTracks(
    cfg: Config, log: Log, position: Positions, p: Processor, m: Message, targets: seq<Event>, r: Processor)
    requires Tracks(log, position, p) && p.generation == m.generation && m.channel == LEVEL2_DATA
    requires p.sequenceSet ==> p.sequenceNumber as int + 1 == m.sequenceNumber as int
    requires targets == TargetEvents(cfg, m.events) && TrueMessage(cfg, log, position, m)
    requires EachEvent(cfg, p, m.timestamp.text, targets) == (r, Going)
    ensures StateMirrors(log, position(m.generation, m.sequenceNumber as int), r.state)
  {
    var u := m.sequenceNumber as int;
    GoingMeansValid(cfg, p, m.timestamp.text, targets);
    EventsMirror(cfg, log, p, position(m.generation, u - 1), position(m.generation, u), m.timestamp.text, targets, r);
  }

  /** One message, whatever its number: a book that is kept is the exchange's at its number. */
  lemma HandleTracks(
    cfg: Config, log: Log, position: Positions, p: Processor, m: Message, q: Processor, outcome: Outcome)
    requires Tracks(log, position, p) && TrueMessage(cfg, log, position, m)
    requires (q, outcome) == Handle(cfg, p, m)
    ensures !outcome.Invalid? ==> Tracks(log, position, q)
    ensures outcome.Published? ==> q.state.Some? && outcome.publication == Publish(q)
  {
    var e, targets := EnterGeneration(p, m.generation), TargetEvents(cfg, m.events);
    if m.channel == LEVEL2_DATA && m.generation >= p.generation && m.generation > 0 && targets != [] {
      if !e.sequenceSet || IsNext(e, m.sequenceNumber) {
        var (r, o) := Accept(cfg, e, m, targets);
        AcceptTracks(cfg, log, position, e, m, targets, r, o);
      }
    }
  }

  // ---------- Runs ----------

  ghost predicate AllTrue(cfg: Config, log: Log, position: Positions, messages: seq<Message>) {
    forall i {:trigger messages[i]} | 0 <= i < |messages| :: TrueMessage(cfg, log, position, messages[i])
  }

  ghost predicate AllShown(cfg: Config, log: Log, position: Positions, views: seq<Publication>) {
    forall i {:trigger views[i]} | 0 <= i < |views| ::
      ShowsExchangeBook(cfg, log, position(views[i].generation, views[i].sequenceNumber as int), views[i])
  }

  lemma OneMoreShown(cfg: Config, log: Log, position: Positions, views: seq<Publication>, next: Publication)
    requires AllShown(cfg, log, position, views)
    requires ShowsExchangeBook(cfg, log, position(next.generation, next.sequenceNumber as int), next)
    ensures AllShown(cfg, log, position, views + [next])
  {
  }

  lemma AdvanceTracks(cfg: Config, log: Log, position: Positions, s: Run, m: Message, r: Run)
    requires !s.ended && Tracks(log, position, s.p) && TrueMessage(cfg, log, position, m)
    requires AllShown(cfg, log, position, s.views) && r == Advance(cfg, s, m)
    ensures AllShown(cfg, log, position, r.views)
    ensures !r.ended ==> Tracks(log, position, r.p)
  {
    var (q, outcome) := Handle(cfg, s.p, m);
    HandleTracks(cfg, log, position, s.p, m, q, outcome);
    if outcome.Published? {
      MirrorIsShown(cfg, log, position(q.generation, q.sequenceNumber as int), outcome.publication);
      OneMoreShown(cfg, log, position, s.views, outcome.publication);
    }
  }

  /** Over every run of true messages, whatever is lost, repeated or out of order and wherever the
      connection changes: every published view shows the exchange's own book at the number it
      carries. */
  lemma {:induction false} PublishesExchangeBook(
    cfg: Config, log: Log, position: Positions, messages: seq<Message>, r: Run)
    requires AllTrue(cfg, log, position, messages) && r == RunOf(cfg, messages)
    ensures AllShown(cfg, log, position, r.views)
    ensures !r.ended ==> Tracks(log, position, r.p)
    decreases |messages|
  {
    if messages != [] {
      var front, m := messages[..|messages| - 1], messages[|messages| - 1];
      var s := RunOf(cfg, front);
      PublishesExchangeBook(cfg, log, position, front, s);
      if !s.ended {
        AdvanceTracks(cfg, log, position, s, m, r);
      }
    }
  }
}
