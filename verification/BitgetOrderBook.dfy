/** The Bitget local order book (exchange/bitget/local_order_book.go): a snapshot, a first update
    that bridges it, a chain of updates, and one recovery per connection generation. */
module BitgetOrderBook {
  import opened Results
  import opened BookLevels
  import opened ExchangeLog

  const MAX_VIEW_DEPTH := 1000

  /** An optional number field, decoded: left out, not a number, or a number. */
  datatype Field = Absent | Malformed | Number(value: int)

  datatype Update = Update(
    bids: seq<BookLevel>, asks: seq<BookLevel>,
    previousSequence: int, sequence: int, maxDepth: Field, timestamp: Field)

  /** A books message of the configured symbol. */
  datatype Message = Message(generation: nat, action: string, updates: seq<Update>, timestamp: int)

  datatype Config = Config(symbol: string, viewDepth: nat)

  datatype Book = Book(
    bids: Levels, asks: Levels, sequence: int, timestamp: int, maxDepth: Option<int>, bridged: bool)

  datatype Machine = Machine(
    generation: nat, recovery: nat, synchronizationID: nat, gapCount: nat, state: Option<Book>)

  const START := Machine(0, 0, 0, 0, None)

  /** What is handed to the handler before rendering; `previous` is the previous sequence of the
      update that led to it, or nothing for a snapshot. */
  datatype Publication = Publication(
    generation: nat, synchronizationID: nat, gapCount: nat, book: Book, previous: Option<int>)

  datatype LocalOrderBookView = LocalOrderBookView(
    symbol: string, generation: nat, synchronizationID: nat, gapCount: nat,
    sequence: int, timestamp: int, maxDepth: Option<int>, bids: seq<BookLevel>, asks: seq<BookLevel>)

  datatype Outcome = Ignored | Published(publication: Publication) | Recover | Invalid

  /** The update's own timestamp, or the envelope's when it has none. */
  function TimestampOf(update: Update, envelope: int): int {
    if update.timestamp.Number? then update.timestamp.value else envelope
  }

  /** `validateLocalOrderBookUpdate`. */
  ghost predicate ValidUpdate(action: string, update: Update, envelope: int) {
    && (action == "snapshot" || action == "update")
    && update.sequence > 0 && update.previousSequence >= 0
    && ValidRows(RowsOf(update.bids)) && ValidRows(RowsOf(update.asks))
    && (update.maxDepth.Absent? || (update.maxDepth.Number? && 0 <= update.maxDepth.value <= MAX_VIEW_DEPTH))
    && !update.timestamp.Malformed? && TimestampOf(update, envelope) > 0
  }

  // ---------- Transition ----------

  ghost function ApplyUpdate(book: Book, update: Update, timestamp: int): Book
    requires ValidRows(RowsOf(update.bids)) && ValidRows(RowsOf(update.asks))
  {
    book.(bids := ApplyRows(book.bids, RowsOf(update.bids)),
          asks := ApplyRows(book.asks, RowsOf(update.asks)),
          sequence := update.sequence, timestamp := timestamp,
          maxDepth := if update.maxDepth.Number? then Some(update.maxDepth.value) else book.maxDepth)
  }

  const EMPTY_BOOK := Book(map[], map[], 0, 0, None, false)

  function Publish(m: Machine, previous: Option<int>): Publication
    requires m.state.Some?
  {
    Publication(m.generation, m.synchronizationID, m.gapCount, m.state.value, previous)
  }

  ghost function Render(cfg: Config, p: Publication): LocalOrderBookView {
    LocalOrderBookView(
      cfg.symbol, p.generation, p.synchronizationID, p.gapCount,
      p.book.sequence, p.book.timestamp, p.book.maxDepth,
      View(p.book.bids, cfg.viewDepth, true), View(p.book.asks, cfg.viewDepth, false))
  }

  function RecoverFromGap(m: Machine): (Machine, Outcome) {
    (m.(gapCount := m.gapCount + 1, state := None, recovery := m.generation), Recover)
  }

  function EnterGeneration(m: Machine, generation: nat): Machine {
    if generation > m.generation
    then m.(generation := generation, state := None, recovery := 0) else m
  }

  ghost function OnSnapshot(m: Machine, update: Update, timestamp: int): (Machine, Outcome)
    requires ValidRows(RowsOf(update.bids)) && ValidRows(RowsOf(update.asks))
  {
    var n := m.(state := Some(ApplyUpdate(EMPTY_BOOK, update, timestamp)),
                synchronizationID := m.synchronizationID + 1);
    (n, Published(Publish(n, None)))
  }

  /** The first update must reach from at or before the snapshot to at or beyond it, every later
      one must begin where the book stands. */
  predicate Fits(book: Book, update: Update) {
    if !book.bridged then update.previousSequence <= book.sequence <= update.sequence
    else update.previousSequence != 0 && update.previousSequence == book.sequence
         && update.sequence > book.sequence
  }

  ghost function OnUpdate(m: Machine, update: Update, timestamp: int): (Machine, Outcome)
    requires ValidRows(RowsOf(update.bids)) && ValidRows(RowsOf(update.asks))
  {
    if update.sequence <= update.previousSequence || m.state.None? then RecoverFromGap(m)
    else
      var book := m.state.value;
      if book.bridged && update.previousSequence != 0 && update.sequence == book.sequence then (m, Ignored)
      else if !Fits(book, update) then RecoverFromGap(m)
      else
        var n := m.(state := Some(ApplyUpdate(book, update, timestamp).(bridged := true)));
        (n, Published(Publish(n, Some(update.previousSequence))))
  }

  /** The handler closure of `Run`, for a message of the book's own channel. */
  ghost function Handle(m: Machine, message: Message): (Machine, Outcome) {
    if message.generation == 0 then (m, Invalid)
    else if message.generation < m.generation then (m, Ignored)
    else
      var n := EnterGeneration(m, message.generation);
      if n.recovery == message.generation then (n, Ignored)
      else if |message.updates| != 1 || !ValidUpdate(message.action, message.updates[0], message.timestamp) then
        (n, Invalid)
      else
        var update := message.updates[0];
        var timestamp := TimestampOf(update, message.timestamp);
        if message.action == "snapshot" then OnSnapshot(n, update, timestamp)
        else OnUpdate(n, update, timestamp)
  }

  // ---------- Runs ----------

  /** What the outside sees: views handed over and connections given up. */
  datatype Event = Shown(publication: Publication) | Gap(generation: nat)

  datatype Run = Run(machine: Machine, events: seq<Event>, ended: bool)

  ghost function Record(events: seq<Event>, m: Machine, outcome: Outcome): seq<Event> {
    match outcome
    case Published(p) => events + [Shown(p)]
    case Recover => events + [Gap(m.generation)]
    case _ => events
  }

  ghost function Advance(r: Run, message: Message): Run {
    if r.ended then r
    else
      var (m, outcome) := Handle(r.machine, message);
      Run(m, Record(r.events, m, outcome), outcome.Invalid?)
  }

  ghost function RunOf(messages: seq<Message>): Run {
    if messages == [] then Run(START, [], false)
    else Advance(RunOf(messages[..|messages| - 1]), messages[|messages| - 1])
  }

  // ---------- Order, with no assumption on the stream ----------

  function GenerationOf(e: Event): nat {
    match e
    case Shown(p) => p.generation
    case Gap(g) => g
  }

  /** Two views with no gap between them. */
  ghost predicate Links(v: Publication, w: Publication) {
    && v.generation <= w.generation
    && if w.previous.None? then w.synchronizationID == v.synchronizationID + 1 && !w.book.bridged
       else
         && w.generation == v.generation && w.synchronizationID == v.synchronizationID
         && w.gapCount == v.gapCount && w.book.bridged
         && (if v.book.bridged then w.previous.value == v.book.sequence < w.book.sequence
             else w.previous.value <= v.book.sequence <= w.book.sequence)
  }

  /** What may come right after an event: a linked view, a gap of the same or a later
      connection, and after a gap only something of a later connection that starts afresh. */
  ghost predicate Next(e: Event, f: Event) {
    match (e, f)
    case (Shown(v), Shown(w)) => Links(v, w)
    case (Shown(v), Gap(h)) => v.generation <= h
    case (Gap(g), Shown(w)) => g < w.generation && w.previous.None? && !w.book.bridged
    case (Gap(g), Gap(h)) => g < h
  }

  ghost predicate Chained(events: seq<Event>) {
    && (events != [] && events[0].Shown? ==> events[0].publication.previous.None?)
    && forall i {:trigger events[i]} | 0 < i < |events| :: Next(events[i - 1], events[i])
  }

  function GapsIn(events: seq<Event>): nat {
    if events == [] then 0
    else GapsIn(events[..|events| - 1]) + (if events[|events| - 1].Gap? then 1 else 0)
  }

  /** How the machine continues the last event. */
  ghost predicate Continues(m: Machine, e: Event) {
    match e
    case Shown(p) =>
      && p.generation <= m.generation && p.synchronizationID == m.synchronizationID
      && m.recovery != m.generation
      && (m.state.Some? ==>
            && m.state.value == p.book && p.generation == m.generation && p.gapCount == m.gapCount)
    case Gap(g) =>
      && g <= m.generation && m.state.None?
      && (g == m.generation ==> m.recovery == g)
  }

  /** The gap count a view carries is the number of gaps before it. */
  ghost predicate Counted(events: seq<Event>) {
    forall i {:trigger events[i]} | 0 <= i < |events| && events[i].Shown? ::
      events[i].publication.gapCount == GapsIn(events[..i])
  }

  ghost predicate Orderly(r: Run) {
    && Chained(r.events) && Counted(r.events)
    && r.machine.gapCount == GapsIn(r.events)
    && (if r.events == [] then r.machine.state.None? else Continues(r.machine, r.events[|r.events| - 1]))
  }

  lemma EventsSnoc(events: seq<Event>, next: Event)
    requires Chained(events) && Counted(events)
    requires if events == [] then next.Shown? ==> next.publication.previous.None?
             else Next(events[|events| - 1], next)
    requires next.Shown? ==> next.publication.gapCount == GapsIn(events)
    ensures Chained(events + [next]) && Counted(events + [next])
    ensures GapsIn(events + [next]) == GapsIn(events) + (if next.Gap? then 1 else 0)
  {
    var longer := events + [next];
    assert longer[..|events|] == events;
    forall i {:trigger longer[i]} | 0 <= i < |longer| && longer[i].Shown?
      ensures longer[i].publication.gapCount == GapsIn(longer[..i])
    {
      if i < |events| {
        assert longer[i] == events[i] && longer[..i] == events[..i];
      }
    }
  }

  /** Whether an outcome may come after an event, and how the machine then stands. */
  ghost predicate Extends(e: Event, n: Machine, outcome: Outcome) {
    match outcome
    case Published(p) => Next(e, Shown(p)) && Continues(n, Shown(p)) && p.gapCount == n.gapCount
    case Recover => Next(e, Gap(n.generation)) && Continues(n, Gap(n.generation))
    case _ => Continues(n, e)
  }

  /** The same where nothing has happened yet. */
  ghost predicate Begins(n: Machine, outcome: Outcome) {
    match outcome
    case Published(p) => p.previous.None? && Continues(n, Shown(p)) && p.gapCount == n.gapCount
    case Recover => Continues(n, Gap(n.generation))
    case _ => n.state.None?
  }

  lemma UpdateExtends(e: Event, m: Machine, update: Update, timestamp: int)
    requires ValidRows(RowsOf(update.bids)) && ValidRows(RowsOf(update.asks))
    requires Continues(m, e) && m.recovery != m.generation
    ensures var (n, outcome) := OnUpdate(m, update, timestamp);
            && Extends(e, n, outcome)
            && n.gapCount == m.gapCount + (if outcome.Recover? then 1 else 0)
  {
  }

  lemma HandleExtends(e: Event, m: Machine, message: Message)
    requires Continues(m, e)
    ensures var (n, outcome) := Handle(m, message);
            && Extends(e, n, outcome)
            && n.gapCount == m.gapCount + (if outcome.Recover? then 1 else 0)
  {
    if message.generation != 0 && message.generation >= m.generation {
      var n := EnterGeneration(m, message.generation);
      assert Continues(n, e);
      if n.recovery != message.generation && |message.updates| == 1
         && ValidUpdate(message.action, message.updates[0], message.timestamp) {
        var update := message.updates[0];
        if message.action != "snapshot" {
          UpdateExtends(e, n, update, TimestampOf(update, message.timestamp));
        }
      }
    }
  }

  /** Before the first event there is no book, so only a snapshot can be shown. */
  lemma HandleBegins(m: Machine, message: Message)
    requires m.state.None?
    ensures var (n, outcome) := Handle(m, message);
            && n.gapCount == m.gapCount + (if outcome.Recover? then 1 else 0)
            && Begins(n, outcome)
  {
  }

  /** An outcome that may come next keeps the record orderly. */
  lemma RecordOrderly(r: Run, n: Machine, outcome: Outcome, ended: bool)
    requires Orderly(r) && n.gapCount == r.machine.gapCount + (if outcome.Recover? then 1 else 0)
    requires if r.events == [] then Begins(n, outcome) else Extends(r.events[|r.events| - 1], n, outcome)
    ensures Orderly(Run(n, Record(r.events, n, outcome), ended))
  {
    match outcome
    case Published(p) => EventsSnoc(r.events, Shown(p));
    case Recover => EventsSnoc(r.events, Gap(n.generation));
    case _ =>
  }

  lemma AdvanceOrderly(r: Run, message: Message)
    requires Orderly(r) && !r.ended
    ensures Orderly(Advance(r, message))
  {
    var (n, outcome) := Handle(r.machine, message);
    if r.events == [] {
      HandleBegins(r.machine, message);
    } else {
      HandleExtends(r.events[|r.events| - 1], r.machine, message);
    }
    RecordOrderly(r, n, outcome, outcome.Invalid?);
  }

  lemma {:induction false} RunOrderly(messages: seq<Message>)
    ensures Orderly(RunOf(messages))
  {
    if messages != [] {
      RunOrderly(messages[..|messages| - 1]);
      if !RunOf(messages[..|messages| - 1]).ended {
        AdvanceOrderly(RunOf(messages[..|messages| - 1]), messages[|messages| - 1]);
      }
    }
  }

  lemma {:induction false} GenerationsRise(events: seq<Event>, i: nat, j: nat)
    requires Chained(events) && i < j < |events|
    ensures GenerationOf(events[i]) <= GenerationOf(events[j])
    ensures events[i].Gap? ==> GenerationOf(events[i]) < GenerationOf(events[j])
    decreases j
  {
    assert Next(events[j - 1], events[j]);
    if i < j - 1 {
      GenerationsRise(events, i, j - 1);
    }
  }

  /** Once a connection has shown a gap, nothing of it is shown any more, and it is not counted
      as a gap again: whatever comes later belongs to a later connection. */
  lemma NothingAfterAGap(messages: seq<Message>, i: nat, j: nat)
    requires i < j < |RunOf(messages).events| && RunOf(messages).events[i].Gap?
    ensures GenerationOf(RunOf(messages).events[i]) < GenerationOf(RunOf(messages).events[j])
  {
    RunOrderly(messages);
    GenerationsRise(RunOf(messages).events, i, j);
  }

  /** Between two snapshots the views of a connection form a chain: the first update straddles
      the snapshot, every later one starts exactly where the view before it ended. A view that is
      not a linked successor starts a synchronisation from a snapshot. */
  lemma ViewsFormChains(messages: seq<Message>, i: nat)
    requires 0 < i < |RunOf(messages).events| && RunOf(messages).events[i].Shown?
    ensures var events := RunOf(messages).events;
            var w := events[i].publication;
            && w.gapCount == GapsIn(events[..i])
            && (w.previous.Some? ==>
                  && events[i - 1].Shown?
                  && Links(events[i - 1].publication, w))
  {
    RunOrderly(messages);
    var events := RunOf(messages).events;
    assert Next(events[i - 1], events[i]);
  }

  // ---------- Truth, for a stream that tells the truth ----------

  /** A snapshot lists the exchange's book; an update carries every level touched since its
      previous sequence. */
  ghost predicate FaithfulUpdate(log: Log, action: string, update: Update) {
    && 0 <= update.sequence <= |log|
    && if action == "snapshot" then
         && CompleteRows(log, update.sequence, Bid, RowsOf(update.bids))
         && CompleteRows(log, update.sequence, Ask, RowsOf(update.asks))
       else
         0 <= update.previousSequence <= update.sequence ==>
           && FaithfulRows(log, update.previousSequence, update.sequence, Bid, RowsOf(update.bids))
           && FaithfulRows(log, update.previousSequence, update.sequence, Ask, RowsOf(update.asks))
  }

  ghost predicate Faithful(log: Log, message: Message) {
    |message.updates| == 1 && ValidUpdate(message.action, message.updates[0], message.timestamp) ==>
      FaithfulUpdate(log, message.action, message.updates[0])
  }

  ghost predicate BookMirrors(log: Log, book: Book) {
    && 0 <= book.sequence <= |log|
    && Mirrors(book.bids, log, book.sequence, Bid)
    && Mirrors(book.asks, log, book.sequence, Ask)
  }

  ghost predicate StateMirrors(log: Log, m: Machine) {
    m.state.Some? ==> BookMirrors(log, m.state.value)
  }

  lemma SnapshotMirrors(log: Log, update: Update, timestamp: int)
    requires ValidRows(RowsOf(update.bids)) && ValidRows(RowsOf(update.asks))
    requires FaithfulUpdate(log, "snapshot", update)
    ensures BookMirrors(log, ApplyUpdate(EMPTY_BOOK, update, timestamp))
  {
    CompleteRowsMirror(RowsOf(update.bids), log, update.sequence, Bid);
    CompleteRowsMirror(RowsOf(update.asks), log, update.sequence, Ask);
  }

  lemma UpdateMirrors(log: Log, book: Book, update: Update, timestamp: int)
    requires ValidRows(RowsOf(update.bids)) && ValidRows(RowsOf(update.asks))
    requires FaithfulUpdate(log, "update", update)
    requires 0 <= update.previousSequence <= book.sequence <= update.sequence
    requires BookMirrors(log, book)
    ensures BookMirrors(log, ApplyUpdate(book, update, timestamp))
  {
    FaithfulRowsAdvance(book.bids, RowsOf(update.bids), log,
                        update.previousSequence, book.sequence, update.sequence, Bid);
    FaithfulRowsAdvance(book.asks, RowsOf(update.asks), log,
                        update.previousSequence, book.sequence, update.sequence, Ask);
  }

  lemma OnUpdateMirrors(log: Log, m: Machine, update: Update, timestamp: int)
    requires ValidRows(RowsOf(update.bids)) && ValidRows(RowsOf(update.asks))
    requires FaithfulUpdate(log, "update", update) && update.previousSequence >= 0
    requires StateMirrors(log, m)
    ensures StateMirrors(log, OnUpdate(m, update, timestamp).0)
  {
    if m.state.Some? && Fits(m.state.value, update) {
      UpdateMirrors(log, m.state.value, update, timestamp);
    }
  }

  lemma HandleMirrors(log: Log, m: Machine, message: Message)
    requires StateMirrors(log, m) && Faithful(log, message)
    ensures StateMirrors(log, Handle(m, message).0)
  {
    if |message.updates| == 1 && ValidUpdate(message.action, message.updates[0], message.timestamp) {
      var n := EnterGeneration(m, message.generation);
      var update := message.updates[0];
      var timestamp := TimestampOf(update, message.timestamp);
      if message.action == "snapshot" {
        SnapshotMirrors(log, update, timestamp);
      } else {
        OnUpdateMirrors(log, n, update, timestamp);
      }
    }
  }

  lemma PublishedIsState(m: Machine, message: Message)
    ensures var (n, outcome) := Handle(m, message);
            outcome.Published? ==> n.state == Some(outcome.publication.book)
  {
  }

  /** The rendered view is the top of the exchange's own book at the view's sequence. */
  ghost predicate ShowsExchangeBook(cfg: Config, log: Log, p: Publication) {
    var view := Render(cfg, p);
    && 0 <= view.sequence <= |log|
    && IsTopOfBook(view.bids, BookAt(log, view.sequence, Bid), cfg.viewDepth, true)
    && IsTopOfBook(view.asks, BookAt(log, view.sequence, Ask), cfg.viewDepth, false)
  }

  lemma MirrorIsShown(cfg: Config, log: Log, p: Publication)
    requires BookMirrors(log, p.book)
    ensures ShowsExchangeBook(cfg, log, p)
  {
    MirrorShowsBook(p.book.bids, log, p.book.sequence, Bid, cfg.viewDepth);
    MirrorShowsBook(p.book.asks, log, p.book.sequence, Ask, cfg.viewDepth);
  }

  ghost predicate AllMirror(log: Log, events: seq<Event>) {
    forall i {:trigger events[i]} | 0 <= i < |events| ::
      events[i].Shown? ==> BookMirrors(log, events[i].publication.book)
  }

  lemma AdvanceTruthful(log: Log, r: Run, message: Message)
    requires StateMirrors(log, r.machine) && AllMirror(log, r.events) && Faithful(log, message)
    ensures var s := Advance(r, message); StateMirrors(log, s.machine) && AllMirror(log, s.events)
  {
    if !r.ended {
      HandleMirrors(log, r.machine, message);
      PublishedIsState(r.machine, message);
    }
  }

  lemma {:induction false} RunTruthful(log: Log, messages: seq<Message>)
    requires forall i | 0 <= i < |messages| :: Faithful(log, messages[i])
    ensures StateMirrors(log, RunOf(messages).machine) && AllMirror(log, RunOf(messages).events)
  {
    if messages != [] {
      RunTruthful(log, messages[..|messages| - 1]);
      AdvanceTruthful(log, RunOf(messages[..|messages| - 1]), messages[|messages| - 1]);
    }
  }

  /** However often the connection is lost and the stream jumps: if valid messages are true of
      one exchange log, every view shows the exchange's own book at its sequence. */
  lemma PublishesExchangeBook(cfg: Config, log: Log, messages: seq<Message>, i: nat)
    requires forall i | 0 <= i < |messages| :: Faithful(log, messages[i])
    requires i < |RunOf(messages).events| && RunOf(messages).events[i].Shown?
    ensures ShowsExchangeBook(cfg, log, RunOf(messages).events[i].publication)
  {
    RunTruthful(log, messages);
    MirrorIsShown(cfg, log, RunOf(messages).events[i].publication);
  }
}
