/** What every arrival makes the Binance synchroniser do, said in update ids: which events are
    shown, which are passed over, which are gaps, and how a new book comes about. */
module DepthSyncProgress {
  import opened Results
  import opened Integers
  import opened BookLevels
  import opened DepthSync
  import opened DepthSyncRuns

  lemma RunSnoc(cfg: Config, arrivals: seq<Arrival>, a: Arrival)
    ensures Run(cfg, arrivals + [a]) == Step(cfg, Run(cfg, arrivals), a)
  {
    assert (arrivals + [a])[..|arrivals|] == arrivals;
  }

  // ---------- One event ----------

  /** Exactly one more view, of this event: its id, its time and the running connection. */
  ghost predicate ShowsEvent(s: Sync, t: Sync, event: DepthEvent, handlerOk: bool) {
    && |t.published| == |s.published| + 1 && t.published[..|s.published|] == s.published
    && var view := t.published[|s.published|];
       && view.lastUpdateID == event.finalUpdateID && view.eventTime == event.eventTime
       && view.generation == t.generation && view.gapCount == t.gapCount
       && view.synchronizationID == t.synchronizationID
       && t.state.Some? && t.state.value.lastUpdateID == event.finalUpdateID
       && t.stop == (if handlerOk then None else Some(HandlerError))
  }

  /** No book and no snapshot, one request under way, and this buffer; nothing shown. */
  ghost predicate StartsOver(s: Sync, t: Sync, buffer: seq<DepthInput>) {
    && t.published == s.published && t.stop.None? && t.synchronizationID == s.synchronizationID
    && t.state.None? && t.pending.None? && t.buffer == buffer && t.fetching && !t.retryArmed
  }

  /** With a book, an event of the connection is shown exactly when it goes on from the book or
      overlaps it and ends beyond it. An event that ends at or before the book changes nothing; one
      that begins beyond the next id is a gap, and the only event kept for the next book. */
  lemma LiveEventIsShownExactly(
    cfg: Config, arrivals: seq<Arrival>, input: DepthInput, handlerOk: bool, s: Sync, t: Sync)
    requires cfg.maxBufferedEvents > 0 && s == Run(cfg, arrivals) && s.stop.None? && s.state.Some?
    requires Accepted(cfg, input) && input.generation == s.generation
    requires t == Run(cfg, arrivals + [InputArrives(input, handlerOk)])
    ensures var n, first, final :=
              s.state.value.lastUpdateID as int, input.event.firstUpdateID as int, input.event.finalUpdateID as int;
            && (first <= n + 1 <= final ==>
                  ShowsEvent(s, t, input.event, handlerOk) && t.generation == s.generation
                  && t.gapCount == s.gapCount && t.synchronizationID == s.synchronizationID && t.buffer == [])
            && (final <= n ==> t == s)
            && (first > n + 1 ==>
                  StartsOver(s, t, [input]) && t.generation == s.generation && t.gapCount == s.gapCount + 1)
  {
    RunKeepsInv(cfg, arrivals);
    RunSnoc(cfg, arrivals, InputArrives(input, handlerOk));
  }

  /** The first event of a newer connection drops what was learnt on the older one and is the only
      one kept. A request or a retry under way goes on; without either a request begins. */
  lemma NewerConnectionStartsOver(
    cfg: Config, arrivals: seq<Arrival>, input: DepthInput, handlerOk: bool, s: Sync, t: Sync)
    requires cfg.maxBufferedEvents > 0 && s == Run(cfg, arrivals) && s.stop.None?
    requires Accepted(cfg, input) && input.generation > s.generation
    requires t == Run(cfg, arrivals + [InputArrives(input, handlerOk)])
    ensures t.generation == input.generation && t.buffer == [input] && t.state.None? && t.pending.None?
    ensures t.published == s.published && t.gapCount == s.gapCount && t.stop.None?
    ensures t.retryArmed == s.retryArmed && t.fetching == !s.retryArmed
  {
    RunKeepsInv(cfg, arrivals);
    RunSnoc(cfg, arrivals, InputArrives(input, handlerOk));
  }

  /** An event of an older connection changes nothing, and an invalid one ends the run with its
      first complaint. */
  lemma OldOrInvalidEvents(
    cfg: Config, arrivals: seq<Arrival>, input: DepthInput, handlerOk: bool, s: Sync, t: Sync)
    requires s == Run(cfg, arrivals) && s.stop.None?
    requires t == Run(cfg, arrivals + [InputArrives(input, handlerOk)])
    ensures Accepted(cfg, input) && input.generation < s.generation ==> t == s
    ensures !Accepted(cfg, input) ==> t == s.(stop := ValidateInput(cfg.symbol, input))
  {
    RunSnoc(cfg, arrivals, InputArrives(input, handlerOk));
  }

  /** Exactly the events of the symbol's update stream with ids that rise and well-formed rows pass;
      for others the first complaint is named. */
  lemma AcceptedMeans(cfg: Config, input: DepthInput)
    ensures var event, ids := input.event, 1 <= input.event.firstUpdateID <= input.event.finalUpdateID;
            && (Accepted(cfg, input) <==>
                  && input.generation > 0 && event.eventType == "depthUpdate" && event.symbol == cfg.symbol && ids
                  && ValidRows(event.bids) && ValidRows(event.asks))
            && (!Accepted(cfg, input) ==>
                  ValidateInput(cfg.symbol, input)
                    == Some(if input.generation == 0 then GenerationZero
                            else if event.eventType != "depthUpdate" || event.symbol != cfg.symbol then UnexpectedEvent
                            else if !ids then InvalidUpdateIDs else InvalidLevel))
  {
  }

  /** The context and the stream end a run at once and change nothing else. After that, and for a
      snapshot nobody asked for or a timer that is not set, nothing happens at all. */
  lemma EndsAndStrays(cfg: Config, arrivals: seq<Arrival>, a: Arrival, s: Sync, t: Sync)
    requires s == Run(cfg, arrivals) && t == Run(cfg, arrivals + [a])
    ensures s.stop.None? && a == ContextEnds ==> t == s.(stop := Some(ContextDone))
    ensures s.stop.None? && a == StreamEnds ==> t == s.(stop := Some(StreamDone))
    ensures s.stop.Some? || (a.SnapshotArrives? && !s.fetching) || (a == RetryFires && !s.retryArmed) ==> t == s
  {
    RunSnoc(cfg, arrivals, a);
  }

  /** While a snapshot is fetched or a retry is due, events of the connection are buffered, and one
      too many ends the run. */
  lemma WaitingEventIsBuffered(
    cfg: Config, arrivals: seq<Arrival>, input: DepthInput, handlerOk: bool, s: Sync, t: Sync)
    requires cfg.maxBufferedEvents > 0 && s == Run(cfg, arrivals) && s.stop.None?
    requires Accepted(cfg, input) && input.generation == s.generation && (s.fetching || s.retryArmed)
    requires t == Run(cfg, arrivals + [InputArrives(input, handlerOk)])
    ensures t == s.(buffer := s.buffer + [input],
                    stop := if |s.buffer| < cfg.maxBufferedEvents then None else Some(BufferOverflow))
  {
    RunKeepsInv(cfg, arrivals);
    RunSnoc(cfg, arrivals, InputArrives(input, handlerOk));
  }

  /** A snapshot that waits for events: the next one completes it exactly when it reaches from the
      snapshot to beyond it. An event within the snapshot is dropped, one too far asks for another
      snapshot after a pause. */
  lemma WaitingSnapshotMeetsEvent(
    cfg: Config, arrivals: seq<Arrival>, input: DepthInput, handlerOk: bool, s: Sync, t: Sync)
    requires cfg.maxBufferedEvents > 0 && s == Run(cfg, arrivals) && s.stop.None? && s.pending.Some?
    requires Accepted(cfg, input) && input.generation == s.generation
    requires t == Run(cfg, arrivals + [InputArrives(input, handlerOk)])
    ensures var n, first, final :=
              s.pending.value.lastUpdateID as int, input.event.firstUpdateID as int, input.event.finalUpdateID as int;
            && (first <= n + 1 <= final ==>
                  ShowsEvent(s, t, input.event, handlerOk) && t.generation == s.generation
                  && t.gapCount == s.gapCount && t.synchronizationID == s.synchronizationID + 1 && t.buffer == [])
            && (final <= n ==> t == s)
            && (first > n + 1 ==> t == s.(pending := None, retryArmed := true, buffer := [input]))
  {
    RunKeepsInv(cfg, arrivals);
    RunSnoc(cfg, arrivals, InputArrives(input, handlerOk));
    var p := s.(buffer := [input]);
    assert s.buffer + [input] == [input];
    OneEventAttempt(cfg, p, input);
  }

  lemma OneEventAttempt(cfg: Config, p: Sync, input: DepthInput)
    requires PendingValid(p) && p.pending.Some? && p.buffer == [input] && Accepted(cfg, input)
    ensures var n, first, final :=
              p.pending.value.lastUpdateID as int, input.event.firstUpdateID as int, input.event.finalUpdateID as int;
            && (first <= n + 1 <= final ==>
                  TrySynchronize(p).1 && TrySynchronize(p).0 ==
                    p.(state := Some(ApplyEvent(FromSnapshot(p.pending.value), input.event).state),
                       pending := None, buffer := [], synchronizationID := p.synchronizationID + 1))
            && (final <= n ==> TrySynchronize(p) == (p.(buffer := []), false))
            && (first > n + 1 ==> TrySynchronize(p) == (p.(pending := None, retryArmed := true), false))
  {
    assert [input][1..] == [];
    assert DropStale([input], p.pending.value.lastUpdateID)
        == if input.event.finalUpdateID <= p.pending.value.lastUpdateID then [] else [input];
    if input.event.firstUpdateID as int <= p.pending.value.lastUpdateID as int + 1 <= input.event.finalUpdateID as int {
      var book := FromSnapshot(p.pending.value);
      var next := ApplyEvent(book, input.event);
      assert next.Applied?;
      assert Replay(next.state, []) == Synchronized(next.state);
      assert Replay(book, [input]) == Synchronized(next.state);
    }
  }

  // ---------- One snapshot ----------

  /** A request that failed is repeated after a pause. */
  lemma FailedSnapshotIsRetried(cfg: Config, arrivals: seq<Arrival>, handlerOk: bool, s: Sync, t: Sync)
    requires cfg.maxBufferedEvents > 0 && s == Run(cfg, arrivals) && s.stop.None? && s.fetching
    requires t == Run(cfg, arrivals + [SnapshotArrives(None, handlerOk), RetryFires])
    ensures t == s
  {
    RunKeepsInv(cfg, arrivals);
    RunSnoc(cfg, arrivals, SnapshotArrives(None, handlerOk));
    RunSnoc(cfg, arrivals + [SnapshotArrives(None, handlerOk)], RetryFires);
    assert arrivals + [SnapshotArrives(None, handlerOk)] + [RetryFires]
        == arrivals + [SnapshotArrives(None, handlerOk), RetryFires];
  }

  predicate Unusable(snapshot: OrderBook) {
    snapshot.lastUpdateID <= 0 || snapshot.lastUpdateID as int == MAX_INT64
  }

  /** A snapshot ends the run as invalid exactly when it has no usable id or a malformed row; then
      nothing is shown. */
  lemma InvalidSnapshotEndsTheRun(
    cfg: Config, arrivals: seq<Arrival>, snapshot: OrderBook, handlerOk: bool, s: Sync, t: Sync)
    requires s == Run(cfg, arrivals) && s.stop.None? && s.fetching
    requires t == Run(cfg, arrivals + [SnapshotArrives(Some(snapshot), handlerOk)])
    ensures var invalid := Unusable(snapshot) || !ValidRows(RowsOf(snapshot.bids)) || !ValidRows(RowsOf(snapshot.asks));
            && (invalid ==> t == s.(fetching := false, stop := Some(InvalidSnapshot)))
            && (!invalid ==> t.stop != Some(InvalidSnapshot))
  {
    RunSnoc(cfg, arrivals, SnapshotArrives(Some(snapshot), handlerOk));
    if ValidSnapshot(snapshot) {
      ValidSnapshotIsTaken(cfg, arrivals, snapshot, handlerOk, s, t);
    }
  }

  lemma ValidSnapshotIsTaken(
    cfg: Config, arrivals: seq<Arrival>, snapshot: OrderBook, handlerOk: bool, s: Sync, t: Sync)
    requires s == Run(cfg, arrivals) && s.stop.None? && s.fetching && ValidSnapshot(snapshot)
    requires t == Run(cfg, arrivals + [SnapshotArrives(Some(snapshot), handlerOk)])
    ensures t.stop != Some(InvalidSnapshot)
  {
    var p := s.(fetching := false, pending := Some(snapshot));
    var (u, synchronized) := TrySynchronize(p);
    AfterSnapshot(cfg, arrivals, snapshot, handlerOk, s, p, u, synchronized, t);
  }

  /** A valid snapshot is one attempt, shown if it succeeds. */
  lemma AfterSnapshot(
    cfg: Config, arrivals: seq<Arrival>, snapshot: OrderBook, handlerOk: bool, s: Sync, p: Sync, u: Sync,
    synchronized: bool, t: Sync)
    requires s == Run(cfg, arrivals) && s.stop.None? && s.fetching
    requires ValidSnapshot(snapshot) && p == s.(fetching := false, pending := Some(snapshot))
    requires PendingValid(p) && (u, synchronized) == TrySynchronize(p)
    requires t == Run(cfg, arrivals + [SnapshotArrives(Some(snapshot), handlerOk)])
    ensures synchronized ==> u.state.Some? && t == Publish(cfg, u, handlerOk)
    ensures !synchronized ==> t == u
  {
    RunSnoc(cfg, arrivals, SnapshotArrives(Some(snapshot), handlerOk));
  }

  lemma AllStaleWaits(p: Sync)
    requires PendingValid(p) && p.pending.Some? && p.buffer != []
    requires DropStale(p.buffer, p.pending.value.lastUpdateID) == []
    ensures TrySynchronize(p) == (p.(buffer := []), false)
  {
  }

  lemma TooNewRetries(p: Sync, rest: seq<DepthInput>)
    requires PendingValid(p) && p.pending.Some? && p.buffer != [] && rest != []
    requires DropStale(p.buffer, p.pending.value.lastUpdateID) == rest
    requires rest[0].event.firstUpdateID as int > p.pending.value.lastUpdateID as int + 1
    ensures TrySynchronize(p) == (p.(buffer := rest, pending := None, retryArmed := true), false)
  {
  }

  lemma ReplayDecides(p: Sync, rest: seq<DepthInput>, replayed: Replayed)
    requires PendingValid(p) && p.pending.Some? && p.buffer != [] && rest != []
    requires DropStale(p.buffer, p.pending.value.lastUpdateID) == rest
    requires rest[0].event.firstUpdateID as int <= p.pending.value.lastUpdateID as int + 1
    requires replayed == Replay(FromSnapshot(p.pending.value), rest)
    ensures replayed.Synchronized? ==>
              TrySynchronize(p) == (p.(state := Some(replayed.state), pending := None, buffer := [],
                                       synchronizationID := p.synchronizationID + 1), true)
    ensures replayed.GapAt? ==>
              TrySynchronize(p) == (p.(gapCount := p.gapCount + 1, buffer := replayed.rest, pending := None,
                                       retryArmed := true), false)
  {
  }

  /** What a run that fetches has buffered. */
  lemma FetchingBuffers(cfg: Config, arrivals: seq<Arrival>, s: Sync)
    requires cfg.maxBufferedEvents > 0 && s == Run(cfg, arrivals) && s.stop.None? && s.fetching
    ensures s.buffer != [] && s.pending.None? && s.state.None? && !s.retryArmed
    ensures BufferOk(cfg, s)
  {
    RunKeepsInv(cfg, arrivals);
  }

  /** The book of adjoining events behind a snapshot stands at the last of them. */
  lemma ReplayedBook(cfg: Config, s: Sync, book: DepthState, buffer: seq<DepthInput>, rest: seq<DepthInput>)
    requires BufferOk(cfg, s) && buffer == s.buffer && Contiguous(buffer) && Reaches(buffer, book.lastUpdateID)
    requires rest == DropStale(buffer, book.lastUpdateID)
    ensures rest != [] && rest[0].event.firstUpdateID as int <= book.lastUpdateID as int + 1
    ensures Replay(book, rest).Synchronized?
    ensures Replay(book, rest).state.lastUpdateID == buffer[|buffer| - 1].event.finalUpdateID
    ensures Replay(book, rest).state.eventTime == buffer[|buffer| - 1].event.eventTime
  {
    DropStaleContiguous(buffer, book.lastUpdateID);
    DropStaleKeepsBuffer(cfg, s, book.lastUpdateID);
    ReplayContiguous(cfg, book, s.(buffer := rest));
  }

  /** A snapshot that adjoining events reach over: the book stands at the last of them, and that
      one view is shown. */
  lemma ReachedSnapshotShowsLastEvent(
    cfg: Config, arrivals: seq<Arrival>, snapshot: OrderBook, handlerOk: bool, s: Sync, t: Sync)
    requires cfg.maxBufferedEvents > 0 && s == Run(cfg, arrivals) && s.stop.None? && s.fetching
    requires ValidSnapshot(snapshot) && Contiguous(s.buffer) && Reaches(s.buffer, snapshot.lastUpdateID)
    requires t == Run(cfg, arrivals + [SnapshotArrives(Some(snapshot), handlerOk)])
    ensures s.buffer != [] && ShowsEvent(s, t, s.buffer[|s.buffer| - 1].event, handlerOk)
    ensures t.generation == s.generation && t.gapCount == s.gapCount && t.buffer == []
    ensures t.synchronizationID == s.synchronizationID + 1
  {
    var p := s.(fetching := false, pending := Some(snapshot));
    var rest := DropStale(s.buffer, snapshot.lastUpdateID);
    FetchingBuffers(cfg, arrivals, s);
    ReplayedBook(cfg, s, FromSnapshot(snapshot), s.buffer, rest);
    ReplayDecides(p, rest, Replay(FromSnapshot(snapshot), rest));
    var (u, synchronized) := TrySynchronize(p);
    AfterSnapshot(cfg, arrivals, snapshot, handlerOk, s, p, u, synchronized, t);
  }

  /** A snapshot that is ahead of all adjoining events waits, and the events are dropped. */
  lemma EarlySnapshotWaits(
    cfg: Config, arrivals: seq<Arrival>, snapshot: OrderBook, handlerOk: bool, s: Sync, t: Sync)
    requires cfg.maxBufferedEvents > 0 && s == Run(cfg, arrivals) && s.stop.None? && s.fetching
    requires ValidSnapshot(snapshot) && Contiguous(s.buffer) && s.buffer != []
    requires s.buffer[|s.buffer| - 1].event.finalUpdateID <= snapshot.lastUpdateID
    requires t == Run(cfg, arrivals + [SnapshotArrives(Some(snapshot), handlerOk)])
    ensures t == s.(fetching := false, pending := Some(snapshot), buffer := [])
  {
    var p := s.(fetching := false, pending := Some(snapshot));
    AllStale(s.buffer, snapshot.lastUpdateID);
    AllStaleWaits(p);
    var (u, synchronized) := TrySynchronize(p);
    AfterSnapshot(cfg, arrivals, snapshot, handlerOk, s, p, u, synchronized, t);
  }

  /** If the first buffered event begins beyond the snapshot, another snapshot is asked for. */
  lemma LateSnapshotIsRetried(
    cfg: Config, arrivals: seq<Arrival>, snapshot: OrderBook, handlerOk: bool, s: Sync, t: Sync)
    requires cfg.maxBufferedEvents > 0 && s == Run(cfg, arrivals) && s.stop.None? && s.fetching
    requires ValidSnapshot(snapshot) && s.buffer != []
    requires s.buffer[0].event.firstUpdateID as int > snapshot.lastUpdateID as int + 1
    requires t == Run(cfg, arrivals + [SnapshotArrives(Some(snapshot), handlerOk)])
    ensures t == s.(fetching := false, retryArmed := true)
  {
    var p := s.(fetching := false, pending := Some(snapshot));
    FirstIsValid(cfg, arrivals, s);
    TooNewRetries(p, s.buffer);
    var (u, synchronized) := TrySynchronize(p);
    AfterSnapshot(cfg, arrivals, snapshot, handlerOk, s, p, u, synchronized, t);
  }

  lemma FirstIsValid(cfg: Config, arrivals: seq<Arrival>, s: Sync)
    requires cfg.maxBufferedEvents > 0 && s == Run(cfg, arrivals) && s.stop.None? && s.fetching
    ensures s.buffer != [] && s.buffer[0].event.firstUpdateID <= s.buffer[0].event.finalUpdateID
    ensures s.pending.None? && s.state.None? && !s.retryArmed
  {
    FetchingBuffers(cfg, arrivals, s);
    assert Accepted(cfg, s.buffer[0]);
  }

  /** Replay stops at the first hole with everything behind it. */
  lemma {:induction false} ReplayStopsAtHole(
    cfg: Config, state: DepthState, s: Sync, before: seq<DepthInput>, after: seq<DepthInput>)
    requires BufferOk(cfg, s) && s.buffer == before && Contiguous(before) && before != [] && after != []
    requires before[0].event.firstUpdateID as int <= state.lastUpdateID as int + 1
    requires before[0].event.finalUpdateID > state.lastUpdateID
    requires after[0].event.firstUpdateID as int > before[|before| - 1].event.finalUpdateID as int + 1
    requires after[0].event.firstUpdateID <= after[0].event.finalUpdateID
    ensures Replay(state, before + after) == GapAt(after)
    decreases before
  {
    assert Accepted(cfg, s.buffer[0]);
    var next := ApplyEvent(state, before[0].event).state;
    assert (before + after)[1..] == before[1..] + after;
    if |before| > 1 {
      BufferSuffix(cfg, s, 1);
      ContiguousTail(before);
      ReplayStopsAtHole(cfg, next, s.(buffer := before[1..]), before[1..], after);
    } else {
      assert before[1..] + after == after;
    }
  }

  lemma {:induction false} DropStaleBefore(before: seq<DepthInput>, after: seq<DepthInput>, id: int64)
    requires Contiguous(before) && Reaches(before, id)
    ensures DropStale(before + after, id) == DropStale(before, id) + after
  {
    if before[0].event.finalUpdateID <= id {
      ContiguousTail(before);
      assert (before + after)[1..] == before[1..] + after;
      DropStaleBefore(before[1..], after, id);
    }
  }

  /** A hole among the buffered events behind the snapshot is a gap: nothing is shown, what lies
      behind the hole is kept, and another snapshot is asked for. */
  lemma HoleBehindSnapshotIsAGap(
    cfg: Config, arrivals: seq<Arrival>, snapshot: OrderBook, handlerOk: bool, s: Sync, t: Sync,
    before: seq<DepthInput>, after: seq<DepthInput>)
    requires cfg.maxBufferedEvents > 0 && s == Run(cfg, arrivals) && s.stop.None? && s.fetching
    requires ValidSnapshot(snapshot) && s.buffer == before + after && after != []
    requires Contiguous(before) && Reaches(before, snapshot.lastUpdateID)
    requires after[0].event.firstUpdateID as int > before[|before| - 1].event.finalUpdateID as int + 1
    requires t == Run(cfg, arrivals + [SnapshotArrives(Some(snapshot), handlerOk)])
    ensures t == s.(fetching := false, retryArmed := true, gapCount := s.gapCount + 1, buffer := after)
  {
    var p, id := s.(fetching := false, pending := Some(snapshot)), snapshot.lastUpdateID;
    FetchingBuffers(cfg, arrivals, s);
    assert Accepted(cfg, s.buffer[|before|]);
    FrontOk(cfg, s, |before|);
    assert s.buffer[..|before|] == before;
    DropStaleBefore(before, after, id);
    var kept := DropStale(before, id);
    ReplayedToHole(cfg, s.(buffer := before), FromSnapshot(snapshot), before, kept, after);
    ReplayDecides(p, kept + after, GapAt(after));
    var (u, synchronized) := TrySynchronize(p);
    AfterSnapshot(cfg, arrivals, snapshot, handlerOk, s, p, u, synchronized, t);
  }

  lemma KeptIsOk(cfg: Config, s: Sync, before: seq<DepthInput>, kept: seq<DepthInput>, id: int64)
    requires BufferOk(cfg, s) && s.buffer == before && kept == DropStale(before, id)
    ensures BufferOk(cfg, s.(buffer := kept))
  {
    DropStaleKeepsBuffer(cfg, s, id);
  }

  lemma ReplayedToHole(
    cfg: Config, s: Sync, book: DepthState, before: seq<DepthInput>, kept: seq<DepthInput>, after: seq<DepthInput>)
    requires BufferOk(cfg, s) && s.buffer == before && after != []
    requires Contiguous(before) && Reaches(before, book.lastUpdateID) && kept == DropStale(before, book.lastUpdateID)
    requires after[0].event.firstUpdateID as int > before[|before| - 1].event.finalUpdateID as int + 1
    requires after[0].event.firstUpdateID <= after[0].event.finalUpdateID
    ensures kept != [] && kept[0].event.firstUpdateID as int <= book.lastUpdateID as int + 1
    ensures Replay(book, kept + after) == GapAt(after)
  {
    DropStaleContiguous(before, book.lastUpdateID);
    KeptIsOk(cfg, s, before, kept, book.lastUpdateID);
    ReplayStopsAtHole(cfg, book, s.(buffer := kept), kept, after);
  }

  lemma FrontOk(cfg: Config, s: Sync, k: nat)
    requires BufferOk(cfg, s) && k <= |s.buffer|
    ensures BufferOk(cfg, s.(buffer := s.buffer[..k]))
  {
    var t := s.(buffer := s.buffer[..k]);
    forall i {:trigger Accepted(cfg, t.buffer[i])} | 0 <= i < |t.buffer|
      ensures Accepted(cfg, t.buffer[i]) && t.buffer[i].generation == s.generation
    {
      assert Accepted(cfg, s.buffer[i]);
    }
  }

  // ---------- Streams ----------

  function Inputs(events: seq<DepthInput>): seq<Arrival> {
    seq(|events|, i requires 0 <= i < |events| => InputArrives(events[i], true))
  }

  lemma InputsSnoc(events: seq<DepthInput>)
    requires events != []
    ensures Inputs(events) == Inputs(events[..|events| - 1]) + [InputArrives(events[|events| - 1], true)]
  {
  }

  /** Valid events of this connection. */
  ghost predicate OfConnection(cfg: Config, generation: nat, events: seq<DepthInput>) {
    forall i {:trigger Accepted(cfg, events[i])} | 0 <= i < |events| ::
      Accepted(cfg, events[i]) && events[i].generation == generation
  }

  lemma PrefixOfConnection(cfg: Config, generation: nat, events: seq<DepthInput>)
    requires OfConnection(cfg, generation, events) && Contiguous(events) && events != []
    ensures OfConnection(cfg, generation, events[..|events| - 1]) && Contiguous(events[..|events| - 1])
    ensures Accepted(cfg, events[|events| - 1]) && events[|events| - 1].generation == generation
  {
    var front := events[..|events| - 1];
    forall i {:trigger Accepted(cfg, front[i])} | 0 <= i < |front|
      ensures Accepted(cfg, front[i]) && front[i].generation == generation
    {
      assert Accepted(cfg, events[i]);
    }
    forall i {:trigger Adjoins(front, i)} | 0 <= i < |front| ensures Adjoins(front, i) {
      assert Adjoins(events, i);
    }
    assert Accepted(cfg, events[|events| - 1]);
  }

  /** The views added are those of the events, one for each and in order. */
  ghost predicate ShowsEach(before: seq<LocalOrderBookView>, after: seq<LocalOrderBookView>, events: seq<DepthInput>) {
    && |after| == |before| + |events| && after[..|before|] == before
    && forall i {:trigger events[i]} | 0 <= i < |events| ::
         && after[|before| + i].lastUpdateID == events[i].event.finalUpdateID
         && after[|before| + i].eventTime == events[i].event.eventTime
  }

  lemma ShowsEachSnoc(before: seq<LocalOrderBookView>, middle: seq<LocalOrderBookView>,
                      after: seq<LocalOrderBookView>, events: seq<DepthInput>)
    requires events != [] && ShowsEach(before, middle, events[..|events| - 1])
    requires |after| == |middle| + 1 && after[..|middle|] == middle
    requires after[|middle|].lastUpdateID == events[|events| - 1].event.finalUpdateID
    requires after[|middle|].eventTime == events[|events| - 1].event.eventTime
    ensures ShowsEach(before, after, events)
  {
    assert after[..|before|] == middle[..|before|];
    forall i {:trigger events[i]} | 0 <= i < |events|
      ensures after[|before| + i].lastUpdateID == events[i].event.finalUpdateID
      ensures after[|before| + i].eventTime == events[i].event.eventTime
    {
      if i < |events| - 1 {
        assert events[..|events| - 1][i] == events[i] && after[|before| + i] == middle[|before| + i];
      }
    }
  }

  /** From any live state of any run: adjoining events are shown one by one, without a gap. */
  lemma {:induction false} AdjoiningEventsAreShown(
    cfg: Config, arrivals: seq<Arrival>, events: seq<DepthInput>, s: Sync, t: Sync)
    requires cfg.maxBufferedEvents > 0 && s == Run(cfg, arrivals) && s.stop.None? && s.state.Some?
    requires OfConnection(cfg, s.generation, events) && Contiguous(events)
    requires events != [] ==>
               events[0].event.firstUpdateID as int <= s.state.value.lastUpdateID as int + 1
               <= events[0].event.finalUpdateID as int
    requires t == Run(cfg, arrivals + Inputs(events))
    ensures ShowsEach(s.published, t.published, events)
    ensures t.stop.None? && t.state.Some? && t.generation == s.generation
    ensures t.gapCount == s.gapCount && t.synchronizationID == s.synchronizationID
    ensures t.state.value.lastUpdateID
         == if events == [] then s.state.value.lastUpdateID else events[|events| - 1].event.finalUpdateID
    decreases |events|
  {
    if events == [] {
      assert arrivals + Inputs(events) == arrivals;
    } else {
      var front, last := events[..|events| - 1], events[|events| - 1];
      var so, m := arrivals + Inputs(front), Run(cfg, arrivals + Inputs(front));
      PrefixOfConnection(cfg, s.generation, events);
      AdjoiningEventsAreShown(cfg, arrivals, front, s, m);
      InputsSnoc(events);
      assert so + [InputArrives(last, true)] == arrivals + Inputs(events);
      assert Adjoins(events, |events| - 1);
      LiveEventIsShownExactly(cfg, so, last, true, m, t);
      ShowsEachSnoc(s.published, m.published, t.published, events);
    }
  }

  lemma JoinSnoc<T>(one: seq<T>, two: seq<T>)
    requires two != []
    ensures one + two[..|two| - 1] + [two[|two| - 1]] == one + two
  {
  }

  /** While a snapshot is being fetched, the events of the connection are collected in order. */
  lemma {:induction false} WaitingEventsAreCollected(
    cfg: Config, arrivals: seq<Arrival>, events: seq<DepthInput>, s: Sync, t: Sync)
    requires cfg.maxBufferedEvents > 0 && s == Run(cfg, arrivals) && s.stop.None? && s.fetching
    requires OfConnection(cfg, s.generation, events) && Contiguous(events)
    requires |s.buffer| + |events| <= cfg.maxBufferedEvents
    requires t == Run(cfg, arrivals + Inputs(events))
    ensures t == s.(buffer := s.buffer + events)
    decreases |events|
  {
    if events == [] {
      assert arrivals + Inputs(events) == arrivals && s.buffer + events == s.buffer;
    } else {
      var front, last := events[..|events| - 1], events[|events| - 1];
      var so, m := arrivals + Inputs(front), Run(cfg, arrivals + Inputs(front));
      PrefixOfConnection(cfg, s.generation, events);
      WaitingEventsAreCollected(cfg, arrivals, front, s, m);
      InputsSnoc(events);
      assert so + [InputArrives(last, true)] == arrivals + Inputs(events);
      WaitingEventIsBuffered(cfg, so, last, true, m, t);
      JoinSnoc(s.buffer, events);
    }
  }

  lemma TailOfConnection(cfg: Config, generation: nat, events: seq<DepthInput>)
    requires OfConnection(cfg, generation, events) && Contiguous(events) && events != []
    ensures OfConnection(cfg, generation, events[1..]) && Contiguous(events[1..])
  {
    var tail := events[1..];
    forall i {:trigger Accepted(cfg, tail[i])} | 0 <= i < |tail|
      ensures Accepted(cfg, tail[i]) && tail[i].generation == generation
    {
      assert Accepted(cfg, events[i + 1]);
    }
    forall i {:trigger Adjoins(tail, i)} | 0 <= i < |tail| ensures Adjoins(tail, i) {
      assert Adjoins(events, i + 1);
    }
  }

  /** After a gap the events behind it are collected while a snapshot is fetched. */
  lemma GapCollects(cfg: Config, arrivals: seq<Arrival>, events: seq<DepthInput>, s: Sync, m: Sync)
    requires cfg.maxBufferedEvents > 0 && s == Run(cfg, arrivals) && s.stop.None? && s.state.Some?
    requires OfConnection(cfg, s.generation, events) && Contiguous(events)
    requires 0 < |events| <= cfg.maxBufferedEvents
    requires events[0].event.firstUpdateID as int > s.state.value.lastUpdateID as int + 1
    requires m == Run(cfg, arrivals + Inputs(events))
    ensures StartsOver(s, m, events) && m.generation == s.generation && m.gapCount == s.gapCount + 1
  {
    var so := arrivals + [InputArrives(events[0], true)];
    var g := Run(cfg, so);
    assert Accepted(cfg, events[0]);
    LiveEventIsShownExactly(cfg, arrivals, events[0], true, s, g);
    TailOfConnection(cfg, s.generation, events);
    assert so + Inputs(events[1..]) == arrivals + Inputs(events);
    WaitingEventsAreCollected(cfg, so, events[1..], g, m);
    assert [events[0]] + events[1..] == events;
  }

  lemma CollectedIsShown(
    cfg: Config, so: seq<Arrival>, events: seq<DepthInput>, snapshot: OrderBook, s: Sync, m: Sync, t: Sync)
    requires cfg.maxBufferedEvents > 0 && m == Run(cfg, so) && StartsOver(s, m, events) && m.generation == s.generation
    requires Contiguous(events) && ValidSnapshot(snapshot) && Reaches(events, snapshot.lastUpdateID)
    requires t == Run(cfg, so + [SnapshotArrives(Some(snapshot), true)])
    ensures ShowsEvent(s, t, events[|events| - 1].event, true) && t.generation == s.generation
    ensures t.gapCount == m.gapCount && t.synchronizationID == s.synchronizationID + 1
  {
    ReachedSnapshotShowsLastEvent(cfg, so, snapshot, true, m, t);
  }

  /** Every gap is recovered from: an event beyond the next id, adjoining events behind it within
      the buffer's limit, and a snapshot they reach over lead to the book of the last of them, shown
      once, with one gap more and the next synchronisation id. */
  lemma GapIsRecovered(
    cfg: Config, arrivals: seq<Arrival>, events: seq<DepthInput>, snapshot: OrderBook, s: Sync, t: Sync)
    requires cfg.maxBufferedEvents > 0 && s == Run(cfg, arrivals) && s.stop.None? && s.state.Some?
    requires OfConnection(cfg, s.generation, events) && Contiguous(events)
    requires 0 < |events| <= cfg.maxBufferedEvents
    requires events[0].event.firstUpdateID as int > s.state.value.lastUpdateID as int + 1
    requires ValidSnapshot(snapshot) && Reaches(events, snapshot.lastUpdateID)
    requires t == Run(cfg, arrivals + Inputs(events) + [SnapshotArrives(Some(snapshot), true)])
    ensures ShowsEvent(s, t, events[|events| - 1].event, true) && t.generation == s.generation
    ensures t.gapCount == s.gapCount + 1 && t.synchronizationID == s.synchronizationID + 1
  {
    var so := arrivals + Inputs(events);
    var m := Run(cfg, so);
    GapCollects(cfg, arrivals, events, s, m);
    CollectedIsShown(cfg, so, events, snapshot, s, m, t);
  }
}
