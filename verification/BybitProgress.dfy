/** What every message makes the Bybit processor do (exchange/bybit/local_order_book.go), said in
    update ids and sequences. */
module BybitProgress {
  import opened Results
  import opened BookLevels
  import opened BybitOrderBook

  /** The book in hand and the view handed over are those of this message. */
  ghost predicate ShowsMessage(q: Processor, outcome: Outcome, m: Message) {
    && outcome.Published? && q.state.Some? && q.generation == m.generation
    && outcome.publication == Publication(q.generation, q.synchronizationID, q.gapCount, q.state.value)
    && q.state.value.updateID == m.event.updateID && q.state.value.sequence == m.event.sequence
    && q.state.value.timestamp == m.timestamp && q.state.value.matchingTime == m.event.matchingTime
  }

  /** With a book, a delta is shown exactly when its number is the next and its sequence rises; it
      is passed over exactly when its number is the book's; anything else, and number 1 always,
      drops the book, counts a gap and asks for a reconnect. */
  lemma DeltaIsShownExactly(cfg: Config, p: Processor, m: Message, q: Processor, outcome: Outcome)
    requires p.state.Some? && m.generation == p.generation > 0
    requires m.messageType == "delta" && ValidEvent(cfg, "delta", m.event)
    requires (q, outcome) == Process(cfg, p, m)
    ensures var book, id := p.state.value, m.event.updateID as int;
            && (outcome.Published? <==> id != 1 && id == book.updateID as int + 1 && m.event.sequence > book.sequence)
            && (outcome.Ignored? <==> id != 1 && id == book.updateID as int)
            && (outcome.Published? || outcome.Ignored? || outcome.Reconnect?)
    ensures outcome.Published? ==>
              ShowsMessage(q, outcome, m) && q.gapCount == p.gapCount && q.synchronizationID == p.synchronizationID
    ensures outcome.Ignored? ==> q == p
    ensures outcome.Reconnect? ==> q == p.(gapCount := p.gapCount + 1, state := None)
  {
  }

  /** Without a book of its connection no delta is shown: each counts a gap. */
  lemma DeltaNeedsBook(cfg: Config, p: Processor, m: Message, q: Processor, outcome: Outcome)
    requires m.generation > p.generation || (m.generation == p.generation > 0 && p.state.None?)
    requires m.messageType == "delta" && ValidEvent(cfg, "delta", m.event)
    requires (q, outcome) == Process(cfg, p, m)
    ensures outcome.Reconnect?
    ensures q == p.(generation := m.generation, gapCount := p.gapCount + 1, state := None)
  {
  }

  /** A snapshot is always shown, whatever there was before, and begins a synchronisation. */
  lemma SnapshotIsShown(cfg: Config, p: Processor, m: Message, q: Processor, outcome: Outcome)
    requires m.generation >= p.generation && m.generation > 0
    requires m.messageType == "snapshot" && ValidEvent(cfg, "snapshot", m.event)
    requires (q, outcome) == Process(cfg, p, m)
    ensures ShowsMessage(q, outcome, m)
    ensures q.gapCount == p.gapCount && q.synchronizationID == p.synchronizationID + 1
  {
  }

  /** Messages of older connections are passed over; invalid ones end the run. */
  lemma OldOrInvalidMessages(cfg: Config, p: Processor, m: Message, q: Processor, outcome: Outcome)
    requires (q, outcome) == Process(cfg, p, m)
    ensures 0 < m.generation < p.generation ==> outcome.Ignored? && q == p
    ensures m.generation == 0 ==> outcome.Invalid?
    ensures m.generation >= p.generation && !ValidEvent(cfg, m.messageType, m.event) ==> outcome.Invalid?
  {
  }

  // ---------- Streams ----------

  /** A valid message of the connection that is a snapshot, or a delta with the number after the
      message before it and a higher sequence. */
  ghost predicate Linked(cfg: Config, generation: nat, messages: seq<Message>, i: nat)
    requires i < |messages|
  {
    && messages[i].generation == generation > 0
    && ValidEvent(cfg, messages[i].messageType, messages[i].event)
    && (messages[i].messageType == "delta" ==>
          && i > 0 && messages[i].event.updateID != 1
          && messages[i].event.updateID as int == messages[i - 1].event.updateID as int + 1
          && messages[i].event.sequence > messages[i - 1].event.sequence)
  }

  /** A stream that begins with a snapshot and has no hole. */
  ghost predicate Unbroken(cfg: Config, generation: nat, messages: seq<Message>) {
    forall i {:trigger Linked(cfg, generation, messages, i)} | 0 <= i < |messages| ::
      Linked(cfg, generation, messages, i)
  }

  /** The views added are those of the messages, one for each and in order. */
  ghost predicate ShowsEach(
    before: seq<Publication>, after: seq<Publication>, messages: seq<Message>, gapCount: nat)
  {
    && |after| == |before| + |messages| && after[..|before|] == before
    && forall i {:trigger messages[i]} | 0 <= i < |messages| ::
         && after[|before| + i].generation == messages[i].generation
         && after[|before| + i].gapCount == gapCount
         && after[|before| + i].book.updateID == messages[i].event.updateID
         && after[|before| + i].book.timestamp == messages[i].timestamp
         && after[|before| + i].book.matchingTime == messages[i].event.matchingTime
  }

  lemma ShowsEachSnoc(
    before: seq<Publication>, middle: seq<Publication>, next: Publication, messages: seq<Message>, gapCount: nat)
    requires messages != [] && ShowsEach(before, middle, messages[..|messages| - 1], gapCount)
    requires var m := messages[|messages| - 1];
             && next.generation == m.generation && next.gapCount == gapCount
             && next.book.updateID == m.event.updateID && next.book.timestamp == m.timestamp
             && next.book.matchingTime == m.event.matchingTime
    ensures ShowsEach(before, middle + [next], messages, gapCount)
  {
    var after, front := middle + [next], messages[..|messages| - 1];
    assert after[..|before|] == middle[..|before|];
    forall i {:trigger messages[i]} | 0 <= i < |messages|
      ensures after[|before| + i].generation == messages[i].generation && after[|before| + i].gapCount == gapCount
      ensures after[|before| + i].book.updateID == messages[i].event.updateID
      ensures after[|before| + i].book.timestamp == messages[i].timestamp
      ensures after[|before| + i].book.matchingTime == messages[i].event.matchingTime
    {
      if i < |front| {
        assert front[i] == messages[i] && after[|before| + i] == middle[|before| + i];
      }
    }
  }

  /** What stands after the last message of an unbroken stream. */
  ghost predicate StandsAt(p: Processor, m: Message) {
    && p.generation == m.generation && p.state.Some?
    && p.state.value.updateID == m.event.updateID && p.state.value.sequence == m.event.sequence
  }

  lemma LinkedIsShown(
    cfg: Config, p: Processor, generation: nat, messages: seq<Message>, i: nat, q: Processor, outcome: Outcome)
    requires i < |messages| && Linked(cfg, generation, messages, i) && p.generation <= generation
    requires i > 0 ==> StandsAt(p, messages[i - 1])
    requires i > 0 ==> messages[i - 1].generation == generation
    requires (q, outcome) == Process(cfg, p, messages[i])
    ensures ShowsMessage(q, outcome, messages[i]) && q.gapCount == p.gapCount
  {
    if messages[i].messageType == "snapshot" {
      SnapshotIsShown(cfg, p, messages[i], q, outcome);
    } else {
      DeltaIsShownExactly(cfg, p, messages[i], q, outcome);
    }
  }

  lemma FeedShows(cfg: Config, s: Run, generation: nat, messages: seq<Message>, i: nat, t: Run)
    returns (q: Processor, outcome: Outcome)
    requires i < |messages| && Linked(cfg, generation, messages, i) && !s.ended && s.p.generation <= generation
    requires i > 0 ==> StandsAt(s.p, messages[i - 1]) && messages[i - 1].generation == generation
    requires t == Feed(cfg, s, messages[i])
    ensures ShowsMessage(q, outcome, messages[i]) && q.gapCount == s.p.gapCount
    ensures t == Run(q, s.views + [outcome.publication], false)
  {
    q, outcome := Process(cfg, s.p, messages[i]).0, Process(cfg, s.p, messages[i]).1;
    LinkedIsShown(cfg, s.p, generation, messages, i, q, outcome);
  }

  /** All of the messages were shown, and the run goes on behind the last. */
  ghost predicate AllShown(r: Run, t: Run, generation: nat, messages: seq<Message>) {
    && !t.ended && t.p.gapCount == r.p.gapCount && t.p.generation <= generation
    && ShowsEach(r.views, t.views, messages, r.p.gapCount)
    && (messages != [] ==> StandsAt(t.p, messages[|messages| - 1]))
  }

  lemma ShownStep(r: Run, s: Run, t: Run, generation: nat, messages: seq<Message>, q: Processor, outcome: Outcome)
    requires messages != [] && messages[|messages| - 1].generation == generation
    requires AllShown(r, s, generation, messages[..|messages| - 1])
    requires ShowsMessage(q, outcome, messages[|messages| - 1]) && q.gapCount == s.p.gapCount
    requires t == Run(q, s.views + [outcome.publication], false)
    ensures AllShown(r, t, generation, messages)
  {
    ShowsEachSnoc(r.views, s.views, outcome.publication, messages, r.p.gapCount);
  }

  lemma StreamStep(cfg: Config, r: Run, s: Run, t: Run, generation: nat, messages: seq<Message>)
    requires messages != [] && Unbroken(cfg, generation, messages)
    requires AllShown(r, s, generation, messages[..|messages| - 1])
    requires t == Feed(cfg, s, messages[|messages| - 1])
    ensures AllShown(r, t, generation, messages)
  {
    var n := |messages| - 1;
    FrontUnbroken(cfg, generation, messages);
    assert n > 0 ==> messages[..n][n - 1] == messages[n - 1];
    var q, outcome := FeedShows(cfg, s, generation, messages, n, t);
    ShownStep(r, s, t, generation, messages, q, outcome);
  }

  lemma RunSnoc(cfg: Config, all: seq<Message>, front: seq<Message>, r: Run)
    requires all != [] && all[..|all| - 1] == front && r == RunOf(cfg, front)
    ensures RunOf(cfg, all) == Feed(cfg, r, all[|all| - 1])
  {
  }

  /** From any state of any run, also after a gap: a snapshot of a present or new connection and
      the messages behind it, numbered one after the other with rising sequences, are all shown. */
  lemma {:induction false} UnbrokenStreamIsShown(
    cfg: Config, before: seq<Message>, generation: nat, messages: seq<Message>, r: Run, t: Run)
    requires r == RunOf(cfg, before) && !r.ended && r.p.generation <= generation
    requires Unbroken(cfg, generation, messages) && t == RunOf(cfg, before + messages)
    ensures AllShown(r, t, generation, messages)
    decreases |messages|
  {
    if messages == [] {
      assert before + messages == before;
    } else {
      var front := messages[..|messages| - 1];
      var s := RunOf(cfg, before + front);
      FrontUnbroken(cfg, generation, messages);
      UnbrokenStreamIsShown(cfg, before, generation, front, r, s);
      var all := before + messages;
      assert all[..|all| - 1] == before + front && all[|all| - 1] == messages[|messages| - 1];
      RunSnoc(cfg, all, before + front, s);
      StreamStep(cfg, r, s, t, generation, messages);
    }
  }

  lemma FrontUnbroken(cfg: Config, generation: nat, messages: seq<Message>)
    requires Unbroken(cfg, generation, messages) && messages != []
    ensures Unbroken(cfg, generation, messages[..|messages| - 1])
    ensures Linked(cfg, generation, messages, |messages| - 1)
    ensures |messages| > 1 ==> messages[|messages| - 2].generation == generation
  {
    var front := messages[..|messages| - 1];
    assert Linked(cfg, generation, messages, |messages| - 1);
    if |messages| > 1 {
      assert Linked(cfg, generation, messages, |messages| - 2);
    }
    forall i {:trigger Linked(cfg, generation, front, i)} | 0 <= i < |front|
      ensures Linked(cfg, generation, front, i)
    {
      assert Linked(cfg, generation, messages, i);
    }
  }
}
