/** What every message makes the Bitget order book do (exchange/bitget/local_order_book.go), said in
    sequences. */
module BitgetProgress {
  import opened Results
  import opened BookLevels
  import opened BitgetOrderBook

  ghost predicate OneValid(message: Message, generation: nat) {
    && message.generation == generation > 0 && |message.updates| == 1
    && ValidUpdate(message.action, message.updates[0], message.timestamp)
  }

  /** The connection is new, or the present one and not given up. */
  predicate Listens(m: Machine, generation: nat) {
    m.generation < generation || (m.generation == generation && m.recovery != generation)
  }

  /** The book in hand and the view handed over are those of this message. */
  ghost predicate ShowsMessage(n: Machine, outcome: Outcome, message: Message, maxDepth: Option<int>)
    requires |message.updates| == 1
  {
    var update := message.updates[0];
    && n.state.Some? && n.generation == message.generation && n.recovery != n.generation
    && outcome == Published(Publication(n.generation, n.synchronizationID, n.gapCount, n.state.value,
                                        if message.action == "snapshot" then None else Some(update.previousSequence)))
    && n.state.value.sequence == update.sequence
    && n.state.value.timestamp == (if update.timestamp.Number? then update.timestamp.value else message.timestamp)
    && n.state.value.maxDepth == (if update.maxDepth.Number? then Some(update.maxDepth.value) else maxDepth)
    && n.state.value.bridged == (message.action == "update")
  }

  /** A gap: counted, the book dropped and the connection given up. */
  ghost predicate GivesUp(m: Machine, n: Machine, outcome: Outcome, generation: nat) {
    && outcome == Recover
    && n == m.(generation := generation, gapCount := m.gapCount + 1, state := None, recovery := generation)
  }

  /** With a book, an update that goes forward is shown exactly when it bridges the snapshot, or
      when it begins where the chain stands. Once bridged, a repetition of the last sequence is
      passed over. Everything else gives the connection up. */
  lemma UpdateIsShownExactly(m: Machine, message: Message, n: Machine, outcome: Outcome)
    requires m.state.Some? && m.recovery != m.generation && OneValid(message, m.generation)
    requires message.action == "update" && (n, outcome) == Handle(m, message)
    ensures var book, from, until :=
              m.state.value, message.updates[0].previousSequence, message.updates[0].sequence;
            && (outcome.Published? <==>
                  from < until && if book.bridged then 0 != from == book.sequence else from <= book.sequence <= until)
            && (outcome.Ignored? <==> from < until && book.bridged && from != 0 && until == book.sequence)
            && (!outcome.Published? && !outcome.Ignored? ==> GivesUp(m, n, outcome, m.generation))
    ensures outcome.Published? ==>
              && ShowsMessage(n, outcome, message, m.state.value.maxDepth)
              && n.gapCount == m.gapCount && n.synchronizationID == m.synchronizationID
    ensures outcome.Ignored? ==> n == m
  {
  }

  /** Without a book of its connection no update is shown. */
  lemma UpdateNeedsBook(m: Machine, message: Message, generation: nat, n: Machine, outcome: Outcome)
    requires Listens(m, generation) && (m.generation == generation ==> m.state.None?)
    requires OneValid(message, generation) && message.action == "update" && (n, outcome) == Handle(m, message)
    ensures GivesUp(m, n, outcome, generation)
  {
  }

  /** A snapshot of a connection not given up is always shown, and begins a synchronisation. */
  lemma SnapshotIsShown(m: Machine, message: Message, generation: nat, n: Machine, outcome: Outcome)
    requires Listens(m, generation) && OneValid(message, generation) && message.action == "snapshot"
    requires (n, outcome) == Handle(m, message)
    ensures ShowsMessage(n, outcome, message, None)
    ensures n.gapCount == m.gapCount && n.synchronizationID == m.synchronizationID + 1
  {
  }

  /** Messages of older connections and of one given up are passed over, valid or not; all other
      invalid ones end the run. */
  lemma OtherMessages(m: Machine, message: Message, n: Machine, outcome: Outcome)
    requires message.generation > 0 && (n, outcome) == Handle(m, message)
    ensures !Listens(m, message.generation) ==> (n, outcome) == (m, Ignored)
    ensures Listens(m, message.generation) && !OneValid(message, message.generation) ==> outcome.Invalid?
  {
  }

  // ---------- Streams ----------

  /** Message i is valid, belongs to the connection, and is a snapshot or fits the message before
      it: bridges a snapshot, or begins where an update ended. */
  ghost predicate Linked(messages: seq<Message>, generation: nat, i: nat)
    requires i < |messages|
  {
    && OneValid(messages[i], generation)
    && (messages[i].action == "update" ==>
          i > 0 && |messages[i - 1].updates| == 1
          && Succeeds(messages[i - 1].updates[0].sequence, messages[i - 1].action == "update", messages[i].updates[0]))
  }

  predicate Succeeds(sequence: int, bridged: bool, update: Update) {
    if bridged then update.previousSequence == sequence < update.sequence
    else update.previousSequence <= sequence <= update.sequence && update.previousSequence < update.sequence
  }

  ghost predicate Unbroken(messages: seq<Message>, generation: nat) {
    forall i {:trigger Linked(messages, generation, i)} | 0 <= i < |messages| :: Linked(messages, generation, i)
  }

  ghost predicate ShownAs(e: Event, message: Message, gapCount: nat) {
    && e.Shown? && |message.updates| == 1
    && e.publication.generation == message.generation && e.publication.gapCount == gapCount
    && e.publication.book.sequence == message.updates[0].sequence
    && e.publication.book.timestamp == TimestampOf(message.updates[0], message.timestamp)
  }

  ghost predicate StandsAt(m: Machine, message: Message) {
    && |message.updates| == 1
    && m.generation == message.generation && m.recovery != m.generation && m.state.Some?
    && m.state.value.sequence == message.updates[0].sequence && message.updates[0].sequence > 0
    && m.state.value.bridged == (message.action == "update")
  }

  /** Every message was shown, nothing counted as a gap, and the run goes on behind the last. */
  ghost predicate AllShown(r: Run, t: Run, messages: seq<Message>) {
    && !t.ended && t.machine.gapCount == r.machine.gapCount
    && |t.events| == |r.events| + |messages| && t.events[..|r.events|] == r.events
    && (forall i {:trigger messages[i]} | 0 <= i < |messages| ::
          ShownAs(t.events[|r.events| + i], messages[i], r.machine.gapCount))
    && (if messages == [] then t == r else StandsAt(t.machine, messages[|messages| - 1]))
  }

  lemma LinkedIsShown(
    m: Machine, messages: seq<Message>, generation: nat, i: nat, n: Machine, outcome: Outcome)
    requires i < |messages| && Linked(messages, generation, i)
    requires if i == 0 then Listens(m, generation)
             else StandsAt(m, messages[i - 1]) && messages[i - 1].generation == generation
    requires (n, outcome) == Handle(m, messages[i])
    ensures outcome.Published? && ShownAs(Shown(outcome.publication), messages[i], m.gapCount)
    ensures n.gapCount == m.gapCount && StandsAt(n, messages[i])
  {
    if messages[i].action == "snapshot" {
      SnapshotIsShown(m, messages[i], generation, n, outcome);
    } else {
      UpdateIsShownExactly(m, messages[i], n, outcome);
    }
  }

  lemma AdvanceShows(s: Run, messages: seq<Message>, generation: nat, i: nat, t: Run)
    returns (n: Machine, e: Event)
    requires i < |messages| && Linked(messages, generation, i) && !s.ended && t == Advance(s, messages[i])
    requires if i == 0 then Listens(s.machine, generation)
             else StandsAt(s.machine, messages[i - 1]) && messages[i - 1].generation == generation
    ensures t == Run(n, s.events + [e], false) && ShownAs(e, messages[i], s.machine.gapCount)
    ensures n.gapCount == s.machine.gapCount && StandsAt(n, messages[i])
  {
    var outcome := Handle(s.machine, messages[i]).1;
    n := Handle(s.machine, messages[i]).0;
    LinkedIsShown(s.machine, messages, generation, i, n, outcome);
    e := Shown(outcome.publication);
  }

  lemma ShownSnoc(r: Run, s: Run, t: Run, messages: seq<Message>, n: Machine, e: Event)
    requires messages != [] && AllShown(r, s, messages[..|messages| - 1])
    requires t == Run(n, s.events + [e], false) && n.gapCount == r.machine.gapCount
    requires ShownAs(e, messages[|messages| - 1], r.machine.gapCount) && StandsAt(n, messages[|messages| - 1])
    ensures AllShown(r, t, messages)
  {
    var front := messages[..|messages| - 1];
    forall i {:trigger messages[i]} | 0 <= i < |messages|
      ensures ShownAs(t.events[|r.events| + i], messages[i], r.machine.gapCount)
    {
      if i < |front| {
        assert front[i] == messages[i] && t.events[|r.events| + i] == s.events[|r.events| + i];
      }
    }
  }

  lemma FrontUnbroken(messages: seq<Message>, generation: nat)
    requires messages != [] && Unbroken(messages, generation)
    ensures Unbroken(messages[..|messages| - 1], generation)
    ensures Linked(messages, generation, |messages| - 1)
    ensures |messages| > 1 ==> messages[|messages| - 2].generation == generation
  {
    var front := messages[..|messages| - 1];
    assert Linked(messages, generation, |messages| - 1);
    if |messages| > 1 {
      assert Linked(messages, generation, |messages| - 2);
    }
    forall i {:trigger Linked(front, generation, i)} | 0 <= i < |front| ensures Linked(front, generation, i) {
      assert Linked(messages, generation, i);
    }
  }

  lemma StreamStep(r: Run, s: Run, t: Run, messages: seq<Message>, generation: nat)
    requires messages != [] && Unbroken(messages, generation) && Listens(r.machine, generation)
    requires AllShown(r, s, messages[..|messages| - 1]) && t == Advance(s, messages[|messages| - 1])
    ensures AllShown(r, t, messages)
  {
    var k := |messages| - 1;
    FrontUnbroken(messages, generation);
    assert k > 0 ==> messages[..k][k - 1] == messages[k - 1];
    var n, e := AdvanceShows(s, messages, generation, k, t);
    ShownSnoc(r, s, t, messages, n, e);
  }

  lemma RunSnoc(all: seq<Message>, front: seq<Message>, r: Run)
    requires all != [] && all[..|all| - 1] == front && r == RunOf(front)
    ensures RunOf(all) == Advance(r, all[|all| - 1])
  {
  }

  /** From any state of any run, on a new connection after a gap too: a snapshot and updates that
      continue it without a hole are shown message by message, and nothing counts as a gap. */
  lemma {:induction false} UnbrokenStreamIsShown(
    before: seq<Message>, messages: seq<Message>, generation: nat, r: Run, t: Run)
    requires r == RunOf(before) && !r.ended && Listens(r.machine, generation)
    requires Unbroken(messages, generation) && t == RunOf(before + messages)
    ensures AllShown(r, t, messages)
    decreases |messages|
  {
    if messages == [] {
      assert before + messages == before;
    } else {
      var front := messages[..|messages| - 1];
      var s := RunOf(before + front);
      FrontUnbroken(messages, generation);
      UnbrokenStreamIsShown(before, front, generation, r, s);
      var all := before + messages;
      assert all[..|all| - 1] == before + front && all[|all| - 1] == messages[|messages| - 1];
      RunSnoc(all, before + front, s);
      StreamStep(r, s, t, messages, generation);
    }
  }
}
