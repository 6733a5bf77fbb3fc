/** When the numbers of a Coinbase connection look like a gap (exchange/coinbase/local_order_book.go).
    The exchange numbers all messages of a connection; the processor remembers only the numbers of
    those about its product. */
module CoinbaseNumbering {
  import opened Integers
  import opened CoinbaseOrderBook

  // ---------- One message ----------

  /** A message the processor looks at: level2 data with an event of the product. */
  predicate AboutProduct(cfg: Config, m: Message) {
    m.channel == LEVEL2_DATA && exists i :: 0 <= i < |m.events| && m.events[i].productID == cfg.productID
  }

  /** A message that is no complaint, and whose events of the product are in order. */
  ghost predicate Sound(cfg: Config, m: Message) {
    && m.messageType != "error"
    && (m.channel == LEVEL2_DATA ==>
          && m.decodes && m.timestamp.parses
          && forall i {:trigger ValidEvent(cfg, m.events[i])} | 0 <= i < |m.events| ::
               m.events[i].productID == cfg.productID ==> ValidEvent(cfg, m.events[i]))
  }

  lemma {:induction false} TargetsOf(cfg: Config, events: seq<Event>)
    ensures TargetEvents(cfg, events) == []
        <==> forall i | 0 <= i < |events| :: events[i].productID != cfg.productID
    ensures (forall i {:trigger ValidEvent(cfg, events[i])} | 0 <= i < |events| ::
               events[i].productID == cfg.productID ==> ValidEvent(cfg, events[i]))
        ==> AllValid(cfg, TargetEvents(cfg, events))
  {
    if events != [] {
      var front := events[..|events| - 1];
      TargetsOf(cfg, front);
      assert forall i {:trigger ValidEvent(cfg, front[i])} | 0 <= i < |front| ::
          ValidEvent(cfg, front[i]) == ValidEvent(cfg, events[i]);
    }
  }

  /** A message that is not about the product is passed over, whatever number it carries. One of
      another channel does not even enter a new connection. */
  lemma OthersAreInvisible(cfg: Config, p: Processor, m: Message)
    requires Sound(cfg, m) && !AboutProduct(cfg, m)
    ensures m.channel != LEVEL2_DATA ==> Handle(cfg, p, m) == (p, Ignored)
    ensures m.channel == LEVEL2_DATA && m.generation > 0 ==>
              Handle(cfg, p, m) == (if m.generation < p.generation then p else EnterGeneration(p, m.generation), Ignored)
  {
    TargetsOf(cfg, m.events);
  }

  /** Valid events that find a book, or begin with a snapshot, are all taken. */
  lemma {:induction false} ValidEventsAreTaken(cfg: Config, p: Processor, timestamp: string, events: seq<Event>)
    requires AllValid(cfg, events)
    requires p.state.Some? || (events != [] && events[0].eventType == "snapshot")
    ensures var (q, progress) := EachEvent(cfg, p, timestamp, events);
            progress.Going? && q.state.Some?
    decreases |events|
  {
    if |events| == 1 {
      assert events[..0] == [];
      assert ValidEvent(cfg, events[0]);
    } else if events != [] {
      var front, last := events[..|events| - 1], events[|events| - 1];
      assert AllValid(cfg, front) by {
        forall i {:trigger ValidEvent(cfg, front[i])} | 0 <= i < |front| ensures ValidEvent(cfg, front[i]) {
          assert ValidEvent(cfg, events[i]);
        }
      }
      ValidEventsAreTaken(cfg, p, timestamp, front);
      assert ValidEvent(cfg, last);
    }
  }

  // ---------- A connection ----------

  /** How the processor stands after it has shown a message. */
  ghost predicate Stands(p: Processor, generation: nat, number: int) {
    && p.generation == generation && p.sequenceSet && p.state.Some?
    && p.sequenceNumber as int == number
  }

  /** The view of a message: it carries the message's own number, time and connection. */
  ghost predicate Shows(outcome: Outcome, m: Message) {
    && outcome.Published?
    && outcome.publication.sequenceNumber == m.sequenceNumber
    && outcome.publication.generation == m.generation
    && outcome.publication.book.timestamp == m.timestamp.text
  }

  /** A view counts no gap, and a synchronisation for every snapshot of the message. */
  ghost predicate Counts(p: Processor, q: Processor, outcome: Outcome, snapshots: nat) {
    && q.gapCount == p.gapCount && q.synchronizationID == p.synchronizationID + snapshots
    && outcome.Published? && outcome.publication.gapCount == q.gapCount
    && outcome.publication.synchronizationID == q.synchronizationID
  }

  /** The processor remembers nothing of the connection yet. */
  predicate Fresh(p: Processor, generation: nat) {
    p.generation < generation || (p.generation == generation > 0 && !p.sequenceSet && p.state.None?)
  }

  /** A message whose first event of the product is a snapshot. */
  predicate OpensWithSnapshot(cfg: Config, m: Message) {
    TargetEvents(cfg, m.events) != [] && TargetEvents(cfg, m.events)[0].eventType == "snapshot"
  }

  lemma OpeningIsShown(cfg: Config, p: Processor, m: Message)
    requires Fresh(p, m.generation) && Sound(cfg, m) && AboutProduct(cfg, m) && m.sequenceNumber >= 0
    requires OpensWithSnapshot(cfg, m)
    ensures var (q, outcome) := Handle(cfg, p, m);
            && Shows(outcome, m) && Stands(q, m.generation, m.sequenceNumber as int)
            && Counts(p, q, outcome, Snapshots(TargetEvents(cfg, m.events)))
  {
    var e, targets := EnterGeneration(p, m.generation), TargetEvents(cfg, m.events);
    TargetsOf(cfg, m.events);
    EachEventFacts(cfg, e, m.timestamp.text, targets);
    ValidEventsAreTaken(cfg, e, m.timestamp.text, targets);
  }

  /** Without a book, valid events that do not begin with a snapshot are a gap. */
  lemma {:induction false} UpdateNeedsBook(cfg: Config, p: Processor, timestamp: string, events: seq<Event>)
    requires AllValid(cfg, events) && events != [] && events[0].eventType != "snapshot" && p.state.None?
    ensures EachEvent(cfg, p, timestamp, events).1 == Stopped(Reconnect)
    decreases |events|
  {
    assert ValidEvent(cfg, events[0]);
    if |events| == 1 {
      assert events[..0] == [];
    } else {
      var front := events[..|events| - 1];
      assert AllValid(cfg, front) by {
        forall i {:trigger ValidEvent(cfg, front[i])} | 0 <= i < |front| ensures ValidEvent(cfg, front[i]) {
          assert ValidEvent(cfg, events[i]);
        }
      }
      UpdateNeedsBook(cfg, p, timestamp, front);
    }
  }

  lemma OpeningUpdateIsAGap(cfg: Config, p: Processor, m: Message)
    requires Fresh(p, m.generation) && Sound(cfg, m) && AboutProduct(cfg, m) && m.sequenceNumber >= 0
    requires !OpensWithSnapshot(cfg, m)
    ensures Handle(cfg, p, m).1.Reconnect?
  {
    TargetsOf(cfg, m.events);
    UpdateNeedsBook(cfg, EnterGeneration(p, m.generation), m.timestamp.text, TargetEvents(cfg, m.events));
  }

  /** With a remembered number: the next number is shown, a later one is a gap, any other is old. */
  lemma NumberDecides(cfg: Config, p: Processor, m: Message, number: int)
    requires Stands(p, m.generation, number) && m.generation > 0
    requires Sound(cfg, m) && AboutProduct(cfg, m) && m.sequenceNumber >= 0
    ensures var (q, outcome) := Handle(cfg, p, m);
            && (m.sequenceNumber as int == number + 1 ==>
                  && Shows(outcome, m) && Stands(q, m.generation, number + 1)
                  && Counts(p, q, outcome, Snapshots(TargetEvents(cfg, m.events))))
            && (outcome.Reconnect? <==> m.sequenceNumber as int > number + 1)
            && (outcome.Ignored? <==> m.sequenceNumber as int <= number)
  {
    var targets := TargetEvents(cfg, m.events);
    TargetsOf(cfg, m.events);
    EachEventFacts(cfg, p, m.timestamp.text, targets);
    ValidEventsAreTaken(cfg, p, m.timestamp.text, targets);
  }

  /** With a book, one invalid event among them stops the loop as a complaint. */
  lemma {:induction false} InvalidEventStops(cfg: Config, p: Processor, timestamp: string, events: seq<Event>)
    requires p.state.Some? && !AllValid(cfg, events)
    ensures EachEvent(cfg, p, timestamp, events).1 == Stopped(Invalid)
    decreases |events|
  {
    var front := events[..|events| - 1];
    if AllValid(cfg, front) {
      ValidEventsAreTaken(cfg, p, timestamp, front);
      assert !ValidEvent(cfg, events[|events| - 1]) by {
        assert forall i {:trigger ValidEvent(cfg, events[i])} | 0 <= i < |front| ::
            ValidEvent(cfg, front[i]) == ValidEvent(cfg, events[i]);
      }
    } else {
      InvalidEventStops(cfg, p, timestamp, front);
    }
  }

  /** What ends a run: an error message, level2 data that cannot be decoded or has no connection, and
      a message about the product that is not passed over or a gap and has a negative number, a
      time or, on top of a book, an event that is not valid. */
  lemma InvalidMessagesEndTheRun(cfg: Config, p: Processor, m: Message, outcome: Outcome)
    requires outcome == Handle(cfg, p, m).1
    ensures m.messageType == "error" ==> outcome.Invalid?
    ensures m.channel == LEVEL2_DATA && (!m.decodes || m.generation == 0) ==> outcome.Invalid?
    ensures m.channel == LEVEL2_DATA && m.generation >= p.generation && TargetEvents(cfg, m.events) != [] ==>
              && (m.sequenceNumber < 0 ==> outcome.Invalid?)
              && (Fresh(p, m.generation) && !m.timestamp.parses ==> outcome.Invalid?)
              && (Stands(p, m.generation, m.sequenceNumber as int - 1) ==>
                    (!m.timestamp.parses || !AllValid(cfg, TargetEvents(cfg, m.events)) ==> outcome.Invalid?))
  {
    if Stands(p, m.generation, m.sequenceNumber as int - 1) && !AllValid(cfg, TargetEvents(cfg, m.events)) {
      InvalidEventStops(cfg, p, m.timestamp.text, TargetEvents(cfg, m.events));
    }
  }

  // ---------- A whole connection ----------

  /** The processor after some messages. */
  ghost function From(cfg: Config, p: Processor, messages: seq<Message>): Processor {
    if messages == [] then p
    else Handle(cfg, From(cfg, p, messages[..|messages| - 1]), messages[|messages| - 1]).0
  }

  /** What comes of message i. */
  ghost function OutcomeAt(cfg: Config, p: Processor, messages: seq<Message>, i: nat): Outcome
    requires i < |messages|
  {
    Handle(cfg, From(cfg, p, messages[..i]), messages[i]).1
  }

  /** A run that has not ended is the run of its messages one by one. */
  lemma {:induction false} FromIsRun(cfg: Config, before: seq<Message>, messages: seq<Message>)
    requires !RunOf(cfg, before + messages).ended
    ensures !RunOf(cfg, before).ended
    ensures RunOf(cfg, before + messages).p == From(cfg, RunOf(cfg, before).p, messages)
  {
    if messages == [] {
      assert before + messages == before;
    } else {
      var front := messages[..|messages| - 1];
      assert (before + messages)[..|before + messages| - 1] == before + front;
      FromIsRun(cfg, before, front);
    }
  }

  ghost predicate Numbered(cfg: Config, generation: nat, messages: seq<Message>, i: nat)
    requires i < |messages|
  {
    && messages[i].generation == generation > 0 && Sound(cfg, messages[i])
    && messages[i].sequenceNumber as int == messages[0].sequenceNumber as int + i >= 0
  }

  /** A healthy connection: sound messages of any channel and product, numbered one after the
      other. */
  ghost predicate Healthy(cfg: Config, generation: nat, messages: seq<Message>) {
    forall i {:trigger Numbered(cfg, generation, messages, i)} | 0 <= i < |messages| ::
      Numbered(cfg, generation, messages, i)
  }

  /** No other message comes between two messages about the product. */
  ghost predicate OneBlock(cfg: Config, messages: seq<Message>) {
    forall i, k, j
      {:trigger AboutProduct(cfg, messages[i]), AboutProduct(cfg, messages[k]), AboutProduct(cfg, messages[j])}
      | 0 <= i < k < j < |messages| && AboutProduct(cfg, messages[i]) && AboutProduct(cfg, messages[j]) ::
      AboutProduct(cfg, messages[k])
  }

  /** The first message about the product, if there is one, opens with its snapshot, and no other
      message comes between two messages about the product. */
  ghost predicate BeginsAndStays(cfg: Config, messages: seq<Message>) {
    var f := NextAbout(cfg, messages, 0);
    f == |messages| || (OpensWithSnapshot(cfg, messages[f]) && OneBlock(cfg, messages))
  }

  ghost predicate NeverReconnects(cfg: Config, p: Processor, messages: seq<Message>) {
    forall i {:trigger OutcomeAt(cfg, p, messages, i)} | 0 <= i < |messages| ::
      !OutcomeAt(cfg, p, messages, i).Reconnect?
  }

  lemma OneMore(cfg: Config, p: Processor, messages: seq<Message>, n: nat)
    requires n < |messages|
    ensures From(cfg, p, messages[..n + 1]) == Handle(cfg, From(cfg, p, messages[..n]), messages[n]).0
  {
    assert messages[..n + 1][..n] == messages[..n];
  }

  /** Messages ahead of the first about the product leave nothing behind. */
  lemma {:induction false} LeadersPassBy(
    cfg: Config, p: Processor, generation: nat, messages: seq<Message>, n: nat)
    requires Healthy(cfg, generation, messages) && Fresh(p, generation) && n <= |messages|
    requires forall i | 0 <= i < n :: !AboutProduct(cfg, messages[i])
    ensures Fresh(From(cfg, p, messages[..n]), generation)
  {
    if n > 0 {
      LeadersPassBy(cfg, p, generation, messages, n - 1);
      assert Numbered(cfg, generation, messages, n - 1);
      OneMore(cfg, p, messages, n - 1);
      OthersAreInvisible(cfg, From(cfg, p, messages[..n - 1]), messages[n - 1]);
    }
  }

  lemma OtherIsIgnored(cfg: Config, p: Processor, generation: nat, messages: seq<Message>, n: nat)
    requires Healthy(cfg, generation, messages) && n < |messages| && !AboutProduct(cfg, messages[n])
    ensures OutcomeAt(cfg, p, messages, n) == Ignored
  {
    assert Numbered(cfg, generation, messages, n);
    OthersAreInvisible(cfg, From(cfg, p, messages[..n]), messages[n]);
  }

  lemma FirstIsShown(cfg: Config, p: Processor, generation: nat, messages: seq<Message>, f: nat)
    requires Healthy(cfg, generation, messages) && Fresh(p, generation) && Opening(cfg, messages, f)
    ensures Stands(From(cfg, p, messages[..f + 1]), generation, messages[f].sequenceNumber as int)
    ensures Shows(OutcomeAt(cfg, p, messages, f), messages[f])
  {
    assert Numbered(cfg, generation, messages, f);
    LeadersPassBy(cfg, p, generation, messages, f);
    OneMore(cfg, p, messages, f);
    OpeningIsShown(cfg, From(cfg, p, messages[..f]), messages[f]);
  }

  /** Message f is the first about the product, and opens with its snapshot. */
  ghost predicate Opening(cfg: Config, messages: seq<Message>, f: nat) {
    && f < |messages| && AboutProduct(cfg, messages[f]) && OpensWithSnapshot(cfg, messages[f])
    && forall i | 0 <= i < f :: !AboutProduct(cfg, messages[i])
  }

  lemma NextIsShown(cfg: Config, p: Processor, generation: nat, messages: seq<Message>, n: nat)
    requires Healthy(cfg, generation, messages) && 0 < n < |messages| && AboutProduct(cfg, messages[n])
    requires Stands(From(cfg, p, messages[..n]), generation, messages[n - 1].sequenceNumber as int)
    ensures Stands(From(cfg, p, messages[..n + 1]), generation, messages[n].sequenceNumber as int)
    ensures Shows(OutcomeAt(cfg, p, messages, n), messages[n])
  {
    assert Numbered(cfg, generation, messages, n) && Numbered(cfg, generation, messages, n - 1);
    OneMore(cfg, p, messages, n);
    NumberDecides(cfg, From(cfg, p, messages[..n]), messages[n], messages[n - 1].sequenceNumber as int);
  }

  /** From its opening, as long as every message is about the product, the processor keeps up. */
  lemma {:induction false} KeepsUp(
    cfg: Config, p: Processor, generation: nat, messages: seq<Message>, f: nat, n: nat)
    requires Healthy(cfg, generation, messages) && Fresh(p, generation) && Opening(cfg, messages, f)
    requires f < n <= |messages| && forall i | f <= i < n :: AboutProduct(cfg, messages[i])
    ensures Stands(From(cfg, p, messages[..n]), generation, messages[n - 1].sequenceNumber as int)
    ensures Shows(OutcomeAt(cfg, p, messages, n - 1), messages[n - 1])
    decreases n
  {
    if n == f + 1 {
      FirstIsShown(cfg, p, generation, messages, f);
    } else {
      KeepsUp(cfg, p, generation, messages, f, n - 1);
      NextIsShown(cfg, p, generation, messages, n - 1);
    }
  }

  /** While no message is about the product, the processor stays as it is. */
  lemma {:induction false} OthersPassBy(
    cfg: Config, p: Processor, generation: nat, messages: seq<Message>, k: nat, n: nat)
    requires Healthy(cfg, generation, messages) && k <= n <= |messages|
    requires From(cfg, p, messages[..k]).generation == generation
    requires forall i | k <= i < n :: !AboutProduct(cfg, messages[i])
    ensures From(cfg, p, messages[..n]) == From(cfg, p, messages[..k])
    decreases n
  {
    if k < n {
      OthersPassBy(cfg, p, generation, messages, k, n - 1);
      assert Numbered(cfg, generation, messages, n - 1);
      OneMore(cfg, p, messages, n - 1);
      OthersAreInvisible(cfg, From(cfg, p, messages[..n - 1]), messages[n - 1]);
    }
  }

  /** Where the messages about the product stop for the first time. */
  ghost function FirstOther(cfg: Config, messages: seq<Message>, from: nat): (k: nat)
    requires from <= |messages|
    ensures from <= k <= |messages|
    ensures forall i | from <= i < k :: AboutProduct(cfg, messages[i])
    ensures k < |messages| ==> !AboutProduct(cfg, messages[k])
    decreases |messages| - from
  {
    if from < |messages| && AboutProduct(cfg, messages[from]) then FirstOther(cfg, messages, from + 1) else from
  }

  /** And where they come back. */
  ghost function NextAbout(cfg: Config, messages: seq<Message>, from: nat): (j: nat)
    requires from <= |messages|
    ensures from <= j <= |messages|
    ensures forall i | from <= i < j :: !AboutProduct(cfg, messages[i])
    ensures j < |messages| ==> AboutProduct(cfg, messages[j])
    decreases |messages| - from
  {
    if from < |messages| && !AboutProduct(cfg, messages[from]) then NextAbout(cfg, messages, from + 1) else from
  }

  /** The first message about the product behind one that is not is taken for a gap. */
  lemma HoleIsAGap(
    cfg: Config, p: Processor, generation: nat, messages: seq<Message>, f: nat, k: nat, j: nat)
    requires Healthy(cfg, generation, messages) && Fresh(p, generation) && Opening(cfg, messages, f)
    requires f < k < j < |messages| && AboutProduct(cfg, messages[j])
    requires forall i | f <= i < k :: AboutProduct(cfg, messages[i])
    requires forall i | k <= i < j :: !AboutProduct(cfg, messages[i])
    ensures OutcomeAt(cfg, p, messages, j).Reconnect?
  {
    KeepsUp(cfg, p, generation, messages, f, k);
    OthersPassBy(cfg, p, generation, messages, k, j);
    assert Numbered(cfg, generation, messages, k - 1) && Numbered(cfg, generation, messages, j);
    NumberDecides(cfg, From(cfg, p, messages[..j]), messages[j], messages[k - 1].sequenceNumber as int);
  }

  lemma UpdateAtTheStartIsAGap(cfg: Config, p: Processor, generation: nat, messages: seq<Message>, f: nat)
    requires Healthy(cfg, generation, messages) && Fresh(p, generation) && f < |messages|
    requires AboutProduct(cfg, messages[f]) && !OpensWithSnapshot(cfg, messages[f])
    requires forall i | 0 <= i < f :: !AboutProduct(cfg, messages[i])
    ensures OutcomeAt(cfg, p, messages, f).Reconnect?
  {
    assert Numbered(cfg, generation, messages, f);
    LeadersPassBy(cfg, p, generation, messages, f);
    OpeningUpdateIsAGap(cfg, From(cfg, p, messages[..f]), messages[f]);
  }

  /** One block of messages about the product, from f to k: all of them are shown. */
  lemma BlockIsShown(
    cfg: Config, p: Processor, generation: nat, messages: seq<Message>, f: nat, k: nat)
    requires Healthy(cfg, generation, messages) && Fresh(p, generation) && Opening(cfg, messages, f)
    requires f < k <= |messages|
    requires forall i | f <= i < k :: AboutProduct(cfg, messages[i])
    requires forall i | k <= i < |messages| :: !AboutProduct(cfg, messages[i])
    ensures forall i | 0 <= i < |messages| && AboutProduct(cfg, messages[i]) ::
              Shows(OutcomeAt(cfg, p, messages, i), messages[i])
  {
    forall i | 0 <= i < |messages| && AboutProduct(cfg, messages[i])
      ensures Shows(OutcomeAt(cfg, p, messages, i), messages[i])
    {
      KeepsUp(cfg, p, generation, messages, f, i + 1);
    }
  }

  lemma ShownMeansNoReconnect(cfg: Config, p: Processor, generation: nat, messages: seq<Message>)
    requires Healthy(cfg, generation, messages)
    requires forall i | 0 <= i < |messages| && AboutProduct(cfg, messages[i]) ::
               Shows(OutcomeAt(cfg, p, messages, i), messages[i])
    ensures NeverReconnects(cfg, p, messages)
  {
    forall i {:trigger OutcomeAt(cfg, p, messages, i)} | 0 <= i < |messages|
      ensures !OutcomeAt(cfg, p, messages, i).Reconnect?
    {
      if !AboutProduct(cfg, messages[i]) {
        OtherIsIgnored(cfg, p, generation, messages, i);
      }
    }
  }

  /** Over every healthy connection: no gap is ever reported if and only if the first message about
      the product opens with a snapshot and no other message comes between two about the product;
      then each of these is shown. A heartbeat, which the public stream always subscribes, between
      two of them is enough to give the connection up; one ahead of the first is not. */
  lemma GivesUpExactly(cfg: Config, p: Processor, generation: nat, messages: seq<Message>)
    requires Healthy(cfg, generation, messages) && Fresh(p, generation)
    ensures NeverReconnects(cfg, p, messages) <==> BeginsAndStays(cfg, messages)
    ensures BeginsAndStays(cfg, messages) ==>
              forall i | 0 <= i < |messages| && AboutProduct(cfg, messages[i]) ::
                Shows(OutcomeAt(cfg, p, messages, i), messages[i])
  {
    var f := NextAbout(cfg, messages, 0);
    if f == |messages| {
      ShownMeansNoReconnect(cfg, p, generation, messages);
    } else if !OpensWithSnapshot(cfg, messages[f]) {
      UpdateAtTheStartIsAGap(cfg, p, generation, messages, f);
    } else {
      var k := FirstOther(cfg, messages, f);
      var j := NextAbout(cfg, messages, k);
      if j < |messages| {
        HoleIsAGap(cfg, p, generation, messages, f, k, j);
        assert AboutProduct(cfg, messages[f]) && !AboutProduct(cfg, messages[k]) && AboutProduct(cfg, messages[j]);
      } else {
        BlockIsShown(cfg, p, generation, messages, f, k);
        ShownMeansNoReconnect(cfg, p, generation, messages);
      }
    }
  }

  // ---------- What the run shows of it ----------

  lemma {:induction false} ValidEventsAreNoComplaint(
    cfg: Config, p: Processor, timestamp: string, events: seq<Event>)
    requires AllValid(cfg, events)
    ensures var progress := EachEvent(cfg, p, timestamp, events).1;
            progress.Stopped? ==> progress.outcome.Reconnect?
  {
    if events != [] {
      var front, last := events[..|events| - 1], events[|events| - 1];
      assert AllValid(cfg, front) by {
        forall i {:trigger ValidEvent(cfg, front[i])} | 0 <= i < |front| ensures ValidEvent(cfg, front[i]) {
          assert ValidEvent(cfg, events[i]);
        }
      }
      ValidEventsAreNoComplaint(cfg, p, timestamp, front);
      assert ValidEvent(cfg, last);
    }
  }

  /** A sound message never ends the run, and counts a gap exactly when it asks for a reconnect. */
  lemma SoundIsCounted(cfg: Config, p: Processor, m: Message)
    requires Sound(cfg, m) && m.generation > 0 && m.sequenceNumber >= 0 && p.generation <= m.generation
    ensures var (q, outcome) := Handle(cfg, p, m);
            && !outcome.Invalid? && q.generation <= m.generation
            && q.gapCount == p.gapCount + (if outcome.Reconnect? then 1 else 0)
  {
    var e, targets := EnterGeneration(p, m.generation), TargetEvents(cfg, m.events);
    TargetsOf(cfg, m.events);
    if m.channel == LEVEL2_DATA {
      EachEventFacts(cfg, e, m.timestamp.text, targets);
      ValidEventsAreNoComplaint(cfg, e, m.timestamp.text, targets);
    }
  }

  lemma {:induction false} GapsAreCounted(
    cfg: Config, p: Processor, generation: nat, messages: seq<Message>, n: nat)
    requires Healthy(cfg, generation, messages) && p.generation <= generation && n <= |messages|
    ensures var q := From(cfg, p, messages[..n]);
            && q.generation <= generation && q.gapCount >= p.gapCount
            && (q.gapCount == p.gapCount <==>
                  forall i {:trigger OutcomeAt(cfg, p, messages, i)} | 0 <= i < n ::
                    !OutcomeAt(cfg, p, messages, i).Reconnect?)
  {
    if n > 0 {
      GapsAreCounted(cfg, p, generation, messages, n - 1);
      assert Numbered(cfg, generation, messages, n - 1);
      OneMore(cfg, p, messages, n - 1);
      SoundIsCounted(cfg, From(cfg, p, messages[..n - 1]), messages[n - 1]);
      var last := OutcomeAt(cfg, p, messages, n - 1);
      assert !last.Reconnect? <==> From(cfg, p, messages[..n]).gapCount == From(cfg, p, messages[..n - 1]).gapCount;
    }
  }

  lemma SoundGoesOn(cfg: Config, r: Run, m: Message)
    requires !r.ended && r.p.generation <= m.generation
    requires Sound(cfg, m) && m.generation > 0 && m.sequenceNumber >= 0
    ensures !Advance(cfg, r, m).ended && Advance(cfg, r, m).p.generation <= m.generation
  {
    SoundIsCounted(cfg, r.p, m);
  }

  lemma {:induction false} HealthyGoesOn(
    cfg: Config, before: seq<Message>, generation: nat, messages: seq<Message>, n: nat)
    requires !RunOf(cfg, before).ended && RunOf(cfg, before).p.generation <= generation
    requires Healthy(cfg, generation, messages) && n <= |messages|
    ensures !RunOf(cfg, before + messages[..n]).ended
    ensures RunOf(cfg, before + messages[..n]).p.generation <= generation
  {
    if n == 0 {
      assert before + messages[..0] == before;
    } else {
      var run := before + messages[..n];
      HealthyGoesOn(cfg, before, generation, messages, n - 1);
      assert Numbered(cfg, generation, messages, n - 1);
      assert run[..|run| - 1] == before + messages[..n - 1] && run[|run| - 1] == messages[n - 1];
      SoundGoesOn(cfg, RunOf(cfg, before + messages[..n - 1]), messages[n - 1]);
    }
  }

  /** The same about whole runs: whatever came before, a healthy connection that the processor
      remembers nothing of does not end the run, and it raises the gap count unless it begins and
      stays as above. */
  lemma RunGivesUpExactly(
    cfg: Config, before: seq<Message>, generation: nat, messages: seq<Message>, r: Run, t: Run)
    requires r == RunOf(cfg, before) && !r.ended && Fresh(r.p, generation)
    requires Healthy(cfg, generation, messages) && t == RunOf(cfg, before + messages)
    ensures !t.ended && t.p.gapCount >= r.p.gapCount
    ensures t.p.gapCount == r.p.gapCount <==> BeginsAndStays(cfg, messages)
  {
    assert messages[..|messages|] == messages;
    HealthyGoesOn(cfg, before, generation, messages, |messages|);
    FromIsRun(cfg, before, messages);
    GapsAreCounted(cfg, r.p, generation, messages, |messages|);
    GivesUpExactly(cfg, r.p, generation, messages);
  }

  // ---------- Two connections that are given up, and one that is not ----------

  const NOON := Time("2026-01-01T12:00:00Z", true)

  function Level2(number: int64, productID: string, eventType: string): Message {
    Message("", LEVEL2_DATA, 1, number, NOON, true, [Event(eventType, productID, [])])
  }

  function Heartbeat(number: int64): Message {
    Message("", "heartbeats", 1, number, NOON, true, [])
  }

  lemma OneEventIsTarget(cfg: Config, number: int64, eventType: string)
    requires eventType == "snapshot" || eventType == "update"
    ensures var m := Level2(number, cfg.productID, eventType);
            AboutProduct(cfg, m) && TargetEvents(cfg, m.events) == m.events && Sound(cfg, m)
  {
    var m := Level2(number, cfg.productID, eventType);
    assert m.events[..0] == [];
    assert m.events == [m.events[0]];
  }

  lemma ThreeInARow(cfg: Config, first: Message, other: Message, second: Message, messages: seq<Message>)
    requires first.generation == other.generation == second.generation == 1
    requires Sound(cfg, first) && Sound(cfg, other) && Sound(cfg, second)
    requires first.sequenceNumber == 0 && other.sequenceNumber == 1 && second.sequenceNumber == 2
    requires messages == [first, other, second]
    ensures forall i {:trigger Numbered(cfg, 1, messages, i)} | 0 <= i < |messages| ::
              Numbered(cfg, 1, messages, i)
  {
  }

  lemma MiddleOneIsAGap(cfg: Config, messages: seq<Message>)
    requires Healthy(cfg, 1, messages) && |messages| == 3 && Opening(cfg, messages, 0)
    requires !AboutProduct(cfg, messages[1]) && AboutProduct(cfg, messages[2])
    ensures OutcomeAt(cfg, START, messages, 2).Reconnect?
  {
    HoleIsAGap(cfg, START, 1, messages, 0, 1, 2);
  }

  lemma ThreeAreHealthy(cfg: Config, other: Message, messages: seq<Message>)
    requires other.generation == 1 && other.sequenceNumber == 1 && Sound(cfg, other)
    requires messages == [Level2(0, cfg.productID, "snapshot"), other, Level2(2, cfg.productID, "update")]
    ensures Healthy(cfg, 1, messages) && Opening(cfg, messages, 0) && AboutProduct(cfg, messages[2])
  {
    OneEventIsTarget(cfg, 0, "snapshot");
    OneEventIsTarget(cfg, 2, "update");
    ThreeInARow(cfg, messages[0], other, messages[2], messages);
  }

  /** A heartbeat between two book messages of a single product. */
  lemma HeartbeatLooksLikeAGap(cfg: Config, messages: seq<Message>)
    requires messages ==
               [Level2(0, cfg.productID, "snapshot"), Heartbeat(1), Level2(2, cfg.productID, "update")]
    ensures Healthy(cfg, 1, messages) && OutcomeAt(cfg, START, messages, 2).Reconnect?
  {
    ThreeAreHealthy(cfg, Heartbeat(1), messages);
    MiddleOneIsAGap(cfg, messages);
  }

  /** A level2 message about another product between two about this one. */
  lemma OtherProductLooksLikeAGap(cfg: Config, other: string, messages: seq<Message>)
    requires other != cfg.productID
    requires messages ==
               [Level2(0, cfg.productID, "snapshot"), Level2(1, other, "update"), Level2(2, cfg.productID, "update")]
    ensures Healthy(cfg, 1, messages) && OutcomeAt(cfg, START, messages, 2).Reconnect?
  {
    ThreeAreHealthy(cfg, Level2(1, other, "update"), messages);
    MiddleOneIsAGap(cfg, messages);
  }

  /** A heartbeat ahead of the first snapshot does no harm. */
  lemma LeadingHeartbeatIsHarmless(cfg: Config, messages: seq<Message>)
    requires messages ==
               [Heartbeat(0), Level2(1, cfg.productID, "snapshot"), Level2(2, cfg.productID, "update")]
    ensures Healthy(cfg, 1, messages) && NeverReconnects(cfg, START, messages)
  {
    OneEventIsTarget(cfg, 1, "snapshot");
    OneEventIsTarget(cfg, 2, "update");
    ThreeInARow(cfg, messages[0], messages[1], messages[2], messages);
    FirstAfterOne(cfg, messages);
    GivesUpExactly(cfg, START, 1, messages);
  }

  lemma FirstAfterOne(cfg: Config, messages: seq<Message>)
    requires |messages| == 3 && !AboutProduct(cfg, messages[0])
    requires AboutProduct(cfg, messages[1]) && OpensWithSnapshot(cfg, messages[1])
    requires AboutProduct(cfg, messages[2])
    ensures BeginsAndStays(cfg, messages)
  {
    assert NextAbout(cfg, messages, 1) == 1;
  }
}
