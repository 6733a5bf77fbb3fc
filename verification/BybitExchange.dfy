/** The Bybit local order book (exchange/bybit/local_order_book.go) against the exchange's own book.

    The stream shows only the best `depth` levels of a side. What happens further down is never
    sent, so the local levels are no copy of the exchange's book; they are its best levels. */
module BybitExchange {
  import opened Results
  import opened Decimals
  import opened Sorting
  import opened BookLevels
  import opened BybitOrderBook

  // ---------- One side ----------

  /** What the exchange offers on one side: a quantity at each of its prices. */
  type Offers = map<real, real>

  ghost predicate Positive(offers: Offers) {
    forall p | p in offers :: offers[p] > 0.0
  }

  ghost function OfferAt(offers: Offers, p: real): real {
    if p in offers then offers[p] else 0.0
  }

  ghost function QuantitiesOf(offers: Offers): real -> real {
    p => OfferAt(offers, p)
  }

  ghost predicate AmongBest(offers: Offers, depth: nat, descending: bool, p: real) {
    p in SetOf(BestKeys(offers.Keys, depth, descending))
  }

  /** Every row gives its price's new quantity; a price that is not among the best after the
      change may also be deleted. */
  ghost predicate RowsAreTrue(after: Offers, rows: seq<Row>, depth: nat, descending: bool)
    requires ValidRows(rows)
  {
    forall i {:trigger rows[i]} | 0 <= i < |rows| ::
      || QuantityOf(rows[i]) == OfferAt(after, PriceOf(rows[i]))
      || (QuantityOf(rows[i]) == 0.0 && !AmongBest(after, depth, descending, PriceOf(rows[i])))
  }

  /** A price the stream has to mention: it is among the best and was not, or not with this
      quantity; or it was among the best and is no longer offered at all. */
  ghost predicate MustBeTold(before: Offers, after: Offers, depth: nat, descending: bool, p: real) {
    || (AmongBest(after, depth, descending, p)
        && (!AmongBest(before, depth, descending, p) || OfferAt(before, p) != OfferAt(after, p)))
    || (AmongBest(before, depth, descending, p) && p !in after)
  }

  /** The rows tell how the best `depth` levels changed from one book to the next. Nothing is said
      about changes further down, or about levels that merely fell out of the best. */
  ghost predicate TrueDelta(before: Offers, after: Offers, rows: seq<Row>, depth: nat, descending: bool) {
    && Positive(after) && ValidRows(rows)
    && RowsAreTrue(after, rows, depth, descending)
    && (forall p {:trigger LastQuantity(rows, p)} | MustBeTold(before, after, depth, descending, p) ::
          LastQuantity(rows, p).Some?)
  }

  /** The levels are the best `depth` offers with their quantities, and nothing else. */
  ghost predicate HoldsBest(levels: Levels, offers: Offers, depth: nat, descending: bool) {
    && WellFormed(levels) && Positive(offers)
    && (forall p {:trigger QuantityAt(levels, p)} ::
          QuantityAt(levels, p) == if AmongBest(offers, depth, descending, p) then OfferAt(offers, p) else 0.0)
  }

  /** Changes that leave the best levels and their quantities alone need no row at all. */
  lemma SilentBelowDepth(before: Offers, after: Offers, depth: nat, descending: bool)
    requires Positive(after) && BestKeys(before.Keys, depth, descending) == BestKeys(after.Keys, depth, descending)
    requires forall p | AmongBest(after, depth, descending, p) :: OfferAt(before, p) == OfferAt(after, p)
    ensures TrueDelta(before, after, [], depth, descending)
  {
    forall p ensures !MustBeTold(before, after, depth, descending, p) {
      if AmongBest(after, depth, descending, p) {
        BestAreOffered(after, depth, descending, p);
      }
    }
  }

  lemma BestAreOffered(offers: Offers, depth: nat, descending: bool, p: real)
    requires AmongBest(offers, depth, descending, p)
    ensures p in offers
  {
    BestKeysFacts(offers.Keys, depth, descending);
    var keys := BestKeys(offers.Keys, depth, descending);
    var i :| 0 <= i < |keys| && keys[i] == p;
  }

  /** What the rows make of one price before pruning. */
  lemma PriceIsTrue(
    levels: Levels, before: Offers, after: Offers, rows: seq<Row>, depth: nat, descending: bool, p: real)
    requires HoldsBest(levels, before, depth, descending)
    requires TrueDelta(before, after, rows, depth, descending)
    ensures WellFormed(ApplyRows(levels, rows))
    ensures QuantityAt(ApplyRows(levels, rows), p) > 0.0 ==> p in after
    ensures AmongBest(after, depth, descending, p) ==> QuantityAt(ApplyRows(levels, rows), p) == OfferAt(after, p)
  {
    ApplyRowsMeaning(levels, rows);
    LastQuantityIsListed(rows, p);
    if LastQuantity(rows, p).Some? {
      var i :| 0 <= i < |rows| && PriceOf(rows[i]) == p && QuantityOf(rows[i]) == LastQuantity(rows, p).value;
    } else {
      assert !MustBeTold(before, after, depth, descending, p);
    }
  }

  lemma SameSet<T>(s: set<T>, t: set<T>)
    requires forall x :: x in s <==> x in t
    ensures s == t
  {
  }

  lemma DomainIsBest(levels: Levels, offers: Offers, depth: nat, descending: bool)
    requires HoldsBest(levels, offers, depth, descending)
    ensures levels.Keys == SetOf(BestKeys(offers.Keys, depth, descending))
  {
    var best := SetOf(BestKeys(offers.Keys, depth, descending));
    forall p ensures p in levels.Keys <==> p in best {
      assert QuantityAt(levels, p) > 0.0 <==> p in levels;
      assert p in best <==> AmongBest(offers, depth, descending, p);
      if AmongBest(offers, depth, descending, p) {
        BestAreOffered(offers, depth, descending, p);
      }
    }
    SameSet(levels.Keys, best);
  }

  /** Pruning levels that contain the best offers and no price that is not offered. */
  lemma PrunedHoldsBest(levels: Levels, offers: Offers, depth: nat, descending: bool)
    requires WellFormed(levels) && Positive(offers) && levels.Keys <= offers.Keys
    requires forall p | AmongBest(offers, depth, descending, p) :: QuantityAt(levels, p) == OfferAt(offers, p)
    ensures HoldsBest(BestOf(levels, depth, descending), offers, depth, descending)
  {
    var keys, best := BestKeys(offers.Keys, depth, descending), BestOf(levels, depth, descending);
    BestKeysFacts(offers.Keys, depth, descending);
    forall i {:trigger keys[i]} | 0 <= i < |keys| ensures keys[i] in levels.Keys {
      assert keys[i] in offers.Keys && AmongBest(offers, depth, descending, keys[i]);
    }
    BestKeysOfSubset(levels.Keys, offers.Keys, depth, descending);
    BestOfWellFormed(levels, depth, descending);
    forall p
      ensures QuantityAt(best, p) == if AmongBest(offers, depth, descending, p) then OfferAt(offers, p) else 0.0
    {
      assert p in best <==> p in levels && p in SetOf(keys);
      assert p in best ==> best[p] == levels[p];
    }
  }

  /** One delta: levels that are the best before it, with its rows applied and pruned, are the
      best after it. */
  lemma DeltaHoldsBest(
    levels: Levels, before: Offers, after: Offers, rows: seq<Row>, depth: nat, descending: bool)
    requires HoldsBest(levels, before, depth, descending)
    requires TrueDelta(before, after, rows, depth, descending)
    ensures HoldsBest(BestOf(ApplyRows(levels, rows), depth, descending), after, depth, descending)
  {
    var updated := ApplyRows(levels, rows);
    ApplyRowsWellFormed(levels, rows);
    forall p | p in updated.Keys ensures p in after.Keys {
      PriceIsTrue(levels, before, after, rows, depth, descending, p);
      assert QuantityAt(updated, p) > 0.0 <==> p in updated;
    }
    forall p | AmongBest(after, depth, descending, p)
      ensures QuantityAt(updated, p) == OfferAt(after, p)
    {
      PriceIsTrue(levels, before, after, rows, depth, descending, p);
    }
    PrunedHoldsBest(updated, after, depth, descending);
  }

  /** A snapshot is a delta to an empty book. */
  lemma SnapshotHoldsBest(offers: Offers, rows: seq<Row>, depth: nat, descending: bool)
    requires TrueDelta(map[], offers, rows, depth, descending)
    ensures HoldsBest(BestOf(ApplyRows(map[], rows), depth, descending), offers, depth, descending)
  {
    var nothing: Offers := map[];
    BestKeysFacts(nothing.Keys, depth, descending);
    DeltaHoldsBest(map[], nothing, offers, rows, depth, descending);
  }

  // ---------- The rendered view ----------

  /** The rows of a view that is no deeper than the levels are the best offers in order. */
  lemma ViewListsBest(levels: Levels, offers: Offers, depth: nat, viewDepth: nat, descending: bool)
    requires HoldsBest(levels, offers, depth, descending) && viewDepth <= depth
    ensures BestKeys(levels.Keys, viewDepth, descending) == BestKeys(offers.Keys, viewDepth, descending)
  {
    DomainIsBest(levels, offers, depth, descending);
    SortedKeysFacts(offers.Keys, descending);
    BestKeysFacts(offers.Keys, depth, descending);
    PrefixIn(BestKeys(offers.Keys, viewDepth, descending), BestKeys(offers.Keys, depth, descending), levels.Keys);
    BestKeysOfSubset(levels.Keys, offers.Keys, viewDepth, descending);
  }

  lemma ViewOmits(levels: Levels, offers: Offers, depth: nat, viewDepth: nat, descending: bool, p: real)
    requires HoldsBest(levels, offers, depth, descending) && viewDepth <= depth && p in offers
    ensures var view := View(levels, viewDepth, descending);
            Lists(view, p) || (|view| == viewDepth && AllBetterThan(view, p, descending))
  {
    var all, view := SortedKeys(offers.Keys, descending), View(levels, viewDepth, descending);
    ViewListsBest(levels, offers, depth, viewDepth, descending);
    ViewRows(levels, viewDepth, descending);
    SortedKeysFacts(offers.Keys, descending);
    BestKeysFacts(offers.Keys, viewDepth, descending);
    assert p in all;
    var j :| 0 <= j < |all| && all[j] == p;
    if j < |view| {
      assert DecimalValue(view[j].price) == p;
    }
  }

  lemma ViewCarriesOffers(levels: Levels, offers: Offers, depth: nat, viewDepth: nat, descending: bool)
    requires HoldsBest(levels, offers, depth, descending)
    ensures RowsCarryQuantities(View(levels, viewDepth, descending), QuantitiesOf(offers))
  {
    ViewRows(levels, viewDepth, descending);
  }

  /** A view of the best levels is the top of the exchange's own book. */
  lemma BestShowsTop(levels: Levels, offers: Offers, depth: nat, viewDepth: nat, descending: bool)
    requires HoldsBest(levels, offers, depth, descending) && viewDepth <= depth
    ensures IsTopOfBook(View(levels, viewDepth, descending), QuantitiesOf(offers), viewDepth, descending)
  {
    ViewRows(levels, viewDepth, descending);
    ViewSorted(levels, viewDepth, descending);
    ViewCarriesOffers(levels, offers, depth, viewDepth, descending);
    forall p | QuantitiesOf(offers)(p) > 0.0
      ensures var view := View(levels, viewDepth, descending);
              Lists(view, p) || (|view| == viewDepth && AllBetterThan(view, p, descending))
    {
      ViewOmits(levels, offers, depth, viewDepth, descending, p);
    }
  }

  // ---------- Runs ----------

  datatype Sides = Sides(bids: Offers, asks: Offers)

  const NOTHING := Sides(map[], map[])

  /** The exchange's book after update u of epoch e. Update numbers start again when the exchange
      restarts its service, which begins a new epoch. */
  type Exchange = (nat, int) -> Sides

  /** A message and the epoch it was sent in, which the processor does not see. */
  datatype Sent = Sent(message: Message, epoch: nat)

  ghost predicate TrueEvent(cfg: Config, before: Sides, after: Sides, event: StreamOrderBook) {
    && TrueDelta(before.bids, after.bids, event.bids, cfg.depth, true)
    && TrueDelta(before.asks, after.asks, event.asks, cfg.depth, false)
  }

  /** What is true of a valid message: a snapshot lists the best levels, a delta tells how they
      changed with this update. */
  ghost predicate TrueMessage(cfg: Config, exchange: Exchange, sent: Sent) {
    var m := sent.message;
    var u := m.event.updateID as int;
    ValidEvent(cfg, m.messageType, m.event) ==>
      TrueEvent(cfg, if m.messageType == "snapshot" then NOTHING else exchange(sent.epoch, u - 1),
                exchange(sent.epoch, u), m.event)
  }

  ghost function Messages(sents: seq<Sent>): seq<Message> {
    seq(|sents|, i requires 0 <= i < |sents| => sents[i].message)
  }

  /** The epoch of the last snapshot that was taken. */
  ghost function EpochOf(cfg: Config, sents: seq<Sent>): nat {
    if sents == [] then 0
    else
      var front, last := sents[..|sents| - 1], sents[|sents| - 1];
      var r := RunOf(cfg, Messages(front));
      if !r.ended && last.message.messageType == "snapshot" && Process(cfg, r.p, last.message).1.Published?
      then last.epoch else EpochOf(cfg, front)
  }

  /** A restart is announced by its snapshot: a delta that continues the number of the present
      book is of that book's epoch. */
  ghost predicate NoHiddenRestart(p: Processor, epoch: nat, sent: Sent) {
    var q := EnterGeneration(p, sent.message.generation);
    sent.message.messageType == "delta" && q.state.Some? && Continues(q.state.value, sent.message.event) ==>
      sent.epoch == epoch
  }

  ghost predicate Truthful(cfg: Config, exchange: Exchange, sents: seq<Sent>) {
    sents != [] ==>
      var front, last := sents[..|sents| - 1], sents[|sents| - 1];
      && Truthful(cfg, exchange, front)
      && TrueMessage(cfg, exchange, last)
      && NoHiddenRestart(RunOf(cfg, Messages(front)).p, EpochOf(cfg, front), last)
  }

  ghost predicate BookIsBest(cfg: Config, book: Book, sides: Sides) {
    && HoldsBest(book.bids, sides.bids, cfg.depth, true)
    && HoldsBest(book.asks, sides.asks, cfg.depth, false)
  }

  ghost predicate Agrees(cfg: Config, exchange: Exchange, p: Processor, epoch: nat) {
    p.state.Some? ==> BookIsBest(cfg, p.state.value, exchange(epoch, p.state.value.updateID as int))
  }

  lemma EventAgrees(
    cfg: Config, bids: Levels, asks: Levels, before: Sides, after: Sides, timestamp: int, event: StreamOrderBook)
    requires HoldsBest(bids, before.bids, cfg.depth, true) && HoldsBest(asks, before.asks, cfg.depth, false)
    requires TrueEvent(cfg, before, after, event)
    ensures BookIsBest(cfg, ApplyEvent(bids, asks, timestamp, event, cfg.depth), after)
  {
    DeltaHoldsBest(bids, before.bids, after.bids, event.bids, cfg.depth, true);
    DeltaHoldsBest(asks, before.asks, after.asks, event.asks, cfg.depth, false);
  }

  lemma NothingIsBest(depth: nat, descending: bool)
    ensures HoldsBest(map[], map[], depth, descending)
  {
    var nothing: Offers := map[];
    BestKeysFacts(nothing.Keys, depth, descending);
  }

  /** What a message makes of a book that holds the best levels. */
  lemma ProcessAgrees(
    cfg: Config, exchange: Exchange, p: Processor, epoch: nat, sent: Sent, q: Processor, outcome: Outcome)
    requires Agrees(cfg, exchange, p, epoch)
    requires TrueMessage(cfg, exchange, sent) && NoHiddenRestart(p, epoch, sent)
    requires (q, outcome) == Process(cfg, p, sent.message)
    ensures outcome.Published? ==>
              && q.state == Some(outcome.publication.book)
              && outcome.publication.book.updateID == sent.message.event.updateID
              && (sent.message.messageType != "snapshot" ==> sent.epoch == epoch)
              && Agrees(cfg, exchange, q, sent.epoch)
    ensures !outcome.Published? ==> Agrees(cfg, exchange, q, epoch)
  {
    var m := sent.message;
    if outcome.Published? {
      if m.messageType == "snapshot" {
        NothingIsBest(cfg.depth, true);
        NothingIsBest(cfg.depth, false);
        EventAgrees(cfg, map[], map[], NOTHING, exchange(sent.epoch, m.event.updateID as int), m.timestamp, m.event);
      } else {
        var book := EnterGeneration(p, m.generation).state.value;
        EventAgrees(cfg, book.bids, book.asks, exchange(epoch, book.updateID as int),
                    exchange(epoch, m.event.updateID as int), m.timestamp, m.event);
      }
    }
  }

  lemma {:induction false} RunAgrees(cfg: Config, exchange: Exchange, sents: seq<Sent>)
    requires Truthful(cfg, exchange, sents)
    ensures Agrees(cfg, exchange, RunOf(cfg, Messages(sents)).p, EpochOf(cfg, sents))
  {
    if sents != [] {
      var front, last := sents[..|sents| - 1], sents[|sents| - 1];
      RunAgrees(cfg, exchange, front);
      assert Messages(sents)[..|sents| - 1] == Messages(front);
      var r := RunOf(cfg, Messages(front));
      if !r.ended {
        var (q, outcome) := Process(cfg, r.p, last.message);
        ProcessAgrees(cfg, exchange, r.p, EpochOf(cfg, front), last, q, outcome);
      }
    }
  }

  ghost predicate ShowsTop(cfg: Config, view: LocalOrderBookView, sides: Sides) {
    && IsTopOfBook(view.bids, QuantitiesOf(sides.bids), cfg.viewDepth, true)
    && IsTopOfBook(view.asks, QuantitiesOf(sides.asks), cfg.viewDepth, false)
  }

  /** Over every run of a truthful stream, whatever is lost, repeated or out of order, and
      whatever happens below the stream's depth: a published view shows the top of the exchange's
      own book after the update it names. */
  lemma PublishesExchangeBook(
    cfg: Config, exchange: Exchange, sents: seq<Sent>, next: Sent, r: Run, outcome: Outcome)
    requires cfg.viewDepth <= cfg.depth && Truthful(cfg, exchange, sents + [next])
    requires r == RunOf(cfg, Messages(sents)) && !r.ended
    requires outcome == Process(cfg, r.p, next.message).1 && outcome.Published?
    ensures outcome.publication.book.updateID == next.message.event.updateID
    ensures ShowsTop(cfg, Render(cfg, outcome.publication), exchange(next.epoch, next.message.event.updateID as int))
  {
    assert (sents + [next])[..|sents|] == sents;
    RunAgrees(cfg, exchange, sents);
    var book := outcome.publication.book;
    var sides := exchange(next.epoch, book.updateID as int);
    ProcessAgrees(cfg, exchange, r.p, EpochOf(cfg, sents), next, Process(cfg, r.p, next.message).0, outcome);
    BestShowsTop(book.bids, sides.bids, cfg.depth, cfg.viewDepth, true);
    BestShowsTop(book.asks, sides.asks, cfg.depth, cfg.viewDepth, false);
  }
}
