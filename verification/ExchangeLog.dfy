/** The exchange's side of a book feed: a log of absolute quantity changes, what its book is
    after any number of them, and what makes a snapshot or an update message tell the truth. */
module ExchangeLog {
  import opened BookLevels

  /** Change number k (counting from 1) sets one price of one side to a quantity. */
  datatype Change = Change(side: Side, price: real, quantity: real)

  type Log = seq<Change>

  /** The quantity the exchange offers at a price after its first n changes. */
  ghost function QuantityIn(log: Log, n: nat, side: Side, p: real): real
    requires n <= |log|
  {
    if n == 0 then 0.0
    else if log[n - 1].side == side && log[n - 1].price == p then log[n - 1].quantity
    else QuantityIn(log, n - 1, side, p)
  }

  ghost function BookAt(log: Log, n: nat, side: Side): real -> real
    requires n <= |log|
  {
    p => QuantityIn(log, n, side, p)
  }

  /** Some change in from+1 .. until concerns this price. */
  ghost predicate Touched(log: Log, from: nat, until: nat, side: Side, p: real)
    requires until <= |log|
  {
    exists k :: from <= k < until && log[k].side == side && log[k].price == p
  }

  lemma {:induction false} UntouchedKeepsQuantity(log: Log, from: nat, until: nat, side: Side, p: real)
    requires from <= until <= |log| && !Touched(log, from, until, side, p)
    ensures QuantityIn(log, until, side, p) == QuantityIn(log, from, side, p)
    decreases until
  {
    if from < until {
      assert !(log[until - 1].side == side && log[until - 1].price == p);
      UntouchedKeepsQuantity(log, from, until - 1, side, p);
    }
  }

  /** The rows carry every level touched in from+1 .. until, and every row shows the quantity at
      `until`. Repeated rows and rows for untouched levels are allowed. */
  ghost predicate FaithfulRows(log: Log, from: nat, until: nat, side: Side, rows: seq<Row>)
    requires from <= until <= |log|
  {
    && ValidRows(rows)
    && (forall i | 0 <= i < |rows| :: QuantityOf(rows[i]) == QuantityIn(log, until, side, PriceOf(rows[i])))
    && (forall p | Touched(log, from, until, side, p) :: LastQuantity(rows, p).Some?)
  }

  /** The local levels are the exchange's levels after n changes. */
  ghost predicate Mirrors(levels: Levels, log: Log, n: nat, side: Side)
    requires n <= |log|
  {
    WellFormed(levels) && forall p :: QuantityAt(levels, p) == QuantityIn(log, n, side, p)
  }

  /** Absolute quantities make overlap harmless: an update that reaches back to or before the
      book's position brings the book exactly to the update's end. */
  lemma FaithfulRowsAdvance(
    levels: Levels, rows: seq<Row>, log: Log, from: nat, at: nat, until: nat, side: Side)
    requires from <= at <= until <= |log|
    requires Mirrors(levels, log, at, side) && FaithfulRows(log, from, until, side, rows)
    ensures Mirrors(ApplyRows(levels, rows), log, until, side)
  {
    ApplyRowsMeaning(levels, rows);
    forall p
      ensures QuantityAt(ApplyRows(levels, rows), p) == QuantityIn(log, until, side, p)
    {
      LastQuantityIsListed(rows, p);
      if LastQuantity(rows, p).None? {
        UntouchedKeepsQuantity(log, at, until, side, p);
      }
    }
  }

  /** The rows list every level of the book after n changes, and nothing untrue. */
  ghost predicate CompleteRows(log: Log, n: nat, side: Side, rows: seq<Row>)
    requires n <= |log|
  {
    && ValidRows(rows)
    && (forall i | 0 <= i < |rows| :: QuantityOf(rows[i]) == QuantityIn(log, n, side, PriceOf(rows[i])))
    && (forall p | QuantityIn(log, n, side, p) != 0.0 :: LastQuantity(rows, p).Some?)
  }

  lemma CompleteRowsMirror(rows: seq<Row>, log: Log, n: nat, side: Side)
    requires n <= |log| && CompleteRows(log, n, side, rows)
    ensures Mirrors(ApplyRows(map[], rows), log, n, side)
  {
    ApplyRowsMeaning(map[], rows);
    forall p
      ensures QuantityAt(ApplyRows(map[], rows), p) == QuantityIn(log, n, side, p)
    {
      LastQuantityIsListed(rows, p);
    }
  }

  /** A view of mirroring levels shows the top of the exchange's own book. */
  lemma MirrorShowsBook(levels: Levels, log: Log, n: nat, side: Side, depth: nat)
    requires n <= |log| && Mirrors(levels, log, n, side)
    ensures IsTopOfBook(View(levels, depth, side == Bid), BookAt(log, n, side), depth, side == Bid)
  {
    ViewIsTopOfBook(levels, depth, side == Bid, BookAt(log, n, side));
  }
}
