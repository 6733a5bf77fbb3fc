/** The price levels of one side of a local order book, shared by the four adapters.

    Go keys a level by `price.RatString()`, the reduced fraction of its price; the key is the
    exact price itself here, so two spellings of one price share a key and nothing else does. */
module BookLevels {
  import opened Results
  import opened Integers
  import opened Decimals
  import opened Sorting

  datatype Side = Bid | Ask

  /** One row of a view: the texts the exchange sent. */
  datatype BookLevel = BookLevel(price: string, quantity: string)

  datatype Level = Level(priceText: string, quantityText: string, price: real)

  type Levels = map<real, Level>

  /** A row on the wire: price text, quantity text. */
  type Row = seq<string>

  // ---------- Rows ----------

  /** Levels as the two texts `applyLocalLevel` takes. */
  function RowsOf(levels: seq<BookLevel>): (rows: seq<Row>)
    ensures |rows| == |levels|
    ensures forall i | 0 <= i < |rows| :: rows[i] == [levels[i].price, levels[i].quantity]
  {
    seq(|levels|, i requires 0 <= i < |levels| => [levels[i].price, levels[i].quantity])
  }

  ghost predicate ValidRow(row: Row) {
    && |row| == 2 && IsDecimal(row[0]) && IsDecimal(row[1])
    && DecimalValue(row[0]) > 0.0
  }

  ghost predicate ValidRows(rows: seq<Row>) {
    forall i {:trigger ValidRow(rows[i])} | 0 <= i < |rows| :: ValidRow(rows[i])
  }

  ghost function PriceOf(row: Row): real
    requires ValidRow(row)
  {
    DecimalValue(row[0])
  }

  ghost function QuantityOf(row: Row): real
    requires ValidRow(row)
  {
    DecimalValue(row[1])
  }

  /** Accepts exactly the rows whose two texts are decimals and whose price is positive. */
  function ParseDepthFields(fields: Row): (r: Option<Level>)
    ensures r.Some? <==> ValidRow(fields)
    ensures r.Some? ==> r.value.price == PriceOf(fields)
    ensures r.Some? ==> r.value.priceText == fields[0] && r.value.quantityText == fields[1]
  {
    if |fields| != 2 || !IsDecimal(fields[0]) || Trim(fields[0]) == "" || !IsDecimal(fields[1]) then
      assert |fields| == 2 && IsDecimal(fields[0]) && Trim(fields[0]) == "" ==>
          DecimalValue(fields[0]) == 0.0 by {
        if |fields| == 2 && IsDecimal(fields[0]) { TrimIsZeroTest(fields[0]); }
      }
      None
    else
      var price := DecimalValue(fields[0]);
      if price <= 0.0 then None else Some(Level(fields[0], fields[1], price))
  }

  /** Delete on a zero quantity, otherwise set. */
  function ApplyLevel(levels: Levels, level: Level): Levels {
    if Trim(level.quantityText) == "" then levels - {level.price} else levels[level.price := level]
  }

  function ApplyRows(levels: Levels, rows: seq<Row>): Levels
    requires ValidRows(rows)
  {
    if rows == [] then levels
    else
      var last := rows[|rows| - 1];
      ApplyLevel(ApplyRows(levels, rows[..|rows| - 1]), ParseDepthFields(last).value)
  }

  /** Apply rows from left to right; a malformed row stops the loop with an error. */
  method ApplyLocalLevels(levels: Levels, rows: seq<Row>) returns (ok: bool, updated: Levels)
    ensures ok <==> ValidRows(rows)
    ensures ok ==> updated == ApplyRows(levels, rows)
  {
    updated := levels;
    for i := 0 to |rows|
      invariant ValidRows(rows[..i])
      invariant updated == ApplyRows(levels, rows[..i])
    {
      var level := ParseDepthFields(rows[i]);
      if level.None? {
        return false, updated;
      }
      assert rows[..i + 1][..i] == rows[..i];
      updated := ApplyLevel(updated, level.value);
    }
    assert rows[..|rows|] == rows;
    return true, updated;
  }

  /** The validation loops run over all rows before anything changes. */
  method CheckRows(rows: seq<Row>) returns (ok: bool)
    ensures ok <==> ValidRows(rows)
  {
    for i := 0 to |rows|
      invariant ValidRows(rows[..i])
    {
      if ParseDepthFields(rows[i]).None? {
        return false;
      }
    }
    return true;
  }

  // ---------- What a level map means ----------

  /** Every level is stored under its own price. */
  ghost predicate Keyed(levels: Levels) {
    forall k | k in levels :: levels[k].price == k
  }

  ghost predicate LevelOk(levels: Levels, k: real) {
    k in levels ==>
      && IsDecimal(levels[k].priceText) && DecimalValue(levels[k].priceText) == k > 0.0
      && IsDecimal(levels[k].quantityText) && DecimalValue(levels[k].quantityText) > 0.0
  }

  /** Keys and prices agree however the price was spelled, and no stored quantity is zero. */
  ghost predicate WellFormed(levels: Levels) {
    Keyed(levels) && forall k {:trigger LevelOk(levels, k)} :: LevelOk(levels, k)
  }

  /** The quantity offered at a price; zero when there is no level. */
  ghost function QuantityAt(levels: Levels, p: real): (q: real)
    requires WellFormed(levels)
    ensures q > 0.0 <==> p in levels
    ensures q >= 0.0
  {
    assert LevelOk(levels, p);
    if p in levels then DecimalValue(levels[p].quantityText) else 0.0
  }

  /** The last quantity a list of rows gives for a price. */
  ghost function LastQuantity(rows: seq<Row>, p: real): Option<real>
    requires ValidRows(rows)
  {
    if rows == [] then None
    else if PriceOf(rows[|rows| - 1]) == p then Some(QuantityOf(rows[|rows| - 1]))
    else LastQuantity(rows[..|rows| - 1], p)
  }

  lemma ApplyLevelMeaning(levels: Levels, row: Row)
    requires WellFormed(levels) && ValidRow(row)
    ensures WellFormed(ApplyLevel(levels, ParseDepthFields(row).value))
    ensures forall p :: QuantityAt(ApplyLevel(levels, ParseDepthFields(row).value), p)
                     == if p == PriceOf(row) then QuantityOf(row) else QuantityAt(levels, p)
  {
    TrimIsZeroTest(row[1]);
    var updated := ApplyLevel(levels, ParseDepthFields(row).value);
    forall k ensures LevelOk(updated, k) {
      assert LevelOk(levels, k);
    }
  }

  /** Replaying rows keeps the map well formed, and afterwards every price has the quantity the
      last row gave it, or its old quantity when no row mentions it. */
  lemma {:induction false} ApplyRowsMeaning(levels: Levels, rows: seq<Row>)
    requires WellFormed(levels) && ValidRows(rows)
    ensures WellFormed(ApplyRows(levels, rows))
    ensures forall p :: QuantityAt(ApplyRows(levels, rows), p)
                     == (match LastQuantity(rows, p)
                         case Some(q) => q
                         case None => QuantityAt(levels, p))
  {
    if rows != [] {
      ApplyRowsMeaning(levels, rows[..|rows| - 1]);
      ApplyLevelMeaning(ApplyRows(levels, rows[..|rows| - 1]), rows[|rows| - 1]);
    }
  }

  lemma ApplyLevelWellFormed(levels: Levels, row: Row)
    requires WellFormed(levels) && ValidRow(row)
    ensures WellFormed(ApplyLevel(levels, ParseDepthFields(row).value))
  {
    ApplyLevelMeaning(levels, row);
  }

  lemma ApplyRowsWellFormed(levels: Levels, rows: seq<Row>)
    requires WellFormed(levels) && ValidRows(rows)
    ensures WellFormed(ApplyRows(levels, rows))
  {
    ApplyRowsMeaning(levels, rows);
  }

  lemma ApplyRowsSnoc(levels: Levels, rows: seq<Row>, row: Row)
    requires ValidRows(rows) && ValidRow(row)
    ensures ValidRows(rows + [row])
    ensures ApplyRows(levels, rows + [row])
         == ApplyLevel(ApplyRows(levels, rows), ParseDepthFields(row).value)
  {
    assert (rows + [row])[..|rows|] == rows;
  }

  lemma {:induction false} ApplyRowsConcat(levels: Levels, first: seq<Row>, second: seq<Row>)
    requires ValidRows(first) && ValidRows(second)
    ensures ValidRows(first + second)
    ensures ApplyRows(levels, first + second) == ApplyRows(ApplyRows(levels, first), second)
  {
    if second == [] {
      assert first + second == first;
    } else {
      var front, last := second[..|second| - 1], second[|second| - 1];
      ApplyRowsConcat(levels, first, front);
      ApplyRowsSnoc(levels, first + front, last);
      assert first + second == first + front + [last];
    }
  }

  lemma {:induction false} LastQuantityIsListed(rows: seq<Row>, p: real)
    requires ValidRows(rows)
    ensures LastQuantity(rows, p).Some? <==> exists i :: 0 <= i < |rows| && PriceOf(rows[i]) == p
    ensures LastQuantity(rows, p).Some? ==>
              exists i :: 0 <= i < |rows| && PriceOf(rows[i]) == p
                          && QuantityOf(rows[i]) == LastQuantity(rows, p).value
  {
    if rows != [] {
      LastQuantityIsListed(rows[..|rows| - 1], p);
      assert forall i | 0 <= i < |rows| - 1 :: rows[..|rows| - 1][i] == rows[i];
    }
  }

  // ---------- Sorted views ----------

  /** Bids are listed from the highest price, asks from the lowest. */
  predicate Better(a: real, b: real, descending: bool) {
    if descending then a > b else a < b
  }

  lemma {:induction false} BestExists(keys: set<real>, descending: bool) returns (b: real)
    requires keys != {}
    ensures IsBest(b, keys, descending)
  {
    var x := PickKey(keys);
    if keys - {x} == {} {
      assert keys == {x};
      b := x;
    } else {
      var c := BestExists(keys - {x}, descending);
      b := if Better(x, c, descending) then x else c;
      forall k | k in keys ensures k == b || Better(b, k, descending) {
        assert k == x || (k in keys - {x} && (k == c || Better(c, k, descending)));
      }
    }
  }

  ghost predicate IsBest(b: real, keys: set<real>, descending: bool) {
    b in keys && forall k {:trigger Better(b, k, descending)} | k in keys :: k == b || Better(b, k, descending)
  }

  lemma SomeBest(keys: set<real>, descending: bool)
    requires keys != {}
    ensures exists b :: IsBest(b, keys, descending)
  {
    var b := BestExists(keys, descending);
    assert IsBest(b, keys, descending);
  }

  ghost function Best(keys: set<real>, descending: bool): real
    requires keys != {}
  {
    SomeBest(keys, descending);
    var b :| IsBest(b, keys, descending);
    b
  }

  ghost function SortedKeys(keys: set<real>, descending: bool): seq<real>
    decreases |keys|
  {
    if keys == {} then []
    else
      var b := Best(keys, descending);
      assert IsBest(b, keys, descending);
      assert |keys - {b}| == |keys| - 1;
      [b] + SortedKeys(keys - {b}, descending)
  }

  lemma {:induction false} SortedKeysFacts(keys: set<real>, descending: bool)
    ensures |SortedKeys(keys, descending)| == |keys|
    ensures forall k :: k in SortedKeys(keys, descending) <==> k in keys
    ensures forall i, j | 0 <= i < j < |keys| ::
              Better(SortedKeys(keys, descending)[i], SortedKeys(keys, descending)[j], descending)
    decreases |keys|
  {
    if keys != {} {
      var b := Best(keys, descending);
      assert IsBest(b, keys, descending);
      var tail := SortedKeys(keys - {b}, descending);
      SortedKeysFacts(keys - {b}, descending);
      assert SortedKeys(keys, descending) == [b] + tail;
      forall j | 0 <= j < |tail| ensures Better(b, tail[j], descending) {
        assert tail[j] in keys - {b};
      }
    }
  }

  lemma SortedKeysSet(keys: set<real>, descending: bool)
    ensures SetOf(SortedKeys(keys, descending)) == keys
  {
    SortedKeysFacts(keys, descending);
    var sorted := SortedKeys(keys, descending);
    forall k ensures k in SetOf(sorted) <==> k in keys {
      assert k in sorted <==> k in keys;
    }
  }

  /** The best `depth` keys. */
  ghost function BestKeys(keys: set<real>, depth: nat, descending: bool): seq<real> {
    SortedKeysFacts(keys, descending);
    SortedKeys(keys, descending)[..Min(depth, |keys|)]
  }

  lemma BestKeysFacts(keys: set<real>, depth: nat, descending: bool)
    ensures |BestKeys(keys, depth, descending)| == Min(depth, |keys|)
    ensures AllIn(BestKeys(keys, depth, descending), keys)
  {
    SortedKeysFacts(keys, descending);
    var all, best := SortedKeys(keys, descending), BestKeys(keys, depth, descending);
    forall i {:trigger best[i]} | 0 <= i < |best| ensures best[i] in keys {
      assert best[i] == all[i] && all[i] in all;
    }
  }

  ghost predicate AllIn(keys: seq<real>, s: set<real>) {
    forall i {:trigger keys[i]} | 0 <= i < |keys| :: keys[i] in s
  }

  ghost function View(levels: Levels, depth: nat, descending: bool): seq<BookLevel> {
    BestKeysFacts(levels.Keys, depth, descending);
    Rows(levels, BestKeys(levels.Keys, depth, descending))
  }

  ghost function Rows(levels: Levels, keys: seq<real>): (rows: seq<BookLevel>)
    requires AllIn(keys, levels.Keys)
    ensures |rows| == |keys|
    ensures forall i | 0 <= i < |keys| ::
              rows[i] == BookLevel(levels[keys[i]].priceText, levels[keys[i]].quantityText)
  {
    if keys == [] then []
    else
      [BookLevel(levels[keys[0]].priceText, levels[keys[0]].quantityText)] + Rows(levels, keys[1..])
  }

  ghost predicate RowsCarryQuantities(view: seq<BookLevel>, quantity: real -> real) {
    forall i | 0 <= i < |view| ::
      && IsDecimal(view[i].price) && IsDecimal(view[i].quantity)
      && quantity(DecimalValue(view[i].price)) == DecimalValue(view[i].quantity) > 0.0
  }

  ghost predicate RowsSorted(view: seq<BookLevel>, descending: bool) {
    forall i, j | 0 <= i < j < |view| ::
      && IsDecimal(view[i].price) && IsDecimal(view[j].price)
      && Better(DecimalValue(view[i].price), DecimalValue(view[j].price), descending)
  }

  ghost predicate Lists(view: seq<BookLevel>, p: real) {
    exists i :: 0 <= i < |view| && IsDecimal(view[i].price) && DecimalValue(view[i].price) == p
  }

  ghost predicate AllBetterThan(view: seq<BookLevel>, p: real, descending: bool) {
    forall i | 0 <= i < |view| ::
      IsDecimal(view[i].price) && Better(DecimalValue(view[i].price), p, descending)
  }

  /** What a reader of a view may rely on, stated against the quantity at each price: the rows
      are strictly sorted, carry the true quantities, and every price with a quantity is either
      listed or worse than all `depth` rows. */
  ghost predicate IsTopOfBook(
    view: seq<BookLevel>, quantity: real -> real, depth: nat, descending: bool)
  {
    && |view| <= depth
    && RowsCarryQuantities(view, quantity)
    && RowsSorted(view, descending)
    && OmitsOnlyWorse(view, quantity, depth, descending)
  }

  lemma ViewRows(levels: Levels, depth: nat, descending: bool)
    requires WellFormed(levels)
    ensures var keys, view := BestKeys(levels.Keys, depth, descending), View(levels, depth, descending);
            && |view| == |keys| == Min(depth, |levels.Keys|)
            && forall i | 0 <= i < |view| ::
                 keys[i] in levels && IsDecimal(view[i].price)
                 && DecimalValue(view[i].price) == keys[i]
                 && view[i].quantity == levels[keys[i]].quantityText
                 && IsDecimal(view[i].quantity)
                 && DecimalValue(view[i].quantity) == QuantityAt(levels, keys[i])
  {
    var keys := BestKeys(levels.Keys, depth, descending);
    BestKeysFacts(levels.Keys, depth, descending);
    forall i | 0 <= i < |keys| ensures LevelOk(levels, keys[i]) {
    }
  }

  lemma OmittedAreWorse(levels: Levels, depth: nat, descending: bool, p: real)
    requires WellFormed(levels) && p in levels
    ensures var view := View(levels, depth, descending);
            Lists(view, p) || (|view| == depth && AllBetterThan(view, p, descending))
  {
    var all := SortedKeys(levels.Keys, descending);
    var view := View(levels, depth, descending);
    ViewRows(levels, depth, descending);
    SortedKeysFacts(levels.Keys, descending);
    assert p in all;
    var j :| 0 <= j < |all| && all[j] == p;
    if j < |view| {
      assert DecimalValue(view[j].price) == p;
    }
  }

  lemma ViewSorted(levels: Levels, depth: nat, descending: bool)
    requires WellFormed(levels)
    ensures RowsSorted(View(levels, depth, descending), descending)
  {
    SortedKeysFacts(levels.Keys, descending);
    ViewRows(levels, depth, descending);
  }

  /** Bids run down from the highest price, asks up from the lowest. */
  lemma BidsDescendAsksAscend(levels: Levels, depth: nat, i: nat, j: nat)
    requires WellFormed(levels)
    requires i < j < |View(levels, depth, true)| && j < |View(levels, depth, false)|
    ensures var bids, asks := View(levels, depth, true), View(levels, depth, false);
            && IsDecimal(bids[i].price) && IsDecimal(bids[j].price)
            && DecimalValue(bids[i].price) > DecimalValue(bids[j].price)
            && IsDecimal(asks[i].price) && IsDecimal(asks[j].price)
            && DecimalValue(asks[i].price) < DecimalValue(asks[j].price)
  {
    ViewSorted(levels, depth, true);
    ViewSorted(levels, depth, false);
    SortedRows(View(levels, depth, true), true, i, j);
    SortedRows(View(levels, depth, false), false, i, j);
  }

  lemma SortedRows(view: seq<BookLevel>, descending: bool, i: nat, j: nat)
    requires RowsSorted(view, descending) && i < j < |view|
    ensures IsDecimal(view[i].price) && IsDecimal(view[j].price)
    ensures descending ==> DecimalValue(view[i].price) > DecimalValue(view[j].price)
    ensures !descending ==> DecimalValue(view[i].price) < DecimalValue(view[j].price)
  {
    var first, second := IsDecimal(view[i].price), IsDecimal(view[j].price);
    assert first && second;
  }

  lemma ViewCarries(levels: Levels, depth: nat, descending: bool, quantity: real -> real)
    requires WellFormed(levels)
    requires forall p :: quantity(p) == QuantityAt(levels, p)
    ensures RowsCarryQuantities(View(levels, depth, descending), quantity)
  {
    ViewRows(levels, depth, descending);
  }

  ghost predicate OmitsOnlyWorse(view: seq<BookLevel>, quantity: real -> real, depth: nat, descending: bool) {
    forall p | quantity(p) > 0.0 ::
      Lists(view, p) || (|view| == depth && AllBetterThan(view, p, descending))
  }

  lemma ViewOmitsOnlyWorse(levels: Levels, depth: nat, descending: bool, quantity: real -> real)
    requires WellFormed(levels)
    requires forall p :: quantity(p) == QuantityAt(levels, p)
    ensures OmitsOnlyWorse(View(levels, depth, descending), quantity, depth, descending)
  {
    forall p | quantity(p) > 0.0
      ensures var view := View(levels, depth, descending);
              Lists(view, p) || (|view| == depth && AllBetterThan(view, p, descending))
    {
      OmittedAreWorse(levels, depth, descending, p);
    }
  }

  /** A view shows the best levels of its map, truthfully and in order. */
  lemma ViewIsTopOfBook(levels: Levels, depth: nat, descending: bool, quantity: real -> real)
    requires WellFormed(levels)
    requires forall p :: quantity(p) == QuantityAt(levels, p)
    ensures IsTopOfBook(View(levels, depth, descending), quantity, depth, descending)
  {
    BestKeysFacts(levels.Keys, depth, descending);
    ViewSorted(levels, depth, descending);
    ViewCarries(levels, depth, descending, quantity);
    ViewOmitsOnlyWorse(levels, depth, descending, quantity);
  }

  function PriceOrder(descending: bool): (Level, Level) -> bool {
    (a: Level, b: Level) => Better(a.price, b.price, descending)
  }

  /** Every level of the map once, in some order. */
  ghost predicate Collects(levels: seq<Level>, values: Levels) {
    && (forall l :: l in levels <==> l.price in values && l == values[l.price])
    && (forall i, j | 0 <= i < j < |levels| :: levels[i].price != levels[j].price)
  }

  /** Sorting the levels collected in any map order gives the one view of the map. */
  method SortedLocalLevels(values: Levels, depth: nat, descending: bool)
    returns (result: seq<BookLevel>)
    requires Keyed(values)
    ensures result == View(values, depth, descending)
  {
    var levels := CollectLevels(values);
    SortedLevelsAreKeys(values, levels, descending);
    SortedKeysFacts(values.Keys, descending);
    levels := SortSlice(levels, PriceOrder(descending));
    if |levels| > depth {
      levels := levels[..depth];
    }
    result := LevelTexts(levels);
    TextsAreView(values, levels, depth, descending, result);
  }

  lemma TextsAreView(
    values: Levels, levels: seq<Level>, depth: nat, descending: bool, texts: seq<BookLevel>)
    requires Keyed(values)
    requires |texts| == |levels| == Min(depth, |values.Keys|) <= |SortedKeys(values.Keys, descending)|
    requires var keys := SortedKeys(values.Keys, descending);
             forall i | 0 <= i < |levels| :: keys[i] in values && levels[i] == values[keys[i]]
    requires forall i | 0 <= i < |texts| ::
               texts[i] == BookLevel(levels[i].priceText, levels[i].quantityText)
    ensures texts == View(values, depth, descending)
  {
    var keys := BestKeys(values.Keys, depth, descending);
    BestKeysFacts(values.Keys, depth, descending);
    forall i | 0 <= i < |texts| ensures texts[i] == Rows(values, keys)[i] {
      assert keys[i] == SortedKeys(values.Keys, descending)[i];
    }
  }

  method LevelTexts(levels: seq<Level>) returns (rows: seq<BookLevel>)
    ensures |rows| == |levels|
    ensures forall i | 0 <= i < |rows| ::
              rows[i] == BookLevel(levels[i].priceText, levels[i].quantityText)
  {
    rows := [];
    for i := 0 to |levels|
      invariant |rows| == i
      invariant forall k | 0 <= k < i ::
                  rows[k] == BookLevel(levels[k].priceText, levels[k].quantityText)
    {
      rows := rows + [BookLevel(levels[i].priceText, levels[i].quantityText)];
    }
  }

  /** Go ranges over a map in no particular order. */
  method CollectLevels(values: Levels) returns (levels: seq<Level>)
    requires Keyed(values)
    ensures Collects(levels, values)
  {
    levels := [];
    var pending := values.Keys;
    while pending != {}
      invariant pending <= values.Keys
      invariant forall l :: l in levels <==> l.price in values.Keys - pending && l == values[l.price]
      invariant forall i, j | 0 <= i < j < |levels| :: levels[i].price != levels[j].price
    {
      var key := PickAny(pending);
      assert values[key] !in levels && forall l | l in levels :: l.price != key;
      levels := levels + [values[key]];
      pending := pending - {key};
    }
  }

  lemma LevelsAreComparable(levels: seq<Level>, descending: bool)
    requires forall i, j | 0 <= i < j < |levels| :: levels[i].price != levels[j].price
    ensures Comparable(levels, PriceOrder(descending))
    ensures SortedBy(SortSlice(levels, PriceOrder(descending)), PriceOrder(descending))
  {
    assert Comparable(levels, PriceOrder(descending));
    SortSliceSorts(levels, PriceOrder(descending));
  }

  /** Strictly sorted prices of all levels are the sorted keys. */
  lemma SortedPricesAreKeys(values: Levels, sorted: seq<Level>, prices: seq<real>, descending: bool)
    requires Keyed(values)
    requires forall l :: l in sorted <==> l.price in values && l == values[l.price]
    requires |prices| == |sorted| && forall i | 0 <= i < |sorted| :: prices[i] == sorted[i].price
    requires forall i, j | 0 <= i < j < |prices| :: Better(prices[i], prices[j], descending)
    ensures prices == SortedKeys(values.Keys, descending)
  {
    PricesOf(values, sorted, prices);
    SortedKeysFacts(values.Keys, descending);
    SortedIsUnique(prices, SortedKeys(values.Keys, descending),
                   (a: real, b: real) => Better(a, b, descending));
  }

  lemma SortedLevelsAreKeys(values: Levels, levels: seq<Level>, descending: bool)
    requires Keyed(values) && Collects(levels, values)
    ensures var sorted, keys := SortSlice(levels, PriceOrder(descending)), SortedKeys(values.Keys, descending);
            && |sorted| == |keys|
            && forall i | 0 <= i < |sorted| :: keys[i] in values && sorted[i] == values[keys[i]]
  {
    LevelsAreComparable(levels, descending);
    var sorted := SortSlice(levels, PriceOrder(descending));
    forall l ensures l in sorted <==> l.price in values && l == values[l.price] {
      SameElements(levels, sorted, l);
    }
    var prices := seq(|sorted|, i requires 0 <= i < |sorted| => sorted[i].price);
    SortedPricesAreKeys(values, sorted, prices, descending);
    forall i | 0 <= i < |sorted|
      ensures prices[i] in values && sorted[i] == values[prices[i]]
    {
      assert sorted[i] in sorted;
    }
  }

  lemma PricesOf(values: Levels, levels: seq<Level>, prices: seq<real>)
    requires Keyed(values)
    requires forall l :: l in levels <==> l.price in values && l == values[l.price]
    requires |prices| == |levels| && forall i | 0 <= i < |levels| :: prices[i] == levels[i].price
    ensures forall p :: p in prices <==> p in values
  {
    forall p | p in values ensures p in prices {
      assert values[p] in levels;
      var i :| 0 <= i < |levels| && levels[i] == values[p];
      assert prices[i] == p;
    }
    forall p | p in prices ensures p in values {
      var i :| 0 <= i < |prices| && prices[i] == p;
      assert levels[i] in levels;
    }
  }

  // ---------- The best levels ----------

  /** A map without everything worse than its best `depth` levels. */
  ghost function BestOf(levels: Levels, depth: nat, descending: bool): Levels {
    Restrict(levels, SetOf(BestKeys(levels.Keys, depth, descending)))
  }

  ghost function Restrict(levels: Levels, keys: set<real>): (r: Levels)
    ensures r.Keys == levels.Keys * keys
    ensures forall k | k in r :: r[k] == levels[k]
  {
    map k | k in levels.Keys * keys :: levels[k]
  }

  lemma RestrictAgrees(small: Levels, large: Levels, keys: set<real>)
    requires small.Keys <= large.Keys && forall k | k in small :: small[k] == large[k]
    requires large.Keys * keys <= small.Keys
    ensures Restrict(small, keys) == Restrict(large, keys)
  {
    var r, t := Restrict(small, keys), Restrict(large, keys);
    assert r.Keys == t.Keys;
    forall k | k in r ensures r[k] == t[k] {
      assert small[k] == large[k];
    }
  }

  lemma BestKeysCons(keys: set<real>, depth: nat, descending: bool)
    requires keys != {} && depth > 0
    ensures BestKeys(keys, depth, descending)
         == [Best(keys, descending)] + BestKeys(keys - {Best(keys, descending)}, depth - 1, descending)
  {
    SortedKeysFacts(keys, descending);
    assert IsBest(Best(keys, descending), keys, descending);
    assert |keys - {Best(keys, descending)}| == |keys| - 1;
  }

  lemma SameBest(s: set<real>, m: set<real>, descending: bool)
    requires s <= m && m != {} && Best(m, descending) in s
    ensures Best(s, descending) == Best(m, descending)
  {
    var one, two := Best(m, descending), Best(s, descending);
    assert IsBest(one, m, descending) && IsBest(two, s, descending) && two in m;
    assert one == two || (Better(one, two, descending) && Better(two, one, descending));
  }

  lemma TailIn(b: real, tail: seq<real>, s: set<real>, m: set<real>)
    requires AllIn([b] + tail, s) && AllIn(tail, m - {b})
    ensures b in s && AllIn(tail, s - {b})
  {
    assert ([b] + tail)[0] == b;
    forall i {:trigger tail[i]} | 0 <= i < |tail| ensures tail[i] in s - {b} {
      assert ([b] + tail)[i + 1] == tail[i];
    }
  }

  /** Removing keys that are not among the best does not change the best. */
  lemma {:induction false} BestKeysOfSubset(s: set<real>, m: set<real>, depth: nat, descending: bool)
    requires s <= m && AllIn(BestKeys(m, depth, descending), s)
    ensures BestKeys(s, depth, descending) == BestKeys(m, depth, descending)
    decreases depth
  {
    if m == {} {
      assert s == {};
    } else if depth > 0 {
      var b := Best(m, descending);
      BestKeysCons(m, depth, descending);
      BestKeysFacts(m - {b}, depth - 1, descending);
      TailIn(b, BestKeys(m - {b}, depth - 1, descending), s, m);
      SameBest(s, m, descending);
      BestKeysCons(s, depth, descending);
      BestKeysOfSubset(s - {b}, m - {b}, depth - 1, descending);
    }
  }

  ghost predicate SameAt(one: Levels, two: Levels, k: real) {
    (k in one <==> k in two) && (k in one ==> one[k] == two[k])
  }

  lemma ApplyLevelAt(one: Levels, two: Levels, level: Level, k: real)
    requires level.price == k || SameAt(one, two, k)
    ensures SameAt(ApplyLevel(one, level), ApplyLevel(two, level), k)
  {
  }

  /** What rows make of a price depends on the map only if no row mentions the price. */
  lemma {:induction false} ApplyRowsAt(one: Levels, two: Levels, rows: seq<Row>, k: real)
    requires ValidRows(rows)
    requires LastQuantity(rows, k).Some? || SameAt(one, two, k)
    ensures SameAt(ApplyRows(one, rows), ApplyRows(two, rows), k)
  {
    if rows != [] {
      var front, last := rows[..|rows| - 1], rows[|rows| - 1];
      assert ValidRow(last);
      if PriceOf(last) != k {
        ApplyRowsAt(one, two, front, k);
      }
      ApplyLevelAt(ApplyRows(one, front), ApplyRows(two, front), ParseDepthFields(last).value, k);
    }
  }
}
