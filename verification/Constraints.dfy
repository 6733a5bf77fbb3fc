/** Order rules of a market (unified/constraints.go, and the request rules of unified/types.go):
    increments and minimums decided on exact values. */
module Constraints {
  import opened Results
  import opened Texts
  import opened Decimals

  datatype OrderError = InvalidRequest | WrongMarket | NotDecimal | InvalidRule | NotMultiple | BelowMinimum

  datatype Market = Market(base: string, quote: string)

  datatype PlaceOrderRequest = PlaceOrderRequest(
    market: Market, side: string, orderType: string, timeInForce: string,
    price: string, quantity: string, quoteAmount: string, clientOrderID: string)

  datatype MarketInfo = MarketInfo(
    market: Market, priceIncrement: string, quantityIncrement: string, quoteAmountIncrement: string,
    minimumBaseQuantity: string, minimumQuoteAmount: string)

  // ---------- Increments ----------

  /** The increment text for a number of decimal places. */
  function DecimalIncrement(places: int): string {
    if places < 0 then ""
    else if places == 0 then "1"
    else "0." + Repeat('0', places - 1) + "1"
  }

  /** The value with its point moved `places` to the right. */
  ghost function Shift(v: real, places: nat): real
    decreases places
  {
    if places == 0 then v else Shift(v * 10.0, places - 1)
  }

  lemma {:induction false} FractionOfIncrement(zeros: nat)
    ensures AllDigits(Repeat('0', zeros) + "1")
    ensures Shift(FractionValue(Repeat('0', zeros) + "1"), zeros + 1) == 1.0
  {
    var f := Repeat('0', zeros) + "1";
    if zeros == 0 {
      assert f == "1" && f[1..] == "";
      assert FractionValue(f) == (1 as real + FractionValue("")) / 10.0;
      assert Shift(FractionValue(f), 1) == Shift(FractionValue(f) * 10.0, 0);
    } else {
      FractionOfIncrement(zeros - 1);
      assert f[1..] == Repeat('0', zeros - 1) + "1";
      assert FractionValue(f) * 10.0 == FractionValue(f[1..]);
    }
  }

  lemma OneDigit(c: char)
    requires IsDigit(c)
    ensures DigitsValue([c]) == DigitOf(c)
  {
    assert [c][..0] == "";
  }

  /** An increment for p places is exactly 10^-p. */
  lemma IncrementIsExact(places: nat)
    ensures IsDecimal(DecimalIncrement(places))
    ensures Shift(DecimalValue(DecimalIncrement(places)), places) == 1.0
  {
    if places == 0 {
      CutWithoutDot("1");
      OneDigit('1');
    } else {
      var f := Repeat('0', places - 1) + "1";
      FractionOfIncrement(places - 1);
      CutAtDot("0", f);
      OneDigit('0');
      assert DecimalIncrement(places) == "0" + "." + f;
    }
  }

  lemma {:induction false} ShiftIsProduct(v: real, places: nat)
    ensures Shift(v, places) == v * Shift(1.0, places)
    decreases places
  {
    if places > 0 {
      ShiftIsProduct(v * 10.0, places - 1);
      ShiftIsProduct(10.0, places - 1);
      Reassociate(v, Shift(1.0, places - 1));
    }
  }

  lemma Reassociate(v: real, c: real)
    ensures v * 10.0 * c == v * (10.0 * c)
  {
  }

  /** `Rat.Quo` followed by `IsInt`. */
  predicate IsMultiple(value: real, increment: real)
    requires increment > 0.0
  {
    var quotient := value / increment;
    quotient.Floor as real == quotient
  }

  ghost predicate IsTimes(value: real, k: nat, increment: real) {
    value == k as real * increment
  }

  lemma MultipleMeans(value: real, increment: real)
    requires value >= 0.0 && increment > 0.0
    ensures IsMultiple(value, increment) <==> exists k: nat :: IsTimes(value, k, increment)
  {
    var quotient := value / increment;
    assert quotient * increment == value;
    if IsMultiple(value, increment) {
      QuotientNotNegative(value, increment);
      var k: nat := quotient.Floor;
      assert IsTimes(value, k, increment);
    }
    if k: nat :| IsTimes(value, k, increment) {
      SameQuotient(quotient, k as real, increment);
    }
  }

  lemma QuotientNotNegative(value: real, increment: real)
    requires value >= 0.0 && increment > 0.0
    ensures value / increment >= 0.0
  {
  }

  lemma SameQuotient(a: real, b: real, increment: real)
    requires increment > 0.0 && a * increment == b * increment
    ensures a == b
  {
    assert (a - b) * increment == 0.0;
  }

  /** An empty increment is a rule the exchange does not publish. */
  function ValidateIncrement(value: string, increment: string): Option<OrderError> {
    if increment == "" then None
    else if !IsDecimal(value) then Some(NotDecimal)
    else if !IsDecimal(increment) || DecimalValue(increment) <= 0.0 then Some(InvalidRule)
    else if !IsMultiple(DecimalValue(value), DecimalValue(increment)) then Some(NotMultiple)
    else None
  }

  // ---------- What increments of p places accept ----------

  function Drop(f: string, p: nat): string {
    if p <= |f| then f[p..] else ""
  }

  /** Shifting the point p places to the right leaves an integer and the fraction digits after
      position p. */
  lemma {:induction false} ShiftPoint(w: string, f: string, p: nat) returns (n: nat)
    requires AllDigits(w) && AllDigits(f)
    ensures AllDigits(Drop(f, p))
    ensures Shift(DigitsValue(w) as real + FractionValue(f), p) == n as real + FractionValue(Drop(f, p))
    decreases p
  {
    if p == 0 {
      n := DigitsValue(w);
      assert Drop(f, 0) == f;
    } else {
      var c, rest := if f == "" then '0' else f[0], if f == "" then "" else f[1..];
      DigitsValueSnoc(w, c);
      n := ShiftPoint(w + [c], rest, p - 1);
      assert Drop(rest, p - 1) == Drop(f, p);
      FractionStep(w, f, c, rest);
      ShiftStep(DigitsValue(w) as real + FractionValue(f), p);
    }
  }

  lemma FractionStep(w: string, f: string, c: char, rest: string)
    requires AllDigits(w) && AllDigits(f) && IsDigit(c) && AllDigits(rest) && AllDigits(w + [c])
    requires if f == "" then c == '0' && rest == "" else c == f[0] && rest == f[1..]
    ensures (DigitsValue(w) as real + FractionValue(f)) * 10.0
         == DigitsValue(w + [c]) as real + FractionValue(rest)
  {
    DigitsValueSnoc(w, c);
  }

  lemma ShiftStep(v: real, p: nat)
    requires p > 0
    ensures Shift(v, p) == Shift(v * 10.0, p - 1)
  {
  }

  ghost predicate ZerosFrom(f: string, p: nat) {
    forall i | p <= i < |f| :: f[i] == '0'
  }

  lemma DigitsDecide(value: string, places: nat) returns (n: nat, rest: real)
    requires IsDecimal(value)
    ensures Shift(DecimalValue(value), places) == n as real + rest && 0.0 <= rest < 1.0
    ensures rest == 0.0 <==> ZerosFrom(Cut(value).fraction, places)
  {
    var h := Cut(value);
    n := ShiftPoint(h.whole, h.fraction, places);
    DroppedZeros(h.fraction, places);
    rest := FractionValue(Drop(h.fraction, places));
  }

  lemma UnitAccepts(value: string, increment: string, places: nat)
    requires IsDecimal(value) && IsDecimal(increment) && increment != ""
    requires Shift(DecimalValue(increment), places) == 1.0
    ensures ValidateIncrement(value, increment).None? <==> ZerosFrom(Cut(value).fraction, places)
  {
    var n, rest := DigitsDecide(value, places);
    ShiftedDecides(DecimalValue(value), DecimalValue(increment), places, n, rest);
  }

  /** With the increment of p places a decimal is accepted exactly when every fraction digit
      after position p is a zero. */
  lemma AcceptedDigits(value: string, places: nat)
    requires IsDecimal(value)
    ensures ValidateIncrement(value, DecimalIncrement(places)).None? <==> ZerosFrom(Cut(value).fraction, places)
  {
    IncrementIsExact(places);
    assert DecimalIncrement(places) != "";
    UnitAccepts(value, DecimalIncrement(places), places);
  }

  /** Dividing by 10^-p shifts the point; what is behind it then decides. */
  lemma ShiftedDecides(value: real, increment: real, places: nat, n: nat, rest: real)
    requires increment >= 0.0 && Shift(increment, places) == 1.0
    requires Shift(value, places) == n as real + rest && 0.0 <= rest < 1.0
    ensures increment > 0.0 && (IsMultiple(value, increment) <==> rest == 0.0)
  {
    ShiftIsProduct(increment, places);
    ShiftIsProduct(value, places);
    var q := Scaled(value, increment, Shift(1.0, places), Shift(value, places));
    WholeOrNot(q, n, rest);
  }

  lemma WholeOrNot(q: real, n: nat, rest: real)
    requires q == n as real + rest && 0.0 <= rest < 1.0
    ensures q.Floor as real == q <==> rest == 0.0
  {
    assert q.Floor == n;
  }

  lemma Scaled(value: real, increment: real, c: real, shifted: real) returns (q: real)
    requires increment >= 0.0 && increment * c == 1.0 && shifted == value * c
    ensures increment > 0.0 && q == value / increment == shifted
  {
    Nonzero(increment, c);
    q := value / increment;
    assert q * increment == value;
    Regroup(q, increment, c, value);
  }

  lemma Regroup(q: real, increment: real, c: real, value: real)
    requires q * increment == value && increment * c == 1.0
    ensures value * c == q
  {
    assert value * c == q * increment * c == q * (increment * c);
  }

  lemma Nonzero(increment: real, c: real)
    requires increment * c == 1.0
    ensures increment != 0.0
  {
  }

  lemma DroppedZeros(f: string, p: nat)
    requires AllDigits(f)
    ensures AllDigits(Drop(f, p))
    ensures FractionValue(Drop(f, p)) == 0.0 <==> ZerosFrom(f, p)
  {
    var rest := Drop(f, p);
    if forall i | 0 <= i < |rest| :: rest[i] == '0' {
      forall i | p <= i < |f| ensures f[i] == '0' {
        assert rest[i - p] == f[i];
      }
    }
  }

  // ---------- Minimums ----------

  function ValidateMinimum(value: string, minimum: string): Option<OrderError> {
    if minimum == "" then None
    else if !IsDecimal(value) then Some(NotDecimal)
    else if !IsDecimal(minimum) then Some(InvalidRule)
    else if DecimalValue(value) < DecimalValue(minimum) then Some(BelowMinimum)
    else None
  }

  /** `decimalProduct`: the digits multiply, the fraction lengths add. */
  function DecimalProduct(left: string, right: string): real
    requires IsDecimal(left) && IsDecimal(right)
  {
    var l, r := ParseScaledDecimal(left).value, ParseScaledDecimal(right).value;
    Value(ScaledDecimal(l.integer * r.integer, l.scale + r.scale))
  }

  lemma {:induction false} TimesInteger(a: nat, b: nat, t: nat, v: real)
    requires v == Value(ScaledDecimal(b, t))
    ensures Value(ScaledDecimal(a * b, t)) == a as real * v
    decreases t
  {
    if t == 0 {
      assert (a * b) as real == a as real * b as real;
    } else {
      var shorter := Value(ScaledDecimal(b, t - 1));
      TimesInteger(a, b, t - 1, shorter);
      TenthOfProduct(shorter, a as real);
    }
  }

  /** More fraction digits on one factor are more fraction digits on the product. */
  lemma {:induction false} TimesScaled(a: nat, s: nat, ab: nat, t: nat, x: real, y: real)
    requires Value(ScaledDecimal(ab, t)) == a as real * y && x == Value(ScaledDecimal(a, s))
    ensures Value(ScaledDecimal(ab, s + t)) == x * y
    decreases s
  {
    if s > 0 {
      var longer := Value(ScaledDecimal(a, s - 1));
      TimesScaled(a, s - 1, ab, t, longer, y);
      TenthOfProduct(longer, y);
    }
  }

  lemma TenthOfProduct(x: real, y: real)
    ensures x / 10.0 * y == x * y / 10.0
    ensures y * (x / 10.0) == y * x / 10.0
  {
  }

  lemma ScaledProduct(a: nat, s: nat, b: nat, t: nat, v: real, w: real)
    requires Value(ScaledDecimal(a, s)) == v && Value(ScaledDecimal(b, t)) == w
    ensures Value(ScaledDecimal(a * b, s + t)) == v * w
  {
    TimesInteger(a, b, t, w);
    TimesScaled(a, s, a * b, t, v, w);
  }

  /** The product is the exact product of the two values. */
  lemma ProductIsExact(left: string, right: string, v: real, w: real)
    requires IsDecimal(left) && IsDecimal(right)
    requires v == DecimalValue(left) && w == DecimalValue(right)
    ensures DecimalProduct(left, right) == v * w
  {
    ParseKeepsValue(left);
    ParseKeepsValue(right);
    var l, r := ParseScaledDecimal(left).value, ParseScaledDecimal(right).value;
    ScaledProduct(l.integer, l.scale, r.integer, r.scale, v, w);
  }

  function ValidateNotional(price: string, quantity: string, minimum: string): Option<OrderError> {
    if minimum == "" then None
    else if !IsDecimal(price) || !IsDecimal(quantity) then Some(NotDecimal)
    else if !IsDecimal(minimum) then Some(InvalidRule)
    else if DecimalProduct(price, quantity) < DecimalValue(minimum) then Some(BelowMinimum)
    else None
  }

  // ---------- Orders ----------

  predicate IsAssetChar(c: char) {
    'A' <= c <= 'Z' || '0' <= c <= '9'
  }

  predicate IsAsset(s: string) {
    s != "" && forall i | 0 <= i < |s| :: IsAssetChar(s[i])
  }

  predicate ValidMarket(market: Market) {
    IsAsset(market.base) && IsAsset(market.quote) && market.base != market.quote
  }

  predicate PositiveDecimal(s: string) {
    IsDecimal(s) && Trim(s) != ""
  }

  predicate ValidTimeInForce(s: string) {
    s == "" || s == "gtc" || s == "ioc" || s == "fok" || s == "post_only"
  }

  /** `PlaceOrderRequest.Validate`. */
  predicate ValidRequest(r: PlaceOrderRequest) {
    && ValidMarket(r.market) && (r.side == "buy" || r.side == "sell")
    && r.clientOrderID != "" && TrimSpace(r.clientOrderID) == r.clientOrderID
    && if r.orderType == "limit" then
         PositiveDecimal(r.quantity) && PositiveDecimal(r.price) && r.quoteAmount == "" && ValidTimeInForce(r.timeInForce)
       else
         && r.orderType == "market" && r.price == "" && r.timeInForce == ""
         && if r.side == "buy" then PositiveDecimal(r.quoteAmount) && r.quantity == ""
            else PositiveDecimal(r.quantity) && r.quoteAmount == ""
  }

  function ValidatePrice(info: MarketInfo, r: PlaceOrderRequest): Option<OrderError> {
    if r.orderType == "limit" then ValidateIncrement(r.price, info.priceIncrement) else None
  }

  function ValidateQuantity(info: MarketInfo, r: PlaceOrderRequest): Option<OrderError> {
    if r.quantity == "" then None
    else
      var increment := ValidateIncrement(r.quantity, info.quantityIncrement);
      if increment.Some? then increment else ValidateMinimum(r.quantity, info.minimumBaseQuantity)
  }

  function ValidateQuote(info: MarketInfo, r: PlaceOrderRequest): Option<OrderError> {
    if r.quoteAmount == "" then None
    else
      var increment := ValidateIncrement(r.quoteAmount, info.quoteAmountIncrement);
      if increment.Some? then increment else ValidateMinimum(r.quoteAmount, info.minimumQuoteAmount)
  }

  /** The first of the market's rules a well-formed order breaks, or nothing. */
  function ValidateRules(info: MarketInfo, r: PlaceOrderRequest): Option<OrderError> {
    var price := ValidatePrice(info, r);
    if price.Some? then price
    else
      var quantity := ValidateQuantity(info, r);
      if quantity.Some? then quantity
      else
        var quote := ValidateQuote(info, r);
        if quote.Some? then quote
        else if r.orderType == "limit" then ValidateNotional(r.price, r.quantity, info.minimumQuoteAmount)
        else None
  }

  function ValidateOrder(info: MarketInfo, r: PlaceOrderRequest): Option<OrderError> {
    if !ValidRequest(r) then Some(InvalidRequest)
    else if info.market != r.market then Some(WrongMarket)
    else ValidateRules(info, r)
  }

  // ---------- What acceptance means ----------

  /** The text is a positive whole number of increments, where there is such a rule. */
  ghost predicate WholeIncrements(value: string, increment: string) {
    && IsDecimal(value) && DecimalValue(value) > 0.0
    && (increment != "" ==>
          && IsDecimal(increment) && DecimalValue(increment) > 0.0
          && exists k: nat :: IsTimes(DecimalValue(value), k, DecimalValue(increment)))
  }

  ghost predicate AtLeast(value: real, minimum: string) {
    minimum != "" ==> IsDecimal(minimum) && value >= DecimalValue(minimum)
  }

  /** What the market's rules ask of a well-formed order, in exact arithmetic. */
  ghost predicate MeetsRules(info: MarketInfo, r: PlaceOrderRequest) {
    if r.orderType == "limit" then
      && WholeIncrements(r.price, info.priceIncrement)
      && WholeIncrements(r.quantity, info.quantityIncrement)
      && AtLeast(DecimalValue(r.quantity), info.minimumBaseQuantity)
      && AtLeast(DecimalProduct(r.price, r.quantity), info.minimumQuoteAmount)
    else if r.side == "buy" then
      && WholeIncrements(r.quoteAmount, info.quoteAmountIncrement)
      && AtLeast(DecimalValue(r.quoteAmount), info.minimumQuoteAmount)
    else
      && WholeIncrements(r.quantity, info.quantityIncrement)
      && AtLeast(DecimalValue(r.quantity), info.minimumBaseQuantity)
  }

  lemma PositiveMeans(value: string)
    requires PositiveDecimal(value)
    ensures IsDecimal(value) && DecimalValue(value) > 0.0
  {
    TrimIsZeroTest(value);
  }

  lemma IncrementMeans(value: string, increment: string)
    requires IsDecimal(value) && DecimalValue(value) > 0.0
    ensures ValidateIncrement(value, increment).None? <==> WholeIncrements(value, increment)
  {
    if increment != "" && IsDecimal(increment) && DecimalValue(increment) > 0.0 {
      MultipleMeans(DecimalValue(value), DecimalValue(increment));
    }
  }

  lemma RuleMeans(value: string, increment: string)
    requires PositiveDecimal(value)
    ensures ValidateIncrement(value, increment).None? <==> WholeIncrements(value, increment)
  {
    PositiveMeans(value);
    IncrementMeans(value, increment);
  }

  lemma NotionalMeans(price: string, quantity: string, minimum: string)
    requires IsDecimal(price) && IsDecimal(quantity)
    ensures ValidateNotional(price, quantity, minimum).None?
       <==> AtLeast(DecimalProduct(price, quantity), minimum)
  {
  }

  lemma LimitMeans(info: MarketInfo, r: PlaceOrderRequest)
    requires r.orderType == "limit" && r.quoteAmount == "" && r.quantity != ""
    requires IsDecimal(r.price) && DecimalValue(r.price) > 0.0
    requires IsDecimal(r.quantity) && DecimalValue(r.quantity) > 0.0
    ensures ValidateRules(info, r).None? <==> MeetsRules(info, r)
  {
    IncrementMeans(r.price, info.priceIncrement);
    IncrementMeans(r.quantity, info.quantityIncrement);
    NotionalMeans(r.price, r.quantity, info.minimumQuoteAmount);
  }

  lemma MarketMeans(info: MarketInfo, r: PlaceOrderRequest)
    requires ValidRequest(r) && r.orderType == "market"
    ensures ValidateRules(info, r).None? <==> MeetsRules(info, r)
  {
    if r.side == "buy" {
      RuleMeans(r.quoteAmount, info.quoteAmountIncrement);
    } else {
      RuleMeans(r.quantity, info.quantityIncrement);
    }
  }

  /** An order is accepted exactly when it is well formed, is for this market and meets the
      market's rules exactly. A malformed rule text rejects every order it applies to. */
  lemma AcceptedMeans(info: MarketInfo, r: PlaceOrderRequest)
    ensures ValidateOrder(info, r).None?
       <==> ValidRequest(r) && info.market == r.market && MeetsRules(info, r)
  {
    if ValidRequest(r) && info.market == r.market {
      if r.orderType == "limit" {
        PositiveMeans(r.price);
        PositiveMeans(r.quantity);
        LimitMeans(info, r);
      } else {
        MarketMeans(info, r);
      }
    }
  }

  /** A market that publishes its precisions as places: an accepted limit order has no digits
      behind them. */
  lemma AcceptedLimitOrder(info: MarketInfo, r: PlaceOrderRequest, pricePlaces: nat, quantityPlaces: nat)
    requires r.orderType == "limit" && ValidateOrder(info, r).None?
    requires info.priceIncrement == DecimalIncrement(pricePlaces)
    requires info.quantityIncrement == DecimalIncrement(quantityPlaces)
    ensures IsDecimal(r.price) && IsDecimal(r.quantity)
    ensures ZerosFrom(Cut(r.price).fraction, pricePlaces)
    ensures ZerosFrom(Cut(r.quantity).fraction, quantityPlaces)
  {
    AcceptedMeans(info, r);
    AcceptedDigits(r.price, pricePlaces);
    AcceptedDigits(r.quantity, quantityPlaces);
  }

  /** Its exact notional is at least the market's minimum. */
  lemma AcceptedNotional(info: MarketInfo, r: PlaceOrderRequest, price: real, quantity: real)
    requires r.orderType == "limit" && ValidateOrder(info, r).None?
    requires IsDecimal(r.price) && price == DecimalValue(r.price)
    requires IsDecimal(r.quantity) && quantity == DecimalValue(r.quantity)
    ensures AtLeast(price * quantity, info.minimumQuoteAmount)
  {
    AcceptedMeans(info, r);
    ProductIsExact(r.price, r.quantity, price, quantity);
  }
}
