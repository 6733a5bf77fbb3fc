/** Decimal text, its exact value, and scaled integers (unified/candles.go).

    Every adapter accepts a number only as text of the shape `digits[.digits]`; the exact
    value of such a text is a real number here, which stands for Go's `big.Rat`. */
module Decimals {
  import opened Results
  import opened Integers
  import opened Texts

  datatype DecimalError = NoValues | InvalidDecimal | NegativeResult

  // ---------- Text ----------

  predicate IsDigit(c: char) {
    '0' <= c <= '9'
  }

  predicate AllDigits(s: string) {
    forall i | 0 <= i < |s| :: IsDigit(s[i])
  }

  datatype Halves = Halves(whole: string, fraction: string, found: bool)

  /** Go's `strings.Cut(s, ".")`. */
  function Cut(s: string): (h: Halves)
    ensures !h.found ==> h.fraction == ""
  {
    if s == "" then Halves("", "", false)
    else if s[0] == '.' then Halves("", s[1..], true)
    else
      var rest := Cut(s[1..]);
      Halves([s[0]] + rest.whole, rest.fraction, rest.found)
  }

  lemma {:induction false} CutJoins(s: string)
    ensures s == Cut(s).whole + (if Cut(s).found then "." + Cut(s).fraction else "")
  {
    if s != "" && s[0] != '.' {
      CutJoins(s[1..]);
    }
  }

  /** The pattern `^[0-9]+(?:\.[0-9]+)?$` that every adapter calls positiveDecimalPattern. */
  predicate IsDecimal(s: string) {
    var h := Cut(s);
    && h.whole != "" && AllDigits(h.whole)
    && (h.found ==> h.fraction != "" && AllDigits(h.fraction))
  }

  lemma {:induction false} CutAtDot(whole: string, fraction: string)
    requires AllDigits(whole)
    ensures Cut(whole + "." + fraction) == Halves(whole, fraction, true)
  {
    var s := whole + "." + fraction;
    if whole == "" {
      assert s[1..] == fraction;
    } else {
      CutAtDot(whole[1..], fraction);
      assert s[1..] == whole[1..] + "." + fraction;
      assert [whole[0]] + whole[1..] == whole;
    }
  }

  lemma {:induction false} CutWithoutDot(whole: string)
    requires AllDigits(whole)
    ensures Cut(whole) == Halves(whole, "", false)
  {
    if whole != "" {
      CutWithoutDot(whole[1..]);
      assert [whole[0]] + whole[1..] == whole;
    }
  }

  // ---------- Digits ----------

  function DigitOf(c: char): nat
    requires IsDigit(c)
  {
    c as int - '0' as int
  }

  function DigitChar(d: nat): (c: char)
    requires d < 10
    ensures IsDigit(c) && DigitOf(c) == d
  {
    ('0' as int + d) as char
  }

  /** `big.Int.SetString(s, 10)` on a text of digits. */
  function DigitsValue(s: string): nat
    requires AllDigits(s)
  {
    if s == "" then 0 else DigitsValue(s[..|s| - 1]) * 10 + DigitOf(s[|s| - 1])
  }

  /** `big.Int.String()` of a value that is not negative. */
  function NatString(n: nat): (s: string)
    ensures s != "" && AllDigits(s) && DigitsValue(s) == n
  {
    if n < 10 then [DigitChar(n)]
    else
      var front := NatString(n / 10);
      var s := front + [DigitChar(n % 10)];
      assert s[..|s| - 1] == front;
      s
  }

  lemma DigitsValueSnoc(s: string, c: char)
    requires AllDigits(s) && IsDigit(c)
    ensures AllDigits(s + [c]) && DigitsValue(s + [c]) == DigitsValue(s) * 10 + DigitOf(c)
  {
    assert (s + [c])[..|s|] == s;
  }

  function Repeat(c: char, n: nat): (s: string)
    ensures |s| == n && forall i | 0 <= i < n :: s[i] == c
  {
    seq(n, _ => c)
  }

  lemma {:induction false} LeadingZeros(n: nat, s: string)
    requires AllDigits(s)
    ensures AllDigits(Repeat('0', n) + s)
    ensures DigitsValue(Repeat('0', n) + s) == DigitsValue(s)
  {
    var t := Repeat('0', n) + s;
    if s != "" {
      LeadingZeros(n, s[..|s| - 1]);
      assert t[..|t| - 1] == Repeat('0', n) + s[..|s| - 1];
    } else if n > 0 {
      LeadingZeros(n - 1, s);
      assert t[..|t| - 1] == Repeat('0', n - 1) + s;
    }
  }

  // ---------- Exact values ----------

  function Pow10(n: nat): (p: nat)
    ensures p > 0
  {
    if n == 0 then 1 else 10 * Pow10(n - 1)
  }

  /** The value of the digits behind the point. */
  function FractionValue(f: string): (v: real)
    requires AllDigits(f)
    ensures 0.0 <= v < 1.0
    ensures v == 0.0 <==> forall i | 0 <= i < |f| :: f[i] == '0'
  {
    if f == "" then 0.0
    else
      var rest := FractionValue(f[1..]);
      assert f == [f[0]] + f[1..];
      (DigitOf(f[0]) as real + rest) / 10.0
  }

  /** The exact value of a decimal text. */
  function DecimalValue(s: string): (v: real)
    requires IsDecimal(s)
    ensures v >= 0.0
  {
    DigitsValue(Cut(s).whole) as real + FractionValue(Cut(s).fraction)
  }

  // ---------- strings.Trim(s, "0.") ----------

  predicate InCutset(c: char) {
    c == '0' || c == '.'
  }

  function Trim(s: string): string {
    TrimFunc(s, InCutset)
  }

  lemma {:induction false} DigitsValueZero(s: string)
    requires AllDigits(s)
    ensures DigitsValue(s) == 0 <==> forall i | 0 <= i < |s| :: s[i] == '0'
  {
    if s != "" {
      DigitsValueZero(s[..|s| - 1]);
      assert s == s[..|s| - 1] + [s[|s| - 1]];
    }
  }

  /** The text test by which the books delete a level is exactly "the quantity is zero". */
  lemma TrimIsZeroTest(s: string)
    requires IsDecimal(s)
    ensures Trim(s) == "" <==> DecimalValue(s) == 0.0
  {
    var h := Cut(s);
    TrimFuncEmpty(s, InCutset);
    DigitsValueZero(h.whole);
    CutJoins(s);
    if forall i | 0 <= i < |s| :: InCutset(s[i]) {
      forall i | 0 <= i < |h.whole| ensures h.whole[i] == '0' {
        assert s[i] == h.whole[i];
      }
      forall i | 0 <= i < |h.fraction| ensures h.fraction[i] == '0' {
        assert s[|h.whole| + 1 + i] == h.fraction[i];
      }
    }
  }

  // ---------- Scaled decimals ----------

  /** An integer with an implied decimal point `scale` digits from its right. */
  datatype ScaledDecimal = ScaledDecimal(integer: nat, scale: nat)

  /** `integer / 10^scale`. */
  function Value(d: ScaledDecimal): (v: real)
    ensures v >= 0.0
    decreases d.scale
  {
    if d.scale == 0 then d.integer as real
    else Value(d.(scale := d.scale - 1)) / 10.0
  }

  function ParseScaledDecimal(s: string): Result<ScaledDecimal, DecimalError> {
    if !IsDecimal(s) then Err(InvalidDecimal)
    else
      var h := Cut(s);
      Ok(ScaledDecimal(DigitsValue(h.whole + h.fraction), |h.fraction|))
  }

  lemma {:induction false} ValueOfDigits(w: string, f: string)
    requires AllDigits(w) && AllDigits(f)
    ensures AllDigits(w + f)
    ensures Value(ScaledDecimal(DigitsValue(w + f), |f|))
         == DigitsValue(w) as real + FractionValue(f)
    decreases f
  {
    if f == "" {
      assert w + f == w;
    } else {
      DigitsValueSnoc(w, f[0]);
      ValueOfDigits(w + [f[0]], f[1..]);
      assert w + f == w + [f[0]] + f[1..];
    }
  }

  /** Parsing keeps the value and remembers how many fraction digits were written. */
  lemma ParseKeepsValue(s: string)
    requires IsDecimal(s)
    ensures ParseScaledDecimal(s).Ok?
    ensures Value(ParseScaledDecimal(s).value) == DecimalValue(s)
    ensures ParseScaledDecimal(s).value.scale == |Cut(s).fraction|
  {
    ValueOfDigits(Cut(s).whole, Cut(s).fraction);
  }

  function ScaleInteger(d: ScaledDecimal, scale: nat): nat {
    if scale > d.scale then d.integer * Pow10(scale - d.scale) else d.integer
  }

  lemma {:induction false} AppendZero(n: nat, scale: nat)
    ensures Value(ScaledDecimal(10 * n, scale + 1)) == Value(ScaledDecimal(n, scale))
  {
    if scale > 0 {
      AppendZero(n, scale - 1);
    } else {
      assert Value(ScaledDecimal(10 * n, 0)) == (10 * n) as real;
    }
  }

  lemma {:induction false} ScaleIntegerKeepsValue(d: ScaledDecimal, scale: nat)
    requires scale >= d.scale
    ensures Value(ScaledDecimal(ScaleInteger(d, scale), scale)) == Value(d)
    decreases scale - d.scale
  {
    if scale > d.scale {
      var wider := ScaledDecimal(10 * d.integer, d.scale + 1);
      AppendZero(d.integer, d.scale);
      ScaleIntegerKeepsValue(wider, scale);
      TimesPow10(d.integer, scale - d.scale);
    }
  }

  lemma TimesPow10(n: nat, k: nat)
    requires k > 0
    ensures n * Pow10(k) == (10 * n) * Pow10(k - 1)
  {
    assert n * (10 * Pow10(k - 1)) == (10 * n) * Pow10(k - 1);
  }

  lemma {:induction false} ValueIsLinear(a: nat, b: nat, scale: nat)
    ensures Value(ScaledDecimal(a + b, scale))
         == Value(ScaledDecimal(a, scale)) + Value(ScaledDecimal(b, scale))
    ensures Value(ScaledDecimal(a, scale)) < Value(ScaledDecimal(b, scale)) <==> a < b
    ensures Value(ScaledDecimal(a, scale)) == Value(ScaledDecimal(b, scale)) <==> a == b
  {
    if scale > 0 {
      ValueIsLinear(a, b, scale - 1);
    }
  }

  function AddScaledDecimals(left: ScaledDecimal, right: ScaledDecimal): ScaledDecimal {
    var scale := Max(left.scale, right.scale);
    ScaledDecimal(ScaleInteger(left, scale) + ScaleInteger(right, scale), scale)
  }

  lemma AddIsExact(left: ScaledDecimal, right: ScaledDecimal)
    ensures Value(AddScaledDecimals(left, right)) == Value(left) + Value(right)
  {
    var scale := Max(left.scale, right.scale);
    ScaleIntegerKeepsValue(left, scale);
    ScaleIntegerKeepsValue(right, scale);
    ValueIsLinear(ScaleInteger(left, scale), ScaleInteger(right, scale), scale);
  }

  /** -1, 0 or 1, or an error when either text is not a decimal. */
  function CompareDecimals(left: string, right: string): Result<int, DecimalError> {
    match (ParseScaledDecimal(left), ParseScaledDecimal(right))
    case (Ok(l), Ok(r)) =>
      var scale := Max(l.scale, r.scale);
      var a, b := ScaleInteger(l, scale), ScaleInteger(r, scale);
      Ok(if a < b then -1 else if a == b then 0 else 1)
    case _ => Err(InvalidDecimal)
  }

  /** The comparison orders texts by exact value, whatever their lengths. */
  lemma CompareIsExact(left: string, right: string)
    ensures CompareDecimals(left, right).Ok? <==> IsDecimal(left) && IsDecimal(right)
    ensures CompareDecimals(left, right).Ok? ==>
              var c := CompareDecimals(left, right).value;
              && (c < 0 <==> DecimalValue(left) < DecimalValue(right))
              && (c == 0 <==> DecimalValue(left) == DecimalValue(right))
              && (c > 0 <==> DecimalValue(left) > DecimalValue(right))
  {
    if IsDecimal(left) && IsDecimal(right) {
      ParseKeepsValue(left);
      ParseKeepsValue(right);
      var l, r := ParseScaledDecimal(left).value, ParseScaledDecimal(right).value;
      var scale := Max(l.scale, r.scale);
      ScaleIntegerKeepsValue(l, scale);
      ScaleIntegerKeepsValue(r, scale);
      ValueIsLinear(ScaleInteger(l, scale), ScaleInteger(r, scale), scale);
    }
  }

  /** Enough leading zeros that a digit stands before the decimal point. */
  function Padded(digits: string, scale: nat): (padded: string)
    ensures |padded| > scale
  {
    if |digits| <= scale then Repeat('0', scale - |digits| + 1) + digits else digits
  }

  lemma PaddedKeepsValue(digits: string, scale: nat)
    requires AllDigits(digits)
    ensures AllDigits(Padded(digits, scale))
    ensures DigitsValue(Padded(digits, scale)) == DigitsValue(digits)
  {
    if |digits| <= scale {
      LeadingZeros(scale - |digits| + 1, digits);
    }
  }

  function ScaledString(d: ScaledDecimal): string {
    var digits := NatString(d.integer);
    if d.scale == 0 then digits
    else
      var padded := Padded(digits, d.scale);
      var position := |padded| - d.scale;
      padded[..position] + "." + padded[position..]
  }

  lemma ParseOfDigits(w: string, f: string)
    requires w != "" && AllDigits(w) && AllDigits(f)
    ensures f != "" ==>
              ParseScaledDecimal(w + "." + f) == Ok(ScaledDecimal(DigitsValue(w + f), |f|))
    ensures ParseScaledDecimal(w) == Ok(ScaledDecimal(DigitsValue(w), 0))
  {
    CutAtDot(w, f);
    CutWithoutDot(w);
    assert w + "" == w;
  }

  lemma ParseOfPointed(digits: string, w: string, f: string, text: string)
    requires w != "" && f != "" && AllDigits(w) && AllDigits(f)
    requires digits == w + f && text == w + "." + f && AllDigits(digits)
    ensures ParseScaledDecimal(text) == Ok(ScaledDecimal(DigitsValue(digits), |f|))
  {
    ParseOfDigits(w, f);
  }

  /** Printing loses nothing: reading the text back gives the same integer and scale. */
  lemma ParseOfString(d: ScaledDecimal)
    ensures ParseScaledDecimal(ScaledString(d)) == Ok(d)
  {
    var digits := NatString(d.integer);
    if d.scale == 0 {
      ParseOfDigits(digits, "");
    } else {
      PaddedKeepsValue(digits, d.scale);
      var padded := Padded(digits, d.scale);
      var position := |padded| - d.scale;
      var w, f := padded[..position], padded[position..];
      ParseOfPointed(padded, w, f, w + "." + f);
    }
  }

  /** The printed text is a decimal with exactly `scale` fraction digits and the same value. */
  lemma StringDenotesValue(d: ScaledDecimal)
    ensures IsDecimal(ScaledString(d))
    ensures DecimalValue(ScaledString(d)) == Value(d)
    ensures |Cut(ScaledString(d)).fraction| == d.scale
  {
    ParseOfString(d);
    ParseKeepsValue(ScaledString(d));
  }

  // ---------- AddDecimals ----------

  ghost predicate AllDecimals(values: seq<string>) {
    forall i | 0 <= i < |values| :: IsDecimal(values[i])
  }

  ghost function SumOfValues(values: seq<string>): real
    requires AllDecimals(values)
  {
    if values == [] then 0.0
    else SumOfValues(values[..|values| - 1]) + DecimalValue(values[|values| - 1])
  }

  ghost function LongestFraction(values: seq<string>): nat {
    if values == [] then 0
    else Max(LongestFraction(values[..|values| - 1]), |Cut(values[|values| - 1]).fraction|)
  }

  lemma OneMoreValue(before: seq<string>, after: seq<string>, value: string, total: ScaledDecimal)
    requires after == before + [value] && AllDecimals(before) && IsDecimal(value)
    requires Value(total) == SumOfValues(before) && total.scale == LongestFraction(before)
    ensures AllDecimals(after)
    ensures var sum := AddScaledDecimals(total, ParseScaledDecimal(value).value);
            Value(sum) == SumOfValues(after) && sum.scale == LongestFraction(after)
  {
    assert after[..|before|] == before;
    ParseKeepsValue(value);
    AddIsExact(total, ParseScaledDecimal(value).value);
  }

  /** The exact sum of any list of decimals, written with the longest fraction in the list;
      an error exactly for an empty list or a list with a text that is not a decimal. */
  method AddDecimals(values: seq<string>) returns (r: Result<string, DecimalError>)
    ensures r.Ok? <==> values != [] && AllDecimals(values)
    ensures r.Ok? ==> IsDecimal(r.value) && DecimalValue(r.value) == SumOfValues(values)
    ensures r.Ok? ==> |Cut(r.value).fraction| == LongestFraction(values)
    ensures r.Err? ==> r.error == if values == [] then NoValues else InvalidDecimal
  {
    if |values| == 0 {
      return Err(NoValues);
    }
    var total := ScaledDecimal(0, 0);
    for i := 0 to |values|
      invariant AllDecimals(values[..i])
      invariant Value(total) == SumOfValues(values[..i])
      invariant total.scale == LongestFraction(values[..i])
    {
      var parsed := ParseScaledDecimal(values[i]);
      if parsed.Err? {
        return Err(InvalidDecimal);
      }
      OneMoreValue(values[..i], values[..i + 1], values[i], total);
      total := AddScaledDecimals(total, parsed.value);
    }
    assert values[..|values|] == values;
    StringDenotesValue(total);
    return Ok(ScaledString(total));
  }
}
