/** The available balance of a Bybit wallet coin (exchange/bybit/unified.go): texts brought to
    one scale in place, subtracted as integers. */
module BybitBalance {
  import opened Results
  import opened Integers
  import opened Decimals

  /** An empty text counts as zero. */
  function Read(text: string): string {
    if text == "" then "0" else text
  }

  lemma ReadMeans(text: string)
    ensures text != "" ==> Read(text) == text
    ensures IsDecimal(Read("")) && DecimalValue(Read("")) == 0.0
  {
    TrimIsZeroTest("0");
  }

  ghost function ReadAll(texts: seq<string>): (r: seq<string>)
    ensures |r| == |texts| && forall i | 0 <= i < |texts| :: r[i] == Read(texts[i])
  {
    seq(|texts|, i requires 0 <= i < |texts| => Read(texts[i]))
  }

  ghost function Total(integers: seq<nat>): nat {
    if integers == [] then 0 else Total(integers[..|integers| - 1]) + integers[|integers| - 1]
  }

  function ParsedAt(text: string): ScaledDecimal
    requires IsDecimal(text)
  {
    ParseScaledDecimal(text).value
  }

  /** The integers are the texts' values at one scale. */
  ghost predicate AtScale(integers: seq<nat>, texts: seq<string>, scale: nat)
    requires AllDecimals(texts)
  {
    && |integers| == |texts|
    && forall i {:trigger integers[i]} | 0 <= i < |texts| ::
         ParsedAt(texts[i]).scale <= scale && integers[i] == ScaleInteger(ParsedAt(texts[i]), scale)
  }

  lemma IntegerDenotes(text: string, integer: nat, scale: nat)
    requires IsDecimal(text) && ParsedAt(text).scale <= scale && integer == ScaleInteger(ParsedAt(text), scale)
    ensures Value(ScaledDecimal(integer, scale)) == DecimalValue(text)
  {
    ParseKeepsValue(text);
    ScaleIntegerKeepsValue(ParsedAt(text), scale);
  }

  lemma PrefixAtScale(integers: seq<nat>, texts: seq<string>, scale: nat)
    requires AllDecimals(texts) && AtScale(integers, texts, scale) && texts != []
    ensures AllDecimals(texts[..|texts| - 1])
    ensures AtScale(integers[..|texts| - 1], texts[..|texts| - 1], scale)
  {
    var n := |texts| - 1;
    var front, words := integers[..n], texts[..n];
    assert AllDecimals(words) && |front| == |words| == n;
    forall i {:trigger front[i]} | 0 <= i < |words|
      ensures ParsedAt(words[i]).scale <= scale && front[i] == ScaleInteger(ParsedAt(words[i]), scale)
    {
      assert front[i] == integers[i] && words[i] == texts[i];
    }
    assert AtScale(front, words, scale);
  }

  lemma {:induction false} TotalDenotes(integers: seq<nat>, texts: seq<string>, scale: nat)
    requires AllDecimals(texts) && AtScale(integers, texts, scale)
    ensures Value(ScaledDecimal(Total(integers), scale)) == SumOfValues(texts)
  {
    var n := |texts| - 1;
    if texts == [] {
      ZeroIsZero(scale);
    } else {
      PrefixAtScale(integers, texts, scale);
      TotalDenotes(integers[..n], texts[..n], scale);
      assert integers[n] == ScaleInteger(ParsedAt(texts[n]), scale);
      IntegerDenotes(texts[n], integers[n], scale);
      ValueIsLinear(Total(integers[..n]), integers[n], scale);
    }
  }

  lemma {:induction false} ZeroIsZero(scale: nat)
    ensures Value(ScaledDecimal(0, scale)) == 0.0
  {
    if scale > 0 {
      ZeroIsZero(scale - 1);
    }
  }

  /** What is left, and when nothing may be: the integers decide exactly as the values do. */
  lemma DifferenceDenotes(first: nat, rest: seq<nat>, minuend: string, texts: seq<string>, scale: nat)
    requires IsDecimal(minuend) && AllDecimals(texts) && AllDecimals([minuend] + texts)
    requires AtScale([first] + rest, [minuend] + texts, scale)
    ensures first < Total(rest) <==> DecimalValue(minuend) < SumOfValues(texts)
    ensures first >= Total(rest) ==>
              Value(ScaledDecimal(first - Total(rest), scale)) + SumOfValues(texts) == DecimalValue(minuend)
  {
    SplitAtScale(first, rest, minuend, texts, scale);
    IntegerDenotes(minuend, first, scale);
    TotalDenotes(rest, texts, scale);
    ValueIsLinear(first, Total(rest), scale);
    if first >= Total(rest) {
      ValueIsLinear(first - Total(rest), Total(rest), scale);
    }
  }

  lemma SplitAtScale(first: nat, rest: seq<nat>, minuend: string, texts: seq<string>, scale: nat)
    requires IsDecimal(minuend) && AllDecimals(texts) && AllDecimals([minuend] + texts)
    requires AtScale([first] + rest, [minuend] + texts, scale)
    ensures ParsedAt(minuend).scale <= scale && first == ScaleInteger(ParsedAt(minuend), scale)
    ensures AtScale(rest, texts, scale)
  {
    var all, words := [first] + rest, [minuend] + texts;
    assert all[0] == first && words[0] == minuend;
    forall i {:trigger rest[i]} | 0 <= i < |texts|
      ensures ParsedAt(texts[i]).scale <= scale && rest[i] == ScaleInteger(ParsedAt(texts[i]), scale)
    {
      assert all[i + 1] == rest[i] && words[i + 1] == texts[i];
    }
  }

  ghost function ParsedList(words: seq<string>): (r: seq<ScaledDecimal>)
    requires AllDecimals(words)
    ensures |r| == |words|
  {
    if words == [] then [] else ParsedList(words[..|words| - 1]) + [ParsedAt(words[|words| - 1])]
  }

  lemma ParsedListSnoc(words: seq<string>, word: string)
    requires AllDecimals(words) && IsDecimal(word) && AllDecimals(words + [word])
    ensures ParsedList(words + [word]) == ParsedList(words) + [ParsedAt(word)]
  {
    assert (words + [word])[..|words|] == words;
  }

  lemma {:induction false} ParsedListAt(words: seq<string>, i: nat)
    requires AllDecimals(words) && i < |words|
    ensures ParsedList(words)[i] == ParsedAt(words[i])
  {
    if i < |words| - 1 {
      ParsedListAt(words[..|words| - 1], i);
    }
  }

  /** The two arrays hold the parsed texts, and no scale exceeds the maximum. */
  ghost predicate Holds(integers: seq<nat>, scales: seq<nat>, parsed: seq<ScaledDecimal>, maximumScale: nat) {
    && |integers| >= |parsed| && |scales| >= |parsed|
    && forall i {:trigger parsed[i]} | 0 <= i < |parsed| ::
         integers[i] == parsed[i].integer && scales[i] == parsed[i].scale <= maximumScale
  }

  lemma ReadAllSnoc(texts: seq<string>, n: nat)
    requires n < |texts|
    ensures ReadAll(texts[..n + 1]) == ReadAll(texts[..n]) + [Read(texts[n])]
  {
  }

  lemma LongestSnoc(words: seq<string>, word: string)
    ensures LongestFraction(words + [word]) == Max(LongestFraction(words), |Cut(word).fraction|)
    ensures AllDecimals(words + [word]) <==> AllDecimals(words) && IsDecimal(word)
  {
    var all := words + [word];
    assert all[..|words|] == words && all[|words|] == word;
    if AllDecimals(words) && IsDecimal(word) {
      forall i | 0 <= i < |all| ensures IsDecimal(all[i]) {
        assert i < |words| ==> all[i] == words[i];
      }
    }
    if AllDecimals(all) {
      forall i | 0 <= i < |words| ensures IsDecimal(words[i]) {
        assert all[i] == words[i];
      }
    }
  }

  lemma NotAll(texts: seq<string>, n: nat)
    requires n < |texts| && !IsDecimal(Read(texts[n]))
    ensures !AllDecimals(ReadAll(texts))
  {
    assert ReadAll(texts)[n] == Read(texts[n]);
  }

  /** What one more text changes. */
  lemma OneMore(texts: seq<string>, n: nat, before: seq<string>, after: seq<string>, word: string)
    requires n < |texts| && word == Read(texts[n])
    requires before == ReadAll(texts[..n]) && after == ReadAll(texts[..n + 1]) && AllDecimals(before)
    ensures !IsDecimal(word) ==> !AllDecimals(ReadAll(texts))
    ensures IsDecimal(word) ==>
              && AllDecimals(after) && ParsedList(after) == ParsedList(before) + [ParsedAt(word)]
              && LongestFraction(after) == Max(LongestFraction(before), ParsedAt(word).scale)
  {
    ReadAllSnoc(texts, n);
    LongestSnoc(before, word);
    if IsDecimal(word) {
      ParsedListSnoc(before, word);
      ParseKeepsValue(word);
    } else {
      NotAll(texts, n);
    }
  }

  lemma HoldsNext(
    integers: seq<nat>, scales: seq<nat>, parsed: seq<ScaledDecimal>, maximumScale: nat, next: ScaledDecimal)
    requires Holds(integers, scales, parsed, maximumScale)
    requires |parsed| < |integers| && |parsed| < |scales|
    ensures Holds(integers[|parsed| := next.integer], scales[|parsed| := next.scale], parsed + [next],
                  Max(maximumScale, next.scale))
  {
  }

  method Store(
    integers: array<nat>, scales: array<nat>, index: nat, value: ScaledDecimal, maximumScale: nat,
    ghost parsed: seq<ScaledDecimal>)
    returns (newMaximum: nat)
    requires integers != scales && index == |parsed| < integers.Length == scales.Length
    requires Holds(integers[..], scales[..], parsed, maximumScale)
    modifies integers, scales
    ensures Holds(integers[..], scales[..], parsed + [value], newMaximum)
    ensures newMaximum == Max(maximumScale, value.scale)
  {
    HoldsNext(integers[..], scales[..], parsed, maximumScale, value);
    integers[index] := value.integer;
    scales[index] := value.scale;
    newMaximum := maximumScale;
    if scales[index] > newMaximum {
      newMaximum := scales[index];
    }
  }

  /** Parse every text; the longest fraction is the scale they are brought to. */
  method ParseAll(texts: seq<string>) returns (ok: bool, integers: array<nat>, scales: array<nat>, maximumScale: nat)
    ensures fresh(integers) && fresh(scales) && integers != scales
    ensures ok <==> AllDecimals(ReadAll(texts))
    ensures ok ==> integers.Length == scales.Length == |texts| && maximumScale == LongestFraction(ReadAll(texts))
    ensures ok ==> Holds(integers[..], scales[..], ParsedList(ReadAll(texts)), maximumScale)
  {
    integers, scales := new nat[|texts|](_ => 0), new nat[|texts|](_ => 0);
    maximumScale := 0;
    for index := 0 to |texts|
      invariant AllDecimals(ReadAll(texts[..index])) && maximumScale == LongestFraction(ReadAll(texts[..index]))
      invariant Holds(integers[..], scales[..], ParsedList(ReadAll(texts[..index])), maximumScale)
    {
      ghost var before, after := ReadAll(texts[..index]), ReadAll(texts[..index + 1]);
      OneMore(texts, index, before, after, Read(texts[index]));
      var parsed := ParseScaledDecimal(Read(texts[index]));
      if parsed.Err? {
        return false, integers, scales, maximumScale;
      }
      maximumScale := Store(integers, scales, index, parsed.value, maximumScale, ParsedList(before));
    }
    assert texts[..|texts|] == texts;
    return true, integers, scales, maximumScale;
  }

  /** Bring every integer to the common scale, in place. */
  method Rescale(integers: array<nat>, scales: array<nat>, maximumScale: nat)
    requires integers.Length == scales.Length && integers != scales
    modifies integers
    ensures forall i | 0 <= i < integers.Length ::
              integers[i] == ScaleInteger(ScaledDecimal(old(integers[i]), scales[i]), maximumScale)
  {
    for index := 0 to integers.Length
      invariant forall i | 0 <= i < index ::
                  integers[i] == ScaleInteger(ScaledDecimal(old(integers[i]), scales[i]), maximumScale)
      invariant forall i | index <= i < integers.Length :: integers[i] == old(integers[i])
    {
      if maximumScale > scales[index] {
        integers[index] := integers[index] * Pow10(maximumScale - scales[index]);
      }
    }
  }

  /** The first integer less all others. */
  method Subtract(integers: array<nat>) returns (result: int)
    requires integers.Length > 0
    ensures result == integers[0] - Total(integers[1..])
  {
    result := integers[0];
    for index := 1 to integers.Length
      invariant result == integers[0] - Total(integers[1..index])
    {
      assert integers[1..index + 1][..index - 1] == integers[1..index];
      result := result - integers[index];
    }
    assert integers[1..integers.Length] == integers[1..];
  }

  /** The exact difference, written with the longest fraction. Success means that the result and
      all subtrahends add up to the minuend; it fails exactly when a text is no decimal or the
      subtrahends are worth more than the minuend. */
  method SubtractBybitDecimals(minuend: string, subtrahends: seq<string>) returns (r: Result<string, DecimalError>)
    ensures r.Ok? <==>
              && IsDecimal(Read(minuend)) && AllDecimals(ReadAll(subtrahends))
              && SumOfValues(ReadAll(subtrahends)) <= DecimalValue(Read(minuend))
    ensures r.Ok? ==>
              && IsDecimal(r.value)
              && DecimalValue(r.value) + SumOfValues(ReadAll(subtrahends)) == DecimalValue(Read(minuend))
              && |Cut(r.value).fraction| == LongestFraction(ReadAll([minuend] + subtrahends))
    ensures r.Err? ==> r.error == if IsDecimal(Read(minuend)) && AllDecimals(ReadAll(subtrahends))
                                  then NegativeResult else InvalidDecimal
  {
    ghost var first, rest := Read(minuend), ReadAll(subtrahends);
    assert ReadAll([minuend] + subtrahends) == [first] + rest;
    AllOf(first, rest);
    var ok, integers, scales, maximumScale := ParseAll([minuend] + subtrahends);
    if !ok {
      return Err(InvalidDecimal);
    }
    ghost var parsed := ParsedList([first] + rest);
    Rescale(integers, scales, maximumScale);
    var result := Subtract(integers);
    assert integers[..] == [integers[0]] + integers[1..];
    RescaledAtScale(integers[..], [first] + rest, parsed, maximumScale);
    DifferenceDenotes(integers[0], integers[1..], first, rest, maximumScale);
    if result < 0 {
      return Err(NegativeResult);
    }
    var total := ScaledDecimal(result, maximumScale);
    StringDenotesValue(total);
    return Ok(ScaledString(total));
  }

  lemma RescaledAtScale(integers: seq<nat>, words: seq<string>, parsed: seq<ScaledDecimal>, scale: nat)
    requires AllDecimals(words) && parsed == ParsedList(words) && |integers| == |words|
    requires forall i {:trigger parsed[i]} | 0 <= i < |parsed| ::
               parsed[i].scale <= scale && integers[i] == ScaleInteger(parsed[i], scale)
    ensures AtScale(integers, words, scale)
  {
    forall i {:trigger integers[i]} | 0 <= i < |words|
      ensures ParsedAt(words[i]).scale <= scale && integers[i] == ScaleInteger(ParsedAt(words[i]), scale)
    {
      ParsedListAt(words, i);
    }
  }

  lemma AllOf(first: string, rest: seq<string>)
    ensures AllDecimals([first] + rest) <==> IsDecimal(first) && AllDecimals(rest)
  {
    var all := [first] + rest;
    if AllDecimals(all) {
      assert IsDecimal(all[0]);
      forall i | 0 <= i < |rest| ensures IsDecimal(rest[i]) {
        assert IsDecimal(all[i + 1]);
      }
    }
  }

  /** The wallet balance less what is borrowed and what is locked. */
  method BybitSpotAvailable(walletBalance: string, spotBorrow: string, locked: string)
    returns (r: Result<string, DecimalError>)
    ensures r.Ok? ==>
              && IsDecimal(Read(walletBalance)) && IsDecimal(Read(spotBorrow)) && IsDecimal(Read(locked))
              && IsDecimal(r.value)
              && DecimalValue(r.value) + DecimalValue(Read(spotBorrow)) + DecimalValue(Read(locked))
                   == DecimalValue(Read(walletBalance))
    ensures r.Err? && IsDecimal(Read(walletBalance)) && IsDecimal(Read(spotBorrow)) && IsDecimal(Read(locked)) ==>
              DecimalValue(Read(walletBalance)) < DecimalValue(Read(spotBorrow)) + DecimalValue(Read(locked))
  {
    r := SubtractBybitDecimals(walletBalance, [spotBorrow, locked]);
    TwoTexts(spotBorrow, locked);
  }

  lemma TwoTexts(a: string, b: string)
    ensures AllDecimals(ReadAll([a, b])) <==> IsDecimal(Read(a)) && IsDecimal(Read(b))
    ensures AllDecimals(ReadAll([a, b])) ==>
              SumOfValues(ReadAll([a, b])) == DecimalValue(Read(a)) + DecimalValue(Read(b))
  {
    var words := ReadAll([a, b]);
    assert words == [Read(a), Read(b)];
    AllOf(Read(a), [Read(b)]);
    AllOf(Read(b), []);
    assert [Read(b)] == [Read(b)] + [] && [Read(a)] + [Read(b)] == words;
    if AllDecimals(words) {
      assert words[..1] == [Read(a)] && [Read(a)][..0] == [];
      assert SumOfValues([Read(a)]) == DecimalValue(Read(a));
    }
  }
}
