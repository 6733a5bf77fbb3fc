/** Candle aggregation (unified/candles.go): what a larger candle is, and the loops that
    compute the newest ones. */
module Candles {
  import opened Integers
  import opened Decimals
  import opened Sorting

  const MILLISECOND := 1_000_000

  datatype Candle = Candle(
    startTime: int, open: string, high: string, low: string, close: string, volume: string)

  datatype AggregateError = InvalidInterval | InvalidLimit | NegativeTimestamp | InvalidNumber

  // ---------- Which candles count ----------

  /** The first candle of each start time; later ones with the same time are ignored. */
  function ByStart(source: seq<Candle>): map<int, Candle> {
    if source == [] then map[]
    else
      var m, last := ByStart(source[..|source| - 1]), source[|source| - 1];
      if last.startTime in m then m else m[last.startTime := last]
  }

  /** It is the first candle of the source that has the time. */
  ghost predicate FirstWith(source: seq<Candle>, t: int, i: nat) {
    && i < |source| && source[i].startTime == t
    && forall j {:trigger source[j]} | 0 <= j < i :: source[j].startTime != t
  }

  lemma {:induction false} ByStartIsFirst(source: seq<Candle>, t: int)
    ensures t in ByStart(source) ==>
              exists i: nat :: FirstWith(source, t, i) && ByStart(source)[t] == source[i]
    ensures t !in ByStart(source) ==> forall i | 0 <= i < |source| :: source[i].startTime != t
  {
    if source != [] {
      var front, n := source[..|source| - 1], |source| - 1;
      ByStartIsFirst(front, t);
      if t in ByStart(front) {
        var i: nat :| FirstWith(front, t, i) && ByStart(front)[t] == front[i];
        assert FirstWith(source, t, i) && front[i] == source[i];
      } else if source[n].startTime == t {
        assert forall j {:trigger source[j]} | 0 <= j < n :: source[j] == front[j];
        assert FirstWith(source, t, n);
      }
    }
  }

  /** Their start times, in order of first appearance. */
  function StartsOf(source: seq<Candle>): seq<int> {
    if source == [] then []
    else
      var front, last := source[..|source| - 1], source[|source| - 1];
      if last.startTime in ByStart(front) then StartsOf(front) else StartsOf(front) + [last.startTime]
  }

  const ASCENDING := (a: int, b: int) => a < b

  const DESCENDING := (a: int, b: int) => a > b

  ghost predicate Increasing(starts: seq<int>) {
    forall i, j | 0 <= i < j < |starts| :: starts[i] < starts[j]
  }

  lemma {:induction false} StartsFacts(source: seq<Candle>)
    ensures forall t :: t in StartsOf(source) <==> t in ByStart(source)
    ensures forall i, j | 0 <= i < j < |StartsOf(source)| :: StartsOf(source)[i] != StartsOf(source)[j]
  {
    if source != [] {
      StartsFacts(source[..|source| - 1]);
    }
  }

  /** The kept start times from the oldest to the newest. */
  function SortedStarts(source: seq<Candle>): seq<int> {
    SortSlice(StartsOf(source), ASCENDING)
  }

  lemma SortedStartsFacts(source: seq<Candle>)
    ensures Increasing(SortedStarts(source))
    ensures forall t :: t in SortedStarts(source) <==> t in ByStart(source)
  {
    StartsFacts(source);
    SortSliceSorts(StartsOf(source), ASCENDING);
    forall t ensures t in SortedStarts(source) <==> t in StartsOf(source) {
      SameElements(StartsOf(source), SortedStarts(source), t);
    }
  }

  // ---------- Buckets ----------

  /** The aligned interval a time falls into. */
  function BucketStart(t: int, interval: int): (b: int)
    requires t >= 0 && interval > 0
    ensures b % interval == 0 && 0 <= b <= t < b + interval
  {
    Aligned(t, interval);
    t - t % interval
  }

  lemma Aligned(t: int, interval: int)
    requires t >= 0 && interval > 0
    ensures (t - t % interval) % interval == 0
  {
    var q := t / interval;
    var b := t - t % interval;
    var d := b / interval - q;
    assert d * interval == b - b % interval - q * interval == -(b % interval);
    Multiples(d, interval);
  }

  lemma Multiples(d: int, interval: int)
    requires interval > 0
    ensures d >= 1 ==> d * interval >= interval
    ensures d <= -1 ==> d * interval <= -interval
    ensures d == 0 ==> d * interval == 0
  {
    if d >= 1 {
      assert (d - 1) * interval >= 0;
    } else if d <= -1 {
      assert (-d - 1) * interval >= 0;
    }
  }

  ghost predicate NotNegative(starts: seq<int>) {
    forall i | 0 <= i < |starts| :: starts[i] >= 0
  }

  /** The start times that fall into a bucket, oldest first. */
  ghost function Members(starts: seq<int>, interval: int, bucket: int): (members: seq<int>)
    requires NotNegative(starts) && interval > 0
    ensures forall t :: t in members <==> t in starts && BucketStart(t, interval) == bucket
  {
    if starts == [] then []
    else
      var front, last := Members(starts[..|starts| - 1], interval, bucket), starts[|starts| - 1];
      assert starts == starts[..|starts| - 1] + [last];
      if BucketStart(last, interval) == bucket then front + [last] else front
  }

  /** The buckets that have members, oldest first. */
  ghost function Buckets(starts: seq<int>, interval: int): seq<int>
    requires NotNegative(starts) && interval > 0
  {
    if starts == [] then []
    else
      var front, b := Buckets(starts[..|starts| - 1], interval), BucketStart(starts[|starts| - 1], interval);
      if front != [] && front[|front| - 1] == b then front else front + [b]
  }

  lemma BucketStartMonotone(t: int, u: int, interval: int)
    requires 0 <= t <= u && interval > 0
    ensures BucketStart(t, interval) <= BucketStart(u, interval)
  {
    var a, b := BucketStart(t, interval), BucketStart(u, interval);
    if a > b {
      NextMultiple(a, b, interval);
    }
  }

  lemma NextMultiple(a: int, b: int, interval: int)
    requires 0 <= b < a && interval > 0 && a % interval == 0 && b % interval == 0
    ensures a >= b + interval
  {
    var d := a / interval - b / interval;
    assert d * interval == a - b;
    Multiples(d, interval);
  }

  lemma {:induction false} NewestBucket(starts: seq<int>, interval: int)
    requires NotNegative(starts) && interval > 0 && starts != []
    ensures var buckets := Buckets(starts, interval);
            buckets != [] && buckets[|buckets| - 1] == BucketStart(starts[|starts| - 1], interval)
  {
  }

  lemma {:induction false} BucketsIncrease(starts: seq<int>, interval: int)
    requires NotNegative(starts) && interval > 0 && Increasing(starts)
    ensures Increasing(Buckets(starts, interval))
  {
    if |starts| > 1 {
      var front := starts[..|starts| - 1];
      BucketsIncrease(front, interval);
      NewestBucket(front, interval);
      BucketStartMonotone(front[|front| - 1], starts[|starts| - 1], interval);
    }
  }

  lemma {:induction false} BucketsHaveMembers(starts: seq<int>, interval: int, b: int)
    requires NotNegative(starts) && interval > 0
    ensures b in Buckets(starts, interval) <==> Members(starts, interval, b) != []
  {
    if starts != [] {
      var front := starts[..|starts| - 1];
      BucketsHaveMembers(front, interval, b);
      if front != [] {
        NewestBucket(front, interval);
      }
    }
  }

  // ---------- One bucket ----------

  ghost predicate Numeric(c: Candle) {
    IsDecimal(c.high) && IsDecimal(c.low) && IsDecimal(c.volume)
  }

  ghost predicate AllNumeric(times: seq<int>, byStart: map<int, Candle>) {
    forall i {:trigger times[i]} | 0 <= i < |times| :: times[i] in byStart && Numeric(byStart[times[i]])
  }

  ghost function Highs(times: seq<int>, byStart: map<int, Candle>): (texts: seq<string>)
    requires AllNumeric(times, byStart)
    ensures AllDecimals(texts)
  {
    seq(|times|, i requires 0 <= i < |times| => byStart[times[i]].high)
  }

  ghost function Lows(times: seq<int>, byStart: map<int, Candle>): (texts: seq<string>)
    requires AllNumeric(times, byStart)
    ensures AllDecimals(texts)
  {
    seq(|times|, i requires 0 <= i < |times| => byStart[times[i]].low)
  }

  ghost function Volumes(times: seq<int>, byStart: map<int, Candle>): (texts: seq<string>)
    requires AllNumeric(times, byStart)
    ensures AllDecimals(texts)
  {
    seq(|times|, i requires 0 <= i < |times| => byStart[times[i]].volume)
  }

  ghost predicate Beats(a: string, b: string, highest: bool)
    requires IsDecimal(a) && IsDecimal(b)
  {
    if highest then DecimalValue(a) > DecimalValue(b) else DecimalValue(a) < DecimalValue(b)
  }

  /** Where the running highest (or lowest) text stands after all of them. */
  ghost function Winner(texts: seq<string>, highest: bool): (k: nat)
    requires texts != [] && AllDecimals(texts)
    ensures k < |texts|
  {
    var n := |texts| - 1;
    if n == 0 then 0
    else
      var k := Winner(texts[..n], highest);
      if Beats(texts[n], texts[k], highest) then n else k
  }

  ghost function Total(texts: seq<string>): ScaledDecimal
    requires texts != [] && AllDecimals(texts)
  {
    var n := |texts| - 1;
    var last := ParseScaledDecimal(texts[n]).value;
    if n == 0 then last else AddScaledDecimals(Total(texts[..n]), last)
  }

  /** The larger candle, its volume still a number. */
  datatype Bucket = Bucket(candle: Candle, volume: ScaledDecimal)

  ghost function BucketOf(times: seq<int>, byStart: map<int, Candle>, start: int): Bucket
    requires times != [] && AllNumeric(times, byStart)
  {
    var highs, lows := Highs(times, byStart), Lows(times, byStart);
    Bucket(
      Candle(start, byStart[times[0]].open, highs[Winner(highs, true)], lows[Winner(lows, false)],
             byStart[times[|times| - 1]].close, ""),
      Total(Volumes(times, byStart)))
  }

  function Finished(b: Bucket): Candle {
    b.candle.(volume := ScaledString(b.volume))
  }

  // ---------- What a larger candle means ----------

  /** The text is the highest (or lowest) of all by exact value, the oldest of equal ones. */
  ghost predicate FirstBest(text: string, texts: seq<string>, highest: bool)
    requires AllDecimals(texts)
  {
    exists k :: 0 <= k < |texts| && texts[k] == text && Wins(k, texts, highest)
  }

  ghost predicate Wins(k: nat, texts: seq<string>, highest: bool)
    requires k < |texts| && AllDecimals(texts)
  {
    forall i {:trigger texts[i]} | 0 <= i < |texts| ::
      !Beats(texts[i], texts[k], highest) && (i < k ==> Beats(texts[k], texts[i], highest))
  }

  lemma {:induction false} WinnerWins(texts: seq<string>, highest: bool)
    requires texts != [] && AllDecimals(texts)
    ensures Wins(Winner(texts, highest), texts, highest)
  {
    var n := |texts| - 1;
    if n > 0 {
      var front := texts[..n];
      WinnerWins(front, highest);
      var k := Winner(front, highest);
      forall i {:trigger texts[i]} | 0 <= i < n
        ensures !Beats(texts[i], texts[k], highest) && (i < k ==> Beats(texts[k], texts[i], highest))
      {
        assert front[i] == texts[i];
      }
    }
  }

  lemma SumIsScaled(left: ScaledDecimal, text: string, sum: ScaledDecimal)
    requires IsDecimal(text) && sum == AddScaledDecimals(left, ParseScaledDecimal(text).value)
    ensures Value(sum) == Value(left) + DecimalValue(text)
    ensures sum.scale == Max(left.scale, |Cut(text).fraction|)
  {
    ParseKeepsValue(text);
    AddIsExact(left, ParseScaledDecimal(text).value);
  }

  lemma {:induction false} TotalIsSum(texts: seq<string>)
    requires texts != [] && AllDecimals(texts)
    ensures Value(Total(texts)) == SumOfValues(texts)
    ensures Total(texts).scale == LongestFraction(texts)
  {
    var n := |texts| - 1;
    if n == 0 {
      assert texts[..0] == [];
      ParseKeepsValue(texts[n]);
    } else {
      TotalIsSum(texts[..n]);
      SumIsScaled(Total(texts[..n]), texts[n], Total(texts));
    }
  }

  /** Open and close are the oldest and newest member's, high and low the numeric extremes, and
      the volume is the exact sum written with the longest fraction among the members. */
  ghost predicate Summarises(c: Candle, times: seq<int>, byStart: map<int, Candle>)
    requires times != [] && AllNumeric(times, byStart)
  {
    && c.open == byStart[times[0]].open && c.close == byStart[times[|times| - 1]].close
    && FirstBest(c.high, Highs(times, byStart), true) && FirstBest(c.low, Lows(times, byStart), false)
    && IsDecimal(c.volume) && DecimalValue(c.volume) == SumOfValues(Volumes(times, byStart))
    && |Cut(c.volume).fraction| == LongestFraction(Volumes(times, byStart))
  }

  lemma BucketSummarises(times: seq<int>, byStart: map<int, Candle>, start: int)
    requires times != [] && AllNumeric(times, byStart)
    ensures Summarises(Finished(BucketOf(times, byStart, start)), times, byStart)
  {
    WinnerWins(Highs(times, byStart), true);
    WinnerWins(Lows(times, byStart), false);
    TotalIsSum(Volumes(times, byStart));
    StringDenotesValue(Total(Volumes(times, byStart)));
  }

  // ---------- The result ----------

  /** No negative time, and every candle that counts carries decimal texts. */
  ghost predicate Usable(source: seq<Candle>) {
    NotNegative(SortedStarts(source)) && AllNumeric(SortedStarts(source), ByStart(source))
  }

  lemma MembersNumeric(starts: seq<int>, interval: int, bucket: int, byStart: map<int, Candle>)
    requires NotNegative(starts) && interval > 0 && AllNumeric(starts, byStart)
    ensures AllNumeric(Members(starts, interval, bucket), byStart)
  {
    var members := Members(starts, interval, bucket);
    forall i {:trigger members[i]} | 0 <= i < |members|
      ensures members[i] in byStart && Numeric(byStart[members[i]])
    {
      assert members[i] in members;
      var j :| 0 <= j < |starts| && starts[j] == members[i];
    }
  }

  /** The larger candle of a bucket; only buckets with members are ever asked for. */
  ghost function CandleAt(starts: seq<int>, byStart: map<int, Candle>, interval: int, bucket: int): (c: Candle)
    requires NotNegative(starts) && AllNumeric(starts, byStart) && interval > 0
    ensures c.startTime == bucket
  {
    MembersNumeric(starts, interval, bucket, byStart);
    var times := Members(starts, interval, bucket);
    if times == [] then Candle(bucket, "", "", "", "", "")
    else Finished(BucketOf(times, byStart, bucket))
  }

  ghost function CandlesBy(starts: seq<int>, byStart: map<int, Candle>, interval: int): int -> Candle
    requires NotNegative(starts) && AllNumeric(starts, byStart) && interval > 0
  {
    bucket => CandleAt(starts, byStart, interval, bucket)
  }

  /** The images of the last `count` elements, last first. */
  ghost function Newest(f: int -> Candle, buckets: seq<int>, count: nat): (r: seq<Candle>)
    requires count <= |buckets|
    ensures |r| == count
    decreases count
  {
    if count == 0 then []
    else [f(buckets[|buckets| - 1])] + Newest(f, buckets[..|buckets| - 1], count - 1)
  }

  lemma {:induction false} NewestAt(f: int -> Candle, buckets: seq<int>, count: nat, i: nat)
    requires i < count <= |buckets|
    ensures Newest(f, buckets, count)[i] == f(buckets[|buckets| - 1 - i])
    decreases count
  {
    if i > 0 {
      NewestAt(f, buckets[..|buckets| - 1], count - 1, i - 1);
    }
  }

  lemma NewestTimes(f: int -> Candle, buckets: seq<int>, count: nat)
    requires count <= |buckets| && forall b :: f(b).startTime == b
    ensures forall i | 0 <= i < count ::
              Newest(f, buckets, count)[i].startTime == buckets[|buckets| - 1 - i]
  {
    forall i | 0 <= i < count
      ensures Newest(f, buckets, count)[i].startTime == buckets[|buckets| - 1 - i]
    {
      NewestAt(f, buckets, count, i);
    }
  }

  /** The newest `limit` larger candles, newest first; `interval` in milliseconds. */
  ghost function Aggregated(source: seq<Candle>, interval: int, limit: nat): seq<Candle>
    requires Usable(source) && interval > 0
  {
    var starts := SortedStarts(source);
    var buckets := Buckets(starts, interval);
    Newest(CandlesBy(starts, ByStart(source), interval), buckets, Min(limit, |buckets|))
  }

  /** The candle is aligned and summarises exactly the candles of its interval. */
  ghost predicate IsAggregate(c: Candle, starts: seq<int>, byStart: map<int, Candle>, interval: int)
    requires interval > 0
  {
    && NotNegative(starts) && c.startTime % interval == 0
    && var times := Members(starts, interval, c.startTime);
       && times != [] && Increasing(times) && AllNumeric(times, byStart)
       && (forall t :: t in times <==> t in starts && c.startTime <= t < c.startTime + interval)
       && Summarises(c, times, byStart)
  }

  lemma CandleAtAggregates(starts: seq<int>, byStart: map<int, Candle>, interval: int, bucket: int)
    requires NotNegative(starts) && Increasing(starts) && AllNumeric(starts, byStart) && interval > 0
    requires bucket in Buckets(starts, interval)
    ensures IsAggregate(CandleAt(starts, byStart, interval, bucket), starts, byStart, interval)
  {
    BucketsHaveMembers(starts, interval, bucket);
    MembersNumeric(starts, interval, bucket, byStart);
    BucketSummarises(Members(starts, interval, bucket), byStart, bucket);
    MembersIncrease(starts, interval, bucket);
    MembersAreInside(starts, interval, bucket);
  }

  /** Every result is an aggregate of the candles that count. */
  lemma ResultsSummarise(source: seq<Candle>, interval: int, limit: nat, i: nat)
    requires Usable(source) && interval > 0 && i < |Aggregated(source, interval, limit)|
    ensures IsAggregate(Aggregated(source, interval, limit)[i], SortedStarts(source), ByStart(source), interval)
  {
    SortedStartsFacts(source);
    var buckets := Buckets(SortedStarts(source), interval);
    NewestAt(CandlesBy(SortedStarts(source), ByStart(source), interval), buckets, Min(limit, |buckets|), i);
    CandleAtAggregates(SortedStarts(source), ByStart(source), interval, buckets[|buckets| - 1 - i]);
  }

  lemma {:induction false} MembersIncrease(starts: seq<int>, interval: int, bucket: int)
    requires NotNegative(starts) && interval > 0 && Increasing(starts)
    ensures Increasing(Members(starts, interval, bucket))
  {
    if starts != [] {
      var front, last := starts[..|starts| - 1], starts[|starts| - 1];
      MembersIncrease(front, interval, bucket);
      var members := Members(front, interval, bucket);
      forall i | 0 <= i < |members| ensures members[i] < last {
        assert members[i] in members && members[i] in front;
        var k :| 0 <= k < |front| && front[k] == members[i];
        assert starts[k] < starts[|starts| - 1];
      }
    }
  }

  lemma MembersAreInside(starts: seq<int>, interval: int, bucket: int)
    requires NotNegative(starts) && interval > 0 && Members(starts, interval, bucket) != []
    ensures bucket % interval == 0
    ensures forall t :: t in Members(starts, interval, bucket)
                    <==> t in starts && bucket <= t < bucket + interval
  {
    var members := Members(starts, interval, bucket);
    assert members[0] in members;
    assert BucketStart(members[0], interval) == bucket;
    forall t | t in starts && bucket <= t < bucket + interval ensures t in members {
      InsideIsBucket(t, bucket, interval);
    }
  }

  lemma InsideIsBucket(t: int, bucket: int, interval: int)
    requires interval > 0 && 0 <= bucket <= t < bucket + interval && bucket % interval == 0
    ensures BucketStart(t, interval) == bucket
  {
    var d := BucketStart(t, interval) / interval - bucket / interval;
    assert d * interval == BucketStart(t, interval) - bucket;
    Multiples(d, interval);
  }

  lemma CandlesByTimes(starts: seq<int>, byStart: map<int, Candle>, interval: int)
    requires NotNegative(starts) && AllNumeric(starts, byStart) && interval > 0
    ensures forall b :: CandlesBy(starts, byStart, interval)(b).startTime == b
  {
  }

  /** The result lists the candles of the newest buckets; how they are made does not matter for
      their order. */
  lemma ResultIsNewest(source: seq<Candle>, interval: int, limit: nat) returns (f: int -> Candle)
    requires Usable(source) && interval > 0
    ensures var buckets := Buckets(SortedStarts(source), interval);
            Aggregated(source, interval, limit) == Newest(f, buckets, Min(limit, |buckets|))
    ensures forall b :: f(b).startTime == b
  {
    CandlesByTimes(SortedStarts(source), ByStart(source), interval);
    f := CandlesBy(SortedStarts(source), ByStart(source), interval);
  }

  lemma ResultTimes(source: seq<Candle>, interval: int, limit: nat, buckets: seq<int>, r: seq<Candle>)
    requires Usable(source) && interval > 0
    requires buckets == Buckets(SortedStarts(source), interval) && r == Aggregated(source, interval, limit)
    ensures |r| == Min(limit, |buckets|)
    ensures forall i | 0 <= i < |r| :: r[i].startTime == buckets[|buckets| - 1 - i]
  {
    var f := ResultIsNewest(source, interval, limit);
    NewestTimes(f, buckets, Min(limit, |buckets|));
  }

  lemma BucketsSorted(source: seq<Candle>, interval: int, buckets: seq<int>)
    requires Usable(source) && interval > 0 && buckets == Buckets(SortedStarts(source), interval)
    ensures Increasing(buckets)
  {
    SortedStartsFacts(source);
    BucketsIncrease(SortedStarts(source), interval);
  }

  lemma ResultsNewestFirst(source: seq<Candle>, interval: int, limit: nat, r: seq<Candle>)
    requires Usable(source) && interval > 0 && r == Aggregated(source, interval, limit)
    ensures |r| <= limit
    ensures forall i, j | 0 <= i < j < |r| :: r[i].startTime > r[j].startTime
  {
    var buckets := Buckets(SortedStarts(source), interval);
    ResultTimes(source, interval, limit, buckets, r);
    BucketsSorted(source, interval, buckets);
  }

  /** A candle that counts belongs to one of the results, unless there are as many results as
      asked for and all of them begin after it. */
  ghost predicate Covered(r: seq<Candle>, interval: int, limit: nat, t: int) {
    || (exists i :: 0 <= i < |r| && r[i].startTime <= t < r[i].startTime + interval)
    || (|r| == limit && forall i | 0 <= i < |r| :: r[i].startTime > t)
  }

  lemma ResultsAreNewest(source: seq<Candle>, interval: int, limit: nat, t: int, r: seq<Candle>)
    requires Usable(source) && interval > 0 && t in ByStart(source) && r == Aggregated(source, interval, limit)
    ensures Covered(r, interval, limit, t)
  {
    var starts := SortedStarts(source);
    var buckets := Buckets(starts, interval);
    ResultTimes(source, interval, limit, buckets, r);
    BucketsSorted(source, interval, buckets);
    SortedStartsFacts(source);
    TimesCovered(starts, buckets, r, interval, limit, t);
  }

  lemma TimesCovered(
    starts: seq<int>, buckets: seq<int>, r: seq<Candle>, interval: int, limit: nat, t: int)
    requires NotNegative(starts) && interval > 0 && t in starts
    requires buckets == Buckets(starts, interval) && Increasing(buckets) && |r| == Min(limit, |buckets|)
    requires forall i | 0 <= i < |r| :: r[i].startTime == buckets[|buckets| - 1 - i]
    ensures Covered(r, interval, limit, t)
  {
    var b := BucketStart(t, interval);
    assert t in Members(starts, interval, b);
    BucketsHaveMembers(starts, interval, b);
    var k :| 0 <= k < |buckets| && buckets[k] == b;
    if |buckets| - 1 - k < |r| {
      assert r[|buckets| - 1 - k].startTime == b;
    } else {
      forall j | 0 <= j < |r| ensures r[j].startTime > t {
        LaterBucket(starts, interval, buckets[|buckets| - 1 - j], t);
      }
    }
  }

  lemma LaterBucket(starts: seq<int>, interval: int, c: int, t: int)
    requires NotNegative(starts) && interval > 0 && t >= 0
    requires c in Buckets(starts, interval) && c > BucketStart(t, interval)
    ensures c > t
  {
    BucketsHaveMembers(starts, interval, c);
    MembersAreInside(starts, interval, c);
    NextMultiple(c, BucketStart(t, interval), interval);
  }

  // ---------- Order and duplicates of the input ----------

  predicate Alike(c: Candle, d: Candle) {
    c.startTime == d.startTime ==> c == d
  }

  /** Candles with the same start time are the same candle. */
  ghost predicate Consistent(source: seq<Candle>) {
    forall c, d {:trigger Alike(c, d)} | c in source && d in source :: Alike(c, d)
  }

  lemma SameTimes(one: seq<Candle>, two: seq<Candle>)
    requires ByStart(one).Keys == ByStart(two).Keys
    ensures SortedStarts(one) == SortedStarts(two)
  {
    SortedStartsFacts(one);
    SortedStartsFacts(two);
    SortedIsUnique(SortedStarts(one), SortedStarts(two), ASCENDING);
  }

  /** A candle that counts in one source counts in the other. */
  lemma CountsToo(one: seq<Candle>, two: seq<Candle>, t: int)
    requires Consistent(two) && (forall c :: c in one ==> c in two) && t in ByStart(one)
    ensures t in ByStart(two) && ByStart(one)[t] == ByStart(two)[t]
  {
    ByStartIsFirst(one, t);
    ByStartIsFirst(two, t);
    var i: nat :| FirstWith(one, t, i) && ByStart(one)[t] == one[i];
    assert one[i] in two;
    var j: nat :| FirstWith(two, t, j) && ByStart(two)[t] == two[j];
    assert two[j] in two && Alike(one[i], two[j]);
  }

  /** The same candles in any order, repeated or not, give the same result: in particular every
      permutation of candles with distinct start times. */
  lemma OrderDoesNotMatter(one: seq<Candle>, two: seq<Candle>, interval: int, limit: nat)
    requires Consistent(one) && Consistent(two) && (forall c :: c in one <==> c in two)
    requires Usable(one) && interval > 0
    ensures Usable(two) && Aggregated(one, interval, limit) == Aggregated(two, interval, limit)
  {
    forall t ensures t in ByStart(one) <==> t in ByStart(two) {
      if t in ByStart(one) { CountsToo(one, two, t); }
      if t in ByStart(two) { CountsToo(two, one, t); }
    }
    forall t | t in ByStart(one) ensures ByStart(one)[t] == ByStart(two)[t] {
      CountsToo(one, two, t);
    }
    assert ByStart(one) == ByStart(two);
    SameTimes(one, two);
  }
}
