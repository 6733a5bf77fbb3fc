/** `AggregateCandles` (unified/candles.go), loop by loop: keep the first candle of each start
    time, fold them into buckets in time order, list the newest buckets. */
module CandleAggregation {
  import opened Results
  import opened Integers
  import opened Decimals
  import opened Sorting
  import opened Candles

  // ---------- First loop: which candles count ----------

  lemma ByStartTimes(source: seq<Candle>)
    requires forall i | 0 <= i < |source| :: source[i].startTime >= 0
    ensures NotNegative(SortedStarts(source))
  {
    var starts := SortedStarts(source);
    SortedStartsFacts(source);
    forall i | 0 <= i < |starts| ensures starts[i] >= 0 {
      assert starts[i] in ByStart(source);
      ByStartIsFirst(source, starts[i]);
    }
  }

  lemma NegativeIsUnusable(source: seq<Candle>, i: nat)
    requires i < |source| && source[i].startTime < 0
    ensures !Usable(source)
  {
    SortedStartsFacts(source);
    ByStartIsFirst(source, source[i].startTime);
    var starts := SortedStarts(source);
    var k :| 0 <= k < |starts| && starts[k] == source[i].startTime;
  }

  method KeepFirst(source: seq<Candle>) returns (ok: bool, byStart: map<int, Candle>, starts: seq<int>)
    ensures ok ==> byStart == ByStart(source) && starts == StartsOf(source)
    ensures ok ==> NotNegative(SortedStarts(source))
    ensures ok <==> forall i | 0 <= i < |source| :: source[i].startTime >= 0
    ensures !ok ==> !Usable(source)
  {
    byStart, starts := map[], [];
    for i := 0 to |source|
      invariant byStart == ByStart(source[..i]) && starts == StartsOf(source[..i])
      invariant forall k | 0 <= k < i :: source[k].startTime >= 0
    {
      var candle := source[i];
      if candle.startTime < 0 {
        NegativeIsUnusable(source, i);
        return false, byStart, starts;
      }
      assert source[..i + 1][..i] == source[..i];
      if candle.startTime !in byStart {
        byStart := byStart[candle.startTime := candle];
        starts := starts + [candle.startTime];
      }
    }
    assert source[..|source|] == source;
    ByStartTimes(source);
    return true, byStart, starts;
  }

  // ---------- Second loop: buckets ----------

  /** What a further member does to a bucket. */
  ghost function Merged(b: Bucket, item: Candle): Bucket
    requires IsDecimal(b.candle.high) && IsDecimal(b.candle.low) && Numeric(item)
  {
    Bucket(
      b.candle.(high := if Beats(item.high, b.candle.high, true) then item.high else b.candle.high,
                low := if Beats(item.low, b.candle.low, false) then item.low else b.candle.low,
                close := item.close),
      AddScaledDecimals(b.volume, ParseScaledDecimal(item.volume).value))
  }

  method Merge(b: Bucket, item: Candle, volume: ScaledDecimal) returns (r: Option<Bucket>)
    requires IsDecimal(b.candle.high) && IsDecimal(b.candle.low)
    requires ParseScaledDecimal(item.volume) == Ok(volume)
    ensures r.Some? <==> Numeric(item)
    ensures r.Some? ==> r.value == Merged(b, item)
  {
    var current := b;
    CompareIsExact(item.high, b.candle.high);
    var comparison := CompareDecimals(item.high, current.candle.high);
    if comparison.Err? {
      return None;
    }
    if comparison.value > 0 {
      current := current.(candle := current.candle.(high := item.high));
    }
    CompareIsExact(item.low, b.candle.low);
    comparison := CompareDecimals(item.low, current.candle.low);
    if comparison.Err? {
      return None;
    }
    if comparison.value < 0 {
      current := current.(candle := current.candle.(low := item.low));
    }
    current := current.(candle := current.candle.(close := item.close));
    return Some(current.(volume := AddScaledDecimals(current.volume, volume)));
  }

  lemma FirstMember(byStart: map<int, Candle>, t: int, start: int)
    requires t in byStart && Numeric(byStart[t])
    ensures AllNumeric([t], byStart)
    ensures var c := byStart[t];
            BucketOf([t], byStart, start)
              == Bucket(Candle(start, c.open, c.high, c.low, c.close, ""), ParseScaledDecimal(c.volume).value)
  {
  }

  lemma WinnerSnoc(texts: seq<string>, text: string, highest: bool)
    requires texts != [] && AllDecimals(texts) && IsDecimal(text)
    ensures var before := texts[Winner(texts, highest)];
            (texts + [text])[Winner(texts + [text], highest)]
              == (if Beats(text, before, highest) then text else before)
  {
    assert (texts + [text])[..|texts|] == texts;
  }

  lemma NextMember(times: seq<int>, byStart: map<int, Candle>, t: int, start: int)
    requires times != [] && AllNumeric(times, byStart) && t in byStart && Numeric(byStart[t])
    ensures AllNumeric(times + [t], byStart)
    ensures BucketOf(times + [t], byStart, start) == Merged(BucketOf(times, byStart, start), byStart[t])
  {
    var longer, c := times + [t], byStart[t];
    ColumnsSnoc(times, byStart, t);
    WinnerSnoc(Highs(times, byStart), c.high, true);
    WinnerSnoc(Lows(times, byStart), c.low, false);
    TotalSnoc(Volumes(times, byStart), c.volume);
  }

  lemma TotalSnoc(texts: seq<string>, text: string)
    requires texts != [] && AllDecimals(texts) && IsDecimal(text)
    ensures AllDecimals(texts + [text])
    ensures Total(texts + [text]) == AddScaledDecimals(Total(texts), ParseScaledDecimal(text).value)
  {
    assert (texts + [text])[..|texts|] == texts;
  }

  lemma ColumnsSnoc(times: seq<int>, byStart: map<int, Candle>, t: int)
    requires AllNumeric(times, byStart) && t in byStart && Numeric(byStart[t])
    ensures AllNumeric(times + [t], byStart)
    ensures Highs(times + [t], byStart) == Highs(times, byStart) + [byStart[t].high]
    ensures Lows(times + [t], byStart) == Lows(times, byStart) + [byStart[t].low]
    ensures Volumes(times + [t], byStart) == Volumes(times, byStart) + [byStart[t].volume]
  {
  }

  ghost predicate BucketHolds(
    buckets: map<int, Bucket>, starts: seq<int>, byStart: map<int, Candle>, interval: int, b: int)
    requires NotNegative(starts) && interval > 0 && AllNumeric(starts, byStart)
  {
    MembersNumeric(starts, interval, b, byStart);
    var times := Members(starts, interval, b);
    && (b in buckets <==> times != [])
    && (b in buckets ==> buckets[b] == BucketOf(times, byStart, b))
  }

  /** The map holds exactly the buckets of the start times seen so far. */
  ghost predicate Holds(buckets: map<int, Bucket>, starts: seq<int>, byStart: map<int, Candle>, interval: int)
    requires NotNegative(starts) && interval > 0 && AllNumeric(starts, byStart)
  {
    forall b {:trigger BucketHolds(buckets, starts, byStart, interval, b)} ::
      BucketHolds(buckets, starts, byStart, interval, b)
  }

  lemma OtherBucketsStay(
    buckets: map<int, Bucket>, starts: seq<int>, byStart: map<int, Candle>, interval: int, t: int,
    updated: Bucket, b: int)
    requires NotNegative(starts + [t]) && interval > 0
    requires AllNumeric(starts, byStart) && AllNumeric(starts + [t], byStart)
    requires NotNegative(starts) && BucketHolds(buckets, starts, byStart, interval, b)
    requires t >= 0 && b != BucketStart(t, interval)
    ensures BucketHolds(buckets[BucketStart(t, interval) := updated], starts + [t], byStart, interval, b)
  {
    assert (starts + [t])[..|starts|] == starts;
  }

  lemma Prefixes(starts: seq<int>, byStart: map<int, Candle>, n: nat)
    requires n < |starts| && NotNegative(starts) && AllNumeric(starts[..n], byStart)
    ensures NotNegative(starts[..n]) && NotNegative(starts[..n + 1]) && starts[n] >= 0
    ensures starts[..n + 1] == starts[..n] + [starts[n]]
    ensures starts[n] in byStart && Numeric(byStart[starts[n]]) ==> AllNumeric(starts[..n + 1], byStart)
  {
  }

  lemma NextStarts(starts: seq<int>, byStart: map<int, Candle>, t: int)
    requires NotNegative(starts) && AllNumeric(starts, byStart)
    requires t >= 0 && t in byStart && Numeric(byStart[t])
    ensures NotNegative(starts + [t]) && AllNumeric(starts + [t], byStart)
  {
  }

  lemma CurrentMembers(
    buckets: map<int, Bucket>, starts: seq<int>, byStart: map<int, Candle>, interval: int, b: int)
    returns (times: seq<int>)
    requires NotNegative(starts) && interval > 0 && AllNumeric(starts, byStart)
    requires Holds(buckets, starts, byStart, interval)
    ensures times == Members(starts, interval, b) && AllNumeric(times, byStart)
    ensures b in buckets <==> times != []
    ensures b in buckets ==> buckets[b] == BucketOf(times, byStart, b)
  {
    times := Members(starts, interval, b);
    MembersNumeric(starts, interval, b, byStart);
    assert BucketHolds(buckets, starts, byStart, interval, b);
  }

  method AddToBucket(
    buckets: map<int, Bucket>, ghost starts: seq<int>, byStart: map<int, Candle>, interval: int, t: int)
    returns (ok: bool, updated: map<int, Bucket>)
    requires NotNegative(starts) && interval > 0 && AllNumeric(starts, byStart)
    requires Holds(buckets, starts, byStart, interval) && t in byStart && t >= 0
    ensures ok <==> Numeric(byStart[t])
    ensures ok ==> NotNegative(starts + [t]) && AllNumeric(starts + [t], byStart)
                   && Holds(updated, starts + [t], byStart, interval)
  {
    var item := byStart[t];
    var bucketStart := BucketStart(t, interval);
    var volume := ParseScaledDecimal(item.volume);
    if volume.Err? {
      return false, buckets;
    }
    ghost var times := CurrentMembers(buckets, starts, byStart, interval, bucketStart);
    var bucket := Put(if bucketStart in buckets then Some(buckets[bucketStart]) else None,
                      times, byStart, t, bucketStart, volume.value);
    if bucket.None? {
      return false, buckets;
    }
    updated := buckets[bucketStart := bucket.value];
    NextStarts(starts, byStart, t);
    BucketAdded(buckets, starts, byStart, interval, t, bucket.value);
    return true, updated;
  }

  /** The bucket with one more candle: a new one, or the current one merged. */
  method Put(
    current: Option<Bucket>, ghost times: seq<int>, byStart: map<int, Candle>, t: int,
    bucketStart: int, volume: ScaledDecimal)
    returns (r: Option<Bucket>)
    requires AllNumeric(times, byStart) && t in byStart && ParseScaledDecimal(byStart[t].volume) == Ok(volume)
    requires current.None? <==> times == []
    requires current.Some? ==> current.value == BucketOf(times, byStart, bucketStart)
    ensures r.Some? <==> Numeric(byStart[t])
    ensures r.Some? ==> AllNumeric(times + [t], byStart)
                        && r.value == BucketOf(times + [t], byStart, bucketStart)
  {
    var item := byStart[t];
    if current.None? {
      CompareIsExact(item.high, item.low);
      var comparison := CompareDecimals(item.high, item.low);
      if comparison.Err? {
        return None;
      }
      FirstMember(byStart, t, bucketStart);
      assert times + [t] == [t];
      return Some(Bucket(Candle(bucketStart, item.open, item.high, item.low, item.close, ""), volume));
    }
    r := Merge(current.value, item, volume);
    if r.Some? {
      NextMember(times, byStart, t, bucketStart);
    }
  }

  lemma BucketAdded(
    buckets: map<int, Bucket>, starts: seq<int>, byStart: map<int, Candle>, interval: int, t: int, bucket: Bucket)
    requires NotNegative(starts) && interval > 0 && AllNumeric(starts, byStart) && t >= 0
    requires NotNegative(starts + [t]) && AllNumeric(starts + [t], byStart)
    requires Holds(buckets, starts, byStart, interval)
    requires var times := Members(starts, interval, BucketStart(t, interval)) + [t];
             AllNumeric(times, byStart) && bucket == BucketOf(times, byStart, BucketStart(t, interval))
    ensures Holds(buckets[BucketStart(t, interval) := bucket], starts + [t], byStart, interval)
  {
    var at := BucketStart(t, interval);
    var after, longer := buckets[at := bucket], starts + [t];
    forall b ensures BucketHolds(after, longer, byStart, interval, b) {
      if b == at {
        assert (starts + [t])[..|starts|] == starts;
      } else {
        assert BucketHolds(buckets, starts, byStart, interval, b);
        OtherBucketsStay(buckets, starts, byStart, interval, t, bucket, b);
      }
    }
  }

  method FoldBuckets(starts: seq<int>, byStart: map<int, Candle>, interval: int)
    returns (ok: bool, buckets: map<int, Bucket>)
    requires NotNegative(starts) && interval > 0 && forall i | 0 <= i < |starts| :: starts[i] in byStart
    ensures ok <==> AllNumeric(starts, byStart)
    ensures ok ==> Holds(buckets, starts, byStart, interval)
  {
    buckets := map[];
    for i := 0 to |starts|
      invariant NotNegative(starts[..i]) && AllNumeric(starts[..i], byStart)
      invariant Holds(buckets, starts[..i], byStart, interval)
    {
      Prefixes(starts, byStart, i);
      var added, updated := AddToBucket(buckets, starts[..i], byStart, interval, starts[i]);
      if !added {
        return false, buckets;
      }
      buckets := updated;
    }
    assert starts[..|starts|] == starts;
    return true, buckets;
  }

  // ---------- Last loops: the newest buckets ----------

  /** Go ranges over the map in no particular order. */
  method CollectKeys(buckets: map<int, Bucket>) returns (keys: seq<int>)
    ensures SetOf(keys) == buckets.Keys
    ensures forall i, j | 0 <= i < j < |keys| :: keys[i] != keys[j]
  {
    keys := [];
    var pending := buckets.Keys;
    while pending != {}
      invariant pending <= buckets.Keys && SetOf(keys) == buckets.Keys - pending
      invariant forall i, j | 0 <= i < j < |keys| :: keys[i] != keys[j]
    {
      var key := PickAny(pending);
      assert key !in SetOf(keys);
      SetOfSnoc(keys, key);
      keys := keys + [key];
      pending := pending - {key};
    }
  }

  /** Sorting the keys from the newest gives the buckets backwards, whatever order they came in. */
  lemma SortedKeysAreBuckets(keys: seq<int>, buckets: seq<int>)
    requires forall i, j | 0 <= i < j < |keys| :: keys[i] != keys[j]
    requires Increasing(buckets) && SetOf(keys) == SetOf(buckets)
    ensures SortSlice(keys, DESCENDING) == Backwards(buckets)
  {
    SortSliceSorts(keys, DESCENDING);
    SetOfSorted(keys, DESCENDING);
    SetOfBackwards(buckets);
    assert SortedBy(Backwards(buckets), DESCENDING);
    OneArrangement(SortSlice(keys, DESCENDING), Backwards(buckets), DESCENDING);
  }

  lemma {:induction false} IsNewest(f: int -> Candle, buckets: seq<int>, count: nat, r: seq<Candle>)
    requires count <= |buckets| && |r| == count
    requires forall i | 0 <= i < count :: r[i] == f(buckets[|buckets| - 1 - i])
    ensures r == Newest(f, buckets, count)
  {
    forall i | 0 <= i < count ensures r[i] == Newest(f, buckets, count)[i] {
      NewestAt(f, buckets, count, i);
    }
  }

  /** The map shows every bucket under its start time, as `f` makes it. */
  ghost predicate Shows(buckets: map<int, Bucket>, f: int -> Candle) {
    forall b | b in buckets :: Finished(buckets[b]) == f(b)
  }

  lemma HeldBuckets(buckets: map<int, Bucket>, starts: seq<int>, byStart: map<int, Candle>, interval: int)
    requires NotNegative(starts) && Increasing(starts) && interval > 0 && AllNumeric(starts, byStart)
    requires Holds(buckets, starts, byStart, interval)
    ensures Increasing(Buckets(starts, interval)) && SetOf(Buckets(starts, interval)) == buckets.Keys
    ensures Shows(buckets, CandlesBy(starts, byStart, interval))
  {
    BucketsIncrease(starts, interval);
    forall b ensures b in SetOf(Buckets(starts, interval)) <==> b in buckets.Keys {
      assert BucketHolds(buckets, starts, byStart, interval, b);
      BucketsHaveMembers(starts, interval, b);
    }
    forall b | b in buckets ensures Finished(buckets[b]) == CandlesBy(starts, byStart, interval)(b) {
      assert BucketHolds(buckets, starts, byStart, interval, b);
    }
  }

  /** The newest buckets, whatever order the map gives its keys in. */
  method ListNewest(buckets: map<int, Bucket>, ghost all: seq<int>, ghost f: int -> Candle, limit: nat)
    returns (result: seq<Candle>)
    requires Increasing(all) && SetOf(all) == buckets.Keys && Shows(buckets, f)
    ensures result == Newest(f, all, Min(limit, |all|))
  {
    var keys := CollectKeys(buckets);
    SortedKeysAreBuckets(keys, all);
    var bucketStarts := SortSlice(keys, DESCENDING);
    if |bucketStarts| > limit {
      bucketStarts := bucketStarts[..limit];
    }
    assert bucketStarts == Backwards(all)[..Min(limit, |all|)];
    KeysOfAll(all, buckets.Keys, bucketStarts);
    result := FinishAll(buckets, bucketStarts, f);
    IsNewest(f, all, Min(limit, |all|), result);
  }

  lemma KeysOfAll(all: seq<int>, keys: set<int>, some: seq<int>)
    requires SetOf(all) == keys && |some| <= |all| && some == Backwards(all)[..|some|]
    ensures forall i | 0 <= i < |some| :: some[i] in keys && some[i] == all[|all| - 1 - i]
  {
    forall i | 0 <= i < |some| ensures some[i] in keys && some[i] == all[|all| - 1 - i] {
      assert all[|all| - 1 - i] in SetOf(all);
    }
  }

  lemma ShownAt(buckets: map<int, Bucket>, f: int -> Candle, b: int)
    requires Shows(buckets, f) && b in buckets
    ensures Finished(buckets[b]) == f(b)
  {
  }

  method FinishAll(buckets: map<int, Bucket>, bucketStarts: seq<int>, ghost f: int -> Candle)
    returns (result: seq<Candle>)
    requires Shows(buckets, f) && forall i | 0 <= i < |bucketStarts| :: bucketStarts[i] in buckets.Keys
    ensures |result| == |bucketStarts|
    ensures forall i | 0 <= i < |result| :: result[i] == f(bucketStarts[i])
  {
    result := [];
    for i := 0 to |bucketStarts|
      invariant |result| == i && forall k | 0 <= k < i :: result[k] == f(bucketStarts[k])
    {
      ShownAt(buckets, f, bucketStarts[i]);
      result := result + [Finished(buckets[bucketStarts[i]])];
    }
  }

  /** `interval` is a duration in nanoseconds. An error exactly for an interval that is not a
      positive number of milliseconds, a limit below one, a negative time, or a counted candle
      whose high, low or volume is not a decimal; otherwise the newest larger candles. */
  method AggregateCandles(source: seq<Candle>, interval: int, limit: int)
    returns (r: Result<seq<Candle>, AggregateError>)
    ensures r.Ok? <==> interval > 0 && interval % MILLISECOND == 0 && limit >= 1 && Usable(source)
    ensures r.Ok? ==> r.value == Aggregated(source, interval / MILLISECOND, limit)
  {
    if interval <= 0 || interval % MILLISECOND != 0 {
      return Err(InvalidInterval);
    }
    if limit < 1 {
      return Err(InvalidLimit);
    }
    var ok, byStart, starts := KeepFirst(source);
    if !ok {
      return Err(NegativeTimestamp);
    }
    starts := SortSlice(starts, ASCENDING);
    SortedStartsFacts(source);
    assert forall i | 0 <= i < |starts| :: starts[i] in byStart;
    var intervalMillis := interval / MILLISECOND;
    var numeric, buckets := FoldBuckets(starts, byStart, intervalMillis);
    if !numeric {
      return Err(InvalidNumber);
    }
    HeldBuckets(buckets, starts, byStart, intervalMillis);
    var result := ListNewest(
      buckets, Buckets(starts, intervalMillis), CandlesBy(starts, byStart, intervalMillis), limit);
    return Ok(result);
  }
}
