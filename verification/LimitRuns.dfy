/** What the limiter guarantees: waits are exact, and over every run no window ever holds more
    acquired units than the rule allows. */
module LimitRuns {
  import opened Integers
  import opened Limits

  // ---------- Invariant ----------

  ghost predicate BucketOk(b: Bucket, clock: int) {
    && Sorted(b.events) && PositiveUnits(b.events) && NotAfter(b.events, clock)
    && b.used == Sum(b.events)
    && b.blockedUntil >= ZERO
  }

  ghost predicate RulesOk(s: Backend) {
    forall k | k in s.rules :: s.rules[k].key == k && ValidRule(s.rules[k])
  }

  /** Every bucket counts exactly its retained events, in time order. */
  ghost predicate BackendOk(s: Backend, clock: int) {
    && clock >= ZERO && RulesOk(s)
    && forall k {:trigger BucketOk(Stored(s, k), clock)} :: BucketOk(Stored(s, k), clock)
  }

  // ---------- Sums ----------

  lemma {:induction false} SumTail(events: seq<UsageEvent>, k: nat)
    requires k <= |events| && PositiveUnits(events)
    ensures PositiveUnits(events[k..])
    ensures 0 <= Sum(events[k..]) <= Sum(events)
  {
    if k > 0 {
      SumTail(events[1..], k - 1);
      assert events[1..][k - 1..] == events[k..];
    } else if events != [] {
      SumTail(events[1..], 0);
      assert events[1..][0..] == events[1..];
    }
    assert events[0..] == events;
  }

  lemma {:induction false} SumSnoc(events: seq<UsageEvent>, e: UsageEvent, cutoff: int)
    ensures Sum(events + [e]) == Sum(events) + e.units
    ensures SumAfter(events + [e], cutoff) == SumAfter(events, cutoff) + (if e.at > cutoff then e.units else 0)
  {
    if events != [] {
      SumSnoc(events[1..], e, cutoff);
      assert (events + [e])[1..] == events[1..] + [e];
    }
  }

  lemma {:induction false} SumAfterBounds(events: seq<UsageEvent>, cutoff: int)
    requires PositiveUnits(events)
    ensures 0 <= SumAfter(events, cutoff) <= Sum(events)
    ensures (forall i | 0 <= i < |events| :: events[i].at <= cutoff) ==> SumAfter(events, cutoff) == 0
  {
    if events != [] {
      SumAfterBounds(events[1..], cutoff);
    }
  }

  // ---------- Trimming ----------

  lemma {:induction false} DropExpiredFacts(events: seq<UsageEvent>, cutoff: int, later: int)
    requires Sorted(events) && cutoff <= later
    ensures SumAfter(DropExpired(events, cutoff), later) == SumAfter(events, later)
    ensures DropExpired(DropExpired(events, cutoff), later) == DropExpired(events, later)
    ensures forall i | 0 <= i < |DropExpired(events, cutoff)| :: DropExpired(events, cutoff)[i].at > cutoff
  {
    if events != [] && events[0].at <= cutoff {
      DropExpiredFacts(events[1..], cutoff, later);
    }
  }

  lemma {:induction false} DropExpiredSuffix(events: seq<UsageEvent>, cutoff: int) returns (k: nat)
    ensures k <= |events| && DropExpired(events, cutoff) == events[k..]
  {
    if events != [] && events[0].at <= cutoff {
      k := DropExpiredSuffix(events[1..], cutoff);
      assert events[1..][k..] == events[k + 1..];
      k := k + 1;
    } else {
      assert events[0..] == events;
      k := 0;
    }
  }

  lemma TrimmedOk(b: Bucket, cutoff: int, clock: int)
    requires BucketOk(b, clock)
    ensures BucketOk(Trimmed(b, cutoff), clock)
    ensures Trimmed(b, cutoff).used <= b.used
  {
    var k := DropExpiredSuffix(b.events, cutoff);
    SumTail(b.events, k);
    assert forall i | 0 <= i < |b.events| - k :: b.events[k..][i] == b.events[k + i];
  }

  lemma TrimTwice(b: Bucket, cutoff: int, later: int, clock: int)
    requires BucketOk(b, clock) && cutoff <= later
    ensures Trimmed(Trimmed(b, cutoff), later) == Trimmed(b, later)
  {
    DropExpiredFacts(b.events, cutoff, later);
  }

  lemma LaterClock(s: Backend, clock: int, now: int)
    requires BackendOk(s, clock) && clock <= now
    ensures BackendOk(s, now)
  {
    forall k {:trigger BucketOk(Stored(s, k), now)} ensures BucketOk(Stored(s, k), now) {
      assert BucketOk(Stored(s, k), clock);
    }
  }

  lemma BucketForOk(s: Backend, rule: Rule, now: int)
    requires BackendOk(s, now)
    ensures BackendOk(BucketFor(s, rule, now), now)
  {
    var t := BucketFor(s, rule, now);
    forall k {:trigger BucketOk(Stored(t, k), now)} ensures BucketOk(Stored(t, k), now) {
      assert BucketOk(Stored(s, k), now);
      TrimmedOk(Stored(s, k), now - rule.window, now);
    }
  }

  // ---------- One charge ----------

  /** Whether a charge fits its rule at an instant, with all expired usage gone. */
  ghost predicate Fits(b: Bucket, rule: Rule, at: int, units: int) {
    && b.blockedUntil <= at
    && Trimmed(b, at - rule.window).used + units <= rule.limit
  }

  /** The units that have left by an instant. */
  ghost function Dropped(events: seq<UsageEvent>, cutoff: int): int {
    Sum(events) - Sum(DropExpired(events, cutoff))
  }

  lemma DroppedSplit(events: seq<UsageEvent>, cutoff: int)
    requires events != [] && PositiveUnits(events)
    ensures Dropped(events, cutoff)
         == if events[0].at <= cutoff then events[0].units + Dropped(events[1..], cutoff) else 0
    ensures Dropped(events[1..], cutoff) >= 0
  {
    SumTail(events, 1);
    var k := DropExpiredSuffix(events[1..], cutoff);
    SumTail(events[1..], k);
  }

  /** The expiration found is the first instant by which enough units have left, and the search
      always finds one when the bucket holds that many: it never falls through. */
  lemma {:induction false} ExpirationIsExact(events: seq<UsageEvent>, units: int, window: int, cutoff: int)
    requires Sorted(events) && PositiveUnits(events)
    requires 0 < units <= Sum(events)
    ensures exists i :: 0 <= i < |events| && EventExpiration(events, units, window) == events[i].at + window
    ensures Dropped(events, cutoff) >= units <==> cutoff + window >= EventExpiration(events, units, window)
    decreases events
  {
    var rest := events[1..];
    SumTail(events, 1);
    DroppedSplit(events, cutoff);
    if units - events[0].units > 0 {
      ExpirationIsExact(rest, units - events[0].units, window, cutoff);
      var i :| 0 <= i < |rest| && EventExpiration(rest, units - events[0].units, window) == rest[i].at + window;
      assert events[i + 1] == rest[i] && events[0].at <= events[i + 1].at;
    } else {
      assert events[0].at + window == EventExpiration(events, units, window);
    }
  }

  /** Usage in the way leaves, exactly at the expiration found for the excess. */
  lemma ExcessLeaves(t: Bucket, rule: Rule, now: int, units: int, at: int)
    requires BucketOk(t, now) && ValidRule(rule) && 0 < units <= rule.limit && ZERO <= now <= at
    requires forall i | 0 <= i < |t.events| :: t.events[i].at > now - rule.window
    ensures var excess := t.used + units - rule.limit;
            && (excess > 0 ==>
                  && EventExpiration(t.events, excess, rule.window) > now
                  && (Trimmed(t, at - rule.window).used + units <= rule.limit
                      <==> at >= EventExpiration(t.events, excess, rule.window)))
            && (excess <= 0 ==> Trimmed(t, at - rule.window).used + units <= rule.limit)
  {
    var excess := t.used + units - rule.limit;
    if excess > 0 {
      ExpirationIsExact(t.events, excess, rule.window, at - rule.window);
      assert Trimmed(t, at - rule.window).used == t.used - Dropped(t.events, at - rule.window);
    } else {
      TrimmedOk(t, at - rule.window, now);
    }
  }

  lemma FitsAfterTrim(b: Bucket, rule: Rule, now: int, units: int, at: int)
    requires BucketOk(b, now) && now <= at
    ensures Fits(Trimmed(b, now - rule.window), rule, at, units) <==> Fits(b, rule, at, units)
  {
    TrimTwice(b, now - rule.window, at - rule.window, now);
  }

  /** A charge waits strictly beyond now or not at all, and the wait is the least instant from
      now on at which the charge fits. */
  lemma ChargeWaitIsExact(b: Bucket, rule: Rule, now: int, units: int, at: int)
    requires BucketOk(b, now) && ValidRule(rule) && 0 < units <= rule.limit && ZERO <= now <= at
    ensures var wait := ChargeWait(Trimmed(b, now - rule.window), rule, now, units);
            && (wait == ZERO || wait > now)
            && (Fits(b, rule, at, units) <==> at >= wait)
  {
    var t := Trimmed(b, now - rule.window);
    TrimmedOk(b, now - rule.window, now);
    DropExpiredFacts(b.events, now - rule.window, now - rule.window);
    FitsAfterTrim(b, rule, now, units, at);
    ExcessLeaves(t, rule, now, units, at);
  }

  // ---------- A whole charge ----------

  ghost predicate DistinctKeys(charges: seq<Charge>) {
    forall i, j | 0 <= i < j < |charges| :: charges[i].key != charges[j].key
  }

  /** The charge asks for something, and its rule exists and could ever admit it. */
  ghost predicate Admitted(rules: map<string, Rule>, charge: Charge) {
    charge.units > 0 && charge.key in rules && charge.units <= rules[charge.key].limit
  }

  ghost predicate Admissible(rules: map<string, Rule>, charges: seq<Charge>) {
    charges == [] || (Admitted(rules, charges[0]) && Admissible(rules, charges[1..]))
  }

  ghost predicate ChargeFits(s: Backend, charge: Charge, at: int) {
    charge.key in s.rules && Fits(Stored(s, charge.key), s.rules[charge.key], at, charge.units)
  }

  ghost predicate AllFit(s: Backend, charges: seq<Charge>, at: int)
    decreases charges
  {
    charges == [] || (ChargeFits(s, charges[0], at) && AllFit(s, charges[1..], at))
  }

  lemma {:induction false} AdmissibleMeans(rules: map<string, Rule>, charges: seq<Charge>)
    ensures Admissible(rules, charges) <==> forall i | 0 <= i < |charges| :: Admitted(rules, charges[i])
  {
    if charges != [] {
      AdmissibleMeans(rules, charges[1..]);
      assert charges == [charges[0]] + charges[1..];
    }
  }

  lemma {:induction false} AllFitMeans(s: Backend, charges: seq<Charge>, at: int)
    ensures AllFit(s, charges, at) <==>
            forall i {:trigger ChargeFits(s, charges[i], at)} | 0 <= i < |charges| ::
              ChargeFits(s, charges[i], at)
    decreases charges
  {
    if charges != [] {
      AllFitMeans(s, charges[1..], at);
      forall i {:trigger ChargeFits(s, charges[i], at)} | 0 < i < |charges|
        ensures charges[i] == charges[1..][i - 1]
      {
      }
      if forall i {:trigger ChargeFits(s, charges[i], at)} | 0 <= i < |charges| :: ChargeFits(s, charges[i], at) {
        forall i {:trigger ChargeFits(s, charges[1..][i], at)} | 0 <= i < |charges| - 1
          ensures ChargeFits(s, charges[1..][i], at)
        {
          assert ChargeFits(s, charges[i + 1], at);
        }
      }
    }
  }

  lemma TrimKeepsChargeFit(s: Backend, rule: Rule, now: int, charge: Charge, at: int)
    requires BackendOk(s, now) && rule.key in s.rules && rule == s.rules[rule.key] && now <= at
    ensures ChargeFits(BucketFor(s, rule, now), charge, at) <==> ChargeFits(s, charge, at)
  {
    if charge.key == rule.key {
      assert BucketOk(Stored(s, rule.key), now);
      FitsAfterTrim(Stored(s, rule.key), rule, now, charge.units, at);
    }
  }

  /** Trimming a bucket changes nothing about what fits from now on. */
  lemma {:induction false} TrimKeepsFit(s: Backend, rule: Rule, now: int, charges: seq<Charge>, at: int)
    requires BackendOk(s, now) && rule.key in s.rules && rule == s.rules[rule.key] && now <= at
    ensures AllFit(BucketFor(s, rule, now), charges, at) <==> AllFit(s, charges, at)
    decreases charges
  {
    if charges != [] {
      TrimKeepsChargeFit(s, rule, now, charges[0], at);
      TrimKeepsFit(s, rule, now, charges[1..], at);
    }
  }

  /** The checking loop: for admissible charges it waits, on top of the wait collected before,
      exactly until the first instant at which every charge fits. */
  lemma {:induction false} CheckIsExact(s: Backend, now: int, charges: seq<Charge>, wait: int, at: int)
    requires BackendOk(s, now) && ZERO <= now <= at && (wait == ZERO || wait > now)
    requires Admissible(s.rules, charges)
    ensures var outcome := Check(s, now, charges, wait).1;
            && (outcome == Acquired || (outcome.WaitUntil? && outcome.at > now))
            && (AllFit(s, charges, at) && at >= wait <==>
                  outcome == Acquired || at >= outcome.at)
    decreases charges
  {
    if charges != [] {
      var charge, rule := charges[0], s.rules[charges[0].key];
      var t := BucketFor(s, rule, now);
      assert BucketOk(Stored(s, charge.key), now);
      ChargeWaitIsExact(Stored(s, charge.key), rule, now, charge.units, at);
      BucketForOk(s, rule, now);
      TrimKeepsFit(s, rule, now, charges[1..], at);
      CheckIsExact(t, now, charges[1..],
        Max(wait, ChargeWait(Stored(t, rule.key), rule, now, charge.units)), at);
    }
  }

  /** However far the loop gets, it only trims: what fits later is unchanged. */
  lemma {:induction false} CheckKeepsFit(
    s: Backend, now: int, charges: seq<Charge>, wait: int, others: seq<Charge>, at: int)
    requires BackendOk(s, now) && now <= at
    ensures var t := Check(s, now, charges, wait).0;
            BackendOk(t, now) && t.rules == s.rules && (AllFit(t, others, at) <==> AllFit(s, others, at))
    decreases charges
  {
    if charges != [] && charges[0].key in s.rules && charges[0].units <= s.rules[charges[0].key].limit {
      var rule := s.rules[charges[0].key];
      var t := BucketFor(s, rule, now);
      BucketForOk(s, rule, now);
      TrimKeepsFit(s, rule, now, others, at);
      CheckKeepsFit(t, now, charges[1..],
        Max(wait, ChargeWait(Stored(t, rule.key), rule, now, charges[0].units)), others, at);
    }
  }

  /** tryAcquire succeeds exactly when the whole charge fits. When it refuses, no usage was added
      anywhere, the returned instant lies strictly in the future, and asking again with nobody
      else acting succeeds exactly from that instant on. */
  lemma WaitIsExact(s: Backend, now: int, charges: seq<Charge>, at: int)
    requires BackendOk(s, now) && ZERO <= now <= at
    requires Admissible(s.rules, charges)
    ensures TryAcquire(s, now, charges).1 == Acquired <==> AllFit(s, charges, now)
    ensures var (t, outcome) := TryAcquire(s, now, charges);
            outcome != Acquired ==>
              && outcome.WaitUntil? && outcome.at > now
              && (TryAcquire(t, at, charges).1 == Acquired <==> at >= outcome.at)
  {
    CheckIsExact(s, now, charges, ZERO, now);
    CheckIsExact(s, now, charges, ZERO, at);
    var (t, outcome) := TryAcquire(s, now, charges);
    if outcome != Acquired {
      CheckKeepsFit(s, now, charges, ZERO, charges, at);
      LaterClock(t, now, at);
      CheckIsExact(t, at, charges, ZERO, at);
    }
  }

  /** An error means a charge whose rule is missing or too small; it is never the answer to an
      admissible charge. */
  lemma {:induction false} CheckErrors(s: Backend, now: int, charges: seq<Charge>, wait: int)
    requires BackendOk(s, now) && forall i | 0 <= i < |charges| :: charges[i].units > 0
    ensures var outcome := Check(s, now, charges, wait).1;
            && (Admissible(s.rules, charges) <==> outcome == Acquired || outcome.WaitUntil?)
            && (outcome.UnknownRule? ==> outcome.key !in s.rules)
            && (outcome.TooLarge? ==>
                  exists c :: c in charges && c.key == outcome.key
                    && outcome.key in s.rules && c.units > s.rules[outcome.key].limit)
    decreases charges
  {
    if charges != [] && charges[0].key in s.rules && charges[0].units <= s.rules[charges[0].key].limit {
      var rule := s.rules[charges[0].key];
      var t := BucketFor(s, rule, now);
      BucketForOk(s, rule, now);
      CheckErrors(t, now, charges[1..],
        Max(wait, ChargeWait(Stored(t, rule.key), rule, now, charges[0].units)));
      assert charges == [charges[0]] + charges[1..];
    }
  }
}
