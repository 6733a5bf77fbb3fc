/** The rolling-window guarantee over whole runs of limiter operations. */
module LimitSafety {
  import opened Integers
  import opened Limits
  import opened LimitRuns

  /** What callers may do, in the order in which they get the lock. */
  datatype Operation =
    | SetRuleTo(rule: Rule)
    | Acquire(now: int, charges: seq<Charge>)
    | Observe(now: int, key: string, used: int)
    | BlockKeys(now: int, keys: seq<string>, duration: int)
    | ReadSnapshot(now: int, key: string)

  /** The limiter together with, per rule, everything acquired since the rule last changed. */
  datatype Tracked = Tracked(backend: Backend, clock: int, acquired: map<string, seq<UsageEvent>>)

  const NOTHING_YET := Tracked(NO_RULES, ZERO, map[])

  ghost function Acquired(t: Tracked, key: string): seq<UsageEvent> {
    if key in t.acquired then t.acquired[key] else []
  }

  ghost function Record(acquired: map<string, seq<UsageEvent>>, now: int, charges: seq<Charge>)
    : map<string, seq<UsageEvent>>
    decreases charges
  {
    if charges == [] then acquired
    else
      var key := charges[0].key;
      var past := if key in acquired then acquired[key] else [];
      Record(acquired[key := past + [UsageEvent(now, charges[0].units)]], now, charges[1..])
  }

  ghost function Perform(t: Tracked, op: Operation): Tracked {
    match op
    case SetRuleTo(rule) =>
      if !ValidRule(rule) then t
      else if rule.key in t.backend.rules && t.backend.rules[rule.key].limit == rule.limit
              && t.backend.rules[rule.key].window == rule.window
      then t.(backend := SetRule(t.backend, rule))
      else t.(backend := SetRule(t.backend, rule), acquired := t.acquired[rule.key := []])
    case Acquire(now, charges) =>
      var (s, outcome) := TryAcquire(t.backend, now, charges);
      Tracked(s, now, if outcome == Outcome.Acquired then Record(t.acquired, now, charges) else t.acquired)
    case Observe(now, key, used) =>
      Tracked(ObserveUsed(t.backend, now, key, used), now, t.acquired)
    case BlockKeys(now, keys, duration) =>
      t.(backend := BlockFor(t.backend, now, keys, duration))
    case ReadSnapshot(now, key) =>
      Tracked(Snapshot(t.backend, now, key), now, t.acquired)
  }

  /** Clock readings do not go back from one lock section to the next. `BlockFor` reads its clock
      before it takes the lock, so its reading may be any clock reading. */
  ghost predicate ClockOk(t: Tracked, op: Operation) {
    match op
    case SetRuleTo(rule) => true
    case Acquire(now, charges) => t.clock <= now
    case Observe(now, key, used) => t.clock <= now
    case BlockKeys(now, keys, duration) => now >= ZERO
    case ReadSnapshot(now, key) => t.clock <= now
  }

  /** A charge list is what the limiter's normalisation hands over when no total leaves its range:
      distinct keys, positive units. */
  ghost predicate Allowed(t: Tracked, op: Operation) {
    && ClockOk(t, op)
    && (op.Acquire? ==> DistinctKeys(op.charges) && forall i | 0 <= i < |op.charges| :: op.charges[i].units > 0)
  }

  ghost function RunOf(ops: seq<Operation>): Tracked {
    if ops == [] then NOTHING_YET else Perform(RunOf(ops[..|ops| - 1]), ops[|ops| - 1])
  }

  ghost predicate AllowedRun(ops: seq<Operation>) {
    ops != [] ==> AllowedRun(ops[..|ops| - 1]) && Allowed(RunOf(ops[..|ops| - 1]), ops[|ops| - 1])
  }

  /** The units of the events in (from, until]. */
  ghost function SumWithin(events: seq<UsageEvent>, from: int, until: int): int {
    if events == [] then 0
    else (if from < events[0].at <= until then events[0].units else 0) + SumWithin(events[1..], from, until)
  }

  /** The units inside the window that ends at an instant. */
  ghost function InWindow(events: seq<UsageEvent>, window: int, at: int): int {
    SumWithin(events, at - window, at)
  }

  // ---------- One rule ----------

  ghost predicate WindowsWithin(acquired: seq<UsageEvent>, window: int, limit: int) {
    forall at :: InWindow(acquired, window, at) <= limit
  }

  /** From `clock` on, whatever was acquired and has not left the window is in the bucket. */
  ghost predicate Covers(b: Bucket, acquired: seq<UsageEvent>, from: int) {
    forall cutoff | cutoff >= from :: SumAfter(acquired, cutoff) <= SumAfter(b.events, cutoff)
  }

  ghost predicate KeySafe(b: Bucket, rule: Rule, acquired: seq<UsageEvent>, clock: int) {
    && BucketOk(b, clock)
    && PositiveUnits(acquired) && NotAfter(acquired, clock)
    && Covers(b, acquired, clock - rule.window)
    && WindowsWithin(acquired, rule.window, rule.limit)
  }

  lemma KeySafeLater(b: Bucket, rule: Rule, acquired: seq<UsageEvent>, clock: int, now: int)
    requires KeySafe(b, rule, acquired, clock) && clock <= now
    ensures KeySafe(b, rule, acquired, now)
  {
  }

  lemma TrimKeepsSafe(b: Bucket, rule: Rule, acquired: seq<UsageEvent>, now: int)
    requires KeySafe(b, rule, acquired, now)
    ensures KeySafe(Trimmed(b, now - rule.window), rule, acquired, now)
  {
    TrimmedOk(b, now - rule.window, now);
    forall cutoff | cutoff >= now - rule.window
      ensures SumAfter(Trimmed(b, now - rule.window).events, cutoff) == SumAfter(b.events, cutoff)
    {
      DropExpiredFacts(b.events, now - rule.window, cutoff);
    }
  }

  lemma AddEventOk(b: Bucket, now: int, units: int)
    requires BucketOk(b, now) && units > 0 && now >= ZERO
    ensures BucketOk(AddEvent(b, now, units), now)
  {
    SumSnoc(b.events, UsageEvent(now, units), ZERO);
  }

  lemma ObserveKeepsSafe(b: Bucket, rule: Rule, acquired: seq<UsageEvent>, now: int, units: int)
    requires KeySafe(b, rule, acquired, now) && units > 0 && now >= ZERO
    ensures KeySafe(AddEvent(b, now, units), rule, acquired, now)
  {
    AddEventOk(b, now, units);
    forall cutoff | cutoff >= now - rule.window
      ensures SumAfter(AddEvent(b, now, units).events, cutoff) >= SumAfter(b.events, cutoff)
    {
      SumSnoc(b.events, UsageEvent(now, units), cutoff);
    }
  }

  lemma {:induction false} SumWithinSnoc(events: seq<UsageEvent>, e: UsageEvent, from: int, until: int)
    ensures SumWithin(events + [e], from, until)
         == SumWithin(events, from, until) + (if from < e.at <= until then e.units else 0)
  {
    if events != [] {
      SumWithinSnoc(events[1..], e, from, until);
      assert (events + [e])[1..] == events[1..] + [e];
    }
  }

  lemma {:induction false} SumWithinIsAfter(events: seq<UsageEvent>, from: int, until: int)
    requires forall i | 0 <= i < |events| :: events[i].at <= until
    ensures SumWithin(events, from, until) == SumAfter(events, from)
  {
    if events != [] {
      SumWithinIsAfter(events[1..], from, until);
    }
  }

  /** An acquisition that fits keeps every window within the limit, also those in the future. */
  lemma GrantKeepsWindows(b: Bucket, rule: Rule, acquired: seq<UsageEvent>, now: int, units: int)
    requires KeySafe(b, rule, acquired, now) && ValidRule(rule) && units > 0
    requires b.used + units <= rule.limit
    ensures WindowsWithin(acquired + [UsageEvent(now, units)], rule.window, rule.limit)
  {
    var e := UsageEvent(now, units);
    forall at ensures InWindow(acquired + [e], rule.window, at) <= rule.limit {
      SumWithinSnoc(acquired, e, at - rule.window, at);
      assert InWindow(acquired, rule.window, at) <= rule.limit;
      if at - rule.window < now <= at {
        SumWithinIsAfter(acquired, at - rule.window, at);
        SumAfterBounds(b.events, at - rule.window);
      }
    }
  }

  lemma GrantKeepsSafe(b: Bucket, rule: Rule, acquired: seq<UsageEvent>, now: int, units: int)
    requires KeySafe(b, rule, acquired, now) && ValidRule(rule) && units > 0 && now >= ZERO
    requires b.used + units <= rule.limit
    ensures KeySafe(AddEvent(b, now, units), rule, acquired + [UsageEvent(now, units)], now)
  {
    var e := UsageEvent(now, units);
    AddEventOk(b, now, units);
    GrantKeepsWindows(b, rule, acquired, now, units);
    forall cutoff | cutoff >= now - rule.window
      ensures SumAfter(acquired + [e], cutoff) <= SumAfter(AddEvent(b, now, units).events, cutoff)
    {
      SumSnoc(b.events, e, cutoff);
      SumSnoc(acquired, e, cutoff);
    }
  }

  // ---------- Effect of an acquisition on one rule ----------

  ghost predicate Mentions(charges: seq<Charge>, key: string) {
    charges != [] && (charges[0].key == key || Mentions(charges[1..], key))
  }

  ghost function UnitsFor(charges: seq<Charge>, key: string): int
    requires Mentions(charges, key)
  {
    if charges[0].key == key then charges[0].units else UnitsFor(charges[1..], key)
  }

  lemma {:induction false} UnitsForFacts(s: Backend, charges: seq<Charge>, key: string, at: int)
    requires Mentions(charges, key) && Admissible(s.rules, charges) && AllFit(s, charges, at)
    ensures Admitted(s.rules, Charge(key, UnitsFor(charges, key)))
    ensures ChargeFits(s, Charge(key, UnitsFor(charges, key)), at)
    decreases charges
  {
    if charges[0].key != key {
      UnitsForFacts(s, charges[1..], key, at);
    } else {
      assert charges[0] == Charge(key, charges[0].units);
    }
  }

  lemma {:induction false} NotMentioned(charges: seq<Charge>, key: string)
    ensures (forall i | 0 <= i < |charges| :: charges[i].key != key) ==> !Mentions(charges, key)
  {
    if charges != [] {
      NotMentioned(charges[1..], key);
    }
  }

  /** Checking at most trims a bucket. */
  lemma {:induction false} CheckEffect(s: Backend, now: int, charges: seq<Charge>, wait: int, key: string)
    requires BackendOk(s, now)
    ensures var t := Check(s, now, charges, wait).0;
            || Stored(t, key) == Stored(s, key)
            || (key in s.rules && Stored(t, key) == Trimmed(Stored(s, key), now - s.rules[key].window))
    decreases charges
  {
    if charges != [] && charges[0].key in s.rules && charges[0].units <= s.rules[charges[0].key].limit {
      var rule := s.rules[charges[0].key];
      var t := BucketFor(s, rule, now);
      BucketForOk(s, rule, now);
      CheckEffect(t, now, charges[1..],
        Max(wait, ChargeWait(Stored(t, rule.key), rule, now, charges[0].units)), key);
      if key == rule.key {
        assert BucketOk(Stored(s, key), now);
        TrimTwice(Stored(s, key), now - rule.window, now - rule.window, now);
      }
    }
  }

  /** Taking adds exactly one event to each charged rule and touches no other. */
  lemma {:induction false} TakeEffect(s: Backend, now: int, charges: seq<Charge>, key: string)
    requires RulesOk(s) && DistinctKeys(charges) && forall i | 0 <= i < |charges| :: charges[i].key in s.rules
    ensures var t := Take(s, now, charges);
            && t.rules == s.rules
            && (Mentions(charges, key) ==>
                  && key in s.rules
                  && Stored(t, key) == AddEvent(Trimmed(Stored(s, key), now - s.rules[key].window),
                                                now, UnitsFor(charges, key)))
            && (!Mentions(charges, key) ==> Stored(t, key) == Stored(s, key))
    decreases charges
  {
    if charges != [] {
      var rule := s.rules[charges[0].key];
      var t := BucketFor(s, rule, now);
      var u := t.(buckets := t.buckets[rule.key := AddEvent(Stored(t, rule.key), now, charges[0].units)]);
      assert forall i | 0 <= i < |charges| - 1 :: charges[1..][i] == charges[i + 1];
      NotMentioned(charges[1..], charges[0].key);
      TakeEffect(u, now, charges[1..], key);
    }
  }

  lemma {:induction false} RecordEffect(t: Tracked, now: int, charges: seq<Charge>, key: string)
    requires DistinctKeys(charges)
    ensures Acquired(t.(acquired := Record(t.acquired, now, charges)), key)
         == Acquired(t, key) + (if Mentions(charges, key) then [UsageEvent(now, UnitsFor(charges, key))] else [])
    decreases charges
  {
    if charges != [] {
      var k := charges[0].key;
      var u := t.(acquired := t.acquired[k := Acquired(t, k) + [UsageEvent(now, charges[0].units)]]);
      assert forall i | 0 <= i < |charges| - 1 :: charges[1..][i] == charges[i + 1];
      NotMentioned(charges[1..], k);
      RecordEffect(u, now, charges[1..], key);
    }
  }

  // ---------- All rules ----------

  ghost predicate RuleSafe(t: Tracked, k: string) {
    k in t.backend.rules ==>
      KeySafe(Stored(t.backend, k), t.backend.rules[k], Acquired(t, k), t.clock)
  }

  ghost predicate Safe(t: Tracked) {
    && BackendOk(t.backend, t.clock)
    && forall k {:trigger RuleSafe(t, k)} :: RuleSafe(t, k)
  }

  lemma SafeLater(t: Tracked, now: int)
    requires Safe(t) && t.clock <= now
    ensures Safe(t.(clock := now))
  {
    LaterClock(t.backend, t.clock, now);
    forall k {:trigger RuleSafe(t.(clock := now), k)} ensures RuleSafe(t.(clock := now), k) {
      assert RuleSafe(t, k);
      if k in t.backend.rules {
        KeySafeLater(Stored(t.backend, k), t.backend.rules[k], Acquired(t, k), t.clock, now);
      }
    }
  }

  /** A granted acquisition, seen by one of its rules. */
  lemma GrantedKeySafe(s: Backend, now: int, charges: seq<Charge>, k: string, acquired: seq<UsageEvent>)
    requires BackendOk(s, now) && k in s.rules && Mentions(charges, k)
    requires Admissible(s.rules, charges) && AllFit(s, charges, now)
    requires KeySafe(Stored(s, k), s.rules[k], acquired, now)
    ensures var units := UnitsFor(charges, k);
            KeySafe(AddEvent(Trimmed(Stored(s, k), now - s.rules[k].window), now, units),
                    s.rules[k], acquired + [UsageEvent(now, units)], now)
  {
    var rule := s.rules[k];
    TrimKeepsSafe(Stored(s, k), rule, acquired, now);
    UnitsForFacts(s, charges, k, now);
    GrantKeepsSafe(Trimmed(Stored(s, k), now - rule.window), rule, acquired, now, UnitsFor(charges, k));
  }

  lemma GrantMeans(s: Backend, now: int, charges: seq<Charge>)
    requires BackendOk(s, now) && forall i | 0 <= i < |charges| :: charges[i].units > 0
    requires TryAcquire(s, now, charges).1 == Outcome.Acquired
    ensures Admissible(s.rules, charges) && AllFit(s, charges, now)
  {
    CheckErrors(s, now, charges, ZERO);
    CheckIsExact(s, now, charges, ZERO, now);
  }

  /** What any acquisition attempt leaves in one bucket. */
  lemma TryAcquireEffect(s: Backend, now: int, charges: seq<Charge>, k: string)
    requires BackendOk(s, now) && k in s.rules && DistinctKeys(charges)
    ensures var (t, outcome) := TryAcquire(s, now, charges);
            var trimmed := Trimmed(Stored(s, k), now - s.rules[k].window);
            && t.rules == s.rules
            && if outcome == Outcome.Acquired && Mentions(charges, k)
               then Stored(t, k) == AddEvent(trimmed, now, UnitsFor(charges, k))
               else Stored(t, k) == Stored(s, k) || Stored(t, k) == trimmed
  {
    var checked := Check(s, now, charges, ZERO).0;
    CheckKnows(s, now, charges, ZERO);
    CheckEffect(s, now, charges, ZERO, k);
    TrimAgain(s, now, k);
    if Check(s, now, charges, ZERO).1 == Outcome.Acquired {
      TakeEffect(checked, now, charges, k);
    }
  }

  lemma TrimAgain(s: Backend, now: int, k: string)
    requires BackendOk(s, now) && k in s.rules
    ensures var cutoff := now - s.rules[k].window;
            Trimmed(Trimmed(Stored(s, k), cutoff), cutoff) == Trimmed(Stored(s, k), cutoff)
  {
    assert BucketOk(Stored(s, k), now);
    TrimTwice(Stored(s, k), now - s.rules[k].window, now - s.rules[k].window, now);
  }

  lemma KeySafeAfterAttempt(
    s: Backend, now: int, charges: seq<Charge>, k: string, granted: bool,
    acquired: seq<UsageEvent>, b: Bucket, after: seq<UsageEvent>)
    requires BackendOk(s, now) && k in s.rules && KeySafe(Stored(s, k), s.rules[k], acquired, now)
    requires var trimmed := Trimmed(Stored(s, k), now - s.rules[k].window);
             if granted
             then && Mentions(charges, k) && Admissible(s.rules, charges) && AllFit(s, charges, now)
                  && b == AddEvent(trimmed, now, UnitsFor(charges, k))
                  && after == acquired + [UsageEvent(now, UnitsFor(charges, k))]
             else after == acquired && (b == Stored(s, k) || b == trimmed)
    ensures KeySafe(b, s.rules[k], after, now)
  {
    TrimKeepsSafe(Stored(s, k), s.rules[k], acquired, now);
    if granted {
      GrantedKeySafe(s, now, charges, k, acquired);
    }
  }

  lemma AcquireKeepsRuleSafe(t: Tracked, charges: seq<Charge>, k: string, u: Tracked)
    requires Safe(t) && Allowed(t, Acquire(t.clock, charges))
    requires u == Perform(t, Acquire(t.clock, charges))
    ensures RuleSafe(u, k)
  {
    if k in t.backend.rules {
      var acquired := TryAcquire(t.backend, t.clock, charges).1 == Outcome.Acquired;
      assert RuleSafe(t, k);
      TryAcquireEffect(t.backend, t.clock, charges, k);
      RecordedFor(t, charges, k, u, acquired);
      if acquired {
        GrantMeans(t.backend, t.clock, charges);
      }
      KeySafeAfterAttempt(t.backend, t.clock, charges, k, acquired && Mentions(charges, k),
                          Acquired(t, k), Stored(u.backend, k), Acquired(u, k));
    }
  }

  lemma RecordedFor(t: Tracked, charges: seq<Charge>, k: string, u: Tracked, acquired: bool)
    requires DistinctKeys(charges) && u == Perform(t, Acquire(t.clock, charges))
    requires acquired == (TryAcquire(t.backend, t.clock, charges).1 == Outcome.Acquired)
    ensures Acquired(u, k) == if acquired && Mentions(charges, k)
                              then Acquired(t, k) + [UsageEvent(t.clock, UnitsFor(charges, k))] else Acquired(t, k)
  {
    RecordEffect(t, t.clock, charges, k);
    assert Acquired(t, k) + [] == Acquired(t, k);
  }

  lemma {:induction false} TakeOk(s: Backend, now: int, charges: seq<Charge>)
    requires BackendOk(s, now) && forall i | 0 <= i < |charges| :: charges[i].key in s.rules && charges[i].units > 0
    ensures BackendOk(Take(s, now, charges), now)
    decreases charges
  {
    if charges != [] {
      var rule := s.rules[charges[0].key];
      var t := BucketFor(s, rule, now);
      BucketForOk(s, rule, now);
      assert BucketOk(Stored(t, rule.key), now);
      AddEventOk(Stored(t, rule.key), now, charges[0].units);
      ReplaceOk(t, rule.key, AddEvent(Stored(t, rule.key), now, charges[0].units), now);
      assert forall i | 0 <= i < |charges| - 1 :: charges[1..][i] == charges[i + 1];
      TakeOk(t.(buckets := t.buckets[rule.key := AddEvent(Stored(t, rule.key), now, charges[0].units)]),
             now, charges[1..]);
    }
  }

  lemma ReplaceOk(s: Backend, key: string, b: Bucket, now: int)
    requires BackendOk(s, now) && BucketOk(b, now)
    ensures BackendOk(s.(buckets := s.buckets[key := b]), now)
  {
    var t := s.(buckets := s.buckets[key := b]);
    forall k {:trigger BucketOk(Stored(t, k), now)} ensures BucketOk(Stored(t, k), now) {
      assert BucketOk(Stored(s, k), now);
    }
  }

  lemma AcquireKeepsSafe(t: Tracked, charges: seq<Charge>)
    requires Safe(t) && Allowed(t, Acquire(t.clock, charges))
    ensures Safe(Perform(t, Acquire(t.clock, charges)))
  {
    var u := Perform(t, Acquire(t.clock, charges));
    CheckKnows(t.backend, t.clock, charges, ZERO);
    CheckKeepsFit(t.backend, t.clock, charges, ZERO, [], t.clock);
    if Check(t.backend, t.clock, charges, ZERO).1 == Outcome.Acquired {
      TakeOk(Check(t.backend, t.clock, charges, ZERO).0, t.clock, charges);
    }
    forall k {:trigger RuleSafe(u, k)} ensures RuleSafe(u, k) {
      AcquireKeepsRuleSafe(t, charges, k, u);
    }
  }

  /** Replacing one bucket by a safe one keeps everything safe. */
  lemma ReplaceKeepsSafe(t: Tracked, key: string, b: Bucket)
    requires Safe(t) && key in t.backend.rules
    requires KeySafe(b, t.backend.rules[key], Acquired(t, key), t.clock)
    ensures Safe(t.(backend := t.backend.(buckets := t.backend.buckets[key := b])))
  {
    var u := t.(backend := t.backend.(buckets := t.backend.buckets[key := b]));
    ReplaceOk(t.backend, key, b, t.clock);
    forall k {:trigger RuleSafe(u, k)} ensures RuleSafe(u, k) {
      assert RuleSafe(t, k);
    }
  }

  lemma ReadKeepsSafe(t: Tracked, key: string)
    requires Safe(t)
    ensures Safe(t.(backend := Snapshot(t.backend, t.clock, key)))
  {
    if key in t.backend.rules {
      assert RuleSafe(t, key);
      TrimKeepsSafe(Stored(t.backend, key), t.backend.rules[key], Acquired(t, key), t.clock);
      ReplaceKeepsSafe(t, key, Trimmed(Stored(t.backend, key), t.clock - t.backend.rules[key].window));
    }
  }

  lemma ObserveUsedKeepsSafe(t: Tracked, key: string, used: int)
    requires Safe(t)
    ensures Safe(t.(backend := ObserveUsed(t.backend, t.clock, key, used)))
  {
    if used >= 0 && key in t.backend.rules {
      ReadKeepsSafe(t, key);
      var u := t.(backend := Snapshot(t.backend, t.clock, key));
      var b := Stored(u.backend, key);
      if used > b.used {
        assert RuleSafe(u, key);
        ObserveKeepsSafe(b, u.backend.rules[key], Acquired(u, key), u.clock, used - b.used);
        ReplaceKeepsSafe(u, key, AddEvent(b, u.clock, used - b.used));
      }
    }
  }

  lemma {:induction false} BlockKeepsSafe(t: Tracked, keys: seq<string>, until: int)
    requires Safe(t) && until >= ZERO && AllKnown(t.backend, keys)
    ensures Safe(t.(backend := Block(t.backend, keys, until)))
    decreases keys
  {
    if keys != [] {
      var b := Stored(t.backend, keys[0]);
      var blocked := if until > b.blockedUntil then b.(blockedUntil := until) else b;
      assert RuleSafe(t, keys[0]);
      BlockedBucketSafe(b, until, t.backend.rules[keys[0]], Acquired(t, keys[0]), t.clock);
      ReplaceKeepsSafe(t, keys[0], blocked);
      assert forall i | 0 <= i < |keys| - 1 :: keys[1..][i] == keys[i + 1];
      BlockKeepsSafe(t.(backend := t.backend.(buckets := t.backend.buckets[keys[0] := blocked])), keys[1..], until);
    }
  }

  lemma BlockedBucketSafe(b: Bucket, until: int, rule: Rule, acquired: seq<UsageEvent>, clock: int)
    requires KeySafe(b, rule, acquired, clock) && until >= ZERO
    ensures KeySafe(b.(blockedUntil := until), rule, acquired, clock)
  {
  }

  lemma SetRuleKeepsSafe(t: Tracked, rule: Rule)
    requires Safe(t)
    ensures Safe(Perform(t, SetRuleTo(rule)))
  {
    var u := Perform(t, SetRuleTo(rule));
    forall k {:trigger BucketOk(Stored(u.backend, k), u.clock)} ensures BucketOk(Stored(u.backend, k), u.clock) {
      assert BucketOk(Stored(t.backend, k), t.clock);
    }
    forall k {:trigger RuleSafe(u, k)} ensures RuleSafe(u, k) {
      assert RuleSafe(t, k);
      if ValidRule(rule) && k == rule.key {
        EmptyIsSafe(rule, t.clock);
      }
    }
  }

  lemma EmptyIsSafe(rule: Rule, clock: int)
    requires ValidRule(rule) && clock >= ZERO
    ensures KeySafe(EMPTY_BUCKET, rule, [], clock)
  {
  }

  lemma PerformKeepsSafe(t: Tracked, op: Operation)
    requires Safe(t) && Allowed(t, op)
    ensures Safe(Perform(t, op))
  {
    match op
    case SetRuleTo(rule) => SetRuleKeepsSafe(t, rule);
    case Acquire(now, charges) =>
      SafeLater(t, now);
      AcquireKeepsSafe(t.(clock := now), charges);
    case Observe(now, key, used) =>
      SafeLater(t, now);
      ObserveUsedKeepsSafe(t.(clock := now), key, used);
    case BlockKeys(now, keys, duration) =>
      if duration > 0 && AllKnown(t.backend, keys) {
        BlockKeepsSafe(t, keys, now + duration);
      }
    case ReadSnapshot(now, key) =>
      SafeLater(t, now);
      ReadKeepsSafe(t.(clock := now), key);
  }

  lemma {:induction false} RunIsSafe(ops: seq<Operation>)
    requires AllowedRun(ops)
    ensures Safe(RunOf(ops))
  {
    if ops != [] {
      RunIsSafe(ops[..|ops| - 1]);
      PerformKeepsSafe(RunOf(ops[..|ops| - 1]), ops[|ops| - 1]);
    } else {
      forall k {:trigger RuleSafe(NOTHING_YET, k)} ensures RuleSafe(NOTHING_YET, k) {
      }
    }
  }

  // ---------- Main results ----------

  /** Over every run: since a rule last changed, the units acquired in any window of its length,
      ending at any instant, never exceed its limit, however acquisitions for other rules,
      reported usage, blocks and reads are interleaved. */
  lemma NoWindowExceedsLimit(ops: seq<Operation>, key: string, at: int)
    requires AllowedRun(ops) && key in RunOf(ops).backend.rules
    ensures var rule := RunOf(ops).backend.rules[key];
            SumWithin(Acquired(RunOf(ops), key), at - rule.window, at) <= rule.limit
  {
    RunIsSafe(ops);
    assert RuleSafe(RunOf(ops), key);
    assert InWindow(Acquired(RunOf(ops), key), RunOf(ops).backend.rules[key].window, at)
        <= RunOf(ops).backend.rules[key].limit;
  }

  /** After every run a refused acquisition names the exact instant from which it would succeed
      if nobody else acts, and that instant lies in the future. */
  lemma RefusalIsExact(ops: seq<Operation>, now: int, charges: seq<Charge>, at: int)
    requires AllowedRun(ops) && RunOf(ops).clock <= now <= at
    requires Admissible(RunOf(ops).backend.rules, charges)
    ensures var (s, outcome) := TryAcquire(RunOf(ops).backend, now, charges);
            outcome != Outcome.Acquired ==>
              && outcome.WaitUntil? && outcome.at > now
              && (TryAcquire(s, at, charges).1 == Outcome.Acquired <==> at >= outcome.at)
  {
    RunIsSafe(ops);
    LaterClock(RunOf(ops).backend, RunOf(ops).clock, now);
    WaitIsExact(RunOf(ops).backend, now, charges, at);
  }

  /** A refused or rejected acquisition adds no usage to any rule: buckets only lose expired
      events, so partial charges cannot happen. */
  lemma RefusalChargesNothing(s: Backend, now: int, charges: seq<Charge>, key: string)
    requires BackendOk(s, now) && TryAcquire(s, now, charges).1 != Outcome.Acquired
    ensures var before, after := Stored(s, key), Stored(TryAcquire(s, now, charges).0, key);
            after == before
            || (key in s.rules && after == Trimmed(before, now - s.rules[key].window))
  {
    CheckEffect(s, now, charges, ZERO, key);
  }

  /** A report from the exchange can only raise the count, and raises it to what it says. */
  lemma ReportOnlyRaises(s: Backend, now: int, key: string, used: int)
    requires BackendOk(s, now) && key in s.rules && used >= 0
    ensures var trimmed := Trimmed(Stored(s, key), now - s.rules[key].window);
            Stored(ObserveUsed(s, now, key, used), key).used == Max(trimmed.used, used)
    ensures BackendOk(ObserveUsed(s, now, key, used), now)
  {
    BucketForOk(s, s.rules[key], now);
    var t := BucketFor(s, s.rules[key], now);
    var b := Stored(t, key);
    assert BucketOk(b, now);
    if used > b.used {
      AddEventOk(b, now, used - b.used);
      ReplaceOk(t, key, AddEvent(b, now, used - b.used), now);
    }
  }

  // ---------- Blocks ----------

  lemma {:induction false} BlockRaises(s: Backend, keys: seq<string>, until: int, k: string)
    ensures Stored(Block(s, keys, until), k).blockedUntil >= Stored(s, k).blockedUntil
    ensures k in keys ==> Stored(Block(s, keys, until), k).blockedUntil >= until
    decreases keys
  {
    if keys != [] {
      var b := Stored(s, keys[0]);
      BlockRaises(s.(buckets := s.buckets[keys[0] :=
        if until > b.blockedUntil then b.(blockedUntil := until) else b]), keys[1..], until, k);
      assert keys == [keys[0]] + keys[1..];
    }
  }

  ghost predicate ChangesRule(t: Tracked, op: Operation, k: string) {
    && op.SetRuleTo? && op.rule.key == k
    && (k in t.backend.rules ==>
          t.backend.rules[k].limit != op.rule.limit || t.backend.rules[k].window != op.rule.window)
  }

  /** Nothing but a change of the rule itself shortens a block. */
  lemma BlockLasts(t: Tracked, op: Operation, k: string)
    requires Safe(t) && Allowed(t, op) && !ChangesRule(t, op, k)
    ensures Stored(Perform(t, op).backend, k).blockedUntil >= Stored(t.backend, k).blockedUntil
  {
    match op
    case SetRuleTo(rule) =>
    case Acquire(now, charges) =>
      LaterClock(t.backend, t.clock, now);
      if k in t.backend.rules {
        TryAcquireEffect(t.backend, now, charges, k);
      } else {
        CheckEffect(t.backend, now, charges, ZERO, k);
        if Check(t.backend, now, charges, ZERO).1 == Outcome.Acquired {
          CheckKnows(t.backend, now, charges, ZERO);
          CheckKeepsFit(t.backend, now, charges, ZERO, [], now);
          TakeEffect(Check(t.backend, now, charges, ZERO).0, now, charges, k);
        }
      }
    case Observe(now, key, used) =>
    case BlockKeys(now, keys, duration) => BlockRaises(t.backend, keys, now + duration, k);
    case ReadSnapshot(now, key) =>
  }

  /** While a rule is blocked, no charge that includes it is granted. */
  lemma BlockedIsRefused(t: Tracked, now: int, charges: seq<Charge>, k: string)
    requires Safe(t) && Allowed(t, Acquire(now, charges)) && Mentions(charges, k)
    requires now < Stored(t.backend, k).blockedUntil
    ensures TryAcquire(t.backend, now, charges).1 != Outcome.Acquired
  {
    LaterClock(t.backend, t.clock, now);
    if Admissible(t.backend.rules, charges) && AllFit(t.backend, charges, now) {
      UnitsForFacts(t.backend, charges, k, now);
    } else if TryAcquire(t.backend, now, charges).1 == Outcome.Acquired {
      GrantMeans(t.backend, now, charges);
    }
  }
}
