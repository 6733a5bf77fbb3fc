/** The limiter against a reference that never forgets: it keeps every unit ever charged or
    reported, counts those inside the window when asked, and remembers until when each rule is
    blocked. Buckets, trimming and running counts do not occur in it. */
module LimitReference {
  import opened Integers
  import opened Limits
  import opened LimitRuns
  import opened LimitSafety

  datatype Reference = Reference(
    rules: map<string, Rule>, past: string -> seq<UsageEvent>, blocked: string -> int)

  ghost const NOTHING_PAST := Reference(map[], k => [], k => ZERO)

  /** The units charged or reported under a key within its window before an instant. */
  ghost function UsedAt(r: Reference, key: string, now: int): int
    requires key in r.rules
  {
    SumWithin(r.past(key), now - r.rules[key].window, now)
  }

  /** The charge has a rule that is not blocked, and fits what is left of it. */
  ghost predicate Fitting(r: Reference, now: int, charge: Charge) {
    && charge.key in r.rules && r.blocked(charge.key) <= now
    && UsedAt(r, charge.key, now) + charge.units <= r.rules[charge.key].limit
  }

  ghost predicate Grants(r: Reference, now: int, charges: seq<Charge>) {
    forall i {:trigger charges[i]} | 0 <= i < |charges| :: Fitting(r, now, charges[i])
  }

  ghost function Put<T>(f: string -> T, key: string, value: T): string -> T {
    k => if k == key then value else f(k)
  }

  ghost function Move(r: Reference, op: Operation): Reference {
    match op
    case SetRuleTo(rule) =>
      if rule.key == "" || rule.limit <= 0 || rule.window <= 0 then r
      else if rule.key in r.rules && r.rules[rule.key] == rule then r
      else Reference(r.rules[rule.key := rule], Put(r.past, rule.key, []), Put(r.blocked, rule.key, ZERO))
    case Acquire(now, charges) =>
      if !Grants(r, now, charges) then r
      else r.(past := k => if Mentions(charges, k) then r.past(k) + [UsageEvent(now, UnitsFor(charges, k))]
                           else r.past(k))
    case Observe(now, key, used) =>
      if key !in r.rules || used <= UsedAt(r, key, now) then r
      else r.(past := Put(r.past, key, r.past(key) + [UsageEvent(now, used - UsedAt(r, key, now))]))
    case BlockKeys(now, keys, duration) =>
      if duration <= 0 || (exists i :: 0 <= i < |keys| && keys[i] !in r.rules) then r
      else r.(blocked := k => if k in keys then Max(r.blocked(k), now + duration) else r.blocked(k))
    case ReadSnapshot(now, key) => r
  }

  ghost function ReferenceOf(ops: seq<Operation>): Reference {
    if ops == [] then NOTHING_PAST else Move(ReferenceOf(ops[..|ops| - 1]), ops[|ops| - 1])
  }

  // ---------- One rule ----------

  /** The bucket holds what of the past has not left the window, and its block. */
  ghost predicate Follows(b: Bucket, window: int, past: seq<UsageEvent>, blocked: int, clock: int) {
    && Sorted(past) && PositiveUnits(past) && NotAfter(past, clock) && b.blockedUntil == blocked
    && forall cutoff {:trigger DropExpired(past, cutoff)} | cutoff >= clock - window ::
         DropExpired(b.events, cutoff) == DropExpired(past, cutoff)
  }

  lemma FollowsLater(b: Bucket, window: int, past: seq<UsageEvent>, blocked: int, clock: int, now: int)
    requires Follows(b, window, past, blocked, clock) && clock <= now
    ensures Follows(b, window, past, blocked, now)
  {
  }

  lemma TrimmedFollows(b: Bucket, window: int, past: seq<UsageEvent>, blocked: int, now: int)
    requires BucketOk(b, now) && Follows(b, window, past, blocked, now)
    ensures Follows(Trimmed(b, now - window), window, past, blocked, now)
  {
    forall cutoff {:trigger DropExpired(past, cutoff)} | cutoff >= now - window
      ensures DropExpired(Trimmed(b, now - window).events, cutoff) == DropExpired(past, cutoff)
    {
      DropExpiredFacts(b.events, now - window, cutoff);
    }
  }

  lemma {:induction false} DropSnoc(events: seq<UsageEvent>, e: UsageEvent, cutoff: int)
    requires forall i | 0 <= i < |events| :: events[i].at <= e.at
    ensures DropExpired(events + [e], cutoff)
         == if e.at <= cutoff then [] else DropExpired(events, cutoff) + [e]
  {
    if events == [] {
      assert [e][1..] == [];
    } else if events[0].at <= cutoff {
      assert (events + [e])[1..] == events[1..] + [e];
      DropSnoc(events[1..], e, cutoff);
    }
  }

  lemma AddedFollows(b: Bucket, window: int, past: seq<UsageEvent>, blocked: int, now: int, units: int)
    requires BucketOk(b, now) && Follows(b, window, past, blocked, now) && units > 0 && now >= ZERO
    ensures Follows(AddEvent(b, now, units), window, past + [UsageEvent(now, units)], blocked, now)
  {
    var e := UsageEvent(now, units);
    forall cutoff {:trigger DropExpired(past + [e], cutoff)} | cutoff >= now - window
      ensures DropExpired(AddEvent(b, now, units).events, cutoff) == DropExpired(past + [e], cutoff)
    {
      DropSnoc(b.events, e, cutoff);
      DropSnoc(past, e, cutoff);
      assert DropExpired(b.events, cutoff) == DropExpired(past, cutoff);
    }
  }

  /** Summing what has not expired is summing over the window. */
  lemma {:induction false} KeptIsWindow(past: seq<UsageEvent>, cutoff: int, now: int)
    requires Sorted(past) && forall i | 0 <= i < |past| :: past[i].at <= now
    ensures Sum(DropExpired(past, cutoff)) == SumWithin(past, cutoff, now)
  {
    if past != [] {
      KeptIsWindow(past[1..], cutoff, now);
      if past[0].at > cutoff {
        assert DropExpired(past[1..], cutoff) == past[1..] by {
          assert |past| > 1 ==> past[1..][0].at >= past[0].at;
        }
      }
    }
  }

  lemma UsedIsWindow(b: Bucket, window: int, past: seq<UsageEvent>, blocked: int, clock: int, now: int)
    requires BucketOk(b, clock) && Follows(b, window, past, blocked, clock) && clock <= now
    ensures Trimmed(b, now - window).used == SumWithin(past, now - window, now)
    ensures Trimmed(b, now - window).events == DropExpired(past, now - window)
  {
    assert DropExpired(b.events, now - window) == DropExpired(past, now - window);
    KeptIsWindow(past, now - window, now);
  }

  // ---------- All rules ----------

  ghost predicate KeyFollows(t: Tracked, r: Reference, k: string) {
    k in t.backend.rules ==>
      Follows(Stored(t.backend, k), t.backend.rules[k].window, r.past(k), r.blocked(k), t.clock)
  }

  ghost predicate Refines(t: Tracked, r: Reference) {
    r.rules == t.backend.rules && forall k {:trigger KeyFollows(t, r, k)} :: KeyFollows(t, r, k)
  }

  lemma KeyState(t: Tracked, r: Reference, k: string)
    requires Safe(t) && Refines(t, r) && k in t.backend.rules
    ensures BucketOk(Stored(t.backend, k), t.clock) && t.clock >= ZERO
    ensures Follows(Stored(t.backend, k), t.backend.rules[k].window, r.past(k), r.blocked(k), t.clock)
  {
    assert KeyFollows(t, r, k);
  }

  lemma RefinesLater(t: Tracked, r: Reference, now: int)
    requires Refines(t, r) && t.clock <= now
    ensures Refines(t.(clock := now), r)
  {
    var u := t.(clock := now);
    forall k {:trigger KeyFollows(u, r, k)} ensures KeyFollows(u, r, k) {
      assert KeyFollows(t, r, k);
    }
  }

  lemma ChargeFitsIff(t: Tracked, r: Reference, now: int, charge: Charge)
    requires Safe(t) && Refines(t, r) && t.clock <= now
    ensures ChargeFits(t.backend, charge, now) <==> Fitting(r, now, charge)
  {
    var k := charge.key;
    if k in t.backend.rules {
      KeyState(t, r, k);
      UsedIsWindow(Stored(t.backend, k), t.backend.rules[k].window, r.past(k), r.blocked(k), t.clock, now);
    }
  }

  lemma UsedIsNotNegative(t: Tracked, r: Reference, now: int, k: string)
    requires Safe(t) && Refines(t, r) && t.clock <= now && k in r.rules
    ensures UsedAt(r, k, now) >= 0
  {
    KeyState(t, r, k);
    WindowIsNotNegative(r.past(k), now - r.rules[k].window, now);
  }

  lemma {:induction false} WindowIsNotNegative(past: seq<UsageEvent>, from: int, until: int)
    requires PositiveUnits(past)
    ensures SumWithin(past, from, until) >= 0
  {
    if past != [] {
      WindowIsNotNegative(past[1..], from, until);
    }
  }

  /** The limiter grants exactly what the reference grants. */
  lemma GrantedIff(t: Tracked, r: Reference, now: int, charges: seq<Charge>)
    requires Safe(t) && Refines(t, r) && t.clock <= now
    requires forall i | 0 <= i < |charges| :: charges[i].units > 0
    ensures TryAcquire(t.backend, now, charges).1 == Outcome.Acquired <==> Grants(r, now, charges)
  {
    LaterClock(t.backend, t.clock, now);
    AllFitMeans(t.backend, charges, now);
    AdmissibleMeans(t.backend.rules, charges);
    CheckErrors(t.backend, now, charges, ZERO);
    forall i | 0 <= i < |charges|
      ensures ChargeFits(t.backend, charges[i], now) <==> Fitting(r, now, charges[i])
      ensures Fitting(r, now, charges[i]) ==> Admitted(t.backend.rules, charges[i])
    {
      ChargeFitsIff(t, r, now, charges[i]);
      if charges[i].key in r.rules {
        UsedIsNotNegative(t, r, now, charges[i].key);
      }
    }
    if Admissible(t.backend.rules, charges) {
      WaitIsExact(t.backend, now, charges, now);
    }
  }

  lemma AcquireRefines(t: Tracked, r: Reference, charges: seq<Charge>, u: Tracked, q: Reference)
    requires Safe(t) && Refines(t, r) && Allowed(t, Acquire(t.clock, charges))
    requires u == Perform(t, Acquire(t.clock, charges)) && q == Move(r, Acquire(t.clock, charges))
    ensures Refines(u, q)
  {
    GrantedIff(t, r, t.clock, charges);
    forall k {:trigger KeyFollows(u, q, k)} ensures KeyFollows(u, q, k) {
      if k in t.backend.rules {
        AcquireFollows(t, r, charges, k, u, q);
      }
    }
  }

  lemma AcquireFollows(t: Tracked, r: Reference, charges: seq<Charge>, k: string, u: Tracked, q: Reference)
    requires Safe(t) && Refines(t, r) && Allowed(t, Acquire(t.clock, charges)) && k in t.backend.rules
    requires u == Perform(t, Acquire(t.clock, charges)) && q == Move(r, Acquire(t.clock, charges))
    requires TryAcquire(t.backend, t.clock, charges).1 == Outcome.Acquired <==> Grants(r, t.clock, charges)
    ensures KeyFollows(u, q, k)
  {
    TryAcquireEffect(t.backend, t.clock, charges, k);
    ChargedFollows(t, r, charges, k, Grants(r, t.clock, charges) && Mentions(charges, k), Stored(u.backend, k),
                   q.past(k));
  }

  lemma ChargedFollows(
    t: Tracked, r: Reference, charges: seq<Charge>, k: string, charged: bool, b: Bucket, past: seq<UsageEvent>)
    requires Safe(t) && Refines(t, r) && k in t.backend.rules
    requires charged ==> Mentions(charges, k) && forall i | 0 <= i < |charges| :: charges[i].units > 0
    requires var trimmed := Trimmed(Stored(t.backend, k), t.clock - t.backend.rules[k].window);
             if charged
             then b == AddEvent(trimmed, t.clock, UnitsFor(charges, k))
                  && past == r.past(k) + [UsageEvent(t.clock, UnitsFor(charges, k))]
             else past == r.past(k) && (b == Stored(t.backend, k) || b == trimmed)
    ensures Follows(b, t.backend.rules[k].window, past, r.blocked(k), t.clock)
  {
    var before, window := Stored(t.backend, k), t.backend.rules[k].window;
    KeyState(t, r, k);
    TrimmedFollows(before, window, r.past(k), r.blocked(k), t.clock);
    if charged {
      TrimmedOk(before, t.clock - window, t.clock);
      UnitsPositive(charges, k);
      AddedFollows(Trimmed(before, t.clock - window), window, r.past(k), r.blocked(k), t.clock, UnitsFor(charges, k));
    }
  }

  lemma {:induction false} UnitsPositive(charges: seq<Charge>, k: string)
    requires Mentions(charges, k) && forall i | 0 <= i < |charges| :: charges[i].units > 0
    ensures UnitsFor(charges, k) > 0
  {
    if charges[0].key != k {
      UnitsPositive(charges[1..], k);
    }
  }

  lemma ReadRefines(t: Tracked, r: Reference, key: string)
    requires Safe(t) && Refines(t, r)
    ensures Refines(t.(backend := Snapshot(t.backend, t.clock, key)), r)
  {
    var u := t.(backend := Snapshot(t.backend, t.clock, key));
    forall k {:trigger KeyFollows(u, r, k)} ensures KeyFollows(u, r, k) {
      assert RuleSafe(t, k) && KeyFollows(t, r, k);
      if k == key && k in t.backend.rules {
        TrimmedFollows(Stored(t.backend, k), t.backend.rules[k].window, r.past(k), r.blocked(k), t.clock);
      }
    }
  }

  lemma ReplaceRefines(t: Tracked, r: Reference, key: string, b: Bucket, q: Reference)
    requires Refines(t, r) && key in t.backend.rules && q.rules == r.rules
    requires forall k | k != key :: q.past(k) == r.past(k) && q.blocked(k) == r.blocked(k)
    requires Follows(b, t.backend.rules[key].window, q.past(key), q.blocked(key), t.clock)
    ensures Refines(t.(backend := t.backend.(buckets := t.backend.buckets[key := b])), q)
  {
    var u := t.(backend := t.backend.(buckets := t.backend.buckets[key := b]));
    forall k {:trigger KeyFollows(u, q, k)} ensures KeyFollows(u, q, k) {
      assert KeyFollows(t, r, k);
    }
  }

  lemma ObserveIs(s: Backend, now: int, key: string, used: int, trimmed: Bucket)
    requires RulesOk(s) && key in s.rules && used >= 0
    requires trimmed == Trimmed(Stored(s, key), now - s.rules[key].window)
    ensures ObserveUsed(s, now, key, used)
         == if used > trimmed.used
            then s.(buckets := s.buckets[key := AddEvent(trimmed, now, used - trimmed.used)])
            else Snapshot(s, now, key)
  {
    var b := AddEvent(trimmed, now, used - trimmed.used);
    assert s.buckets[key := trimmed][key := b] == s.buckets[key := b];
  }

  lemma ObserveFollows(t: Tracked, r: Reference, key: string, used: int, trimmed: Bucket)
    requires Safe(t) && Refines(t, r) && key in t.backend.rules
    requires trimmed == Trimmed(Stored(t.backend, key), t.clock - t.backend.rules[key].window)
    ensures UsedAt(r, key, t.clock) == trimmed.used
    ensures used > trimmed.used ==>
              Follows(AddEvent(trimmed, t.clock, used - trimmed.used), t.backend.rules[key].window,
                      r.past(key) + [UsageEvent(t.clock, used - trimmed.used)], r.blocked(key), t.clock)
  {
    KeyState(t, r, key);
    ReportFollows(Stored(t.backend, key), t.backend.rules[key].window, r.past(key), r.blocked(key), t.clock, used,
                  trimmed);
  }

  lemma ReportFollows(
    b: Bucket, window: int, past: seq<UsageEvent>, blocked: int, now: int, used: int, trimmed: Bucket)
    requires BucketOk(b, now) && Follows(b, window, past, blocked, now) && now >= ZERO
    requires trimmed == Trimmed(b, now - window)
    ensures SumWithin(past, now - window, now) == trimmed.used
    ensures used > trimmed.used ==>
              Follows(AddEvent(trimmed, now, used - trimmed.used), window,
                      past + [UsageEvent(now, used - trimmed.used)], blocked, now)
  {
    UsedIsWindow(b, window, past, blocked, now, now);
    TrimmedOk(b, now - window, now);
    TrimmedFollows(b, window, past, blocked, now);
    if used > trimmed.used {
      AddedFollows(trimmed, window, past, blocked, now, used - trimmed.used);
    }
  }

  lemma ObserveRefines(t: Tracked, r: Reference, key: string, used: int, q: Reference)
    requires Safe(t) && Refines(t, r) && q == Move(r, Observe(t.clock, key, used))
    ensures Refines(t.(backend := ObserveUsed(t.backend, t.clock, key, used)), q)
  {
    if key in t.backend.rules {
      UsedIsNotNegative(t, r, t.clock, key);
      if used >= 0 {
        var trimmed := Trimmed(Stored(t.backend, key), t.clock - t.backend.rules[key].window);
        ObserveIs(t.backend, t.clock, key, used, trimmed);
        ObserveFollows(t, r, key, used, trimmed);
        if used > trimmed.used {
          ReplaceRefines(t, r, key, AddEvent(trimmed, t.clock, used - trimmed.used), q);
        } else {
          ReadRefines(t, r, key);
        }
      }
    }
  }

  // ---------- Blocks ----------

  /** Exactly the named rules are blocked, each until the later of before and now. */
  lemma {:induction false} BlockIsExact(s: Backend, keys: seq<string>, until: int, k: string)
    ensures Block(s, keys, until).rules == s.rules
    ensures Stored(Block(s, keys, until), k)
         == if k in keys then Stored(s, k).(blockedUntil := Max(Stored(s, k).blockedUntil, until)) else Stored(s, k)
    decreases keys
  {
    if keys != [] {
      var b := Stored(s, keys[0]);
      BlockIsExact(s.(buckets := s.buckets[keys[0] :=
        if until > b.blockedUntil then b.(blockedUntil := until) else b]), keys[1..], until, k);
      assert keys == [keys[0]] + keys[1..];
    }
  }

  /** `BlockFor`: with a positive duration and known rules, every named rule is blocked until the
      later of its old block and now + duration; events, counts and other rules stay as they were.
      Otherwise nothing changes. */
  lemma BlockForIsExact(s: Backend, now: int, keys: seq<string>, duration: int, k: string)
    ensures var known := forall i | 0 <= i < |keys| :: keys[i] in s.rules;
            var t := BlockFor(s, now, keys, duration);
            && (duration > 0 && known ==>
                  && t.rules == s.rules
                  && Stored(t, k).events == Stored(s, k).events && Stored(t, k).used == Stored(s, k).used
                  && Stored(t, k).blockedUntil
                     == if k in keys then Max(Stored(s, k).blockedUntil, now + duration) else Stored(s, k).blockedUntil)
            && (duration <= 0 || !known ==> t == s)
  {
    BlockIsExact(s, keys, now + duration, k);
  }

  lemma BlockRefines(t: Tracked, r: Reference, now: int, keys: seq<string>, duration: int, u: Tracked, q: Reference)
    requires Refines(t, r) && u == Perform(t, BlockKeys(now, keys, duration))
    requires q == Move(r, BlockKeys(now, keys, duration))
    ensures Refines(u, q)
  {
    forall k {:trigger KeyFollows(u, q, k)} ensures KeyFollows(u, q, k) {
      assert KeyFollows(t, r, k);
      BlockForIsExact(t.backend, now, keys, duration, k);
    }
    BlockForIsExact(t.backend, now, keys, duration, "");
  }

  lemma SetRuleRefines(t: Tracked, r: Reference, rule: Rule, u: Tracked, q: Reference)
    requires Safe(t) && Refines(t, r) && u == Perform(t, SetRuleTo(rule)) && q == Move(r, SetRuleTo(rule))
    ensures Refines(u, q)
  {
    if ValidRule(rule) {
      forall k {:trigger KeyFollows(u, q, k)} ensures KeyFollows(u, q, k) {
        assert KeyFollows(t, r, k);
      }
      SameRuleKeeps(t, rule);
    }
  }

  lemma SameRuleKeeps(t: Tracked, rule: Rule)
    requires RulesOk(t.backend)
    ensures rule.key in t.backend.rules ==>
              (t.backend.rules[rule.key] == rule <==>
                 t.backend.rules[rule.key].limit == rule.limit && t.backend.rules[rule.key].window == rule.window)
  {
  }

  lemma MoveRefines(t: Tracked, r: Reference, op: Operation)
    requires Safe(t) && Refines(t, r) && Allowed(t, op)
    ensures Refines(Perform(t, op), Move(r, op))
  {
    match op
    case SetRuleTo(rule) => SetRuleRefines(t, r, rule, Perform(t, op), Move(r, op));
    case Acquire(now, charges) =>
      SafeLater(t, now);
      RefinesLater(t, r, now);
      AcquireRefines(t.(clock := now), r, charges, Perform(t.(clock := now), op), Move(r, op));
    case Observe(now, key, used) =>
      SafeLater(t, now);
      RefinesLater(t, r, now);
      ObserveRefines(t.(clock := now), r, key, used, Move(r, op));
    case BlockKeys(now, keys, duration) => BlockRefines(t, r, now, keys, duration, Perform(t, op), Move(r, op));
    case ReadSnapshot(now, key) =>
      SafeLater(t, now);
      RefinesLater(t, r, now);
      ReadRefines(t.(clock := now), r, key);
  }

  // ---------- Whole runs ----------

  /** Over every run of rule changes, acquisitions, reports, blocks and reads the limiter stays in
      step with the reference. */
  lemma {:induction false} RunRefines(ops: seq<Operation>)
    requires AllowedRun(ops)
    ensures Refines(RunOf(ops), ReferenceOf(ops))
  {
    if ops != [] {
      var front := ops[..|ops| - 1];
      RunRefines(front);
      RunIsSafe(front);
      MoveRefines(RunOf(front), ReferenceOf(front), ops[|ops| - 1]);
    } else {
      forall k {:trigger KeyFollows(NOTHING_YET, NOTHING_PAST, k)} ensures KeyFollows(NOTHING_YET, NOTHING_PAST, k) {
      }
    }
  }

  /** After every run an acquisition is granted if and only if each of its charges has a rule that is
      not blocked and whose window still has room for it, counting all that was ever charged or
      reported since the rule's last change. */
  lemma GrantedExactlyWhenFitting(ops: seq<Operation>, now: int, charges: seq<Charge>)
    requires AllowedRun(ops) && Allowed(RunOf(ops), Acquire(now, charges))
    ensures TryAcquire(RunOf(ops).backend, now, charges).1 == Outcome.Acquired
       <==> Grants(ReferenceOf(ops), now, charges)
  {
    RunRefines(ops);
    RunIsSafe(ops);
    GrantedIff(RunOf(ops), ReferenceOf(ops), now, charges);
  }

  /** The events of the window. */
  ghost function Within(past: seq<UsageEvent>, from: int): seq<UsageEvent> {
    if past == [] then []
    else (if past[0].at > from then [past[0]] else []) + Within(past[1..], from)
  }

  lemma {:induction false} KeptIsWithin(past: seq<UsageEvent>, cutoff: int)
    requires Sorted(past)
    ensures DropExpired(past, cutoff) == Within(past, cutoff)
  {
    if past != [] {
      KeptIsWithin(past[1..], cutoff);
      if past[0].at > cutoff {
        assert DropExpired(past[1..], cutoff) == past[1..] by {
          assert |past| > 1 ==> past[1..][0].at >= past[0].at;
        }
      }
    }
  }

  lemma SnapshotIs(s: Backend, now: int, key: string)
    requires RulesOk(s) && key in s.rules
    ensures Snapshot(s, now, key).rules == s.rules
    ensures Stored(Snapshot(s, now, key), key) == Trimmed(Stored(s, key), now - s.rules[key].window)
  {
  }

  lemma ReadBucket(t: Tracked, r: Reference, now: int, key: string, b: Bucket)
    requires Safe(t) && Refines(t, r) && t.clock <= now && key in r.rules
    requires b == Trimmed(Stored(t.backend, key), now - r.rules[key].window)
    ensures b.events == Within(r.past(key), now - r.rules[key].window)
    ensures b.used == UsedAt(r, key, now) && b.blockedUntil == r.blocked(key)
  {
    KeyState(t, r, key);
    ReadFollowing(Stored(t.backend, key), r.rules[key].window, r.past(key), r.blocked(key), t.clock, now);
  }

  lemma ReadFollowing(b: Bucket, window: int, past: seq<UsageEvent>, blocked: int, clock: int, now: int)
    requires BucketOk(b, clock) && Follows(b, window, past, blocked, clock) && clock <= now
    ensures Trimmed(b, now - window).events == Within(past, now - window)
    ensures Trimmed(b, now - window).used == SumWithin(past, now - window, now)
    ensures Trimmed(b, now - window).blockedUntil == blocked
  {
    UsedIsWindow(b, window, past, blocked, clock, now);
    KeptIsWithin(past, now - window);
  }

  /** What is read after every run: the rule, all units of its window, when the first of them was
      charged or reported, and the latest block. */
  lemma ReadingIsExact(ops: seq<Operation>, now: int, key: string, r: Reference, s: Backend, reading: Reading)
    requires AllowedRun(ops) && RunOf(ops).clock <= now && r == ReferenceOf(ops) && key in r.rules
    requires s == Snapshot(RunOf(ops).backend, now, key)
    requires key in s.rules && reading == ReadingOf(s.rules[key], Stored(s, key))
    ensures reading.rule == r.rules[key] && reading.used == UsedAt(r, key, now)
    ensures reading.blockedUntil == r.blocked(key)
    ensures var counted := Within(r.past(key), now - r.rules[key].window);
            reading.windowStart == if counted == [] then ZERO else counted[0].at
  {
    RunRefines(ops);
    RunIsSafe(ops);
    SnapshotIs(RunOf(ops).backend, now, key);
    ReadBucket(RunOf(ops), r, now, key, Stored(s, key));
  }

  // ---------- How long a block lasts ----------

  ghost predicate NoRuleChange(ops: seq<Operation>, more: seq<Operation>, k: string) {
    more != [] ==>
      var front := more[..|more| - 1];
      NoRuleChange(ops, front, k) && !ChangesRule(RunOf(ops + front), more[|more| - 1], k)
  }

  lemma {:induction false} BlockStays(ops: seq<Operation>, more: seq<Operation>, k: string)
    requires AllowedRun(ops + more) && NoRuleChange(ops, more, k)
    ensures AllowedRun(ops)
    ensures Stored(RunOf(ops + more).backend, k).blockedUntil >= Stored(RunOf(ops).backend, k).blockedUntil
    decreases |more|
  {
    if more == [] {
      assert ops + more == ops;
    } else {
      var front, all := more[..|more| - 1], ops + more;
      assert all[..|all| - 1] == ops + front && all[|all| - 1] == more[|more| - 1];
      BlockStays(ops, front, k);
      RunIsSafe(ops + front);
      BlockLasts(RunOf(ops + front), more[|more| - 1], k);
    }
  }

  /** A block lasts its whole duration: whatever happens after it except a change of the rule, until
      now + duration no acquisition that names the rule is granted. */
  lemma BlockLastsItsDuration(
    ops: seq<Operation>, now: int, keys: seq<string>, duration: int, k: string, more: seq<Operation>,
    at: int, charges: seq<Charge>)
    requires duration > 0 && k in keys && forall i | 0 <= i < |keys| :: keys[i] in RunOf(ops).backend.rules
    requires var run := ops + [BlockKeys(now, keys, duration)];
             && AllowedRun(run + more) && NoRuleChange(run, more, k)
             && Allowed(RunOf(run + more), Acquire(at, charges))
    requires Mentions(charges, k) && at < now + duration
    ensures TryAcquire(RunOf(ops + [BlockKeys(now, keys, duration)] + more).backend, at, charges).1 != Outcome.Acquired
  {
    var run := ops + [BlockKeys(now, keys, duration)];
    assert run[..|run| - 1] == ops;
    BlockForIsExact(RunOf(ops).backend, now, keys, duration, k);
    BlockStays(run, more, k);
    RunIsSafe(run + more);
    BlockedIsRefused(RunOf(run + more), at, charges, k);
  }
}
