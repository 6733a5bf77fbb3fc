/** The in-process limiter backend (ratelimit/limiter.go) in its own form: rules and buckets that
    the methods change under one lock, each method body being one lock section. */
module MemoryBackend {
  import opened Results
  import opened Limits
  import opened LimitRuns

  class Memory {
    var rules: map<string, Rule>
    var buckets: map<string, Bucket>

    ghost function Abs(): Backend
      reads this
    {
      Backend(rules, buckets)
    }

    constructor ()
      ensures Abs() == NO_RULES
    {
      rules, buckets := map[], map[];
    }

    method SetRule(rule: Rule)
      modifies this
      ensures Abs() == Limits.SetRule(old(Abs()), rule)
    {
      var changed := rule.key !in rules
                     || rules[rule.key].limit != rule.limit || rules[rule.key].window != rule.window;
      rules := rules[rule.key := rule];
      if changed {
        buckets := buckets[rule.key := EMPTY_BUCKET];
      }
    }

    /** Drop the events at or before the cutoff and take their units off the running count. */
    method BucketFor(rule: Rule, now: int) returns (state: Bucket)
      modifies this`buckets
      ensures Abs() == Limits.BucketFor(old(Abs()), rule, now)
      ensures rule.key in buckets && state == buckets[rule.key]
    {
      state := if rule.key in buckets then buckets[rule.key] else EMPTY_BUCKET;
      var cutoff := now - rule.window;
      ghost var events := state.events;
      var first, used := 0, state.used;
      assert events[0..] == events;
      while first < |state.events| && state.events[first].at <= cutoff
        invariant first <= |state.events|
        invariant DropExpired(events[first..], cutoff) == DropExpired(events, cutoff)
        invariant used == state.used - (Sum(events) - Sum(events[first..]))
      {
        assert events[first..][1..] == events[first + 1..];
        used := used - state.events[first].units;
        first := first + 1;
      }
      state := state.(events := state.events[first..], used := used);
      buckets := buckets[rule.key := state];
    }

    method ExpirationOf(events: seq<UsageEvent>, units: int, window: int) returns (at: int)
      ensures at == EventExpiration(events, units, window)
    {
      var remaining := units;
      assert events[0..] == events;
      for i := 0 to |events|
        invariant EventExpiration(events[i..], remaining, window) == EventExpiration(events, units, window)
      {
        assert events[i..][1..] == events[i + 1..];
        remaining := remaining - events[i].units;
        if remaining <= 0 {
          return events[i].at + window;
        }
      }
      return ZERO;
    }

    /** Look at every charge before charging any. */
    method CheckCharges(now: int, charges: seq<Charge>) returns (outcome: Outcome)
      modifies this`buckets
      ensures (Abs(), outcome) == Check(old(Abs()), now, charges, ZERO)
    {
      var waitUntil := ZERO;
      assert charges[0..] == charges;
      for i := 0 to |charges|
        invariant rules == old(rules) && waitUntil >= ZERO
        invariant Check(Abs(), now, charges[i..], waitUntil) == Check(old(Abs()), now, charges, ZERO)
      {
        var charge := charges[i];
        assert charges[i..][1..] == charges[i + 1..];
        if charge.key !in rules {
          return UnknownRule(charge.key);
        }
        var rule := rules[charge.key];
        if charge.units > rule.limit {
          return TooLarge(charge.key);
        }
        var state := BucketFor(rule, now);
        if state.blockedUntil > now && state.blockedUntil > waitUntil {
          waitUntil := state.blockedUntil;
        }
        var excess := state.used + charge.units - rule.limit;
        if excess > 0 {
          var expiresAt := ExpirationOf(state.events, excess, rule.window);
          if expiresAt > waitUntil {
            waitUntil := expiresAt;
          }
        }
      }
      return if waitUntil != ZERO then WaitUntil(waitUntil) else Acquired;
    }

    method TakeCharges(now: int, charges: seq<Charge>)
      requires forall i | 0 <= i < |charges| :: charges[i].key in rules
      modifies this`buckets
      ensures Abs() == Take(old(Abs()), now, charges)
    {
      assert charges[0..] == charges;
      for i := 0 to |charges|
        invariant rules == old(rules)
        invariant Take(Abs(), now, charges[i..]) == Take(old(Abs()), now, charges)
      {
        var charge := charges[i];
        assert charges[i..][1..] == charges[i + 1..];
        var rule := rules[charge.key];
        var state := BucketFor(rule, now);
        buckets := buckets[rule.key := state.(
          events := state.events + [UsageEvent(now, charge.units)], used := state.used + charge.units)];
      }
    }

    /** All charges or none, in one lock section. */
    method TryAcquire(now: int, charges: seq<Charge>) returns (outcome: Outcome)
      modifies this`buckets
      ensures (Abs(), outcome) == Limits.TryAcquire(old(Abs()), now, charges)
    {
      CheckKnows(Abs(), now, charges, ZERO);
      outcome := CheckCharges(now, charges);
      if outcome == Acquired {
        TakeCharges(now, charges);
      }
    }

    method ObserveUsed(now: int, key: string, used: int) returns (ok: bool)
      requires RulesOk(Abs())
      modifies this`buckets
      ensures ok <==> used >= 0 && key in rules
      ensures Abs() == Limits.ObserveUsed(old(Abs()), now, key, used)
    {
      if used < 0 || key !in rules {
        return false;
      }
      var state := BucketFor(rules[key], now);
      if used > state.used {
        buckets := buckets[key := state.(
          events := state.events + [UsageEvent(now, used - state.used)], used := used)];
      }
      return true;
    }

    method BlockFor(now: int, keys: seq<string>, duration: int) returns (ok: bool)
      modifies this`buckets
      ensures ok <==> duration > 0 && AllKnown(old(Abs()), keys)
      ensures Abs() == Limits.BlockFor(old(Abs()), now, keys, duration)
    {
      if duration <= 0 {
        return false;
      }
      var until := now + duration;
      for i := 0 to |keys|
        invariant forall j | 0 <= j < i :: keys[j] in rules
      {
        if keys[i] !in rules {
          return false;
        }
      }
      assert keys[0..] == keys;
      for i := 0 to |keys|
        invariant rules == old(rules)
        invariant Block(Abs(), keys[i..], until) == Block(old(Abs()), keys, until)
      {
        assert keys[i..][1..] == keys[i + 1..];
        var state := if keys[i] in buckets then buckets[keys[i]] else EMPTY_BUCKET;
        if until > state.blockedUntil {
          state := state.(blockedUntil := until);
        }
        buckets := buckets[keys[i] := state];
      }
      return true;
    }

    /** What `Snapshot` reports: the rule, when the oldest usage that still counts happened, how much
        was charged or reported inside the current window, and until when the rule is blocked. */
    method ReadSnapshot(now: int, key: string) returns (r: Option<Reading>)
      requires RulesOk(Abs())
      modifies this`buckets
      ensures r.Some? <==> key in rules
      ensures r.Some? ==> r.value == ReadingOf(rules[key], Stored(Abs(), key))
      ensures Abs() == Snapshot(old(Abs()), now, key)
    {
      if key !in rules {
        return None;
      }
      var rule := rules[key];
      var state := BucketFor(rule, now);
      var windowStart := ZERO;
      if |state.events| > 0 {
        windowStart := state.events[0].at;
      }
      return Some(Reading(rule, windowStart, state.used, state.blockedUntil));
    }
  }
}
