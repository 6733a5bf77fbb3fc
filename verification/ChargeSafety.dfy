/** The window guarantee for the charges callers write (ratelimit/limiter.go), which are normalised
    before the limiter's lock section sees them. */
module ChargeSafety {
  import opened Texts
  import opened Integers
  import opened Limits
  import opened LimitRuns
  import opened LimitSafety
  import opened ChargeNormalization

  /** What the limiter's normalisation makes of charges whose totals fit: distinct keys, positive
      units, and for every key what the caller asked for. */
  lemma NormalizedIsExact(charges: seq<Charge>, normalized: seq<Charge>)
    requires ValidCharges(charges) && IsNormalized(charges, normalized) && TotalsFit(charges)
    ensures DistinctKeys(normalized)
    ensures forall c | c in normalized :: c.units == Total(charges, c.key) > 0
  {
    AscendingKeysAreDistinct(normalized);
    forall c | c in normalized ensures c.units == Total(charges, c.key) > 0 {
      assert c.key in (set d | d in normalized :: d.key);
      ExactIffTotalFits(charges, c.key);
    }
  }

  /** An operation as it reaches the lock section, with the charges the caller wrote. */
  datatype Request = Request(op: Operation, written: seq<Charge>)

  ghost function Operations(requests: seq<Request>): seq<Operation> {
    seq(|requests|, i requires 0 <= i < |requests| => requests[i].op)
  }

  /** An acquisition charges what the normalisation makes of valid charges whose totals fit. */
  ghost predicate FromCaller(request: Request) {
    request.op.Acquire? ==>
      && ValidCharges(request.written) && TotalsFit(request.written)
      && IsNormalized(request.written, request.op.charges)
  }

  ghost predicate InOrder(requests: seq<Request>) {
    requests != [] ==>
      var front, last := requests[..|requests| - 1], requests[|requests| - 1];
      InOrder(front) && FromCaller(last) && ClockOk(RunOf(Operations(front)), last.op)
  }

  lemma {:induction false} CallersRunIsAllowed(requests: seq<Request>)
    requires InOrder(requests)
    ensures AllowedRun(Operations(requests))
  {
    if requests != [] {
      var front, last := requests[..|requests| - 1], requests[|requests| - 1];
      CallersRunIsAllowed(front);
      var ops := Operations(requests);
      assert ops[..|ops| - 1] == Operations(front) && ops[|ops| - 1] == last.op;
      if last.op.Acquire? {
        NormalizedIsExact(last.written, last.op.charges);
        assert forall i | 0 <= i < |last.op.charges| :: last.op.charges[i] in last.op.charges;
      }
    }
  }

  /** Whatever callers charge, as long as no total leaves 64 bits: no window ever holds more
      acquired units than its rule allows. */
  lemma CallersStayWithinLimit(requests: seq<Request>, key: string, at: int)
    requires InOrder(requests) && key in RunOf(Operations(requests)).backend.rules
    ensures var t := RunOf(Operations(requests));
            var rule := t.backend.rules[key];
            SumWithin(LimitSafety.Acquired(t, key), at - rule.window, at) <= rule.limit
  {
    CallersRunIsAllowed(requests);
    NoWindowExceedsLimit(Operations(requests), key, at);
  }

  lemma OneChargeGranted(s: Backend, now: int, charge: Charge, rule: Rule, b: Bucket)
    requires charge.key in s.rules && rule == s.rules[charge.key] && rule.key == charge.key
    requires b == Trimmed(Stored(s, charge.key), now - rule.window) && b == Trimmed(b, now - rule.window)
    requires b.blockedUntil <= now && charge.units <= rule.limit && b.used + charge.units <= rule.limit
    ensures var (t, outcome) := TryAcquire(s, now, [charge]);
            outcome == Outcome.Acquired && Stored(t, charge.key) == AddEvent(b, now, charge.units)
  {
    var trimmed := BucketFor(s, rule, now);
    assert [charge][1..] == [];
    assert Check(trimmed, now, [], ZERO) == (trimmed, Outcome.Acquired);
    assert Check(s, now, [charge], ZERO) == (trimmed, Outcome.Acquired);
    var again := BucketFor(trimmed, rule, now);
    assert Stored(again, rule.key) == b;
    var taken := again.(buckets := again.buckets[rule.key := AddEvent(b, now, charge.units)]);
    assert Take(trimmed, now, [charge]) == Take(taken, now, []) == taken;
  }

  /** Without the condition on totals the guarantee fails: once a rule is used up, two valid
      charges of together 2^63 units are granted at once unless it is blocked, and its count falls
      by 2^63. */
  lemma HugeChargesLowerUsage(s: Backend, now: int, key: string, rule: Rule, used: int)
    requires BackendOk(s, now) && key in s.rules && TrimSpace(key) == key && rule == s.rules[key]
    requires Stored(s, key).blockedUntil <= now
    requires used == Trimmed(Stored(s, key), now - rule.window).used && rule.limit <= used <= MAX_INT64
    ensures var written, charges := [Charge(key, MAX_INT64), Charge(key, 1)], [Charge(key, -MAX_INT64 - 1)];
            && ValidCharges(written) && UnitsInRange(written) && IsNormalized(written, charges)
            && var (t, outcome) := TryAcquire(s, now, charges);
               outcome == Outcome.Acquired && Stored(t, key).used == used - MAX_INT64 - 1
  {
    HugeChargesWrap(key);
    var b := Stored(s, key);
    assert BucketOk(b, now);
    TrimTwice(b, now - rule.window, now - rule.window, now);
    OneChargeGranted(s, now, Charge(key, -MAX_INT64 - 1), rule, Trimmed(b, now - rule.window));
  }
}
