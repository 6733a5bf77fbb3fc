/** The rolling-window request limiter (ratelimit/limiter.go) as functions from state to state:
    one bucket of timed usage events per rule, charged atomically for several rules at once.

    A time is a whole number of nanoseconds since Go's zero time; `ZERO` is that zero time, and
    a clock reading is never before it. */
module Limits {
  import opened Integers

  const ZERO := 0

  datatype Rule = Rule(key: string, limit: int, window: int)

  datatype Charge = Charge(key: string, units: int)

  datatype UsageEvent = UsageEvent(at: int, units: int)

  datatype Bucket = Bucket(events: seq<UsageEvent>, used: int, blockedUntil: int)

  const EMPTY_BUCKET := Bucket([], 0, ZERO)

  datatype Backend = Backend(rules: map<string, Rule>, buckets: map<string, Bucket>)

  const NO_RULES := Backend(map[], map[])

  predicate ValidRule(rule: Rule) {
    rule.key != "" && rule.limit > 0 && rule.window > 0
  }

  // ---------- Sums of events ----------

  ghost function Sum(events: seq<UsageEvent>): int {
    if events == [] then 0 else events[0].units + Sum(events[1..])
  }

  /** The units of the events after an instant. */
  ghost function SumAfter(events: seq<UsageEvent>, cutoff: int): int {
    if events == [] then 0
    else (if events[0].at > cutoff then events[0].units else 0) + SumAfter(events[1..], cutoff)
  }

  ghost predicate Sorted(events: seq<UsageEvent>) {
    forall i, j | 0 <= i < j < |events| :: events[i].at <= events[j].at
  }

  ghost predicate PositiveUnits(events: seq<UsageEvent>) {
    forall i | 0 <= i < |events| :: events[i].units > 0
  }

  ghost predicate NotAfter(events: seq<UsageEvent>, clock: int) {
    forall i | 0 <= i < |events| :: ZERO <= events[i].at <= clock
  }

  // ---------- Buckets ----------

  /** The events that have not left the window; those that left form a prefix. */
  ghost function DropExpired(events: seq<UsageEvent>, cutoff: int): seq<UsageEvent> {
    if events != [] && events[0].at <= cutoff then DropExpired(events[1..], cutoff) else events
  }

  ghost function Trimmed(b: Bucket, cutoff: int): Bucket {
    var rest := DropExpired(b.events, cutoff);
    b.(events := rest, used := b.used - (Sum(b.events) - Sum(rest)))
  }

  ghost function Stored(s: Backend, key: string): Bucket {
    if key in s.buckets then s.buckets[key] else EMPTY_BUCKET
  }

  /** `bucketFor`: the bucket of a rule with its expired events removed, in place. */
  ghost function BucketFor(s: Backend, rule: Rule, now: int): Backend {
    s.(buckets := s.buckets[rule.key := Trimmed(Stored(s, rule.key), now - rule.window)])
  }

  /** `eventExpiration`: when the oldest events worth that many units will have left. */
  function EventExpiration(events: seq<UsageEvent>, units: int, window: int): int
    decreases events
  {
    if events == [] then ZERO
    else if units - events[0].units <= 0 then events[0].at + window
    else EventExpiration(events[1..], units - events[0].units, window)
  }

  /** Until when one charge has to wait, `ZERO` for not at all. */
  ghost function ChargeWait(b: Bucket, rule: Rule, now: int, units: int): int {
    var blocked := if b.blockedUntil > now then b.blockedUntil else ZERO;
    var excess := b.used + units - rule.limit;
    if excess > 0 then Max(blocked, EventExpiration(b.events, excess, rule.window)) else blocked
  }

  // ---------- tryAcquire ----------

  datatype Outcome = Acquired | WaitUntil(at: int) | UnknownRule(key: string) | TooLarge(key: string)

  /** The checking loop: trims the bucket of every charge it looks at and collects the wait. */
  ghost function Check(s: Backend, now: int, charges: seq<Charge>, wait: int): (Backend, Outcome)
    decreases charges
  {
    if charges == [] then (s, if wait == ZERO then Acquired else WaitUntil(wait))
    else
      var charge := charges[0];
      if charge.key !in s.rules then (s, UnknownRule(charge.key))
      else
        var rule := s.rules[charge.key];
        if charge.units > rule.limit then (s, TooLarge(charge.key))
        else
          var t := BucketFor(s, rule, now);
          Check(t, now, charges[1..], Max(wait, ChargeWait(Stored(t, rule.key), rule, now, charge.units)))
  }

  ghost function AddEvent(b: Bucket, now: int, units: int): Bucket {
    b.(events := b.events + [UsageEvent(now, units)], used := b.used + units)
  }

  /** The charging loop. */
  ghost function Take(s: Backend, now: int, charges: seq<Charge>): (t: Backend)
    requires forall i | 0 <= i < |charges| :: charges[i].key in s.rules
    ensures t.rules == s.rules
    decreases charges
  {
    if charges == [] then s
    else
      var rule := s.rules[charges[0].key];
      var t := BucketFor(s, rule, now);
      Take(t.(buckets := t.buckets[rule.key := AddEvent(Stored(t, rule.key), now, charges[0].units)]),
           now, charges[1..])
  }

  ghost function TryAcquire(s: Backend, now: int, charges: seq<Charge>): (r: (Backend, Outcome))
    ensures r.0.rules == s.rules
  {
    CheckKnows(s, now, charges, ZERO);
    var (t, outcome) := Check(s, now, charges, ZERO);
    if outcome == Acquired then (Take(t, now, charges), Acquired) else (t, outcome)
  }

  lemma {:induction false} CheckKnows(s: Backend, now: int, charges: seq<Charge>, wait: int)
    ensures Check(s, now, charges, wait).0.rules == s.rules
    ensures Check(s, now, charges, wait).1 == Acquired ==>
              forall i | 0 <= i < |charges| :: charges[i].key in s.rules
    decreases charges
  {
    if charges != [] && charges[0].key in s.rules && charges[0].units <= s.rules[charges[0].key].limit {
      var rule := s.rules[charges[0].key];
      var t := BucketFor(s, rule, now);
      CheckKnows(t, now, charges[1..],
                 Max(wait, ChargeWait(Stored(t, rule.key), rule, now, charges[0].units)));
      assert forall i | 1 <= i < |charges| :: charges[i] == charges[1..][i - 1];
    }
  }

  // ---------- The other operations ----------

  ghost function SetRule(s: Backend, rule: Rule): Backend {
    var changed := rule.key !in s.rules
                   || s.rules[rule.key].limit != rule.limit || s.rules[rule.key].window != rule.window;
    Backend(s.rules[rule.key := rule],
            if changed then s.buckets[rule.key := EMPTY_BUCKET] else s.buckets)
  }

  /** What the exchange reported can only raise the local count. */
  ghost function ObserveUsed(s: Backend, now: int, key: string, used: int): Backend {
    if used < 0 || key !in s.rules then s
    else
      var t := BucketFor(s, s.rules[key], now);
      var b := Stored(t, s.rules[key].key);
      if used > b.used then t.(buckets := t.buckets[key := AddEvent(b, now, used - b.used)]) else t
  }

  ghost function Block(s: Backend, keys: seq<string>, until: int): Backend
    decreases keys
  {
    if keys == [] then s
    else
      var b := Stored(s, keys[0]);
      Block(s.(buckets := s.buckets[keys[0] :=
        if until > b.blockedUntil then b.(blockedUntil := until) else b]), keys[1..], until)
  }

  ghost predicate AllKnown(s: Backend, keys: seq<string>) {
    forall i | 0 <= i < |keys| :: keys[i] in s.rules
  }

  ghost function BlockFor(s: Backend, now: int, keys: seq<string>, duration: int): Backend {
    if duration <= 0 || !AllKnown(s, keys) then s else Block(s, keys, now + duration)
  }

  /** Reading a snapshot trims the bucket too. */
  ghost function Snapshot(s: Backend, now: int, key: string): Backend {
    if key !in s.rules then s else BucketFor(s, s.rules[key], now)
  }

  datatype Reading = Reading(rule: Rule, windowStart: int, used: int, blockedUntil: int)

  ghost function ReadingOf(rule: Rule, b: Bucket): Reading {
    Reading(rule, if b.events == [] then ZERO else b.events[0].at, b.used, b.blockedUntil)
  }
}
