/** `normalizeCharges` (ratelimit/limiter.go): one charge per rule key, in key order. Go adds the
    units of equal keys in 64-bit integers, so the sum can wrap; the results say exactly when. */
module ChargeNormalization {
  import opened Results
  import opened Texts
  import opened Integers
  import opened Sorting
  import opened Limits
  import opened LimitRuns

  ghost predicate ValidCharge(charge: Charge) {
    TrimSpace(charge.key) != "" && charge.units > 0
  }

  ghost predicate ValidCharges(charges: seq<Charge>) {
    forall i {:trigger ValidCharge(charges[i])} | 0 <= i < |charges| :: ValidCharge(charges[i])
  }

  ghost predicate UnitsInRange(charges: seq<Charge>) {
    forall i | 0 <= i < |charges| :: charges[i].units <= MAX_INT64
  }

  /** What the caller asked for under a key, as a mathematical sum. */
  ghost function Total(charges: seq<Charge>, key: string): int {
    if charges == [] then 0
    else
      var last := charges[|charges| - 1];
      Total(charges[..|charges| - 1], key) + (if TrimSpace(last.key) == key then last.units else 0)
  }

  ghost function Keys(charges: seq<Charge>): set<string> {
    set i | 0 <= i < |charges| :: TrimSpace(charges[i].key)
  }

  lemma WrapAdd(x: int, y: int)
    ensures Wrap64(Wrap64(x) + y) == Wrap64(x + y)
  {
  }

  predicate KeyOrder(a: Charge, b: Charge) {
    LexLess(a.key, b.key)
  }

  function ValueOr0(combined: map<string, int>, key: string): int {
    if key in combined then combined[key] else 0
  }

  ghost predicate SumsUp(combined: map<string, int>, charges: seq<Charge>, key: string) {
    ValueOr0(combined, key) == Wrap64(Total(charges, key))
  }

  /** The map adds up the charges seen so far, as Go does. */
  ghost predicate Combines(combined: map<string, int>, charges: seq<Charge>) {
    && combined.Keys == Keys(charges)
    && forall k {:trigger SumsUp(combined, charges, k)} :: SumsUp(combined, charges, k)
  }

  lemma CombineStep(combined: map<string, int>, charges: seq<Charge>, charge: Charge, next: map<string, int>)
    requires Combines(combined, charges)
    requires next == combined[TrimSpace(charge.key) :=
                                Wrap64(ValueOr0(combined, TrimSpace(charge.key)) + charge.units)]
    ensures Combines(next, charges + [charge])
  {
    KeysSnoc(charges, charge);
    var after := charges + [charge];
    forall k ensures SumsUp(next, after, k) {
      assert SumsUp(combined, charges, k);
      TotalSnoc(charges, charge, k);
      if k == TrimSpace(charge.key) {
        WrapAdd(Total(charges, k), charge.units);
      }
    }
  }

  lemma TotalSnoc(charges: seq<Charge>, charge: Charge, key: string)
    ensures Total(charges + [charge], key)
         == Total(charges, key) + (if TrimSpace(charge.key) == key then charge.units else 0)
  {
    assert (charges + [charge])[..|charges|] == charges;
  }

  lemma KeysSnoc(charges: seq<Charge>, charge: Charge)
    ensures Keys(charges + [charge]) == Keys(charges) + {TrimSpace(charge.key)}
  {
    var after := charges + [charge];
    forall i | 0 <= i < |charges| ensures TrimSpace(charges[i].key) in Keys(after) {
      assert after[i] == charges[i];
    }
    assert after[|charges|] == charge;
  }

  lemma ValidSnoc(charges: seq<Charge>, charge: Charge)
    requires ValidCharges(charges) && ValidCharge(charge)
    ensures ValidCharges(charges + [charge])
  {
  }

  /** The first loop: add up the units of equal keys. */
  method CombineCharges(charges: seq<Charge>) returns (valid: bool, combined: map<string, int>)
    ensures valid <==> ValidCharges(charges)
    ensures valid ==> Combines(combined, charges)
  {
    combined := map[];
    for i := 0 to |charges|
      invariant ValidCharges(charges[..i])
      invariant Combines(combined, charges[..i])
    {
      var charge := charges[i];
      var key := TrimSpace(charge.key);
      if key == "" || charge.units <= 0 {
        assert !ValidCharge(charges[i]);
        return false, combined;
      }
      assert charges[..i + 1] == charges[..i] + [charge];
      ValidSnoc(charges[..i], charge);
      ghost var before := combined;
      combined := combined[key := Wrap64((if key in combined then combined[key] else 0) + charge.units)];
      CombineStep(before, charges[..i], charge, combined);
    }
    assert charges[..|charges|] == charges;
    return true, combined;
  }

  /** One charge for each key in ascending order, with the key's total as Go computes it. */
  ghost predicate IsNormalized(charges: seq<Charge>, normalized: seq<Charge>) {
    && (set c | c in normalized :: c.key) == Keys(charges)
    && (forall c | c in normalized :: c.units == Wrap64(Total(charges, c.key)))
    && (forall i, j | 0 <= i < j < |normalized| :: LexLess(normalized[i].key, normalized[j].key))
  }

  /** One charge per key, ascending, carrying the key's total as Go computes it; an error exactly
      when some charge has a blank key or no positive units. */
  method NormalizeCharges(charges: seq<Charge>) returns (r: Option<seq<Charge>>)
    ensures r.Some? <==> ValidCharges(charges)
    ensures r.Some? ==> IsNormalized(charges, r.value)
  {
    var valid, combined := CombineCharges(charges);
    if !valid {
      return None;
    }
    var result := CollectCharges(combined);
    SortByKey(combined, result);
    var sorted := SortSlice(result, KeyOrder);
    CarriesTotals(charges, combined, sorted);
    return Some(sorted);
  }

  lemma CarriesTotals(charges: seq<Charge>, combined: map<string, int>, sorted: seq<Charge>)
    requires Combines(combined, charges) && SortedBy(sorted, KeyOrder)
    requires forall c :: c in sorted <==> c.key in combined && c.units == combined[c.key]
    ensures forall c | c in sorted :: c.units == Wrap64(Total(charges, c.key))
    ensures forall i, j | 0 <= i < j < |sorted| :: LexLess(sorted[i].key, sorted[j].key)
  {
    forall c | c in sorted ensures c.units == Wrap64(Total(charges, c.key)) {
      assert SumsUp(combined, charges, c.key);
    }
    forall i, j | 0 <= i < j < |sorted| ensures LexLess(sorted[i].key, sorted[j].key) {
      assert KeyOrder(sorted[i], sorted[j]);
    }
  }

  method CollectCharges(combined: map<string, int>) returns (result: seq<Charge>)
    ensures forall c :: c in result <==> c.key in combined && c.units == combined[c.key]
    ensures forall i, j | 0 <= i < j < |result| :: result[i].key != result[j].key
  {
    result := [];
    var pending := combined.Keys;
    while pending != {}
      invariant pending <= combined.Keys
      invariant forall c :: c in result <==>
                  c.key in combined.Keys - pending && c.units == combined[c.key]
      invariant forall i, j | 0 <= i < j < |result| :: result[i].key != result[j].key
    {
      var key :| key in pending;
      assert forall c | c in result :: c.key != key;
      result := result + [Charge(key, combined[key])];
      pending := pending - {key};
    }
  }

  lemma SortByKey(combined: map<string, int>, charges: seq<Charge>)
    requires forall c :: c in charges <==> c.key in combined && c.units == combined[c.key]
    requires forall i, j | 0 <= i < j < |charges| :: charges[i].key != charges[j].key
    ensures var sorted := SortSlice(charges, KeyOrder);
            && (forall c :: c in sorted <==> c.key in combined && c.units == combined[c.key])
            && SortedBy(sorted, KeyOrder)
            && (set c | c in sorted :: c.key) == combined.Keys
  {
    var sorted := SortSlice(charges, KeyOrder);
    forall i, j | 0 <= i < |charges| && 0 <= j < |charges| && i != j
      ensures KeyOrder(charges[i], charges[j]) <==> !KeyOrder(charges[j], charges[i])
    {
      LexTotal(charges[i].key, charges[j].key);
    }
    forall a, b, c | a in charges && b in charges && c in charges && KeyOrder(a, b) && KeyOrder(b, c)
      ensures KeyOrder(a, c)
    {
      LexTransitive(a.key, b.key, c.key);
    }
    SortSliceSorts(charges, KeyOrder);
    forall c ensures c in sorted <==> c in charges {
      SameElements(charges, sorted, c);
    }
    forall k | k in combined ensures k in (set c | c in sorted :: c.key) {
      assert Charge(k, combined[k]) in sorted;
    }
  }

  lemma {:induction false} TotalPositive(charges: seq<Charge>, key: string)
    requires ValidCharges(charges)
    ensures Total(charges, key) >= 0
    ensures key in Keys(charges) ==> Total(charges, key) > 0
  {
    if charges != [] {
      var front := charges[..|charges| - 1];
      assert ValidCharges(front) by {
        forall i {:trigger ValidCharge(front[i])} | 0 <= i < |front| ensures ValidCharge(front[i]) {
          assert ValidCharge(charges[i]);
        }
      }
      assert ValidCharge(charges[|charges| - 1]);
      TotalPositive(front, key);
      if key in Keys(charges) && TrimSpace(charges[|charges| - 1].key) != key {
        var i :| 0 <= i < |charges| && TrimSpace(charges[i].key) == key;
        assert front[i] == charges[i];
      }
    }
  }

  /** A normalised charge asks for exactly what the caller asked for if and only if the caller's
      total for that key fits in 64 bits; then it is also positive. */
  lemma ExactIffTotalFits(charges: seq<Charge>, key: string)
    requires ValidCharges(charges) && key in Keys(charges)
    ensures Wrap64(Total(charges, key)) == Total(charges, key) <==> Total(charges, key) <= MAX_INT64
    ensures Total(charges, key) <= MAX_INT64 ==> Wrap64(Total(charges, key)) > 0
  {
    TotalPositive(charges, key);
  }

  /** Ascending keys are distinct keys, which is what the atomic charge relies on. */
  lemma AscendingKeysAreDistinct(charges: seq<Charge>)
    requires forall i, j | 0 <= i < j < |charges| :: LexLess(charges[i].key, charges[j].key)
    ensures DistinctKeys(charges)
  {
    forall i, j | 0 <= i < j < |charges| ensures charges[i].key != charges[j].key {
      LexTotal(charges[i].key, charges[j].key);
    }
  }

  /** No key's total leaves the range of 64 bits. */
  ghost predicate TotalsFit(charges: seq<Charge>) {
    forall k | k in Keys(charges) :: Total(charges, k) <= MAX_INT64
  }

  /** Two valid charges whose total wraps to the smallest number. */
  lemma HugeChargesWrap(key: string)
    requires key != "" && TrimSpace(key) == key
    ensures var charges := [Charge(key, MAX_INT64), Charge(key, 1)];
            && ValidCharges(charges) && UnitsInRange(charges)
            && IsNormalized(charges, [Charge(key, -MAX_INT64 - 1)])
  {
    var charges := [Charge(key, MAX_INT64), Charge(key, 1)];
    assert charges[..1] == [Charge(key, MAX_INT64)] && charges[..1][..0] == [];
    assert Total(charges[..1], key) == Total(charges[..1][..0], key) + MAX_INT64;
    assert Total(charges, key) == MAX_INT64 + 1;
    assert Keys(charges) == {key} by {
      assert charges[0].key == key;
    }
    assert (set c | c in [Charge(key, -MAX_INT64 - 1)] :: c.key) == {key};
  }
}
