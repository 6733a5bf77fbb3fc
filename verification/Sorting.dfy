/** `sort.Slice` over elements that the comparison tells apart. Go's library sort is not
    part of the repository; an insertion sort stands for it, and because the sorted
    arrangement of distinguishable elements is unique, any other sort gives the same result. */
module Sorting {

  /** No two elements tie, and the comparison is a strict order on them. */
  ghost predicate Comparable<T>(xs: seq<T>, less: (T, T) -> bool) {
    && (forall i, j | 0 <= i < |xs| && 0 <= j < |xs| && i != j ::
          less(xs[i], xs[j]) <==> !less(xs[j], xs[i]))
    && (forall a, b, c | a in xs && b in xs && c in xs :: less(a, b) && less(b, c) ==> less(a, c))
  }

  ghost predicate SortedBy<T>(xs: seq<T>, less: (T, T) -> bool) {
    forall i, j | 0 <= i < j < |xs| :: less(xs[i], xs[j])
  }

  function Insert<T>(x: T, xs: seq<T>, less: (T, T) -> bool): (r: seq<T>)
    ensures multiset(r) == multiset(xs) + multiset{x}
    ensures |r| == |xs| + 1
  {
    if xs == [] || less(x, xs[0]) then [x] + xs
    else
      assert xs == [xs[0]] + xs[1..];
      [xs[0]] + Insert(x, xs[1..], less)
  }

  function SortSlice<T>(xs: seq<T>, less: (T, T) -> bool): (r: seq<T>)
    ensures multiset(r) == multiset(xs)
    ensures |r| == |xs|
  {
    if xs == [] then []
    else
      assert xs == xs[..|xs| - 1] + [xs[|xs| - 1]];
      Insert(xs[|xs| - 1], SortSlice(xs[..|xs| - 1], less), less)
  }

  lemma SameElements<T>(xs: seq<T>, ys: seq<T>, x: T)
    requires multiset(xs) == multiset(ys)
    ensures x in xs <==> x in ys
  {
    assert x in xs <==> x in multiset(xs);
    assert x in ys <==> x in multiset(ys);
  }

  lemma {:induction false} InsertKeepsSorted<T>(x: T, xs: seq<T>, less: (T, T) -> bool)
    requires SortedBy(xs, less)
    requires forall y | y in xs :: less(x, y) <==> !less(y, x)
    requires forall y, z | y in xs && z in xs :: less(x, y) && less(y, z) ==> less(x, z)
    ensures SortedBy(Insert(x, xs, less), less)
  {
    if xs == [] || less(x, xs[0]) {
    } else {
      InsertKeepsSorted(x, xs[1..], less);
      var tail := Insert(x, xs[1..], less);
      forall j | 0 <= j < |tail| ensures less(xs[0], tail[j]) {
        assert tail[j] in multiset(tail);
        assert tail[j] == x || tail[j] in xs[1..];
      }
    }
  }

  lemma {:induction false} SortSliceSorts<T>(xs: seq<T>, less: (T, T) -> bool)
    requires Comparable(xs, less)
    ensures SortedBy(SortSlice(xs, less), less)
  {
    if xs != [] {
      var front, last := xs[..|xs| - 1], xs[|xs| - 1];
      SortSliceSorts(front, less);
      forall y | y in SortSlice(front, less)
        ensures y in xs && (less(last, y) <==> !less(y, last))
      {
        SameElements(front, SortSlice(front, less), y);
        var i :| 0 <= i < |front| && front[i] == y;
        assert xs[i] == y && xs[|xs| - 1] == last;
      }
      InsertKeepsSorted(last, SortSlice(front, less), less);
    }
  }

  /** A strictly sorted arrangement is determined by its elements. */
  lemma {:induction false} SortedIsUnique<T>(xs: seq<T>, ys: seq<T>, less: (T, T) -> bool)
    requires SortedBy(xs, less) && SortedBy(ys, less)
    requires forall a, b | a in xs && b in xs :: !(less(a, b) && less(b, a))
    requires forall x :: x in xs <==> x in ys
    ensures xs == ys
  {
    if xs == [] {
      FirstIsMember(ys);
    } else {
      assert xs[0] in xs && ys != [];
      assert ys[0] in xs;
      FirstPrecedes(xs, less, ys[0]);
      FirstPrecedes(ys, less, xs[0]);
      assert xs[0] == ys[0];
      forall x ensures x in xs[1..] <==> x in ys[1..] {
        TailMembers(xs, less, x);
        TailMembers(ys, less, x);
      }
      SortedIsUnique(xs[1..], ys[1..], less);
    }
  }

  lemma FirstIsMember<T>(xs: seq<T>)
    ensures xs != [] ==> xs[0] in xs
  {
  }

  lemma FirstPrecedes<T>(xs: seq<T>, less: (T, T) -> bool, x: T)
    requires SortedBy(xs, less) && x in xs
    ensures x == xs[0] || less(xs[0], x)
  {
    var i :| 0 <= i < |xs| && xs[i] == x;
  }

  lemma TailMembers<T>(xs: seq<T>, less: (T, T) -> bool, x: T)
    requires xs != [] && SortedBy(xs, less)
    requires !less(xs[0], xs[0])
    ensures x in xs[1..] <==> x in xs && x != xs[0]
  {
    assert xs == [xs[0]] + xs[1..];
    if x in xs[1..] {
      var i :| 0 <= i < |xs[1..]| && xs[1..][i] == x;
      assert less(xs[0], xs[i + 1]);
    }
  }

  // ---------- Arrangements of a set ----------

  /** Go ranges over a map in no particular order. */
  method PickAny<T(==)>(s: set<T>) returns (x: T)
    requires s != {}
    ensures x in s
  {
    x :| x in s;
  }

  /** The same for proofs, which cannot call a method. */
  lemma PickKey<T>(s: set<T>) returns (x: T)
    requires s != {}
    ensures x in s
  {
    x :| x in s;
  }

  ghost function SetOf<T>(xs: seq<T>): set<T> {
    set x | x in xs
  }

  lemma SetOfSnoc<T>(xs: seq<T>, x: T)
    ensures SetOf(xs + [x]) == SetOf(xs) + {x}
  {
  }

  /** Distinct elements fall into those before a position and those from it on. */
  lemma SplitSet<T>(xs: seq<T>, n: nat)
    requires n <= |xs| && forall i, j | 0 <= i < j < |xs| :: xs[i] != xs[j]
    ensures SetOf(xs[..n]) !! SetOf(xs[n..]) && SetOf(xs) == SetOf(xs[..n]) + SetOf(xs[n..])
  {
    assert xs == xs[..n] + xs[n..];
    forall x | x in xs[..n] ensures x !in xs[n..] {
      var i :| 0 <= i < n && xs[i] == x;
      assert forall j | 0 <= j < |xs| - n :: xs[n..][j] == xs[n + j] != xs[i];
    }
  }

  function Backwards<T>(xs: seq<T>): seq<T> {
    seq(|xs|, i requires 0 <= i < |xs| => xs[|xs| - 1 - i])
  }

  lemma SetOfBackwards<T>(xs: seq<T>)
    ensures SetOf(Backwards(xs)) == SetOf(xs)
  {
    forall x | x in xs ensures x in Backwards(xs) {
      var i :| 0 <= i < |xs| && xs[i] == x;
      assert Backwards(xs)[|xs| - 1 - i] == x;
    }
  }

  lemma SetOfSorted<T>(xs: seq<T>, less: (T, T) -> bool)
    ensures SetOf(SortSlice(xs, less)) == SetOf(xs)
  {
    var sorted := SortSlice(xs, less);
    assert multiset(sorted) == multiset(xs);
    forall x ensures x in SetOf(sorted) <==> x in SetOf(xs) {
      SameElements(xs, sorted, x);
    }
    assert SetOf(sorted) == SetOf(xs);
  }

  /** Strictly sorted lists of the same elements are the same list. */
  lemma OneArrangement<T>(xs: seq<T>, ys: seq<T>, less: (T, T) -> bool)
    requires SortedBy(xs, less) && SortedBy(ys, less) && SetOf(xs) == SetOf(ys)
    requires forall a, b | a in xs && b in xs :: !(less(a, b) && less(b, a))
    ensures xs == ys
  {
    forall x ensures x in xs <==> x in ys {
      assert x in SetOf(xs) <==> x in SetOf(ys);
    }
    SortedIsUnique(xs, ys, less);
  }
}
