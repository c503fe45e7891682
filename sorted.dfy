/** Python's `sorted(set(xs))` on line numbers. */
module Sorted {

  /** Strictly ascending: sorted and free of duplicates. */
  predicate Increasing(xs: seq<nat>) {
    forall i, j :: 0 <= i < j < |xs| ==> xs[i] < xs[j]
  }

  /** `x` put into its place in an ascending sequence, unless it is already there. */
  function Insert(r: seq<nat>, x: nat): (t: seq<nat>)
    requires Increasing(r)
    ensures Increasing(t)
    ensures forall y :: y in t <==> y in r || y == x
    decreases |r|
  {
    if r == [] then [x]
    else if x == r[0] then r
    else if x < r[0] then [x] + r
    else
      var rest := Insert(r[1..], x);
      assert forall y :: y in r[1..] ==> r[0] < y;
      ConsIncreasing(r[0], rest);
      assert r == [r[0]] + r[1..];
      [r[0]] + rest
  }

  /** An element below everything of an ascending sequence can go in front of it. */
  lemma ConsIncreasing(h: nat, rest: seq<nat>)
    requires Increasing(rest)
    requires forall y :: y in rest ==> h < y
    ensures Increasing([h] + rest)
  {
    forall i, j | 0 <= i < j < |[h] + rest|
      ensures ([h] + rest)[i] < ([h] + rest)[j]
    {
      assert ([h] + rest)[j] == rest[j - 1];
      if i > 0 {
        assert ([h] + rest)[i] == rest[i - 1];
      } else {
        assert rest[j - 1] in rest;
      }
    }
  }

  /** `sorted(set(xs))`. */
  function SortedUnique(xs: seq<nat>): (r: seq<nat>)
    ensures Increasing(r)
    ensures forall y :: y in r <==> y in xs
  {
    if xs == [] then []
    else
      InSnoc(xs);
      Insert(SortedUnique(xs[..|xs| - 1]), xs[|xs| - 1])
  }

  lemma InSnoc(xs: seq<nat>)
    requires xs != []
    ensures forall y :: y in xs <==> y in xs[..|xs| - 1] || y == xs[|xs| - 1]
  {
    assert xs == xs[..|xs| - 1] + [xs[|xs| - 1]];
  }

  /** An ascending sequence is determined by its elements: whatever order and repetitions
      the input had, `sorted(set(...))` gives the same list. */
  lemma {:induction false} IncreasingUnique(a: seq<nat>, b: seq<nat>)
    requires Increasing(a) && Increasing(b)
    requires forall y :: y in a <==> y in b
    ensures a == b
    decreases |a|
  {
    SameElementsEmpty(a, b);
    if a != [] {
      assert a[0] == b[0] by {
        assert b[0] in a && a[0] in b;
      }
      forall y
        ensures y in a[1..] <==> y in b[1..]
      {
        if y in a[1..] {
          assert y != a[0] && y in b;
        }
        if y in b[1..] {
          assert y != b[0] && y in a;
        }
      }
      IncreasingUnique(a[1..], b[1..]);
      assert a == [a[0]] + a[1..] && b == [b[0]] + b[1..];
    }
  }

  lemma SameElementsEmpty(a: seq<nat>, b: seq<nat>)
    requires forall y :: y in a <==> y in b
    ensures a == [] <==> b == []
  {
    if a != [] {
      assert a[0] in b;
    }
    if b != [] {
      assert b[0] in a;
    }
  }

  /** So `sorted(set(xs))` depends only on the set of elements. */
  lemma SortedUniqueSameElements(xs: seq<nat>, ys: seq<nat>)
    requires forall y :: y in xs <==> y in ys
    ensures SortedUnique(xs) == SortedUnique(ys)
  {
    IncreasingUnique(SortedUnique(xs), SortedUnique(ys));
  }
}
