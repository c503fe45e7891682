/** Python's `list.sort(key=…)`, which is stable: elements with equal keys keep their
    order. `le(a, b)` says that the key of `a` is at most the key of `b` (for
    `reverse=True`, at least). */
module StableSort {

  /** `x` put in front of the first element of `s` it may precede. */
  function Insert<T>(x: T, s: seq<T>, le: (T, T) -> bool): (r: seq<T>)
    ensures |r| == |s| + 1
    ensures multiset(r) == multiset(s) + multiset{x}
  {
    if s == [] || le(x, s[0]) then [x] + s
    else
      assert s == [s[0]] + s[1..];
      [s[0]] + Insert(x, s[1..], le)
  }

  /** The sorted list: the first element inserted into the sorted rest, so that an element
      goes before every later one with the same key. */
  function Sort<T>(xs: seq<T>, le: (T, T) -> bool): (r: seq<T>)
    ensures |r| == |xs|
    ensures multiset(r) == multiset(xs)
  {
    if xs == [] then []
    else
      assert xs == [xs[0]] + xs[1..];
      Insert(xs[0], Sort(xs[1..], le), le)
  }

  /** Any two keys compare. */
  ghost predicate Total<T(!new)>(le: (T, T) -> bool) {
    forall a, b :: le(a, b) || le(b, a)
  }

  ghost predicate Transitive<T(!new)>(le: (T, T) -> bool) {
    forall a, b, c :: le(a, b) && le(b, c) ==> le(a, c)
  }

  ghost predicate SortedBy<T>(s: seq<T>, le: (T, T) -> bool) {
    forall i, j :: 0 <= i < j < |s| ==> le(s[i], s[j])
  }

  lemma {:induction false} InsertSorted<T(!new)>(x: T, s: seq<T>, le: (T, T) -> bool)
    requires Total(le) && Transitive(le) && SortedBy(s, le)
    ensures SortedBy(Insert(x, s, le), le)
    decreases |s|
  {
    if s != [] && !le(x, s[0]) {
      var rest := Insert(x, s[1..], le);
      InsertSorted(x, s[1..], le);
      var r := [s[0]] + rest;
      assert le(s[0], x);
      forall i, j | 0 <= i < j < |r|
        ensures le(r[i], r[j])
      {
        if i == 0 {
          assert rest[j - 1] in multiset(rest);
          assert rest[j - 1] in multiset(s[1..]) + multiset{x};
          if rest[j - 1] == x {
          } else {
            assert rest[j - 1] in s[1..];
            var k :| 0 <= k < |s[1..]| && s[1..][k] == rest[j - 1];
            assert s[k + 1] == rest[j - 1];
          }
        }
      }
    }
  }

  /** The sorted list is in key order and holds the same elements. */
  lemma {:induction false} SortSorted<T(!new)>(xs: seq<T>, le: (T, T) -> bool)
    requires Total(le) && Transitive(le)
    ensures SortedBy(Sort(xs, le), le)
    decreases |xs|
  {
    if xs != [] {
      SortSorted(xs[1..], le);
      InsertSorted(xs[0], Sort(xs[1..], le), le);
    }
  }

  /** The first element of a sorted list may precede any of its elements. */
  lemma SortedHeadLeast<T(!new)>(s: seq<T>, le: (T, T) -> bool, x: T)
    requires Total(le) && SortedBy(s, le) && x in s
    ensures le(s[0], x)
  {
    var k :| 0 <= k < |s| && s[k] == x;
    if k == 0 {
      assert le(x, x) || le(x, x);
    }
  }

  /** The first element of the sorted list is the first element of the input whose key is
      the smallest: every element may follow it, and every earlier one has a larger key. */
  lemma {:induction false} SortHead<T(!new)>(xs: seq<T>, le: (T, T) -> bool) returns (i: nat)
    requires xs != [] && Total(le) && Transitive(le)
    ensures i < |xs| && Sort(xs, le)[0] == xs[i]
    ensures forall j :: 0 <= j < |xs| ==> le(xs[i], xs[j])
    ensures forall j :: 0 <= j < i ==> !le(xs[j], xs[i])
    decreases |xs|
  {
    var tail := xs[1..];
    var s := Sort(tail, le);
    if s == [] || le(xs[0], s[0]) {
      i := 0;
      HeadStays(xs, le);
    } else {
      var i' := SortHead(tail, le);
      i := i' + 1;
      forall j | 1 <= j < |xs|
        ensures le(xs[i], xs[j]) && (j < i ==> !le(xs[j], xs[i]))
      {
        assert xs[j] == tail[j - 1];
      }
      TotalAt(le, xs[i], xs[0]);
      HeadMoves(xs, le, i);
    }
  }

  /** The first element stays first when it may precede the head of the sorted rest. */
  lemma HeadStays<T(!new)>(xs: seq<T>, le: (T, T) -> bool)
    requires xs != [] && Total(le) && Transitive(le)
    requires var s := Sort(xs[1..], le); s == [] || le(xs[0], s[0])
    ensures Sort(xs, le)[0] == xs[0]
    ensures forall j :: 0 <= j < |xs| ==> le(xs[0], xs[j])
  {
    var tail := xs[1..];
    var s := Sort(tail, le);
    SortSorted(tail, le);
    forall j | 0 <= j < |xs|
      ensures le(xs[0], xs[j])
    {
      if j > 0 {
        assert xs[j] == tail[j - 1];
        assert xs[j] in multiset(s);
        SortedHeadLeast(s, le, xs[j]);
      }
    }
  }

  /** Otherwise the head of the sorted rest comes first. */
  lemma HeadMoves<T>(xs: seq<T>, le: (T, T) -> bool, k: nat)
    requires 1 <= k < |xs| && le(xs[k], xs[0])
    requires Sort(xs[1..], le)[0] == xs[k] && !le(xs[0], xs[k])
    requires forall j :: 1 <= j < |xs| ==> le(xs[k], xs[j])
    requires forall j :: 1 <= j < k ==> !le(xs[j], xs[k])
    ensures Sort(xs, le)[0] == xs[k]
    ensures forall j :: 0 <= j < |xs| ==> le(xs[k], xs[j])
    ensures forall j :: 0 <= j < k ==> !le(xs[j], xs[k])
  {
    SortFirst(xs, le);
  }

  /** The first element of the sorted list when the first input element does not precede
      the head of the sorted rest. */
  lemma SortFirst<T>(xs: seq<T>, le: (T, T) -> bool)
    requires |xs| > 1 && !le(xs[0], Sort(xs[1..], le)[0])
    ensures Sort(xs, le)[0] == Sort(xs[1..], le)[0]
  {
  }

  lemma TotalAt<T(!new)>(le: (T, T) -> bool, a: T, b: T)
    requires Total(le)
    ensures le(a, b) || le(b, a)
  {
  }
}
