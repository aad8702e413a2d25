/** Sequence operations standing for the SQL a Django queryset runs:
    `filter(...)` is `Filter`, `order_by(...)` is `SortBy` on a numeric key,
    and slicing `[:n]` is `Take`. */
module Sorting {

  /** `s` is in ascending order of `key`. */
  predicate SortedBy<T>(s: seq<T>, key: T -> real) {
    forall i, j :: 0 <= i < j < |s| ==> key(s[i]) <= key(s[j])
  }

  /** Insert `x` into an ascending sequence, before the first element whose key is not smaller. */
  function Insert<T>(x: T, s: seq<T>, key: T -> real): (r: seq<T>)
    requires SortedBy(s, key)
    ensures SortedBy(r, key)
    ensures multiset(r) == multiset(s) + multiset{x}
  {
    if |s| == 0 || key(x) <= key(s[0]) then [x] + s
    else
      var rest := Insert(x, s[1..], key);
      assert s == [s[0]] + s[1..];
      forall i | 0 <= i < |rest|
        ensures key(s[0]) <= key(rest[i])
      {
        assert rest[i] in multiset(rest);
        if rest[i] != x {
          assert rest[i] in multiset(s[1..]);
          var j :| 0 <= j < |s[1..]| && s[1..][j] == rest[i];
          assert s[j + 1] == rest[i];
        }
      }
      [s[0]] + rest
  }

  /** Insertion sort by ascending key: the model of an SQL `ORDER BY` on one column. */
  function SortBy<T>(s: seq<T>, key: T -> real): (r: seq<T>)
    ensures SortedBy(r, key)
    ensures multiset(r) == multiset(s)
  {
    if |s| == 0 then []
    else
      assert s == [s[0]] + s[1..];
      Insert(s[0], SortBy(s[1..], key), key)
  }

  /** The elements of `s` satisfying `p`, in their original order. */
  function Filter<T>(s: seq<T>, p: T -> bool): (r: seq<T>)
    ensures |r| <= |s|
    ensures forall i :: 0 <= i < |r| ==> r[i] in s && p(r[i])
    ensures forall i :: 0 <= i < |s| && p(s[i]) ==> s[i] in r
  {
    if |s| == 0 then []
    else (if p(s[0]) then [s[0]] else []) + Filter(s[1..], p)
  }

  /** The first `n` elements of `s`, or all of them when there are fewer. */
  function Take<T>(s: seq<T>, n: nat): (r: seq<T>)
    ensures |r| == if n < |s| then n else |s|
    ensures r == s[..|r|]
  {
    if n < |s| then s[..n] else s
  }

  /** Position of the first element satisfying `p`, or `|s|` when there is none: the row a
      `filter(...).first()` or `get(...)` lookup finds. */
  function FirstWhere<T>(s: seq<T>, p: T -> bool): (k: nat)
    ensures k <= |s|
    ensures k < |s| ==> p(s[k])
    ensures forall i :: 0 <= i < k ==> !p(s[i])
  {
    if |s| == 0 || p(s[0]) then 0 else 1 + FirstWhere(s[1..], p)
  }

  /** The members of a filtered sequence are the members of `s` satisfying `p`. */
  lemma FilterMembers<T>(s: seq<T>, p: T -> bool)
    ensures forall x :: x in Filter(s, p) <==> x in s && p(x)
  {
    var r := Filter(s, p);
    forall x | x in r ensures x in s && p(x) {
      var i :| 0 <= i < |r| && r[i] == x;
    }
    forall x | x in s && p(x) ensures x in r {
      var i :| 0 <= i < |s| && s[i] == x;
    }
  }

  /** Filtering keeps an ascending sequence ascending. */
  lemma {:induction false} FilterPreservesSorted<T>(s: seq<T>, p: T -> bool, key: T -> real)
    requires SortedBy(s, key)
    ensures SortedBy(Filter(s, p), key)
  {
    if |s| > 0 {
      FilterPreservesSorted(s[1..], p, key);
      var rest := Filter(s[1..], p);
      forall y | y in rest
        ensures key(s[0]) <= key(y)
      {
        var j :| 0 <= j < |s[1..]| && s[1..][j] == y;
        assert s[j + 1] == y;
      }
    }
  }

  /** Filters that agree on every element of `s` select the same elements. */
  lemma {:induction false} FilterCongruent<T>(s: seq<T>, p: T -> bool, q: T -> bool)
    requires forall x :: x in s ==> p(x) == q(x)
    ensures Filter(s, p) == Filter(s, q)
  {
    if |s| > 0 {
      FilterCongruent(s[1..], p, q);
    }
  }

  /** A filter that every element passes keeps the sequence. */
  lemma {:induction false} FilterKeepsAll<T>(s: seq<T>, p: T -> bool)
    requires forall i :: 0 <= i < |s| ==> p(s[i])
    ensures Filter(s, p) == s
  {
    if |s| > 0 {
      FilterKeepsAll(s[1..], p);
    }
  }

  /** Splitting a filter into two disjoint cases splits its size. */
  lemma {:induction false} FilterCountSplit<T>(s: seq<T>, p: T -> bool, q: T -> bool, r: T -> bool)
    requires forall x :: x in s ==> (p(x) <==> q(x) || r(x))
    requires forall x :: x in s ==> !(q(x) && r(x))
    ensures |Filter(s, p)| == |Filter(s, q)| + |Filter(s, r)|
  {
    if |s| > 0 {
      FilterCountSplit(s[1..], p, q, r);
    }
  }

  /** Sequences with the same multiset have the same members. */
  lemma SameMembers<T>(a: seq<T>, b: seq<T>)
    requires multiset(a) == multiset(b)
    ensures forall x :: x in a <==> x in b
  {
    forall x ensures x in a <==> x in b {
      assert x in a <==> x in multiset(a);
      assert x in b <==> x in multiset(b);
    }
  }

  /** The number of elements of `s` satisfying `p`. */
  function Count<T>(s: seq<T>, p: T -> bool): nat {
    |Filter(s, p)|
  }

  /** `rel` holds between every two elements of `s`, taken in order. */
  predicate Pairwise<T>(s: seq<T>, rel: (T, T) -> bool) {
    forall i, j :: 0 <= i < j < |s| ==> rel(s[i], s[j])
  }

  /** Filtering keeps a pairwise relation. */
  lemma {:induction false} FilterPairwise<T>(s: seq<T>, p: T -> bool, rel: (T, T) -> bool)
    requires Pairwise(s, rel)
    ensures Pairwise(Filter(s, p), rel)
  {
    if |s| > 0 {
      FilterPairwise(s[1..], p, rel);
      var rest := Filter(s[1..], p);
      forall i | 0 <= i < |rest|
        ensures rel(s[0], rest[i])
      {
        var j :| 0 <= j < |s[1..]| && s[1..][j] == rest[i];
        assert s[j + 1] == rest[i];
      }
    }
  }

  /** Inserting an element related both ways to every member keeps a pairwise relation. */
  lemma {:induction false} InsertPairwise<T>(x: T, s: seq<T>, key: T -> real, rel: (T, T) -> bool)
    requires SortedBy(s, key) && Pairwise(s, rel)
    requires forall i :: 0 <= i < |s| ==> rel(x, s[i]) && rel(s[i], x)
    ensures Pairwise(Insert(x, s, key), rel)
  {
    if |s| == 0 || key(x) <= key(s[0]) {
    } else {
      InsertPairwise(x, s[1..], key, rel);
      var rest := Insert(x, s[1..], key);
      assert s == [s[0]] + s[1..];
      forall i | 0 <= i < |rest|
        ensures rel(s[0], rest[i])
      {
        assert rest[i] in multiset(rest);
        if rest[i] != x {
          assert rest[i] in multiset(s[1..]);
          var j :| 0 <= j < |s[1..]| && s[1..][j] == rest[i];
          assert s[j + 1] == rest[i];
        }
      }
    }
  }

  /** Sorting keeps a symmetric pairwise relation. */
  lemma {:induction false} SortPairwise<T>(s: seq<T>, key: T -> real, rel: (T, T) -> bool)
    requires Pairwise(s, rel)
    requires forall a, b :: rel(a, b) == rel(b, a)
    ensures Pairwise(SortBy(s, key), rel)
  {
    if |s| > 0 {
      SortPairwise(s[1..], key, rel);
      var sorted := SortBy(s[1..], key);
      forall i | 0 <= i < |sorted|
        ensures rel(s[0], sorted[i]) && rel(sorted[i], s[0])
      {
        assert sorted[i] in multiset(sorted);
        assert sorted[i] in multiset(s[1..]);
        var j :| 0 <= j < |s[1..]| && s[1..][j] == sorted[i];
        assert s[j + 1] == sorted[i];
      }
      InsertPairwise(s[0], sorted, key, rel);
    }
  }

  /** Two related-within sequences, related across, concatenate to a related sequence. */
  lemma ConcatPairwise<T>(a: seq<T>, b: seq<T>, rel: (T, T) -> bool)
    requires Pairwise(a, rel) && Pairwise(b, rel)
    requires forall i, j :: 0 <= i < |a| && 0 <= j < |b| ==> rel(a[i], b[j])
    ensures Pairwise(a + b, rel)
  {
    forall i, j | 0 <= i < j < |a + b|
      ensures rel((a + b)[i], (a + b)[j])
    {
      if j < |a| {
        assert rel(a[i], a[j]);
      } else if i < |a| {
        assert rel(a[i], b[j - |a|]);
      } else {
        assert rel(b[i - |a|], b[j - |a|]);
      }
    }
  }
}
