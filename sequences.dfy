/**
 * The collection operations the source uses through Java streams and SQL:
 * filtering (`filter`, `WHERE`), truncation (`limit`), a stable sort by an
 * integer key (`sorted`, `ORDER BY`) and a sum (`COUNT` totals).
 */
module Sequences {
  import opened Wrappers

  /** The elements of `s` that satisfy `p`, in the order of `s`. */
  function Filter<T(!new)>(s: seq<T>, p: T -> bool): (r: seq<T>)
    ensures |r| <= |s|
    ensures forall x :: x in r <==> x in s && p(x)
  {
    if s == [] then []
    else (if p(s[0]) then [s[0]] else []) + Filter(s[1..], p)
  }

  /** Filtering never duplicates an element. */
  lemma {:induction false} FilterSubMultiset<T(!new)>(s: seq<T>, p: T -> bool)
    ensures multiset(Filter(s, p)) <= multiset(s)
  {
    if s != [] {
      FilterSubMultiset(s[1..], p);
      assert s == [s[0]] + s[1..];
    }
  }

  /** Filtering keeps each element that passes as often as it occurs, and no other. */
  lemma {:induction false} FilterMultiplicity<T(!new)>(s: seq<T>, p: T -> bool)
    ensures forall x :: multiset(Filter(s, p))[x] == if p(x) then multiset(s)[x] else 0
  {
    if s != [] {
      FilterMultiplicity(s[1..], p);
      assert s == [s[0]] + s[1..];
    }
  }

  lemma {:induction false} FilterAppend<T(!new)>(a: seq<T>, b: seq<T>, p: T -> bool)
    ensures Filter(a + b, p) == Filter(a, p) + Filter(b, p)
  {
    if a == [] {
      assert a + b == b;
    } else {
      assert (a + b)[0] == a[0];
      assert (a + b)[1..] == a[1..] + b;
      FilterAppend(a[1..], b, p);
    }
  }

  /** Filtering keeps every element whose predicate holds: nothing is lost. */
  lemma {:induction false} FilterAll<T(!new)>(s: seq<T>, p: T -> bool)
    requires forall x :: x in s ==> p(x)
    ensures Filter(s, p) == s
  {
    if s != [] {
      FilterAll(s[1..], p);
    }
  }

  /** Filtering with a predicate that nothing satisfies gives the empty sequence. */
  lemma {:induction false} FilterNone<T(!new)>(s: seq<T>, p: T -> bool)
    requires forall x :: x in s ==> !p(x)
    ensures Filter(s, p) == []
  {
    if s != [] {
      FilterNone(s[1..], p);
    }
  }

  /** Java's `stream.limit(n)`: the first `n` elements, or all of them if there are fewer. */
  function Limit<T>(s: seq<T>, n: nat): (r: seq<T>)
    ensures |r| <= n && |r| <= |s|
    ensures |r| == n || r == s
    ensures forall i :: 0 <= i < |r| ==> r[i] == s[i]
  {
    if |s| <= n then s else s[..n]
  }

  /** `key` never decreases along `s`. */
  ghost predicate SortedBy<T>(s: seq<T>, key: T -> int)
  {
    forall i, j :: 0 <= i < j < |s| ==> key(s[i]) <= key(s[j])
  }

  /** Inserts `x` before the first element whose key is at least `key(x)`. */
  function InsertBy<T>(x: T, s: seq<T>, key: T -> int): seq<T>
  {
    if s == [] || key(x) <= key(s[0]) then [x] + s
    else [s[0]] + InsertBy(x, s[1..], key)
  }

  /** A stable insertion sort of `s` by ascending `key`, as Java's `sorted` (a stable sort). */
  function SortBy<T>(s: seq<T>, key: T -> int): seq<T>
  {
    if s == [] then [] else InsertBy(s[0], SortBy(s[1..], key), key)
  }

  lemma {:induction false} InsertByPermutes<T>(x: T, s: seq<T>, key: T -> int)
    ensures multiset(InsertBy(x, s, key)) == multiset(s) + multiset{x}
    ensures |InsertBy(x, s, key)| == |s| + 1
  {
    if s != [] && key(x) > key(s[0]) {
      InsertByPermutes(x, s[1..], key);
      assert s == [s[0]] + s[1..];
    }
  }

  /** Every key of the result is at least a bound that `x` and every element of `s` meet. */
  lemma {:induction false} InsertByBound<T>(x: T, s: seq<T>, key: T -> int, b: int)
    requires b <= key(x) && forall i :: 0 <= i < |s| ==> b <= key(s[i])
    ensures forall i :: 0 <= i < |InsertBy(x, s, key)| ==> b <= key(InsertBy(x, s, key)[i])
  {
    if s != [] && key(x) > key(s[0]) {
      InsertByBound(x, s[1..], key, b);
      var rest := InsertBy(x, s[1..], key);
      forall i | 0 <= i < |[s[0]] + rest|
        ensures b <= key(([s[0]] + rest)[i])
      {
        if i > 0 {
          assert ([s[0]] + rest)[i] == rest[i - 1];
        }
      }
    }
  }

  /** A sorted sequence stays sorted under a head whose key is at most all of its keys. */
  lemma ConsSorted<T>(h: T, rest: seq<T>, key: T -> int)
    requires SortedBy(rest, key) && forall i :: 0 <= i < |rest| ==> key(h) <= key(rest[i])
    ensures SortedBy([h] + rest, key)
  {
    var r := [h] + rest;
    forall i, j | 0 <= i < j < |r|
      ensures key(r[i]) <= key(r[j])
    {
      assert r[j] == rest[j - 1];
      if i > 0 {
        assert r[i] == rest[i - 1];
      }
    }
  }

  lemma {:induction false} InsertBySorted<T>(x: T, s: seq<T>, key: T -> int)
    requires SortedBy(s, key)
    ensures SortedBy(InsertBy(x, s, key), key)
  {
    if s == [] {
      ConsSorted(x, s, key);
    } else if key(x) <= key(s[0]) {
      ConsSorted(x, s, key);
    } else {
      assert SortedBy(s[1..], key);
      InsertBySorted(x, s[1..], key);
      InsertByBound(x, s[1..], key, key(s[0]));
      ConsSorted(s[0], InsertBy(x, s[1..], key), key);
    }
  }

  /** The sort returns a permutation of its input. */
  lemma {:induction false} SortByPermutes<T>(s: seq<T>, key: T -> int)
    ensures multiset(SortBy(s, key)) == multiset(s)
    ensures |SortBy(s, key)| == |s|
  {
    if s != [] {
      SortByPermutes(s[1..], key);
      InsertByPermutes(s[0], SortBy(s[1..], key), key);
      assert s == [s[0]] + s[1..];
    }
  }

  /** The sort returns its input in ascending key order. */
  lemma {:induction false} SortBySorted<T>(s: seq<T>, key: T -> int)
    ensures SortedBy(SortBy(s, key), key)
  {
    if s != [] {
      SortBySorted(s[1..], key);
      InsertBySorted(s[0], SortBy(s[1..], key), key);
    }
  }

  /** The sort keeps exactly the elements of its input. */
  lemma SortByMembers<T>(s: seq<T>, key: T -> int)
    ensures forall x :: x in SortBy(s, key) <==> x in s
  {
    SortByPermutes(s, key);
    forall x
      ensures x in SortBy(s, key) <==> x in s
    {
      assert x in SortBy(s, key) <==> x in multiset(SortBy(s, key));
      assert x in s <==> x in multiset(s);
    }
  }

  /** The elements whose key equals `k`. */
  function KeyIs<T>(key: T -> int, k: int): T -> bool
  {
    y => key(y) == k
  }

  lemma {:induction false} InsertByKeyClass<T(!new)>(x: T, s: seq<T>, key: T -> int, k: int)
    ensures key(x) == k ==> Filter(InsertBy(x, s, key), KeyIs(key, k)) == [x] + Filter(s, KeyIs(key, k))
    ensures key(x) != k ==> Filter(InsertBy(x, s, key), KeyIs(key, k)) == Filter(s, KeyIs(key, k))
  {
    var p := KeyIs(key, k);
    if s == [] || key(x) <= key(s[0]) {
      FilterCons(x, s, p);
    } else {
      var rest := InsertBy(x, s[1..], key);
      assert InsertBy(x, s, key) == [s[0]] + rest;
      InsertByKeyClass(x, s[1..], key, k);
      FilterCons(s[0], rest, p);
      var f, f1 := Filter(s, p), Filter(s[1..], p);
      var g := Filter(rest, p);
      if p(s[0]) {
        assert f == [s[0]] + f1;
        assert Filter([s[0]] + rest, p) == [s[0]] + g;
      } else {
        assert f == f1;
        assert Filter([s[0]] + rest, p) == g;
      }
    }
  }

  /**
   * Stability: elements with equal keys keep their relative order, that is,
   * for every key the sort leaves the subsequence of elements with that key unchanged.
   */
  lemma {:induction false} SortByStable<T(!new)>(s: seq<T>, key: T -> int, k: int)
    ensures Filter(SortBy(s, key), KeyIs(key, k)) == Filter(s, KeyIs(key, k))
  {
    if s != [] {
      SortByStable(s[1..], key, k);
      InsertByKeyClass(s[0], SortBy(s[1..], key), key, k);
      FilterAppend([s[0]], s[1..], KeyIs(key, k));
      assert s == [s[0]] + s[1..];
    }
  }

  /** Filters by conditions that agree everywhere agree. */
  lemma {:induction false} FilterSame<T(!new)>(s: seq<T>, p: T -> bool, q: T -> bool)
    requires forall x :: p(x) <==> q(x)
    ensures Filter(s, p) == Filter(s, q)
  {
    if s != [] {
      FilterSame(s[1..], p, q);
    }
  }

  /** Filtering by one of two exclusive conditions keeps as many elements as the two filters together. */
  lemma {:induction false} FilterCountUnion<T(!new)>(s: seq<T>, p: T -> bool, q: T -> bool, pq: T -> bool)
    requires forall x :: pq(x) <==> p(x) || q(x)
    requires forall x :: !(p(x) && q(x))
    ensures |Filter(s, pq)| == |Filter(s, p)| + |Filter(s, q)|
  {
    if s != [] {
      FilterCountUnion(s[1..], p, q, pq);
    }
  }

  /** Filtering by a weaker condition first does not change the result of filtering by a stronger one. */
  lemma {:induction false} FilterWeaker<T(!new)>(s: seq<T>, p: T -> bool, q: T -> bool)
    requires forall x :: q(x) ==> p(x)
    ensures Filter(Filter(s, p), q) == Filter(s, q)
  {
    if s != [] {
      FilterWeaker(s[1..], p, q);
      var fp := Filter(s, p);
      if p(s[0]) {
        assert fp == [s[0]] + Filter(s[1..], p);
        assert fp[0] == s[0] && fp[1..] == Filter(s[1..], p);
      } else {
        assert fp == Filter(s[1..], p);
        assert !q(s[0]);
      }
    }
  }

  /** Every element of a sorted sequence has a key at least that of its head. */
  lemma SortedHeadLeast<T>(s: seq<T>, key: T -> int, y: T)
    requires SortedBy(s, key) && y in s
    ensures key(s[0]) <= key(y)
  {
    var j :| 0 <= j < |s| && s[j] == y;
    if j > 0 {
      assert key(s[0]) <= key(s[j]);
    }
  }

  /** In a sorted sequence, filtering commutes with inserting one more element. */
  lemma {:induction false} InsertByFilter<T(!new)>(x: T, s: seq<T>, key: T -> int, p: T -> bool)
    requires SortedBy(s, key)
    ensures Filter(InsertBy(x, s, key), p) == if p(x) then InsertBy(x, Filter(s, p), key) else Filter(s, p)
  {
    var f := Filter(s, p);
    if s == [] || key(x) <= key(s[0]) {
      FilterCons(x, s, p);
      if p(x) && f != [] {
        SortedHeadLeast(s, key, f[0]);
      }
    } else {
      SortedTail(s, key);
      InsertByFilter(x, s[1..], key, p);
      InsertByFilterStep(x, s, key, p);
    }
  }

  /** Filtering a sequence with a head. */
  lemma FilterCons<T(!new)>(h: T, t: seq<T>, p: T -> bool)
    ensures Filter([h] + t, p) == (if p(h) then [h] else []) + Filter(t, p)
  {
    var s := [h] + t;
    assert s[0] == h && s[1..] == t;
  }

  /** The tail of a sorted sequence is sorted. */
  lemma SortedTail<T>(s: seq<T>, key: T -> int)
    requires s != [] && SortedBy(s, key)
    ensures SortedBy(s[1..], key)
  {
    forall i, j | 0 <= i < j < |s[1..]|
      ensures key(s[1..][i]) <= key(s[1..][j])
    {
      assert s[1..][i] == s[i + 1] && s[1..][j] == s[j + 1];
    }
  }

  /** The step of `InsertByFilter` past a head whose key is below that of `x`. */
  lemma InsertByFilterStep<T(!new)>(x: T, s: seq<T>, key: T -> int, p: T -> bool)
    requires s != [] && key(x) > key(s[0])
    requires Filter(InsertBy(x, s[1..], key), p) ==
             if p(x) then InsertBy(x, Filter(s[1..], p), key) else Filter(s[1..], p)
    ensures Filter(InsertBy(x, s, key), p) == if p(x) then InsertBy(x, Filter(s, p), key) else Filter(s, p)
  {
    var rest := InsertBy(x, s[1..], key);
    var f, f1 := Filter(s, p), Filter(s[1..], p);
    assert InsertBy(x, s, key) == [s[0]] + rest;
    FilterCons(s[0], rest, p);
    if p(s[0]) {
      assert f == [s[0]] + f1;
      if p(x) {
        assert f[0] == s[0] && f[1..] == f1;
        assert InsertBy(x, f, key) == [s[0]] + InsertBy(x, f1, key);
      }
    } else {
      assert f == f1;
      assert Filter([s[0]] + rest, p) == Filter(rest, p);
    }
  }

  /** Sorting and then filtering gives the same sequence as filtering and then sorting. */
  lemma {:induction false} SortByFilter<T(!new)>(s: seq<T>, key: T -> int, p: T -> bool)
    ensures Filter(SortBy(s, key), p) == SortBy(Filter(s, p), key)
  {
    if s != [] {
      SortByFilter(s[1..], key, p);
      SortBySorted(s[1..], key);
      InsertByFilter(s[0], SortBy(s[1..], key), key, p);
      FilterAppend([s[0]], s[1..], p);
      assert s == [s[0]] + s[1..];
      assert [s[0]][1..] == [];
      var f := Filter(s, p);
      if p(s[0]) {
        assert f == [s[0]] + Filter(s[1..], p);
        assert f[0] == s[0] && f[1..] == Filter(s[1..], p);
      } else {
        assert f == Filter(s[1..], p);
      }
    }
  }

  /** The first element of `s` that satisfies `p`, if any. */
  function FindFirst<T>(s: seq<T>, p: T -> bool): (r: Option<T>)
    ensures r.Some? ==> r.value in s && p(r.value)
    ensures r.None? <==> forall i :: 0 <= i < |s| ==> !p(s[i])
  {
    if s == [] then None
    else if p(s[0]) then Some(s[0])
    else FindFirst(s[1..], p)
  }

  /** The element found is the first one that satisfies `p`. */
  lemma {:induction false} FindFirstAt<T>(s: seq<T>, p: T -> bool, i: nat)
    requires i < |s| && p(s[i]) && forall j :: 0 <= j < i ==> !p(s[j])
    ensures FindFirst(s, p) == Some(s[i])
  {
    if i > 0 {
      assert !p(s[0]);
      FindFirstAt(s[1..], p, i - 1);
    }
  }

  /** The sum of `w` over the elements of `s`. */
  function SumBy<T>(s: seq<T>, w: T -> int): int
  {
    if s == [] then 0 else w(s[0]) + SumBy(s[1..], w)
  }

  lemma {:induction false} SumByAppend<T>(a: seq<T>, b: seq<T>, w: T -> int)
    ensures SumBy(a + b, w) == SumBy(a, w) + SumBy(b, w)
  {
    if a == [] {
      assert a + b == b;
    } else {
      SumByAppend(a[1..], b, w);
      assert (a + b)[1..] == a[1..] + b;
    }
  }

  lemma {:induction false} SumByInsert<T>(x: T, s: seq<T>, key: T -> int, w: T -> int)
    ensures SumBy(InsertBy(x, s, key), w) == w(x) + SumBy(s, w)
  {
    if s != [] && key(x) > key(s[0]) {
      SumByInsert(x, s[1..], key, w);
    }
  }

  /** Sorting does not change a sum. */
  lemma {:induction false} SumBySort<T>(s: seq<T>, key: T -> int, w: T -> int)
    ensures SumBy(SortBy(s, key), w) == SumBy(s, w)
  {
    if s != [] {
      SumBySort(s[1..], key, w);
      SumByInsert(s[0], SortBy(s[1..], key), key, w);
    }
  }

  /** No element occurs twice. */
  ghost predicate Distinct<T>(s: seq<T>)
  {
    forall i, j :: 0 <= i < j < |s| ==> s[i] != s[j]
  }

  /** Filtering never introduces a repeated element. */
  lemma {:induction false} FilterDistinct<T(!new)>(s: seq<T>, p: T -> bool)
    requires Distinct(s)
    ensures Distinct(Filter(s, p))
  {
    if s != [] {
      FilterDistinct(s[1..], p);
      var rest := Filter(s[1..], p);
      assert s[0] !in s[1..];
      var r := (if p(s[0]) then [s[0]] else []) + rest;
      forall i, j | 0 <= i < j < |r|
        ensures r[i] != r[j]
      {
        if p(s[0]) && i == 0 {
          assert r[j] == rest[j - 1] && r[j] in rest;
        } else if p(s[0]) {
          assert r[i] == rest[i - 1] && r[j] == rest[j - 1];
        } else {
          assert r[i] == rest[i] && r[j] == rest[j];
        }
      }
    }
  }

  /** A head that is not in a sequence without repeats gives a sequence without repeats. */
  lemma ConsDistinct<T>(h: T, rest: seq<T>)
    requires Distinct(rest) && h !in rest
    ensures Distinct([h] + rest)
  {
    var r := [h] + rest;
    forall i, j | 0 <= i < j < |r|
      ensures r[i] != r[j]
    {
      assert r[j] == rest[j - 1];
      if i > 0 {
        assert r[i] == rest[i - 1];
      }
    }
  }

  /** The tail of a sequence without repeats has none either, and does not hold the head. */
  lemma DistinctTail<T>(s: seq<T>)
    requires s != [] && Distinct(s)
    ensures Distinct(s[1..]) && s[0] !in s[1..]
  {
    var t := s[1..];
    forall i, j | 0 <= i < j < |t|
      ensures t[i] != t[j]
    {
      assert t[i] == s[i + 1] && t[j] == s[j + 1];
    }
  }

  /** The elements after an insertion are `x` and those of `s`. */
  lemma {:induction false} InsertByMembers<T>(x: T, s: seq<T>, key: T -> int)
    ensures forall y :: y in InsertBy(x, s, key) <==> y == x || y in s
  {
    if s != [] && key(x) > key(s[0]) {
      InsertByMembers(x, s[1..], key);
      assert s == [s[0]] + s[1..];
    }
  }

  lemma {:induction false} InsertByDistinct<T>(x: T, s: seq<T>, key: T -> int)
    requires Distinct(s) && x !in s
    ensures Distinct(InsertBy(x, s, key))
  {
    if s == [] || key(x) <= key(s[0]) {
      ConsDistinct(x, s);
    } else {
      DistinctTail(s);
      InsertByDistinct(x, s[1..], key);
      InsertByMembers(x, s[1..], key);
      ConsDistinct(s[0], InsertBy(x, s[1..], key));
    }
  }

  /** Sorting never introduces a repeated element. */
  lemma {:induction false} SortByDistinct<T>(s: seq<T>, key: T -> int)
    requires Distinct(s)
    ensures Distinct(SortBy(s, key))
  {
    if s != [] {
      var t := s[1..];
      assert Distinct(t) by {
        forall i, j | 0 <= i < j < |t|
          ensures t[i] != t[j]
        {
          assert t[i] == s[i + 1] && t[j] == s[j + 1];
        }
      }
      SortByDistinct(t, key);
      SortByMembers(t, key);
      assert s[0] !in t;
      InsertByDistinct(s[0], SortBy(t, key), key);
    }
  }
}
