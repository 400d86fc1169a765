/**
 * Sequence helpers standing in for SQL `WHERE`, `ORDER BY` and `LIMIT`:
 * filtering, a stable insertion sort by an integer key, and taking a prefix.
 */
module Sorting {

  /** Keys are non-decreasing along `s`. */
  ghost predicate SortedBy<T>(s: seq<T>, key: T -> int) {
    forall i, j :: 0 <= i < j < |s| ==> key(s[i]) <= key(s[j])
  }

  /** Inserts `x` after every element whose key is not larger, keeping `s` sorted. */
  function Insert<T>(x: T, s: seq<T>, key: T -> int): (r: seq<T>)
    requires SortedBy(s, key)
    ensures SortedBy(r, key)
    ensures multiset(r) == multiset(s) + multiset{x}
    ensures |r| == |s| + 1
  {
    if s == [] then [x]
    else if key(x) < key(s[0]) then
      PrependSorted(x, s, key);
      [x] + s
    else
      var rest := Insert(x, s[1..], key);
      InsertBehind(x, s, rest, key);
      [s[0]] + rest
  }

  /** An element no larger than every element of a sorted sequence can go in front of it. */
  lemma PrependSorted<T>(h: T, s: seq<T>, key: T -> int)
    requires SortedBy(s, key)
    requires s != [] ==> key(h) <= key(s[0])
    ensures SortedBy([h] + s, key)
  {
    var r := [h] + s;
    forall i, j | 0 <= i < j < |r| ensures key(r[i]) <= key(r[j]) {
      assert r[j] == s[j - 1];
      if i > 0 {
        assert r[i] == s[i - 1];
      }
    }
  }

  /** Once `x` is inserted into the tail of `s`, the head of `s` still goes first. */
  lemma InsertBehind<T>(x: T, s: seq<T>, rest: seq<T>, key: T -> int)
    requires s != [] && SortedBy(s, key) && key(s[0]) <= key(x)
    requires SortedBy(rest, key) && multiset(rest) == multiset(s[1..]) + multiset{x}
    ensures SortedBy([s[0]] + rest, key)
    ensures multiset([s[0]] + rest) == multiset(s) + multiset{x}
  {
    assert s == [s[0]] + s[1..];
    if rest != [] {
      assert rest[0] in multiset(rest);
      assert rest[0] == x || rest[0] in multiset(s[1..]);
    }
    PrependSorted(s[0], rest, key);
  }

  /** A non-empty sequence is its front followed by its last element. */
  lemma LastSplit<T>(s: seq<T>)
    requires s != []
    ensures s == s[..|s| - 1] + [s[|s| - 1]]
  {
  }

  /** `ORDER BY key ASC`: a sorted permutation of `s`; equal keys keep their order in `s`. */
  function SortBy<T>(s: seq<T>, key: T -> int): (r: seq<T>)
    ensures SortedBy(r, key)
    ensures multiset(r) == multiset(s)
    ensures |r| == |s|
  {
    if s == [] then []
    else
      var init := s[..|s| - 1];
      assert s == init + [s[|s| - 1]];
      Insert(s[|s| - 1], SortBy(init, key), key)
  }

  /** `ORDER BY key DESC`. */
  function SortByDesc<T>(s: seq<T>, key: T -> int): (r: seq<T>)
    ensures forall i, j :: 0 <= i < j < |r| ==> key(r[i]) >= key(r[j])
    ensures multiset(r) == multiset(s)
    ensures |r| == |s|
  {
    var neg := (x: T) => -key(x);
    var r := SortBy(s, neg);
    assert forall i, j :: 0 <= i < j < |r| ==> neg(r[i]) <= neg(r[j]);
    r
  }

  /** `WHERE p`: the elements of `s` satisfying `p`, in order. */
  function Filter<T(!new)>(s: seq<T>, p: T -> bool): (r: seq<T>)
    ensures forall x :: x in r <==> x in s && p(x)
    ensures forall k :: 0 <= k < |r| ==> p(r[k])
    ensures |r| <= |s|
  {
    if s == [] then []
    else
      var rest := Filter(s[1..], p);
      assert forall x :: x in s <==> x == s[0] || x in s[1..];
      if p(s[0]) then [s[0]] + rest else rest
  }

  /** Filtering keeps multiplicities: each kept element occurs as often as in `s`. */
  lemma {:induction false} FilterMultiset<T(!new)>(s: seq<T>, p: T -> bool)
    ensures multiset(Filter(s, p)) <= multiset(s)
    ensures forall x :: p(x) ==> multiset(Filter(s, p))[x] == multiset(s)[x]
  {
    if s != [] {
      FilterMultiset(s[1..], p);
      assert s == [s[0]] + s[1..];
    }
  }

  /** Filtering distributes over concatenation. */
  lemma {:induction false} FilterConcat<T(!new)>(a: seq<T>, b: seq<T>, p: T -> bool)
    ensures Filter(a + b, p) == Filter(a, p) + Filter(b, p)
  {
    var ab := a + b;
    if a == [] {
      assert ab == b;
    } else {
      assert ab != [] && ab[0] == a[0] && ab[1..] == a[1..] + b;
      FilterConcat(a[1..], b, p);
      var rest := Filter(a[1..], p);
      if p(a[0]) {
        assert Filter(ab, p) == [a[0]] + (rest + Filter(b, p));
        assert Filter(a, p) == [a[0]] + rest;
      } else {
        assert Filter(ab, p) == rest + Filter(b, p);
      }
    }
  }

  /** The concatenation `f(lo + 1) + ... + f(hi)`, empty when `hi <= lo`. */
  function ConcatRange<T>(f: int -> seq<T>, lo: int, hi: int): seq<T>
    decreases hi - lo
  {
    if hi <= lo then [] else ConcatRange(f, lo, hi - 1) + f(hi)
  }

  /** A range concatenation splits at any point inside the range. */
  lemma {:induction false} ConcatRangeSplit<T>(f: int -> seq<T>, lo: int, mid: int, hi: int)
    requires lo <= mid <= hi
    ensures ConcatRange(f, lo, hi) == ConcatRange(f, lo, mid) + ConcatRange(f, mid, hi)
    decreases hi - mid
  {
    if hi > mid {
      ConcatRangeSplit(f, lo, mid, hi - 1);
    }
  }

  /** `LIMIT n`: at most the first `n` elements. */
  function Take<T>(s: seq<T>, n: int): (r: seq<T>)
    ensures |r| == if n <= 0 then 0 else if n < |s| then n else |s|
    ensures forall k :: 0 <= k < |r| ==> r[k] == s[k]
  {
    if n <= 0 then [] else if n < |s| then s[..n] else s
  }

  /**
   * The first `n` of a descending ranking are a top: each comes from `s`, and
   * nothing of `s` left out ranks above one kept.
   */
  lemma TopOfRanking<T>(s: seq<T>, key: T -> int, n: int)
    ensures var r := Take(SortByDesc(s, key), n);
      (forall v :: v in r ==> v in s)
      && (forall v, w :: v in s && v !in r && w in r ==> key(v) <= key(w))
  {
    var sorted := SortByDesc(s, key);
    var r := Take(sorted, n);
    forall v | v in r ensures v in s {
      assert v in multiset(sorted);
    }
    forall v, w | v in s && v !in r && w in r ensures key(v) <= key(w) {
      assert v in multiset(sorted);
      var j :| 0 <= j < |sorted| && sorted[j] == v;
      var i :| 0 <= i < |r| && r[i] == w;
    }
  }

  /** The sum of a sequence of integers. */
  function Sum(s: seq<int>): int {
    if s == [] then 0 else Sum(s[..|s| - 1]) + s[|s| - 1]
  }

  lemma {:induction false} SumConcat(a: seq<int>, b: seq<int>)
    ensures Sum(a + b) == Sum(a) + Sum(b)
    decreases |b|
  {
    if b == [] {
      assert a + b == a;
    } else {
      var binit := b[..|b| - 1];
      assert (a + b)[..|a + b| - 1] == a + binit;
      assert (a + b)[|a + b| - 1] == b[|b| - 1];
      SumConcat(a, binit);
    }
  }

  /** Reordering does not change a sum. */
  lemma {:induction false} SumPermutation(a: seq<int>, b: seq<int>)
    requires multiset(a) == multiset(b)
    ensures Sum(a) == Sum(b)
    decreases |a|
  {
    if a != [] {
      var x := a[|a| - 1];
      var ainit := a[..|a| - 1];
      assert a == ainit + [x];
      assert x in multiset(b);
      var i :| 0 <= i < |b| && b[i] == x;
      var rest := b[..i] + b[i + 1..];
      assert b == b[..i] + [x] + b[i + 1..];
      assert multiset(b) == multiset(b[..i]) + multiset{x} + multiset(b[i + 1..]);
      assert multiset(a) == multiset(ainit) + multiset{x};
      assert multiset(rest) == multiset(b[..i]) + multiset(b[i + 1..]);
      assert multiset(rest) == multiset(b) - multiset{x};
      assert multiset(ainit) == multiset(a) - multiset{x};
      SumPermutation(ainit, rest);
      SumConcat(b[..i], b[i + 1..]);
      SumConcat(b[..i] + [x], b[i + 1..]);
      SumConcat(b[..i], [x]);
    }
  }

  lemma {:induction false} SumNonNegative(s: seq<int>)
    requires forall k :: 0 <= k < |s| ==> s[k] >= 0
    ensures Sum(s) >= 0
  {
    if s != [] {
      SumNonNegative(s[..|s| - 1]);
    }
  }

  /** With non-negative terms, a prefix never sums to more than the whole. */
  lemma SumTakeBelow(s: seq<int>, n: int)
    requires forall k :: 0 <= k < |s| ==> s[k] >= 0
    ensures Sum(Take(s, n)) <= Sum(s)
  {
    var t := Take(s, n);
    assert s == t + s[|t|..];
    SumConcat(t, s[|t|..]);
    SumNonNegative(s[|t|..]);
  }
}
