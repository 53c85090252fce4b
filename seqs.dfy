/** Sequence helpers shared by the attendance model: the filters, counts and
    uniqueness checks that the database queries of the application perform.
    `Filter` and `Count` peel the LAST element, so that a loop that walks a
    sequence forwards keeps `f(s[..i])` as its invariant. */
module Seqs {

  /** The elements of `s` that satisfy `p`, in their original order. */
  function Filter<T>(s: seq<T>, p: T -> bool): (r: seq<T>)
    ensures |r| <= |s|
  {
    if |s| == 0 then []
    else Filter(s[..|s| - 1], p) + (if p(s[|s| - 1]) then [s[|s| - 1]] else [])
  }

  /** `Filter` keeps exactly the elements that satisfy the predicate. */
  lemma {:induction false} FilterMembers<T(!new)>(s: seq<T>, p: T -> bool)
    ensures forall x :: x in Filter(s, p) <==> x in s && p(x)
  {
    if |s| > 0 {
      assert s == s[..|s| - 1] + [s[|s| - 1]];
      FilterMembers(s[..|s| - 1], p);
    }
  }

  /** How many elements of `s` satisfy `p`. */
  function Count<T>(s: seq<T>, p: T -> bool): (n: nat)
    ensures n <= |s|
  {
    if |s| == 0 then 0
    else Count(s[..|s| - 1], p) + (if p(s[|s| - 1]) then 1 else 0)
  }

  /** No two positions of `s` carry the same key. */
  predicate DistinctBy<T, K(==)>(s: seq<T>, key: T -> K) {
    forall i, j :: 0 <= i < j < |s| ==> key(s[i]) != key(s[j])
  }

  /** No value occurs twice in `s`. */
  predicate Distinct<T(==)>(s: seq<T>) {
    forall i, j :: 0 <= i < j < |s| ==> s[i] != s[j]
  }

  /** The position of the first occurrence of `x` in `s`. */
  function IndexOf<T(==)>(s: seq<T>, x: T): (i: nat)
    requires x in s
    ensures i < |s| && s[i] == x
  {
    if s[0] == x then 0 else 1 + IndexOf(s[1..], x)
  }

  lemma {:induction false} FilterConcat<T(!new)>(a: seq<T>, b: seq<T>, p: T -> bool)
    ensures Filter(a + b, p) == Filter(a, p) + Filter(b, p)
  {
    if |b| == 0 {
      assert a + b == a;
    } else {
      var b' := b[..|b| - 1];
      assert (a + b)[..|a + b| - 1] == a + b';
      FilterConcat(a, b', p);
    }
  }

  lemma {:induction false} CountConcat<T(!new)>(a: seq<T>, b: seq<T>, p: T -> bool)
    ensures Count(a + b, p) == Count(a, p) + Count(b, p)
  {
    if |b| == 0 {
      assert a + b == a;
    } else {
      var b' := b[..|b| - 1];
      assert (a + b)[..|a + b| - 1] == a + b';
      CountConcat(a, b', p);
    }
  }

  lemma FilterCons<T(!new)>(a: T, s: seq<T>, p: T -> bool)
    ensures Filter([a] + s, p) == (if p(a) then [a] else []) + Filter(s, p)
  {
    var single := [a];
    assert single[..|single| - 1] == [];
    assert Filter(single, p) == (if p(a) then [a] else []);
    FilterConcat(single, s, p);
  }

  lemma CountCons<T(!new)>(a: T, s: seq<T>, p: T -> bool)
    ensures Count([a] + s, p) == (if p(a) then 1 else 0) + Count(s, p)
  {
    var single := [a];
    assert single[..|single| - 1] == [];
    assert Count(single, p) == (if p(a) then 1 else 0);
    CountConcat(single, s, p);
  }

  /** Two predicates that agree on every element of `s` select the same elements. */
  lemma {:induction false} FilterCongruent<T(!new)>(s: seq<T>, p: T -> bool, q: T -> bool)
    requires forall x :: x in s ==> p(x) == q(x)
    ensures Filter(s, p) == Filter(s, q)
  {
    if |s| > 0 {
      FilterCongruent(s[..|s| - 1], p, q);
    }
  }

  /** Selecting elements never makes two of them share a key. */
  lemma {:induction false} FilterKeepsDistinct<T(!new), K>(s: seq<T>, p: T -> bool, key: T -> K)
    requires DistinctBy(s, key)
    ensures DistinctBy(Filter(s, p), key)
  {
    if |s| > 0 {
      var n := |s|;
      var s' := s[..n - 1];
      FilterKeepsDistinct(s', p, key);
      FilterMembers(s', p);
      var f' := Filter(s', p);
      if p(s[n - 1]) {
        forall i | 0 <= i < |f'|
          ensures key(f'[i]) != key(s[n - 1])
        {
          assert f'[i] in s';
          var k :| 0 <= k < n - 1 && s'[k] == f'[i];
        }
        assert Filter(s, p) == f' + [s[n - 1]];
      }
    }
  }

  /** A sequence with distinct keys whose keys all occur in `b` is no longer than `b`. */
  lemma {:induction false} DistinctKeysBound<T, K>(a: seq<T>, key: T -> K, b: seq<K>)
    requires DistinctBy(a, key)
    requires forall x :: x in a ==> key(x) in b
    ensures |a| <= |b|
  {
    if |a| > 0 {
      var n := |a|;
      var a' := a[..n - 1];
      var x := key(a[n - 1]);
      assert a[n - 1] in a;
      var k :| 0 <= k < |b| && b[k] == x;
      var b' := b[..k] + b[k + 1..];
      forall y | y in a'
        ensures key(y) in b'
      {
        var i :| 0 <= i < n - 1 && a'[i] == y;
        assert key(y) != x;
        assert y in a;
        var j :| 0 <= j < |b| && b[j] == key(y);
        if j < k {
          assert b'[j] == key(y);
        } else {
          assert b'[j - 1] == key(y);
        }
      }
      DistinctKeysBound(a', key, b');
    }
  }
}
