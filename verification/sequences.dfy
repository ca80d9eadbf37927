/** Order-preserving filtering and mapping of sequences: the row-level core of
    pandas' boolean masks, `dropna` and column projection. */
module Sequences {

  /** The elements of `s` that `keep` accepts, in their original order. */
  function Filter<T(==,!new)>(s: seq<T>, keep: T -> bool): (r: seq<T>)
    ensures |r| <= |s|
    ensures forall i :: 0 <= i < |r| ==> keep(r[i])
    ensures forall x :: x in r <==> x in s && keep(x)
    decreases |s|
  {
    if |s| == 0 then []
    else if keep(s[0]) then [s[0]] + Filter(s[1..], keep)
    else Filter(s[1..], keep)
  }

  function Map<T, U>(s: seq<T>, f: T -> U): seq<U> {
    seq(|s|, i requires 0 <= i < |s| => f(s[i]))
  }

  /** `xs` can be obtained from `ys` by deleting elements (relative order is kept). */
  predicate IsSubsequence<T(==,!new)>(xs: seq<T>, ys: seq<T>)
    decreases |ys|
  {
    if |xs| == 0 then true
    else if |ys| == 0 then false
    else (xs[0] == ys[0] && IsSubsequence(xs[1..], ys[1..])) || IsSubsequence(xs, ys[1..])
  }

  lemma {:induction false} FilterIsSubsequence<T(!new)>(s: seq<T>, keep: T -> bool)
    ensures IsSubsequence(Filter(s, keep), s)
    decreases |s|
  {
    if |s| > 0 {
      FilterIsSubsequence(s[1..], keep);
      if keep(s[0]) {
        assert Filter(s, keep)[1..] == Filter(s[1..], keep);
      }
    }
  }

  /** Filtering keeps every occurrence of an accepted element and none of a rejected one. */
  lemma {:induction false} FilterMultiset<T(!new)>(s: seq<T>, keep: T -> bool)
    ensures forall x :: multiset(Filter(s, keep))[x] == if keep(x) then multiset(s)[x] else 0
    decreases |s|
  {
    if |s| > 0 {
      FilterMultiset(s[1..], keep);
      assert s == [s[0]] + s[1..];
      if keep(s[0]) {
        assert Filter(s, keep) == [s[0]] + Filter(s[1..], keep);
      }
    }
  }

  /** A subsequence holds no element more often than the sequence it is taken from. */
  lemma {:induction false} SubsequenceMultiset<T(!new)>(xs: seq<T>, ys: seq<T>)
    requires IsSubsequence(xs, ys)
    ensures multiset(xs) <= multiset(ys)
    decreases |ys|
  {
    if |xs| > 0 {
      assert ys == [ys[0]] + ys[1..];
      if xs[0] == ys[0] && IsSubsequence(xs[1..], ys[1..]) {
        SubsequenceMultiset(xs[1..], ys[1..]);
        assert xs == [xs[0]] + xs[1..];
      } else {
        SubsequenceMultiset(xs, ys[1..]);
      }
    }
  }

  /** The order-keeping selection with the multiplicities of a filter is that
      filter: the contract of `Filter` determines its result. */
  lemma {:induction false} FilterUnique<T(!new)>(s: seq<T>, keep: T -> bool, xs: seq<T>)
    requires IsSubsequence(xs, s)
    requires forall x :: multiset(xs)[x] == if keep(x) then multiset(s)[x] else 0
    ensures xs == Filter(s, keep)
    decreases |s|
  {
    if |s| == 0 {
      assert |xs| == 0;
    } else {
      var y, tail := s[0], s[1..];
      assert s == [y] + tail;
      if keep(y) {
        assert multiset(xs)[y] == multiset(s)[y] > 0;
        assert |xs| > 0;
        if !(xs[0] == y && IsSubsequence(xs[1..], tail)) {
          SubsequenceMultiset(xs, tail);
        }
        assert xs == [y] + xs[1..];
        FilterUnique(tail, keep, xs[1..]);
      } else {
        if |xs| > 0 {
          assert IsSubsequence(xs, tail);
        }
        FilterUnique(tail, keep, xs);
      }
    }
  }

  /** Filtering keeps everything exactly when every element is accepted. */
  lemma {:induction false} FilterKeepsAll<T(!new)>(s: seq<T>, keep: T -> bool)
    ensures Filter(s, keep) == s <==> forall i :: 0 <= i < |s| ==> keep(s[i])
    decreases |s|
  {
    if |s| > 0 {
      FilterKeepsAll(s[1..], keep);
      assert [s[0]] + s[1..] == s;
      if !keep(s[0]) {
        assert |Filter(s, keep)| < |s|;
      } else if Filter(s, keep) == s {
        assert Filter(s[1..], keep) == s[1..];
      }
    }
  }

  /** Filtering loses no element exactly when every element is accepted. */
  lemma {:induction false} FilterCountAll<T(!new)>(s: seq<T>, keep: T -> bool)
    ensures |Filter(s, keep)| == |s| <==> forall i :: 0 <= i < |s| ==> keep(s[i])
    decreases |s|
  {
    if |s| > 0 {
      FilterCountAll(s[1..], keep);
      assert forall i :: 1 <= i < |s| ==> s[1..][i - 1] == s[i];
    }
  }

  /** Each element of a filtered-then-mapped sequence is the image of an
      accepted element of the original. */
  lemma {:induction false} MapFilterOrigin<T(!new), U>(s: seq<T>, keep: T -> bool, f: T -> U, j: int)
    requires 0 <= j < |Map(Filter(s, keep), f)|
    ensures exists i :: 0 <= i < |s| && keep(s[i]) && Map(Filter(s, keep), f)[j] == f(s[i])
  {
    var r := Filter(s, keep);
    assert r[j] in s;
    var i :| 0 <= i < |s| && s[i] == r[j];
    assert keep(s[i]);
  }

  /** The image of every accepted element is in the filtered-then-mapped sequence. */
  lemma {:induction false} MapFilterComplete<T(!new), U>(s: seq<T>, keep: T -> bool, f: T -> U, i: int)
    requires 0 <= i < |s| && keep(s[i])
    ensures f(s[i]) in Map(Filter(s, keep), f)
  {
    var r := Filter(s, keep);
    assert s[i] in r;
    var k :| 0 <= k < |r| && r[k] == s[i];
    assert Map(r, f)[k] == f(s[i]);
  }

  /** A second filter loses nothing exactly when it accepts everything the first did. */
  lemma {:induction false} FilterCountAllWithin<T(!new)>(s: seq<T>, p: T -> bool, q: T -> bool)
    ensures |Filter(Filter(s, p), q)| == |Filter(s, p)| <==> forall i :: 0 <= i < |s| && p(s[i]) ==> q(s[i])
  {
    var r := Filter(s, p);
    FilterCountAll(r, q);
    if forall k :: 0 <= k < |r| ==> q(r[k]) {
      forall i | 0 <= i < |s| && p(s[i]) ensures q(s[i]) {
        assert s[i] in r;
      }
    }
    if forall i :: 0 <= i < |s| && p(s[i]) ==> q(s[i]) {
      forall k | 0 <= k < |r| ensures q(r[k]) {
        assert r[k] in s;
      }
    }
  }

  /** Filtering twice with the same test is filtering once. */
  lemma FilterIdempotent<T(!new)>(s: seq<T>, keep: T -> bool)
    ensures Filter(Filter(s, keep), keep) == Filter(s, keep)
  {
    var r := Filter(s, keep);
    FilterKeepsAll(r, keep);
  }

  /** Two successive filters are one filter by the conjunction of their tests. */
  lemma {:induction false} FilterFilter<T(!new)>(s: seq<T>, p: T -> bool, q: T -> bool, pq: T -> bool)
    requires forall x :: pq(x) == (p(x) && q(x))
    ensures Filter(Filter(s, p), q) == Filter(s, pq)
    decreases |s|
  {
    if |s| > 0 {
      FilterFilter(s[1..], p, q, pq);
    }
  }

  /** Filtering the images of a map is mapping the elements whose image passes. */
  lemma {:induction false} FilterMap<T(!new), U(!new)>(s: seq<T>, f: T -> U, p: U -> bool, q: T -> bool)
    requires forall x :: q(x) == p(f(x))
    ensures Filter(Map(s, f), p) == Map(Filter(s, q), f)
    decreases |s|
  {
    if |s| > 0 {
      FilterMap(s[1..], f, p, q);
      assert Map(s, f)[1..] == Map(s[1..], f);
      if q(s[0]) {
        assert Map(Filter(s, q), f) == [f(s[0])] + Map(Filter(s[1..], q), f);
      }
    }
  }

  lemma MapPointwise<T, U>(s: seq<T>, f: T -> U, ys: seq<U>)
    requires |s| == |ys| && forall i :: 0 <= i < |s| ==> f(s[i]) == ys[i]
    ensures Map(s, f) == ys
  {
  }

  /** Mapping a non-empty sequence maps its head, then its tail. */
  lemma MapCons<T, U>(s: seq<T>, f: T -> U)
    requires |s| > 0
    ensures Map(s, f) == [f(s[0])] + Map(s[1..], f)
  {
  }

  lemma MapMap<T, U, V>(s: seq<T>, f: T -> U, g: U -> V, h: T -> V)
    requires forall x :: h(x) == g(f(x))
    ensures Map(Map(s, f), g) == Map(s, h)
  {
  }

  /** Filters by mutually exclusive tests split the elements their disjunction accepts. */
  lemma {:induction false} FilterDisjointCount<T(!new)>(s: seq<T>, p: T -> bool, q: T -> bool, pq: T -> bool)
    requires forall x :: !(p(x) && q(x))
    requires forall x :: pq(x) == (p(x) || q(x))
    ensures |Filter(s, p)| + |Filter(s, q)| == |Filter(s, pq)|
    decreases |s|
  {
    if |s| > 0 {
      FilterDisjointCount(s[1..], p, q, pq);
    }
  }
}
