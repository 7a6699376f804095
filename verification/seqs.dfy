/** Counting over sequences: the `groupby(...).size()`, `value_counts()` and `sum()`
    of the scripts all reduce to these. */
module Seqs {

  /** The elements of `s` that satisfy `p`, in their original order (a boolean mask
      applied to a frame). */
  function Filter<T>(p: T -> bool, s: seq<T>): (r: seq<T>)
    ensures |r| <= |s|
    ensures forall i :: 0 <= i < |r| ==> r[i] in s && p(r[i])
    ensures forall i :: 0 <= i < |s| && p(s[i]) ==> s[i] in r
  {
    if |s| == 0 then []
    else if p(s[0]) then [s[0]] + Filter(p, s[1..])
    else Filter(p, s[1..])
  }

  /** A mask distributes over concatenation: it keeps each element on its own merits
      and never reorders. */
  lemma {:induction false} FilterAppend<T>(p: T -> bool, a: seq<T>, b: seq<T>)
    ensures Filter(p, a + b) == Filter(p, a) + Filter(p, b)
  {
    if |a| == 0 {
      assert a + b == b;
    } else {
      assert (a + b)[1..] == a[1..] + b;
      FilterAppend(p, a[1..], b);
    }
  }

  lemma FilterCons<T>(p: T -> bool, s: seq<T>)
    requires |s| > 0
    ensures Filter(p, s) == (if p(s[0]) then [s[0]] else []) + Filter(p, s[1..])
  {
  }

  /** A mask keeps every copy of a matching element and no copy of any other. */
  lemma {:induction false} FilterMultiset<T>(p: T -> bool, s: seq<T>, x: T)
    ensures multiset(Filter(p, s))[x] == if p(x) then multiset(s)[x] else 0
  {
    if |s| > 0 {
      FilterMultiset(p, s[1..], x);
      assert s == [s[0]] + s[1..];
    }
  }

  /** A mask keeps only elements of its input, so whatever holds of every input
      element holds of every kept one. */
  lemma {:induction false} FilterAll<T>(p: T -> bool, q: T -> bool, s: seq<T>)
    requires forall i :: 0 <= i < |s| ==> q(s[i])
    ensures forall i :: 0 <= i < |Filter(p, s)| ==> q(Filter(p, s)[i])
  {
    if |s| > 0 {
      FilterAll(p, q, s[1..]);
      FilterCons(p, s);
    }
  }

  /** Number of occurrences of `x` in `xs`. */
  function Occ<T(==)>(xs: seq<T>, x: T): (n: nat)
    ensures n <= |xs|
    ensures n == multiset(xs)[x]
    ensures n > 0 <==> x in xs
  {
    if |xs| == 0 then 0
    else
      assert xs == [xs[0]] + xs[1..];
      (if xs[0] == x then 1 else 0) + Occ(xs[1..], x)
  }

  function Sum(s: seq<nat>): nat {
    if |s| == 0 then 0 else s[0] + Sum(s[1..])
  }

  lemma {:induction false} SumAppend(a: seq<nat>, b: seq<nat>)
    ensures Sum(a + b) == Sum(a) + Sum(b)
  {
    if |a| == 0 {
      assert a + b == b;
    } else {
      assert (a + b)[1..] == a[1..] + b;
      SumAppend(a[1..], b);
    }
  }

  /** The arithmetic mean of a non-empty column of counts. */
  function Mean(xs: seq<nat>): (m: real)
    requires |xs| > 0
    ensures m * |xs| as real == Sum(xs) as real
    ensures m >= 0.0
  {
    Sum(xs) as real / |xs| as real
  }

  /** `m` is the mean of `n` values adding up to `total`. */
  predicate IsMean(m: real, total: nat, n: nat) {
    m * n as real == total as real
  }

  lemma MeanTimesCount(xs: seq<nat>, n: nat)
    requires |xs| > 0 && Sum(xs) == n
    ensures IsMean(Mean(xs), n, |xs|)
  {
  }

  predicate Distinct<T(==)>(s: seq<T>) {
    forall i, j :: 0 <= i < j < |s| ==> s[i] != s[j]
  }

  /** A key list without repeats has as many entries as its set of keys. */
  lemma {:induction false} DistinctCardinality<T>(s: seq<T>)
    requires Distinct(s)
    ensures |set x | x in s| == |s|
  {
    if |s| > 0 {
      DistinctCardinality(s[1..]);
      var rest := set x | x in s[1..];
      assert (set x | x in s) == rest + {s[0]};
      assert s[0] !in rest;
    }
  }

  /** A repeat-free list drawn from another repeat-free list of the same length holds
      all of it. */
  lemma SameSizeCovers<T>(r: seq<T>, s: seq<T>)
    requires Distinct(r) && Distinct(s) && |r| == |s|
    requires forall i :: 0 <= i < |r| ==> r[i] in s
    ensures forall x :: x in s ==> x in r
  {
    DistinctCardinality(r);
    DistinctCardinality(s);
    var a, b := set x | x in r, set x | x in s;
    forall x | x in s ensures x in r {
      if x !in r {
        assert a <= b - {x};
        SubsetSize(a, b - {x});
      }
    }
  }

  lemma SubsetSize<T>(a: set<T>, b: set<T>)
    requires a <= b
    ensures |a| <= |b|
  {
    assert b == a + (b - a);
  }

  /** The occurrence counts of `xs` listed key by key along `keys`. */
  function CountsAlong<T(==)>(xs: seq<T>, keys: seq<T>): (r: seq<nat>)
    ensures |r| == |keys|
    ensures forall i :: 0 <= i < |keys| ==> r[i] == Occ(xs, keys[i])
  {
    seq(|keys|, i requires 0 <= i < |keys| => Occ(xs, keys[i]))
  }

  lemma {:induction false} OccDistinctMember<T>(keys: seq<T>, x: T)
    requires Distinct(keys) && x in keys
    ensures Occ(keys, x) == 1
  {
    if keys[0] == x {
      OccAbsent(keys[1..], x);
    } else {
      OccDistinctMember(keys[1..], x);
    }
  }

  lemma OccAbsent<T>(keys: seq<T>, x: T)
    requires x !in keys
    ensures Occ(keys, x) == 0
  {
  }

  /** Adding one element to `xs` adds one to the tally of its own key and nothing to
      the others. */
  lemma {:induction false} CountsAlongCons<T>(x: T, xs: seq<T>, keys: seq<T>)
    ensures Sum(CountsAlong([x] + xs, keys)) == Occ(keys, x) + Sum(CountsAlong(xs, keys))
  {
    if |keys| > 0 {
      var a := CountsAlong([x] + xs, keys);
      var b := CountsAlong(xs, keys);
      assert a[1..] == CountsAlong([x] + xs, keys[1..]);
      assert b[1..] == CountsAlong(xs, keys[1..]);
      assert ([x] + xs)[1..] == xs;
      CountsAlongCons(x, xs, keys[1..]);
    }
  }

  /** The heart of every "the counts add up" property: tallying `xs` along a list of
      distinct keys that covers every element of `xs` accounts for each element
      exactly once. */
  lemma {:induction false} CountsAlongTotal<T>(xs: seq<T>, keys: seq<T>)
    requires Distinct(keys)
    requires forall i :: 0 <= i < |xs| ==> xs[i] in keys
    ensures Sum(CountsAlong(xs, keys)) == |xs|
  {
    if |xs| == 0 {
      var c := CountsAlong(xs, keys);
      ZeroSum(c);
    } else {
      assert xs == [xs[0]] + xs[1..];
      CountsAlongCons(xs[0], xs[1..], keys);
      OccDistinctMember(keys, xs[0]);
      CountsAlongTotal(xs[1..], keys);
    }
  }

  lemma {:induction false} ZeroSum(s: seq<nat>)
    requires forall i :: 0 <= i < |s| ==> s[i] == 0
    ensures Sum(s) == 0
  {
    if |s| > 0 {
      ZeroSum(s[1..]);
    }
  }
}
