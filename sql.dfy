/** The SQL aggregate semantics the queries rely on, over exact reals.
    A column is the sequence of its non-NULL values; SUM and AVG over an
    empty column are NULL, modelled as None. */
module Sql {

  datatype Option<+T> = None | Some(value: T) {

    /** The value, or `default` for NULL (Python's `x or default` on a number). */
    function GetOr(default: T): T {
      match this
      case Some(v) => v
      case None => default
    }
  }

  /** The exact sum of a column, in row order. */
  function Sum(xs: seq<real>): real {
    if xs == [] then 0.0 else xs[0] + Sum(xs[1..])
  }

  /** SQL SUM: NULL over no values, otherwise their sum. */
  function SqlSum(xs: seq<real>): Option<real> {
    if xs == [] then None else Some(Sum(xs))
  }

  /** SQL AVG: NULL over no values, otherwise their sum divided by their count. */
  function SqlAvg(xs: seq<real>): Option<real> {
    if xs == [] then None else Some(Sum(xs) / |xs| as real)
  }

  lemma {:induction false} SumAppend(a: seq<real>, b: seq<real>)
    ensures Sum(a + b) == Sum(a) + Sum(b)
    decreases |a|
  {
    if a == [] {
      assert a + b == b;
    } else {
      assert (a + b)[1..] == a[1..] + b;
      SumAppend(a[1..], b);
    }
  }

  /** A sequence is its prefix before i, its element at i and its suffix after i. */
  lemma SplitAt<T>(b: seq<T>, i: nat)
    requires i < |b|
    ensures b == (b[..i] + [b[i]]) + b[i + 1..]
  {
  }

  /** Moving a middle part of a concatenation aside does not change its multiset. */
  lemma MultisetRegroup<T>(f: seq<T>, m: seq<T>, k: seq<T>)
    ensures multiset((f + m) + k) == multiset(f + k) + multiset(m)
  {
  }

  /** Taking out the element at index i takes it out of the multiset. */
  lemma MultisetRemoveAt<T>(b: seq<T>, i: nat)
    requires i < |b|
    ensures multiset(b) == multiset(b[..i] + b[i + 1..]) + multiset{b[i]}
  {
    SplitAt(b, i);
    MultisetRegroup(b[..i], [b[i]], b[i + 1..]);
  }

  /** Equal after adding the same element, equal before. */
  lemma MultisetCancel<T>(p: multiset<T>, q: multiset<T>, x: T)
    requires p + multiset{x} == q + multiset{x}
    ensures p == q
  {
    assert p == (p + multiset{x}) - multiset{x};
    assert q == (q + multiset{x}) - multiset{x};
  }

  /** Taking the same value out of two permutations of each other leaves
      permutations of each other. */
  lemma MultisetTails<T>(a: seq<T>, b: seq<T>, i: nat)
    requires multiset(a) == multiset(b) && a != [] && i < |b| && b[i] == a[0]
    ensures multiset(a[1..]) == multiset(b[..i] + b[i + 1..])
  {
    MultisetRemoveAt(b, i);
    MultisetRemoveAt(a, 0);
    assert a[..0] + a[1..] == a[1..];
    MultisetCancel(multiset(a[1..]), multiset(b[..i] + b[i + 1..]), a[0]);
  }

  /** A position of a value that occurs in the sequence. */
  lemma IndexOf<T>(b: seq<T>, x: T) returns (i: nat)
    requires x in multiset(b)
    ensures i < |b| && b[i] == x
  {
    assert x in b;
    i :| i < |b| && b[i] == x;
  }

  /** Taking out the value at index i takes it out of the sum. */
  lemma SumRemoveAt(b: seq<real>, i: nat)
    requires i < |b|
    ensures Sum(b) == b[i] + Sum(b[..i] + b[i + 1..])
  {
    SplitAt(b, i);
    SumAppend(b[..i] + [b[i]], b[i + 1..]);
    SumAppend(b[..i], [b[i]]);
    SumAppend(b[..i], b[i + 1..]);
    assert [b[i]][1..] == [];
  }

  /** Summation does not depend on the order of the rows. */
  lemma {:induction false} SumPermutation(a: seq<real>, b: seq<real>)
    requires multiset(a) == multiset(b)
    ensures Sum(a) == Sum(b)
    decreases |a|
  {
    if a == [] {
      assert |b| == |multiset(b)| == 0;
    } else {
      var i := IndexOf(b, a[0]);
      var rest := b[..i] + b[i + 1..];
      MultisetTails(a, b, i);
      SumRemoveAt(b, i);
      SumRemoveAt(a, 0);
      assert a[..0] + a[1..] == a[1..];
      SumPermutation(a[1..], rest);
    }
  }

  /** A sum of n values, each within [lo, hi], lies within [n * lo, n * hi]. */
  lemma {:induction false} SumBounds(xs: seq<real>, lo: real, hi: real)
    requires forall i | 0 <= i < |xs| :: lo <= xs[i] <= hi
    ensures |xs| as real * lo <= Sum(xs) <= |xs| as real * hi
    decreases |xs|
  {
    if xs != [] {
      SumBounds(xs[1..], lo, hi);
      assert |xs| as real * lo == (|xs[1..]| as real) * lo + lo;
      assert |xs| as real * hi == (|xs[1..]| as real) * hi + hi;
    }
  }

  /** An average lies between the smallest and the largest value averaged. */
  lemma AvgWithinBounds(xs: seq<real>, lo: real, hi: real)
    requires forall i | 0 <= i < |xs| :: lo <= xs[i] <= hi
    ensures SqlAvg(xs).Some? <==> xs != []
    ensures xs != [] ==> lo <= SqlAvg(xs).value <= hi
  {
    if xs != [] {
      SumBounds(xs, lo, hi);
      var n := |xs| as real;
      assert Sum(xs) / n * n == Sum(xs);
      assert lo * n <= Sum(xs) / n * n;
      assert Sum(xs) / n * n <= hi * n;
    }
  }
}
