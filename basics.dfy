/** Shared vocabulary: optional values (a pandas NaN or a missing cell is None),
    order-preserving subsequences, and the exact-arithmetic means that pandas'
    `Series.mean()` computes. */
module Basics {

  datatype Option<T> = None | Some(value: T)

  /** xs is obtained from ys by deleting elements, keeping the order of the rest. */
  ghost predicate IsSubseq<T>(xs: seq<T>, ys: seq<T>)
    decreases |ys|
  {
    if xs == [] then true
    else if ys == [] then false
    else
      (xs[|xs| - 1] == ys[|ys| - 1] && IsSubseq(xs[..|xs| - 1], ys[..|ys| - 1]))
      || IsSubseq(xs, ys[..|ys| - 1])
  }

  /** Every element of a subsequence occurs in the sequence it was taken from. */
  lemma {:induction false} SubseqMembers<T>(xs: seq<T>, ys: seq<T>)
    requires IsSubseq(xs, ys)
    ensures |xs| <= |ys|
    ensures forall x :: x in xs ==> x in ys
    decreases |ys|
  {
    if xs != [] {
      var xi, yi := xs[..|xs| - 1], ys[..|ys| - 1];
      if xs[|xs| - 1] == ys[|ys| - 1] && IsSubseq(xi, yi) {
        SubseqMembers(xi, yi);
        assert xs == xi + [ys[|ys| - 1]];
        assert ys == yi + [ys[|ys| - 1]];
      } else {
        SubseqMembers(xs, yi);
        assert ys == yi + [ys[|ys| - 1]];
      }
    }
  }

  /** Sum of a series, added from the front. */
  function Sum(xs: seq<real>): (s: real)
  {
    if xs == [] then 0.0 else Sum(xs[..|xs| - 1]) + xs[|xs| - 1]
  }

  /** Arithmetic mean; None stands for the NaN that pandas returns for an empty series. */
  function Mean(xs: seq<real>): (m: Option<real>)
    ensures m.Some? <==> |xs| > 0
  {
    if |xs| == 0 then None else Some(Sum(xs) / (|xs| as real))
  }

  /** The mean of a series as a percentage. */
  function Percent(xs: seq<real>): (p: Option<real>)
    ensures p.Some? <==> |xs| > 0
  {
    match Mean(xs)
    case None => None
    case Some(m) => Some(m * 100.0)
  }

  /** Number of entries equal to 1. */
  function CountOnes(xs: seq<real>): (n: nat)
    ensures n <= |xs|
  {
    if xs == [] then 0
    else CountOnes(xs[..|xs| - 1]) + (if xs[|xs| - 1] == 1.0 then 1 else 0)
  }

  ghost predicate IsIndicator(xs: seq<real>)
  {
    forall i :: 0 <= i < |xs| ==> xs[i] == 0.0 || xs[i] == 1.0
  }

  /** If every entry lies in [lo, hi], the sum lies in [n*lo, n*hi]. */
  lemma {:induction false} SumBounds(xs: seq<real>, lo: real, hi: real)
    requires forall i :: 0 <= i < |xs| ==> lo <= xs[i] <= hi
    ensures (|xs| as real) * lo <= Sum(xs) <= (|xs| as real) * hi
  {
    if xs != [] {
      var init := xs[..|xs| - 1];
      SumBounds(init, lo, hi);
      assert (|xs| as real) * lo == (|init| as real) * lo + lo;
      assert (|xs| as real) * hi == (|init| as real) * hi + hi;
    }
  }

  /** A mean lies between any lower and any upper bound of its series. */
  lemma MeanBounds(xs: seq<real>, lo: real, hi: real)
    requires forall i :: 0 <= i < |xs| ==> lo <= xs[i] <= hi
    ensures Mean(xs).Some? ==> lo <= Mean(xs).value <= hi
  {
    if |xs| > 0 {
      SumBounds(xs, lo, hi);
      var n := |xs| as real;
      assert Sum(xs) / n >= lo by { assert Sum(xs) >= n * lo; }
      assert Sum(xs) / n <= hi by { assert Sum(xs) <= n * hi; }
    }
  }

  /** The sum of a 0/1 series is the number of its ones. */
  lemma {:induction false} SumOfIndicator(xs: seq<real>)
    requires IsIndicator(xs)
    ensures Sum(xs) == CountOnes(xs) as real
  {
    if xs != [] {
      SumOfIndicator(xs[..|xs| - 1]);
    }
  }

  /** The percentage of a non-empty 0/1 series is 100 * (number of ones) / length,
      and so lies in [0, 100]. */
  lemma PercentOfIndicator(xs: seq<real>)
    requires IsIndicator(xs)
    ensures |xs| > 0 ==> Percent(xs) == Some(100.0 * (CountOnes(xs) as real) / (|xs| as real))
    ensures |xs| > 0 ==> 0.0 <= Percent(xs).value <= 100.0
  {
    if |xs| > 0 {
      SumOfIndicator(xs);
      var n, c := |xs| as real, CountOnes(xs) as real;
      assert 0.0 <= c <= n && n > 0.0;
      assert Mean(xs) == Some(c / n);
      ScaleQuotient(c, n);
    }
  }

  lemma ScaleQuotient(c: real, n: real)
    requires 0.0 <= c <= n && n > 0.0
    ensures 0.0 <= c / n * 100.0 == 100.0 * c / n <= 100.0
  {
    var q, r := c / n, 100.0 * c / n;
    assert q * n == c;
    assert r * n == 100.0 * c;
    assert (r - 100.0 * q) * n == 0.0;
    assert 0.0 <= r <= 100.0;
  }

  /** Where xs has a one, ys has a one too: xs has no more ones than ys. */
  lemma {:induction false} CountOnesMonotone(xs: seq<real>, ys: seq<real>)
    requires |xs| == |ys|
    requires forall i :: 0 <= i < |xs| && xs[i] == 1.0 ==> ys[i] == 1.0
    ensures CountOnes(xs) <= CountOnes(ys)
  {
    if xs != [] {
      CountOnesMonotone(xs[..|xs| - 1], ys[..|ys| - 1]);
    }
  }
}
