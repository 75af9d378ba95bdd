/** The Risk tab's two headline shares (app.py:359-360): the percentage of
    filtered reviews rated 1 and the percentage rated 2 or less. */
module Risk {
  import opened Basics
  import opened Records

  /** 1 for a record rated exactly 1, else 0; a missing rating gives 0. */
  function OneStarSeries(rs: seq<Review>): (xs: seq<real>)
    ensures |xs| == |rs|
    ensures forall i :: 0 <= i < |rs| ==> xs[i] == (if rs[i].rating == Some(1.0) then 1.0 else 0.0)
  {
    seq(|rs|, i requires 0 <= i < |rs| => if rs[i].rating == Some(1.0) then 1.0 else 0.0)
  }

  /** 1 for a record rated 2 or less, else 0; a missing rating gives 0. */
  function NegativeSeries(rs: seq<Review>): (xs: seq<real>)
    ensures |xs| == |rs|
    ensures forall i :: 0 <= i < |rs| ==>
              xs[i] == (if rs[i].rating.Some? && rs[i].rating.value <= 2.0 then 1.0 else 0.0)
  {
    seq(|rs|, i requires 0 <= i < |rs| =>
      if rs[i].rating.Some? && rs[i].rating.value <= 2.0 then 1.0 else 0.0)
  }

  /** "1★ Risk %": undefined (NaN) over no reviews. */
  function OneStarRisk(rs: seq<Review>): (p: Option<real>)
  {
    Percent(OneStarSeries(rs))
  }

  /** "Negative %": undefined (NaN) over no reviews. */
  function NegativeRisk(rs: seq<Review>): (p: Option<real>)
  {
    Percent(NegativeSeries(rs))
  }

  /** Both shares are defined exactly for a non-empty review set; they are the
      counted shares of 1-star and of at-most-2-star reviews, lie in [0, 100],
      and the 1-star share never exceeds the negative share. */
  lemma RiskBounds(rs: seq<Review>)
    ensures OneStarRisk(rs).Some? <==> |rs| > 0
    ensures NegativeRisk(rs).Some? <==> |rs| > 0
    ensures |rs| > 0 ==>
              OneStarRisk(rs) == Some(100.0 * (CountOnes(OneStarSeries(rs)) as real) / (|rs| as real))
    ensures |rs| > 0 ==>
              NegativeRisk(rs) == Some(100.0 * (CountOnes(NegativeSeries(rs)) as real) / (|rs| as real))
    ensures |rs| > 0 ==>
              0.0 <= OneStarRisk(rs).value <= NegativeRisk(rs).value <= 100.0
  {
    var ones, negs := OneStarSeries(rs), NegativeSeries(rs);
    PercentOfIndicator(ones);
    PercentOfIndicator(negs);
    if |rs| > 0 {
      CountOnesMonotone(ones, negs);
      QuotientMonotone(CountOnes(ones) as real, CountOnes(negs) as real, |rs| as real);
    }
  }

  lemma QuotientMonotone(a: real, b: real, n: real)
    requires a <= b && n > 0.0
    ensures 100.0 * a / n <= 100.0 * b / n
  {
    var p, q := 100.0 * a / n, 100.0 * b / n;
    assert p * n == 100.0 * a;
    assert q * n == 100.0 * b;
    assert (q - p) * n >= 0.0;
  }
}
