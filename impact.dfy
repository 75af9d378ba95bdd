/** The theme impact table of the Themes tab (app.py:316-335): for each detected
    theme, over the filtered records, how often it occurs, the mean rating of the
    reviews that carry it, and its impact against the overall mean rating. */
module ThemeImpact {
  import opened Basics
  import opened Records
  import opened Filters
  import opened ThemeDetector

  /** The coerced cell of column t in record r (None for NaN or an absent column). */
  function FlagCell(r: Review, t: string): Option<real>
  {
    if t in r.flags then r.flags[t] else None
  }

  /** The coerced flag of one record, a missing value counted as 0. */
  function FlagValue(r: Review, t: string): real
  {
    match FlagCell(r, t)
    case None => 0.0
    case Some(v) => v
  }

  /** The theme's flag series over the records, missing counted as 0. */
  function FlagSeries(rs: seq<Review>, t: string): (xs: seq<real>)
    ensures |xs| == |rs|
    ensures forall i :: 0 <= i < |rs| ==> xs[i] == FlagValue(rs[i], t)
  {
    seq(|rs|, i requires 0 <= i < |rs| => FlagValue(rs[i], t))
  }

  /** Column t of the loaded table, as the detector sees it. */
  function FlagColumn(rs: seq<Review>, t: string): (cells: seq<Option<real>>)
    ensures |cells| == |rs|
    ensures forall i :: 0 <= i < |rs| ==> cells[i] == FlagCell(rs[i], t)
  {
    seq(|rs|, i requires 0 <= i < |rs| => FlagCell(rs[i], t))
  }

  /** The mean flag as a percentage; None (NaN) for an empty record set. */
  function Frequency(rs: seq<Review>, t: string): (f: Option<real>)
  {
    Percent(FlagSeries(rs, t))
  }

  /** The records whose coerced flag equals 1, in order. */
  function FlaggedRows(rs: seq<Review>, t: string): (f: seq<Review>)
    ensures |f| <= |rs|
  {
    if rs == [] then []
    else
      var last := rs[|rs| - 1];
      FlaggedRows(rs[..|rs| - 1], t) + (if FlagValue(last, t) == 1.0 then [last] else [])
  }

  /** The ratings that are present, in order: a mean skips the missing ones. */
  function PresentRatings(rs: seq<Review>): (xs: seq<real>)
    ensures |xs| <= |rs|
  {
    if rs == [] then []
    else
      var last := rs[|rs| - 1];
      PresentRatings(rs[..|rs| - 1]) + (if last.rating.Some? then [last.rating.value] else [])
  }

  /** The mean present rating of the records that carry the theme. */
  function RatingWhenPresent(rs: seq<Review>, t: string): (m: Option<real>)
  {
    Mean(PresentRatings(FlaggedRows(rs, t)))
  }

  /** The mean present rating of all the records. */
  function MeanRating(rs: seq<Review>): (m: Option<real>)
  {
    Mean(PresentRatings(rs))
  }

  /** Frequency * (rating when present - overall mean); NaN propagates. As a
      formula, a zero frequency with defined ratings gives 0 and a positive one
      gives the sign of the theme's rating against the mean. In the table a
      theme that never occurs has no rating when present, so its impact is
      undefined (see UnseenThemeHasNoImpact). */
  function Impact(frequency: Option<real>, rating: Option<real>, overall: Option<real>): (x: Option<real>)
    ensures x.Some? <==> frequency.Some? && rating.Some? && overall.Some?
    ensures x.Some? && frequency.value == 0.0 ==> x.value == 0.0
    ensures x.Some? && frequency.value > 0.0 ==>
              (x.value > 0.0 <==> rating.value > overall.value) &&
              (x.value < 0.0 <==> rating.value < overall.value)
  {
    if frequency.Some? && rating.Some? && overall.Some? then
      var f, d := frequency.value, rating.value - overall.value;
      assert f > 0.0 ==> (f * d > 0.0 <==> d > 0.0) && (f * d < 0.0 <==> d < 0.0) by {
        if f > 0.0 {
          if d > 0.0 { assert f * d > 0.0; }
          if d < 0.0 { assert f * d < 0.0; }
        }
      }
      Some(f * d)
    else None
  }

  datatype ThemeRow = ThemeRow(theme: string, frequency: Option<real>, rating: Option<real>, impact: Option<real>)

  /** The loop over the detected themes, one row per theme, with its impact. */
  method ThemeImpactTable(rs: seq<Review>, themes: seq<string>) returns (rows: seq<ThemeRow>)
    ensures |rows| == |themes|
    ensures forall i :: 0 <= i < |themes| ==>
              && rows[i].theme == themes[i]
              && rows[i].frequency == Frequency(rs, themes[i])
              && rows[i].rating == RatingWhenPresent(rs, themes[i])
              && rows[i].impact == Impact(rows[i].frequency, rows[i].rating, MeanRating(rs))
  {
    var overall := MeanRating(rs);
    rows := [];
    for k := 0 to |themes|
      invariant |rows| == k
      invariant forall i :: 0 <= i < k ==>
                  && rows[i].theme == themes[i]
                  && rows[i].frequency == Frequency(rs, themes[i])
                  && rows[i].rating == RatingWhenPresent(rs, themes[i])
                  && rows[i].impact == Impact(rows[i].frequency, rows[i].rating, overall)
    {
      var t := themes[k];
      var freq := Frequency(rs, t);
      var rating := RatingWhenPresent(rs, t);
      rows := rows + [ThemeRow(t, freq, rating, Impact(freq, rating, overall))];
    }
  }

  // ---------------------------------------------------------------------------
  // Properties
  // ---------------------------------------------------------------------------

  /** Every record's coerced flag for t is 0 or 1 (missing counts as 0). */
  ghost predicate BinaryFlag(rs: seq<Review>, t: string)
  {
    forall r :: r in rs ==> FlagValue(r, t) == 0.0 || FlagValue(r, t) == 1.0
  }

  /** The flagged rows are exactly the ones the frequency counts. */
  lemma {:induction false} FlaggedRowsCount(rs: seq<Review>, t: string)
    ensures |FlaggedRows(rs, t)| == CountOnes(FlagSeries(rs, t))
  {
    if rs != [] {
      var init := rs[..|rs| - 1];
      FlaggedRowsCount(init, t);
      assert FlagSeries(rs, t)[..|rs| - 1] == FlagSeries(init, t);
    }
  }

  /** A record is flagged iff it is one of the records and its flag is 1. */
  lemma {:induction false} FlaggedRowsMembership(rs: seq<Review>, t: string)
    ensures forall r :: r in FlaggedRows(rs, t) <==> r in rs && FlagValue(r, t) == 1.0
  {
    if rs != [] {
      var init := rs[..|rs| - 1];
      FlaggedRowsMembership(init, t);
      assert rs == init + [rs[|rs| - 1]];
    }
  }

  /** Bounds that hold for every rated record hold for every present rating. */
  lemma {:induction false} PresentRatingsWithin(rs: seq<Review>, lo: real, hi: real)
    requires forall r :: r in rs && r.rating.Some? ==> lo <= r.rating.value <= hi
    ensures forall i :: 0 <= i < |PresentRatings(rs)| ==> lo <= PresentRatings(rs)[i] <= hi
  {
    if rs != [] {
      var init := rs[..|rs| - 1];
      assert rs == init + [rs[|rs| - 1]];
      PresentRatingsWithin(init, lo, hi);
    }
  }

  /** There is no present rating exactly when no record is rated. */
  lemma {:induction false} PresentRatingsEmpty(rs: seq<Review>)
    ensures PresentRatings(rs) == [] <==> forall r :: r in rs ==> r.rating.None?
  {
    if rs != [] {
      var init := rs[..|rs| - 1];
      assert rs == init + [rs[|rs| - 1]];
      PresentRatingsEmpty(init);
    }
  }

  /** Over a non-empty set of records with binary flags, the frequency is
      100 * (records flagged) / (records), and so lies in [0, 100]; over no
      records it is undefined. */
  lemma FrequencyOfBinaryFlag(rs: seq<Review>, t: string)
    requires BinaryFlag(rs, t)
    ensures |rs| == 0 <==> Frequency(rs, t).None?
    ensures |rs| > 0 ==>
              Frequency(rs, t) == Some(100.0 * (|FlaggedRows(rs, t)| as real) / (|rs| as real))
    ensures |rs| > 0 ==> 0.0 <= Frequency(rs, t).value <= 100.0
  {
    var xs := FlagSeries(rs, t);
    assert IsIndicator(xs) by {
      forall i | 0 <= i < |xs| ensures xs[i] == 0.0 || xs[i] == 1.0 {
        assert rs[i] in rs;
      }
    }
    PercentOfIndicator(xs);
    FlaggedRowsCount(rs, t);
  }

  /** The rating when present lies between any bounds of the ratings of the
      flagged records (so between their minimum and maximum). */
  lemma RatingWhenPresentBounds(rs: seq<Review>, t: string, lo: real, hi: real)
    requires forall r :: r in rs && FlagValue(r, t) == 1.0 && r.rating.Some? ==> lo <= r.rating.value <= hi
    ensures RatingWhenPresent(rs, t).Some? ==> lo <= RatingWhenPresent(rs, t).value <= hi
  {
    var flagged := FlaggedRows(rs, t);
    FlaggedRowsMembership(rs, t);
    PresentRatingsWithin(flagged, lo, hi);
    MeanBounds(PresentRatings(flagged), lo, hi);
  }

  /** The rating when present is undefined exactly when no flagged record has a rating. */
  lemma RatingWhenPresentUndefined(rs: seq<Review>, t: string)
    ensures RatingWhenPresent(rs, t).None? <==>
              forall r :: r in rs && FlagValue(r, t) == 1.0 ==> r.rating.None?
  {
    FlaggedRowsMembership(rs, t);
    PresentRatingsEmpty(FlaggedRows(rs, t));
  }

  /** A theme with 0/1 flags whose frequency is 0 occurs in no record: its
      rating when present is undefined, and so is its impact. */
  lemma UnseenThemeHasNoImpact(rs: seq<Review>, t: string)
    requires BinaryFlag(rs, t) && Frequency(rs, t) == Some(0.0)
    ensures FlaggedRows(rs, t) == []
    ensures RatingWhenPresent(rs, t).None?
    ensures Impact(Frequency(rs, t), RatingWhenPresent(rs, t), MeanRating(rs)).None?
  {
    FrequencyOfBinaryFlag(rs, t);
    assert PresentRatings(FlaggedRows(rs, t)) == [];
  }

  /** For a theme the detector accepted on the loaded table, the statistics over
      any filtered subset behave: the frequency is the flagged share in
      [0, 100], and, when the table has ratings, the rating when present is
      undefined exactly when no filtered record carries the theme. */
  lemma DetectedThemeStatistics(rs: seq<Review>, schema: Schema, spec: FilterSpec, t: string)
    requires IsThemeColumn(Column(t, FlagColumn(rs, t)))
    ensures var s := Selected(rs, schema, spec);
            |s| > 0 ==>
              && Frequency(s, t) == Some(100.0 * (|FlaggedRows(s, t)| as real) / (|s| as real))
              && 0.0 <= Frequency(s, t).value <= 100.0
    ensures var s := Selected(rs, schema, spec);
            schema.hasRating ==> (RatingWhenPresent(s, t).None? <==> FlaggedRows(s, t) == [])
  {
    var s := Selected(rs, schema, spec);
    var col := Column(t, FlagColumn(rs, t));
    IsThemeColumnIff(col);
    SelectedMembership(rs, schema, spec);
    assert BinaryFlag(s, t) by {
      forall r | r in s ensures FlagValue(r, t) == 0.0 || FlagValue(r, t) == 1.0 {
        var i :| 0 <= i < |rs| && rs[i] == r;
        assert col.cells[i] == FlagCell(r, t);
      }
    }
    FrequencyOfBinaryFlag(s, t);
    if schema.hasRating {
      RatingWhenPresentUndefined(s, t);
      FlaggedRowsMembership(s, t);
      if FlaggedRows(s, t) != [] {
        var r := FlaggedRows(s, t)[0];
        assert r in FlaggedRows(s, t);
        assert r.rating.Some?;
      }
    }
  }
}
