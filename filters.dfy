/** The sidebar filter (app.py:150-154, 164-186): a boolean mask over the loaded
    records, narrowed step by step by the date window, the brand selection, the
    rating selection and the product selection, then used to select rows. */
module Filters {
  import opened Basics
  import opened Records

  /** The values picked in the sidebar: the date range as day numbers (the date
      input yields zero, one or two dates), and the three multiselects. */
  datatype FilterSpec = FilterSpec(
    dateRange: seq<int>,
    brands: seq<string>,
    ratings: seq<int>,
    products: seq<string>)

  const AllRatings: seq<int> := [1, 2, 3, 4, 5]

  /** The rating selection in force: an empty selection falls back to every rating 1 to 5. */
  function EffectiveRatings(selected: seq<int>): (r: seq<int>)
    ensures r != []
    ensures selected != [] ==> r == selected
    ensures selected == [] ==> r == AllRatings
  {
    if selected == [] then AllRatings else selected
  }

  /** Midnight at the start of a day. */
  function DayStart(day: int): Timestamp
  {
    day * TicksPerDay
  }

  predicate DateStepActive(schema: Schema, spec: FilterSpec)
  {
    schema.hasDate && |spec.dateRange| == 2
  }

  /** start <= date < end + 1 day; a missing date (NaT) never compares true. */
  predicate InDateWindow(r: Review, range: seq<int>)
    requires |range| == 2
  {
    r.date.Some? && DayStart(range[0]) <= r.date.value < DayStart(range[1]) + TicksPerDay
  }

  predicate BrandStepActive(schema: Schema, spec: FilterSpec)
  {
    spec.brands != [] && schema.hasBrand
  }

  /** Brand membership; a missing brand is never in the selection. */
  predicate BrandSelected(r: Review, brands: seq<string>)
  {
    r.brand.Some? && r.brand.value in brands
  }

  /** Rating membership; a missing rating is never in the selection. */
  predicate RatingSelected(r: Review, ratings: seq<int>)
  {
    r.rating.Some? && exists k :: k in ratings && r.rating.value == k as real
  }

  /** The record lists at least one of the selected products. */
  predicate HasAnyProduct(r: Review, products: seq<string>)
  {
    exists p :: p in products && p in r.products
  }

  predicate PassesDate(r: Review, schema: Schema, spec: FilterSpec)
  {
    DateStepActive(schema, spec) ==> InDateWindow(r, spec.dateRange)
  }

  predicate PassesBrand(r: Review, schema: Schema, spec: FilterSpec)
  {
    BrandStepActive(schema, spec) ==> BrandSelected(r, spec.brands)
  }

  predicate PassesRating(r: Review, schema: Schema, spec: FilterSpec)
  {
    schema.hasRating ==> RatingSelected(r, EffectiveRatings(spec.ratings))
  }

  predicate PassesProducts(r: Review, spec: FilterSpec)
  {
    spec.products != [] ==> HasAnyProduct(r, spec.products)
  }

  /** A record survives the filter when it passes every active step. */
  predicate Keep(r: Review, schema: Schema, spec: FilterSpec)
  {
    PassesDate(r, schema, spec) && PassesBrand(r, schema, spec)
    && PassesRating(r, schema, spec) && PassesProducts(r, spec)
  }

  /** The records that survive, in their original order. */
  function Selected(rs: seq<Review>, schema: Schema, spec: FilterSpec): (kept: seq<Review>)
  {
    if rs == [] then []
    else
      var last := rs[|rs| - 1];
      Selected(rs[..|rs| - 1], schema, spec) + (if Keep(last, schema, spec) then [last] else [])
  }

  /** Builds the mask: all true, then one narrowing pass per active step. */
  method BuildMask(rs: seq<Review>, schema: Schema, spec: FilterSpec) returns (mask: seq<bool>)
    ensures |mask| == |rs|
    ensures forall i :: 0 <= i < |rs| ==> (mask[i] <==> Keep(rs[i], schema, spec))
  {
    var n := |rs|;
    var m := new bool[n](_ => true);

    if DateStepActive(schema, spec) {
      for i := 0 to n
        invariant forall j :: 0 <= j < n ==> m[j] == (j < i ==> InDateWindow(rs[j], spec.dateRange))
      {
        m[i] := m[i] && InDateWindow(rs[i], spec.dateRange);
      }
    }
    assert forall j :: 0 <= j < n ==> m[j] == PassesDate(rs[j], schema, spec);

    if BrandStepActive(schema, spec) {
      for i := 0 to n
        invariant forall j :: 0 <= j < n ==>
                    m[j] == (PassesDate(rs[j], schema, spec) && (j < i ==> BrandSelected(rs[j], spec.brands)))
      {
        m[i] := m[i] && BrandSelected(rs[i], spec.brands);
      }
    }
    assert forall j :: 0 <= j < n ==>
             m[j] == (PassesDate(rs[j], schema, spec) && PassesBrand(rs[j], schema, spec));

    if schema.hasRating {
      var ratings := EffectiveRatings(spec.ratings);
      for i := 0 to n
        invariant forall j :: 0 <= j < n ==>
                    m[j] == (PassesDate(rs[j], schema, spec) && PassesBrand(rs[j], schema, spec)
                             && (j < i ==> RatingSelected(rs[j], ratings)))
      {
        m[i] := m[i] && RatingSelected(rs[i], ratings);
      }
    }
    assert forall j :: 0 <= j < n ==>
             m[j] == (PassesDate(rs[j], schema, spec) && PassesBrand(rs[j], schema, spec)
                      && PassesRating(rs[j], schema, spec));

    if spec.products != [] {
      for i := 0 to n
        invariant forall j :: 0 <= j < n ==>
                    m[j] == (PassesDate(rs[j], schema, spec) && PassesBrand(rs[j], schema, spec)
                             && PassesRating(rs[j], schema, spec)
                             && (j < i ==> HasAnyProduct(rs[j], spec.products)))
      {
        m[i] := m[i] && HasAnyProduct(rs[i], spec.products);
      }
    }
    mask := m[..];
  }

  /** The records whose mask entry is true, in order. */
  method ApplyFilters(rs: seq<Review>, schema: Schema, spec: FilterSpec) returns (kept: seq<Review>)
    ensures kept == Selected(rs, schema, spec)
  {
    var mask := BuildMask(rs, schema, spec);
    kept := [];
    for i := 0 to |rs|
      invariant kept == Selected(rs[..i], schema, spec)
    {
      assert rs[..i + 1][..i] == rs[..i];
      if mask[i] {
        kept := kept + [rs[i]];
      }
    }
    assert rs[..|rs|] == rs;
  }

  // ---------------------------------------------------------------------------
  // Properties of the selection
  // ---------------------------------------------------------------------------

  /** The result is an order-preserving selection of the input; records are
      kept as they are, so the result is no longer than the input and holds
      no record the input does not. */
  lemma {:induction false} SelectedIsSubseq(rs: seq<Review>, schema: Schema, spec: FilterSpec)
    ensures IsSubseq(Selected(rs, schema, spec), rs)
    ensures |Selected(rs, schema, spec)| <= |rs|
    ensures forall r :: r in Selected(rs, schema, spec) ==> r in rs
  {
    if rs != [] {
      var init, last := rs[..|rs| - 1], rs[|rs| - 1];
      SelectedIsSubseq(init, schema, spec);
      var s := Selected(rs, schema, spec);
      if Keep(last, schema, spec) {
        assert s[..|s| - 1] == Selected(init, schema, spec);
      } else {
        assert s == Selected(init, schema, spec);
      }
    }
    SubseqMembers(Selected(rs, schema, spec), rs);
  }

  /** A record is in the result iff it is in the input and passes every active step. */
  lemma {:induction false} SelectedMembership(rs: seq<Review>, schema: Schema, spec: FilterSpec)
    ensures forall r :: r in Selected(rs, schema, spec) <==> r in rs && Keep(r, schema, spec)
  {
    if rs != [] {
      var init := rs[..|rs| - 1];
      SelectedMembership(init, schema, spec);
      assert rs == init + [rs[|rs| - 1]];
    }
  }

  /** Filtering the filtered records again changes nothing. */
  lemma {:induction false} SelectedIdempotent(rs: seq<Review>, schema: Schema, spec: FilterSpec)
    ensures Selected(Selected(rs, schema, spec), schema, spec) == Selected(rs, schema, spec)
  {
    if rs != [] {
      var init, last := rs[..|rs| - 1], rs[|rs| - 1];
      SelectedIdempotent(init, schema, spec);
      var s := Selected(rs, schema, spec);
      if Keep(last, schema, spec) {
        assert s[..|s| - 1] == Selected(init, schema, spec);
        assert s[|s| - 1] == last;
        assert Selected(s, schema, spec) == Selected(s[..|s| - 1], schema, spec) + [last];
      } else {
        assert s == Selected(init, schema, spec);
      }
    }
  }

  /** Two filters that agree on every record select the same records. */
  lemma {:induction false} SelectedAgree(rs: seq<Review>, schema1: Schema, spec1: FilterSpec,
                                         schema2: Schema, spec2: FilterSpec)
    requires forall i :: 0 <= i < |rs| ==> Keep(rs[i], schema1, spec1) == Keep(rs[i], schema2, spec2)
    ensures Selected(rs, schema1, spec1) == Selected(rs, schema2, spec2)
  {
    if rs != [] {
      SelectedAgree(rs[..|rs| - 1], schema1, spec1, schema2, spec2);
    }
  }

  /** An empty rating selection filters exactly like selecting 1..5. */
  lemma EmptyRatingSelectionIsAll(rs: seq<Review>, schema: Schema, spec: FilterSpec)
    ensures Selected(rs, schema, spec.(ratings := [])) == Selected(rs, schema, spec.(ratings := AllRatings))
  {
    SelectedAgree(rs, schema, spec.(ratings := []), schema, spec.(ratings := AllRatings));
  }

  /** When the table has a rating column, a record without a rating never survives. */
  lemma MissingRatingExcluded(rs: seq<Review>, schema: Schema, spec: FilterSpec, r: Review)
    requires schema.hasRating && r.rating.None?
    ensures r !in Selected(rs, schema, spec)
  {
    SelectedMembership(rs, schema, spec);
  }

  /** An empty brand selection filters exactly as if the table had no brand
      column, and an empty product selection as if no product were asked for:
      neither restricts anything. */
  lemma EmptySelectionsRestrictNothing(rs: seq<Review>, schema: Schema, spec: FilterSpec)
    requires spec.brands == [] && spec.products == []
    ensures Selected(rs, schema, spec) == Selected(rs, schema.(hasBrand := false), spec)
    ensures forall r :: r in rs ==>
              (r in Selected(rs, schema, spec) <==> PassesDate(r, schema, spec) && PassesRating(r, schema, spec))
  {
    SelectedAgree(rs, schema, spec, schema.(hasBrand := false), spec);
    SelectedMembership(rs, schema, spec);
  }

  /** With no date window, empty brand and product selections and an empty
      rating selection, a table whose records are all rated 1 to 5 (or that has
      no rating column) survives whole. */
  lemma {:induction false} UnrestrictedKeepsAll(rs: seq<Review>, schema: Schema, spec: FilterSpec)
    requires !DateStepActive(schema, spec)
    requires spec.brands == [] && spec.products == [] && spec.ratings == []
    requires schema.hasRating ==>
               forall i :: 0 <= i < |rs| ==> rs[i].rating.Some? && rs[i].rating.value in {1.0, 2.0, 3.0, 4.0, 5.0}
    ensures Selected(rs, schema, spec) == rs
  {
    if rs != [] {
      var init, last := rs[..|rs| - 1], rs[|rs| - 1];
      UnrestrictedKeepsAll(init, schema, spec);
      if schema.hasRating {
        var v := last.rating.value;
        var k: int := if v == 1.0 then 1 else if v == 2.0 then 2 else if v == 3.0 then 3 else if v == 4.0 then 4 else 5;
        assert k in AllRatings && v == k as real;
      }
      assert Keep(last, schema, spec);
      assert rs == init + [last];
    }
  }

  /** The page's opening selection: a date window covering every record's date
      (the first to the last day of the table), every brand of the table
      selected, every rating 1 to 5 selected (or none) and no product picked.
      On a table with date, brand and rating columns it keeps a record iff the
      record has a date, a brand and a rating of 1 to 5; records missing any of
      these are dropped. */
  lemma OpeningSelection(rs: seq<Review>, schema: Schema, spec: FilterSpec)
    requires schema.hasDate && schema.hasBrand && schema.hasRating
    requires |spec.dateRange| == 2
    requires forall r :: r in rs && r.date.Some? ==>
               DayStart(spec.dateRange[0]) <= r.date.value < DayStart(spec.dateRange[1]) + TicksPerDay
    requires spec.brands != []
    requires forall r :: r in rs && r.brand.Some? ==> r.brand.value in spec.brands
    requires spec.ratings == AllRatings || spec.ratings == []
    requires spec.products == []
    ensures forall r :: r in Selected(rs, schema, spec) <==>
              && r in rs && r.date.Some? && r.brand.Some?
              && r.rating.Some? && r.rating.value in {1.0, 2.0, 3.0, 4.0, 5.0}
  {
    SelectedMembership(rs, schema, spec);
    forall r | r in rs && r.rating.Some? && r.rating.value in {1.0, 2.0, 3.0, 4.0, 5.0}
      ensures RatingSelected(r, AllRatings)
    {
      var v := r.rating.value;
      var k: int := if v == 1.0 then 1 else if v == 2.0 then 2 else if v == 3.0 then 3 else if v == 4.0 then 4 else 5;
      assert k in AllRatings && v == k as real;
    }
  }
}
