/** Theme column detection (`detect_themes`, app.py:94-115): every column that is
    not a reserved field and whose numeric values are all 0 or 1 is a binary
    theme indicator. */
module ThemeDetector {
  import opened Basics

  /** The field names that are never themes. */
  const Reserved: set<string> := {
    "app_id", "brand_name", "review_id", "date", "content",
    "sentiment", "products", "themes", "rating",
    "Month", "Week", "Sentiment_Label"
  }

  /** A column of the loaded table, its cells already coerced to numbers
      (None where coercion gives NaN). */
  datatype Column = Column(name: string, cells: seq<Option<real>>)

  /** The distinct non-missing values of a column. */
  function ValueSet(cells: seq<Option<real>>): set<real>
  {
    set i | 0 <= i < |cells| && cells[i].Some? :: cells[i].value
  }

  /** The classification test applied to one column. */
  predicate IsThemeColumn(c: Column)
  {
    c.name !in Reserved && ValueSet(c.cells) <= {0.0, 1.0} && |ValueSet(c.cells)| <= 2
  }

  function Names(cols: seq<Column>): (names: seq<string>)
    ensures |names| == |cols|
    ensures forall i :: 0 <= i < |cols| ==> names[i] == cols[i].name
  {
    seq(|cols|, i requires 0 <= i < |cols| => cols[i].name)
  }

  /** The theme names of a column list, in column order. */
  function ThemeNames(cols: seq<Column>): (names: seq<string>)
  {
    if cols == [] then []
    else
      var last := cols[|cols| - 1];
      ThemeNames(cols[..|cols| - 1]) + (if IsThemeColumn(last) then [last.name] else [])
  }

  /** The detector's loop: walk the columns in order, skip reserved ones, keep
      the binary ones. */
  method DetectThemes(cols: seq<Column>) returns (themes: seq<string>)
    ensures themes == ThemeNames(cols)
    ensures IsSubseq(themes, Names(cols))
    ensures forall n :: n in themes ==> n !in Reserved
  {
    themes := [];
    for i := 0 to |cols|
      invariant themes == ThemeNames(cols[..i])
    {
      assert cols[..i + 1][..i] == cols[..i];
      var col := cols[i];
      if col.name in Reserved {
        continue;
      }
      var vals := ValueSet(col.cells);
      if vals <= {0.0, 1.0} && |vals| <= 2 {
        themes := themes + [col.name];
      }
    }
    assert cols[..|cols|] == cols;
    ThemeNamesSubseq(cols);
    ThemeNamesCriterion(cols);
  }

  /** A column qualifies exactly when each of its present values is 0 or 1;
      the cardinality test adds nothing. */
  lemma IsThemeColumnIff(c: Column)
    ensures IsThemeColumn(c) <==>
              c.name !in Reserved &&
              forall i :: 0 <= i < |c.cells| && c.cells[i].Some? ==> c.cells[i].value in {0.0, 1.0}
  {
    var vs := ValueSet(c.cells);
    if vs <= {0.0, 1.0} {
      SubsetCardinality(vs, {0.0, 1.0});
      assert |{0.0, 1.0}| == 2;
    }
    if forall i :: 0 <= i < |c.cells| && c.cells[i].Some? ==> c.cells[i].value in {0.0, 1.0} {
      assert vs <= {0.0, 1.0};
    } else {
      var i :| 0 <= i < |c.cells| && c.cells[i].Some? && c.cells[i].value !in {0.0, 1.0};
      assert c.cells[i].value in vs;
    }
  }

  lemma SubsetCardinality(a: set<real>, b: set<real>)
    requires a <= b
    ensures |a| <= |b|
  {
    assert b == a + (b - a);
    assert a * (b - a) == {};
  }

  /** A non-reserved column with no numeric value at all (all null or all
      text) is a theme, and so is one that is all zeros. */
  lemma EmptyOrZeroColumnIsTheme(c: Column)
    requires c.name !in Reserved
    requires forall i :: 0 <= i < |c.cells| ==> c.cells[i].None? || c.cells[i] == Some(0.0)
    ensures IsThemeColumn(c)
  {
    IsThemeColumnIff(c);
  }

  /** The detected names keep the columns' order. */
  lemma {:induction false} ThemeNamesSubseq(cols: seq<Column>)
    ensures IsSubseq(ThemeNames(cols), Names(cols))
  {
    if cols != [] {
      var init := cols[..|cols| - 1];
      var last := cols[|cols| - 1];
      ThemeNamesSubseq(init);
      assert Names(cols)[..|cols| - 1] == Names(init);
      var ts, ns := ThemeNames(cols), Names(cols);
      if IsThemeColumn(last) {
        assert ts == ThemeNames(init) + [last.name];
        assert ts[..|ts| - 1] == ThemeNames(init);
        assert ts[|ts| - 1] == ns[|ns| - 1];
      } else {
        assert ts == ThemeNames(init);
      }
    }
  }

  /** A name is detected iff some column of that name passes the test; in
      particular no reserved name is ever detected. */
  lemma {:induction false} ThemeNamesCriterion(cols: seq<Column>)
    ensures forall n :: n in ThemeNames(cols) <==>
              exists i :: 0 <= i < |cols| && cols[i].name == n && IsThemeColumn(cols[i])
    ensures forall n :: n in ThemeNames(cols) ==> n !in Reserved
  {
    if cols != [] {
      var init := cols[..|cols| - 1];
      ThemeNamesCriterion(init);
      forall n
        ensures n in ThemeNames(cols) <==>
                  exists i :: 0 <= i < |cols| && cols[i].name == n && IsThemeColumn(cols[i])
      {
        if exists i :: 0 <= i < |cols| && cols[i].name == n && IsThemeColumn(cols[i]) {
          var i :| 0 <= i < |cols| && cols[i].name == n && IsThemeColumn(cols[i]);
          if i < |cols| - 1 {
            assert init[i] == cols[i];
          }
        }
        if n in ThemeNames(init) {
          var i :| 0 <= i < |init| && init[i].name == n && IsThemeColumn(init[i]);
          assert cols[i] == init[i];
        }
      }
    }
  }
}
