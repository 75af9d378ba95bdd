# Review dashboard analytics core, in Dafny

This project models the analytics core of a Streamlit dashboard over app-store
reviews (`app.py`). The dashboard loads a review table from a data warehouse. It
derives a sentiment label from each rating and coerces the products column to
lists. It then detects which columns are binary "theme" indicators and filters
the table by the sidebar selections. Over the filtered reviews it computes a
theme impact table and two risk percentages. The model covers those
computations. Warehouse access, widgets and charts are left out.

Modules, one per component:

- `Basics` (`basics.dfy`): `Option` (None plays pandas' NaN), order-preserving
  subsequences, and exact `real` sums, means and percentages as
  `Series.mean()` and `Series.mean() * 100` compute them.
- `Records` (`records.dfy`): the loaded record and the schema flags. It also
  holds the sentiment label (`pd.cut` with bins `[0,2,3,5]`, modelled by a
  general right-closed `CutIndex`) and the products coercion.
- `ThemeDetector` (`themes.dfy`): `detect_themes` as a loop over the columns,
  specified by the function `ThemeNames`.
- `Filters` (`filters.dfy`): the mask starts all true. One `&=` pass runs per
  active step (date window, brand, rating, product), then the rows are
  selected. All of it is specified by the per-record predicate `Keep` and the
  function `Selected`.
- `ThemeImpact` (`impact.dfy`): the loop that builds one row per theme. Each
  row holds the theme's frequency, its rating when present and its impact.
- `Risk` (`risk.dfy`): the 1★ share and the ≤2★ share.

Representation choices:

- Cells are already numerically coerced. A rating or theme cell is
  `Option<real>`, where None is the NaN that `pd.to_numeric(errors="coerce")`
  yields.
- A timestamp is an integer count of nanoseconds on the local wall clock. A
  date picked in the sidebar is a day number `d`, and its midnight is
  `d * TicksPerDay`. The end bound is midnight of the end day plus one day.
- The table's optional columns (`date`, `brand_name`, `rating`) appear as the
  flags of `Schema`. The source checks `"x" in df.columns` before each step.

Behaviour of app.py the model keeps:

- A column whose coerced value set is empty (all null, or all text) is a theme:
  the test only bounds the value set from above.
- No column is a theme merely because its name contains "NET".
- There is no NET grouping, no driver/barrier split and no pivot matrix in this
  file, so none is modelled.
- An empty brand selection skips the brand step. This is not the same as
  selecting every brand: the skipped step keeps records with no brand, while a
  full selection drops them.
- The sentiment label uses `pd.cut` intervals (0,2], (2,3], (3,5]. A rating of
  0 or less, or above 5, gets no label.

## Model

| member | source | states |
|---|---|---|
| `Records.CutIndex` | app.py:68-72 | the bin `pd.cut` picks is the unique right-closed interval (edges[k], edges[k+1]] that holds x; none exactly when no interval holds it |
| `Records.SentimentBands` | app.py:68-72 | ratings in (0,2] are Negative, (2,3] Neutral, (3,5] Positive; a missing rating, one ≤ 0 or one > 5 gets no label (all four as iff) |
| `Records.NormalizeProductsCells` | app.py:75-80 | a list cell is kept as is; a non-list cell, or any row of a table with no products column, becomes the empty list |
| `Records.NormalizeProductsIdempotent` | app.py:75-80 | normalising an already normalised column changes nothing |
| `ThemeDetector.DetectThemes` | app.py:94-115 | the loop's result is the specified theme list, is an order-preserving subsequence of the column names, and holds no reserved name |
| `ThemeDetector.IsThemeColumnIff` | app.py:109-113 | a column is a theme iff its name is not reserved and every non-missing coerced value is 0 or 1; the `len(vals) <= 2` test adds nothing |
| `ThemeDetector.EmptyOrZeroColumnIsTheme` | app.py:109-113 | a non-reserved column with no numeric value at all, or only zeros, is classified as a theme |
| `ThemeDetector.ThemeNamesSubseq` | app.py:102-115 | the detected names appear in column order, as a subsequence of the column list |
| `ThemeDetector.ThemeNamesCriterion` | app.py:96-113 | a name is detected iff some column of that name passes the test; no reserved name is ever detected |
| `Filters.EffectiveRatings` | app.py:150-154 | the rating selection in force is never empty; it equals the user's selection whenever that is non-empty, and is 1 to 5 when the selection is empty |
| `Filters.BuildMask` | app.py:164-184 | after the successive `&=` steps, each mask entry is true iff its record passes every active step |
| `Filters.ApplyFilters` | app.py:164-186 | the selected rows are exactly the specified selection of the records, in order |
| `Filters.SelectedIsSubseq` | app.py:186 | the filtered set is an order-preserving subsequence of the input, so it is no longer than the input and holds only records of the input, unaltered |
| `Filters.SelectedMembership` | app.py:164-186 | a record is in the result iff it is in the input and passes the date, brand, rating and product steps that are active |
| `Filters.SelectedIdempotent` | app.py:164-186 | applying the same filter to its own output returns that output |
| `Filters.SelectedAgree` | app.py:164-186 | two filter settings that agree on every record select the same records |
| `Filters.EmptyRatingSelectionIsAll` | app.py:150-154 | an empty rating selection filters exactly like selecting 1 to 5 |
| `Filters.MissingRatingExcluded` | app.py:178-180 | when the table has a rating column, a record with no rating is never kept |
| `Filters.EmptySelectionsRestrictNothing` | app.py:174-184 | with empty brand and product selections the result is the same as with no brand column, and a record is kept iff it passes the date and rating steps |
| `Filters.UnrestrictedKeepsAll` | app.py:164-186 | with no date window, empty brand and product selections and an empty rating selection, a table whose records are all rated 1 to 5 (or that has no rating column) is kept whole |
| `Filters.OpeningSelection` | app.py:128-186 | with the selection the page opens with (a date window from the first to the last day, every brand, ratings 1 to 5, no product), a table with date, brand and rating columns keeps a record iff it has a date, a brand and a rating of 1 to 5 |
| `ThemeImpact.Impact` | app.py:335 | impact is defined iff frequency, rating when present and overall mean are all defined; as a property of the formula only, it is 0 when the frequency is 0 (in the table a zero frequency leaves it undefined, see `UnseenThemeHasNoImpact`), and for a positive frequency it has the sign of (rating when present − overall mean) |
| `ThemeImpact.ThemeImpactTable` | app.py:322-335 | one row per detected theme, in order, carrying the theme's frequency, rating when present and impact against the overall mean rating |
| `ThemeImpact.FlaggedRowsCount` | app.py:326-329 | the rows averaged for the rating are exactly as many as the ones the frequency counts |
| `ThemeImpact.FlaggedRowsMembership` | app.py:329 | a record is among the flagged rows iff it is a record whose coerced flag is 1 |
| `ThemeImpact.PresentRatingsWithin` | app.py:329 | bounds that hold for every rated record hold for every rating the mean is taken over |
| `ThemeImpact.PresentRatingsEmpty` | app.py:329 | there is no rating to average exactly when no record has one |
| `ThemeImpact.FrequencyOfBinaryFlag` | app.py:326-328 | with 0/1 flags (missing counted as 0), the frequency is undefined iff there are no records, and otherwise equals 100 × flagged / records and lies in [0, 100] |
| `ThemeImpact.RatingWhenPresentBounds` | app.py:329 | the rating when present lies between any lower and upper bound of the flagged records' ratings, so between their minimum and maximum |
| `ThemeImpact.RatingWhenPresentUndefined` | app.py:329 | the rating when present is undefined iff no flagged record has a rating |
| `ThemeImpact.UnseenThemeHasNoImpact` | app.py:326-335 | a theme with 0/1 flags and frequency 0 flags no record, so its rating when present is undefined (NaN) and so is its impact |
| `ThemeImpact.DetectedThemeStatistics` | app.py:109-113 | for a theme the detector accepted on the loaded table and any filter, the frequency over the filtered records is the flagged share in [0, 100]; with a rating column, the rating when present is undefined iff no filtered record carries the theme |
| `Risk.RiskBounds` | app.py:359-360 | both shares are defined iff the filtered set is non-empty; they equal 100 × count / size, lie in [0, 100], and the 1★ share never exceeds the ≤2★ share |
| `Basics.PercentOfIndicator` | app.py:328 | `mean() * 100` of a non-empty 0/1 series is 100 × ones / length, within [0, 100] |
| `Basics.MeanBounds` | app.py:329 | a mean lies between any lower and any upper bound of the values averaged |

## Left out

- Warehouse access (app.py:24-48): the BigQuery client, the credentials and the query are I/O against a foreign service. The model takes the loaded records as input.
- Streamlit caching, page config, sidebar widgets, tabs, metrics, charts and the CSV download (app.py:14-18, 84-88, 123-158, 192-390): user-interface plumbing. The filter takes the selected values as plain inputs.
- Stripping whitespace from column names (app.py:51): column names are taken as already stripped.
- Timezone conversion to Asia/Kolkata and the `Month`/`Week` period strings (app.py:54-62): library calendar logic. Timestamps are integer nanoseconds on the local wall clock, and an unparseable date is a missing one.
- `pd.to_numeric` coercion of arbitrary values (app.py:66, 109, 326): cells arrive already coerced to `Option<real>`.
- The overview statistics, charts and groupbys (app.py:209-304, 366-376): median and standard deviation are floating-point display aggregates, and the rating distribution, sentiment pie, trend lines, brand table, product explode and weekly negative trend are display groupbys. The overall mean rating used by the impact column is modelled as `MeanRating`.
- ThemeImpact.ThemeImpactTable: computes each row's impact inside the loop, while the source adds the Impact column to the finished table in one vectorised step (app.py:335). The values are the same.
- ThemeImpact.MeanRating: when the table has no rating column, the Themes tab raises a KeyError (app.py:329, 335). The model instead has no ratings, so the rating when present and the impact are undefined.
- Records.CutIndex: requires strictly increasing bin edges, since `pd.cut` raises an error otherwise. Only the constant edges `[0,2,3,5]` are used.
- ThemeDetector.DetectThemes: does not model a table with a repeated column name, for which pandas' `df[col]` returns a table rather than a series.
- Floating point: every mean and percentage is an exact `real` quotient, so rounding is not modelled.
