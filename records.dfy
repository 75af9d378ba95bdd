/** The review table as `load_data` leaves it (app.py:40-82): one record per row,
    with the rating coerced to a number, the sentiment label derived from it by
    binning, and the products column coerced to lists. */
module Records {
  import opened Basics

  /** A review timestamp: nanoseconds since the epoch on the local wall clock
      (Asia/Kolkata, already converted and made zone-free). */
  type Timestamp = int

  const TicksPerDay: int := 86_400_000_000_000

  /** One row of the loaded table. `flags` holds every other column, coerced to
      numbers (None where the coercion gives NaN). */
  datatype Review = Review(
    date: Option<Timestamp>,
    brand: Option<string>,
    rating: Option<real>,
    products: seq<string>,
    flags: map<string, Option<real>>)

  /** Which of the optional columns the loaded table has. */
  datatype Schema = Schema(hasDate: bool, hasBrand: bool, hasRating: bool)

  // ---------------------------------------------------------------------------
  // Sentiment label: the rating binned at 0, 2, 3 and 5
  // ---------------------------------------------------------------------------

  datatype Sentiment = Negative | Neutral | Positive

  const SentimentBins: seq<real> := [0.0, 2.0, 3.0, 5.0]
  const SentimentLabels: seq<Sentiment> := [Negative, Neutral, Positive]

  predicate StrictlyIncreasing(edges: seq<real>)
  {
    forall i, j :: 0 <= i < j < |edges| ==> edges[i] < edges[j]
  }

  /** The bin pandas' cut puts x in: bins are the right-closed intervals
      (edges[k], edges[k+1]]; a value outside every bin gets none. */
  function CutIndex(edges: seq<real>, x: real): (k: Option<nat>)
    requires StrictlyIncreasing(edges)
    ensures k.Some? ==> k.value + 1 < |edges| && edges[k.value] < x <= edges[k.value + 1]
    ensures k.None? ==> forall j :: 0 <= j < |edges| - 1 ==> !(edges[j] < x <= edges[j + 1])
    decreases |edges|
  {
    if |edges| < 2 then None
    else if edges[0] < x <= edges[1] then Some(0)
    else
      match CutIndex(edges[1..], x)
      case None => None
      case Some(j) => Some(j + 1)
  }

  /** The sentiment label of a (possibly missing) rating. */
  function SentimentOf(rating: Option<real>): (sentiment: Option<Sentiment>)
  {
    match rating
    case None => None
    case Some(r) =>
      match CutIndex(SentimentBins, r)
      case None => None
      case Some(k) => Some(SentimentLabels[k])
  }

  /** (0,2] is Negative, (2,3] Neutral, (3,5] Positive; a missing rating and one
      outside (0,5] get no label. */
  lemma SentimentBands(rating: Option<real>)
    ensures SentimentOf(rating) == Some(Negative) <==> rating.Some? && 0.0 < rating.value <= 2.0
    ensures SentimentOf(rating) == Some(Neutral) <==> rating.Some? && 2.0 < rating.value <= 3.0
    ensures SentimentOf(rating) == Some(Positive) <==> rating.Some? && 3.0 < rating.value <= 5.0
    ensures SentimentOf(rating) == None <==> rating.None? || rating.value <= 0.0 || 5.0 < rating.value
  {
    if rating.Some? {
      var r := rating.value;
      var k := CutIndex(SentimentBins, r);
      if k.None? {
        assert !(0.0 < r <= 2.0) && !(2.0 < r <= 3.0) && !(3.0 < r <= 5.0) by {
          assert forall j :: 0 <= j < 3 ==> !(SentimentBins[j] < r <= SentimentBins[j + 1]);
        }
      }
    }
  }

  // ---------------------------------------------------------------------------
  // Products: anything that is not a list becomes the empty list
  // ---------------------------------------------------------------------------

  /** A raw cell of the products column: a list of labels, or any other value
      (a null, a string, a number, an array). */
  datatype ProductCell = ListCell(items: seq<string>) | OtherCell

  function CoerceProducts(cell: ProductCell): seq<string>
  {
    if cell.ListCell? then cell.items else []
  }

  /** The products column after loading: the raw column's cells coerced one by
      one, or one empty list per row when the table has no products column. */
  function NormalizeProducts(column: Option<seq<ProductCell>>, rows: nat): (r: seq<seq<string>>)
    requires column.Some? ==> |column.value| == rows
    ensures |r| == rows
  {
    match column
    case None => seq(rows, _ => [])
    case Some(cells) => seq(rows, i requires 0 <= i < rows => CoerceProducts(cells[i]))
  }

  /** Lists pass through unchanged, everything else (and a missing column)
      becomes an empty list. */
  lemma NormalizeProductsCells(column: Option<seq<ProductCell>>, rows: nat, i: nat)
    requires column.Some? ==> |column.value| == rows
    requires i < rows
    ensures column.Some? && column.value[i].ListCell? ==>
              NormalizeProducts(column, rows)[i] == column.value[i].items
    ensures column.None? || column.value[i].OtherCell? ==> NormalizeProducts(column, rows)[i] == []
  {
  }

  function AsListCells(lists: seq<seq<string>>): (cells: seq<ProductCell>)
    ensures |cells| == |lists|
    ensures forall i :: 0 <= i < |lists| ==> cells[i] == ListCell(lists[i])
  {
    seq(|lists|, i requires 0 <= i < |lists| => ListCell(lists[i]))
  }

  /** Normalising an already normalised column changes nothing. */
  lemma NormalizeProductsIdempotent(column: Option<seq<ProductCell>>, rows: nat)
    requires column.Some? ==> |column.value| == rows
    ensures NormalizeProducts(Some(AsListCells(NormalizeProducts(column, rows))), rows)
            == NormalizeProducts(column, rows)
  {
  }
}
