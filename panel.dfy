/**
 * The beta panel: the spreadsheet of precomputed Fama-French five-factor
 * betas, with one row per observation date and a two-level column header
 * (ticker, then factor). Loading the spreadsheet and parsing its dates are
 * outside this model; a panel is an input. Dates are integers (any
 * order-preserving day count), and betas are opaque: nothing computes on
 * them.
 */
module BetaPanel {

  type Ticker = string
  type Date = int

  /** The five factors, in the order the dashboard shows them. */
  datatype Factor = MktRF | SMB | HML | CMA | RMW

  const FactorOrder: seq<Factor> := [MktRF, SMB, HML, CMA, RMW]

  /** The column label the spreadsheet uses for a factor. */
  function Label(f: Factor): (s: string)
    ensures s in ["Mkt-RF", "SMB", "HML", "CMA", "RMW"]
  {
    match f
    case MktRF => "Mkt-RF"
    case SMB => "SMB"
    case HML => "HML"
    case CMA => "CMA"
    case RMW => "RMW"
  }

  /**
   * `Label` gives the five header labels of the spreadsheet, in
   * `FactorOrder`, and no two factors share a label.
   */
  lemma LabelsInOrder()
    ensures seq(|FactorOrder|, i requires 0 <= i < |FactorOrder| => Label(FactorOrder[i]))
      == ["Mkt-RF", "SMB", "HML", "CMA", "RMW"]
    ensures forall f, g :: Label(f) == Label(g) ==> f == g
  {
  }

  /** Every factor appears in `FactorOrder` exactly once. */
  lemma FactorOrderLists(f: Factor)
    ensures f in FactorOrder
    ensures multiset(FactorOrder)[f] == 1
  {
  }

  /** The position of a factor in `FactorOrder`. */
  function Rank(f: Factor): (i: nat)
    ensures i < |FactorOrder| && FactorOrder[i] == f
    ensures forall j :: 0 <= j < |FactorOrder| && FactorOrder[j] == f ==> j == i
  {
    match f
    case MktRF => 0
    case SMB => 1
    case HML => 2
    case CMA => 3
    case RMW => 4
  }

  /** One spreadsheet cell: a beta, or an empty cell (read as NaN). */
  datatype Cell = Missing | Beta(value: real)

  /** A column of the two-level header. */
  datatype Column = Column(ticker: Ticker, factor: Factor)

  /**
   * The panel: the date index, in spreadsheet row order, and for each
   * column present its cells, one per row.
   */
  datatype Panel = Panel(dates: seq<Date>, cells: map<Column, seq<Cell>>)

  /** The errors the core can report. */
  datatype Error =
    | NoValidTickers   // no entered ticker is in the panel
    | EmptyPanel       // the panel has no rows, so it has no latest date
    | MissingFactor    // a factor has no column among the tickers of a cross-section

  datatype Result<T> = Success(value: T) | Failure(error: Error)

  /**
   * The shape of a loaded spreadsheet: every column has one cell per row,
   * and no date labels two rows.
   */
  predicate Valid(p: Panel)
  {
    && (forall c :: c in p.cells ==> |p.cells[c]| == |p.dates|)
    && (forall i, j :: 0 <= i < j < |p.dates| ==> p.dates[i] != p.dates[j])
  }

  /** The tickers with at least one column: the outer header level. */
  function AvailableTickers(p: Panel): (r: set<Ticker>)
    ensures forall t, f :: Column(t, f) in p.cells ==> t in r
    ensures forall t :: t in r ==> exists f :: Column(t, f) in p.cells
  {
    set c | c in p.cells :: c.ticker
  }

  /** The largest date of a non-empty index. */
  function MaxDate(dates: seq<Date>): (m: Date)
    requires |dates| > 0
    ensures m in dates
    ensures forall d :: d in dates ==> d <= m
  {
    if |dates| == 1 then dates[0]
    else
      var m' := MaxDate(dates[1..]);
      assert dates == [dates[0]] + dates[1..];
      if dates[0] >= m' then dates[0] else m'
  }

  /**
   * The latest date of the index (`index.max()`); a panel with no rows has
   * none.
   */
  function LatestDate(p: Panel): (r: Result<Date>)
    ensures r.Failure? <==> |p.dates| == 0
    ensures r.Failure? ==> r.error == EmptyPanel
    ensures r.Success? ==> r.value in p.dates && forall d :: d in p.dates ==> d <= r.value
  {
    if |p.dates| == 0 then Failure(EmptyPanel) else Success(MaxDate(p.dates))
  }

  /** The row a date labels. */
  function RowOf(dates: seq<Date>, d: Date): (i: nat)
    requires d in dates
    ensures i < |dates| && dates[i] == d
    ensures forall j :: 0 <= j < i ==> dates[j] != d
  {
    if dates[0] == d then 0 else 1 + RowOf(dates[1..], d)
  }

  /** With distinct dates, a date labels exactly one row. */
  lemma RowOfUnique(p: Panel, i: nat)
    requires Valid(p) && i < |p.dates|
    ensures RowOf(p.dates, p.dates[i]) == i
  {
  }
}
