/**
 * One interaction with the dashboard: the mode chosen with the radio
 * button, the text of the input box, the panel and the start of the
 * time-series window in; the data of the charts to draw, or the reason
 * nothing is drawn, out. The start of the window (five years before today
 * in the running program) is an input, since the clock is outside this
 * model.
 */
module Dashboard {
  import opened BetaPanel
  import opened Validation
  import opened Queries

  /** The two views of the dashboard. */
  datatype Mode = CrossSectionMode | TimeSeriesMode

  /** The radio button labels start with "1" for the cross-section and "2" for the time series. */
  function ModeOf(choice: string): (m: Mode)
    ensures m == CrossSectionMode <==> |choice| > 0 && choice[0] == '1'
  {
    if |choice| > 0 && choice[0] == '1' then CrossSectionMode else TimeSeriesMode
  }

  /** What is drawn: the bar charts of the cross-section, or the line charts of the time series. */
  datatype View =
    | CrossSectionView(snapshot: Snapshot, charts: seq<FactorChart>)
    | TimeSeriesView(plots: seq<FactorPlot>)

  /**
   * The dashboard's data flow. When no entered ticker is valid the run
   * stops with `NoValidTickers` and neither query is evaluated; otherwise
   * the chosen query runs on the validated tickers. The cross-section
   * fails as `CrossSection` does: `EmptyPanel` for a panel without rows,
   * `MissingFactor` when a factor has no column among the tickers.
   */
  function Run(p: Panel, choice: string, input: string, minDate: Date): (r: Result<View>)
    requires Valid(p)
    ensures Validate(input, p).Failure? ==> r == Failure(NoValidTickers)
    ensures Validate(input, p).Success? && ModeOf(choice) == CrossSectionMode ==>
      (r.Failure? <==> CrossSection(p, Validate(input, p).value).Failure?)
      && (r.Failure? ==> r.error == CrossSection(p, Validate(input, p).value).error)
      && (r.Success? ==>
            && r.value.CrossSectionView?
            && Success(r.value.snapshot) == CrossSection(p, Validate(input, p).value)
            && r.value.charts == Charts(r.value.snapshot.records))
    ensures Validate(input, p).Success? && ModeOf(choice) == TimeSeriesMode ==>
      r == Success(TimeSeriesView(TimeSeries(p, Validate(input, p).value, minDate)))
  {
    match Validate(input, p)
    case Failure(e) => Failure(e)
    case Success(tickers) =>
      match ModeOf(choice)
      case CrossSectionMode =>
        (match CrossSection(p, tickers)
         case Failure(e) => Failure(e)
         case Success(snapshot) => Success(CrossSectionView(snapshot, Charts(snapshot.records))))
      case TimeSeriesMode => Success(TimeSeriesView(TimeSeries(p, tickers, minDate)))
  }

  /**
   * Every chart the dashboard draws is about a validated ticker: in the
   * cross-section, each data row given to a bar chart is a column of a ticker of the input box that
   * the panel has, read at the panel's latest date.
   */
  lemma CrossSectionBarsValidated(p: Panel, choice: string, input: string, minDate: Date, i: nat, rec: Record)
    requires Valid(p)
    requires Run(p, choice, input, minDate).Success?
    requires Run(p, choice, input, minDate).value.CrossSectionView?
    requires i < |FactorOrder| && rec in Run(p, choice, input, minDate).value.charts[i].rows
    ensures rec.factor == FactorOrder[i]
    ensures rec.ticker in ParseTickers(input) && rec.ticker in AvailableTickers(p)
    ensures Column(rec.ticker, rec.factor) in p.cells
    ensures rec.beta == p.cells[Column(rec.ticker, rec.factor)][RowOf(p.dates, Run(p, choice, input, minDate).value.snapshot.date)]
  {
    var v := Run(p, choice, input, minDate).value;
    var tickers := Validate(input, p).value;
    assert rec in v.snapshot.records;
    assert rec.ticker in tickers;
  }
}
