/**
 * The two read-only queries over the beta panel for the validated tickers:
 * the cross-section at the latest date, grouped per factor for the bar
 * charts, and the per-factor time series from a start date on, for the
 * line charts. Drawing the charts is outside this model; the data each
 * chart is given is what is modelled.
 */
module Queries {
  import opened Seqs
  import opened BetaPanel

  // ---------------------------------------------------------------------
  // Cross-section
  // ---------------------------------------------------------------------

  /** One row of the long-format cross-section table: ticker, factor, beta. */
  datatype Record = Record(ticker: Ticker, factor: Factor, beta: Cell)

  /** The cross-section: the date it was read at and its records. */
  datatype Snapshot = Snapshot(date: Date, records: seq<Record>)

  /** The record holds the cell of its own `(ticker, factor)` column at row `row`. */
  ghost predicate ReadAt(p: Panel, row: nat, rec: Record)
    requires Valid(p) && row < |p.dates|
  {
    Column(rec.ticker, rec.factor) in p.cells && rec.beta == p.cells[Column(rec.ticker, rec.factor)][row]
  }

  /** Whether a ticker has a column for factor `f`. */
  function HasColumn(p: Panel, f: Factor): Ticker -> bool
  {
    (t: Ticker) => Column(t, f) in p.cells
  }

  /** The tickers of `tickers` that have a column for factor `f`, in list order. */
  function TickersWithColumn(p: Panel, f: Factor, tickers: seq<Ticker>): (r: seq<Ticker>)
    ensures forall t :: t in r ==> t in tickers && Column(t, f) in p.cells
    ensures IsSubsequence(r, tickers)
    ensures forall t :: multiset(r)[t] == if Column(t, f) in p.cells then multiset(tickers)[t] else 0
  {
    FilterIsSubsequence(tickers, HasColumn(p, f));
    FilterCount(tickers, HasColumn(p, f));
    Filter(tickers, HasColumn(p, f))
  }

  /** The first listed ticker comes first when it has the column, and is skipped otherwise. */
  lemma TickersWithColumnCons(p: Panel, f: Factor, tickers: seq<Ticker>)
    requires tickers != []
    ensures TickersWithColumn(p, f, tickers) ==
      (if Column(tickers[0], f) in p.cells then [tickers[0]] else []) + TickersWithColumn(p, f, tickers[1..])
  {
    assert HasColumn(p, f)(tickers[0]) == (Column(tickers[0], f) in p.cells);
  }

  /** No ticker of `tickers` has a column for factor `f`. */
  predicate NoColumnFor(p: Panel, f: Factor, tickers: seq<Ticker>)
  {
    forall t :: t in tickers ==> Column(t, f) !in p.cells
  }

  /** The tickers of a table's records, in table order. */
  function RecordTickers(records: seq<Record>): (r: seq<Ticker>)
    ensures |r| == |records|
    ensures forall i :: 0 <= i < |records| ==> r[i] == records[i].ticker
  {
    seq(|records|, i requires 0 <= i < |records| => records[i].ticker)
  }

  /** The tickers of a record followed by a table are its ticker followed by theirs. */
  lemma RecordTickersCons(rec: Record, records: seq<Record>)
    ensures RecordTickers([rec] + records) == [rec.ticker] + RecordTickers(records)
  {
  }

  /**
   * The records of factor `f` at row `row`: one per listed ticker that has
   * an `(ticker, f)` column, in list order and repeated as often as listed,
   * each holding that column's cell at the row.
   */
  function FactorRecords(p: Panel, row: nat, f: Factor, tickers: seq<Ticker>): (r: seq<Record>)
    requires Valid(p) && row < |p.dates|
    ensures RecordTickers(r) == TickersWithColumn(p, f, tickers)
    ensures forall rec :: rec in r ==> rec.factor == f && rec.ticker in tickers && ReadAt(p, row, rec)
    ensures forall rec ::
      multiset(r)[rec] == (if rec.factor == f && ReadAt(p, row, rec) then multiset(tickers)[rec.ticker] else 0)
  {
    if tickers == [] then []
    else
      var t := tickers[0];
      var rest := FactorRecords(p, row, f, tickers[1..]);
      TickersWithColumnCons(p, f, tickers);
      FactorRecordsCount(p, row, f, tickers, rest);
      if Column(t, f) in p.cells then
        var r := [Record(t, f, p.cells[Column(t, f)][row])] + rest;
        RecordTickersCons(r[0], rest);
        r
      else
        rest
  }

  /** The count of a record in `FactorRecords`, from its count in the records of the tickers after the first. */
  lemma FactorRecordsCount(p: Panel, row: nat, f: Factor, tickers: seq<Ticker>, rest: seq<Record>)
    requires Valid(p) && row < |p.dates| && tickers != []
    requires forall rec ::
      multiset(rest)[rec] == (if rec.factor == f && ReadAt(p, row, rec) then multiset(tickers[1..])[rec.ticker] else 0)
    ensures var t := tickers[0];
      var r := if Column(t, f) in p.cells then [Record(t, f, p.cells[Column(t, f)][row])] + rest else rest;
      forall rec ::
        multiset(r)[rec] == (if rec.factor == f && ReadAt(p, row, rec) then multiset(tickers)[rec.ticker] else 0)
  {
    assert tickers == [tickers[0]] + tickers[1..];
  }

  /** The ranks of `fs` strictly ascend: the factors are distinct and in `FactorOrder`'s order. */
  predicate Ascending(fs: seq<Factor>)
  {
    forall i, j :: 0 <= i < j < |fs| ==> Rank(fs[i]) < Rank(fs[j])
  }

  /** The records come factor by factor, in `FactorOrder`. */
  predicate FactorMajor(records: seq<Record>)
  {
    forall i, j :: 0 <= i < j < |records| ==> Rank(records[i].factor) <= Rank(records[j].factor)
  }

  /** The factors after the first of an ascending list all rank above it. */
  lemma AscendingTail(fs: seq<Factor>, g: Factor)
    requires fs != [] && Ascending(fs) && g in fs[1..]
    ensures Rank(fs[0]) < Rank(g)
  {
    var k :| 0 <= k < |fs[1..]| && fs[1..][k] == g;
    assert fs[k + 1] == g;
  }

  /**
   * Records of one factor followed by factor-major records of factors
   * ranked above it are factor-major.
   */
  lemma FactorMajorAppend(own: seq<Record>, rest: seq<Record>, f: Factor)
    requires forall rec :: rec in own ==> rec.factor == f
    requires forall rec :: rec in rest ==> Rank(f) < Rank(rec.factor)
    requires FactorMajor(rest)
    ensures FactorMajor(own + rest)
  {
    var r := own + rest;
    forall i, j | 0 <= i < j < |r| ensures Rank(r[i].factor) <= Rank(r[j].factor) {
      if j < |own| {
        assert own[i] in own && own[j] in own;
      } else if i < |own| {
        assert own[i] in own && rest[j - |own|] in rest;
      } else {
        assert r[i] == rest[i - |own|] && r[j] == rest[j - |own|];
      }
    }
  }

  /**
   * The records at row `row` factor by factor, for the factors of `fs`
   * (`.loc[:, factor_order]` on the `(ticker, factor)` series): all records
   * of a factor before those of the next, each factor's records in list
   * order of their tickers.
   */
  function RecordsFor(p: Panel, row: nat, fs: seq<Factor>, tickers: seq<Ticker>): (r: seq<Record>)
    requires Valid(p) && row < |p.dates|
    requires Ascending(fs)
    ensures forall rec :: rec in r ==> rec.factor in fs && rec.ticker in tickers && ReadAt(p, row, rec)
    ensures forall rec ::
      multiset(r)[rec] == (if rec.factor in fs && ReadAt(p, row, rec) then multiset(tickers)[rec.ticker] else 0)
    ensures FactorMajor(r)
  {
    if fs == [] then []
    else
      var own := FactorRecords(p, row, fs[0], tickers);
      var rest := RecordsFor(p, row, fs[1..], tickers);
      assert forall rec :: rec in rest ==> Rank(fs[0]) < Rank(rec.factor) by {
        forall rec | rec in rest ensures Rank(fs[0]) < Rank(rec.factor) {
          AscendingTail(fs, rec.factor);
        }
      }
      FactorMajorAppend(own, rest, fs[0]);
      RecordsForCount(p, row, fs, tickers, own, rest);
      own + rest
  }

  /** The count of a record in the records of `fs`, from its count in the first factor's and the rest's. */
  lemma RecordsForCount(p: Panel, row: nat, fs: seq<Factor>, tickers: seq<Ticker>, own: seq<Record>, rest: seq<Record>)
    requires Valid(p) && row < |p.dates|
    requires fs != [] && Ascending(fs)
    requires forall rec ::
      multiset(own)[rec] == (if rec.factor == fs[0] && ReadAt(p, row, rec) then multiset(tickers)[rec.ticker] else 0)
    requires forall rec ::
      multiset(rest)[rec] == (if rec.factor in fs[1..] && ReadAt(p, row, rec) then multiset(tickers)[rec.ticker] else 0)
    ensures forall rec ::
      multiset(own + rest)[rec] == (if rec.factor in fs && ReadAt(p, row, rec) then multiset(tickers)[rec.ticker] else 0)
  {
    assert fs == [fs[0]] + fs[1..];
    forall rec
      ensures multiset(own + rest)[rec] == (if rec.factor in fs && ReadAt(p, row, rec) then multiset(tickers)[rec.ticker] else 0)
    {
      if rec.factor == fs[0] && rec.factor in fs[1..] {
        AscendingTail(fs, rec.factor);
      }
    }
  }

  /**
   * The cross-section of `tickers` (`beta_df.loc[latest_date, tickers]`,
   * then `.loc[:, factor_order]`). It is read at the latest date of the
   * panel. Each existing `(ticker, factor)` column of a listed ticker gives
   * one record per listing of the ticker, holding that column's cell at the
   * latest date, and nothing else is read. The records come factor by
   * factor in `FactorOrder`. A panel with no rows has no latest date, and a
   * factor without any column among the tickers fails the selection.
   */
  function CrossSection(p: Panel, tickers: seq<Ticker>): (r: Result<Snapshot>)
    requires Valid(p)
    ensures |p.dates| == 0 ==> r == Failure(EmptyPanel)
    ensures |p.dates| > 0 ==> (r == Failure(MissingFactor) <==> exists f :: NoColumnFor(p, f, tickers))
    ensures r.Failure? ==> r.error == EmptyPanel || r.error == MissingFactor
    ensures r.Success? ==>
      && r.value.date in p.dates
      && (forall d :: d in p.dates ==> d <= r.value.date)
      && var row := RowOf(p.dates, r.value.date);
      && (forall rec :: rec in r.value.records ==> rec.ticker in tickers && ReadAt(p, row, rec))
      && (forall rec ::
            multiset(r.value.records)[rec] == (if ReadAt(p, row, rec) then multiset(tickers)[rec.ticker] else 0))
      && FactorMajor(r.value.records)
  {
    match LatestDate(p)
    case Failure(e) => Failure(e)
    case Success(d) =>
      if exists f :: f in FactorOrder && NoColumnFor(p, f, tickers) then
        Failure(MissingFactor)
      else
        assert forall f :: !NoColumnFor(p, f, tickers) by {
          forall f ensures !NoColumnFor(p, f, tickers) {
            FactorOrderLists(f);
          }
        }
        assert forall f: Factor :: f in FactorOrder by {
          forall f: Factor ensures f in FactorOrder { FactorOrderLists(f); }
        }
        Success(Snapshot(d, RecordsFor(p, RowOf(p.dates, d), FactorOrder, tickers)))
  }

  /**
   * The data handed to one bar chart: the factor and its data rows (the
   * plot then draws one bar per distinct ticker, which is not modelled).
   */
  datatype FactorChart = FactorChart(factor: Factor, rows: seq<Record>)

  /** Whether a record is of factor `f`. */
  function OfFactor(f: Factor): Record -> bool
  {
    (rec: Record) => rec.factor == f
  }

  /**
   * The records of factor `f`, in table order
   * (`beta_long[beta_long['Factor'] == f]`).
   */
  function FactorBars(records: seq<Record>, f: Factor): (r: seq<Record>)
    ensures forall rec :: rec in r ==> rec in records && rec.factor == f
    ensures IsSubsequence(r, records)
    ensures forall rec :: multiset(r)[rec] == if rec.factor == f then multiset(records)[rec] else 0
  {
    FilterIsSubsequence(records, OfFactor(f));
    FilterCount(records, OfFactor(f));
    Filter(records, OfFactor(f))
  }

  /** The data of one bar chart per factor, in `FactorOrder`. */
  function Charts(records: seq<Record>): (r: seq<FactorChart>)
    ensures |r| == |FactorOrder|
    ensures forall i :: 0 <= i < |r| ==> r[i].factor == FactorOrder[i]
    ensures forall i, rec :: 0 <= i < |r| && rec in records && rec.factor == FactorOrder[i] ==> rec in r[i].rows
    ensures forall i, rec :: 0 <= i < |r| && rec in r[i].rows ==> rec in records && rec.factor == FactorOrder[i]
  {
    seq(|FactorOrder|, i requires 0 <= i < |FactorOrder| => FactorChart(FactorOrder[i], FactorBars(records, FactorOrder[i])))
  }

  /**
   * Picking factor `f` out of the factor-by-factor records gives exactly the
   * records of `f`, in the list order of their tickers; a factor not in `fs`
   * gets none.
   */
  lemma {:induction false} FactorBarsOfRecordsFor(p: Panel, row: nat, fs: seq<Factor>, tickers: seq<Ticker>, f: Factor)
    requires Valid(p) && row < |p.dates|
    requires Ascending(fs)
    ensures FactorBars(RecordsFor(p, row, fs, tickers), f) ==
      if f in fs then FactorRecords(p, row, f, tickers) else []
  {
    if fs != [] {
      var own := FactorRecords(p, row, fs[0], tickers);
      var rest := RecordsFor(p, row, fs[1..], tickers);
      FactorBarsOfRecordsFor(p, row, fs[1..], tickers, f);
      BarsAfter(own, rest, fs[0], f, FactorBars(rest, f));
      InAscending(fs, f);
    }
  }

  /** A factor is in an ascending list when it is the first or in the rest, and the first is not in the rest. */
  lemma InAscending(fs: seq<Factor>, f: Factor)
    requires fs != [] && Ascending(fs)
    ensures (f in fs) == (f == fs[0] || f in fs[1..])
    ensures fs[0] !in fs[1..]
  {
    if f in fs {
      var k :| 0 <= k < |fs| && fs[k] == f;
      if k > 0 {
        assert fs[1..][k - 1] == f;
      }
    }
    if f in fs[1..] {
      var k :| 0 <= k < |fs[1..]| && fs[1..][k] == f;
      assert fs[k + 1] == f;
    }
    if fs[0] in fs[1..] {
      AscendingTail(fs, fs[0]);
    }
  }

  /**
   * Picking factor `f` out of records all of factor `g` followed by a
   * table: the records of the first part when `f` is `g`, then those of
   * the table.
   */
  lemma BarsAfter(own: seq<Record>, rest: seq<Record>, g: Factor, f: Factor, later: seq<Record>)
    requires forall rec :: rec in own ==> rec.factor == g
    requires FactorBars(rest, f) == later
    ensures FactorBars(own + rest, f) == (if f == g then own else []) + later
  {
    FactorBarsAppend(own, rest, f);
    BarsOfOneFactor(own, g, f);
  }

  /** Picking a factor out of two tables one after the other picks it out of each. */
  lemma FactorBarsAppend(a: seq<Record>, b: seq<Record>, f: Factor)
    ensures FactorBars(a + b, f) == FactorBars(a, f) + FactorBars(b, f)
  {
    FilterAppend(a, b, OfFactor(f));
  }

  /**
   * Picking factor `f` out of records all of factor `g` keeps them all when
   * `f` is `g`, and none otherwise.
   */
  lemma BarsOfOneFactor(records: seq<Record>, g: Factor, f: Factor)
    requires forall rec :: rec in records ==> rec.factor == g
    ensures FactorBars(records, f) == if f == g then records else []
  {
    if f == g {
      FilterAll(records, OfFactor(f));
    }
  }

  /**
   * The bar-chart data of a cross-section: chart `i` is given factor
   * `FactorOrder[i]`, with one data row per listed ticker having that factor's
   * column, in list order and repeated as listed; and no chart is empty.
   */
  lemma CrossSectionCharts(p: Panel, tickers: seq<Ticker>, i: nat)
    requires Valid(p)
    requires CrossSection(p, tickers).Success?
    requires i < |FactorOrder|
    ensures var s := CrossSection(p, tickers).value;
      && Charts(s.records)[i].rows == FactorRecords(p, RowOf(p.dates, s.date), FactorOrder[i], tickers)
      && RecordTickers(Charts(s.records)[i].rows) == TickersWithColumn(p, FactorOrder[i], tickers)
      && Charts(s.records)[i].rows != []
  {
    var s := CrossSection(p, tickers).value;
    var row := RowOf(p.dates, s.date);
    var f := FactorOrder[i];
    FactorBarsOfRecordsFor(p, row, FactorOrder, tickers, f);
    SomeTickerWithColumn(p, f, tickers);
  }

  /** When some listed ticker has a column for factor `f`, the selection by that column is not empty. */
  lemma SomeTickerWithColumn(p: Panel, f: Factor, tickers: seq<Ticker>)
    requires !NoColumnFor(p, f, tickers)
    ensures TickersWithColumn(p, f, tickers) != []
  {
    var t :| t in tickers && Column(t, f) in p.cells;
    assert t in multiset(tickers);
    assert t in TickersWithColumn(p, f, tickers);
  }

  /** The data rows of all charts, chart after chart. */
  function AllBars(charts: seq<FactorChart>): seq<Record>
  {
    if charts == [] then [] else charts[0].rows + AllBars(charts[1..])
  }

  /** The factors of the charts, chart after chart. */
  function ChartFactors(charts: seq<FactorChart>): seq<Factor>
  {
    if charts == [] then [] else [charts[0].factor] + ChartFactors(charts[1..])
  }

  /**
   * Charts of distinct factors, each drawing the records of its factor,
   * draw together every record of their factors as often as the table
   * holds it, and no other record.
   */
  lemma {:induction false} AllBarsCount(records: seq<Record>, cs: seq<FactorChart>)
    requires forall i :: 0 <= i < |cs| ==> cs[i].rows == FactorBars(records, cs[i].factor)
    requires forall i, j :: 0 <= i < j < |cs| ==> cs[i].factor != cs[j].factor
    ensures forall rec ::
      multiset(AllBars(cs))[rec] == (if rec.factor in ChartFactors(cs) then multiset(records)[rec] else 0)
  {
    if cs != [] {
      AllBarsCount(records, cs[1..]);
      assert cs[0].factor !in ChartFactors(cs[1..]) by {
        ChartFactorsAt(cs[1..]);
      }
    }
  }

  /** Chart factors are the factors of the charts, position by position. */
  lemma {:induction false} ChartFactorsAt(cs: seq<FactorChart>)
    ensures |ChartFactors(cs)| == |cs|
    ensures forall i :: 0 <= i < |cs| ==> ChartFactors(cs)[i] == cs[i].factor
  {
    if cs != [] {
      ChartFactorsAt(cs[1..]);
    }
  }

  /**
   * The charts partition the table: every record is drawn exactly once,
   * in the chart of its own factor.
   */
  lemma ChartsPartition(records: seq<Record>)
    ensures multiset(AllBars(Charts(records))) == multiset(records)
  {
    var cs := Charts(records);
    ChartsOfFactors(records);
    ChartsCoverFactors(records);
    ChartsDistinct(records);
    AllBarsCount(records, cs);
    forall rec
      ensures multiset(AllBars(cs))[rec] == multiset(records)[rec]
    {
      FactorOrderLists(rec.factor);
    }
  }

  /** No two charts share a factor. */
  lemma ChartsDistinct(records: seq<Record>)
    ensures forall i, j :: 0 <= i < j < |Charts(records)| ==> Charts(records)[i].factor != Charts(records)[j].factor
  {
    var cs := Charts(records);
    forall i, j | 0 <= i < j < |cs| ensures cs[i].factor != cs[j].factor {
      assert Rank(cs[i].factor) == i && Rank(cs[j].factor) == j;
    }
  }

  /** Every factor has a chart. */
  lemma ChartsCoverFactors(records: seq<Record>)
    ensures forall f :: f in ChartFactors(Charts(records))
  {
    var cs := Charts(records);
    ChartFactorsAt(cs);
    forall f ensures f in ChartFactors(cs) {
      assert ChartFactors(cs)[Rank(f)] == f;
    }
  }

  /** Each chart draws the records of its own factor. */
  lemma ChartsOfFactors(records: seq<Record>)
    ensures forall i :: 0 <= i < |Charts(records)| ==>
      Charts(records)[i].rows == FactorBars(records, Charts(records)[i].factor)
  {
    var cs := Charts(records);
    forall i | 0 <= i < |cs| ensures cs[i].rows == FactorBars(records, cs[i].factor) {
      assert cs[i] == FactorChart(FactorOrder[i], FactorBars(records, FactorOrder[i]));
    }
  }

  // ---------------------------------------------------------------------
  // Time series
  // ---------------------------------------------------------------------

  /** One observation of a column: a date and the cell at that date. */
  datatype Obs = Obs(date: Date, beta: Cell)

  /** The column `c` as a series indexed by date, in row order. */
  function Observations(p: Panel, c: Column): (r: seq<Obs>)
    requires Valid(p) && c in p.cells
    ensures |r| == |p.dates|
    ensures forall i :: 0 <= i < |r| ==> r[i] == Obs(p.dates[i], p.cells[c][i])
  {
    seq(|p.dates|, i requires 0 <= i < |p.dates| => Obs(p.dates[i], p.cells[c][i]))
  }

  /**
   * The observations dated `minDate` or later (`series[series.index >=
   * min_date]`): all of them, each as often as in the series, in series
   * order, and nothing earlier.
   */
  function Window(obs: seq<Obs>, minDate: Date): (r: seq<Obs>)
    ensures forall o :: o in r ==> o in obs && o.date >= minDate
    ensures IsSubsequence(r, obs)
    ensures forall o :: multiset(r)[o] == if o.date >= minDate then multiset(obs)[o] else 0
  {
    var recent := (o: Obs) => o.date >= minDate;
    FilterIsSubsequence(obs, recent);
    FilterCount(obs, recent);
    Filter(obs, recent)
  }

  /**
   * When the dates ascend, as in a date-sorted spreadsheet, the window is a
   * suffix of the series: everything from the first date not before
   * `minDate` on.
   */
  lemma {:induction false} WindowOfAscendingIsSuffix(obs: seq<Obs>, minDate: Date)
    requires forall i, j :: 0 <= i < j < |obs| ==> obs[i].date < obs[j].date
    ensures Window(obs, minDate) == obs[|obs| - |Window(obs, minDate)|..]
  {
    if obs != [] {
      if obs[0].date >= minDate {
        assert forall o :: o in obs ==> o.date >= minDate;
        AllKept(obs, minDate);
      } else {
        WindowOfAscendingIsSuffix(obs[1..], minDate);
        WindowStep(obs, minDate);
      }
    }
  }

  /** A window that starts no later than the series keeps all of it. */
  lemma {:induction false} AllKept(obs: seq<Obs>, minDate: Date)
    requires forall o :: o in obs ==> o.date >= minDate
    ensures Window(obs, minDate) == obs
  {
    if obs != [] {
      AllKept(obs[1..], minDate);
      assert Window(obs, minDate) == [obs[0]] + Window(obs[1..], minDate);
    }
  }

  /** An observation before `minDate` at the head of the series is dropped. */
  lemma WindowStep(obs: seq<Obs>, minDate: Date)
    requires obs != [] && obs[0].date < minDate
    ensures Window(obs, minDate) == Window(obs[1..], minDate)
  {
  }

  /** One line of a line chart: a ticker and its windowed series. */
  datatype Line = Line(ticker: Ticker, points: seq<Obs>)

  /** The data of one line chart: the factor and its lines. */
  datatype FactorPlot = FactorPlot(factor: Factor, lines: seq<Line>)

  /** The tickers of a chart's lines (the legend labels), line by line. */
  function LineTickers(lines: seq<Line>): (r: seq<Ticker>)
    ensures |r| == |lines|
    ensures forall i :: 0 <= i < |lines| ==> r[i] == lines[i].ticker
  {
    seq(|lines|, i requires 0 <= i < |lines| => lines[i].ticker)
  }

  /**
   * The lines of the chart of factor `f`: one per listed ticker that has an
   * `(ticker, f)` column, in list order and repeated as often as listed
   * (tickers without the column are skipped); each line is that column's
   * window from `minDate`.
   */
  function FactorLines(p: Panel, f: Factor, tickers: seq<Ticker>, minDate: Date): (r: seq<Line>)
    requires Valid(p)
    ensures LineTickers(r) == TickersWithColumn(p, f, tickers)
    ensures forall l :: l in r ==>
      Column(l.ticker, f) in p.cells && l.points == Window(Observations(p, Column(l.ticker, f)), minDate)
  {
    var ts := TickersWithColumn(p, f, tickers);
    seq(|ts|, j requires 0 <= j < |ts| => Line(ts[j], Window(Observations(p, Column(ts[j], f)), minDate)))
  }

  /** The time series: one line chart per factor, in `FactorOrder`. */
  function TimeSeries(p: Panel, tickers: seq<Ticker>, minDate: Date): (r: seq<FactorPlot>)
    requires Valid(p)
    ensures |r| == |FactorOrder|
    ensures forall i :: 0 <= i < |r| ==> r[i] == FactorPlot(FactorOrder[i], FactorLines(p, FactorOrder[i], tickers, minDate))
  {
    seq(|FactorOrder|, i requires 0 <= i < |FactorOrder| =>
      FactorPlot(FactorOrder[i], FactorLines(p, FactorOrder[i], tickers, minDate)))
  }

  /**
   * What a line chart shows: only listed tickers with a column for the
   * chart's factor, and only observations of that column dated `minDate`
   * or later.
   */
  lemma OnlyWindowShown(p: Panel, f: Factor, tickers: seq<Ticker>, minDate: Date, l: Line, o: Obs)
    requires Valid(p)
    requires l in FactorLines(p, f, tickers, minDate) && o in l.points
    ensures l.ticker in tickers && Column(l.ticker, f) in p.cells
    ensures o.date >= minDate && o in Observations(p, Column(l.ticker, f))
  {
    var lines := FactorLines(p, f, tickers, minDate);
    var j :| 0 <= j < |lines| && lines[j] == l;
    assert LineTickers(lines)[j] == l.ticker;
    assert l.ticker in TickersWithColumn(p, f, tickers);
  }

  /**
   * What a line chart does not leave out: every observation dated
   * `minDate` or later of every listed ticker with a column for the chart's
   * factor is on that ticker's line.
   */
  lemma WholeWindowShown(p: Panel, f: Factor, tickers: seq<Ticker>, minDate: Date, t: Ticker, o: Obs)
    requires Valid(p)
    requires t in tickers && Column(t, f) in p.cells
    requires o in Observations(p, Column(t, f)) && o.date >= minDate
    ensures exists l :: l in FactorLines(p, f, tickers, minDate) && l.ticker == t && o in l.points
  {
    var lines := FactorLines(p, f, tickers, minDate);
    var ts := TickersWithColumn(p, f, tickers);
    assert t in multiset(tickers);
    assert t in multiset(ts);
    var j :| 0 <= j < |ts| && ts[j] == t;
    assert LineTickers(lines)[j] == t;
    var l := lines[j];
    assert l in lines;
    var obs := Observations(p, Column(t, f));
    assert o in multiset(obs);
    assert o in multiset(l.points);
  }

  /**
   * A listed ticker without a column for the chart's factor gets no line
   * in that chart, and raises no error.
   */
  lemma MissingColumnSkipped(p: Panel, f: Factor, tickers: seq<Ticker>, minDate: Date, t: Ticker)
    requires Valid(p)
    requires Column(t, f) !in p.cells
    ensures forall l :: l in FactorLines(p, f, tickers, minDate) ==> l.ticker != t
  {
  }
}
