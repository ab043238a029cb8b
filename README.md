# Fama-French beta dashboard: a Dafny model of its data logic

The dashboard (`beta_app.py`) shows precomputed Fama-French five-factor betas
for up to ten tickers typed into an input box. It has two views: bar charts
of the cross-section at the latest date of the beta spreadsheet, and line
charts of each ticker's betas from a start date on. Beside the input box it
shows the S&P 500 company list, with two class-B symbols rewritten to the
spelling the beta data uses, sorted by company name.

This project models the data logic between the user-interface calls as pure
functions, and proves what each one computes:

- `seqs.dfy` (`Seqs`): order-preserving selection (`Filter`). This one
  operation is behind the ticker validation, the time-series window and the
  per-factor chart data.
- `text.dfy` (`Text`): Python's `str.split(",")`, `str.strip()` and
  `str.upper()`.
- `directory.dfy` (`Directory`): `correct_ticker` and the company list sorted
  by name.
- `panel.dfy` (`BetaPanel`): the beta panel. It holds the date index and one
  column of cells per `(ticker, factor)` header pair. The file also defines
  the five factors in display order, the tickers the panel has, its latest
  date and the error cases.
- `validation.dfy` (`Validation`): from the text of the input box to the
  validated tickers.
- `queries.dfy` (`Queries`): the cross-section at the latest date, its
  per-factor bar-chart data, and the per-factor time series.
- `dashboard.dfy` (`Dashboard`): the mode switch and the stop when no
  ticker is valid.

Dates are integers: any day count that keeps the order of calendar dates
will do. A cell is either a beta (`real`) or `Missing`, which stands for the
NaN of an empty spreadsheet cell. Nothing computes on betas.

## Behaviour as the code has it

- The input is split at commas and cut to its first ten tokens *before*
  each token is stripped, upper-cased and checked against the panel. So
  twelve tokens with only the eleventh known give no valid ticker
  (`Validation.TruncationBeforeValidation`).
- Validation keeps a ticker once per entry when it is typed twice. Both
  queries keep the repetition: the cross-section reads a repeated ticker's
  columns once per entry, and the time-series loop draws one line per entry.
- The time-series window keeps every observation dated on or after the
  start date. The code sets no upper bound at today, and the model sets
  none either.
- The cross-section has one record per existing `(ticker, factor)` column of
  a validated ticker, repeated as often as the ticker is. A ticker that
  lacks a factor column has no record for that factor. An existing
  column's empty cell is a record holding `Missing`.
- The selection by `factor_order` (line 72) puts the records factor by
  factor in `factor_order`, with each factor's records in the order of the
  validated tickers. It fails when some factor has no column among the
  validated tickers: pandas 2 raises a `KeyError` for a list label that
  selects nothing. The model has this as the `MissingFactor` failure.
- The code never sorts the date index: the latest date is the index's
  maximum, and the window is a mask on the dates. So the model does not
  assume sorted dates. `Queries.WindowOfAscendingIsSuffix` adds what holds
  when the dates do ascend.
- The company list is not deduplicated: every listing row appears once.

## Model

| member | source | states |
|---|---|---|
| Directory.CorrectTicker | beta_app.py:21-26 | `BRK.B` becomes `BRK-B`, `BF.B` becomes `BF-B`, and every other symbol is returned unchanged |
| Directory.CorrectTickerIdempotent | beta_app.py:21-26 | correcting a corrected ticker changes nothing |
| Directory.NameLeTotal | beta_app.py:30 | any two company names are ordered one way or the other by Python's string order |
| Directory.NameLeTransitive | beta_app.py:30 | Python's string order is transitive |
| Directory.Insert | beta_app.py:30 | inserting into a name-sorted list keeps it sorted and adds exactly the one company |
| Directory.SortByName | beta_app.py:30 | the result is sorted by company name and is a permutation of the input |
| Directory.Corrected | beta_app.py:28-29 | one company per listing row, in listing order, with the security's name and the corrected symbol |
| Directory.BuildDirectory | beta_app.py:28-30 | the company list is sorted by name and holds every listing row exactly once, with its ticker corrected |
| Directory.CorrectedIsFinal | beta_app.py:21-26 | a corrected ticker is never one of the two symbols that need correcting |
| Directory.InsertFirst | beta_app.py:30 | a company whose name is not above the first of a sorted list can go first and the list stays sorted |
| Directory.InsertLater | beta_app.py:30 | a company whose name is not below the first of a sorted list goes after it: the list stays sorted and gains exactly that company |
| Directory.DirectoryTickersCorrected | beta_app.py:21-28 | no ticker in the company list is one of the two symbols that need correcting |
| Text.Split | beta_app.py:57 | `split(",")` gives at least one piece, and no piece contains a comma |
| Text.JoinSplit | beta_app.py:57 | joining the pieces with commas gives back the input |
| Text.SplitJoin | beta_app.py:57 | splitting comma-joined comma-free pieces gives back the pieces |
| Text.SplitAppend | beta_app.py:57 | the pieces of `a + "," + b` are the pieces of `a` followed by the pieces of `b` |
| Text.TrimStart | beta_app.py:57 | the result is a suffix of the input, everything dropped is whitespace, and it does not start with whitespace |
| Text.TrimEnd | beta_app.py:57 | the result is a prefix of the input, everything dropped is whitespace, and it does not end with whitespace |
| Text.Strip | beta_app.py:57 | `strip()` neither starts nor ends with whitespace and is no longer than the input |
| Text.StripInfix | beta_app.py:57 | `strip()` is the infix after the leading whitespace, and everything outside it is whitespace |
| Text.StripIdempotent | beta_app.py:57 | stripping twice is stripping once |
| Text.UpperChar | beta_app.py:57 | a lower-case ASCII letter becomes its upper-case letter, any other character is unchanged, and the result is never lower-case ASCII |
| Text.Upper | beta_app.py:57 | `upper()` keeps the length and maps each character by `UpperChar` |
| Text.UpperKeepsStripped | beta_app.py:57 | upper-casing a stripped string leaves it stripped |
| Seqs.Filter | beta_app.py:60 | the selection is no longer than its input, holds only accepted input elements, and is empty exactly when no element is accepted |
| Seqs.FilterIsSubsequence | beta_app.py:60 | the selection keeps the input order (it is a subsequence) |
| Seqs.FilterCount | beta_app.py:60 | every occurrence of an accepted element is kept, and none of a rejected one |
| Seqs.FilterAppend | beta_app.py:80 | selecting from two sequences one after the other selects from each in turn |
| Seqs.FilterAll | beta_app.py:80 | a selection that accepts every element keeps the whole sequence |
| BetaPanel.Label | beta_app.py:49 | each factor's column label is one of `Mkt-RF`, `SMB`, `HML`, `CMA`, `RMW` |
| BetaPanel.LabelsInOrder | beta_app.py:49 | the labels of the factors of `FactorOrder` are exactly `Mkt-RF`, `SMB`, `HML`, `CMA`, `RMW`, in that order, and no two factors share a label |
| BetaPanel.Rank | beta_app.py:49 | a factor's position in `factor_order`: the factor is there, and at no other position |
| BetaPanel.FactorOrderLists | beta_app.py:49 | `factor_order` lists every factor exactly once |
| BetaPanel.AvailableTickers | beta_app.py:59 | a ticker is available exactly when the panel has a column for it |
| BetaPanel.MaxDate | beta_app.py:68 | the maximum is a date of the index, and no date exceeds it |
| BetaPanel.LatestDate | beta_app.py:68 | the latest date is the index maximum; a panel without rows fails with `EmptyPanel` |
| BetaPanel.RowOf | beta_app.py:71 | the row returned is labelled with the date, and no earlier row is |
| BetaPanel.RowOfUnique | beta_app.py:71 | with distinct dates, a row's own date leads back to that row |
| Validation.Normalize | beta_app.py:57 | a normalised token is already stripped, and (with ASCII-only upper-casing) no longer than the raw token |
| Validation.NormalizeIsUpper | beta_app.py:57 | a normalised token is already upper case |
| Validation.NormalizeIdempotent | beta_app.py:57 | normalising twice is normalising once |
| Validation.ParseTickers | beta_app.py:57 | at most ten tickers; exactly `min(tokens, 10)`; the i-th is the i-th comma-separated token, stripped and upper-cased |
| Validation.ExtraTokensIgnored | beta_app.py:57 | once the input has ten tokens, appending `,` and anything else changes nothing |
| Validation.ParseJoined | beta_app.py:57 | for comma-joined tokens, the parsed tickers are the first ten tokens, normalised, in order |
| Validation.ValidTickers | beta_app.py:59-60 | only available parsed tickers, each as often as parsed (duplicates kept), in parsed order; empty exactly when none is available |
| Validation.Validate | beta_app.py:57-64 | fails with `NoValidTickers` exactly when no parsed ticker is available; otherwise 1 to 10 tickers, in input order, each with a column in the panel |
| Validation.DuplicatesKept | beta_app.py:60 | an available ticker typed k times among the first ten tokens is validated k times |
| Validation.TruncationBeforeValidation | beta_app.py:57-64 | if none of the first ten tokens is available, the input is rejected, whatever the later tokens are |
| Validation.NormalizedTokenAccepted | beta_app.py:57-60 | a token among the first ten that normalises to an available ticker is validated as that ticker |
| Queries.TickersWithColumn | beta_app.py:71-72 | the listed tickers that have a column for the factor, each as often as listed, in list order |
| Queries.TickersWithColumnCons | beta_app.py:71-72 | the first listed ticker leads the selection exactly when it has the factor's column |
| Queries.RecordTickers | beta_app.py:74-75 | the `Ticker` column of the long table, record by record |
| Queries.FactorRecordsCount | beta_app.py:71-72 | a record's count among one factor's records grows by one for the first ticker when that ticker has the column, and is otherwise its count among the later tickers' records |
| Queries.FactorRecords | beta_app.py:71-72 | the records of one factor: one per listed ticker with that factor's column, in list order and as often as listed, each holding its column's cell at the row, and no other record |
| Queries.AscendingTail | beta_app.py:49 | in a list of factors in `factor_order` order, every factor after the first ranks above it |
| Queries.FactorMajorAppend | beta_app.py:72 | records of one factor followed by factor-by-factor records of later factors are factor by factor |
| Queries.RecordsFor | beta_app.py:71-72 | the records of the listed factors: each existing column of a listed factor and ticker as often as the ticker is listed, with its cell at the row, nothing else, factor by factor |
| Queries.RecordsForCount | beta_app.py:71-72 | a record's count among the records of all listed factors is its count among the first factor's plus its count among the rest |
| Queries.CrossSection | beta_app.py:68-75 | read at the index maximum; every existing column of a validated ticker appears as often as the ticker was validated, holding its cell at that date, and nothing else; records come factor by factor in `factor_order`; `EmptyPanel` for a panel without rows; otherwise `MissingFactor` exactly when some factor has no column among the tickers |
| Queries.FactorBars | beta_app.py:80 | the records of one factor: all of them, with their multiplicity, in table order, and no others |
| Queries.Charts | beta_app.py:78-80 | one chart per factor in `factor_order`; a chart holds exactly the records of its factor |
| Queries.FactorBarsAppend | beta_app.py:80 | picking a factor out of two tables one after the other picks it out of each |
| Queries.BarsOfOneFactor | beta_app.py:80 | picking a factor out of records of a single factor keeps all of them when the factors match, and none otherwise |
| Queries.BarsAfter | beta_app.py:80 | picking a factor out of one factor's records followed by a table gives the first part's records when the factors match, then the table's |
| Queries.FactorBarsOfRecordsFor | beta_app.py:72-80 | picking a factor out of the factor-by-factor records gives exactly that factor's records in ticker order, or none for an unlisted factor |
| Queries.InAscending | beta_app.py:49 | in a list of factors in `factor_order` order, a factor is listed exactly when it is the first or among the rest, and the first is not among the rest |
| Queries.CrossSectionCharts | beta_app.py:71-80 | the data given to bar chart `i` of a cross-section holds one row per validated ticker with that factor's column, in ticker order and as often as validated; no chart's data is empty |
| Queries.AllBarsCount | beta_app.py:78-80 | charts of distinct factors, each drawing its factor's records, together draw every record of those factors as often as the table holds it, and no other record |
| Queries.ChartsDistinct | beta_app.py:78 | no two charts share a factor |
| Queries.ChartsCoverFactors | beta_app.py:78 | every factor has a chart |
| Queries.ChartsOfFactors | beta_app.py:78-80 | each chart draws exactly the records of its own factor |
| Queries.SomeTickerWithColumn | beta_app.py:71-72 | when some listed ticker has a column for a factor, the tickers selected by that factor's column are not empty |
| Queries.ChartsPartition | beta_app.py:78-80 | taken together, the charts draw every record exactly once |
| Queries.Observations | beta_app.py:96 | the column as a series: one observation per row, with that row's date and cell |
| Queries.Window | beta_app.py:97 | every observation dated on or after the start, with its multiplicity, in series order, and none earlier |
| Queries.WindowOfAscendingIsSuffix | beta_app.py:97 | on ascending dates, the window is a suffix of the series |
| Queries.AllKept | beta_app.py:97 | a series starting no earlier than the start date is kept whole |
| Queries.WindowStep | beta_app.py:97 | an observation before the start date at the head of the series is dropped |
| Queries.FactorLines | beta_app.py:94-97 | one line per listed ticker with a column for the factor, in list order; each line is that column's window |
| Queries.TimeSeries | beta_app.py:92-97 | one chart per factor in `factor_order`, each holding that factor's lines |
| Queries.OnlyWindowShown | beta_app.py:94-97 | a drawn point belongs to a listed ticker with a column for the factor, and is an observation of that column dated on or after the start |
| Queries.WholeWindowShown | beta_app.py:94-97 | every observation on or after the start, of every listed ticker with the column, is drawn on that ticker's line |
| Queries.MissingColumnSkipped | beta_app.py:95 | a ticker without a column for the factor gets no line in that factor's chart |
| Dashboard.ModeOf | beta_app.py:67 | the cross-section is chosen exactly when the radio label starts with `1` |
| Dashboard.Run | beta_app.py:62-97 | with no valid ticker, the run stops with `NoValidTickers` and no query is evaluated; otherwise the chosen view is the cross-section with its charts (or the cross-section's failure, `EmptyPanel` or `MissingFactor`) or the time series of the validated tickers |
| Dashboard.CrossSectionBarsValidated | beta_app.py:71-80 | every data row given to a bar chart has that chart's factor, a ticker that was typed in and is available, and its column's cell at the latest date |

## Left out

- Fetching the S&P 500 list from the web (`pd.read_html`, lines 15-18) is left out: the listing rows are an input of `Directory.BuildDirectory`.
- Loading the spreadsheet (`pd.read_excel`, `pd.to_datetime`, lines 44-45) is left out, and so is the error for a malformed file: a panel is an input, and `BetaPanel.Valid` states the shape a loaded table has.
- The `st.cache_data` memoisation (lines 13 and 42) is a library side effect with no effect on results.
- The Streamlit widgets, layout, titles and messages (lines 37-39, 52-56, 63, 69 and 89) are left out. `st.warning` followed by `st.stop` becomes the `NoValidTickers` failure.
- All plotting (seaborn and matplotlib, lines 7, 79-85 and 93-103) is left out; each chart is modelled by the data it is given. `sns.barplot` (line 81) groups its data rows by ticker and draws one bar per distinct ticker, its height the mean of the rows, so a ticker entered twice gets one bar from two identical rows; that grouping is not modelled. The plotting libraries skip NaN values; the model keeps `Missing` cells in the data.
- The clock is left out: the start of the window is the parameter `minDate`. Line 90 computes `today - 5 years` as a timestamp that includes the current time of day, so `minDate` stands for the first day count at or after that instant; midnight of the day five years ago is then excluded. Calendar arithmetic is not modelled, and dates are integers.
- Validation.Normalize: its bound "no longer than the raw token" holds for the model only, because `Text.Upper` is ASCII-only. Python's `t.strip().upper()` can be longer than the token (`"ß"` becomes `"SS"`, `"ﬁ"` becomes `"FI"`).
- Text.Upper: upper-cases ASCII letters only. Python's `str.upper()` also maps other letters, some to several characters (for example `ß` to `SS`).
- Directory.SortByName: breaks ties between equal company names by listing order. pandas' default `sort_values` is not stable, so the model claims only sortedness and permutation.
- BetaPanel.Valid: requires distinct dates. With a repeated latest date, `.loc` returns several rows and the code fails at line 72; that failure is not modelled.
- BetaPanel.AvailableTickers: is the set of tickers that have a column. Unused labels that a pandas MultiIndex level can keep are not modelled.
- Queries.CrossSection: follows pandas 2, where the selection by `factor_order` fails when a factor has no column among the selected tickers. pandas before 2.0 skips such a factor and returns the others; that variant is not modelled.
