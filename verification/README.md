# Keyword forecast dashboard: ranking, reshape and display window

A Dafny model of the pure data logic in the keyword search-volume dashboard.
It covers three parts:

- **Growth ranker.** A keyword's growth compares its mean volume over the last
  three months with its mean over the three months before them. It is
  `(recent - previous) / previous * 100` when the previous mean is positive,
  and 0 otherwise. The five fastest-growing keywords are kept.
- **Reshape.** The wide monthly table (`ds` plus one column per keyword) is
  melted into (month, keyword, volume) triples. One keyword's series is read
  back from those triples.
- **Display window.** The cutoff is the latest forecast month minus the
  chosen number of months. The observed series, the forecast rows and every
  comparison series are each cut to the rows on or after the cutoff.

Modelling choices:

- Volumes and averages are exact `real`s.
- Timestamps are integer month indices, so subtracting a number of months is
  integer subtraction.
- Row selection follows pandas exactly, including short tables. The
  `iloc[-6:-3]` slice clamps like a Python slice. When that window is empty,
  pandas gives its mean as NaN, NaN fails the `> 0` test, and the growth is 0.
  The model states this as an explicit branch; it does not require six rows.
- The sort the code uses is not stable. The ranking is therefore specified
  only as "descending, and a prefix of some descending reordering of the
  growth table". `Ranking.RankingGrowthsUnique` shows that every such
  reordering has the same growth at every position.
- The code raises no error on a short history. With three rows or fewer
  the previous window is empty and the growth is 0. With four or five rows
  the previous window is every row before the last three. The model
  follows the code.

Modules:

- `PandasSlice`: Python-style `iloc` and `tail`.
- `SeriesStore`: the wide table, `melt`, and selecting a keyword.
- `Ranking`: sorting a growth table and taking its top entries.
- `GrowthRanker`: the windows, the growth policy, and `top_keywords`.
- `DisplayWindow`: the latest timestamp, the cutoff and the filter.
- `Dashboard`: everything drawn for one selection.

## Model

| member | source | states |
|---|---|---|
| PandasSlice.ILoc | ver1_Keyword_Forecast_Dashboard.py:19 | `iloc[start:stop]` never fails. Negative bounds count from the end and out-of-range bounds are clamped. The result is empty when the stop does not lie after the start, and otherwise is the slice between the normalised bounds. |
| PandasSlice.ILocSplit | ver1_Keyword_Forecast_Dashboard.py:19 | For ordered normalised bounds `a <= b <= c`, `s[a:b] + s[b:c] == s[a:c]`, and `s[a:c]` has `c - a` elements. |
| PandasSlice.Tail | ver1_Keyword_Forecast_Dashboard.py:18 | `tail(n)` holds min(len, n) rows, and they are the last rows of the table. |
| PandasSlice.TailIsNegativeSlice | ver1_Keyword_Forecast_Dashboard.py:18-19 | `tail(n)` is the same selection as `iloc[-n:]`, so both windows are positions counted back from the end. |
| GrowthRanker.RecentWindow | ver1_Keyword_Forecast_Dashboard.py:18 | The recent window holds the last three rows, or every row of a shorter table. |
| GrowthRanker.PreviousWindow | ver1_Keyword_Forecast_Dashboard.py:19 | The previous window is the three rows before the last three when there are at least six rows. With four or five rows it is the rows before the last three. It is empty iff there are at most three rows. |
| GrowthRanker.WindowsAdjacent | ver1_Keyword_Forecast_Dashboard.py:18-19 | Previous window followed by recent window is exactly the trailing block of at most six rows: the windows are adjacent, disjoint and counted back from the latest row. With at least six rows each window is exactly three rows. The previous window is empty iff there are at most three rows. |
| GrowthRanker.Mean | ver1_Keyword_Forecast_Dashboard.py:22-23 | The mean of a non-empty window. |
| GrowthRanker.MeanTimesLength | ver1_Keyword_Forecast_Dashboard.py:22-23 | The mean times the window length is the window's total. |
| GrowthRanker.Growth | ver1_Keyword_Forecast_Dashboard.py:24-27 | A previous average ≤ 0 gives growth exactly 0, with no division. A positive previous average gives growth > 0 iff recent > previous, and < 0 iff recent < previous. Growth is never below -100 when the recent average is non-negative. |
| GrowthRanker.GrowthIsPercentChange | ver1_Keyword_Forecast_Dashboard.py:25 | With a positive previous average, growth × previous = (recent − previous) × 100: the growth is the change in percent of the previous average. |
| GrowthRanker.WindowGrowth | ver1_Keyword_Forecast_Dashboard.py:22-27 | A previous window whose total is not positive gives growth 0. This covers the empty window, whose NaN mean fails `> 0`. Otherwise the growth is positive iff the recent mean exceeds the previous mean. |
| GrowthRanker.KeywordGrowth | ver1_Keyword_Forecast_Dashboard.py:18-27 | A keyword's growth compares its recent and previous windows. In a table of at most three rows it is 0, because the previous window is empty. |
| GrowthRanker.KeywordGrowthWindows | ver1_Keyword_Forecast_Dashboard.py:18-27 | With at least six rows, a keyword's growth compares the mean of its last three volumes with the mean of the three before. With four or five rows, the previous window is every row before the last three (`iloc[-6:-3]` clamped at the start). With at most three rows, every growth is 0 (the NaN mean of an empty window fails `> 0`). |
| GrowthRanker.GrowthFiftyPercent | ver1_Keyword_Forecast_Dashboard.py:25 | A recent average of 150 against a previous average of 100 gives growth 50. |
| GrowthRanker.GrowthFromZeroIsZero | ver1_Keyword_Forecast_Dashboard.py:24-27 | A keyword with zero volume throughout the previous window has growth 0, whatever its recent volume. |
| SeriesStore.ColumnValuesSlice | ver1_Keyword_Forecast_Dashboard.py:22-23 | Reading a keyword column from a block of rows is the same as taking that block of the column. |
| GrowthRanker.GrowthRates | ver1_Keyword_Forecast_Dashboard.py:20-28 | `growth_rates` has one entry per keyword column, in column order, under that column's name. |
| GrowthRanker.GrowthRatesDistinct | ver1_Keyword_Forecast_Dashboard.py:21-28 | No key of `growth_rates` appears twice. |
| GrowthRanker.GrowthRatesLookup | ver1_Keyword_Forecast_Dashboard.py:21-28 | Every column name is a key of `growth_rates`, and its value is that column's growth. |
| GrowthRanker.GrowthOfName | ver1_Keyword_Forecast_Dashboard.py:28 | Looking up a column's name returns the growth of the column with that name. |
| GrowthRanker.RankKeywords | ver1_Keyword_Forecast_Dashboard.py:17-30 | `top_keywords` has min(5, #keywords) entries. They are distinct column names, in non-increasing growth. Every column is included when there are at most five. No column left out grows faster than a selected one. |
| GrowthRanker.RankedInOrder | ver1_Keyword_Forecast_Dashboard.py:20-30 | Read against the table's own columns, an earlier ranked keyword grows at least as fast as a later one. |
| GrowthRanker.UnrankedNotFaster | ver1_Keyword_Forecast_Dashboard.py:20-30 | Read against the table's own columns, a keyword left out of the top five grows no faster than any ranked keyword. |
| Ranking.Insert | ver1_Keyword_Forecast_Dashboard.py:30 | Inserting into a descending sequence keeps it descending. It adds exactly the one entry and keeps keys distinct when the new key is fresh. |
| Ranking.SortDesc | ver1_Keyword_Forecast_Dashboard.py:30 | `sort_values(ascending=False)` returns a reordering of its input (same multiset) in non-increasing growth. Distinct keys stay distinct. |
| Ranking.TopK | ver1_Keyword_Forecast_Dashboard.py:30 | `head(k)` of the sort holds min(n, k) entries, all from the input, in descending order. It is a prefix of some admissible sorting. No entry left out grows faster than one kept. It holds everything when n ≤ k. |
| Ranking.TopKeywords | ver1_Keyword_Forecast_Dashboard.py:30 | The names of the top five entries: distinct, present in the table, ordered by the growth stored under them, and none left out growing faster. They are the names of a prefix of some admissible sorting. |
| Ranking.RankingGrowthsUnique | ver1_Keyword_Forecast_Dashboard.py:30 | Any two descending reorderings of the same entries have the same growth at every position. Only the order of ties is left open. |
| Ranking.TopKGrowthsDetermined | ver1_Keyword_Forecast_Dashboard.py:30 | The growths of the top-k selection, position by position, are those of every admissible sorting, however ties are broken. |
| Ranking.RateOfMember | ver1_Keyword_Forecast_Dashboard.py:28 | In a table with distinct keys, looking up an entry's key returns that entry's growth. |
| SeriesStore.MeltFrom | ver1_Keyword_Forecast_Dashboard.py:15 | `melt` stacks the keyword columns one after another, starting at a given column. It gives one triple per cell from that column on, each labelled with one of those columns' names. |
| SeriesStore.Melt | ver1_Keyword_Forecast_Dashboard.py:15 | The long form of the whole table has rows × keywords triples, each labelled with a keyword column of the table. |
| SeriesStore.SelectKeyword | ver1_Keyword_Forecast_Dashboard.py:34 | Filtering the long form on a keyword never adds rows. It drops at least one row when some triple carries another keyword. |
| SeriesStore.SelectKeywordMembers | ver1_Keyword_Forecast_Dashboard.py:77 | A point is in the filtered series iff some triple of that keyword carries its month and volume: everything kept is that keyword's, and nothing of that keyword is lost. |
| SeriesStore.SelectAppend | ver1_Keyword_Forecast_Dashboard.py:34 | Selecting a keyword distributes over concatenated blocks of triples. |
| SeriesStore.SelectMeltColumn | ver1_Keyword_Forecast_Dashboard.py:15 | A melted column gives back all its points when selected under its own name, and nothing under another name. |
| SeriesStore.SelectMeltIsColumn | ver1_Keyword_Forecast_Dashboard.py:15 | Round trip of the reshape: the long form has rows × keywords triples. Selecting keyword k gives back exactly column k's (month, volume) pairs in row order. An unknown keyword selects nothing. |
| Dashboard.KeywordSeries | ver1_Keyword_Forecast_Dashboard.py:34 | A keyword's series read back from the long form is its column of the wide table, or empty for an unknown keyword. |
| DisplayWindow.Latest | ver1_Keyword_Forecast_Dashboard.py:53 | `ds.max()` is NaT exactly for an empty frame. Otherwise it is the timestamp of some row and no row is later. |
| DisplayWindow.Cutoff | ver1_Keyword_Forecast_Dashboard.py:53 | The cutoff plus the window length is the latest month. NaT stays NaT. |
| DisplayWindow.OnOrAfter | ver1_Keyword_Forecast_Dashboard.py:54-55 | `ds >= cutoff` holds only against a real cutoff; every comparison with NaT is false. |
| DisplayWindow.KeepSince | ver1_Keyword_Forecast_Dashboard.py:54-55 | `df[df['ds'] >= cutoff]` keeps a row iff it is on or after the cutoff. It never adds rows. Against NaT nothing is kept. |
| DisplayWindow.KeepSinceNaT | ver1_Keyword_Forecast_Dashboard.py:53-55 | Against a NaT cutoff, as from an empty forecast, every window is empty. |
| DisplayWindow.KeepSinceExact | ver1_Keyword_Forecast_Dashboard.py:54-55 | The filtered frame is a subsequence of its input: the same order, and every copy of each row on or after the cutoff. |
| DisplayWindow.KeepSinceTwice | ver1_Keyword_Forecast_Dashboard.py:54-55 | Filtering with a later cutoff after an earlier one is the later cutoff's filter. Filtering twice changes nothing. |
| DisplayWindow.KeepSinceSuffix | ver1_Keyword_Forecast_Dashboard.py:54-55 | On rows in time order the window is a suffix, and every row before it is earlier than the cutoff. |
| Dashboard.WindowCutoff | ver1_Keyword_Forecast_Dashboard.py:53 | The cutoff is NaT iff the forecast is empty. Otherwise it is some forecast row's month minus `months`, and no forecast row's month minus `months` exceeds it. |
| Dashboard.LatestForecast | ver1_Keyword_Forecast_Dashboard.py:53 | The latest forecast month is that of some forecast row, and no row is later. |
| Dashboard.CompareSeries | ver1_Keyword_Forecast_Dashboard.py:76-78 | One comparison line per top keyword, in ranking order, each being that keyword's series cut to the window. |
| Dashboard.WindowMembership | ver1_Keyword_Forecast_Dashboard.py:53-55 | A row is in the window iff there is a forecast and the row is no more than `months` months before every forecast row. |
| Dashboard.ObservedWindow | ver1_Keyword_Forecast_Dashboard.py:52-55 | The observed window of a known keyword holds exactly its column's points no more than `months` months before every forecast row, in the column's order. An unknown keyword shows nothing. |
| Dashboard.ForecastWindow | ver1_Keyword_Forecast_Dashboard.py:53-54 | The forecast window is an in-order selection of the forecast. It is never empty for a non-empty forecast and a non-negative window. |
| Dashboard.ComparisonLinesWindowed | ver1_Keyword_Forecast_Dashboard.py:53-78 | Each comparison line of the dashboard holds exactly the points of its keyword's column with `ds >= max(forecast ds) - months`. This is the same window as the forecast and the observed series, and the line is empty when there is no forecast. |
| Dashboard.ComparisonWindows | ver1_Keyword_Forecast_Dashboard.py:76-78 | Each comparison line is an in-order selection of its keyword's column. |
| Dashboard.ObservedWindowIsRecent | ver1_Keyword_Forecast_Dashboard.py:52-55 | For a table in time order, the observed window is the most recent part of the keyword's series, and everything before it is earlier than the cutoff. |
| Dashboard.Render | ver1_Keyword_Forecast_Dashboard.py:52-78 | One selection's dashboard. The forecast and observed windows hold exactly the rows with `ds >= max(forecast ds) - months`. Each is an in-order selection: of the forecast, and of the keyword's column respectively. An unknown keyword shows no observations. The comparison follows `top_keywords`, each line an in-order selection of its column. The forecast window is non-empty whenever the forecast is and the window length is not negative. |

## Left out

- Prophet model construction, fitting and prediction (ver1_Keyword_Forecast_Dashboard.py:33-43) is a floating-point optimisation in a foreign library. `Dashboard.Render` takes the forecast rows (`ds`, `yhat`, `trend`) as a parameter.
- CSV loading, the column rename and date parsing (lines 11-14) are file I/O. The model takes an already parsed table.
- The Streamlit widgets, Plotly figures and Matplotlib font setup are presentation only. This includes the keyword select box and the month slider's range of 6 to 24 in steps of 3 (lines 46-82 apart from the filter lines). `Dashboard.Render` accepts any keyword and any window length.
- IEEE floating point is not modelled. Volumes are exact reals, and missing values (NaN) inside the data are not modelled. The only NaN the code meets on well-formed data, the mean of an empty window, is modelled as an explicit branch.
- Calendar months: the program works on calendar dates. The CSV's monthly labels parse to month starts, while the forecast's future rows (`freq='M'`) fall on month ends. `pd.DateOffset` keeps the day of the month and clips it only when the target month is shorter, so the cutoff falls late in its month (day 28 to 31). For example, with `months=12` and the latest forecast row on 2025-05-31, the cutoff is 2024-05-31. The month-start row 2024-05-01 is 30 days before it, so the program drops that month. With month indices the model keeps it. The model's windows therefore hold one more month than the program's, in all three frames: the observed series, the forecast's history rows and every comparison line.
- Duplicate column names are excluded by `SeriesStore.WellFormed`; a data frame read from a CSV file cannot hold them.
- Tie order in the ranking is left open on purpose, because the sort is not stable. The model's insertion sort picks one order, and the contracts promise only what every admissible order shares.
- Ranking.TopKeywords: the order among keywords with equal growth is not pinned down, because the program's sort is not stable.
