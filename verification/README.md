# Disease surveillance dashboard: verified model of its data core

The dashboard reads two tables: weekly notifiable-disease counts (NNDSS weekly
data) and annual case counts per state. It draws bar, line and choropleth
charts from them. This project models in Dafny the parts that compute numbers.
Charts, widgets and file loading are left out.

- **Period comparator** (`disease_annually.py`). It finds the week before a
  given week. It then compares two periods: a week against the week before it,
  keyed by (location, disease label), or a year against the year before it,
  keyed by state. The comparison is a full outer join with zero fill, then a
  lookup of the selected key, a percent change guarded against a zero
  denominator, and a direction (increased / decreased / remained steady) with
  its colour. The join, the lookup and the change are written once, generic
  over the key type (`Comparator.ComparePeriods`), and instantiated for both
  comparisons.
- **Per-year trend** (`disease_annually.py`). For the selected disease, Case
  Count is summed per year, in ascending year order. A Case Count that did not
  parse counts as 0.
- **Top-N ranking** (`255-streamlit.py`). Rows are filtered to one week of one
  year (Current week counts) or to one year (Cumulative YTD counts). Counts are
  summed per disease label, the ten largest totals are kept, and their order is
  reversed, so the chart runs from the smallest kept total to the largest. The
  dashboard's fixed values (week 11 of 2024, year 2023, ten entries) are
  constants, and lemmas are instantiated at them.

Modules: `Options` (optional values), `Tables` (the two record types and keyed
rows `Tally<K>`), `Sorting` (insertion sort by a strict weak order), `Grouping`
(group-by-sum), `Join` (outer join and lookup), `Change` (percent change,
direction, colour), `Comparator`, `Trend`, `Ranking`.

Modelling choices:
- Tables are sequences of records.
- Counts are unbounded integers, and the percent change is an exact `real`.
- The source's unguarded `.values[0]` on an empty selection becomes `None`.
- The ranking breaks ties between equal totals by label. Before reversal the
  order is total descending, then label ascending by character code. After
  reversal the kept entries run from smallest total to largest, and between
  equal totals the larger label comes first. The source does not fix this
  order itself. It comes from pandas' sorted group keys and the stable
  `nlargest`, and this model does not claim to match pandas exactly.
- Week rollover is modelled as written, and that assumes 52-week years. Week 1
  rolls back to week 52 of the previous year. Week 53 also rolls back to week 52
  of the previous year, not of its own year (`Comparator.PreviousWeekOfWeek53`).
  This is a known gap in the source and is kept on purpose.

## Model

| member | source | states |
|---|---|---|
| Comparator.PreviousWeek | disease_annually.py:81-82 | The previous week is week - 1 after week 1 and 52 otherwise. The year steps back exactly when the previous week is 52. |
| Comparator.PreviousWeekIsPredecessor | disease_annually.py:81-82 | On weeks 1 to 52 the rollover gives the immediate predecessor on a calendar of 52-week years, and the result stays in weeks 1 to 52. |
| Comparator.PreviousWeekOfWeek53 | disease_annually.py:81-82 | Week 53 maps to week 52 of the year before. On the 52-week calendar that is 53 weeks back, not 1. |
| Join.OuterJoin | disease_annually.py:97-101 | The keys of the outer join are exactly the union of the two periods' keys. |
| Join.OuterJoinUnique | disease_annually.py:97-101 | With unique keys on each side, the join has one row per key of either side. Each row has that side's count, or 0 where the side lacks the key. |
| Join.Select | disease_annually.py:103-105 | Selecting a key finds nothing exactly when no joined row has the key. Otherwise it returns the first joined row with that key, as `.values[0]` on line 123 does: no earlier row has the key. |
| Join.SelectOuterJoin | disease_annually.py:97-105 | Joining two periods and selecting a key gives back both periods' own (first) counts for the key, with 0 for a period without it. It gives nothing iff neither period has the key. |
| Change.PercentChange | disease_annually.py:123-125 | The change is 0 when the earlier count is 0, whatever the later count. Otherwise change × earlier = (later − earlier) × 100. |
| Change.ChangeSign | disease_annually.py:123-126 | With a positive earlier count, the change is positive, negative or zero iff the later count is larger, smaller or equal. With a negative earlier count the signs flip. With an earlier count of 0, the change is 0. |
| Change.DirectionOf | disease_annually.py:126 | Increased iff the change is > 0, decreased iff < 0, remained steady iff = 0. |
| Change.ColourOf | disease_annually.py:127 | Red, green and gray correspond exactly to increased, decreased and steady. |
| Change.Compare | disease_annually.py:123-126 | The comparison keeps both counts, and its direction is always the sign of its change. With an earlier count of 0 it is steady with change 0. With a positive earlier count it is increased/decreased/steady iff the later count is larger/smaller/equal; with a negative one, iff it is smaller/larger/equal. |
| Comparator.ComparePeriods | disease_annually.py:97-105 | For any key type: no result iff the key is in neither period. Otherwise the result carries each period's first count for the key (0 if absent) and the change and direction of those counts. |
| Comparator.WeeklyChange | disease_annually.py:83-126 | Week w against the rolled-back week, for one location and label. Each count is the first weekly record of that week for the pair, or 0. There is no result iff neither week has a record for the pair. |
| Comparator.WeeklyJoinUnique | disease_annually.py:83-101 | With one record per week, location and label, the weekly join has one row per pair reported in either week. Each row carries that week's record count or 0. |
| Comparator.YearlyChange | disease_annually.py:132-167 | Year y against y − 1 for one disease and state. Each count is that year's first Case Count for the state (missing read as 0), or 0. There is no result iff neither year has the state. |
| Comparator.DashboardYearlyChange | disease_annually.py:132-138 | The dashboard's yearly comparison (current year fixed to 2023) compares 2023 with 2022. |
| Comparator.WeeklyMeaslesHalved | disease_annually.py:123-126 | 10 Measles cases in California in week 10 of 2024 and 5 in week 11 give −50 percent, decreased. |
| Comparator.YearlyMeaslesUp | disease_annually.py:164-167 | 100 Measles cases in California in 2022 and 150 in 2023 give +50 percent, increased. |
| Comparator.WeeklyAbsentPair | disease_annually.py:103-125 | A pair absent from both weeks gives no comparison instead of a fault. In the source an empty selection already fails at the chart's y-axis limits (line 118), before `.values[0]` is reached. |
| Grouping.GroupSum | 255-streamlit.py:14 | The groups have distinct keys, their keys are exactly the keys of the rows, and each group's total is the sum of its key's counts. |
| Grouping.GroupSumSize | 255-streamlit.py:14 | There is exactly one group per distinct key. |
| Grouping.GroupSumTotal | 255-streamlit.py:14 | The group totals add up to the sum of all rows' counts. |
| Sorting.Sort | 255-streamlit.py:17 | Sorting returns a permutation of its input. |
| Sorting.SortSorted | 255-streamlit.py:17 | Under a strict weak order, no element of the sorted output goes before an earlier one. |
| Ranking.RanksAheadOrder | 255-streamlit.py:17 | Ranking by larger total, then smaller label, is a strict weak order. |
| Ranking.TopN | 255-streamlit.py:17-18 | The result has min(n, number of groups) entries and is a sub-multiset of the groups. It is in ascending rank order. No group left out ranks ahead of a kept one. |
| Ranking.RankSpec | 255-streamlit.py:14-18 | The ranking has min(n, distinct labels) entries. Its labels are distinct and come from the rows. Each entry carries its label's summed count. Totals are non-decreasing, and equal totals put the larger label first. Each kept total is above every left-out total, or equal to it with a smaller label. The ranking is a sub-multiset of the group totals. |
| Ranking.WeeklyRankingSpec | 255-streamlit.py:11-18 | The weekly chart has min(n, labels of the week) distinct labels of that week, each with Current week summed over the week's rows. Totals are non-decreasing, and no left-out label has a larger total. |
| Ranking.WeeklyRankingIgnoresOtherWeeks | 255-streamlit.py:11 | Inserting rows of other weeks anywhere in the table does not change the weekly chart. |
| Ranking.DashboardWeeklyRanking | 255-streamlit.py:11-18 | The week 11 of 2024 chart has min(10, labels of that week) entries, and holds every label of that week when there are at most ten. |
| Ranking.YearlyRankingSpec | 255-streamlit.py:37-44 | The year-to-date chart has min(n, labels of the year) distinct labels of that year, each with Cumulative YTD summed over the year's rows. Totals are non-decreasing, and no left-out label has a larger total. |
| Ranking.YearlyRankingIgnoresOtherYears | 255-streamlit.py:37 | Inserting rows of other years anywhere in the table does not change the year-to-date chart. |
| Ranking.DashboardYearlyRanking | 255-streamlit.py:37-44 | The 2023 chart has min(10, labels of that year) entries, and holds every label of that year when there are at most ten. |
| Trend.YearTotals | disease_annually.py:46-47 | One entry per year in which the disease has a row, years strictly ascending. Each entry is that year's Case Count summed over the disease's rows. |
| Trend.TrendTotal | disease_annually.py:46-47 | The yearly totals add up to the disease's Case Count over all years. |
| Trend.MissingCountAddsNothing | disease_annually.py:17-18 | A Case Count that did not parse leaves the trend as a 0 in its place would. Its year still appears. |

## Left out

- Loading the CSV files (`load_data`, `pd.read_csv`) is file I/O. The tables are input sequences. Parsing of Case Count is modelled only as its outcome: an `Option<int>` field.
- The clock read (`datetime.now().isocalendar()`) is replaced by parameters for the week and the year.
- All Streamlit widgets, tabs, markdown and `print` output, and the Plotly and Matplotlib figures are presentation. So are the choropleth series, the `0.8 × max` colour range, the ±50% y-axis buffer, the descending copy for plotting and `invert_yaxis`.
- The Published Rate mean per year is a floating-point mean used only for a chart.
- The `fillna(0)` calls whose results are discarded change nothing and are not modelled as zero filling.
- Percent change is an exact rational. Python's float rounding and the `:.2f` display are not modelled.
- Counts are unbounded integers. pandas' 64-bit sums could overflow, and that is not modelled.
- Weekly counts are whole numbers. A missing Current week or Cumulative YTD cell, which pandas skips in sums and zero-fills after the merge, is not modelled.
- Join.OuterJoin: the row order of pandas' outer merge is sorted by key; the model puts the rows with an earlier side first, then the rest. With unique keys this does not affect the lookup. With duplicate keys it may change which row `.values[0]` picks.
- Join.OuterJoinUnique: assumes unique keys within each period. With duplicate keys, `OuterJoin` still produces one row per matching pair, as pandas does, but this lemma does not describe that case.
- Comparator.WeeklyChange: the dashboard fixes the year to 2023 while taking the week from the clock. The model takes both as parameters and has no lemma for that particular instance.
- Ranking.TopN: ties between equal totals are broken by label as described above. The model does not claim to reproduce pandas' order.
