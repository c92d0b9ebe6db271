# Accounting dashboard ledger model

This project models the data side of the Streamlit accounting dashboard in
`DashboardCMlar.py`. A user uploads a ledger spreadsheet of dated, signed
amounts per accounting account (`ContaContabil`), optionally tagged with an
account group (`GrupoDeConta`). The script then:

- narrows the table with three sidebar filters: a date range, a group
  selector with the "Todos" option, and a case-insensitive search on the
  account name;
- shows the metric cards: Entradas, Saídas, Saldo and two named-account
  subtotals;
- builds the "Resumo por Conta Contábil" pivot of accounts by "YYYY-MM"
  month, with a `Total` column, sorted by `Total`;
- derives the tables behind the charts: the five largest outflow accounts,
  inflows and outflows per month, and sales revenue against the DAS tax per
  month;
- formats every amount as Brazilian text ("1.234,56").

The model works on the table after its retyping steps. A row holds an
optional date, an optional amount in whole cents, an optional account and an
optional group. `None` stands for the NaT or NaN the parsers produce. Every
view is a pure function of the filtered rows. The pandas semantics the script
relies on are written out:

- `sum` skips missing amounts;
- `groupby` drops rows whose key is missing;
- a missing date fails both range comparisons;
- a missing date has the month key "NaT", which is an ordinary group key.

Modules:

- `Tables`: generic mask selection, sums, group-by, descending sort and
  `nlargest`.
- `Ledger`: rows, timestamps and the month key.
- `Filters`: the sidebar filters.
- `Metrics`: the metric cards.
- `Summary`: the pivot, used both for display and for the CSV export.
- `Charts`: the chart tables.
- `Format`: `formata_valor_brasil`.

## Model

| member | source | states |
|---|---|---|
| Tables.WhereMember | DashboardCMlar.py:133 | a mask selection keeps a row iff the row is in the table and passes the mask |
| Tables.WhereCount | DashboardCMlar.py:133 | a mask selection keeps every copy of a row that passes the mask and no copy of one that fails it |
| Tables.WhereIsSubsequence | DashboardCMlar.py:133 | a mask selection keeps rows in their original order, unchanged |
| Tables.WhereCommute | DashboardCMlar.py:133-145 | two successive mask selections can be applied in either order |
| Tables.Keys | DashboardCMlar.py:181 | the group-by index holds each present key once, and exactly the keys some row carries |
| Tables.GroupSumsSpec | DashboardCMlar.py:181 | a group-by sum has one group per present key, each holding the sum over the rows with that key |
| Tables.GroupSumsTotal | DashboardCMlar.py:181 | the groups of a group-by add up to the sum over the rows whose key is present |
| Tables.SortDesc | DashboardCMlar.py:184 | a descending sort is a permutation of its input, ordered non-increasingly |
| Tables.LargestSpec | DashboardCMlar.py:242 | `nlargest(n)` keeps min(n, size) elements of the input, taking no element more often than the input holds it (a sub-multiset), in non-increasing order, none smaller than an element it leaves out |
| Ledger.MonthKey | DashboardCMlar.py:180 | the month key is seven characters: four digits, '-', two digits |
| Ledger.MonthKeyRoundTrip | DashboardCMlar.py:180 | the month key reads back as the year and month of its date |
| Ledger.MonthKeyInjective | DashboardCMlar.py:180 | two dates share a month key iff they share year and month; a real date never gets the "NaT" key |
| Filters.MaskedSpec | DashboardCMlar.py:131-145 | an active filter step keeps exactly the rows passing its mask, every copy of each, in order; an inactive one keeps the table |
| Filters.DateFilterSpec | DashboardCMlar.py:131-133 | with a range, the kept rows are exactly those dated from midnight of the first day to midnight of the last, both ends inclusive, each kept as many times as the table holds it, undated rows dropped; without a range all rows are kept |
| Filters.EndDayAfterMidnightExcluded | DashboardCMlar.py:133 | an entry timed after midnight on the last day of the range is not kept |
| Filters.DateFilterIdempotent | DashboardCMlar.py:133 | applying the date filter twice is applying it once |
| Filters.TupleRangeIgnoredAsWritten | DashboardCMlar.py:130-133 | as written, a two-day range returned as a tuple applies no date filter: a row dated before the range stays |
| Filters.TupleRangeApplied | DashboardCMlar.py:130-133 | with the intended reading, the same two-day tuple is a range and drops that row |
| Filters.Earliest | DashboardCMlar.py:128 | the earliest date is present iff some row has a date, is the date of some row, and is not after any row's date |
| Filters.Latest | DashboardCMlar.py:129 | the latest date is present iff some row has a date, is the date of some row, and is not before any row's date |
| Filters.DefaultRangeKeepsDatedRows | DashboardCMlar.py:128-133 | when every date falls at midnight, the widget's initial range keeps exactly the rows that have a date |
| Filters.GroupFilterSpec | DashboardCMlar.py:136-140 | the group filter keeps the table when the column is absent or "Todos" is selected, and otherwise keeps exactly the rows of the selected group, every copy of each |
| Filters.GroupFilterIdempotent | DashboardCMlar.py:139-140 | applying the group filter twice is applying it once |
| Filters.Lower | DashboardCMlar.py:145 | lower-casing keeps the length and lower-cases each character |
| Filters.AccountFilterSpec | DashboardCMlar.py:143-145 | empty text keeps the table; otherwise the kept rows are exactly those whose account name contains the text ignoring case, every copy of each, rows without a name excluded |
| Filters.AccountFilterIdempotent | DashboardCMlar.py:144-145 | applying the account search twice is applying it once |
| Filters.AccountFilterIgnoresCase | DashboardCMlar.py:145 | search text in lower case selects the same rows as the text as typed |
| Filters.DateGroupCommute | DashboardCMlar.py:131-140 | the date and group filters commute |
| Filters.DateAccountCommute | DashboardCMlar.py:131-145 | the date filter and the account search commute |
| Filters.GroupAccountCommute | DashboardCMlar.py:136-145 | the group filter and the account search commute |
| Filters.ApplyFiltersSpec | DashboardCMlar.py:131-145 | the chain keeps, in order and unchanged, exactly the rows that pass every active filter, each as many times as the table holds it |
| Metrics.SaldoIsTotal | DashboardCMlar.py:154-156 | Saldo equals the sum of every present amount |
| Metrics.TotalSkipsMissing | DashboardCMlar.py:154-155 | summing with missing amounts skipped equals summing only the rows that have an amount |
| Metrics.MetricSigns | DashboardCMlar.py:154-163 | Entradas is at least 0, Saídas at most 0, the Saídas card shows -Saídas, and Saldo is Entradas minus the Saídas card |
| Metrics.NeutralRow | DashboardCMlar.py:154-156 | a row with a zero or missing amount, inserted anywhere, changes no metric |
| Metrics.MetricsAdditive | DashboardCMlar.py:154-158 | every metric of a concatenated table is the sum of the metrics of the parts |
| Metrics.AccountTotalOnlyThatAccount | DashboardCMlar.py:157-158 | a named-account card is 0 without rows of that account, and rows of other accounts never move it |
| Summary.SummaryMonths | DashboardCMlar.py:180-182 | the pivot's month columns are distinct and are exactly the months of the rows that have an account |
| Summary.SummaryLinesDistinct | DashboardCMlar.py:181-184 | the pivot has one line per account, none twice, in non-increasing order of `Total` |
| Summary.SummaryLinesCover | DashboardCMlar.py:181-182 | the pivot has a line for an account iff some row carries that account |
| Summary.SummaryCells | DashboardCMlar.py:181-182 | each cell is the sum of the amounts of the rows with that account and month |
| Summary.CellZeroFill | DashboardCMlar.py:182 | an (account, month) pair without rows has cell 0 |
| Summary.SummaryTotals | DashboardCMlar.py:183 | `Total` is the sum of the line's cells and also the account's whole subtotal |
| Summary.MonthsCoverAccount | DashboardCMlar.py:180-182 | every month of an account's rows is a column of the pivot |
| Charts.AbsTotals | DashboardCMlar.py:239 | the absolute-value step keeps each group's key and replaces its sum by the sum's magnitude |
| Charts.SumAbsTotals | DashboardCMlar.py:269 | the magnitudes of groups with non-positive sums add up to the negated sum |
| Charts.AccountOutflowSign | DashboardCMlar.py:238-239 | an account's outflow sum is at most 0, and below 0 once the account has an outflow row |
| Charts.OutflowByAccountShape | DashboardCMlar.py:238-239 | the outflow table has one entry per account with outflows, none twice |
| Charts.OutflowByAccountKeys | DashboardCMlar.py:238-239 | the outflow table has an entry for an account iff the account has a negative amount |
| Charts.OutflowByAccountTotal | DashboardCMlar.py:238-239 | each entry is the magnitude of its account's negative-amount sum, and is positive |
| Charts.TopOutflowsShape | DashboardCMlar.py:241-242 | the top list has min(5, number of outflow accounts) entries, each account once, largest first |
| Charts.TopOutflowsMembers | DashboardCMlar.py:242 | each top entry is an account's outflow magnitude, at least that of every account left out |
| Charts.MonthlyInflowsShape | DashboardCMlar.py:267 | one inflow bar per month, and the bars add up to the Entradas card |
| Charts.MonthlyInflowsKeys | DashboardCMlar.py:267 | a month has an inflow bar iff it has a positive amount |
| Charts.MonthlyInflowsTotal | DashboardCMlar.py:267 | each inflow bar is the positive sum of its month's positive amounts |
| Charts.MonthlyOutflowsShape | DashboardCMlar.py:268-269 | one outflow bar per month, and the bars add up to the Saídas card |
| Charts.MonthlyOutflowsKeys | DashboardCMlar.py:268-269 | a month has an outflow bar iff it has a negative amount |
| Charts.MonthlyOutflowsTotal | DashboardCMlar.py:268-269 | each outflow bar is the magnitude of its month's negative-amount sum, and is positive |
| Charts.TotalForGroupSums | DashboardCMlar.py:307 | the value the merge reads for a month is that month's sum, 0 when the frame has no such month |
| Charts.MergeOuterMonths | DashboardCMlar.py:307 | the outer merge has a line for a month iff either frame has that month |
| Charts.MergeOuterDistinct | DashboardCMlar.py:307 | the outer merge of frames with distinct months has distinct months |
| Charts.RightOnlyFacts | DashboardCMlar.py:307 | the lines only the DAS frame has are distinct and carry the DAS frame's sum for their month |
| Charts.RevenueVsTaxesValues | DashboardCMlar.py:298-307 | each line's Receitas is its month's revenue sum and its Impostos the month's sum of absolute DAS amounts, 0 for a missing side, and Impostos is at least 0 |
| Charts.RevenueVsTaxesMonths | DashboardCMlar.py:298-307 | the comparison has one line per month, and its months are those with a revenue row or a DAS row |
| Format.ReplaceChar | DashboardCMlar.py:20 | a one-character replace keeps the length and substitutes exactly the matching characters |
| Format.SwapSeparatorsChars | DashboardCMlar.py:20 | the three replacements swap ',' and '.', turn 'X' into '.', and leave no 'X' |
| Format.SwapInvolution | DashboardCMlar.py:20 | on a text without 'X' the swap undoes itself |
| Format.SwapNotInvolutionWithX | DashboardCMlar.py:20 | on "X" the swap applied twice gives "," |
| Format.Grouped | DashboardCMlar.py:20 | the thousands-grouped text starts with a digit and holds only digits and ',' |
| Format.GroupedValue | DashboardCMlar.py:20 | the thousands-grouped text spells the number it was made from |
| Format.FixedTwoValue | DashboardCMlar.py:20 | the two-decimal text spells the amount in cents, with a leading '-' iff the amount is negative |
| Format.FormatBrazilRoundTrip | DashboardCMlar.py:13-20 | a missing amount shows as ""; otherwise the Brazilian text reads back as the amount |
| Format.FormatBrazilShape | DashboardCMlar.py:13-20 | the Brazilian text starts with '-' exactly for a negative amount, then a digit; before the decimal ',' and its two digits there are only digits and '.', and a '.' sits exactly where a multiple of four characters remain before the ',' (groups of three digits, "ponto para milhar") |

## Left out

- Streamlit UI: page setup, CSS, widgets, tabs, card layout and table styling. The widget values are parameters: the date pick, the selected group and the search text.
- Session state and the upload cache.
- Plotly chart construction, including the ascending display order of the top-5 bars and the per-account inflow chart.
- Excel reading and the `to_datetime(dayfirst=True)` and `to_numeric` parsers: rows hold their results, with `None` for NaT or NaN.
- Floating point: amounts are whole cents. The rounding of a float to two decimals in `,.2f` is not modelled.
- Filters.AccountMatches: `str.contains` treats the text as a regular expression. The model matches it literally.
- Filters.LowerChar: it folds ASCII and Latin-1 capitals only, not full Unicode case folding.
- Ledger.Year: years are bounded to 1677..2262, approximately the range a nanosecond timestamp can hold; pandas' exact bounds fall inside those years (1677-09-21 to 2262-04-11), so the model admits a few months of days at each end that pandas would turn into NaT during parsing.
- Missing required columns: a sheet without `Data` or `Valor` (DashboardCMlar.py:121-122), or without `ContaContabil` (:145 when search text is given, :157 always), makes the script stop with a KeyError. A `Row` always carries these fields, so that error path is not modelled. Only the optional `GrupoDeConta` column is modelled as possibly absent.
- Ledger.Timestamp: it has whole-second resolution and accepts any day 1..31 in any month, while pandas holds nanoseconds and only real calendar dates. An entry at a fraction of a second past midnight on the last picked day, which `Data <= to_datetime(end)` drops, cannot be written down here; no property depends on the day range.
- Tables.Keys: pandas sorts group-by keys and pivot columns; the model keeps each key at the position of its last appearance in the table. The outer merge's row order is also not modelled. No property here depends on order.
- Tables.SortDesc: it is a stable sort. The tie order of pandas' sort and `nlargest` is not modelled.
- CSV export encoding, and the display-only sort of the data tab.

## Findings

| source | as written | input that shows it | evidently intended | confidence | as-written member | corrected member |
|---|---|---|---|---|---|---|
| DashboardCMlar.py:130-133 | the date range is applied only when the widget value is a `list` of two days | picking any two-day range; the date widget returns its range as a tuple `(start, end)`, so the table is never filtered by date | filter to the picked range, whatever sequence type carries the two days | medium: relies on the widget returning a tuple for a range; not executed | Filters.TupleRangeIgnoredAsWritten | Filters.TupleRangeApplied |

The rest of the model uses the corrected reading: `Filters.ApplyFilters` takes its range from `Filters.PickedRange`, not from `Filters.RangeAsWritten`.
