# GDP dashboard: a Dafny model of its data pipeline

The GDP dashboard is a Streamlit page. It loads a World Bank CSV that has one
row per country code and one column per year from 1960 to 2022. It reshapes
that table into a long table of (Country, Year, GDP, GDP (T)) rows. A year-range
slider and a country picker select part of that table. For each country the page
shows a metric card with the GDP at the end year of the range and its
year-over-year change. It also draws a line chart and a bar chart, and both use
the same category order of countries taken from the latest year.

This project models that pipeline and proves properties of it:

- `wrappers.dfy` (`Wrappers`): `Option` and `Result`. A NaN cell is `None`.
- `rounding.dfy` (`Rounding`): round-half-to-even, as used by
  `Series.round(0)` and Python's `round(x, 2)`.
- `decimal.dfy` (`Decimal`): `str(year)` and `pd.to_numeric` on digit
  strings, with their round trip.
- `table.dfy` (`Table`): the long table as a sequence of rows. It covers
  boolean masks, the descending sort with NaN last, `min`/`max` of Year and
  `tolist` of Country.
- `gdp_data.dfy` (`GdpData`): `get_gdp_data`. The DataFrame is a class
  (`GdpFrame`) whose methods are its successive column assignments: melt,
  relabel with flags, numeric Year, `GDP (T)`, GDP rounded to billions. A
  method (`GetGdpData`) runs them in order and sorts the result.
- `dashboard.dfy` (`Dashboard`): the page script. It covers the picker
  options, the filtered table, the latest-year rows, the snapshot and
  category order of `plot_gdps_by_group`, `show_metric`'s change in percent,
  and the loop that puts one card in each column.

The model follows the code as written in two places:

- When a country has fewer than two rows in the window, `iloc[1]` raises.
  The except clause meant to give the card no delta then calls `print.error`,
  which itself raises `AttributeError`, so the page stops. See Findings.
- `melt` names all 63 year columns from 1960 to 2022. A CSV lacking any of
  them, or the `Country Code` column, makes `melt` raise `KeyError`.
  `GetGdpData` returns `Err(MissingColumns(...))` for it.

## Model

| member | source | states |
|---|---|---|
| Rounding.RoundHalfEven | streamlit_app.py:52 | The result is an integer within one half of the argument, and an exact tie goes to the even neighbour. |
| Rounding.RoundHalfEvenIsNearest | streamlit_app.py:52 | No integer is closer to the argument than its rounding. |
| Rounding.RoundHundredths | streamlit_app.py:126 | `round(x, 2)` is within 0.005 of `x` and is a whole number of hundredths. |
| GdpData.FlagLabels | streamlit_app.py:17-26 | The map has exactly the eight codes USA, CAN, CHN, IND, JPN, RUS, GBR and BRA. Each is shown as itself, a space and two regional indicator symbols, and no label is itself a code. |
| GdpData.Substitute | streamlit_app.py:49 | `Series.replace(m)` on one value: a key of `m` becomes its value, and any other value stays. |
| GdpData.Relabel | streamlit_app.py:49 | A flagged code becomes its label from `country_codes_w_flags`, and any other code stays. |
| GdpData.YearLabel | streamlit_app.py:45 | `str(x)` of a melted year is a digit string without a leading zero that `to_numeric` parses back to that year. |
| GdpData.MeltedCountry | streamlit_app.py:43-48 | The melted Country column has 63 cells per input row. |
| GdpData.MeltedYear | streamlit_app.py:43-48 | The melted Year column has 63 cells per input row. |
| GdpData.MeltedGdp | streamlit_app.py:43-48 | The melted GDP column has 63 cells per input row. |
| GdpData.MeltLayout | streamlit_app.py:43-48 | The melt puts input row `i` under the `j`-th year at index `j*n + i`, with that row's code, that year's label and that cell's value. |
| GdpData.Reshaped | streamlit_app.py:43-52 | The reshape has a row for each melted row. Its Country is the relabelled code, its Year is `to_numeric` of the label, its GDP is rounded to billions, and its `GDP (T)` is the unrounded GDP in trillions. |
| Decimal.NatToString | streamlit_app.py:45 | `str(n)` is a nonempty digit string with no leading zero except for 0 itself. |
| Decimal.ToNumeric | streamlit_app.py:50 | `to_numeric` gives a number exactly for a nonempty string of digits. |
| Decimal.ToNumericOfNatToString | streamlit_app.py:45-50 | Converting a year label back to a number gives the year it was made from. |
| Decimal.NatToStringInjective | streamlit_app.py:45 | Distinct years have distinct column labels. |
| Decimal.NatToStringOfToNumeric | streamlit_app.py:50 | A digit string without a leading zero is the label of the number it parses to. |
| GdpData.RelabelChangesExactlyFlagged | streamlit_app.py:17-26 | `replace(country_codes_w_flags)` changes a code exactly when it is one of the eight flagged codes, and then into its flagged label. |
| GdpData.RelabelIdempotent | streamlit_app.py:49 | Relabelling a relabelled country again changes nothing. |
| GdpData.RelabelKeepsDistinct | streamlit_app.py:49 | Two distinct codes that are not flagged labels keep distinct labels. |
| GdpData.Trillions | streamlit_app.py:51 | `GDP (T)` is NaN exactly when GDP is, and it times 10^12 is the GDP. |
| GdpData.Billions | streamlit_app.py:52 | The rounded GDP is NaN exactly when GDP is, lies within half a billion of it and is a whole number of billions. |
| GdpData.BillionsIsNearest | streamlit_app.py:52 | No whole number of billions is closer to the GDP than the rounded one. |
| GdpData.BillionsIdempotent | streamlit_app.py:52 | Rounding a rounded GDP again changes nothing. |
| GdpData.DerivationOrderMatters | streamlit_app.py:51-52 | Deriving `GDP (T)` after the rounding would change it (1.4e9 gives 0.0014, not 0.001), so the source's order matters. |
| GdpData.Missing | streamlit_app.py:43-45 | The set of missing required columns is empty exactly when `Country Code` and every year column from 1960 to 2022 are present. It is `{Country Code}` when that column is absent, and otherwise exactly the absent year labels. |
| GdpData.ReshapedAt | streamlit_app.py:43-52 | The reshape has one row per input row and year, at index `j*n + i`, with that row's relabelled code, that year and that cell's two GDP figures. |
| GdpData.ReshapedSource | streamlit_app.py:43-48 | Every reshaped row comes from one input row and one year column. |
| GdpData.ReshapedUnique | streamlit_app.py:43-49 | With distinct codes that are not flagged labels, no (Country, Year) pair occurs twice after the reshape. |
| GdpData.GdpFrame.Melt | streamlit_app.py:43-48 | The melted frame lays the year columns out one after another in row order, with the Year still text and no `GDP (T)` column. |
| GdpData.GdpFrame.ReplaceCountries | streamlit_app.py:49 | Each Country cell is replaced through the map, and the other columns are unchanged. |
| GdpData.GdpFrame.YearToNumeric | streamlit_app.py:50 | The Year column becomes the numbers its text parses to, and the other columns are unchanged. |
| GdpData.GdpFrame.AddTrillions | streamlit_app.py:51 | A `GDP (T)` column is added, cell by cell the GDP in trillions, and the other columns are unchanged. |
| GdpData.GdpFrame.RoundToBillions | streamlit_app.py:52 | The GDP column is overwritten by its rounding to billions, and the other columns are unchanged. |
| GdpData.GetGdpData | streamlit_app.py:29-54 | It fails exactly when a required column is missing and then names those columns. Otherwise it returns 63 rows per input row, a permutation of the reshape, sorted by Year descending. |
| GdpData.LoadedContains | streamlit_app.py:43-54 | Every (input row, year) pair has its row in the loaded table. |
| GdpData.LoadedYearsInRange | streamlit_app.py:40-45 | Every loaded Year is between 1960 and 2022. |
| GdpData.LoadedYearBounds | streamlit_app.py:158-159 | For a nonempty CSV, the slider bounds `min()` and `max()` of Year are 1960 and 2022. |
| GdpData.LoadedUnique | streamlit_app.py:43-54 | With distinct codes, the loaded table holds each (Country, Year) pair once. |
| Table.Where | streamlit_app.py:188-192 | `df[mask]` keeps each row where the mask holds exactly as often as in `df`, drops every other row, and keeps the table when the mask holds everywhere. |
| Table.WhereNarrower | streamlit_app.py:193 | Applying a narrower mask after a wider one is the narrower mask alone. |
| Table.WhereKeepsSorted | streamlit_app.py:188-193 | A mask keeps a sorted table sorted. |
| Table.SortDesc | streamlit_app.py:54 | `sort_values(ascending=False)` returns a permutation of its input, sorted descending with NaN last. |
| Table.MaxYear | streamlit_app.py:159 | `max()` of Year is NaN exactly for an empty table, and otherwise a Year of the table that no row exceeds. |
| Table.MinYear | streamlit_app.py:158 | `min()` of Year is NaN exactly for an empty table, and otherwise a Year of the table that no row is below. |
| Table.MinYearIs | streamlit_app.py:158 | A Year that occurs and that no row is below is `min()` of Year. |
| Table.MaxYearIs | streamlit_app.py:159 | A Year that occurs and that no row exceeds is `max()` of Year. |
| Table.Countries | streamlit_app.py:171 | `tolist()` of Country lists each row's country in table order. |
| Table.UniqueSubBag | streamlit_app.py:188-193 | Taking or reordering rows keeps (Country, Year) pairs unique. |
| Table.CountedBySelection | streamlit_app.py:199-201 | Unique rows of one year whose countries are all selected are no more than the selected entries. |
| Dashboard.RowsAtYear | streamlit_app.py:170 | The rows of one year, each as often as in the table, sorted by GDP descending. |
| Dashboard.CountryOptions | streamlit_app.py:170-171 | The picker offers one entry per row at `to_year`, in the order of those rows by GDP descending. A country is offered exactly when it has a row at `to_year`. |
| Dashboard.Filtered | streamlit_app.py:188-192 | A row is kept, as often as in the table, exactly when its country is selected and its Year lies in the range. |
| Dashboard.FilteredMonotone | streamlit_app.py:188-192 | Widening the range or the selection never drops a row, and the narrower result is the wider one filtered again. |
| Dashboard.FilteredEmpty | streamlit_app.py:173-192 | An empty selection, or a range with `from_year > to_year`, keeps no row. |
| Dashboard.FilteredSortedByYear | streamlit_app.py:188-192 | Filtering keeps the loaded table's Year-descending order. |
| Dashboard.MaxYearRows | streamlit_app.py:193 | `max_year_filtered_df` holds the filtered rows at `to_year`, each as often as filtered, sorted by GDP descending. |
| Dashboard.CardsFitColumns | streamlit_app.py:199-202 | With each (Country, Year) pair once, there are no more cards than selected countries, so `cols[i]` never runs out. |
| Dashboard.LoadedCardsFitColumns | streamlit_app.py:199-202 | The same holds for any table `get_gdp_data` loads from a CSV with distinct codes. |
| Dashboard.LatestYearWithValue | streamlit_app.py:64-65 | After dropping NaN rows, the max Year is NaN exactly when no row has a value; otherwise it is the latest Year with a value. |
| Dashboard.Snapshot | streamlit_app.py:64-69 | The bar chart's table holds the rows of the latest year with a value, as often as in the input, with no NaN, sorted descending by the metric. |
| Dashboard.CategoryOrder | streamlit_app.py:70-72 | The category order lists the snapshot's countries in snapshot order. |
| Dashboard.CategoryOrderDistinct | streamlit_app.py:70-72 | With each (Country, Year) pair once, no country is listed twice. |
| Dashboard.CategoryOrderComplete | streamlit_app.py:64-72 | Every country with a value in the latest year is in the category order. |
| Dashboard.PercentChange | streamlit_app.py:122-127 | The change is defined exactly when both values are present and the prior is nonzero. It is then within 0.005 of `100*(current/prior - 1)` and a whole number of hundredths. |
| Dashboard.PercentChangeSign | streamlit_app.py:122-127 | For positive values, growth gives a change of at least 0 and decline a change of at most 0. |
| Dashboard.PercentChangeExample | streamlit_app.py:122-127 | 0.55 after 0.5 is a change of 10%. |
| Dashboard.ShowMetricAsWritten | streamlit_app.py:120-135 | As written, `show_metric` raises exactly when the table has fewer than two rows. Otherwise the card shows the first row's value and its change against the second row. |
| Dashboard.ShowMetric | streamlit_app.py:118-135 | The intended card shows the first row's value, has no delta exactly when there is no second row, and otherwise has the first row's change against the second. |
| Dashboard.ShowMetricAgrees | streamlit_app.py:120-135 | Where the code as written shows a card, the intended one is the same card. |
| Dashboard.CountryRows | streamlit_app.py:204 | `filtered[filtered['Country'] == country]` holds exactly the filtered rows of that country. |
| Dashboard.CardComparesWithEarlierYear | streamlit_app.py:193-204 | A card's first row is the country's `to_year` row. Its second row, when there is one, is from the latest earlier year of the window that the country has a row for. |
| Dashboard.SingleYearWindowRaises | streamlit_app.py:128-129 | With `from_year == to_year`, the first card raises as written. |
| Dashboard.CardFor | streamlit_app.py:201-209 | The card of a row is titled with that row's country and shows the `GDP (T)` of the country's first filtered row. It has no delta exactly when the country has one row, and otherwise the change against the second row. |
| Dashboard.CardsFor | streamlit_app.py:201-210 | There is one card per row, and card k is the card of row k. |
| Dashboard.ShowMetricCards | streamlit_app.py:199-210 | The loop succeeds exactly when the rows fit the columns, then gives card k for row k; otherwise it reports the first index past the last column. |

## Left out

- Rendering is not modelled: `st.set_page_config`, captions, headers, the
  warning, the sidebar, `st.metric`'s formatting strings and the Plotly line,
  bar and pie charts. The model stops at the tables and values passed to them.
- `pd.read_csv` and the file path are replaced by the `WideTable` parameter
  of `GetGdpData`. It is required to be rectangular, as any table `read_csv`
  returns is.
- `@st.cache_data` is not modelled. The function is pure on its input.
- The widgets are parameters: the slider's `from_year` and `to_year`, the
  picker's selection and the column count of `st.columns`.
  `st.columns(0)` raising for an empty selection is Streamlit's own
  behaviour and is not modelled.
- GdpData.Billions: works on exact reals, not IEEE doubles. A float
  division by 1e9 that lands just off a tie can round differently.
- Rounding.RoundHundredths: Python rounds the double's exact decimal value.
  The model rounds the exact real quotient.
- Dashboard.PercentChange: a zero prior gives `inf` or `nan` in numpy. The
  model collapses both, like NaN inputs, into `None`.
- Decimal.ToNumeric: only parses digit strings, which is all the melted Year
  labels can be. Signs, decimals and exponents are not modelled.
- Table.SortDesc: pandas' default sort is not stable. The contract fixes
  sortedness and the permutation, and leaves the order of ties open. The
  model sorts by insertion.
- Dashboard.ShowMetricCards: takes `max_year_filtered_df`'s rows as a
  parameter, and `Dashboard.MaxYearRows` is their specification. Its cards
  use the corrected `Dashboard.ShowMetric`.
- `show_metric`'s `calc_per_change=False` branch and its `help` and
  `delta_color` arguments are not modelled, because the page never uses them.
- The `plot_gdps_by_group` call and its `category_orders` return value are
  modelled through `Dashboard.Snapshot` and `Dashboard.CategoryOrder`.
  `int(max_year)` of an all-NaN column (it raises) is not modelled.

## Findings

| source | as written | input that shows it | evidently intended | confidence | as-written member | corrected member |
|---|---|---|---|---|---|---|
| streamlit_app.py:128-130 | The except clause calls `print.error(...)`. `print` has no `error` attribute, so the handler raises `AttributeError` and the page stops. | A one-year window (`from_year == to_year`, say 2022 to 2022) with any country selected: the country's table has one row and `iloc[1]` raises `IndexError`. | Log the error and show the card with `delta = None`. | not executed | Dashboard.ShowMetricAsWritten, Dashboard.SingleYearWindowRaises | Dashboard.ShowMetric |
