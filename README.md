# Indicator dashboards: the data pipeline

Two Streamlit scripts show economic indicators from one spreadsheet
("Sheet1"), with a row per country, year, sector, activity, dimension and
variable:

- `dash_v0.py` filters the sheet by country, year range, activity and one
  variable. It draws a time series and a bar chart of each country's
  latest year. When nothing passes the filters it shows a warning instead.
- `dash_v4.py` first narrows the indicator list by dimensions. Up to four
  indicators are chosen, with sector-specific defaults. Each one gets a
  line chart with its own marker symbol and a unit-derived y-axis title,
  and Saudi Arabia's line is drawn thick and green.

This project models the pipeline under those pages: the sidebar options and
defaults, the query, the per-chart data (y-axis titles, titles, series, the
latest row of each country, bar labels), the chart slots, and the in-place
restyling of the plot traces. It proves what each step guarantees.

Modules:

- `Frames` (`frames.dfy`): the pandas idioms the scripts are built from.
  - boolean-mask selection (`Where`);
  - `unique()` (`Unique`);
  - "first admitted row", kept through a selection (`FirstOfSelection`).
- `Text` (`text.dfy`):
  - f-string rendering of integers (`IntToString`);
  - Python's ordering of strings (`Below`), which orders `groupby` keys (`SortedKeys`).
- `Records` (`records.dfy`): the sheet row, and the sidebar options the two
  scripts compute the same way (countries, year bounds, activities of a
  sector).
- `DashV0` (`dash_v0.dfy`) and `DashV4` (`dash_v4.dfy`): one module per
  script.

A data frame is a sequence of rows in index order. `df.query(...)` with a
single string on the right of `in` or `==` is an equality test: pandas
rewrites it into membership in a one-element list.

## Model

| member | source | states |
|---|---|---|
| Frames.Unique | dash_v0.py:43-44 | `Series.unique()` returns each value of the column exactly once, no other value, in order of first appearance. |
| Records.Countries | dash_v0.py:41-45 | The country options (and default) are the countries of the sheet, each once. |
| Records.YearBounds | dash_v0.py:47-53 | The slider bounds are the smallest and largest year of the sheet: both attained, enclosing every row. There are no bounds exactly when the sheet is empty. |
| Records.DefaultsAdmitEveryRow | dash_v0.py:41-53 | The default country list and year range admit every row of the sheet. |
| Records.ActivityOptions | dash_v0.py:63 | The activity options are exactly the activities with a row in the chosen sector, each once. |
| DashV0.Query | dash_v0.py:77-79 | The selection holds exactly the rows that match every filter, in sheet order. Each such row is kept as often as it occurs in the sheet. |
| DashV0.QueryIdempotent | dash_v0.py:77-79 | Querying the selection again gives the selection unchanged. |
| DashV0.DefaultSelectionQuery | dash_v0.py:41-79 | With country and year widgets at their defaults, only the activity and variable clauses filter the sheet. |
| DashV0.VariableOptions | dash_v0.py:70-73 | The variable options are exactly the sheet's variable names, each once. |
| DashV0.YAxisLabelOfQuery | dash_v0.py:86 | The y-axis title is the unit of the first sheet row that passes the filters, or "Value" when no row does. |
| DashV0.LatestIndex | dash_v0.py:115 | `idxmax` picks, for a country, a row with its largest year: the first such row on ties. There is none exactly when the country has no row. |
| DashV0.LabelRoundTrip | dash_v0.py:116 | A bar label "country (year)" can be read back into its country and year. |
| DashV0.LatestRowOf | dash_v0.py:115-116 | The `df_latest` row of a country is its latest row, labelled with that row's country and year. |
| DashV0.CountryKeys | dash_v0.py:115 | The `groupby('country')` keys are the selection's countries, strictly ascending. |
| DashV0.LatestPerCountry | dash_v0.py:115-116 | `df_latest` has one latest row per country of the selection, no other, countries ascending, each with its label. |
| DashV0.LatestLabelsDistinct | dash_v0.py:116-120 | No two bars share a label. |
| DashV0.NoDataExactlyWhenNothingAdmitted | dash_v0.py:89-137 | The warning appears exactly when no sheet row passes the filters; otherwise both charts are drawn. |
| DashV0.BarCountries | dash_v0.py:115-126 | The bar chart has one bar per country of the selection and none twice. |
| DashV0.QueryCountries | dash_v0.py:77-79 | The selection's countries are those of the sheet rows that pass the filters. |
| DashV0.BarsCoverSelectedCountries | dash_v0.py:77-126 | When charts are drawn, each country with a row passing the filters has exactly one bar, and no other country has one. |
| DashV0.LinesOfQuery | dash_v0.py:94-103 | Every (country, activity) line of the time series has the chosen activity. So there is one line per country of the selection, no other line, and no country twice. |
| DashV0.LinesCountries | dash_v0.py:94-99 | The countries of the time series lines are exactly the countries of the plotted rows. |
| DashV0.ExampleRender | dash_v0.py:115-126 | With Chile 2019/2020 and Peru 2020 rows, the bars are "Chile (2020)" at 120 and "Peru (2020)" at 80. |
| DashV0.ExampleBars | dash_v0.py:77-126 | The same example end to end: the query keeps all three rows and the page shows those two bars. |
| Text.IntToStringRoundTrip | dash_v0.py:116 | The year rendered in a label reads back as the same integer. |
| Text.SortedKeys | dash_v0.py:115 | The group keys are the distinct values, strictly ascending in Python string order. |
| DashV4.VariableOptions | dash_v4.py:111-126 | The indicator options are the variables of the rows whose dimension is chosen, each once. There are none while no dimension is chosen. |
| DashV4.DefaultIndicators | dash_v4.py:116-122 | The preselected indicators are the sector's preferred ones that are among the options, in the preferred order. There are at most four, and none for a sector without a list. |
| DashV4.Query | dash_v4.py:129-135 | With a dimension and an indicator chosen, the selection holds exactly the matching rows, in sheet order, with multiplicity. Otherwise it is the column-less empty frame. |
| DashV4.QueryIdempotent | dash_v4.py:129-135 | Querying the selection again with the same choices gives the same frame. |
| DashV4.UnitMappingKeys | dash_v4.py:145 | The unit mapping has an entry exactly for the variables of the selection. |
| DashV4.UnitMappingFirst | dash_v4.py:145 | A variable's unit is the unit of its first row in the selection. |
| DashV4.UnitLabelOfSelection | dash_v4.py:145-166 | A chart's y-axis title is the unit of its variable's first selected row, or "Unknown" when the selection has no row for it. |
| DashV4.ChartTitleRenames | dash_v4.py:148-179 | A chart title differs from the variable name exactly for the three rename entries that change something. |
| DashV4.DefaultIndicatorTitlesUnchanged | dash_v4.py:86-153 | No preferred indicator of any sector is renamed. |
| DashV4.PlotLineGraph | dash_v4.py:164-181 | A variable without selected rows gives the warning. Otherwise the chart holds exactly that variable's rows, is titled and unit-labelled as above, uses the given marker, and has one series per country of those rows. Each row is plotted as often as the selection holds it. |
| DashV4.PlanSlots | dash_v4.py:204-219 | Slot i charts the i-th chosen indicator with the i-th marker symbol, for at most four indicators. |
| DashV4.NothingChosenFailsAsWritten | dash_v4.py:134-145 | As written, choosing no dimension or no indicator stops the page with a KeyError on "variableName". |
| DashV4.NothingChosenDrawsNothing | dash_v4.py:134-145 | As intended, choosing no dimension or no indicator draws no chart and no warning. |
| DashV4.AsWrittenAgreesWhenChosen | dash_v4.py:129-219 | When a dimension and an indicator are chosen, the script as written draws the intended page. |
| DashV4.DashboardSlots | dash_v4.py:129-219 | The page has one slot per chosen indicator, up to four. A slot is a chart exactly when some sheet row passes every filter for its indicator; the chart then holds exactly those rows, with the slot's marker. |
| DashV4.DashboardChartRows | dash_v4.py:129-181 | A chart plots each sheet row that passes every filter for its indicator as often as the sheet holds it, and no other row. |
| DashV4.DashboardYAxisLabel | dash_v4.py:145-181 | A chart's y-axis title is the unit of the first sheet row that passes every filter for its indicator. |
| DashV4.Restyle | dash_v4.py:184-192 | Every trace gets the marker symbol. Saudi Arabia's gets width 4 and green; every other trace gets width 1.5 and keeps its colour. |
| DashV4.RestyleIdempotent | dash_v4.py:184-192 | Restyling a trace twice is restyling it once. |
| DashV4.Trace.constructor | dash_v4.py:174-181 | A new trace carries its series name and no style of its own. |
| DashV4.StyleTraces | dash_v4.py:184-192 | After the loop every trace of the figure has the style `Restyle` gives it from its style before. |
| DashV4.DrawChart | dash_v4.py:174-192 | A chart's figure has one new trace per series, in series order, each styled by `Restyle` with the chart's marker. |

## Left out

- The Streamlit page itself is not modelled: page config, header, CSS, expanders, columns and the hidden menu. The widgets' current values are parameters (`Selection`).
- Reading `config.toml` and the Excel sheet is not modelled. The sheet is a parameter. The sector list is whatever the caller passes, and the sector selectbox's default index is not modelled.
- Plotly figure layout is not modelled: axis names, legend title, font colour, `text_auto`, templates. The colour `px.line` gives each trace is not modelled either, so a trace's initial colour is "unset".
- Floating-point values are `real` and are only passed through. The widths 4 and 1.5 are integers in tenths (40 and 15).
- Empty (NaN) cells are not modelled: every row has every field. `groupby(...).first()` skipping null units, and `idxmax` on missing years, are therefore outside the model.
- The activity selectbox returning `None` when the sector has no activity is not modelled: the activity is always a string.
- DashV4.Query: Streamlit's own errors are not modelled. It raises when a dimension default is missing from the options, or when more than four entries are chosen.
- `default_indicators = list(variable_rename_map.keys())` at dash_v4.py:156 is not modelled: the value is never read afterwards.
- Records.YearBounds: the sheet's years are integers, so `int(...)` of the minimum and maximum is the identity. An empty sheet, where `int(nan)` raises, is the `None` case.
- DashV0.Bars: the bar heights are `valueUSD` passed through. The states column speaks about labels and countries only.

## Findings

| source | as written | input that shows it | evidently intended | confidence | as-written member | corrected member |
|---|---|---|---|---|---|---|
| dash_v4.py:134-145 | With no dimension or no indicator chosen, `df_selection` is `pd.DataFrame()` with no columns. `groupby("variableName")` at line 145 then raises KeyError and the page stops. | clear the dimension multiselect (so `variable == []`) | an empty selection: no unit mapping entries, no chart and no warning | not executed | DashV4.NothingChosenFailsAsWritten | DashV4.NothingChosenDrawsNothing |

`DashV4.DashboardAsWritten` models the script as written: it fails exactly on
the column-less frame. `DashV4.Dashboard` is the corrected page, and the
lemmas about the page are stated about it.
