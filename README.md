# Sunshine locator: the filter-and-highlight update rule

The dashboard loads a table of sunshine hours per city and month and draws one
map trace per table row. At startup every trace is hidden, listed in the legend
and painted in the default colour #EDE8BA. Whenever the user picks a month
(possibly none, the empty key) and a set of cities, `update_graph` walks the rows
in table order:

- it shows the rows of that month whose city is selected and makes every other
  trace legend-only, dropping all traces from the legend;
- it recomputes, with two pandas selections and `.max()`, the largest sunshine
  over the selected rows (not over the whole table);
- it paints a shown row #FCE570 when its sunshine equals that maximum and
  #EDE8BA otherwise, leaving the colour of every other trace as it was;
- each time it paints a row #FCE570 it overwrites the local caption
  `sunshine_state` with "Sunshine state of <month> is <city> with <hours> hours
  of sunshine.", so the last such row in table order names it; after the loop
  the caption becomes the figure's title, once.

`table.dfy` (module `Table`) holds the rows, the month-name dictionary and the
pandas selections and maximum. `figure.dfy` (module `Dashboard`) holds the trace
states, the specification function `Refresh` for one update of all traces,
`LastMaxRow` and `CaptionAfter` for the title, the class `Figure` (a fixed-size
array of traces plus the title, a constructor with the startup loop and the
method `UpdateGraph` with the update loop, whose body is the method
`PaintRow`) and the lemmas about the rule.

Modelling decisions:

- Sunshine hours are only compared, so they are integers.
- The title is `Empty` or `SunshineState(monthName, row)`: the month's display
  name and the index of the winning row, which determines the city and the
  hours printed in the text.
- `WellFormed(rows)` asks that every month of the table be a key of the month
  dictionary. Building the month selector (src/app.py:74) looks every table month
  up, so another table stops the program before any update can run. Under this
  condition the lookup on src/app.py:99 always succeeds; `UpdateGraph` performs
  it, and the verifier checks that it does.
- The selected cities are a set: the source only tests membership in the list.
- Every row tied at the maximum is highlighted, not only one; the last tied row
  in table order names the title. Traces outside the selection keep their old
  colour, so a trace
  highlighted by an earlier selection stays #FCE570 while it is legend-only;
  the properties about highlighting therefore speak of shown traces.

## Model

| member | source | states |
|---|---|---|
| Table.CityFilter | src/app.py:94 | `df[df['city'].isin(city_list)]`, in table order; `CityFilterSelects` states which rows it keeps |
| Table.MonthFilter | src/app.py:95 | the month selection, in table order; `MonthFilterSelects` states which rows it keeps |
| Table.MonthMax | src/app.py:94-95 | `max_temp_month`, the column maximum of the two selections; `MonthMaxIsSelectionMax` states that it is the maximum over the matching rows |
| Dashboard.Repaint | src/app.py:91-104 | the rule for one trace given the filtered maximum; `Refresh`'s ensures state what it makes of every trace |
| Dashboard.CaptionAfter | src/app.py:89-99 | `sunshine_state` after rows 0 .. n-1; `CaptionNamesLastMaximum` states which row it names after the whole table |
| Table.CityFilterSelects | src/app.py:94 | the city selection holds exactly the table rows whose city is selected |
| Table.MonthFilterSelects | src/app.py:95 | the month selection holds exactly the rows of the selected month |
| Table.ColumnMax | src/app.py:95 | `.max()` is absent exactly for an empty column; otherwise it is an element of the column and no element exceeds it |
| Table.MonthMaxIsSelectionMax | src/app.py:94-95 | the filtered maximum is absent exactly when no row matches month and cities; otherwise every matching row is at most it and some matching row attains it |
| Table.MaxRowIffMonthMax | src/app.py:94-96 | for a matching row, equality with the filtered maximum holds exactly when no matching row has more sunshine |
| Dashboard.Refresh | src/app.py:90-104 | after an update trace i is shown iff row i matches, else legend-only; no trace is in the legend; a matching trace is highlighted iff no matching row has more sunshine; a non-matching trace keeps its colour; the trace count is unchanged |
| Dashboard.LastMaxRow | src/app.py:94-99 | returns the last index below n of a maximal matching row, and none exactly when there is no such row |
| Dashboard.Figure.constructor | src/app.py:22-38 | one trace per row, each hidden, in the legend and default-coloured; the title is empty |
| Dashboard.Figure.PaintRow | src/app.py:91-104 | trace i becomes shown, out of the legend and highlighted iff no selected row has more sunshine, or legend-only with its old colour when unselected; no other trace changes; the title passes to row i exactly when it is a maximal selected row |
| Dashboard.Figure.UpdateGraph | src/app.py:88-116 | the traces become `Refresh` of the old traces and the title becomes the caption of the last maximal matching row |
| Dashboard.CaptionNamesLastMaximum | src/app.py:89-99 | the title is empty iff no row matches; otherwise it names the selected month, a month of the table, and the last matching row whose sunshine is the maximum; every later matching row has strictly less sunshine |
| Dashboard.SomeMatchIsHighlighted | src/app.py:94-97 | when some row matches, some trace is shown, out of the legend and highlighted |
| Dashboard.HighlightedIsBrightest | src/app.py:94-97 | a shown highlighted trace has at least the sunshine of every shown trace |
| Dashboard.NoMatchChangesNoColour | src/app.py:89-104 | with no month, no city, or a month absent from the table, every trace becomes legend-only with its old colour and the title is empty |
| Dashboard.RefreshIdempotent | src/app.py:88-104 | a second update with the same selection leaves the traces as the first one did |
| Dashboard.ShownTracesAreSelection | src/app.py:91-95 | after an update the number of shown traces equals the number of rows in the filtered selection |
| Dashboard.JanuaryScenario | src/app.py:88-104 | on the three-row sample table with both cities selected, the brighter January row (CityB, 20 hours) is shown and highlighted and names the title, CityA's January row is shown in the default colour, and the February row is legend-only |
| Dashboard.SingleCityScenario | src/app.py:94-99 | with only CityA selected, CityA's January row names the title although CityB has more sunshine |
| Dashboard.MissingMonthScenario | src/app.py:89-104 | March, which the sample table lacks, leaves the title empty |

## Left out

- Loading the CSV file with pandas (src/app.py:13): file input through a foreign library; the model starts from the rows.
- The Dash application, its layout, the checklist and radio widgets, the callback wiring and `run_server` (src/app.py:9-10, 59-85, 118-119): user-interface framework code.
- Figure and layout styling, the geographic scope, the title's font and position, and returning the figure object (src/app.py:19, 24-27, 41-55, 106-116): rendering by the plotting library. The title text itself is modelled.
- Longitude, latitude, trace name, hover text and marker size `sunshine/3.5` (src/app.py:26-29, 33): floating-point values and formatting that the update rule never reads.
- The text of the title: the model keeps the month name and the winning row index, not the formatted string with the hours as a float.
- NaN values in the sunshine column and pandas' NaN-skipping `.max()`: an empty selection's maximum is modelled as absent; NaN entries are not modelled.
- The figure is one global object shared by every browser session; the model has one figure and no concurrency.
