# CMAPSS Remaining-Useful-Life dashboard: selection and alert pipeline

This project models the decision logic of the CMAPSS Remaining-Useful-Life (RUL)
dashboard, `app.py`, with its user interface removed. The script reads a table of
predicted RUL values per engine unit and cycle. It then:

1. checks that the columns `unit_number`, `time_in_cycles` and `predicted_RUL`
   are present, and stops with an error listing the missing ones if not;
2. lists the distinct unit ids in order of first appearance;
3. keeps the rows of the unit picked in a dropdown and orders them by cycle;
4. builds the chart table: cycle, predicted RUL, and two flat lines at 30 and 20;
5. raises a maintenance alert from the smallest predicted RUL of that unit.
   Strictly below 20 gives the urgent alert. Otherwise strictly below 30 gives
   the warning. Otherwise there is no alert.

Everything is in `dashboard.dfy`, module `Dashboard`. The script has no loops and
no long-lived state, so each step is a pure function over a parsed header
(`seq<string>`) and rows (`seq<Row>`, `Row(unit, cycle, rul)`). `Run` is one
render of the page. It returns either `Halted(missing)`, which stands for the
error banner followed by `st.stop()`, or `Rendered(engineIds, plot, alert)`.

Two points where the model follows the code exactly:

- Rows with equal cycles: `sort_values` uses pandas' default quicksort, which is
  not stable. The model therefore promises only that the selection is ordered by
  cycle and is a permutation of the unit's rows. It does not promise that equal
  cycles keep their table order.
- Empty selection: the script does not guard against an empty series. An empty
  series happens only for an empty table; then the dropdown has no options and
  returns `None`. pandas' `.min()` of an empty column is NaN, and both `<`
  comparisons with NaN are false, so no alert is shown. `AlertFor([])` is
  `NoAlert` for this reason.

The dropdown's answer is an input, `choice: Option<int>`. `Selectable` says it
is one of the listed ids, or `None` when the list is empty. `Run` requires this
only when the schema check passes, because the dropdown is never reached
otherwise.

## Model

| member | source | states |
|---|---|---|
| `Dashboard.MissingFrom` | app.py:19 | the names kept are exactly those of the list that are absent from the header, and they stay in list order (a subsequence) |
| `Dashboard.MissingColumns` | app.py:18-19 | the missing list holds exactly the required columns absent from the header, in `required_cols` order; it is empty iff all three are present; it has at most three entries |
| `Dashboard.Units` | app.py:26 | every unit id of the table appears, nothing else appears, and no id appears twice |
| `Dashboard.UnitsInFirstAppearanceOrder` | app.py:26 | ids are listed in order of first appearance: wherever a later-listed id occurs in the table, an earlier-listed id occurs before it |
| `Dashboard.RowsOf` | app.py:30 | the boolean mask keeps only rows of the chosen unit, and keeps each such row as many times as the table has it |
| `Dashboard.InsertByCycle` | app.py:30 | inserting into a cycle-ordered series keeps it ordered and adds exactly that row |
| `Dashboard.SortByCycle` | app.py:30 | the result is non-decreasing in cycle and is a permutation of the input |
| `Dashboard.Select` | app.py:26-30 | the selection is ordered by cycle, holds only rows of the unit, holds every such row of the table with its multiplicity (so it is exactly as long as the mask's result), and is non-empty when the unit occurs in the table |
| `Dashboard.PlotTable` | app.py:36-42 | one chart row per selected row in the same order, carrying that row's cycle and RUL, with constant threshold columns 30 and 20 |
| `Dashboard.MinRul` | app.py:47 | the result is one of the series' RUL values and no value is smaller |
| `Dashboard.AlertFor` | app.py:47-50 | Critical iff some reading is below 20; Warning iff none is below 20 and some is below 30; no alert iff none is below 30, including the empty series whose NaN minimum fails both tests |
| `Dashboard.ClassifyBoundaries` | app.py:47-50 | comparisons are strict: a minimum of exactly 20 gives the 30-threshold warning and exactly 30 gives no alert |
| `Dashboard.ClassifyAntitone` | app.py:47-50 | a lower minimum never gives a milder alert |
| `Dashboard.Run` | app.py:18-50 | the page halts iff a required column is missing, and then reports exactly the missing columns and nothing else; a rendered page lists exactly the table's units, and its chart is non-empty iff a unit was chosen |
| `Dashboard.PlotTableCounts` | app.py:36-42 | for a series of one unit, each chart point occurs exactly as often as the row it projects, and every point carries the threshold columns 30 and 20 |
| `Dashboard.SelectionPlotCounts` | app.py:30-42 | the chart built from the chosen unit's selection holds each table row of that unit exactly as many times as the table does, and nothing else |
| `Dashboard.RunPlot` | app.py:26-44 | the chart of a chosen unit is non-empty, has one point per row of that unit, is ordered by cycle, has flat lines at 30 and 20, and holds each row of that unit exactly as many times as the table does (none dropped, none repeated, none added) |
| `Dashboard.SelectBelow` | app.py:30 | the selection has a reading below a level iff some table row of the unit has one |
| `Dashboard.RunAlert` | app.py:26-50 | the alert of a rendered page, stated against the raw table: Critical iff a row of the unit is below 20, Warning iff none is below 20 but one is below 30, none otherwise |
| `Dashboard.ScenarioCritical` | app.py:26-48 | in a two-unit table, unit 1 with RUL 40, 25, 15 is listed and raises the below-20 alert |
| `Dashboard.ScenarioStable` | app.py:26-50 | in the same table, unit 2 with RUL 90, 85, 82 is listed and raises no alert |
| `Dashboard.ScenarioMissingRul` | app.py:18-23 | a header lacking `predicted_RUL` halts the page with exactly `["predicted_RUL"]` |

## Left out

- Streamlit presentation (page config, title, markdown, subheader, the rendering of `st.line_chart`): UI only. The model keeps the table passed to the chart.
- The `st.selectbox` widget: the chosen unit is an input constrained by `Selectable`.
- `st.error`, `st.warning` and `st.stop`: modelled as the returned `Outcome` and `Alert` values and an early return. The banner texts are not modelled.
- `pd.read_csv` and the hard-coded file path: file I/O and an external parser. The model starts from a parsed header and rows. Rows are typed `Row(unit: int, cycle: int, rul: real)`, so a table whose columns hold other types is not modelled.
- Renaming the columns to display labels (`Cycle`, `Predicted RUL`): cosmetic. `PlotRow` keeps the projection under its own field names.
- NaN values inside `predicted_RUL` and IEEE floating-point behaviour: RUL is a `real`, and the data is assumed to hold no NaN. pandas' `.min()` would skip such values. The empty series, whose minimum is NaN, is modelled.
- The order pandas' quicksort gives to rows with equal cycles: it depends on the implementation. The model promises sortedness and permutation, and its insertion sort is one admissible order.
