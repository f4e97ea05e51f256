# Penalty points transform

A Dafny model of the in-memory part of `fetch_penalty_points.py`. The script
reads a wiki table of Formula 1 penalty points and turns it into two lists:

- **Detailed records.** `process_table_data` groups the table rows by the raw
  value of the Driver column. Drivers come out in order of first appearance.
  Each record holds the stripped name, the Total Points of the driver's first
  row, and one incident per row whose Points cell is filled, in row order.
- **Chart entries.** `save_chart_json` turns each record into a
  `{name, points}` entry and sorts the list by points, highest first. The
  sort is stable, so drivers with equal points keep their record order.

Files:

- `table.dfy` (module `Table`): the row, incident, record and chart-entry
  datatypes. An empty Points cell is `None`.
- `strings.dfy` (module `Strings`): Python's `str.strip()`, using the
  whitespace set of `str.isspace()`.
- `grouping.dfy` (module `Grouping`): specification functions for the
  grouping (`UniqueDrivers`, `RowsOf`, `Incidents`, `GroupByDriver`), their
  properties, and methods with loops that follow the source's loops
  (`ProcessTableData` and its helpers), each proved equal to its
  specification.
- `chart.dfy` (module `Chart`): the chart entries, a functional stable sort
  `SortByPoints` with its sortedness, permutation and stability lemmas, and
  an in-place insertion sort on an array proved equal to it.
- `scenarios.dfy` (module `Scenarios`): worked examples on small tables.

Grouping compares raw Driver strings; only the output name is stripped. So
two names that differ only in surrounding whitespace give two records with
the same stripped name; `WhitespaceVariantsStaySeparate` proves it.

## Model

| member | source | states |
|---|---|---|
| Strings.TrimStart | fetch_penalty_points.py:45 | the result is a suffix of the input, everything removed is whitespace, and the result does not start with whitespace |
| Strings.TrimEnd | fetch_penalty_points.py:45 | the result is a prefix of the input, everything removed is whitespace, and the result does not end with whitespace |
| Strings.Trim | fetch_penalty_points.py:45 | the stripped name neither starts nor ends with whitespace |
| Strings.TrimIsWhitespaceSlice | fetch_penalty_points.py:45 | the stripped name is a contiguous slice of the input; only leading and trailing whitespace is removed |
| Strings.TrimOfTrimmed | fetch_penalty_points.py:45 | a name with no whitespace at either end is unchanged by stripping |
| Strings.TrimIdempotent | fetch_penalty_points.py:45 | stripping twice is the same as stripping once |
| Strings.TrimIgnoresPadding | fetch_penalty_points.py:45 | whitespace added before or after a name does not change the stripped name |
| Grouping.FirstIndex | fetch_penalty_points.py:38-41 | the index of the first row whose raw Driver value is `d`; no earlier row has that value |
| Grouping.UniqueDrivers | fetch_penalty_points.py:35 | the distinct raw Driver values: no duplicates, every value occurs in the table, and every row's value is listed |
| Grouping.UniqueDriversInFirstAppearanceOrder | fetch_penalty_points.py:35-37 | the distinct values are listed in the order of their first appearance in the table |
| Grouping.RowsOfNonEmpty | fetch_penalty_points.py:38-41 | a driver that occurs has at least one selected row, and the first selected row is the driver's first table row |
| Grouping.RowsOfAbsent | fetch_penalty_points.py:38 | a value that occurs in no row selects no rows |
| Grouping.RowsOfMatch | fetch_penalty_points.py:38 | every selected row carries the raw Driver value it was selected for |
| Grouping.IncidentsOfAppendedRow | fetch_penalty_points.py:51-59 | one more table row adds at most one incident to a driver: its own, when it has that driver and a Points value; a row with an empty Points cell adds nothing |
| Grouping.IncidentsAreIncidentRows | fetch_penalty_points.py:51-59 | a driver's incidents correspond one to one, in ascending row order, to exactly the rows with that driver and a Points value; each incident copies points, expiry date, Grand Prix and reason from its row |
| Grouping.IncidentRowIndicesExact | fetch_penalty_points.py:51-52 | the incident row indices are ascending, each is a row of the driver with a Points value, and every such row is among them |
| Grouping.IncidentsAtIndices | fetch_penalty_points.py:53-59 | the k-th incident is built from the row at the k-th incident row index |
| Grouping.IncidentCount | fetch_penalty_points.py:51-59 | the number of a driver's incidents equals the number of rows with that driver and a Points value |
| Grouping.GroupByDriverFacts | fetch_penalty_points.py:37-61 | one record per distinct raw Driver value, in that order; the record's name is the stripped key, its total is the first matching row's Total Points, and its incidents are the key's incidents |
| Grouping.UniqueDriverValues | fetch_penalty_points.py:35 | the loop collecting distinct Driver values returns exactly `UniqueDrivers` |
| Grouping.SelectDriverRows | fetch_penalty_points.py:38 | the loop selecting a driver's rows returns exactly `RowsOf` |
| Grouping.CollectIncidents | fetch_penalty_points.py:51-59 | the inner loop over a driver's rows returns exactly `Incidents` of those rows |
| Grouping.ProcessTableData | fetch_penalty_points.py:29-63 | the nested loops return exactly `GroupByDriver` of the table |
| Chart.SortByPointsSortsAndPermutes | fetch_penalty_points.py:89 | the sorted list has non-increasing points and is a permutation (same multiset) of its input |
| Chart.SortByPointsIsStable | fetch_penalty_points.py:89 | for every points value, the entries with that value appear in the same order after sorting as before |
| Chart.SortByPointsLength | fetch_penalty_points.py:89 | sorting keeps the number of entries |
| Chart.InsertAt | fetch_penalty_points.py:89 | one insertion step places an entry after every entry with at least its points and before all entries with fewer |
| Chart.ChartFacts | fetch_penalty_points.py:80-89 | one entry per record with name = driver and points = totalPoints; the chart is a permutation of these entries, sorted non-increasing by points, and stable on ties |
| Chart.SortInPlace | fetch_penalty_points.py:89 | the in-place insertion sort leaves the array equal to `SortByPoints` of its old contents |
| Chart.InsertIntoPrefix | fetch_penalty_points.py:89 | one outer step of the insertion sort turns the array prefix into the insertion of the next entry into the sorted prefix, leaving the rest unchanged |
| Chart.BuildChartData | fetch_penalty_points.py:80-89 | the append loop plus the sort return exactly `SortByPoints(ChartEntries(records))` |
| Scenarios.OneDriverOneIncident | fetch_penalty_points.py:29-63 | a total-only row followed by one incident row gives one record with that single incident |
| Scenarios.WhitespaceVariantsStaySeparate | fetch_penalty_points.py:35-45 | a name and the same name with surrounding whitespace form two records, both with the stripped name |
| Scenarios.HigherTotalFirst | fetch_penalty_points.py:82-89 | totals 6 and 10 give a chart with the 10-point driver first |
| Scenarios.TiesKeepRecordOrder | fetch_penalty_points.py:89 | entries with equal points keep their relative order around a higher entry |
| Scenarios.EmptyTableEmptyOutputs | fetch_penalty_points.py:32-37 | an empty table gives an empty record list and an empty chart |

## Left out

- Fetching the page and extracting its first table with `pd.read_html`: network I/O and a foreign library. The model starts from a sequence of typed rows.
- The pandas NaN machinery and the `int()` coercions: Points is `Option<int>` and Total Points is a plain `int`. The error raised by `int()` on an empty Total Points cell is therefore not modelled.
- Empty text cells: the Driver, Expiry Date, Grand Prix and Reason columns are modelled as strings. An empty (NaN) Driver cell is not modelled: `unique()` returns NaN as a key, the comparison at line 38 matches no row because NaN equals nothing, and so line 41 raises IndexError before line 45's `strip()` runs. Expiry Date, Grand Prix and Reason are copied unchanged whatever they hold.
- Creating the `data` directory, JSON serialisation and the file writes of both writers: filesystem I/O.
- Status messages and the script entry point.
