/** `process_table_data`: groups the table rows by the raw value of the
    Driver column into one record per driver, in order of first
    appearance, each holding the stripped name, the first row's total and
    the incidents of the rows whose Points cell is filled. */
module Grouping {
  import opened Table
  import opened Strings

  // ---------------------------------------------------------------------
  // Specification
  // ---------------------------------------------------------------------

  /** Some row carries the raw Driver value `d`. */
  predicate Occurs(rows: seq<TableRow>, d: string) {
    exists k :: 0 <= k < |rows| && rows[k].driver == d
  }

  /** The index of the first row whose Driver value is `d`. */
  function FirstIndex(rows: seq<TableRow>, d: string): (r: nat)
    requires Occurs(rows, d)
    ensures r < |rows| && rows[r].driver == d
    ensures forall k :: 0 <= k < r ==> rows[k].driver != d
  {
    var n := |rows| - 1;
    if Occurs(rows[..n], d) then FirstIndex(rows[..n], d) else n
  }

  /** No value appears twice. */
  predicate NoDuplicates(u: seq<string>) {
    forall i, j :: 0 <= i < j < |u| ==> u[i] != u[j]
  }

  /** The distinct raw values of the Driver column (pandas `unique`), each
      once, and every one of them present. */
  function UniqueDrivers(rows: seq<TableRow>): (u: seq<string>)
    ensures NoDuplicates(u)
    ensures forall i :: 0 <= i < |u| ==> Occurs(rows, u[i])
    ensures forall k :: 0 <= k < |rows| ==> rows[k].driver in u
  {
    if |rows| == 0 then []
    else
      var n := |rows| - 1;
      var u := UniqueDrivers(rows[..n]);
      assert forall i :: 0 <= i < |u| ==> Occurs(rows, u[i]) by {
        forall i | 0 <= i < |u| ensures Occurs(rows, u[i]) {
          var k :| 0 <= k < n && rows[..n][k].driver == u[i];
          assert rows[k].driver == u[i];
        }
      }
      assert forall k :: 0 <= k < n ==> rows[k].driver in u by {
        forall k | 0 <= k < n ensures rows[k].driver in u {
          assert rows[..n][k] == rows[k];
        }
      }
      if rows[n].driver in u then u else u + [rows[n].driver]
  }

  /** The rows whose raw Driver value equals `d` (the boolean-mask
      selection), in table order. */
  function RowsOf(rows: seq<TableRow>, d: string): seq<TableRow> {
    if |rows| == 0 then []
    else
      var n := |rows| - 1;
      RowsOf(rows[..n], d) + (if rows[n].driver == d then [rows[n]] else [])
  }

  /** The incident a row with a filled Points cell turns into. */
  function ToIncident(row: TableRow): Incident
    requires row.points.Some?
  {
    Incident(row.points.value, row.expiryDate, row.grandPrix, row.reason)
  }

  /** The incidents of a driver's rows: one per row whose Points cell is
      filled, in row order. */
  function Incidents(driverRows: seq<TableRow>): seq<Incident> {
    if |driverRows| == 0 then []
    else
      var n := |driverRows| - 1;
      Incidents(driverRows[..n])
        + (if driverRows[n].points.Some? then [ToIncident(driverRows[n])] else [])
  }

  /** The record built for the raw Driver value `d`. */
  function RecordFor(rows: seq<TableRow>, d: string): DriverRecord
    requires Occurs(rows, d)
  {
    RowsOfNonEmpty(rows, d);
    var driverRows := RowsOf(rows, d);
    DriverRecord(Trim(d), driverRows[0].totalPoints, Incidents(driverRows))
  }

  /** The records for the keys `keys`, in the order of `keys`. */
  function RecordsFor(rows: seq<TableRow>, keys: seq<string>): (g: seq<DriverRecord>)
    requires forall i :: 0 <= i < |keys| ==> Occurs(rows, keys[i])
  {
    seq(|keys|, i requires 0 <= i < |keys| => RecordFor(rows, keys[i]))
  }

  /** Appending a key appends its record. */
  lemma RecordsForAppend(rows: seq<TableRow>, keys: seq<string>, d: string)
    requires forall i :: 0 <= i < |keys| ==> Occurs(rows, keys[i])
    requires Occurs(rows, d)
    ensures RecordsFor(rows, keys + [d]) == RecordsFor(rows, keys) + [RecordFor(rows, d)]
  {
  }

  /** What `process_table_data` returns for `rows`. */
  function GroupByDriver(rows: seq<TableRow>): seq<DriverRecord> {
    RecordsFor(rows, UniqueDrivers(rows))
  }

  /** A row turns into an incident of the driver `d`. */
  predicate IsIncidentRow(row: TableRow, d: string) {
    row.driver == d && row.points.Some?
  }

  /** The indices of the rows that turn into incidents of `d`, ascending. */
  ghost function IncidentRowIndices(rows: seq<TableRow>, d: string): seq<nat> {
    if |rows| == 0 then []
    else
      var n := |rows| - 1;
      IncidentRowIndices(rows[..n], d) + (if IsIncidentRow(rows[n], d) then [n] else [])
  }

  // ---------------------------------------------------------------------
  // Properties
  // ---------------------------------------------------------------------

  /** A driver value that occurs has at least one row, and the first of its
      rows is the first table row with that value. */
  lemma {:induction false} RowsOfNonEmpty(rows: seq<TableRow>, d: string)
    requires Occurs(rows, d)
    ensures |RowsOf(rows, d)| > 0
    ensures RowsOf(rows, d)[0] == rows[FirstIndex(rows, d)]
  {
    var n := |rows| - 1;
    if Occurs(rows[..n], d) {
      RowsOfNonEmpty(rows[..n], d);
    } else {
      RowsOfAbsent(rows[..n], d);
    }
  }

  /** A driver value that does not occur selects no rows. */
  lemma {:induction false} RowsOfAbsent(rows: seq<TableRow>, d: string)
    requires !Occurs(rows, d)
    ensures RowsOf(rows, d) == []
  {
    if |rows| > 0 {
      var n := |rows| - 1;
      forall k | 0 <= k < n ensures rows[..n][k].driver != d {
        assert rows[..n][k] == rows[k];
      }
      RowsOfAbsent(rows[..n], d);
    }
  }

  /** Every row selected for `d` carries `d`. */
  lemma {:induction false} RowsOfMatch(rows: seq<TableRow>, d: string)
    ensures forall k :: 0 <= k < |RowsOf(rows, d)| ==> RowsOf(rows, d)[k].driver == d
  {
    if |rows| > 0 {
      RowsOfMatch(rows[..|rows| - 1], d);
    }
  }

  /** The first occurrence of a value is unaffected by rows appended after
      it. */
  lemma {:induction false} FirstIndexOfPrefix(rows: seq<TableRow>, n: nat, d: string)
    requires n <= |rows| && Occurs(rows[..n], d)
    ensures Occurs(rows, d) && FirstIndex(rows, d) == FirstIndex(rows[..n], d)
  {
    var f := FirstIndex(rows[..n], d);
    assert rows[f].driver == d;
  }

  /** Every value of `u` occurs, and earlier values of `u` first appear
      earlier in the table. */
  ghost predicate InFirstAppearanceOrder(rows: seq<TableRow>, u: seq<string>) {
    && (forall i :: 0 <= i < |u| ==> Occurs(rows, u[i]))
    && (forall i, j :: 0 <= i < j < |u| ==> FirstIndex(rows, u[i]) < FirstIndex(rows, u[j]))
  }

  /** `unique` lists the values in the order in which each first appears
      in the column. */
  lemma {:induction false} UniqueDriversInFirstAppearanceOrder(rows: seq<TableRow>)
    ensures InFirstAppearanceOrder(rows, UniqueDrivers(rows))
  {
    if |rows| > 0 {
      var n := |rows| - 1;
      UniqueDriversInFirstAppearanceOrder(rows[..n]);
      var p := UniqueDrivers(rows[..n]);
      OrderSurvivesAppend(rows, n, p);
      var d := rows[n].driver;
      if d !in p {
        assert !Occurs(rows[..n], d) by {
          forall k | 0 <= k < n ensures rows[..n][k].driver != d {
            assert rows[..n][k] == rows[k];
          }
        }
        OrderExtendsWithNewValue(rows, p);
      }
    }
  }

  /** Appending rows keeps an order of first appearance. */
  lemma {:induction false} OrderSurvivesAppend(rows: seq<TableRow>, n: nat, p: seq<string>)
    requires n <= |rows| && InFirstAppearanceOrder(rows[..n], p)
    ensures InFirstAppearanceOrder(rows, p)
    ensures forall i :: 0 <= i < |p| ==> FirstIndex(rows, p[i]) < n
  {
    forall i | 0 <= i < |p|
      ensures Occurs(rows, p[i]) && FirstIndex(rows, p[i]) == FirstIndex(rows[..n], p[i]) < n
    {
      FirstIndexOfPrefix(rows, n, p[i]);
    }
  }

  /** A value first appearing in the last row goes after all others. */
  lemma {:induction false} OrderExtendsWithNewValue(rows: seq<TableRow>, p: seq<string>)
    requires |rows| > 0
    requires InFirstAppearanceOrder(rows, p)
    requires forall i :: 0 <= i < |p| ==> FirstIndex(rows, p[i]) < |rows| - 1
    requires !Occurs(rows[..|rows| - 1], rows[|rows| - 1].driver)
    ensures InFirstAppearanceOrder(rows, p + [rows[|rows| - 1].driver])
  {
    var n := |rows| - 1;
    var d := rows[n].driver;
    forall k | 0 <= k < n ensures rows[k].driver != d {
      assert rows[..n][k] == rows[k];
    }
    assert FirstIndex(rows, d) == n;
    var u := p + [d];
    forall i, j | 0 <= i < j < |u|
      ensures FirstIndex(rows, u[i]) < FirstIndex(rows, u[j])
    {
      assert u[i] == p[i];
      if j < |p| {
        assert u[j] == p[j];
      } else {
        assert u[j] == d;
      }
    }
  }

  /** Appending a row to the table appends at most one incident to a
      driver's list: the row's own, when it carries that driver and a
      Points value; rows with an empty Points cell contribute nothing. */
  lemma {:induction false} IncidentsOfAppendedRow(rows: seq<TableRow>, row: TableRow, d: string)
    ensures Incidents(RowsOf(rows + [row], d))
      == Incidents(RowsOf(rows, d)) + (if IsIncidentRow(row, d) then [ToIncident(row)] else [])
  {
    assert (rows + [row])[..|rows|] == rows;
    if row.driver == d {
      var s := RowsOf(rows, d) + [row];
      assert s[..|s| - 1] == RowsOf(rows, d);
    } else {
      assert RowsOf(rows + [row], d) == RowsOf(rows, d);
    }
  }

  /** A driver's incidents are exactly the table rows that carry the driver
      and a Points value, in table order, each copied field for field. */
  lemma {:induction false} IncidentsAreIncidentRows(rows: seq<TableRow>, d: string)
    ensures var inc, idx := Incidents(RowsOf(rows, d)), IncidentRowIndices(rows, d);
      && |inc| == |idx|
      && (forall k :: 0 <= k < |idx| ==>
            && idx[k] < |rows| && IsIncidentRow(rows[idx[k]], d)
            && inc[k] == Incident(rows[idx[k]].points.value, rows[idx[k]].expiryDate,
                                  rows[idx[k]].grandPrix, rows[idx[k]].reason))
      && (forall k1, k2 :: 0 <= k1 < k2 < |idx| ==> idx[k1] < idx[k2])
      && (forall j :: 0 <= j < |rows| && IsIncidentRow(rows[j], d) ==> j in idx)
  {
    IncidentRowIndicesExact(rows, d);
    IncidentsAtIndices(rows, d);
  }

  /** `IncidentRowIndices` lists, in ascending order, exactly the indices of
      the rows that carry `d` and a Points value. */
  lemma {:induction false} IncidentRowIndicesExact(rows: seq<TableRow>, d: string)
    ensures forall k :: 0 <= k < |IncidentRowIndices(rows, d)| ==>
      IncidentRowIndices(rows, d)[k] < |rows| && IsIncidentRow(rows[IncidentRowIndices(rows, d)[k]], d)
    ensures forall k1, k2 :: 0 <= k1 < k2 < |IncidentRowIndices(rows, d)| ==>
      IncidentRowIndices(rows, d)[k1] < IncidentRowIndices(rows, d)[k2]
    ensures forall j :: 0 <= j < |rows| && IsIncidentRow(rows[j], d) ==> j in IncidentRowIndices(rows, d)
  {
    if |rows| > 0 {
      var n := |rows| - 1;
      IncidentRowIndicesExact(rows[..n], d);
      var idx := IncidentRowIndices(rows, d);
      var p := IncidentRowIndices(rows[..n], d);
      assert idx == p + (if IsIncidentRow(rows[n], d) then [n] else []);
      forall k | 0 <= k < |p| ensures p[k] < n && IsIncidentRow(rows[p[k]], d) {
        assert p[k] < |rows[..n]| && IsIncidentRow(rows[..n][p[k]], d);
        assert rows[p[k]] == rows[..n][p[k]];
      }
      forall j | 0 <= j < |rows| && IsIncidentRow(rows[j], d)
        ensures j in idx
      {
        if j < n {
          assert rows[..n][j] == rows[j];
          assert j in p;
        }
      }
    }
  }

  /** The `k`-th incident of `d` is built from the row at the `k`-th index
      of `IncidentRowIndices`. */
  lemma {:induction false} IncidentsAtIndices(rows: seq<TableRow>, d: string)
    ensures |Incidents(RowsOf(rows, d))| == |IncidentRowIndices(rows, d)|
    ensures forall k :: 0 <= k < |IncidentRowIndices(rows, d)| ==>
      && IncidentRowIndices(rows, d)[k] < |rows|
      && rows[IncidentRowIndices(rows, d)[k]].points.Some?
      && Incidents(RowsOf(rows, d))[k] == ToIncident(rows[IncidentRowIndices(rows, d)[k]])
  {
    if |rows| > 0 {
      var n := |rows| - 1;
      IncidentsAtIndices(rows[..n], d);
      assert rows[..n] + [rows[n]] == rows;
      IncidentsOfAppendedRow(rows[..n], rows[n], d);
      var p := IncidentRowIndices(rows[..n], d);
      forall k | 0 <= k < |p| ensures rows[p[k]] == rows[..n][p[k]] {
      }
    }
  }

  /** The set of values of a sequence. */
  ghost function Elements(s: seq<nat>): set<nat> {
    set x | x in s
  }

  /** A strictly increasing sequence has as many distinct elements as
      positions. */
  lemma {:induction false} AscendingCardinality(idx: seq<nat>)
    requires forall k1, k2 :: 0 <= k1 < k2 < |idx| ==> idx[k1] < idx[k2]
    ensures |Elements(idx)| == |idx|
  {
    if |idx| > 0 {
      var n := |idx| - 1;
      var p := idx[..n];
      AscendingCardinality(p);
      assert idx == p + [idx[n]];
      assert Elements(idx) == Elements(p) + {idx[n]};
      assert idx[n] !in Elements(p);
    } else {
      assert Elements(idx) == {};
    }
  }

  /** The number of a driver's incidents is the number of rows that carry
      the driver and a Points value. */
  lemma {:induction false} IncidentCount(rows: seq<TableRow>, d: string)
    ensures |Incidents(RowsOf(rows, d))|
      == |set j | 0 <= j < |rows| && IsIncidentRow(rows[j], d)|
  {
    IncidentsAreIncidentRows(rows, d);
    var idx := IncidentRowIndices(rows, d);
    AscendingCardinality(idx);
    assert Elements(idx) == (set j | 0 <= j < |rows| && IsIncidentRow(rows[j], d));
  }

  /** The record `process_table_data` builds for its `i`-th raw Driver
      value `keys[i]`: the stripped key, the total of the first table row
      with that key, and that key's incidents. The keys themselves are
      described by `UniqueDrivers` and `UniqueDriversInFirstAppearanceOrder`. */
  lemma {:induction false} GroupByDriverFacts(rows: seq<TableRow>)
    ensures var g, keys := GroupByDriver(rows), UniqueDrivers(rows);
      && |g| == |keys|
      && (forall i :: 0 <= i < |g| ==>
            && g[i].driver == Trim(keys[i])
            && g[i].totalPoints == rows[FirstIndex(rows, keys[i])].totalPoints
            && g[i].incidents == Incidents(RowsOf(rows, keys[i])))
  {
    var keys := UniqueDrivers(rows);
    forall i | 0 <= i < |keys|
      ensures |RowsOf(rows, keys[i])| > 0 && RowsOf(rows, keys[i])[0] == rows[FirstIndex(rows, keys[i])]
    {
      RowsOfNonEmpty(rows, keys[i]);
    }
  }

  // ---------------------------------------------------------------------
  // Implementation
  // ---------------------------------------------------------------------

  /** The `unique` call on the Driver column. */
  method UniqueDriverValues(rows: seq<TableRow>) returns (drivers: seq<string>)
    ensures drivers == UniqueDrivers(rows)
  {
    drivers := [];
    var k := 0;
    while k < |rows|
      invariant 0 <= k <= |rows|
      invariant drivers == UniqueDrivers(rows[..k])
    {
      assert rows[..k + 1][..k] == rows[..k];
      if rows[k].driver !in drivers {
        drivers := drivers + [rows[k].driver];
      }
      k := k + 1;
    }
    assert rows[..k] == rows;
  }

  /** The selection of one driver's rows by comparing the raw Driver
      value. */
  method SelectDriverRows(rows: seq<TableRow>, driver: string) returns (driverRows: seq<TableRow>)
    ensures driverRows == RowsOf(rows, driver)
  {
    driverRows := [];
    var k := 0;
    while k < |rows|
      invariant 0 <= k <= |rows|
      invariant driverRows == RowsOf(rows[..k], driver)
    {
      assert rows[..k + 1][..k] == rows[..k];
      if rows[k].driver == driver {
        driverRows := driverRows + [rows[k]];
      }
      k := k + 1;
    }
    assert rows[..k] == rows;
  }

  /** The inner loop over a driver's rows, appending an incident for every
      row whose Points cell is filled. */
  method CollectIncidents(driverRows: seq<TableRow>) returns (incidents: seq<Incident>)
    ensures incidents == Incidents(driverRows)
  {
    incidents := [];
    var j := 0;
    while j < |driverRows|
      invariant 0 <= j <= |driverRows|
      invariant incidents == Incidents(driverRows[..j])
    {
      assert driverRows[..j + 1][..j] == driverRows[..j];
      var row := driverRows[j];
      if row.points.Some? {
        incidents := incidents + [Incident(row.points.value, row.expiryDate, row.grandPrix, row.reason)];
      }
      j := j + 1;
    }
    assert driverRows[..j] == driverRows;
  }

  /** `process_table_data`: the outer loop over the distinct drivers,
      appending one record per driver. */
  method ProcessTableData(rows: seq<TableRow>) returns (grouped: seq<DriverRecord>)
    ensures grouped == GroupByDriver(rows)
  {
    grouped := [];
    var drivers := UniqueDriverValues(rows);
    var i := 0;
    while i < |drivers|
      invariant 0 <= i <= |drivers|
      invariant grouped == RecordsFor(rows, drivers[..i])
    {
      var driver := drivers[i];
      var driverRows := SelectDriverRows(rows, driver);
      RowsOfNonEmpty(rows, driver);
      var totalPoints := driverRows[0].totalPoints;
      var incidents := CollectIncidents(driverRows);
      grouped := grouped + [DriverRecord(Trim(driver), totalPoints, incidents)];
      assert drivers[..i + 1] == drivers[..i] + [driver];
      RecordsForAppend(rows, drivers[..i], driver);
      i := i + 1;
    }
    assert drivers[..i] == drivers;
  }
}
