/** Worked examples of the transform on small tables. */
module Scenarios {
  import opened Table
  import opened Grouping
  import opened Chart

  const MaxTotal := TableRow("Max Verstappen", 4, None, "", "", "")
  const MaxMonaco := TableRow("Max Verstappen", 4, Some(2), "2024-12-31", "Monaco", "Unsafe release")
  /** A driver's first row only states the running total; the second row
      is the one incident. */
  lemma OneDriverOneIncident()
    ensures GroupByDriver([MaxTotal, MaxMonaco])
      == [DriverRecord("Max Verstappen", 4, [Incident(2, "2024-12-31", "Monaco", "Unsafe release")])]
  {
    var rows := [MaxTotal, MaxMonaco];
    MaxKeys();
    MaxRows();
    MaxIncidents();
    Strings.TrimOfTrimmed("Max Verstappen");
    RecordsForAppend(rows, [], "Max Verstappen");
    assert [] + ["Max Verstappen"] == ["Max Verstappen"];
    assert GroupByDriver(rows) == [RecordFor(rows, "Max Verstappen")];
  }

  lemma MaxKeys()
    ensures UniqueDrivers([MaxTotal, MaxMonaco]) == ["Max Verstappen"]
  {
    TwoRows(MaxTotal, MaxMonaco);
  }

  lemma MaxRows()
    ensures RowsOf([MaxTotal, MaxMonaco], "Max Verstappen") == [MaxTotal, MaxMonaco]
  {
    TwoRows(MaxTotal, MaxMonaco);
  }

  lemma MaxIncidents()
    ensures Incidents([MaxTotal, MaxMonaco]) == [Incident(2, "2024-12-31", "Monaco", "Unsafe release")]
  {
    TwoRows(MaxTotal, MaxMonaco);
  }

  /** The specification functions on a table of one row. */
  lemma OneRow(r0: TableRow)
    ensures UniqueDrivers([r0]) == [r0.driver]
    ensures RowsOf([r0], r0.driver) == [r0]
    ensures Incidents([r0]) == if r0.points.Some? then [ToIncident(r0)] else []
  {
    assert [r0][..0] == [];
  }

  /** The specification functions on a table of two rows. */
  lemma TwoRows(r0: TableRow, r1: TableRow)
    ensures UniqueDrivers([r0, r1])
      == if r1.driver == r0.driver then [r0.driver] else [r0.driver, r1.driver]
    ensures r1.driver == r0.driver ==> RowsOf([r0, r1], r0.driver) == [r0, r1]
    ensures Incidents([r0, r1])
      == Incidents([r0]) + if r1.points.Some? then [ToIncident(r1)] else []
  {
    OneRow(r0);
    assert [r0, r1][..1] == [r0];
  }

  /** Grouping compares the raw Driver values: a name and the same name
      with extra whitespace around it make two records, although both
      records carry the same stripped name. */
  lemma {:induction false} WhitespaceVariantsStaySeparate(
    name: string, pre: string, post: string, r0: TableRow, r1: TableRow)
    requires Strings.IsTrimmed(name)
    requires forall k :: 0 <= k < |pre| ==> Strings.IsWhitespace(pre[k])
    requires forall k :: 0 <= k < |post| ==> Strings.IsWhitespace(post[k])
    requires |pre| + |post| > 0
    requires r0.driver == name && r1.driver == pre + name + post
    ensures var g := GroupByDriver([r0, r1]);
      |g| == 2 && g[0].driver == name && g[1].driver == name
  {
    TwoRows(r0, r1);
    assert |r1.driver| != |r0.driver|;
    Strings.TrimOfTrimmed(name);
    Strings.TrimIgnoresPadding(pre, name, post);
  }

  /** The chart lists the higher total first. */
  lemma HigherTotalFirst()
    ensures SortByPoints(ChartEntries([DriverRecord("A", 6, []), DriverRecord("B", 10, [])]))
      == [ChartEntry("B", 10), ChartEntry("A", 6)]
  {
    var e := ChartEntries([DriverRecord("A", 6, []), DriverRecord("B", 10, [])]);
    assert e == [ChartEntry("A", 6), ChartEntry("B", 10)];
    assert e[..1] == [ChartEntry("A", 6)];
    assert e[..1][..0] == [];
  }

  /** Equal totals keep the order of the records. */
  lemma TiesKeepRecordOrder()
    ensures SortByPoints([ChartEntry("A", 4), ChartEntry("B", 6), ChartEntry("C", 4)])
      == [ChartEntry("B", 6), ChartEntry("A", 4), ChartEntry("C", 4)]
  {
    var e := [ChartEntry("A", 4), ChartEntry("B", 6), ChartEntry("C", 4)];
    assert e[..2] == [ChartEntry("A", 4), ChartEntry("B", 6)];
    assert e[..2][..1] == [ChartEntry("A", 4)];
    assert e[..2][..1][..0] == [];
    assert SortByPoints(e[..2][..1]) == [ChartEntry("A", 4)];
    assert Insert([ChartEntry("A", 4)], ChartEntry("B", 6)) == [ChartEntry("B", 6), ChartEntry("A", 4)];
    assert SortByPoints(e[..2]) == [ChartEntry("B", 6), ChartEntry("A", 4)];
    var t := [ChartEntry("A", 4)];
    assert Insert(t, ChartEntry("C", 4)) == [ChartEntry("A", 4)] + Insert(t[1..], ChartEntry("C", 4));
    assert Insert([ChartEntry("B", 6), ChartEntry("A", 4)], ChartEntry("C", 4))
      == [ChartEntry("B", 6)] + Insert(t, ChartEntry("C", 4));
  }

  /** An empty table (header only) yields an empty record list and an empty
      chart. */
  lemma EmptyTableEmptyOutputs()
    ensures GroupByDriver([]) == []
    ensures SortByPoints(ChartEntries(GroupByDriver([]))) == []
  {
  }
}
