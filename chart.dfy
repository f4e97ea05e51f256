/** The chart summary built by `save_chart_json`: one `{name, points}`
    entry per driver record, sorted by points from highest to lowest with a
    stable sort, so that drivers with equal points keep their record
    order. */
module Chart {
  import opened Table

  // ---------------------------------------------------------------------
  // Specification
  // ---------------------------------------------------------------------

  /** The entries before sorting: one per record, in record order. */
  function ChartEntries(records: seq<DriverRecord>): seq<ChartEntry> {
    seq(|records|, i requires 0 <= i < |records| => ChartEntry(records[i].driver, records[i].totalPoints))
  }

  /** Points never increase from one entry to a later one. */
  predicate SortedByPointsDesc(s: seq<ChartEntry>) {
    forall i, j :: 0 <= i < j < |s| ==> s[i].points >= s[j].points
  }

  /** Puts `x` after every leading entry whose points are at least
      `x.points`; in a sorted sequence, that is after all entries with
      more or equal points. */
  function Insert(s: seq<ChartEntry>, x: ChartEntry): seq<ChartEntry> {
    if |s| == 0 then [x]
    else if s[0].points >= x.points then [s[0]] + Insert(s[1..], x)
    else [x] + s
  }

  /** The chart writer's stable sort by points, highest first, specified
      as the insertion of each entry, in order, into the sorted prefix. */
  function SortByPoints(s: seq<ChartEntry>): seq<ChartEntry> {
    if |s| == 0 then []
    else Insert(SortByPoints(s[..|s| - 1]), s[|s| - 1])
  }

  /** The entries with exactly `p` points, in order. */
  function WithPoints(s: seq<ChartEntry>, p: int): seq<ChartEntry> {
    if |s| == 0 then []
    else WithPoints(s[..|s| - 1], p) + (if s[|s| - 1].points == p then [s[|s| - 1]] else [])
  }

  // ---------------------------------------------------------------------
  // Properties
  // ---------------------------------------------------------------------

  /** Insertion adds exactly `x`. */
  lemma {:induction false} InsertPermutes(s: seq<ChartEntry>, x: ChartEntry)
    ensures multiset(Insert(s, x)) == multiset(s) + multiset{x}
  {
    if |s| > 0 && s[0].points >= x.points {
      InsertPermutes(s[1..], x);
      assert s == [s[0]] + s[1..];
    }
  }

  /** A bound on the points of `s` and of `x` bounds those of the
      insertion. */
  lemma {:induction false} InsertBounded(s: seq<ChartEntry>, x: ChartEntry, b: int)
    requires forall k :: 0 <= k < |s| ==> s[k].points <= b
    requires x.points <= b
    ensures forall k :: 0 <= k < |Insert(s, x)| ==> Insert(s, x)[k].points <= b
  {
    if |s| > 0 && s[0].points >= x.points {
      InsertBounded(s[1..], x, b);
    }
  }

  /** Insertion into a sorted sequence keeps it sorted. */
  lemma {:induction false} InsertSorted(s: seq<ChartEntry>, x: ChartEntry)
    requires SortedByPointsDesc(s)
    ensures SortedByPointsDesc(Insert(s, x))
  {
    if |s| > 0 {
      if s[0].points >= x.points {
        var t := s[1..];
        InsertSorted(t, x);
        InsertBounded(t, x, s[0].points);
        var r := Insert(t, x);
        assert Insert(s, x) == [s[0]] + r;
        forall i, j | 0 <= i < j < |[s[0]] + r|
          ensures ([s[0]] + r)[i].points >= ([s[0]] + r)[j].points
        {
          if i > 0 {
            assert ([s[0]] + r)[i] == r[i - 1];
          }
          assert ([s[0]] + r)[j] == r[j - 1];
        }
      } else {
        assert Insert(s, x) == [x] + s;
        forall i, j | 0 <= i < j < |[x] + s|
          ensures ([x] + s)[i].points >= ([x] + s)[j].points
        {
          if i > 0 {
            assert ([x] + s)[i] == s[i - 1];
          }
          assert ([x] + s)[j] == s[j - 1];
        }
      }
    }
  }

  /** The sort yields entries ordered by non-increasing points, and it
      neither adds nor drops an entry. */
  lemma {:induction false} SortByPointsSortsAndPermutes(s: seq<ChartEntry>)
    ensures SortedByPointsDesc(SortByPoints(s))
    ensures multiset(SortByPoints(s)) == multiset(s)
  {
    if |s| > 0 {
      var n := |s| - 1;
      SortByPointsSortsAndPermutes(s[..n]);
      InsertSorted(SortByPoints(s[..n]), s[n]);
      InsertPermutes(SortByPoints(s[..n]), s[n]);
      assert s == s[..n] + [s[n]];
    }
  }

  lemma {:induction false} WithPointsConcat(a: seq<ChartEntry>, b: seq<ChartEntry>, p: int)
    ensures WithPoints(a + b, p) == WithPoints(a, p) + WithPoints(b, p)
  {
    if |b| == 0 {
      assert a + b == a;
    } else {
      var n := |b| - 1;
      assert (a + b)[..|a + b| - 1] == a + b[..n];
      WithPointsConcat(a, b[..n], p);
    }
  }

  lemma {:induction false} WithPointsNone(s: seq<ChartEntry>, p: int)
    requires forall k :: 0 <= k < |s| ==> s[k].points != p
    ensures WithPoints(s, p) == []
  {
    if |s| > 0 {
      WithPointsNone(s[..|s| - 1], p);
    }
  }

  /** Inserting `x` into a sorted sequence puts it after every entry with
      the same points. */
  lemma {:induction false} InsertIsStable(s: seq<ChartEntry>, x: ChartEntry, p: int)
    requires SortedByPointsDesc(s)
    ensures WithPoints(Insert(s, x), p) == WithPoints(s, p) + WithPoints([x], p)
  {
    if |s| == 0 {
      assert WithPoints([], p) == [];
      assert Insert(s, x) == [x];
    } else if s[0].points >= x.points {
      var t := s[1..];
      assert SortedByPointsDesc(t);
      InsertIsStable(t, x, p);
      assert Insert(s, x) == [s[0]] + Insert(t, x);
      WithPointsConcat([s[0]], Insert(t, x), p);
      WithPointsConcat([s[0]], t, p);
      assert [s[0]] + t == s;
    } else {
      InsertBeforeAll(s, x, p);
    }
  }

  /** The case of `InsertIsStable` where `x` goes in front. */
  lemma {:induction false} InsertBeforeAll(s: seq<ChartEntry>, x: ChartEntry, p: int)
    requires SortedByPointsDesc(s)
    requires |s| > 0 && s[0].points < x.points
    ensures WithPoints(Insert(s, x), p) == WithPoints(s, p) + WithPoints([x], p)
  {
    assert Insert(s, x) == [x] + s;
    WithPointsConcat([x], s, p);
    if x.points == p {
      forall k | 0 <= k < |s| ensures s[k].points != p {
        if k > 0 {
          assert s[0].points >= s[k].points;
        }
      }
      WithPointsNone(s, p);
    } else {
      assert WithPoints([x], p) == WithPoints([], p) + [];
    }
  }

  /** Stability: for every points value, the entries with that value come
      out in the order they went in. */
  lemma {:induction false} SortByPointsIsStable(s: seq<ChartEntry>, p: int)
    ensures WithPoints(SortByPoints(s), p) == WithPoints(s, p)
  {
    if |s| > 0 {
      var n := |s| - 1;
      SortByPointsIsStable(s[..n], p);
      SortByPointsSortsAndPermutes(s[..n]);
      InsertIsStable(SortByPoints(s[..n]), s[n], p);
    }
  }

  /** Sorting keeps the length, since no entry is added or dropped. */
  lemma SortByPointsLength(s: seq<ChartEntry>)
    ensures |SortByPoints(s)| == |s|
  {
    SortByPointsSortsAndPermutes(s);
    assert |multiset(SortByPoints(s))| == |multiset(s)|;
  }

  /** Where the insertion sort's inner loop stops: after the last entry
      that has at least `x.points`, all later ones having fewer. */
  lemma {:induction false} InsertAt(s: seq<ChartEntry>, x: ChartEntry, j: nat)
    requires SortedByPointsDesc(s)
    requires j <= |s|
    requires j == 0 || s[j - 1].points >= x.points
    requires forall k :: j <= k < |s| ==> s[k].points < x.points
    ensures Insert(s, x) == s[..j] + [x] + s[j..]
  {
    if j > 0 {
      InsertAt(s[1..], x, j - 1);
      assert s[..j] == [s[0]] + s[1..][..j - 1];
      assert s[j..] == s[1..][j - 1..];
    } else if |s| > 0 {
      assert s[0].points < x.points;
    }
  }

  /** Everything `save_chart_json` promises about the list it writes: one
      entry per record with the record's name and total, reordered into a
      stable sort by non-increasing points. */
  lemma ChartFacts(records: seq<DriverRecord>)
    ensures var entries, chart := ChartEntries(records), SortByPoints(ChartEntries(records));
      && |entries| == |records|
      && (forall i :: 0 <= i < |records| ==>
            entries[i] == ChartEntry(records[i].driver, records[i].totalPoints))
      && |chart| == |records|
      && multiset(chart) == multiset(entries)
      && SortedByPointsDesc(chart)
      && (forall p :: WithPoints(chart, p) == WithPoints(entries, p))
  {
    var entries := ChartEntries(records);
    SortByPointsSortsAndPermutes(entries);
    SortByPointsLength(entries);
    forall p ensures WithPoints(SortByPoints(entries), p) == WithPoints(entries, p) {
      SortByPointsIsStable(entries, p);
    }
  }

  // ---------------------------------------------------------------------
  // Implementation
  // ---------------------------------------------------------------------

  /** The chart writer's in-place stable sort of its list by points,
      highest first, as an insertion sort. */
  method SortInPlace(a: array<ChartEntry>)
    modifies a
    ensures a[..] == SortByPoints(old(a[..]))
  {
    ghost var input := a[..];
    var i := 0;
    while i < a.Length
      invariant 0 <= i <= a.Length
      invariant a[..i] == SortByPoints(input[..i])
      invariant a[i..] == input[i..]
    {
      SortByPointsSortsAndPermutes(input[..i]);
      assert a[i] == input[i] by {
        assert a[i..][0] == input[i..][0];
      }
      InsertIntoPrefix(a, i);
      assert input[..i + 1][..i] == input[..i];
      i := i + 1;
    }
    assert input[..i] == input;
  }

  /** One step of the insertion sort: moves `a[i]` to the left past the
      entries of the sorted prefix `a[..i]` that have fewer points, so that
      it lands after all entries with at least as many. */
  method InsertIntoPrefix(a: array<ChartEntry>, i: nat)
    requires i < a.Length
    requires SortedByPointsDesc(a[..i])
    modifies a
    ensures a[..i + 1] == Insert(old(a[..i]), old(a[i]))
    ensures a[i + 1..] == old(a[i + 1..])
  {
    var key := a[i];
    ghost var sorted := a[..i];
    var j := i;
    while j > 0 && a[j - 1].points < key.points
      invariant 0 <= j <= i
      invariant forall k :: 0 <= k < j ==> a[k] == sorted[k]
      invariant forall k :: j < k <= i ==> a[k] == sorted[k - 1]
      invariant forall k :: j <= k < i ==> sorted[k].points < key.points
      invariant forall k :: i < k < a.Length ==> a[k] == old(a[k])
    {
      a[j] := a[j - 1];
      j := j - 1;
    }
    a[j] := key;
    forall k | i < k < a.Length ensures a[k] == old(a[k]) { }
    assert a[i + 1..] == old(a[i + 1..]);
    ghost var t := a[..i + 1];
    assert forall k :: 0 <= k < j ==> t[k] == sorted[k];
    assert t[j] == key;
    assert forall k :: j < k < |t| ==> t[k] == sorted[k - 1];
    ShiftedIsInsert(sorted, key, j, t);
  }

  /** The array prefix the inner loop of the insertion sort leaves behind,
      the entries before `j` untouched, `x` at `j` and the rest shifted one
      place right, is the insertion of `x` into `s`. */
  lemma ShiftedIsInsert(s: seq<ChartEntry>, x: ChartEntry, j: nat, t: seq<ChartEntry>)
    requires SortedByPointsDesc(s)
    requires j <= |s| && |t| == |s| + 1
    requires j == 0 || s[j - 1].points >= x.points
    requires forall k :: j <= k < |s| ==> s[k].points < x.points
    requires forall k :: 0 <= k < j ==> t[k] == s[k]
    requires t[j] == x
    requires forall k :: j < k < |t| ==> t[k] == s[k - 1]
    ensures t == Insert(s, x)
  {
    InsertAt(s, x, j);
    assert t == s[..j] + [x] + s[j..];
  }

  /** `save_chart_json` without the file output: builds one entry per
      record, then sorts the list. */
  method BuildChartData(records: seq<DriverRecord>) returns (chart: seq<ChartEntry>)
    ensures chart == SortByPoints(ChartEntries(records))
  {
    var chartData := [];
    var i := 0;
    while i < |records|
      invariant 0 <= i <= |records|
      invariant chartData == ChartEntries(records[..i])
    {
      chartData := chartData + [ChartEntry(records[i].driver, records[i].totalPoints)];
      i := i + 1;
    }
    assert records[..i] == records;
    var a := new ChartEntry[|chartData|](k requires 0 <= k < |chartData| => chartData[k]);
    assert a[..] == chartData;
    SortInPlace(a);
    chart := a[..];
  }
}
