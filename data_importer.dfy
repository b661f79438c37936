/** DataImporter.py: the hourly base grid of a dataset, the restriction of an auxiliary
    series to that grid, nearest-in-time imputation, the left join with renamed
    columns, and the renaming of the NorKyst columns. */
module DataImporter {
  import opened Wrappers
  import opened Text
  import opened Calendar
  import opened Seqs
  import opened Series

  // ---------------------------------------------------------------------------
  // The hourly grid: `pd.date_range(start_time, end_time, freq="H")`
  // ---------------------------------------------------------------------------

  /** The hourly timeline from `start` up to `end`, on minute counts; empty when
      `end < start` (pandas returns an empty range rather than failing). */
  function HourlyGrid(start: int, end: int): (g: seq<int>)
    ensures |g| == if end < start then 0 else (end - start) / 60 + 1
    ensures forall i :: 0 <= i < |g| ==> g[i] == start + 60 * i
    decreases end - start
  {
    if end < start then [] else [start] + HourlyGrid(start + 60, end)
  }

  /** The grid of `constructDataset`, between two parsed command-line times. */
  function DatasetGrid(startTime: DateTime, endTime: DateTime): seq<int> {
    HourlyGrid(ToMinutes(startTime), ToMinutes(endTime))
  }

  /** The grid starts at `start`, its last point is at most `end` and less than an
      hour before it. */
  lemma HourlyGridBounds(start: int, end: int)
    requires start <= end
    ensures var g := HourlyGrid(start, end);
      && g[0] == start
      && g[|g| - 1] <= end < g[|g| - 1] + 60
  {
  }

  /** A time is on the grid exactly when it lies in `[start, end]` a whole number of
      hours after `start`. */
  lemma HourlyGridMembership(start: int, end: int, t: int)
    ensures t in HourlyGrid(start, end) <==> start <= t <= end && (t - start) % 60 == 0
  {
    var g := HourlyGrid(start, end);
    if start <= t <= end && (t - start) % 60 == 0 {
      var i := (t - start) / 60;
      assert g[i] == t;
    }
  }

  /** The documented example run `-S 2020-09-01T00:00 -E 2020-09-02T23:59` builds a
      48-hour grid. */
  lemma ExampleGridHas48Hours()
    ensures |DatasetGrid(DateTime(2020, 9, 1, 0, 0), DateTime(2020, 9, 2, 23, 59))| == 48
  {
    assert DayNumber(DateTime(2020, 9, 2, 23, 59)) == DayNumber(DateTime(2020, 9, 1, 0, 0)) + 1;
  }

  // ---------------------------------------------------------------------------
  // Restriction: `timeseries.loc[timeseries['referenceTime'].isin(data["time"])]`
  // ---------------------------------------------------------------------------

  /** The rows of `rows` whose time is among `times`, in their original order. */
  function Restrict(rows: seq<Row>, times: seq<int>): (r: seq<Row>)
    ensures |r| <= |rows|
    ensures forall x :: x in r <==> x in rows && x.time in times
  {
    if rows == [] then []
    else (if rows[0].time in times then [rows[0]] else []) + Restrict(rows[1..], times)
  }

  /** Restriction is a filter: it distributes over concatenation, so it keeps order. */
  lemma {:induction false} RestrictAppend(a: seq<Row>, b: seq<Row>, times: seq<int>)
    ensures Restrict(a + b, times) == Restrict(a, times) + Restrict(b, times)
  {
    if a != [] {
      assert (a + b)[1..] == a[1..] + b;
      RestrictAppend(a[1..], b, times);
    } else {
      assert a + b == b;
    }
  }

  /** Restricting a series with strictly increasing times keeps them strictly increasing. */
  lemma {:induction false} RestrictIncreasing(rows: seq<Row>, times: seq<int>)
    requires StrictlyIncreasing(Times(rows))
    ensures StrictlyIncreasing(Times(Restrict(rows, times)))
  {
    if rows != [] {
      IncreasingTail(rows);
      RestrictIncreasing(rows[1..], times);
      var tail := Restrict(rows[1..], times);
      if rows[0].time in times {
        forall j | 0 <= j < |tail| ensures rows[0].time < tail[j].time {
          assert tail[j] in rows[1..];
        }
        IncreasingCons(rows[0], tail);
      } else {
        assert Restrict(rows, times) == tail;
      }
    }
  }

  /** The rest of a strictly increasing series is strictly increasing and later than its
      first row. */
  lemma IncreasingTail(rows: seq<Row>)
    requires rows != [] && StrictlyIncreasing(Times(rows))
    ensures StrictlyIncreasing(Times(rows[1..]))
    ensures forall x :: x in rows[1..] ==> rows[0].time < x.time
  {
    forall i, j | 0 <= i < j < |rows| - 1 ensures Times(rows[1..])[i] < Times(rows[1..])[j] {
      assert Times(rows)[i + 1] < Times(rows)[j + 1];
    }
    forall x | x in rows[1..] ensures rows[0].time < x.time {
      var k :| 0 <= k < |rows| - 1 && rows[1..][k] == x;
      assert Times(rows)[0] < Times(rows)[k + 1];
    }
  }

  /** A row earlier than every row of a strictly increasing series extends it. */
  lemma IncreasingCons(x: Row, tail: seq<Row>)
    requires StrictlyIncreasing(Times(tail))
    requires forall j :: 0 <= j < |tail| ==> x.time < tail[j].time
    ensures StrictlyIncreasing(Times([x] + tail))
  {
    var r := [x] + tail;
    forall i, j | 0 <= i < j < |r| ensures Times(r)[i] < Times(r)[j] {
      if i > 0 {
        assert Times(r)[i] == Times(tail)[i - 1] && Times(r)[j] == Times(tail)[j - 1];
      }
    }
  }

  // ---------------------------------------------------------------------------
  // Nearest time: `timeseries.index.get_loc(t, method="nearest")`
  // ---------------------------------------------------------------------------

  /** `k` is the position pandas' nearest lookup answers for `t`: no position is
      nearer, and every later position is strictly farther. On a tie between the
      neighbours before and after `t`, pandas takes the later one. */
  ghost predicate IsNearest(times: seq<int>, t: int, k: int) {
    && 0 <= k < |times|
    && (forall j :: 0 <= j < |times| ==> Dist(times[k], t) <= Dist(times[j], t))
    && (forall j :: k < j < |times| ==> Dist(times[k], t) < Dist(times[j], t))
  }

  /** The nearest position is unique. */
  lemma NearestUnique(times: seq<int>, t: int, k1: int, k2: int)
    requires IsNearest(times, t, k1) && IsNearest(times, t, k2)
    ensures k1 == k2
  {
    assert Dist(times[k1], t) <= Dist(times[k2], t) <= Dist(times[k1], t);
  }

  /** `searchsorted(t, side="left")`: the first position holding a time `>= t`. */
  function FirstAtLeast(times: seq<int>, t: int): (k: nat)
    ensures k <= |times|
    ensures forall i :: 0 <= i < k ==> times[i] < t
    ensures k < |times| ==> t <= times[k]
  {
    if times == [] then 0
    else if t <= times[0] then 0
    else 1 + FirstAtLeast(times[1..], t)
  }

  /** pandas' nearest lookup on a unique, increasing index: it compares the last
      position at or before `t` with the first at or after, and keeps the earlier one
      only when it is strictly nearer. */
  function NearestIndex(times: seq<int>, t: int): (k: nat)
    requires |times| > 0 && StrictlyIncreasing(times)
    ensures IsNearest(times, t, k)
  {
    var a := FirstAtLeast(times, t);
    if a == |times| then
      |times| - 1
    else if times[a] == t || a == 0 then
      a
    else if t - times[a - 1] < times[a] - t then
      a - 1
    else
      a
  }

  // ---------------------------------------------------------------------------
  // Imputation: `imput_missing_data`
  // ---------------------------------------------------------------------------

  /** `data[~data["time"].isin(timeseries["referenceTime"])]["time"]`, in data order. */
  function Missing(dataTimes: seq<int>, sourceTimes: seq<int>): (m: seq<int>)
    ensures |m| <= |dataTimes|
    ensures forall t :: t in m <==> t in dataTimes && t !in sourceTimes
  {
    if dataTimes == [] then []
    else (if dataTimes[0] in sourceTimes then [] else [dataTimes[0]]) + Missing(dataTimes[1..], sourceTimes)
  }

  /** Without repetitions in the data times there are none among the missing ones. */
  lemma {:induction false} MissingDistinct(dataTimes: seq<int>, sourceTimes: seq<int>)
    requires Distinct(dataTimes)
    ensures Distinct(Missing(dataTimes, sourceTimes))
  {
    if dataTimes != [] {
      assert Distinct(dataTimes[1..]) by {
        forall i, j | 0 <= i < j < |dataTimes| - 1 ensures dataTimes[1..][i] != dataTimes[1..][j] {
          assert dataTimes[i + 1] != dataTimes[j + 1];
        }
      }
      MissingDistinct(dataTimes[1..], sourceTimes);
      var tail := Missing(dataTimes[1..], sourceTimes);
      assert dataTimes[0] !in dataTimes[1..];
      assert dataTimes[0] !in tail;
    }
  }

  /** One fill row: the nearest source row, relabelled to the missing time `t`. */
  function FillRow(t: int, source: seq<Row>): Row
    requires |source| > 0 && StrictlyIncreasing(Times(source))
  {
    Row(t, source[NearestIndex(Times(source), t)].cells)
  }

  function FillRows(missing: seq<int>, source: seq<Row>): seq<Row>
    requires |source| > 0 && StrictlyIncreasing(Times(source))
  {
    seq(|missing|, i requires 0 <= i < |missing| => FillRow(missing[i], source))
  }

  /** How `imput_missing_data` fails: `fill.set_index("referenceTime")` on an empty
      fill frame, or the nearest lookup on an empty or not strictly increasing index. */
  datatype ImputeError = NothingToFill | EmptySource | UnsortedSource

  /** `imput_missing_data(data, timeseries, ts)`: `ts` followed by one fill row per data
      time that `timeseries` lacks. */
  function Impute(dataTimes: seq<int>, source: seq<Row>, ts: seq<Row>): Result<seq<Row>, ImputeError> {
    var missing := Missing(dataTimes, Times(source));
    if missing == [] then Err(NothingToFill)
    else if source == [] then Err(EmptySource)
    else if !StrictlyIncreasing(Times(source)) then Err(UnsortedSource)
    else Ok(ts + FillRows(missing, source))
  }

  /** The loop of `imput_missing_data`: one nearest lookup per missing time, appending
      to the fill frame, which is then attached below `ts`. */
  method ImputeMissing(dataTimes: seq<int>, source: seq<Row>, ts: seq<Row>)
    returns (r: Result<seq<Row>, ImputeError>)
    ensures r == Impute(dataTimes, source, ts)
  {
    var missing := Missing(dataTimes, Times(source));
    var fill: seq<Row> := [];
    for i := 0 to |missing|
      invariant |fill| == i
      invariant i > 0 ==> |source| > 0 && StrictlyIncreasing(Times(source))
      invariant forall j :: 0 <= j < i ==> fill[j] == FillRow(missing[j], source)
    {
      if source == [] {
        return Err(EmptySource);
      }
      if !StrictlyIncreasing(Times(source)) {
        return Err(UnsortedSource);
      }
      var k := NearestIndex(Times(source), missing[i]);
      fill := fill + [Row(missing[i], source[k].cells)];
    }
    if fill == [] {
      return Err(NothingToFill);
    }
    assert fill == FillRows(missing, source);
    r := Ok(ts + fill);
  }

  /** What imputation returns: `ts` untouched, then for the i-th missing time a row
      labelled with it that copies the cells of the source row nearest to it. */
  lemma ImputeRows(dataTimes: seq<int>, source: seq<Row>, ts: seq<Row>)
    requires Impute(dataTimes, source, ts).Ok?
    ensures var r := Impute(dataTimes, source, ts).value;
      var m := Missing(dataTimes, Times(source));
      && |r| == |ts| + |m| && r[..|ts|] == ts
      && forall i :: 0 <= i < |m| ==>
           && r[|ts| + i].time == m[i]
           && exists k :: IsNearest(Times(source), m[i], k) && r[|ts| + i].cells == source[k].cells
  {
    var r := Impute(dataTimes, source, ts).value;
    var m := Missing(dataTimes, Times(source));
    forall i | 0 <= i < |m|
      ensures exists k :: IsNearest(Times(source), m[i], k) && r[|ts| + i].cells == source[k].cells
    {
      var k := NearestIndex(Times(source), m[i]);
      assert r[|ts| + i] == FillRow(m[i], source);
    }
  }

  /** A source time that is also a data time survives the restriction. */
  lemma RestrictKeepsTime(source: seq<Row>, times: seq<int>, t: int)
    requires t in Times(source) && t in times
    ensures t in Times(Restrict(source, times))
  {
    var k :| 0 <= k < |source| && source[k].time == t;
    var ts := Restrict(source, times);
    assert source[k] in ts;
    var j :| 0 <= j < |ts| && ts[j] == source[k];
    assert Times(ts)[j] == t;
  }

  /** The restricted series holds only data times that the source has. */
  lemma RestrictTimes(source: seq<Row>, times: seq<int>, t: int)
    requires t in Times(Restrict(source, times))
    ensures t in Times(source) && t in times
  {
    var ts := Restrict(source, times);
    var j :| 0 <= j < |ts| && ts[j].time == t;
    assert ts[j] in source;
    var k :| 0 <= k < |source| && source[k] == ts[j];
    assert Times(source)[k] == t;
  }

  /** The fill rows carry exactly the missing times, in order. */
  lemma FillTimes(missing: seq<int>, source: seq<Row>)
    requires |source| > 0 && StrictlyIncreasing(Times(source))
    ensures Times(FillRows(missing, source)) == missing
  {
  }

  lemma TimesAppend(a: seq<Row>, b: seq<Row>)
    ensures Times(a + b) == Times(a) + Times(b)
  {
  }

  /** The restricted series and the missing times together hold every data time. */
  lemma RestrictedAndMissingCover(dataTimes: seq<int>, source: seq<Row>)
    ensures forall t :: t in dataTimes ==>
      t in Times(Restrict(source, dataTimes)) + Missing(dataTimes, Times(source))
  {
    forall t | t in dataTimes
      ensures t in Times(Restrict(source, dataTimes)) + Missing(dataTimes, Times(source))
    {
      if t in Times(source) {
        RestrictKeepsTime(source, dataTimes, t);
      }
    }
  }

  /** The restricted series and the missing times never share a time. */
  lemma RestrictedAndMissingDistinct(dataTimes: seq<int>, source: seq<Row>)
    requires StrictlyIncreasing(Times(source))
    requires Distinct(dataTimes)
    ensures Distinct(Times(Restrict(source, dataTimes)) + Missing(dataTimes, Times(source)))
  {
    var ts := Restrict(source, dataTimes);
    var m := Missing(dataTimes, Times(source));
    RestrictIncreasing(source, dataTimes);
    IncreasingDistinct(Times(ts));
    MissingDistinct(dataTimes, Times(source));
    forall t | t in Times(ts) ensures t !in m {
      RestrictTimes(source, dataTimes, t);
    }
    DistinctAppend(Times(ts), m);
  }

  /** Imputation on a restricted series covers the whole grid: every data time has a
      row afterwards, and no time has two. */
  lemma ImputeCovers(dataTimes: seq<int>, source: seq<Row>)
    requires |source| > 0 && StrictlyIncreasing(Times(source))
    requires Distinct(dataTimes)
    requires Missing(dataTimes, Times(source)) != []
    ensures var r := Impute(dataTimes, source, Restrict(source, dataTimes));
      && r.Ok?
      && (forall t :: t in dataTimes ==> t in Times(r.value))
      && Distinct(Times(r.value))
  {
    var ts := Restrict(source, dataTimes);
    var m := Missing(dataTimes, Times(source));
    var fill := FillRows(m, source);
    assert Impute(dataTimes, source, ts) == Ok(ts + fill);
    TimesAppend(ts, fill);
    FillTimes(m, source);
    RestrictedAndMissingCover(dataTimes, source);
    RestrictedAndMissingDistinct(dataTimes, source);
  }

  /** A source that repeats a time hides a missing one from the count test: data times
      0 and 60 against two source rows at 0 give equal counts although 60 is missing. */
  lemma RowCountMissesRepeatedTimes()
    ensures var source := [Row(0, []), Row(0, [])];
      && |[0, 60]| == |Restrict(source, [0, 60])|
      && Missing([0, 60], Times(source)) == [60]
  {
    var source := [Row(0, []), Row(0, [])];
    assert Times(source) == [0, 0];
    assert Restrict(source, [0, 60]) == source;
  }

  /** `left_join` imputes when the data frame has more rows than the restricted series.
      With distinct data times and a source without repeated times this count test is
      exact: it fires precisely when some data time is missing from the source. */
  lemma RowCountDetectsMissing(dataTimes: seq<int>, source: seq<Row>)
    requires Distinct(dataTimes) && Distinct(Times(source))
    ensures |dataTimes| > |Restrict(source, dataTimes)| <==> Missing(dataTimes, Times(source)) != []
  {
    var ts := Restrict(source, dataTimes);
    RestrictDistinct(source, dataTimes);
    DistinctCard(dataTimes);
    DistinctCard(Times(ts));
    if Missing(dataTimes, Times(source)) == [] {
      assert ToSet(dataTimes) <= ToSet(Times(ts)) by {
        forall t | t in ToSet(dataTimes) ensures t in ToSet(Times(ts)) {
          RestrictKeepsTime(source, dataTimes, t);
        }
      }
      SubsetCard(ToSet(dataTimes), ToSet(Times(ts)));
    } else {
      var t := Missing(dataTimes, Times(source))[0];
      assert ToSet(Times(ts)) <= ToSet(dataTimes) - {t} by {
        forall u | u in ToSet(Times(ts)) ensures u in ToSet(dataTimes) - {t} {
          RestrictTimes(source, dataTimes, u);
        }
      }
      SubsetCard(ToSet(Times(ts)), ToSet(dataTimes) - {t});
    }
  }

  /** Restricting a series without repeated times leaves none. */
  lemma {:induction false} RestrictDistinct(rows: seq<Row>, times: seq<int>)
    requires Distinct(Times(rows))
    ensures Distinct(Times(Restrict(rows, times)))
  {
    if rows != [] {
      DistinctTail(rows);
      RestrictDistinct(rows[1..], times);
      var tail := Restrict(rows[1..], times);
      if rows[0].time in times {
        forall j | 0 <= j < |tail| ensures rows[0].time != tail[j].time {
          assert tail[j] in rows[1..];
        }
        DistinctCons(rows[0], tail);
      } else {
        assert Restrict(rows, times) == tail;
      }
    }
  }

  /** The rest of a series without repeated times has none, nor the first row's time. */
  lemma DistinctTail(rows: seq<Row>)
    requires rows != [] && Distinct(Times(rows))
    ensures Distinct(Times(rows[1..]))
    ensures forall x :: x in rows[1..] ==> rows[0].time != x.time
  {
    forall i, j | 0 <= i < j < |rows| - 1 ensures Times(rows[1..])[i] != Times(rows[1..])[j] {
      assert Times(rows)[i + 1] != Times(rows)[j + 1];
    }
    forall x | x in rows[1..] ensures rows[0].time != x.time {
      var k :| 0 <= k < |rows| - 1 && rows[1..][k] == x;
      assert Times(rows)[0] != Times(rows)[k + 1];
    }
  }

  /** A row whose time no row of a series has extends it without repetitions. */
  lemma DistinctCons(x: Row, tail: seq<Row>)
    requires Distinct(Times(tail))
    requires forall j :: 0 <= j < |tail| ==> x.time != tail[j].time
    ensures Distinct(Times([x] + tail))
  {
    var r := [x] + tail;
    forall i, j | 0 <= i < j < |r| ensures Times(r)[i] != Times(r)[j] {
      if i > 0 {
        assert Times(r)[i] == Times(tail)[i - 1] && Times(r)[j] == Times(tail)[j - 1];
      }
    }
  }

  /** A source time is its own nearest time: on a strictly increasing index the nearest
      lookup of a time the index holds is that time's position. */
  lemma NearestExact(times: seq<int>, k: int)
    requires StrictlyIncreasing(times) && 0 <= k < |times|
    ensures NearestIndex(times, times[k]) == k
  {
    assert IsNearest(times, times[k], k);
    NearestUnique(times, times[k], k, NearestIndex(times, times[k]));
  }

  // ---------------------------------------------------------------------------
  // The prepared series of `left_join`
  // ---------------------------------------------------------------------------

  /** `ts` as `left_join` hands it to the merge: the restriction to the data times,
      imputed when the data frame has more rows than the restriction. */
  function Prepared(dataTimes: seq<int>, source: seq<Row>): Result<seq<Row>, ImputeError> {
    var ts := Restrict(source, dataTimes);
    if |dataTimes| > |ts| then Impute(dataTimes, source, ts) else Ok(ts)
  }

  /** The prepared series keeps the width of the source rows. */
  lemma PreparedWidth(dataTimes: seq<int>, source: seq<Row>, n: nat)
    requires HasWidth(source, n)
    requires Prepared(dataTimes, source).Ok?
    ensures HasWidth(Prepared(dataTimes, source).value, n)
  {
    var p := Prepared(dataTimes, source).value;
    var ts := Restrict(source, dataTimes);
    forall i | 0 <= i < |p| ensures |p[i].cells| == n {
      if i < |ts| {
        assert p[i] == ts[i];
        assert ts[i] in source;
      }
    }
  }

  /** Every row of a restricted series copies the cells of the source row nearest to its
      time, that is, of the source row at that very time. */
  lemma RestrictedCells(source: seq<Row>, dataTimes: seq<int>, i: int)
    requires |source| > 0 && StrictlyIncreasing(Times(source))
    requires 0 <= i < |Restrict(source, dataTimes)|
    ensures var row := Restrict(source, dataTimes)[i];
      row.cells == source[NearestIndex(Times(source), row.time)].cells
  {
    var row := Restrict(source, dataTimes)[i];
    assert row in source;
    var k :| 0 <= k < |source| && source[k] == row;
    assert Times(source)[k] == row.time;
    NearestExact(Times(source), k);
  }

  /** With distinct data times and a non-empty, increasing source, `left_join` always
      prepares a series: it has one row per data time and no other time, and every row
      carries the cells of the source row nearest to its time (the exact row when the
      source has that time). */
  lemma PreparedCovers(dataTimes: seq<int>, source: seq<Row>)
    requires |source| > 0 && StrictlyIncreasing(Times(source))
    requires Distinct(dataTimes)
    ensures Prepared(dataTimes, source).Ok?
    ensures var p := Prepared(dataTimes, source).value;
      && Distinct(Times(p))
      && (forall t :: t in dataTimes ==> t in Times(p))
      && (forall i :: 0 <= i < |p| ==> p[i].cells == source[NearestIndex(Times(source), p[i].time)].cells)
  {
    var ts := Restrict(source, dataTimes);
    var m := Missing(dataTimes, Times(source));
    IncreasingDistinct(Times(source));
    RowCountDetectsMissing(dataTimes, source);
    var p := Prepared(dataTimes, source).value;
    if |dataTimes| > |ts| {
      ImputeCovers(dataTimes, source);
      assert p == ts + FillRows(m, source);
      forall i | 0 <= i < |p|
        ensures p[i].cells == source[NearestIndex(Times(source), p[i].time)].cells
      {
        if i < |ts| {
          RestrictedCells(source, dataTimes, i);
        } else {
          assert p[i] == FillRow(m[i - |ts|], source);
        }
      }
    } else {
      assert p == ts;
      forall t | t in dataTimes ensures t in Times(p) {
        assert t !in m;
        RestrictKeepsTime(source, dataTimes, t);
      }
      RestrictIncreasing(source, dataTimes);
      IncreasingDistinct(Times(ts));
      forall i | 0 <= i < |p|
        ensures p[i].cells == source[NearestIndex(Times(source), p[i].time)].cells
      {
        RestrictedCells(source, dataTimes, i);
      }
    }
  }

  // ---------------------------------------------------------------------------
  // Column selection: `[s for s in ts.columns if param.lower() in s]`
  // ---------------------------------------------------------------------------

  /** Positions, from `from` on, of the columns whose name contains `key`. */
  function ParamColumnsFrom(columns: seq<string>, key: string, from: nat): (r: seq<nat>)
    requires from <= |columns|
    ensures forall j :: 0 <= j < |r| ==> from <= r[j] < |columns|
    ensures forall i :: i in r <==> from <= i < |columns| && Contains(columns[i], key)
    ensures StrictlyIncreasing(r)
    decreases |columns| - from
  {
    if from == |columns| then []
    else
      var rest := ParamColumnsFrom(columns, key, from + 1);
      if Contains(columns[from], key) then [from] + rest else rest
  }

  /** The positions of the columns whose name contains `key`, in column order. */
  function ParamColumns(columns: seq<string>, key: string): (r: seq<nat>)
    ensures forall j :: 0 <= j < |r| ==> r[j] < |columns|
    ensures forall i :: i in r <==> 0 <= i < |columns| && Contains(columns[i], key)
    ensures StrictlyIncreasing(r)
  {
    ParamColumnsFrom(columns, key, 0)
  }

  /** The cells at positions `cols`, in that order. */
  function Project(cells: seq<Cell>, cols: seq<nat>): (r: seq<Cell>)
    requires forall j :: 0 <= j < |cols| ==> cols[j] < |cells|
    ensures |r| == |cols|
  {
    seq(|cols|, j requires 0 <= j < |cols| => cells[cols[j]])
  }

  function ProjectRows(rows: seq<Row>, cols: seq<nat>, width: nat): seq<Row>
    requires HasWidth(rows, width)
    requires forall j :: 0 <= j < |cols| ==> cols[j] < width
  {
    seq(|rows|, i requires 0 <= i < |rows| => Row(rows[i].time, Project(rows[i].cells, cols)))
  }

  function Select(names: seq<string>, cols: seq<nat>): seq<string>
    requires forall j :: 0 <= j < |cols| ==> cols[j] < |names|
  {
    seq(|cols|, j requires 0 <= j < |cols| => names[cols[j]])
  }

  // ---------------------------------------------------------------------------
  // The left merge: `pd.merge(data, ts, how="left", on="time")`
  // ---------------------------------------------------------------------------

  /** The cells of a joined row without a match: all NaN. */
  function Absent(width: nat): (c: seq<Cell>)
    ensures |c| == width && forall j :: 0 <= j < width ==> c[j] == None
  {
    seq(width, _ => None)
  }

  /** The rows one base row contributes: one per matching right row, in right order,
      or a single row with absent values when nothing matches. */
  function MergeRow(b: Row, matches: seq<Row>, width: nat): seq<Row> {
    if matches == [] then [Row(b.time, b.cells + Absent(width))]
    else seq(|matches|, j requires 0 <= j < |matches| => Row(b.time, b.cells + matches[j].cells))
  }

  /** A left merge on time, in base order. */
  function LeftMerge(base: seq<Row>, right: seq<Row>, width: nat): seq<Row> {
    if base == [] then []
    else MergeRow(base[0], Restrict(right, [base[0].time]), width) + LeftMerge(base[1..], right, width)
  }

  /** Against a series without repeated times, a time matches at most one row, and one
      exactly when the series has that time. */
  lemma MatchUnique(right: seq<Row>, t: int)
    requires Distinct(Times(right))
    ensures var ms := Restrict(right, [t]);
      && |ms| <= 1
      && (|ms| == 1 <==> t in Times(right))
  {
    var ms := Restrict(right, [t]);
    RestrictDistinct(right, [t]);
    DistinctCard(Times(ms));
    assert ToSet(Times(ms)) <= {t} by {
      forall u | u in ToSet(Times(ms)) ensures u == t {
        var j :| 0 <= j < |ms| && Times(ms)[j] == u;
        assert ms[j] in ms;
      }
    }
    SubsetCard(ToSet(Times(ms)), {t});
    if t in Times(right) {
      RestrictKeepsTime(right, [t], t);
    }
    if |ms| == 1 {
      assert ms[0] in ms;
      var k :| 0 <= k < |right| && right[k] == ms[0];
      assert Times(right)[k] == t;
    }
  }

  /** The single row a base row contributes against a series without repeated times. */
  lemma MergeRowUnique(b: Row, right: seq<Row>, width: nat)
    requires Distinct(Times(right))
    ensures var head := MergeRow(b, Restrict(right, [b.time]), width);
      && |head| == 1
      && head[0].time == b.time
      && (b.time !in Times(right) ==> head[0].cells == b.cells + Absent(width))
      && (forall k :: 0 <= k < |right| && right[k].time == b.time ==>
            head[0].cells == b.cells + right[k].cells)
  {
    var ms := Restrict(right, [b.time]);
    MatchUnique(right, b.time);
    forall k | 0 <= k < |right| && right[k].time == b.time
      ensures ms[0] == right[k]
    {
      assert right[k] in ms;
    }
  }

  /** Merging against a series without repeated times keeps the base frame: one row per
      base row, in base order, with its time and cells, followed by the cells of the row
      with the same time or, without one, absent values. */
  lemma {:induction false} LeftMergeUnique(base: seq<Row>, right: seq<Row>, width: nat)
    requires Distinct(Times(right))
    ensures var r := LeftMerge(base, right, width);
      && |r| == |base|
      && forall i :: 0 <= i < |base| ==>
           && r[i].time == base[i].time
           && (base[i].time !in Times(right) ==> r[i].cells == base[i].cells + Absent(width))
           && (forall k :: 0 <= k < |right| && right[k].time == base[i].time ==>
                 r[i].cells == base[i].cells + right[k].cells)
  {
    if base != [] {
      LeftMergeUnique(base[1..], right, width);
      MergeRowUnique(base[0], right, width);
      var head := MergeRow(base[0], Restrict(right, [base[0].time]), width);
      var tail := LeftMerge(base[1..], right, width);
      var r := LeftMerge(base, right, width);
      assert r == head + tail;
      forall i | 0 <= i < |base|
        ensures r[i].time == base[i].time
        ensures base[i].time !in Times(right) ==> r[i].cells == base[i].cells + Absent(width)
        ensures forall k :: 0 <= k < |right| && right[k].time == base[i].time ==>
                  r[i].cells == base[i].cells + right[k].cells
      {
        if i > 0 {
          assert r[i] == tail[i - 1] && base[i] == base[1..][i - 1];
        }
      }
    }
  }

  // ---------------------------------------------------------------------------
  // Renaming the joined columns: `data.rename(columns={cols_param[i]: station_id+param+str(i)})`
  // ---------------------------------------------------------------------------

  /** The name of the i-th joined column of a station and element. */
  function JoinedName(stationId: string, param: string, i: nat): string {
    stationId + param + NatToString(i)
  }

  /** `rename(columns={from: to})`: every column named `from` is renamed. */
  function Rename(names: seq<string>, from: string, to: string): (r: seq<string>)
    ensures |r| == |names|
  {
    seq(|names|, i requires 0 <= i < |names| => if names[i] == from then to else names[i])
  }

  /** The first `n` renames of the loop, applied in order. */
  function RenameSteps(names: seq<string>, selected: seq<string>, stationId: string, param: string, n: nat): (r: seq<string>)
    requires n <= |selected|
    ensures |r| == |names|
  {
    if n == 0 then names
    else Rename(RenameSteps(names, selected, stationId, param, n - 1), selected[n - 1], JoinedName(stationId, param, n - 1))
  }

  /** The rename loop of `left_join`, one `rename` per selected column. */
  method RenameJoinedColumns(names: seq<string>, selected: seq<string>, stationId: string, param: string)
    returns (r: seq<string>)
    ensures r == RenameSteps(names, selected, stationId, param, |selected|)
  {
    r := names;
    for i := 0 to |selected|
      invariant r == RenameSteps(names, selected, stationId, param, i)
    {
      var to := JoinedName(stationId, param, i);
      r := seq(|r|, j requires 0 <= j < |r| => if r[j] == selected[i] then to else r[j]);
    }
  }

  function JoinedNames(stationId: string, param: string, n: nat): (r: seq<string>)
    ensures |r| == n
  {
    seq(n, i requires 0 <= i < n => JoinedName(stationId, param, i))
  }

  /** When the selected names are distinct, clash neither with the base columns nor with
      the new names, the loop leaves the base columns alone and gives the i-th joined
      column the name `station_id + param + str(i)`. */
  lemma RenamedColumns(base: seq<string>, selected: seq<string>, stationId: string, param: string)
    requires Distinct(selected)
    requires forall s :: s in selected ==> s !in base
    requires forall s, i :: s in selected && 0 <= i < |selected| ==> s != JoinedName(stationId, param, i)
    ensures RenameSteps(base + selected, selected, stationId, param, |selected|)
         == base + JoinedNames(stationId, param, |selected|)
  {
    RenamedPrefix(base, selected, stationId, param, |selected|);
    assert selected[|selected|..] == [];
  }

  lemma {:induction false} RenamedPrefix(base: seq<string>, selected: seq<string>, stationId: string, param: string, n: nat)
    requires n <= |selected|
    requires Distinct(selected)
    requires forall s :: s in selected ==> s !in base
    requires forall s, i :: s in selected && 0 <= i < |selected| ==> s != JoinedName(stationId, param, i)
    ensures RenameSteps(base + selected, selected, stationId, param, n)
         == base + JoinedNames(stationId, param, n) + selected[n..]
  {
    if n > 0 {
      RenamedPrefix(base, selected, stationId, param, n - 1);
      var prev := base + JoinedNames(stationId, param, n - 1) + selected[n - 1..];
      var next := base + JoinedNames(stationId, param, n) + selected[n..];
      var r := Rename(prev, selected[n - 1], JoinedName(stationId, param, n - 1));
      forall j | 0 <= j < |r| ensures r[j] == next[j] {
        if j < |base| {
          assert prev[j] == base[j];
          assert selected[n - 1] in selected;
        } else if j < |base| + n - 1 {
          assert prev[j] == JoinedName(stationId, param, j - |base|);
          assert selected[n - 1] in selected;
        } else if j > |base| + n - 1 {
          assert prev[j] == selected[j - |base|];
        }
      }
    }
  }

  // ---------------------------------------------------------------------------
  // `left_join`
  // ---------------------------------------------------------------------------

  /** `left_join(timeseries, station_id, param, data)`: the prepared series, reduced to
      the columns whose name contains `param.lower()`, merged onto `data` on time, and
      its columns renamed. */
  function LeftJoinResult(data: Table, timeseries: Table, stationId: string, param: string): Result<Table, ImputeError>
    requires WellFormed(timeseries)
  {
    match Prepared(Times(data.rows), timeseries.rows)
    case Err(e) => Err(e)
    case Ok(ts) =>
      PreparedWidth(Times(data.rows), timeseries.rows, |timeseries.columns|);
      var cols := ParamColumns(timeseries.columns, Lower(param));
      var selected := Select(timeseries.columns, cols);
      Ok(Table(RenameSteps(data.columns + selected, selected, stationId, param, |selected|),
               LeftMerge(data.rows, ProjectRows(ts, cols, |timeseries.columns|), |cols|)))
  }

  /** The statement sequence of `left_join`. */
  method LeftJoin(data: Table, timeseries: Table, stationId: string, param: string)
    returns (r: Result<Table, ImputeError>)
    requires WellFormed(timeseries)
    ensures r == LeftJoinResult(data, timeseries, stationId, param)
  {
    var dataTimes := Times(data.rows);
    var ts := Restrict(timeseries.rows, dataTimes);
    if |dataTimes| > |ts| {
      var imputed := ImputeMissing(dataTimes, timeseries.rows, ts);
      if imputed.Err? {
        return Err(imputed.error);
      }
      ts := imputed.value;
    }
    PreparedWidth(dataTimes, timeseries.rows, |timeseries.columns|);
    var cols := ParamColumns(timeseries.columns, Lower(param));
    var selected := Select(timeseries.columns, cols);
    var rows := LeftMerge(data.rows, ProjectRows(ts, cols, |timeseries.columns|), |cols|);
    var names := RenameJoinedColumns(data.columns + selected, selected, stationId, param);
    r := Ok(Table(names, rows));
  }

  /** With distinct data times and a non-empty source sorted by time, `left_join`
      succeeds and keeps `data`: the same rows in the same order with their times and
      cells, each followed by the selected cells of the source row nearest to its time
      (the source row at that time when there is one). */
  lemma LeftJoinComplete(data: Table, timeseries: Table, stationId: string, param: string)
    requires WellFormed(timeseries)
    requires Distinct(Times(data.rows))
    requires |timeseries.rows| > 0 && StrictlyIncreasing(Times(timeseries.rows))
    ensures var r := LeftJoinResult(data, timeseries, stationId, param);
      var source := timeseries.rows;
      var cols := ParamColumns(timeseries.columns, Lower(param));
      && r.Ok?
      && |r.value.rows| == |data.rows|
      && forall i :: 0 <= i < |data.rows| ==>
           && r.value.rows[i].time == data.rows[i].time
           && r.value.rows[i].cells
              == data.rows[i].cells + Project(source[NearestIndex(Times(source), data.rows[i].time)].cells, cols)
  {
    var source := timeseries.rows;
    var dataTimes := Times(data.rows);
    PreparedCovers(dataTimes, source);
    PreparedWidth(dataTimes, source, |timeseries.columns|);
    var p := Prepared(dataTimes, source).value;
    var cols := ParamColumns(timeseries.columns, Lower(param));
    var right := ProjectRows(p, cols, |timeseries.columns|);
    assert Times(right) == Times(p);
    LeftMergeUnique(data.rows, right, |cols|);
    var merged := LeftMerge(data.rows, right, |cols|);
    forall i | 0 <= i < |data.rows|
      ensures merged[i].cells
              == data.rows[i].cells + Project(source[NearestIndex(Times(source), data.rows[i].time)].cells, cols)
    {
      var t := data.rows[i].time;
      assert t == dataTimes[i];
      assert t in Times(p);
      var k :| 0 <= k < |p| && Times(p)[k] == t;
      assert right[k].time == t;
      assert right[k].cells == Project(p[k].cells, cols);
    }
  }

  // ---------------------------------------------------------------------------
  // The NorKyst columns: `c.replace("temperature", "norkyst_water_temp")`
  // ---------------------------------------------------------------------------

  predicate IsTemperatureLabel(l: Label) {
    l.Name? && StartsWith(l.s, "temperature")
  }

  /** The label a NorKyst column ends up with: string labels starting with
      `temperature` have every `temperature` replaced; all others are kept. */
  function NorKystLabel(l: Label): Label {
    if IsTemperatureLabel(l) then Name(ReplaceAll(l.s, "temperature", "norkyst_water_temp")) else l
  }

  /** A renamed label starts with `norkyst_water_temp`; when `temperature` occurs only
      at the start, the rest of the name is kept as it is. */
  lemma NorKystLabelRenamed(s: string)
    requires StartsWith(s, "temperature")
    ensures StartsWith(NorKystLabel(Name(s)).s, "norkyst_water_temp")
    ensures !Contains(s[11..], "temperature") ==> NorKystLabel(Name(s)) == Name("norkyst_water_temp" + s[11..])
  {
    var rest := ReplaceAll(s[11..], "temperature", "norkyst_water_temp");
    assert ReplaceAll(s, "temperature", "norkyst_water_temp") == "norkyst_water_temp" + rest;
    if !Contains(s[11..], "temperature") {
      ReplaceAllAbsent(s[11..], "temperature", "norkyst_water_temp");
    }
  }

  /** No label is renamed onto a `temperature` label, so a later rename in the loop
      never catches a column an earlier one produced. */
  lemma NorKystLabelNotTemperature(l: Label, c: Label)
    requires IsTemperatureLabel(c)
    ensures NorKystLabel(l) != c
  {
    if IsTemperatureLabel(l) {
      NorKystLabelRenamed(l.s);
      assert NorKystLabel(l).s[0] == 'n' && c.s[0] == 't';
    }
  }

  /** The rename loop of `constructDataset` over the NorKyst columns, one `rename` per
      original column label; it renames every column as `NorKystLabel` says. */
  method RenameNorKystColumns(labels: seq<Label>) returns (r: seq<Label>)
    ensures |r| == |labels|
    ensures forall j :: 0 <= j < |labels| ==> r[j] == NorKystLabel(labels[j])
  {
    r := labels;
    for i := 0 to |labels|
      invariant |r| == |labels|
      invariant forall j :: 0 <= j < |labels| ==>
        r[j] == if labels[j] in labels[..i] then NorKystLabel(labels[j]) else labels[j]
    {
      var c := labels[i];
      assert labels[..i + 1] == labels[..i] + [c];
      if c.Name? && StartsWith(c.s, "temperature") {
        var renamed := Name(ReplaceAll(c.s, "temperature", "norkyst_water_temp"));
        forall j | 0 <= j < |labels| ensures NorKystLabel(labels[j]) != c {
          NorKystLabelNotTemperature(labels[j], c);
        }
        r := seq(|r|, j requires 0 <= j < |r| => if r[j] == c then renamed else r[j]);
      }
    }
    assert labels[..|labels|] == labels;
  }
}
