/** NorKystImporter.py: the daily file list of the NorKyst-800 archive, the choice of
    the grid cell, the depth and time indices, and the stitching of the files' time
    series into one. */
module NorKystImporter {
  import opened Wrappers
  import opened Text
  import opened Calendar
  import opened Seqs
  import opened Series

  // ---------------------------------------------------------------------------
  // `daterange`
  // ---------------------------------------------------------------------------

  /** `(end_date - start_date).days`: whole days between the two times, rounded down. */
  function WholeDays(start: DateTime, end: DateTime): int {
    (ToMinutes(end) - ToMinutes(start)) / 1440
  }

  /** `daterange(start_date, end_date)` as written: `(end - start).days + 1` dates from
      `start_date.date()` on. */
  function DateRangeAsWritten(start: DateTime, end: DateTime): (ds: seq<Date>)
    ensures |ds| == if WholeDays(start, end) < 0 then 0 else WholeDays(start, end) + 1
  {
    var n := WholeDays(start, end) + 1;
    if n <= 0 then [] else seq(n, i requires 0 <= i < n => AddDays(DateOf(start), i))
  }

  /** The dates from `start_date.date()` to `end_date.date()`, both included: what the
      comments beside `daterange` and in `norkyst_filenames` ask for. */
  function DateRange(start: DateTime, end: DateTime): (ds: seq<Date>)
    ensures |ds| == if DayNumber(end) < DayNumber(start) then 0 else DayNumber(end) - DayNumber(start) + 1
  {
    var n := DayNumber(end) - DayNumber(start) + 1;
    if n <= 0 then [] else seq(n, i requires 0 <= i < n => AddDays(DateOf(start), i))
  }

  /** The i-th date of a range is the i-th day after the start date: a calendar date,
      no earlier in years, numbered `DayNumber(start) + i`. */
  lemma DateRangeDays(start: DateTime, end: DateTime)
    requires Valid(start)
    ensures var ds := DateRange(start, end);
      forall i :: 0 <= i < |ds| ==>
        && CalendarDate(ds[i]) && ds[i].year >= start.year
        && DateNumber(ds[i]) == DayNumber(start) + i
  {
    var ds := DateRange(start, end);
    forall i | 0 <= i < |ds|
      ensures CalendarDate(ds[i]) && ds[i].year >= start.year && DateNumber(ds[i]) == DayNumber(start) + i
    {
      AddDaysNumber(DateOf(start), i);
    }
  }

  /** The corrected range ends on the end time's date, and the written one is a prefix
      of it that is all of it exactly when the end's time of day is not earlier than the
      start's. */
  lemma DateRangeAsWrittenPrefix(start: DateTime, end: DateTime)
    requires Valid(start) && Valid(end) && DayNumber(start) <= DayNumber(end)
    ensures var ds := DateRange(start, end);
      && DateNumber(ds[|ds| - 1]) == DayNumber(end)
      && DateRangeAsWritten(start, end) <= ds
      && (DateRangeAsWritten(start, end) == ds
          <==> end.hour * 60 + end.minute >= start.hour * 60 + start.minute)
  {
    DateRangeDays(start, end);
    var ds := DateRange(start, end);
    var ws := DateRangeAsWritten(start, end);
    var tS := start.hour * 60 + start.minute;
    var tE := end.hour * 60 + end.minute;
    var span := DayNumber(end) - DayNumber(start);
    assert ToMinutes(end) - ToMinutes(start) == span * 1440 + (tE - tS);
    assert WholeDays(start, end) == if tE >= tS then span else span - 1;
    assert |ws| == if tE >= tS then |ds| else |ds| - 1;
  }

  /** Counterexample: from 2020-09-01T12:00 to 2020-09-02T06:00 the written range holds
      only 2020-09-01, so the file of 2020-09-02, which holds the last six hours, is
      never read. The corrected range holds both days. */
  lemma DateRangeMissesEndDay()
    ensures DateRangeAsWritten(DateTime(2020, 9, 1, 12, 0), DateTime(2020, 9, 2, 6, 0)) == [Date(2020, 9, 1)]
    ensures DateRange(DateTime(2020, 9, 1, 12, 0), DateTime(2020, 9, 2, 6, 0)) == [Date(2020, 9, 1), Date(2020, 9, 2)]
  {
    var s := DateTime(2020, 9, 1, 12, 0);
    var e := DateTime(2020, 9, 2, 6, 0);
    assert DayNumber(e) == DayNumber(s) + 1;
    assert WholeDays(s, e) == 0;
    assert AddDays(Date(2020, 9, 1), 1) == Date(2020, 9, 2);
  }

  // ---------------------------------------------------------------------------
  // `norkyst_filenames`
  // ---------------------------------------------------------------------------

  const ArchivePrefix: string := "https://thredds.met.no/thredds/dodsC/fou-hi/norkyst800m-1h/NorKyst-800m_ZDEPTHS_his.an."

  /** `strftime(".../NorKyst-800m_ZDEPTHS_his.an.%Y%m%d00.nc")`. */
  function Filename(d: Date): (s: string)
    requires d.year >= 0 && d.month >= 0 && d.day >= 0
  {
    ArchivePrefix + Pad(d.year, 4) + Pad(d.month, 2) + Pad(d.day, 2) + "00.nc"
  }

  /** Reads the date back from a file name of the archive. */
  function ParseFilename(s: string): Option<Date> {
    var p := |ArchivePrefix|;
    if |s| == p + 13 && s[..p] == ArchivePrefix && s[p + 8..] == "00.nc"
       && AllDigits(s[p..p + 4]) && AllDigits(s[p + 4..p + 6]) && AllDigits(s[p + 6..p + 8])
    then Some(Date(Decimal(s[p..p + 4]), Decimal(s[p + 4..p + 6]), Decimal(s[p + 6..p + 8])))
    else None
  }

  /** A file name names its date: distinct dates have distinct files. */
  lemma ParseFilenameOf(d: Date)
    requires 0 <= d.year <= 9999 && CalendarDate(d)
    ensures ParseFilename(Filename(d)) == Some(d)
  {
    var s := Filename(d);
    var p := |ArchivePrefix|;
    assert s[..p] == ArchivePrefix;
    assert s[p..p + 4] == Pad(d.year, 4);
    assert s[p + 4..p + 6] == Pad(d.month, 2);
    assert s[p + 6..p + 8] == Pad(d.day, 2);
    assert s[p + 8..] == "00.nc";
    assert Pow10(2) == 100 && Pow10(4) == 10000;
    DecimalOfPad(d.year, 4);
    DecimalOfPad(d.month, 2);
    DecimalOfPad(d.day, 2);
  }

  /** The file names of a period, one per date, in date order. */
  function Filenames(start: DateTime, end: DateTime): (fs: seq<string>)
    requires Valid(start)
    ensures |fs| == |DateRange(start, end)|
  {
    var ds := DateRange(start, end);
    DateRangeDays(start, end);
    seq(|ds|, i requires 0 <= i < |ds| => Filename(ds[i]))
  }

  /** The loop of `norkyst_filenames` over the dates of the period. */
  method BuildFilenames(start: DateTime, end: DateTime) returns (fs: seq<string>)
    requires Valid(start)
    ensures fs == Filenames(start, end)
  {
    var ds := DateRange(start, end);
    DateRangeDays(start, end);
    fs := [];
    for i := 0 to |ds|
      invariant |fs| == i
      invariant forall j :: 0 <= j < i ==> fs[j] == Filename(ds[j])
    {
      var singleDate := AddDays(DateOf(start), i);
      assert singleDate == ds[i];
      fs := fs + [Filename(singleDate)];
    }
  }

  // ---------------------------------------------------------------------------
  // Dropping the leading files that do not open
  // ---------------------------------------------------------------------------

  /** A netCDF variable over (time, depth, y, x). */
  type Variable = seq<seq<seq<seq<Cell>>>>

  /** A time value as `num2date` gives it. */
  datatype CfTime = CfTime(year: int, month: int, day: int, hour: int, minute: int, second: int)

  /** One file of the archive: its time axis, its depth levels, the projected grid
      coordinates and the bathymetry `h` (rows are `y`, columns `x`), and its variables. */
  datatype NcFile = NcFile(
    times: seq<CfTime>,
    depths: seq<int>,
    x: seq<seq<int>>,
    y: seq<seq<int>>,
    h: seq<seq<int>>,
    variables: map<string, Variable>)

  /** The archive: the files `netCDF4.Dataset` can open, by name. */
  type Archive = map<string, NcFile>

  /** The file list after the `while testing` loop: the leading names that do not open
      are removed; no list when none opens (`pop` on an empty list raises). */
  function FirstOpenable(fs: seq<string>, archive: Archive): Option<seq<string>> {
    if fs == [] then None
    else if fs[0] in archive then Some(fs)
    else FirstOpenable(fs[1..], archive)
  }

  /** The `while testing` loop of `norkyst_filenames`. */
  method DropUnopenable(filenames: seq<string>, archive: Archive) returns (r: Option<seq<string>>)
    ensures r == FirstOpenable(filenames, archive)
  {
    var fs := filenames;
    var testing := true;
    while testing
      invariant FirstOpenable(fs, archive) == FirstOpenable(filenames, archive)
      invariant !testing ==> fs != [] && fs[0] in archive
      decreases |fs|, testing
    {
      if fs == [] {
        return None;
      }
      if fs[0] in archive {
        testing := false;
      } else {
        fs := fs[1..];
      }
    }
    r := Some(fs);
  }

  /** Only leading names are removed, and only names that do not open: the result is a
      suffix of the list whose first name opens; there is none exactly when no name
      opens. */
  lemma {:induction false} FirstOpenableSpec(fs: seq<string>, archive: Archive)
    ensures FirstOpenable(fs, archive).None? <==> forall i :: 0 <= i < |fs| ==> fs[i] !in archive
    ensures FirstOpenable(fs, archive).Some? ==>
      var r := FirstOpenable(fs, archive).value;
      && 0 < |r| <= |fs| && r[0] in archive
      && r == fs[|fs| - |r|..]
      && forall i :: 0 <= i < |fs| - |r| ==> fs[i] !in archive
  {
    if fs != [] && fs[0] !in archive {
      FirstOpenableSpec(fs[1..], archive);
      forall i | 0 < i < |fs| ensures fs[i] == fs[1..][i - 1] {
      }
    }
  }

  // ---------------------------------------------------------------------------
  // The grid cell: argmin of the land-penalised squared distance
  // ---------------------------------------------------------------------------

  /** The `1e12` added to the distance of land cells. */
  const LandPenalty: int := 1_000_000_000_000

  predicate Shaped(g: seq<seq<int>>, ny: nat, nx: nat) {
    |g| == ny && forall i :: 0 <= i < ny ==> |g[i]| == nx
  }

  /** The three grids have one shape with at least one cell. */
  predicate GridShaped(f: NcFile) {
    |f.h| > 0 && |f.h[0]| > 0
    && Shaped(f.h, |f.h|, |f.h[0]|) && Shaped(f.x, |f.h|, |f.h[0]|) && Shaped(f.y, |f.h|, |f.h[0]|)
  }

  /** Cell `(i, j)` comes before cell `(k, l)` in numpy's row-major order. */
  predicate RowMajorBefore(i: int, j: int, k: int, l: int) {
    i < k || (i == k && j < l)
  }

  /** `argmin` of a two-dimensional array followed by `np.unravel_index`: the first
      cell, in row-major order, holding the smallest value. */
  function GridArgmin(g: seq<seq<int>>): (c: (nat, nat))
    requires |g| > 0 && forall i :: 0 <= i < |g| ==> |g[i]| > 0
    ensures c.0 < |g| && c.1 < |g[c.0]|
    ensures forall i, j :: 0 <= i < |g| && 0 <= j < |g[i]| ==> g[c.0][c.1] <= g[i][j]
    ensures forall i, j :: 0 <= i < |g| && 0 <= j < |g[i]| && RowMajorBefore(i, j, c.0, c.1) ==>
      g[c.0][c.1] < g[i][j]
  {
    var j0 := FirstArgmin(g[0]);
    if |g| == 1 then (0, j0)
    else
      var c := GridArgmin(g[1..]);
      assert forall i :: 1 <= i < |g| ==> g[i] == g[1..][i - 1];
      if g[0][j0] <= g[1 + c.0][c.1] then (0, j0) else (1 + c.0, c.1)
  }

  /** The smallest value of a non-empty two-dimensional array. */
  function GridMin(g: seq<seq<int>>): int
    requires |g| > 0 && forall i :: 0 <= i < |g| ==> |g[i]| > 0
  {
    var c := GridArgmin(g);
    g[c.0][c.1]
  }

  function Square(a: int): nat {
    a * a
  }

  /** `land_mask = (h == h.min())`: a cell is land when its depth is the smallest depth
      of the grid. */
  predicate IsLand(f: NcFile, i: nat, j: nat)
    requires GridShaped(f) && i < |f.h| && j < |f.h[0]|
  {
    f.h[i][j] == GridMin(f.h)
  }

  /** `(xproj1-xp1)**2 + (yproj1-yp1)**2 + land_mask*1e12` at cell `(i, j)`. */
  function Penalised(f: NcFile, xp: int, yp: int, i: nat, j: nat): int
    requires GridShaped(f) && i < |f.h| && j < |f.h[0]|
  {
    Square(f.x[i][j] - xp) + Square(f.y[i][j] - yp) + (if IsLand(f, i, j) then LandPenalty else 0)
  }

  function Distances(f: NcFile, xp: int, yp: int): (g: seq<seq<int>>)
    requires GridShaped(f)
    ensures Shaped(g, |f.h|, |f.h[0]|)
    ensures forall i, j :: 0 <= i < |f.h| && 0 <= j < |f.h[0]| ==> g[i][j] == Penalised(f, xp, yp, i, j)
  {
    seq(|f.h|, i requires 0 <= i < |f.h| =>
      seq(|f.h[0]|, j requires 0 <= j < |f.h[0]| => Penalised(f, xp, yp, i, j)))
  }

  /** `np.unravel_index(distances.argmin(), distances.shape)` as `(y1, x1)`; nothing for a
      grid without cells or with grids of different shapes. */
  function NearestCell(f: NcFile, xp: int, yp: int): Option<(nat, nat)> {
    if !GridShaped(f) then None else Some(GridArgmin(Distances(f, xp, yp)))
  }

  /** The chosen cell is the first, in row-major order, of those with the smallest
      penalised distance. */
  lemma NearestCellMinimal(f: NcFile, xp: int, yp: int)
    requires NearestCell(f, xp, yp).Some?
    ensures var (y1, x1) := NearestCell(f, xp, yp).value;
      && y1 < |f.h| && x1 < |f.h[0]|
      && (forall i, j :: 0 <= i < |f.h| && 0 <= j < |f.h[0]| ==>
            Penalised(f, xp, yp, y1, x1) <= Penalised(f, xp, yp, i, j))
      && (forall i, j :: 0 <= i < |f.h| && 0 <= j < |f.h[0]| && RowMajorBefore(i, j, y1, x1) ==>
            Penalised(f, xp, yp, y1, x1) < Penalised(f, xp, yp, i, j))
  {
    var g := Distances(f, xp, yp);
    var c := GridArgmin(g);
    assert c.0 < |f.h| && c.1 < |f.h[0]|;
  }

  /** A sea cell within `1e12` squared units beats every land cell: the chosen cell is
      then a sea cell. Without one the choice may fall on land. */
  lemma NearestCellPrefersSea(f: NcFile, xp: int, yp: int, i: nat, j: nat)
    requires GridShaped(f) && i < |f.h| && j < |f.h[0]|
    requires !IsLand(f, i, j)
    requires Square(f.x[i][j] - xp) + Square(f.y[i][j] - yp) < LandPenalty
    ensures var (y1, x1) := NearestCell(f, xp, yp).value;
      y1 < |f.h| && x1 < |f.h[0]| && !IsLand(f, y1, x1)
  {
    NearestCellMinimal(f, xp, yp);
    var (y1, x1) := NearestCell(f, xp, yp).value;
    assert Penalised(f, xp, yp, i, j) < LandPenalty;
    assert Penalised(f, xp, yp, y1, x1) < LandPenalty;
  }


  // ---------------------------------------------------------------------------
  // Depth and time indices
  // ---------------------------------------------------------------------------

  /** `np.where(all_depths == d)[0][0]`: the first position holding `d`; nothing (an
      `IndexError`) when no level has that depth. */
  function DepthIndex(allDepths: seq<int>, d: int): (r: Option<nat>)
    ensures r.Some? ==>
      && r.value < |allDepths| && allDepths[r.value] == d
      && forall j :: 0 <= j < r.value ==> allDepths[j] != d
    ensures r.None? <==> d !in allDepths
  {
    if allDepths == [] then None
    else if allDepths[0] == d then Some(0)
    else match DepthIndex(allDepths[1..], d)
      case None => None
      case Some(k) => Some(k + 1)
  }

  /** The depth argument: one depth, or a list of depths. */
  datatype DepthSpec = OneDepth(d: int) | Depths(ds: seq<int>)

  /** The depth indices of a list, element by element. */
  function DepthIndexList(allDepths: seq<int>, ds: seq<int>): Option<seq<nat>> {
    if ds == [] then Some([])
    else match (DepthIndexList(allDepths, ds[..|ds| - 1]), DepthIndex(allDepths, ds[|ds| - 1]))
      case (Some(ks), Some(k)) => Some(ks + [k])
      case _ => None
  }

  /** The `depth_index.append` loop. */
  method DepthIndices(allDepths: seq<int>, ds: seq<int>) returns (r: Option<seq<nat>>)
    ensures r == DepthIndexList(allDepths, ds)
  {
    var ks: seq<nat> := [];
    for i := 0 to |ds|
      invariant DepthIndexList(allDepths, ds[..i]) == Some(ks)
    {
      assert ds[..i + 1][..i] == ds[..i];
      var k := DepthIndex(allDepths, ds[i]);
      if k.None? {
        DepthIndexListFails(allDepths, ds, i + 1);
        return None;
      }
      ks := ks + [k.value];
    }
    assert ds[..|ds|] == ds;
    r := Some(ks);
  }

  lemma {:induction false} DepthIndexListFails(allDepths: seq<int>, ds: seq<int>, n: nat)
    requires 0 < n <= |ds| && DepthIndex(allDepths, ds[n - 1]).None?
    ensures DepthIndexList(allDepths, ds) == None
    decreases |ds|
  {
    if n < |ds| {
      assert ds[..|ds| - 1][n - 1] == ds[n - 1];
      DepthIndexListFails(allDepths, ds[..|ds| - 1], n);
    }
  }

  /** Every depth of the list maps, in order, to the first level with that depth; the
      list fails exactly when some depth has no level. */
  lemma {:induction false} DepthIndexListSpec(allDepths: seq<int>, ds: seq<int>)
    ensures DepthIndexList(allDepths, ds).None? <==> exists i :: 0 <= i < |ds| && ds[i] !in allDepths
    ensures DepthIndexList(allDepths, ds).Some? ==>
      var ks := DepthIndexList(allDepths, ds).value;
      && |ks| == |ds|
      && forall i :: 0 <= i < |ds| ==> DepthIndex(allDepths, ds[i]) == Some(ks[i])
  {
    if ds != [] {
      var init := ds[..|ds| - 1];
      DepthIndexListSpec(allDepths, init);
      if DepthIndex(allDepths, ds[|ds| - 1]).None? {
        assert ds[|ds| - 1] !in allDepths;
      }
      if DepthIndexList(allDepths, init).None? {
        var i :| 0 <= i < |init| && init[i] !in allDepths;
        assert ds[i] !in allDepths;
      }
      if exists i :: 0 <= i < |ds| && ds[i] !in allDepths {
        var i :| 0 <= i < |ds| && ds[i] !in allDepths;
        if i < |ds| - 1 {
          assert init[i] !in allDepths;
        }
      }
    }
  }

  /** The depth indices of the depth argument. */
  function DepthIndicesOf(allDepths: seq<int>, depth: DepthSpec): Option<seq<nat>> {
    match depth
    case OneDepth(d) => (match DepthIndex(allDepths, d) case None => None case Some(k) => Some([k]))
    case Depths(ds) => DepthIndexList(allDepths, ds)
  }

  /** `t1`: the index `date2index(start, select="before")` gives, at least 0, or 0 when
      the lookup raises. */
  function FirstStep(before: Option<int>): nat {
    match before
    case None => 0
    case Some(b) => if b > 0 then b else 0
  }

  /** `t2`: the index `date2index(end, select="after")` gives, or `len(times)` when the
      lookup raises. */
  function LastStep(after: Option<nat>, times: seq<CfTime>): nat {
    match after
    case None => |times|
    case Some(a) => a
  }

  // ---------------------------------------------------------------------------
  // `__cftime2datetime` and `__find_nearest_index`
  // ---------------------------------------------------------------------------

  /** `datetime.datetime(t.year, t.month, t.day, t.hour, t.minute)`: the seconds go. */
  function Truncate(t: CfTime): DateTime {
    DateTime(t.year, t.month, t.day, t.hour, t.minute)
  }

  /** Seconds since 1970-01-01T00:00:00 of a time value. */
  function CfSeconds(t: CfTime): int {
    (DaysFromCivil(t.year, t.month, t.day) * 1440 + t.hour * 60 + t.minute) * 60 + t.second
  }

  /** Truncation rounds down to the whole minute. */
  lemma TruncateFloors(t: CfTime)
    requires 0 <= t.second < 60
    ensures ToMinutes(Truncate(t)) == CfSeconds(t) / 60
    ensures ToMinutes(Truncate(t)) * 60 <= CfSeconds(t) < ToMinutes(Truncate(t)) * 60 + 60
  {
  }

  /** The loop of `__cftime2datetime`. */
  method CfTimesToDateTimes(cftimes: seq<CfTime>) returns (datetimes: seq<DateTime>)
    ensures |datetimes| == |cftimes|
    ensures forall t :: 0 <= t < |cftimes| ==>
      && datetimes[t].year == cftimes[t].year && datetimes[t].month == cftimes[t].month
      && datetimes[t].day == cftimes[t].day && datetimes[t].hour == cftimes[t].hour
      && datetimes[t].minute == cftimes[t].minute
  {
    datetimes := [];
    for t := 0 to |cftimes|
      invariant |datetimes| == t
      invariant forall j :: 0 <= j < t ==> datetimes[j] == Truncate(cftimes[j])
    {
      var c := cftimes[t];
      datetimes := datetimes + [DateTime(c.year, c.month, c.day, c.hour, c.minute)];
    }
  }

  /** `(np.abs(array - value)).argmin()`; nothing for an empty array (numpy raises). */
  function FindNearestIndex(a: seq<int>, v: int): (r: Option<nat>)
    ensures r.None? <==> a == []
    ensures r.Some? ==>
      && r.value < |a|
      && (forall j :: 0 <= j < |a| ==> Dist(a[r.value], v) <= Dist(a[j], v))
      && (forall j :: 0 <= j < r.value ==> Dist(a[r.value], v) < Dist(a[j], v))
  {
    if a == [] then None
    else
      var ds := seq(|a|, i requires 0 <= i < |a| => Dist(a[i], v));
      assert forall j :: 0 <= j < |a| ==> ds[j] == Dist(a[j], v);
      Some(FirstArgmin(ds))
  }

  // ---------------------------------------------------------------------------
  // `data1file`
  // ---------------------------------------------------------------------------

  /** Python's `s[lo:hi]` for non-negative bounds (`hi` absent: to the end). */
  function Slice<T>(s: seq<T>, lo: nat, hi: Option<nat>): (r: seq<T>)
    ensures |r| <= |s|
  {
    var a := if lo < |s| then lo else |s|;
    var b := match hi case None => |s| case Some(h) => if h < |s| then h else |s|;
    if b <= a then [] else s[a..b]
  }

  /** The value at `(time, depth, y, x)`, or nothing when an index is out of range. */
  function ValueAt(v: Variable, t: nat, d: nat, y: nat, x: nat): Option<Cell> {
    if t < |v| && d < |v[t]| && y < |v[t][d]| && x < |v[t][d][y]| then Some(v[t][d][y][x]) else None
  }

  /** One row per time step: the cells of the chosen depths at the chosen grid cell. */
  function CellsAt(v: Variable, t: nat, depthIdx: seq<nat>, y: nat, x: nat): Option<seq<Cell>> {
    if depthIdx == [] then Some([])
    else match (CellsAt(v, t, depthIdx[..|depthIdx| - 1], y, x), ValueAt(v, t, depthIdx[|depthIdx| - 1], y, x))
      case (Some(cs), Some(c)) => Some(cs + [c])
      case _ => None
  }

  function RowsFrom(f: NcFile, v: Variable, lo: nat, n: nat, depthIdx: seq<nat>, y: nat, x: nat): Option<seq<Row>>
    requires lo + n <= |f.times|
  {
    if n == 0 then Some([])
    else match (RowsFrom(f, v, lo, n - 1, depthIdx, y, x), CellsAt(v, lo + n - 1, depthIdx, y, x))
      case (Some(rs), Some(cs)) => Some(rs + [Row(ToMinutes(Truncate(f.times[lo + n - 1])), cs)])
      case _ => None
  }

  /** `data1file(filename, y1, x1, param, depth, depth_index, t1, t2)`: the time steps
      `t1:t2` of the file, each with its minute-truncated time and the values of `param`
      at the chosen depths and cell. Nothing when the file does not open, lacks the
      variable, when an index is out of range, or when the variable and the time axis
      give slices of different lengths. */
  function Data1File(archive: Archive, filename: string, y: nat, x: nat, param: string,
                     depthIdx: seq<nat>, t1: nat, t2: Option<nat>): Option<seq<Row>>
  {
    if filename !in archive then None
    else
      var f := archive[filename];
      if param !in f.variables then None
      else
        var v := f.variables[param];
        var n := |Slice(f.times, t1, t2)|;
        if |Slice(v, t1, t2)| != n then None
        else
          var lo := if t1 < |f.times| then t1 else |f.times|;
          RowsFrom(f, v, lo, n, depthIdx, y, x)
  }

  /** A readable slice keeps every time step of `t1:t2` once, in file order. */
  lemma {:induction false} RowsFromTimes(f: NcFile, v: Variable, lo: nat, n: nat, depthIdx: seq<nat>, y: nat, x: nat)
    requires lo + n <= |f.times|
    requires RowsFrom(f, v, lo, n, depthIdx, y, x).Some?
    ensures var rs := RowsFrom(f, v, lo, n, depthIdx, y, x).value;
      && |rs| == n
      && forall k :: 0 <= k < n ==> rs[k].time == ToMinutes(Truncate(f.times[lo + k])) && |rs[k].cells| == |depthIdx|
  {
    if n > 0 {
      RowsFromTimes(f, v, lo, n - 1, depthIdx, y, x);
      CellsAtWidth(v, lo + n - 1, depthIdx, y, x);
    }
  }

  lemma {:induction false} CellsAtWidth(v: Variable, t: nat, depthIdx: seq<nat>, y: nat, x: nat)
    ensures CellsAt(v, t, depthIdx, y, x).Some? ==> |CellsAt(v, t, depthIdx, y, x).value| == |depthIdx|
  {
    if depthIdx != [] {
      CellsAtWidth(v, t, depthIdx[..|depthIdx| - 1], y, x);
    }
  }

  /** The column labels of `data1file`: for a list of depths, `param + str(depth)` per
      depth; for one depth the integer label 0 stays, since the rename looks for the
      string "0". */
  function DataLabels(param: string, depth: DepthSpec): (ls: seq<Label>) {
    match depth
    case OneDepth(_) => [Position(0)]
    case Depths(ds) => seq(|ds|, d requires 0 <= d < |ds| => Name(param + IntToString(ds[d])))
  }

  // ---------------------------------------------------------------------------
  // Stitching the files: first `[t1:]`, the middle ones whole, the last `[:t2]`
  // ---------------------------------------------------------------------------

  /** The middle files `1 .. n-1` (exclusive of the last), each whole, skipping those
      that cannot be read. */
  function MiddleRows(archive: Archive, fs: seq<string>, n: nat, y: nat, x: nat, param: string, depthIdx: seq<nat>): seq<Row>
    requires 1 <= n <= |fs|
  {
    if n == 1 then []
    else MiddleRows(archive, fs, n - 1, y, x, param, depthIdx) + MiddlePiece(archive, fs, n - 1, y, x, param, depthIdx)
  }

  function RowsOrNothing(r: Option<seq<Row>>): seq<Row> {
    if r.Some? then r.value else []
  }

  /** `t2` for the last file: from its time axis when it opens. */
  function LastFileStep(archive: Archive, name: string, after: Option<nat>): Option<nat> {
    if name in archive then Some(LastStep(after, archive[name].times)) else None
  }

  /** The series `norkyst_data` stitches as written: the first file from `t1` (a failure
      there is fatal), the middle files whole, the last file up to `t2`, with failing
      files skipped. With a single file it is read twice. */
  function StitchAsWritten(archive: Archive, fs: seq<string>, y: nat, x: nat, param: string,
                           depthIdx: seq<nat>, t1: nat, after: Option<nat>): Option<seq<Row>>
    requires |fs| > 0
  {
    match Data1File(archive, fs[0], y, x, param, depthIdx, t1, None)
    case None => None
    case Some(first) =>
      var middle := MiddleRows(archive, fs, |fs| - 1 + (if |fs| == 1 then 1 else 0), y, x, param, depthIdx);
      var last := fs[|fs| - 1];
      var tail := match LastFileStep(archive, last, after)
        case None => []
        case Some(t2) => RowsOrNothing(Data1File(archive, last, y, x, param, depthIdx, 0, Some(t2)));
      Some(first + middle + tail)
  }

  /** The stitching the comments describe: a file serves as first and last only once,
      read from `t1` to `t2`. */
  function Stitch(archive: Archive, fs: seq<string>, y: nat, x: nat, param: string,
                  depthIdx: seq<nat>, t1: nat, after: Option<nat>): Option<seq<Row>>
    requires |fs| > 0
  {
    if |fs| == 1 then
      match LastFileStep(archive, fs[0], after)
      case None => None
      case Some(t2) => Data1File(archive, fs[0], y, x, param, depthIdx, t1, Some(t2))
    else StitchAsWritten(archive, fs, y, x, param, depthIdx, t1, after)
  }

  /** With one file the written stitching appends `[:t2]` of the file to `[t1:]` of
      the same file. */
  lemma StitchAsWrittenSingle(archive: Archive, fs: seq<string>, y: nat, x: nat, param: string,
                              depthIdx: seq<nat>, t1: nat, after: Option<nat>)
    requires |fs| == 1 && fs[0] in archive
    requires Data1File(archive, fs[0], y, x, param, depthIdx, t1, None).Some?
    ensures StitchAsWritten(archive, fs, y, x, param, depthIdx, t1, after)
         == Some(Data1File(archive, fs[0], y, x, param, depthIdx, t1, None).value
                 + RowsOrNothing(Data1File(archive, fs[0], y, x, param, depthIdx, 0,
                                           Some(LastStep(after, archive[fs[0]].times)))))
  {
    var first := Data1File(archive, fs[0], y, x, param, depthIdx, t1, None).value;
    assert MiddleRows(archive, fs, 1, y, x, param, depthIdx) == [];
    assert first + [] == first;
  }

  /** Counterexample: a single file with two hourly steps, no lookup results: the
      written stitching returns four rows, each time twice. */
  lemma StitchAsWrittenDuplicates()
    ensures var f := NcFile([CfTime(2021, 4, 11, 0, 0, 0), CfTime(2021, 4, 11, 1, 0, 0)], [0], [[0]], [[0]], [[0]],
                            map["temperature" := [[[[Some(1.0)]]], [[[Some(2.0)]]]]]);
      var archive := map["a.nc" := f];
      var r := StitchAsWritten(archive, ["a.nc"], 0, 0, "temperature", [0], 0, None);
      && r.Some? && |r.value| == 4 && r.value[0].time == r.value[2].time
      && Stitch(archive, ["a.nc"], 0, 0, "temperature", [0], 0, None).Some?
      && |Stitch(archive, ["a.nc"], 0, 0, "temperature", [0], 0, None).value| == 2
  {
    var f := NcFile([CfTime(2021, 4, 11, 0, 0, 0), CfTime(2021, 4, 11, 1, 0, 0)], [0], [[0]], [[0]], [[0]],
                    map["temperature" := [[[[Some(1.0)]]], [[[Some(2.0)]]]]]);
    var archive := map["a.nc" := f];
    var v := f.variables["temperature"];
    assert ValueAt(v, 0, 0, 0, 0) == Some(Some(1.0));
    assert ValueAt(v, 1, 0, 0, 0) == Some(Some(2.0));
    var d0: seq<nat> := [0];
    assert d0[..0] == [];
    assert CellsAt(v, 0, [], 0, 0) == Some([]);
    assert CellsAt(v, 1, [], 0, 0) == Some([]);
    var e: seq<Cell> := [];
    assert e + [Some(1.0)] == [Some(1.0)] && e + [Some(2.0)] == [Some(2.0)];
    assert CellsAt(v, 0, d0, 0, 0) == Some([Some(1.0)]);
    assert CellsAt(v, 1, d0, 0, 0) == Some([Some(2.0)]);
    assert RowsFrom(f, v, 0, 1, [0], 0, 0).Some?;
    assert RowsFrom(f, v, 0, 2, [0], 0, 0).Some?;
    assert |Slice(f.times, 0, None)| == 2 && |Slice(v, 0, None)| == 2;
    assert |Slice(f.times, 0, Some(2))| == 2 && |Slice(v, 0, Some(2))| == 2;
    RowsFromTimes(f, v, 0, 2, [0], 0, 0);
  }

  /** A single readable file yields each of its time steps `t1:t2` exactly once, in
      file order. */
  lemma StitchSingle(archive: Archive, fs: seq<string>, y: nat, x: nat, param: string,
                     depthIdx: seq<nat>, t1: nat, after: Option<nat>)
    requires |fs| == 1
    requires Stitch(archive, fs, y, x, param, depthIdx, t1, after).Some?
    ensures var f := archive[fs[0]];
      var r := Stitch(archive, fs, y, x, param, depthIdx, t1, after).value;
      var steps := Slice(f.times, t1, Some(LastStep(after, f.times)));
      && |r| == |steps|
      && forall k :: 0 <= k < |r| ==> r[k].time == ToMinutes(Truncate(steps[k]))
  {
    Data1FileTimes(archive, fs[0], y, x, param, depthIdx, t1, Some(LastStep(after, archive[fs[0]].times)));
  }

  /** `data1file` keeps every time step of the slice once, in file order, with as many
      cells as depths. */
  lemma Data1FileTimes(archive: Archive, filename: string, y: nat, x: nat, param: string,
                       depthIdx: seq<nat>, t1: nat, t2: Option<nat>)
    requires Data1File(archive, filename, y, x, param, depthIdx, t1, t2).Some?
    ensures var steps := Slice(archive[filename].times, t1, t2);
      var rows := Data1File(archive, filename, y, x, param, depthIdx, t1, t2).value;
      && |rows| == |steps| && HasWidth(rows, |depthIdx|)
      && forall k :: 0 <= k < |rows| ==> rows[k].time == ToMinutes(Truncate(steps[k]))
  {
    var f := archive[filename];
    var v := f.variables[param];
    var lo := if t1 < |f.times| then t1 else |f.times|;
    var steps := Slice(f.times, t1, t2);
    RowsFromTimes(f, v, lo, |steps|, depthIdx, y, x);
    SliceAt(f.times, t1, t2);
  }

  /** Element `k` of a slice is element `lo + k` of the sequence, `lo` clamped. */
  lemma SliceAt<T>(s: seq<T>, lo: nat, hi: Option<nat>)
    ensures var a := if lo < |s| then lo else |s|;
      a + |Slice(s, lo, hi)| <= |s| && forall k :: 0 <= k < |Slice(s, lo, hi)| ==> Slice(s, lo, hi)[k] == s[a + k]
  {
  }

  /** What middle file `i` contributes: its rows, or none when it cannot be read. */
  function MiddlePiece(archive: Archive, fs: seq<string>, i: nat, y: nat, x: nat, param: string, depthIdx: seq<nat>): seq<Row>
    requires i < |fs|
  {
    RowsOrNothing(Data1File(archive, fs[i], y, x, param, depthIdx, 0, None))
  }

  /** The middle files contribute, in file order, each readable file whole and nothing
      for the others. */
  lemma {:induction false} MiddleRowsConcatenate(archive: Archive, fs: seq<string>, n: nat, y: nat, x: nat,
                                                 param: string, depthIdx: seq<nat>)
    requires 1 <= n <= |fs|
    ensures MiddleRows(archive, fs, n, y, x, param, depthIdx)
         == Flatten(seq(n - 1, i requires 0 <= i < n - 1 => MiddlePiece(archive, fs, i + 1, y, x, param, depthIdx)))
  {
    if n > 1 {
      MiddleRowsConcatenate(archive, fs, n - 1, y, x, param, depthIdx);
      var before := seq(n - 2, i requires 0 <= i < n - 2 => MiddlePiece(archive, fs, i + 1, y, x, param, depthIdx));
      var pieces := seq(n - 1, i requires 0 <= i < n - 1 => MiddlePiece(archive, fs, i + 1, y, x, param, depthIdx));
      var last := MiddlePiece(archive, fs, n - 1, y, x, param, depthIdx);
      assert pieces == before + [last];
      FlattenSnoc(before, last);
    }
  }

  // ---------------------------------------------------------------------------
  // `norkyst_data` and the importer's cached state
  // ---------------------------------------------------------------------------

  datatype NorKystError =
    | NoOpenableFile       // `norkyst_filenames` pops the whole list and indexes an empty one
    | CannotOpen           // the first cached file does not open
    | EmptyGrid            // `argmin` of an empty grid, or grids of different shapes
    | DepthMissing         // a requested depth is not among the file's levels
    | FirstFileUnreadable  // `data1file` of the first file raises

  /** What the importer keeps between calls: the cleaned file list and the grid cell. */
  datatype Cache = Cache(filenames: Option<seq<string>>, cell: Option<(nat, nat)>)

  /** The file list a call works on: the cached one, or the names of the period with
      the leading unopenable ones dropped. */
  function FilesFor(archive: Archive, start: DateTime, end: DateTime, cache: Cache): Option<seq<string>>
    requires Valid(start)
  {
    if cache.filenames.Some? then cache.filenames else FirstOpenable(Filenames(start, end), archive)
  }

  /** The grid cell a call works on: the cached one, or the one chosen in the first file. */
  function CellFor(f: NcFile, cache: Cache, xp: int, yp: int): Option<(nat, nat)> {
    if cache.cell.Some? then cache.cell else NearestCell(f, xp, yp)
  }

  /** What a call returns once its files and cell are known. */
  function SeriesOf(archive: Archive, fs: seq<string>, cell: (nat, nat), param: string, depth: DepthSpec,
                    before: Option<int>, after: Option<nat>): Result<LabelledTable, NorKystError>
    requires fs != [] && fs[0] in archive
  {
    match DepthIndicesOf(archive[fs[0]].depths, depth)
    case None => Err(DepthMissing)
    case Some(idx) =>
      match Stitch(archive, fs, cell.0, cell.1, param, idx, FirstStep(before), after)
      case None => Err(FirstFileUnreadable)
      case Some(rows) => Ok(LabelledTable(DataLabels(param, depth), rows))
  }

  /** One call of `norkyst_data`, on the cache left by earlier calls: its result and the
      cache after it. The file list and the cell are computed only while they are
      missing, and are kept even when a later step fails. */
  function NorKystResult(archive: Archive, start: DateTime, end: DateTime, cache: Cache,
                         param: string, xp: int, yp: int, depth: DepthSpec,
                         before: Option<int>, after: Option<nat>): (Result<LabelledTable, NorKystError>, Cache)
    requires Valid(start)
  {
    match FilesFor(archive, start, end, cache)
    case None => (Err(NoOpenableFile), cache)
    case Some(fs) =>
      var c1 := cache.(filenames := Some(fs));
      if fs == [] || fs[0] !in archive then (Err(CannotOpen), c1)
      else
        match CellFor(archive[fs[0]], cache, xp, yp)
        case None => (Err(EmptyGrid), c1)
        case Some(cell) => (SeriesOf(archive, fs, cell, param, depth, before, after), c1.(cell := Some(cell)))
  }

  /** `norkyst_filenames` as one function: the names of the period with the leading
      unopenable ones dropped. */
  lemma NorKystResultFilenames(archive: Archive, start: DateTime, end: DateTime, cache: Cache,
                               param: string, xp: int, yp: int, depth: DepthSpec,
                               before: Option<int>, after: Option<nat>)
    requires Valid(start)
    ensures var (r, c) := NorKystResult(archive, start, end, cache, param, xp, yp, depth, before, after);
      && (cache.filenames.Some? ==> c.filenames == cache.filenames)
      && (cache.filenames.None? ==>
            c.filenames == FirstOpenable(Filenames(start, end), archive)
            && (c.filenames.None? <==> r == Err(NoOpenableFile)))
      && (cache.filenames.None? && c.filenames.Some? ==> c.filenames.value != [] && c.filenames.value[0] in archive)
  {
    FilesForOpens(archive, start, end, cache);
    var (r, c) := NorKystResult(archive, start, end, cache, param, xp, yp, depth, before, after);
    var fsOpt := FilesFor(archive, start, end, cache);
    if fsOpt.None? {
      assert r == Err(NoOpenableFile) && c == cache;
    } else {
      assert c.filenames == fsOpt && r != Err(NoOpenableFile);
    }
  }

  /** A file list computed afresh starts with a file that opens. */
  lemma FilesForOpens(archive: Archive, start: DateTime, end: DateTime, cache: Cache)
    requires Valid(start)
    ensures cache.filenames.None? && FilesFor(archive, start, end, cache).Some? ==>
      var fs := FilesFor(archive, start, end, cache).value;
      fs != [] && fs[0] in archive
  {
    if cache.filenames.None? {
      FirstOpenableSpec(Filenames(start, end), archive);
    }
  }

  /** The grid cell is computed from the first file only while none is cached, and then
      is the first row-major minimiser of the penalised distance; a cached cell is never
      replaced. */
  lemma NorKystResultCell(archive: Archive, start: DateTime, end: DateTime, cache: Cache,
                          param: string, xp: int, yp: int, depth: DepthSpec,
                          before: Option<int>, after: Option<nat>)
    requires Valid(start)
    ensures var (r, c) := NorKystResult(archive, start, end, cache, param, xp, yp, depth, before, after);
      && (cache.cell.Some? ==> c.cell == cache.cell)
      && (cache.cell.None? && c.cell.Some? ==>
            var f := archive[c.filenames.value[0]];
            var (y1, x1) := c.cell.value;
            && c.filenames.value != [] && c.filenames.value[0] in archive
            && NearestCell(f, xp, yp) == c.cell
            && y1 < |f.h| && x1 < |f.h[0]|
            && forall i, j :: 0 <= i < |f.h| && 0 <= j < |f.h[0]| ==>
                 Penalised(f, xp, yp, y1, x1) <= Penalised(f, xp, yp, i, j))
  {
    var (r, c) := NorKystResult(archive, start, end, cache, param, xp, yp, depth, before, after);
    if cache.cell.None? && c.cell.Some? {
      NearestCellMinimal(archive[c.filenames.value[0]], xp, yp);
    }
  }

  /** A successful call returns the stitched series of the cached files at the cached
      cell and the requested depths, under the labels `data1file` gives them. */
  lemma NorKystResultOk(archive: Archive, start: DateTime, end: DateTime, cache: Cache,
                        param: string, xp: int, yp: int, depth: DepthSpec,
                        before: Option<int>, after: Option<nat>)
    requires Valid(start)
    ensures var (r, c) := NorKystResult(archive, start, end, cache, param, xp, yp, depth, before, after);
      r.Ok? ==>
        && c.filenames.Some? && c.filenames.value != [] && c.filenames.value[0] in archive && c.cell.Some?
        && var fs := c.filenames.value;
           DepthIndicesOf(archive[fs[0]].depths, depth).Some?
           && r.value.labels == DataLabels(param, depth)
           && Stitch(archive, fs, c.cell.value.0, c.cell.value.1, param,
                     DepthIndicesOf(archive[fs[0]].depths, depth).value, FirstStep(before), after)
              == Some(r.value.rows)
  {
  }

  /** The cache a call leaves is a fixed point: calling again with the same arguments
      gives the same result and changes nothing. */
  lemma NorKystResultStable(archive: Archive, start: DateTime, end: DateTime, cache: Cache,
                            param: string, xp: int, yp: int, depth: DepthSpec,
                            before: Option<int>, after: Option<nat>)
    requires Valid(start)
    ensures var (r, c) := NorKystResult(archive, start, end, cache, param, xp, yp, depth, before, after);
      NorKystResult(archive, start, end, c, param, xp, yp, depth, before, after) == (r, c)
  {
    FilesForOpens(archive, start, end, cache);
  }

  /** The part of `norkyst_data` after the file list and the cell are known: the depth
      indices in the first file, then the first file from `t1`, the middle files whole
      and the last file up to `t2`. A single file is read once, from `t1` to `t2`. */
  method ReadSeries(archive: Archive, fs: seq<string>, y: nat, x: nat, param: string, depth: DepthSpec,
                    before: Option<int>, after: Option<nat>) returns (r: Result<LabelledTable, NorKystError>)
    requires fs != [] && fs[0] in archive
    ensures r == SeriesOf(archive, fs, (y, x), param, depth, before, after)
  {
    var nc := archive[fs[0]];
    var depthIndex: seq<nat>;
    match depth {
      case OneDepth(d) =>
        var k := DepthIndex(nc.depths, d);
        if k.None? {
          return Err(DepthMissing);
        }
        depthIndex := [k.value];
      case Depths(ds) =>
        var ks := DepthIndices(nc.depths, ds);
        if ks.None? {
          return Err(DepthMissing);
        }
        depthIndex := ks.value;
    }
    assert DepthIndicesOf(nc.depths, depth) == Some(depthIndex);
    var rows := StitchFiles(archive, fs, y, x, param, depthIndex, FirstStep(before), after);
    if rows.None? {
      return Err(FirstFileUnreadable);
    }
    r := Ok(LabelledTable(DataLabels(param, depth), rows.value));
  }

  /** The loops of `norkyst_data` over the files: the first file from `t1`, the middle
      files whole and the last file up to `t2`, skipping middle and last files that fail.
      A single file is read once, from `t1` to `t2`. */
  method StitchFiles(archive: Archive, fs: seq<string>, y: nat, x: nat, param: string,
                     depthIndex: seq<nat>, t1: nat, after: Option<nat>) returns (rows: Option<seq<Row>>)
    requires fs != [] && fs[0] in archive
    ensures rows == Stitch(archive, fs, y, x, param, depthIndex, t1, after)
  {
    if |fs| == 1 {
      var t2 := LastStep(after, archive[fs[0]].times);
      return Data1File(archive, fs[0], y, x, param, depthIndex, t1, Some(t2));
    }

    // first file
    var first := Data1File(archive, fs[0], y, x, param, depthIndex, t1, None);
    if first.None? {
      return None;
    }
    var middle := ReadMiddleFiles(archive, fs, y, x, param, depthIndex);
    var timeseries := first.value + middle;
    // last file, skipped when it fails
    var last := fs[|fs| - 1];
    var tail: seq<Row> := [];
    if last in archive {
      var t2 := LastStep(after, archive[last].times);
      var next := Data1File(archive, last, y, x, param, depthIndex, 0, Some(t2));
      if next.Some? {
        tail := next.value;
      }
    }
    assert StitchAsWritten(archive, fs, y, x, param, depthIndex, t1, after)
        == Some(first.value + MiddleRows(archive, fs, |fs| - 1, y, x, param, depthIndex) + tail);
    rows := Some(timeseries + tail);
  }

  /** The loop over the middle files `1 .. len - 2`: each is read whole, and one that
      fails is skipped. */
  method ReadMiddleFiles(archive: Archive, fs: seq<string>, y: nat, x: nat, param: string,
                         depthIndex: seq<nat>) returns (timeseries: seq<Row>)
    requires |fs| >= 2
    ensures timeseries == MiddleRows(archive, fs, |fs| - 1, y, x, param, depthIndex)
  {
    timeseries := [];
    for i := 1 to |fs| - 1
      invariant timeseries == MiddleRows(archive, fs, i, y, x, param, depthIndex)
    {
      var next := Data1File(archive, fs[i], y, x, param, depthIndex, 0, None);
      if next.Some? {
        timeseries := timeseries + next.value;
      }
    }
  }

  /** The importer of one period: `NorKystImporter(start_time, end_time)`. The archive
      stands for the THREDDS catalogue the files are opened from. */
  class NorKystImporter {
    const startTime: DateTime
    const endTime: DateTime
    const archive: Archive
    var filenames: Option<seq<string>>
    var x1: Option<nat>
    var y1: Option<nat>

    /** `x1` and `y1` are set together, and a cached file list starts with a file that
        opens. */
    predicate Valid()
      reads this
    {
      && Calendar.Valid(startTime) && Calendar.Valid(endTime)
      && x1.Some? == y1.Some?
      && (filenames.Some? ==> filenames.value != [] && filenames.value[0] in archive)
    }

    function CacheOf(): Cache
      reads this
    {
      Cache(filenames, if x1.Some? && y1.Some? then Some((y1.value, x1.value)) else None)
    }

    constructor (startTime: DateTime, endTime: DateTime, archive: Archive)
      requires Calendar.Valid(startTime) && Calendar.Valid(endTime)
      ensures Valid()
      ensures this.startTime == startTime && this.endTime == endTime && this.archive == archive
      ensures filenames.None? && x1.None? && y1.None?
    {
      this.startTime := startTime;
      this.endTime := endTime;
      this.archive := archive;
      filenames := None;
      x1 := None;
      y1 := None;
    }

    /** The `if self.filenames is None` step: the cached list, or the names of the
        period with the leading unopenable ones dropped, kept once found. */
    method CacheFilenames() returns (fs: Option<seq<string>>)
      requires Valid()
      modifies this
      ensures Valid()
      ensures fs == FilesFor(archive, startTime, endTime, old(CacheOf()))
      ensures filenames == (if fs.Some? then fs else old(filenames))
      ensures x1 == old(x1) && y1 == old(y1)
    {
      if filenames.None? {
        var all := BuildFilenames(startTime, endTime);
        var kept := DropUnopenable(all, archive);
        FirstOpenableSpec(all, archive);
        if kept.None? {
          return None;
        }
        filenames := kept;
      }
      fs := filenames;
    }

    /** The `if self.x1 is None` step: the cached cell, or the cell chosen in the first
        file, kept once found. */
    method CacheCell(nc: NcFile, xp: int, yp: int) returns (cell: Option<(nat, nat)>)
      requires Valid()
      modifies this
      ensures Valid()
      ensures cell == CellFor(nc, old(CacheOf()), xp, yp)
      ensures CacheOf().cell == (if cell.Some? then cell else old(CacheOf()).cell)
      ensures filenames == old(filenames)
    {
      if x1.None? {
        var found := NearestCell(nc, xp, yp);
        if found.None? {
          return None;
        }
        y1 := Some(found.value.0);
        x1 := Some(found.value.1);
      }
      cell := Some((y1.value, x1.value));
    }

    /** `norkyst_data(param, lon, lat, depth=...)` with the position already projected
        to `(xp, yp)` and the results of the two `date2index` lookups given; a single
        file is read once, from `t1` to `t2`. */
    method NorKystData(param: string, xp: int, yp: int, depth: DepthSpec,
                       before: Option<int>, after: Option<nat>)
      returns (r: Result<LabelledTable, NorKystError>)
      requires Valid()
      modifies this
      ensures Valid()
      ensures (r, CacheOf()) == NorKystResult(archive, startTime, endTime, old(CacheOf()),
                                              param, xp, yp, depth, before, after)
    {
      var fsOpt := CacheFilenames();
      if fsOpt.None? {
        return Err(NoOpenableFile);
      }
      var fs := fsOpt.value;
      var nc := archive[fs[0]];
      var cell := CacheCell(nc, xp, yp);
      if cell.None? {
        return Err(EmptyGrid);
      }
      r := ReadSeries(archive, fs, cell.value.0, cell.value.1, param, depth, before, after);
    }
  }
}
