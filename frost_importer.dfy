/** FrostImporter.py: the year-by-year requests of `data` and their concatenation, and
    the ranking of nearby stations in `location_ids`. */
module FrostImporter {
  import opened Wrappers
  import opened Text
  import opened Calendar
  import opened Seqs
  import opened Series

  // ---------------------------------------------------------------------------
  // Year chunks: the `for batch in range(years+1)` loop of `data`
  // ---------------------------------------------------------------------------

  /** The period `[from, to]` of one request. */
  datatype Interval = Interval(from: DateTime, to: DateTime)

  /** The period of batch `k`: it starts at `start` for the first batch and on January 1
      00:00 otherwise, and ends at `end` for the last batch and on December 31 23:59
      otherwise, of the year `start.year + k`. */
  function YearChunk(start: DateTime, end: DateTime, k: nat): Interval {
    var y := start.year + k;
    Interval(if k == 0 then start else DateTime(y, 1, 1, 0, 0),
             if k == end.year - start.year then end else DateTime(y, 12, 31, 23, 59))
  }

  /** All batches, one per calendar year from `start.year` to `end.year`; none when the
      end lies in an earlier year (the range is then empty). */
  function YearChunks(start: DateTime, end: DateTime): (cs: seq<Interval>)
    ensures |cs| == if end.year < start.year then 0 else end.year - start.year + 1
  {
    if end.year < start.year then []
    else seq(end.year - start.year + 1, k requires 0 <= k <= end.year - start.year => YearChunk(start, end, k))
  }

  /** There is one batch per calendar year; the first starts at `start`, the last ends at
      `end`, the inner boundaries fall on new year; each batch lies within the year
      `start.year + k`. */
  lemma YearChunksShape(start: DateTime, end: DateTime)
    requires start.year <= end.year
    ensures var cs := YearChunks(start, end);
      && |cs| == end.year - start.year + 1
      && cs[0].from == start
      && cs[|cs| - 1].to == end
      && (forall k :: 0 < k < |cs| ==> cs[k].from == DateTime(start.year + k, 1, 1, 0, 0))
      && (forall k :: 0 <= k < |cs| - 1 ==> cs[k].to == DateTime(start.year + k, 12, 31, 23, 59))
      && (forall k :: 0 <= k < |cs| ==> cs[k].from.year == cs[k].to.year == start.year + k)
  {
  }

  /** For an ordered pair of times the batches are chronological: each starts no later
      than it ends, and each ends strictly before the next begins. */
  lemma YearChunksChronological(start: DateTime, end: DateTime)
    requires Valid(start) && Valid(end) && LessEq(start, end)
    ensures var cs := YearChunks(start, end);
      && (forall k :: 0 <= k < |cs| ==> LessEq(cs[k].from, cs[k].to))
      && (forall k :: 0 <= k < |cs| - 1 ==> Less(cs[k].to, cs[k + 1].from))
  {
  }

  /** The batches of valid times are valid times. */
  lemma YearChunksValid(start: DateTime, end: DateTime)
    requires Valid(start) && Valid(end)
    ensures forall c :: c in YearChunks(start, end) ==> Valid(c.from) && Valid(c.to)
  {
  }

  // ---------------------------------------------------------------------------
  // Requests and their concatenation
  // ---------------------------------------------------------------------------

  /** The query of `observations/v0.csv`: `referencetime`, `sources`, `elements`. */
  datatype Request = Request(referencetime: string, sources: string, elements: string)

  /** The query for one batch. */
  function ChunkRequest(c: Interval, stationId: string, param: string): Request
    requires Valid(c.from) && Valid(c.to)
  {
    Request(PeriodString(c.from, c.to), stationId, param)
  }

  /** A batch's query names exactly its period, the station and the element. */
  lemma ChunkRequestNamesPeriod(c: Interval, stationId: string, param: string)
    requires Valid(c.from) && Valid(c.to)
    ensures var q := ChunkRequest(c, stationId, param);
      && ParsePeriod(q.referencetime) == Some((c.from, c.to))
      && q.sources == stationId && q.elements == param
  {
    ParsePeriodString(c.from, c.to);
  }

  function Requests(start: DateTime, end: DateTime, stationId: string, param: string): (qs: seq<Request>)
    requires Valid(start) && Valid(end)
    ensures |qs| == |YearChunks(start, end)|
  {
    var cs := YearChunks(start, end);
    YearChunksValid(start, end);
    seq(|cs|, k requires 0 <= k < |cs| => ChunkRequest(cs[k], stationId, param))
  }

  /** The server, seen from `data`: the rows of a successful request, or `None` when it
      answers with an HTTP error. */
  type Fetch = Request -> Option<seq<Row>>

  /** The outcome after the first `n` requests: `None` as soon as one fails, otherwise
      their rows, appended in request order. */
  function FetchPrefix(qs: seq<Request>, fetch: Fetch, n: nat): Option<seq<Row>>
    requires n <= |qs|
  {
    if n == 0 then Some([])
    else match FetchPrefix(qs, fetch, n - 1)
      case None => None
      case Some(acc) =>
        match fetch(qs[n - 1])
        case None => None
        case Some(rows) => Some(acc + rows)
  }

  /** `data(station_id, param, start_time, end_time)`. */
  function DataResult(stationId: string, param: string, start: DateTime, end: DateTime, fetch: Fetch): Option<seq<Row>>
    requires Valid(start) && Valid(end)
  {
    var qs := Requests(start, end, stationId, param);
    FetchPrefix(qs, fetch, |qs|)
  }

  /** The batch loop of `data`: it computes each batch's period, queries the server, gives
      up on the first HTTP error and otherwise appends the batch's rows. */
  method Data(stationId: string, param: string, start: DateTime, end: DateTime, fetch: Fetch)
    returns (r: Option<seq<Row>>)
    requires Valid(start) && Valid(end)
    ensures r == DataResult(stationId, param, start, end, fetch)
  {
    var qs := Requests(start, end, stationId, param);
    var timeseries: seq<Row> := [];
    var years := end.year - start.year;
    var batches := if years < 0 then 0 else years + 1;
    for batch := 0 to batches
      invariant FetchPrefix(qs, fetch, batch) == Some(timeseries)
    {
      var payload := BatchPayload(start, end, stationId, param, batch);
      var answer := fetch(payload);
      if answer.None? {
        FetchNoneIff(qs, fetch, |qs|);
        return None;
      }
      assert fetch(qs[batch]) == Some(answer.value);
      FetchStep(qs, fetch, batch, timeseries, answer.value);
      timeseries := timeseries + answer.value;
    }
    r := Some(timeseries);
  }

  /** The period the loop computes for a batch is that batch's chunk, and valid. */
  lemma BatchInterval(start: DateTime, end: DateTime, batch: int)
    requires Valid(start) && Valid(end)
    requires 0 <= batch <= end.year - start.year
    ensures var c := Interval(if batch == 0 then start else DateTime(start.year + batch, 1, 1, 0, 0),
                              if batch == end.year - start.year then end else DateTime(start.year + batch, 12, 31, 23, 59));
      && YearChunks(start, end)[batch] == c
      && Valid(c.from) && Valid(c.to)
  {
  }

  /** The body of the batch loop before the request: the batch's period, from
      `start_time` or January 1, to `end_time` or December 31, 23:59, and its query. */
  method BatchPayload(start: DateTime, end: DateTime, stationId: string, param: string, batch: int)
    returns (payload: Request)
    requires Valid(start) && Valid(end)
    requires 0 <= batch <= end.year - start.year
    ensures batch < |Requests(start, end, stationId, param)|
    ensures payload == Requests(start, end, stationId, param)[batch]
  {
    var years := end.year - start.year;
    var interStart := if batch == 0 then start else DateTime(start.year + batch, 1, 1, 0, 0);
    var interEnd := if batch == years then end else DateTime(start.year + batch, 12, 31, 23, 59);
    BatchRequest(start, end, stationId, param, batch);
    payload := ChunkRequest(Interval(interStart, interEnd), stationId, param);
  }

  /** The request the loop sends for a batch is that batch's request. */
  lemma BatchRequest(start: DateTime, end: DateTime, stationId: string, param: string, batch: int)
    requires Valid(start) && Valid(end)
    requires 0 <= batch <= end.year - start.year
    ensures var c := Interval(if batch == 0 then start else DateTime(start.year + batch, 1, 1, 0, 0),
                              if batch == end.year - start.year then end else DateTime(start.year + batch, 12, 31, 23, 59));
      && Valid(c.from) && Valid(c.to)
      && batch < |Requests(start, end, stationId, param)|
      && ChunkRequest(c, stationId, param) == Requests(start, end, stationId, param)[batch]
  {
    BatchInterval(start, end, batch);
  }

  /** One more successful request appends its rows. */
  lemma FetchStep(qs: seq<Request>, fetch: Fetch, n: nat, acc: seq<Row>, rows: seq<Row>)
    requires n < |qs|
    requires FetchPrefix(qs, fetch, n) == Some(acc) && fetch(qs[n]) == Some(rows)
    ensures FetchPrefix(qs, fetch, n + 1) == Some(acc + rows)
  {
  }

  /** The rows a request contributes when it succeeds. */
  function RowsOf(answer: Option<seq<Row>>): seq<Row> {
    if answer.Some? then answer.value else []
  }

  /** The outcome is `None` exactly when some batch fails: there are no partial results. */
  lemma {:induction false} FetchNoneIff(qs: seq<Request>, fetch: Fetch, n: nat)
    requires n <= |qs|
    ensures FetchPrefix(qs, fetch, n) == None <==> exists k :: 0 <= k < n && fetch(qs[k]) == None
  {
    if n > 0 {
      FetchNoneIff(qs, fetch, n - 1);
      if fetch(qs[n - 1]) == None {
        assert exists k :: 0 <= k < n && fetch(qs[k]) == None;
      }
    }
  }

  /** When no batch fails, the outcome is every batch's rows in batch order. */
  lemma {:induction false} FetchConcatenates(qs: seq<Request>, fetch: Fetch, n: nat)
    requires n <= |qs|
    requires forall k :: 0 <= k < n ==> fetch(qs[k]).Some?
    ensures FetchPrefix(qs, fetch, n)
         == Some(Flatten(seq(n, k requires 0 <= k < n => RowsOf(fetch(qs[k])))))
  {
    var pieces := seq(n, k requires 0 <= k < n => RowsOf(fetch(qs[k])));
    if n > 0 {
      FetchConcatenates(qs, fetch, n - 1);
      var before := seq(n - 1, k requires 0 <= k < n - 1 => RowsOf(fetch(qs[k])));
      assert pieces == before + [RowsOf(fetch(qs[n - 1]))];
      FlattenSnoc(before, RowsOf(fetch(qs[n - 1])));
    }
  }

  // ---------------------------------------------------------------------------
  // `location_ids`: candidate stations and their coordinates
  // ---------------------------------------------------------------------------

  /** One element of the `sources` answer: its id and, when it has a geometry, the
      coordinates of that geometry (longitude first). */
  datatype SourceElement = SourceElement(id: string, geometry: Option<seq<real>>)

  /** A row of the coordinate frame: `pd.DataFrame(element["geometry"])` has one row per
      coordinate, labelled with the station id. */
  datatype CoordRow = CoordRow(stationId: string, coordinate: real)

  function CoordRowsOf(e: SourceElement): (rs: seq<CoordRow>) {
    if e.geometry.None? then []
    else seq(|e.geometry.value|, j requires 0 <= j < |e.geometry.value| => CoordRow(e.id, e.geometry.value[j]))
  }

  /** The coordinate frame of all elements, in element order. */
  function CoordRows(elements: seq<SourceElement>): seq<CoordRow> {
    if elements == [] then [] else CoordRowsOf(elements[0]) + CoordRows(elements[1..])
  }

  lemma {:induction false} CoordRowsAppend(a: seq<SourceElement>, b: seq<SourceElement>)
    ensures CoordRows(a + b) == CoordRows(a) + CoordRows(b)
  {
    if a == [] {
      assert a + b == b;
    } else {
      assert (a + b)[1..] == a[1..] + b;
      CoordRowsAppend(a[1..], b);
    }
  }

  /** The first loop of `location_ids`. */
  method BuildCoordRows(elements: seq<SourceElement>) returns (df: seq<CoordRow>)
    ensures df == CoordRows(elements)
  {
    df := [];
    for i := 0 to |elements|
      invariant df == CoordRows(elements[..i])
    {
      var e := elements[i];
      if e.geometry.Some? {
        var row := seq(|e.geometry.value|, j requires 0 <= j < |e.geometry.value| => CoordRow(e.id, e.geometry.value[j]));
        df := df + row;
      }
      assert elements[..i + 1] == elements[..i] + [e];
      CoordRowsAppend(elements[..i], [e]);
      assert CoordRows([e]) == CoordRowsOf(e) + CoordRows([]);
    }
    assert elements[..|elements|] == elements;
  }

  /** `sourceId.split(":")[0]`: availability ids `AA00000:0` reduced to the station id. */
  function NormaliseId(sourceId: string): string {
    Split(sourceId, ':')[0]
  }

  /** The normalised id is the part of the source id before its first colon: a prefix
      without a colon, followed in the source id by a colon unless it is all of it. */
  lemma NormaliseIdPrefix(sourceId: string)
    ensures var id := NormaliseId(sourceId);
      && ':' !in id
      && StartsWith(sourceId, id)
      && (id == sourceId || sourceId[|id|] == ':')
      && (':' !in sourceId ==> id == sourceId)
  {
    var k := IndexOf(sourceId, ':');
    if k < |sourceId| {
      assert NormaliseId(sourceId) == sourceId[..k];
    } else {
      assert sourceId[..k] == sourceId;
    }
  }

  /** An id of the availability answer and a station id agree exactly when the station
      id is the part before the colon. */
  lemma NormaliseIdOf(stationId: string, suffix: string)
    requires ':' !in stationId
    ensures NormaliseId(stationId + ":" + suffix) == stationId
  {
    var s := stationId + ":" + suffix;
    assert s == stationId + (":" + suffix);
    IndexOfAfter(stationId, ":" + suffix, ':');
    assert s[..|stationId|] == stationId;
  }

  /** The ids the availability answer offers, each reduced to its station id. */
  function NormalisedIds(sourceIds: seq<string>): (ids: seq<string>)
    ensures |ids| == |sourceIds|
    ensures forall i :: 0 <= i < |sourceIds| ==> ids[i] == NormaliseId(sourceIds[i])
  {
    seq(|sourceIds|, i requires 0 <= i < |sourceIds| => NormaliseId(sourceIds[i]))
  }

  /** The `id_list` loop of `location_ids`. */
  method AvailableIds(sourceIds: seq<string>) returns (ids: seq<string>)
    ensures ids == NormalisedIds(sourceIds)
  {
    ids := [];
    for i := 0 to |sourceIds|
      invariant |ids| == i
      invariant forall j :: 0 <= j < i ==> ids[j] == NormaliseId(sourceIds[j])
    {
      ids := ids + [Split(sourceIds[i], ':')[0]];
    }
  }

  /** `df.loc[df['station_id'].isin(ids)]`. */
  function KeepAvailable(rows: seq<CoordRow>, ids: seq<string>): (r: seq<CoordRow>)
    ensures |r| <= |rows|
    ensures forall x :: x in r <==> x in rows && x.stationId in ids
  {
    if rows == [] then []
    else (if rows[0].stationId in ids then [rows[0]] else []) + KeepAvailable(rows[1..], ids)
  }

  lemma {:induction false} KeepAvailableAppend(a: seq<CoordRow>, b: seq<CoordRow>, ids: seq<string>)
    ensures KeepAvailable(a + b, ids) == KeepAvailable(a, ids) + KeepAvailable(b, ids)
  {
    if a == [] {
      assert a + b == b;
    } else {
      assert (a + b)[1..] == a[1..] + b;
      KeepAvailableAppend(a[1..], b, ids);
    }
  }

  /** A station in the ranking: `{"station_id", "lat", "lon", "dist"}`. */
  datatype Candidate = Candidate(stationId: string, lat: real, lon: real, dist: real)

  /** The great circle distance from the bathing site to `(lat, lon)`. */
  type Distance = (real, real) -> real

  /** Candidate `i` pairs coordinate rows `2i` (id and longitude) and `2i+1` (latitude). */
  function PairAt(rows: seq<CoordRow>, i: nat, dist: Distance): Candidate
    requires 2 * i + 1 < |rows|
  {
    var lat := rows[2 * i + 1].coordinate;
    var lon := rows[2 * i].coordinate;
    Candidate(rows[2 * i].stationId, lat, lon, dist(lat, lon))
  }

  function Pairs(rows: seq<CoordRow>, dist: Distance): (cs: seq<Candidate>)
    ensures |cs| == |rows| / 2
  {
    seq(|rows| / 2, i requires 0 <= i < |rows| / 2 => PairAt(rows, i, dist))
  }

  /** The `df_dist` loop of `location_ids`, over `range(int(len(df)/2))`. */
  method PairRows(rows: seq<CoordRow>, dist: Distance) returns (cs: seq<Candidate>)
    ensures cs == Pairs(rows, dist)
  {
    cs := [];
    for i := 0 to |rows| / 2
      invariant |cs| == i
      invariant forall j :: 0 <= j < i ==> cs[j] == PairAt(rows, j, dist)
    {
      var id := rows[2 * i].stationId;
      var lat := rows[2 * i + 1].coordinate;
      var lon := rows[2 * i].coordinate;
      cs := cs + [Candidate(id, lat, lon, dist(lat, lon))];
    }
  }

  /** An element that ends up in the coordinate frame after the availability filter. */
  predicate Located(e: SourceElement, ids: seq<string>) {
    e.geometry.Some? && e.id in ids
  }

  function LocatedElements(elements: seq<SourceElement>, ids: seq<string>): (r: seq<SourceElement>)
    ensures forall e :: e in r ==> e in elements && Located(e, ids)
    ensures forall i :: 0 <= i < |r| ==> r[i].geometry.Some?
  {
    if elements == [] then []
    else (if Located(elements[0], ids) then [elements[0]] else []) + LocatedElements(elements[1..], ids)
  }

  /** Filtering the coordinate frame keeps or drops each element's rows together. */
  lemma {:induction false} KeepAvailableRows(elements: seq<SourceElement>, ids: seq<string>)
    ensures KeepAvailable(CoordRows(elements), ids) == CoordRows(LocatedElements(elements, ids))
  {
    if elements != [] {
      var e := elements[0];
      KeepAvailableAppend(CoordRowsOf(e), CoordRows(elements[1..]), ids);
      KeepAvailableRows(elements[1..], ids);
      assert KeepAvailable(CoordRowsOf(e), ids) == if Located(e, ids) then CoordRowsOf(e) else [] by {
        KeepAvailableGroup(e, ids);
      }
      var le := LocatedElements(elements, ids);
      if Located(e, ids) {
        assert le == [e] + LocatedElements(elements[1..], ids);
        assert le[1..] == LocatedElements(elements[1..], ids);
      } else {
        assert le == LocatedElements(elements[1..], ids);
      }
    }
  }

  /** All rows of one element share its id, so the filter keeps all of them or none. */
  lemma {:induction false} KeepAvailableGroup(e: SourceElement, ids: seq<string>)
    ensures KeepAvailable(CoordRowsOf(e), ids) == if Located(e, ids) then CoordRowsOf(e) else []
  {
    if e.geometry.Some? {
      KeepAvailableAll(CoordRowsOf(e), e.id, ids);
    }
  }

  lemma {:induction false} KeepAvailableAll(rows: seq<CoordRow>, id: string, ids: seq<string>)
    requires forall j :: 0 <= j < |rows| ==> rows[j].stationId == id
    ensures KeepAvailable(rows, ids) == if id in ids then rows else []
  {
    if rows != [] {
      KeepAvailableAll(rows[1..], id, ids);
    }
  }

  /** With two coordinates per geometry, the frame alternates longitude and latitude of
      each element in turn. */
  lemma {:induction false} CoordRowsLayout(elements: seq<SourceElement>)
    requires forall e :: e in elements ==> e.geometry.Some? && |e.geometry.value| == 2
    ensures var rows := CoordRows(elements);
      && |rows| == 2 * |elements|
      && forall i :: 0 <= i < |elements| ==>
           && rows[2 * i] == CoordRow(elements[i].id, elements[i].geometry.value[0])
           && rows[2 * i + 1] == CoordRow(elements[i].id, elements[i].geometry.value[1])
  {
    if elements != [] {
      var rest := elements[1..];
      assert forall e :: e in rest ==> e in elements;
      CoordRowsLayout(rest);
      var head := CoordRowsOf(elements[0]);
      var tail := CoordRows(rest);
      assert |head| == 2;
      forall i | 0 <= i < |elements|
        ensures (head + tail)[2 * i] == CoordRow(elements[i].id, elements[i].geometry.value[0])
        ensures (head + tail)[2 * i + 1] == CoordRow(elements[i].id, elements[i].geometry.value[1])
      {
        if i > 0 {
          PairsShift(head, tail, i);
          assert elements[i] == rest[i - 1];
        }
      }
    }
  }

  /** Past a first pair of rows, pair `i` is pair `i - 1` of the rest. */
  lemma PairsShift(head: seq<CoordRow>, tail: seq<CoordRow>, i: nat)
    requires |head| == 2 && 0 < i && 2 * i + 1 < |head| + |tail|
    ensures (head + tail)[2 * i] == tail[2 * (i - 1)] && (head + tail)[2 * i + 1] == tail[2 * (i - 1) + 1]
  {
  }

  /** When every geometry has a longitude and a latitude, candidate `i` is the `i`-th
      located element: its id, its latitude, its longitude and the distance to them. */
  lemma PairsAligned(elements: seq<SourceElement>, ids: seq<string>, dist: Distance)
    requires forall e :: e in elements && e.geometry.Some? ==> |e.geometry.value| == 2
    ensures var located := LocatedElements(elements, ids);
      var cs := Pairs(KeepAvailable(CoordRows(elements), ids), dist);
      && |cs| == |located|
      && forall i :: 0 <= i < |cs| ==>
           var g := located[i].geometry.value;
           cs[i] == Candidate(located[i].id, g[1], g[0], dist(g[1], g[0]))
  {
    var located := LocatedElements(elements, ids);
    KeepAvailableRows(elements, ids);
    CoordRowsLayout(located);
  }

  // ---------------------------------------------------------------------------
  // `df_dist.nsmallest(n, "dist")`
  // ---------------------------------------------------------------------------

  /** pandas' order for `nsmallest(keep="first")`: by distance, then by position. */
  predicate Before(cs: seq<Candidate>, i: nat, j: nat) {
    i < |cs| && j < |cs| && (cs[i].dist < cs[j].dist || (cs[i].dist == cs[j].dist && i < j))
  }

  predicate SortedBy(cs: seq<Candidate>, s: seq<nat>) {
    forall a, b :: 0 <= a < b < |s| ==> Before(cs, s[a], s[b])
  }

  /** Inserts position `i` into sorted positions `s`. */
  function Insert(cs: seq<Candidate>, i: nat, s: seq<nat>): seq<nat> {
    if s == [] then [i]
    else if Before(cs, i, s[0]) then [i] + s
    else [s[0]] + Insert(cs, i, s[1..])
  }

  lemma BeforeTransitive(cs: seq<Candidate>, a: nat, b: nat, c: nat)
    requires Before(cs, a, b) && Before(cs, b, c)
    ensures Before(cs, a, c)
  {
  }

  /** Two distinct positions are always ordered one way or the other. */
  lemma BeforeTotal(cs: seq<Candidate>, a: nat, b: nat)
    requires a < |cs| && b < |cs| && a != b
    ensures Before(cs, a, b) || Before(cs, b, a)
  {
  }

  lemma SortedCons(cs: seq<Candidate>, x: nat, s: seq<nat>)
    requires SortedBy(cs, s)
    requires forall b :: 0 <= b < |s| ==> Before(cs, x, s[b])
    ensures SortedBy(cs, [x] + s)
  {
    var r := [x] + s;
    forall a, b | 0 <= a < b < |r| ensures Before(cs, r[a], r[b]) {
      if a > 0 {
        assert r[a] == s[a - 1] && r[b] == s[b - 1];
      }
    }
  }

  lemma {:induction false} InsertElements(cs: seq<Candidate>, i: nat, s: seq<nat>)
    ensures multiset(Insert(cs, i, s)) == multiset(s) + multiset{i}
    ensures |Insert(cs, i, s)| == |s| + 1
    ensures forall x :: x in Insert(cs, i, s) <==> x in s || x == i
  {
    if s != [] && !Before(cs, i, s[0]) {
      InsertElements(cs, i, s[1..]);
      assert s == [s[0]] + s[1..];
    }
  }

  lemma {:induction false} InsertSorted(cs: seq<Candidate>, i: nat, s: seq<nat>)
    requires i < |cs| && i !in s
    requires forall x :: x in s ==> x < |cs|
    requires SortedBy(cs, s)
    ensures SortedBy(cs, Insert(cs, i, s))
  {
    if s == [] {
    } else if Before(cs, i, s[0]) {
      forall b | 0 <= b < |s| ensures Before(cs, i, s[b]) {
        if b > 0 {
          BeforeTransitive(cs, i, s[0], s[b]);
        }
      }
      SortedCons(cs, i, s);
    } else {
      assert s[0] in s;
      BeforeTotal(cs, i, s[0]);
      assert SortedBy(cs, s[1..]);
      InsertSorted(cs, i, s[1..]);
      InsertElements(cs, i, s[1..]);
      var t := Insert(cs, i, s[1..]);
      forall b | 0 <= b < |t| ensures Before(cs, s[0], t[b]) {
        assert t[b] in t;
        if t[b] != i {
          var c :| 0 <= c < |s[1..]| && s[1..][c] == t[b];
          assert s[c + 1] == t[b];
        }
      }
      SortedCons(cs, s[0], t);
    }
  }

  /** Positions `0..n-1` in `nsmallest` order. */
  function SortPositions(cs: seq<Candidate>, n: nat): seq<nat>
    requires n <= |cs|
  {
    if n == 0 then [] else Insert(cs, n - 1, SortPositions(cs, n - 1))
  }

  lemma {:induction false} SortPositionsSpec(cs: seq<Candidate>, n: nat)
    requires n <= |cs|
    ensures var s := SortPositions(cs, n);
      && SortedBy(cs, s)
      && |s| == n
      && (forall x :: x in s <==> 0 <= x < n)
  {
    if n > 0 {
      SortPositionsSpec(cs, n - 1);
      var s := SortPositions(cs, n - 1);
      InsertElements(cs, n - 1, s);
      InsertSorted(cs, n - 1, s);
    }
  }

  /** The positions `nsmallest(n)` keeps, in its order. */
  function NSmallestPositions(cs: seq<Candidate>, n: nat): (ps: seq<nat>)
    ensures |ps| == if n < |cs| then n else |cs|
    ensures forall j :: 0 <= j < |ps| ==> ps[j] < |cs|
  {
    SortPositionsSpec(cs, |cs|);
    var s := SortPositions(cs, |cs|);
    var ps := s[..if n < |s| then n else |s|];
    assert forall j :: 0 <= j < |ps| ==> ps[j] in s;
    ps
  }

  /** The station ids `location_ids` returns. */
  function NSmallestIds(cs: seq<Candidate>, n: nat): (ids: seq<string>)
  {
    var ps := NSmallestPositions(cs, n);
    seq(|ps|, j requires 0 <= j < |ps| => cs[ps[j]].stationId)
  }

  /** `nsmallest(n, "dist")` keeps `min(n, len)` distinct candidates in ascending
      distance, equal distances in their original order, and every candidate it drops is
      farther than, or as far as but after, every candidate it keeps. */
  lemma NSmallestSpec(cs: seq<Candidate>, n: nat)
    ensures var ps := NSmallestPositions(cs, n);
      && |ps| == (if n < |cs| then n else |cs|)
      && (forall j :: 0 <= j < |ps| ==> ps[j] < |cs|)
      && Distinct(ps)
      && (forall a, b :: 0 <= a < b < |ps| ==> cs[ps[a]].dist <= cs[ps[b]].dist)
      && (forall a, b :: 0 <= a < b < |ps| && cs[ps[a]].dist == cs[ps[b]].dist ==> ps[a] < ps[b])
      && (forall a, x :: 0 <= a < |ps| && 0 <= x < |cs| && x !in ps ==> Before(cs, ps[a], x))
  {
    var s := SortPositions(cs, |cs|);
    SortPositionsSpec(cs, |cs|);
    var m := if n < |s| then n else |s|;
    var ps := s[..m];
    assert forall j :: 0 <= j < |ps| ==> ps[j] == s[j];
    assert forall b :: 0 <= b < m ==> s[b] in ps;
    forall a, x | 0 <= a < |ps| && 0 <= x < |cs| && x !in ps ensures Before(cs, ps[a], x) {
      assert x in s;
      var b :| 0 <= b < |s| && s[b] == x;
    }
  }

  // ---------------------------------------------------------------------------
  // `location_ids`
  // ---------------------------------------------------------------------------

  /** Why `location_ids` raises on answers the servers can give: each is a `KeyError`. */
  datatype LocationError =
    | NoGeometry      // no element has a geometry: `df` has no `station_id` column
    | NoAvailability  // the availability answer is empty: `df_availability` has no `id` column
    | NoCandidates    // no station is left: `df_dist` has no `dist` column for `nsmallest`

  /** Whether some element of the `sources` answer has a geometry. */
  predicate SomeGeometry(elements: seq<SourceElement>) {
    exists i :: 0 <= i < |elements| && elements[i].geometry.Some?
  }

  /** `location_ids(location, n, param)` on the two server answers: the `sources`
      elements and the availability `sourceId`s. The filter reads `df['station_id']`
      before `df_availability["id"]`. */
  function LocationIdsResult(elements: seq<SourceElement>, sourceIds: seq<string>, n: nat, dist: Distance): Result<seq<string>, LocationError> {
    if !SomeGeometry(elements) then Err(NoGeometry)
    else if sourceIds == [] then Err(NoAvailability)
    else
      var cs := Pairs(KeepAvailable(CoordRows(elements), NormalisedIds(sourceIds)), dist);
      if cs == [] then Err(NoCandidates) else Ok(NSmallestIds(cs, n))
  }

  /** The statement sequence of `location_ids` after both answers have arrived. */
  method LocationIds(elements: seq<SourceElement>, sourceIds: seq<string>, n: nat, dist: Distance)
    returns (r: Result<seq<string>, LocationError>)
    ensures r == LocationIdsResult(elements, sourceIds, n, dist)
  {
    var df := BuildCoordRows(elements);
    if !SomeGeometry(elements) {
      return Err(NoGeometry);
    }
    var ids := AvailableIds(sourceIds);
    if ids == [] {
      return Err(NoAvailability);
    }
    df := KeepAvailable(df, ids);
    var dfDist := PairRows(df, dist);
    if dfDist == [] {
      return Err(NoCandidates);
    }
    var top := NSmallestIds(dfDist, n);
    r := Ok(top);
  }

  /** What the station list promises: at most `n` ids, `min(n, |located|)` of them, each
      the id of a located element and available. */
  predicate RankedAnswer(r: seq<string>, n: nat, located: seq<SourceElement>, ids: seq<string>) {
    && |r| <= n
    && |r| == (if n < |located| then n else |located|)
    && (forall j :: 0 <= j < |r| ==> r[j] in ElementIds(located))
    && (forall j :: 0 <= j < |r| ==> r[j] in ids)
  }

  /** The ids of some elements, in order. */
  function ElementIds(es: seq<SourceElement>): (r: seq<string>)
    ensures |r| == |es| && forall i :: 0 <= i < |es| ==> r[i] == es[i].id
  {
    seq(|es|, i requires 0 <= i < |es| => es[i].id)
  }

  /** `location_ids` answers exactly when some element has a geometry, the availability
      answer is not empty and some such station is located; the answer then holds at
      most `n` stations, `min(n, located)` of them, each the id of a located and
      available element. */
  lemma LocationIdsRanked(elements: seq<SourceElement>, sourceIds: seq<string>, n: nat, dist: Distance)
    requires forall e :: e in elements && e.geometry.Some? ==> |e.geometry.value| == 2
    ensures var ids := NormalisedIds(sourceIds);
      var located := LocatedElements(elements, ids);
      var r := LocationIdsResult(elements, sourceIds, n, dist);
      && (r == Err(NoGeometry) <==> forall e :: e in elements ==> e.geometry.None?)
      && (r == Err(NoAvailability) <==> SomeGeometry(elements) && sourceIds == [])
      && (r == Err(NoCandidates) <==> SomeGeometry(elements) && sourceIds != [] && located == [])
      && (r.Ok? <==> SomeGeometry(elements) && sourceIds != [] && located != [])
      && (r.Ok? ==> RankedAnswer(r.value, n, located, ids))
  {
    var ids := NormalisedIds(sourceIds);
    var located := LocatedElements(elements, ids);
    var cs := Pairs(KeepAvailable(CoordRows(elements), ids), dist);
    PairsIds(elements, ids, dist);
    NoGeometryAll(elements);
    var r := LocationIdsResult(elements, sourceIds, n, dist);
    if !SomeGeometry(elements) {
      assert r == Err(NoGeometry);
    } else if sourceIds == [] {
      assert r == Err(NoAvailability);
    } else if cs == [] {
      assert r == Err(NoCandidates);
    } else {
      assert r == Ok(NSmallestIds(cs, n));
      RankedIds(elements, ids, n, dist);
    }
  }

  /** No element has a geometry exactly when every element lacks one. */
  lemma NoGeometryAll(elements: seq<SourceElement>)
    ensures !SomeGeometry(elements) <==> forall e :: e in elements ==> e.geometry.None?
  {
    if !SomeGeometry(elements) {
      forall e | e in elements ensures e.geometry.None? {
        var i :| 0 <= i < |elements| && elements[i] == e;
      }
    } else {
      var k :| 0 <= k < |elements| && elements[k].geometry.Some?;
      assert elements[k] in elements;
    }
  }

  /** The `n` nearest candidates form a ranked answer. */
  lemma RankedIds(elements: seq<SourceElement>, ids: seq<string>, n: nat, dist: Distance)
    requires forall e :: e in elements && e.geometry.Some? ==> |e.geometry.value| == 2
    ensures RankedAnswer(NSmallestIds(Pairs(KeepAvailable(CoordRows(elements), ids), dist), n),
                         n, LocatedElements(elements, ids), ids)
  {
    var located := LocatedElements(elements, ids);
    PairsIds(elements, ids, dist);
    assert forall e :: e in located ==> e.id in ids;
    RankedFrom(Pairs(KeepAvailable(CoordRows(elements), ids), dist), located, ids, n);
  }

  /** Candidates labelled by available elements, in order, rank into a ranked answer. */
  lemma RankedFrom(cs: seq<Candidate>, located: seq<SourceElement>, ids: seq<string>, n: nat)
    requires |cs| == |located|
    requires forall i :: 0 <= i < |cs| ==> cs[i].stationId == located[i].id
    requires forall e :: e in located ==> e.id in ids
    ensures RankedAnswer(NSmallestIds(cs, n), n, located, ids)
  {
    var ps := NSmallestPositions(cs, n);
    var r := NSmallestIds(cs, n);
    assert |r| == |ps| == (if n < |located| then n else |located|);
    forall j | 0 <= j < |r| ensures r[j] in ElementIds(located) {
      assert r[j] == ElementIds(located)[ps[j]];
    }
    forall j | 0 <= j < |r| ensures r[j] in ids {
      var i := ps[j];
      assert r[j] == located[i].id;
      assert located[i] in located;
    }
  }

  /** Candidate `i` carries the id of the `i`-th located element. */
  lemma PairsIds(elements: seq<SourceElement>, ids: seq<string>, dist: Distance)
    requires forall e :: e in elements && e.geometry.Some? ==> |e.geometry.value| == 2
    ensures var located := LocatedElements(elements, ids);
      var cs := Pairs(KeepAvailable(CoordRows(elements), ids), dist);
      && |cs| == |located|
      && forall i :: 0 <= i < |cs| ==> cs[i].stationId == located[i].id
  {
    PairsAligned(elements, ids, dist);
  }
}
