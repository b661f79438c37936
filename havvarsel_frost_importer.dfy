/** HavvarselFrostImporter.py: the query for the bathing-water observations of one
    buoy, the rows made from the observations, and their hourly resampling. */
module HavvarselFrostImporter {
  import opened Wrappers
  import opened Text
  import opened Calendar
  import opened Seqs
  import opened Series

  // ---------------------------------------------------------------------------
  // The query string
  // ---------------------------------------------------------------------------

  /** `frost_api_base + "/api/v1/obs/badevann/get"`. */
  function Endpoint(base: string): string {
    base + "/api/v1/obs/badevann/get"
  }

  /** The `"k=v"` pairs of the payload, in the dictionary's order. */
  function PayloadPairs(start: DateTime, end: DateTime, stationId: string, param: string): seq<string>
    requires Valid(start) && Valid(end)
  {
    ["time=" + PeriodString(start, end), "incobs=true", "buoyids=" + stationId, "parameter=" + param]
  }

  /** `"&".join("%s=%s" % (k, v) for k, v in payload.items())`. */
  function Payload(start: DateTime, end: DateTime, stationId: string, param: string): string
    requires Valid(start) && Valid(end)
  {
    Join(PayloadPairs(start, end, stationId, param), '&')
  }

  /** Reads the period, the buoy and the parameter back from a query string. */
  function ParsePayload(q: string): Option<(DateTime, DateTime, string, string)> {
    var parts := Split(q, '&');
    if |parts| == 4 && StartsWith(parts[0], "time=") && parts[1] == "incobs=true"
       && StartsWith(parts[2], "buoyids=") && StartsWith(parts[3], "parameter=")
    then
      match ParsePeriod(parts[0][5..])
      case None => None
      case Some((a, b)) => Some((a, b, parts[2][8..], parts[3][10..]))
    else None
  }

  /** An ISO date-time holds no `&`. */
  lemma IsoFormatHasNoAmpersand(dt: DateTime)
    requires Valid(dt)
    ensures '&' !in IsoFormat(dt)
  {
    var digits := [Pad(dt.year, 4), Pad(dt.month, 2), Pad(dt.day, 2), Pad(dt.hour, 2), Pad(dt.minute, 2)];
    forall k | 0 <= k < 5 ensures '&' !in digits[k] {
      DigitsHaveNoAmpersand(digits[k]);
    }
  }

  lemma DigitsHaveNoAmpersand(s: string)
    requires AllDigits(s)
    ensures '&' !in s
  {
    forall i | 0 <= i < |s| ensures s[i] != '&' {
      assert IsDigit(s[i]);
    }
  }

  /** The query string names the period, the buoy and the parameter it was built from,
      in the order `time`, `incobs`, `buoyids`, `parameter`, as long as the buoy id and
      the parameter hold no `&`. */
  lemma ParsePayloadOf(start: DateTime, end: DateTime, stationId: string, param: string)
    requires Valid(start) && Valid(end)
    requires '&' !in stationId && '&' !in param
    ensures Split(Payload(start, end, stationId, param), '&') == PayloadPairs(start, end, stationId, param)
    ensures ParsePayload(Payload(start, end, stationId, param)) == Some((start, end, stationId, param))
  {
    var pairs := PayloadPairs(start, end, stationId, param);
    var period := PeriodString(start, end);
    IsoFormatHasNoAmpersand(start);
    IsoFormatHasNoAmpersand(end);
    assert period == IsoFormat(start) + "Z/" + IsoFormat(end) + "Z";
    assert '&' !in period;
    assert forall i :: 0 <= i < 4 ==> '&' !in pairs[i];
    SplitJoin(pairs, '&');
    assert pairs[0][5..] == period;
    assert pairs[2][8..] == stationId;
    assert pairs[3][10..] == param;
    ParsePeriodString(start, end);
  }

  // ---------------------------------------------------------------------------
  // The response and its rows
  // ---------------------------------------------------------------------------

  /** One element of `observations`: its `time` and `body.value`. */
  datatype Observation = Observation(time: DateTime, value: Cell)

  /** The `header` of the time series: `id.buoyid`, `id.parameter`, `extra.name` and
      `extra.pos`. */
  datatype Header = Header(buoyid: string, parameter: string, name: string, lon: real, lat: real)

  /** The first time series of the response. */
  datatype Response = Response(header: Header, observations: seq<Observation>)

  /** `requests.get(endpoint, params=query)` with `raise_for_status`: a response, or
      nothing for an HTTP error. */
  type Fetch = (string, string) -> Option<Response>

  /** `df_location`: one row with the columns `buoyid`, `parameter`, `name`, `lon`, `lat`. */
  datatype Location = Location(buoyid: string, parameter: string, name: string, lon: real, lat: real)

  const LocationColumns: seq<string> := ["buoyid", "parameter", "name", "lon", "lat"]

  /** The location record copies the header's five fields. */
  function LocationOf(h: Header): (l: Location)
    ensures [l.buoyid, l.parameter, l.name] == [h.buoyid, h.parameter, h.name]
    ensures l.lon == h.lon && l.lat == h.lat
  {
    Location(h.buoyid, h.parameter, h.name, h.lon, h.lat)
  }

  /** The row of one observation: its time in minutes and its value. */
  function RowOf(o: Observation): Row {
    Row(ToMinutes(o.time), [o.value])
  }

  /** The loop building `rows`: one row per observation, in input order. */
  method ObservationRows(observations: seq<Observation>) returns (rows: seq<Row>)
    ensures |rows| == |observations| && HasWidth(rows, 1)
    ensures forall i :: 0 <= i < |rows| ==>
      rows[i].time == ToMinutes(observations[i].time) && rows[i].cells == [observations[i].value]
  {
    rows := [];
    for i := 0 to |observations|
      invariant |rows| == i
      invariant forall j :: 0 <= j < i ==> rows[j] == RowOf(observations[j])
    {
      var data := observations[i];
      rows := rows + [Row(ToMinutes(data.time), [data.value])];
    }
  }

  // ---------------------------------------------------------------------------
  // `resample("H", on="time").agg({"water_temp": "first"})`
  // ---------------------------------------------------------------------------

  /** The hour a time (in minutes) falls in: `floor(t / 60)`. */
  function Hour(t: int): int {
    t / 60
  }

  lemma HourBounds(t: int)
    ensures Hour(t) * 60 <= t < Hour(t) * 60 + 60
  {
  }

  lemma HourMonotone(a: int, b: int)
    requires a <= b
    ensures Hour(a) <= Hour(b)
  {
    HourBounds(a);
    HourBounds(b);
  }

  /** Row `i` has a value and falls in hour `h`. */
  predicate Counts(rows: seq<Row>, i: int, h: int)
    requires HasWidth(rows, 1) && 0 <= i < |rows|
  {
    Hour(rows[i].time) == h && rows[i].cells[0].Some?
  }

  /** Row `i` comes before row `j` once the rows are stably sorted by time. */
  predicate Earlier(rows: seq<Row>, i: int, j: int)
    requires 0 <= i < |rows| && 0 <= j < |rows|
  {
    rows[i].time < rows[j].time || (rows[i].time == rows[j].time && i < j)
  }

  /** Among the first `n` rows, the one `first` takes for hour `h`: the earliest row of
      that hour with a value, ties going to the earlier row. */
  function FirstOfHour(rows: seq<Row>, h: int, n: nat): (b: Option<nat>)
    requires HasWidth(rows, 1) && n <= |rows|
    ensures b.Some? ==> b.value < n && Counts(rows, b.value, h)
    ensures b.Some? ==> forall j :: 0 <= j < n && j != b.value && Counts(rows, j, h) ==> Earlier(rows, b.value, j)
    ensures b.None? <==> forall j :: 0 <= j < n ==> !Counts(rows, j, h)
  {
    if n == 0 then None
    else
      var b := FirstOfHour(rows, h, n - 1);
      if !Counts(rows, n - 1, h) then b
      else if b.None? || rows[n - 1].time < rows[b.value].time then Some(n - 1)
      else b
  }

  /** The value of hour `h`: NaN when no row of that hour has a value. */
  function HourValue(rows: seq<Row>, h: int): Cell
    requires HasWidth(rows, 1)
  {
    match FirstOfHour(rows, h, |rows|)
    case None => None
    case Some(k) => rows[k].cells[0]
  }

  /** The resampled frame: one row per hour from the hour of the earliest time to the
      hour of the latest, labelled with the hour's start. */
  function Resample(rows: seq<Row>): (r: seq<Row>)
    requires HasWidth(rows, 1)
  {
    if rows == [] then []
    else
      var lo := Hour(Min(Times(rows)));
      var hi := Hour(Max(Times(rows)));
      HourMonotone(Min(Times(rows)), Max(Times(rows)));
      seq(hi - lo + 1, k requires 0 <= k < hi - lo + 1 => Row((lo + k) * 60, [HourValue(rows, lo + k)]))
  }

  /** Every resampled row is labelled at an hour boundary, the labels rise by one hour
      from the hour of the earliest observation to the hour of the latest, both ends are
      hours some observation falls in, and every observation's hour has its row. */
  lemma ResampleHours(rows: seq<Row>)
    requires HasWidth(rows, 1) && rows != []
    ensures var r := Resample(rows);
      && |r| > 0 && HasWidth(r, 1)
      && (forall k :: 0 <= k < |r| ==> r[k].time % 60 == 0 && r[k].time == r[0].time + 60 * k)
      && r[0].time == Hour(Min(Times(rows))) * 60
      && r[|r| - 1].time == Hour(Max(Times(rows))) * 60
      && (exists j :: 0 <= j < |rows| && Hour(rows[j].time) * 60 == r[0].time)
      && (exists j :: 0 <= j < |rows| && Hour(rows[j].time) * 60 == r[|r| - 1].time)
      && (forall j :: 0 <= j < |rows| ==>
            && 0 <= Hour(rows[j].time) * 60 - r[0].time < 60 * |r|
            && r[0].time <= rows[j].time < r[|r| - 1].time + 60)
  {
    var ts := Times(rows);
    var lo := Hour(Min(ts));
    var hi := Hour(Max(ts));
    HourMonotone(Min(ts), Max(ts));
    var first := FirstArgmin(ts);
    assert Hour(rows[first].time) == lo;
    var last :| 0 <= last < |ts| && ts[last] == Max(ts);
    assert Hour(rows[last].time) == hi;
    forall j | 0 <= j < |rows|
      ensures 0 <= Hour(rows[j].time) * 60 - lo * 60 < 60 * (hi - lo + 1)
      ensures lo * 60 <= rows[j].time < hi * 60 + 60
    {
      assert ts[j] == rows[j].time;
      HourMonotone(Min(ts), ts[j]);
      HourMonotone(ts[j], Max(ts));
      HourBounds(ts[j]);
    }
  }

  /** Nothing is fabricated: a resampled value is the value of an observation of that
      hour, namely the earliest one, ties going to input order; the value is NaN exactly
      when no observation of the hour has one. */
  lemma ResampleValues(rows: seq<Row>, k: nat)
    requires HasWidth(rows, 1) && k < |Resample(rows)|
    ensures var r := Resample(rows);
      && (r[k].cells[0].None? <==> forall j :: 0 <= j < |rows| ==> !Counts(rows, j, Hour(r[k].time)))
      && (r[k].cells[0].Some? ==>
            exists j :: 0 <= j < |rows| && Counts(rows, j, Hour(r[k].time)) && rows[j].cells[0] == r[k].cells[0]
              && forall i :: 0 <= i < |rows| && i != j && Counts(rows, i, Hour(r[k].time)) ==> Earlier(rows, j, i))
  {
    var r := Resample(rows);
    var lo := Hour(Min(Times(rows)));
    assert r[k].time == (lo + k) * 60;
    assert Hour(r[k].time) == lo + k;
    var b := FirstOfHour(rows, lo + k, |rows|);
    if b.Some? {
      assert rows[b.value].cells[0] == r[k].cells[0];
    }
  }

  /** On observations in time order, the value of an hour is that of the first
      observation of the hour, in input order, that has one. */
  lemma ResampleSortedFirst(rows: seq<Row>, h: int, j: nat)
    requires HasWidth(rows, 1) && NonDecreasing(Times(rows))
    requires j < |rows| && Counts(rows, j, h)
    requires forall i :: 0 <= i < j ==> !Counts(rows, i, h)
    ensures HourValue(rows, h) == rows[j].cells[0]
  {
    var b := FirstOfHour(rows, h, |rows|).value;
    assert Times(rows)[j] == rows[j].time && Times(rows)[b] == rows[b].time;
    assert b >= j;
    assert rows[j].time <= rows[b].time;
  }

  // ---------------------------------------------------------------------------
  // `data`
  // ---------------------------------------------------------------------------

  datatype HavvarselError =
    | HttpError       // `raise_for_status` raises
    | NoObservations  // the frame of no rows has no `time` column: `df['time']` raises

  /** The two frames of `data(station_id, param, frost_api_base, start_time, end_time)`:
      the location and the hourly water temperature. */
  function DataResult(fetch: Fetch, base: string, stationId: string, param: string,
                      start: DateTime, end: DateTime): Result<(Location, Table), HavvarselError>
    requires Valid(start) && Valid(end)
  {
    match fetch(Endpoint(base), Payload(start, end, stationId, param))
    case None => Err(HttpError)
    case Some(resp) =>
      if resp.observations == [] then Err(NoObservations)
      else
        var rows := seq(|resp.observations|, i requires 0 <= i < |resp.observations| => RowOf(resp.observations[i]));
        Ok((LocationOf(resp.header), Table(["water_temp"], Resample(rows))))
  }

  /** `data`: fetch, build the rows, resample. */
  method Data(fetch: Fetch, base: string, stationId: string, param: string,
              start: DateTime, end: DateTime) returns (r: Result<(Location, Table), HavvarselError>)
    requires Valid(start) && Valid(end)
    ensures r == DataResult(fetch, base, stationId, param, start, end)
  {
    var endpoint := Endpoint(base);
    var payloadStr := Payload(start, end, stationId, param);
    var resp := fetch(endpoint, payloadStr);
    if resp.None? {
      return Err(HttpError);
    }
    var headerList := LocationOf(resp.value.header);
    var rows := ObservationRows(resp.value.observations);
    if rows == [] {
      return Err(NoObservations);
    }
    assert rows == seq(|resp.value.observations|, i requires 0 <= i < |resp.value.observations| =>
      RowOf(resp.value.observations[i]));
    var df := Table(["water_temp"], Resample(rows));
    r := Ok((headerList, df));
  }

  /** A successful call asked the server for this buoy, parameter and period, and
      returns a well-formed hourly frame with the single column `water_temp` covering
      every observation, and the header's location. */
  lemma DataOk(fetch: Fetch, base: string, stationId: string, param: string, start: DateTime, end: DateTime)
    requires Valid(start) && Valid(end)
    requires DataResult(fetch, base, stationId, param, start, end).Ok?
    ensures var (loc, t) := DataResult(fetch, base, stationId, param, start, end).value;
      var resp := fetch(Endpoint(base), Payload(start, end, stationId, param));
      && resp.Some? && loc == LocationOf(resp.value.header)
      && t.columns == ["water_temp"] && WellFormed(t) && |t.rows| > 0
      && forall i :: 0 <= i < |resp.value.observations| ==>
           t.rows[0].time <= ToMinutes(resp.value.observations[i].time) < t.rows[|t.rows| - 1].time + 60
  {
    var resp := fetch(Endpoint(base), Payload(start, end, stationId, param)).value;
    var rows := seq(|resp.observations|, i requires 0 <= i < |resp.observations| => RowOf(resp.observations[i]));
    ResampleHours(rows);
    var t := DataResult(fetch, base, stationId, param, start, end).value.1;
    assert t.rows == Resample(rows);
    forall i | 0 <= i < |resp.observations|
      ensures t.rows[0].time <= ToMinutes(resp.observations[i].time) < t.rows[|t.rows| - 1].time + 60
    {
      assert rows[i].time == ToMinutes(resp.observations[i].time);
    }
  }
}
