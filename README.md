# Timeseries importer: a Dafny model

This project models the data-assembly core of a timeseries importer. The importer builds
a training data set for predicting bathing-water temperatures at a bathing site. It reads
from three sources:

- **Havvarsel Frost** (`HavvarselFrostImporter.py`): the observed water temperature of one
  buoy, resampled to whole hours.
- **Frost** (`FrostImporter.py`): station observations fetched in one request per
  calendar year, and the `n` available stations nearest to the bathing site.
- **NorKyst-800** (`NorKystImporter.py`): ocean-model temperature at chosen depths, read
  from one netCDF file per day at the grid cell nearest to the site.

`DataImporter.py` joins these into one frame:

- It lays out an hourly grid.
- It restricts every auxiliary series to the grid's times.
- It imputes missing times from the nearest observation.
- It left-joins the result on time and renames the new columns.

The files of the model are:

| file | module | models |
|---|---|---|
| `wrappers.dfy` | `Wrappers` | `Option` and `Result` |
| `text.dfy` | `Text` | digits, zero padding, `split`/`join`, `str.replace`, substring search |
| `calendar.dfy` | `Calendar` | naive `datetime` values to the minute, day numbers of the proleptic Gregorian calendar, `isoformat` and its parse, `timedelta(days)` steps |
| `seqs.dfy` | `Seqs` | numpy's `argmin`, orderings, concatenation of pieces |
| `series.dfy` | `Series` | a data frame reduced to a time index, rows of cells (`None` is NaN) and column labels |
| `data_importer.dfy` | `DataImporter` | hourly grid, restriction, nearest imputation, left join, renaming |
| `frost_importer.dfy` | `FrostImporter` | yearly batches and their requests, the batch loop, the coordinate frame, station-id normalisation, `nsmallest` |
| `norkyst_importer.dfy` | `NorKystImporter` | day range, file names, dropping unopenable files, grid cell, depth and time indices, `data1file`, stitching, and the importer class with its two caches |
| `havvarsel_frost_importer.dfy` | `HavvarselFrostImporter` | query string, observation rows, hourly resampling with `first`, the result frames |

## Representation

**Times**
- A time is a `DateTime` record truncated to the minute.
- Frames index time as whole minutes since 1970-01-01T00:00 (`Calendar.ToMinutes`), via the
  standard `days_from_civil` algorithm.
- Python's comparison of datetimes is lexicographic (`Calendar.LessEq`). On valid datetimes
  it agrees with the order of their minute counts (`Calendar.LessEqMinutes`).

**Numbers and outside services**
- Floating-point values are opaque `real` cells.
- Projected coordinates and distances are integers.
- The HTTP servers and the netCDF files become parameters:
  - a `Fetch` function for each HTTP API;
  - an `Archive` map from file name to file contents for the archive.
- `netCDF4.date2index` is an optional index given as input:
  - `before` is the index `select="before"` returns;
  - `after` is the index `select="after"` returns;
  - `None` stands for the lookup raising.
- Python exceptions become the `Err` cases of a `Result`. The `None` returns of
  `FrostImporter.data` become `None`.

**The NorKyst importer class**
- `NorKystImporter` keeps its file list and grid cell between calls. It is a Dafny class with
  those fields.
- `NorKystData` is proved to equal a pure specification function, `NorKystResult`. That
  function maps the old cache to the result and the new cache.

## Where the model follows the code rather than its documented behaviour

- **Nearest-in-time imputation.** It uses `get_loc(method="nearest")` on a unique, increasing
  index. On a tie it answers the later time, not the earlier one.
- **`FrostImporter.data`.** The whole call returns `None` as soon as one yearly request fails.
  No partial series is returned.
- **NorKyst grid cell.** A cell is land exactly when its depth `h` equals the grid's minimum.
  A grid that is all land still yields a cell. No error is raised.
- **NorKyst column label for a single depth.** The label stays the integer `0`: the rename
  `{"0": str(depth)}` names the string `"0"`, which matches no column.
- **Frost station search with nothing to rank.** `location_ids` raises `KeyError` when no
  source element has a geometry, when the availability answer is empty, or when no station is
  left to rank. Each time the frame it reads was built from no rows and lacks the column the
  code asks for. The model returns an error in each case (`FrostImporter.LocationError`).
- **Imputation test by row count.** `left_join` imputes only when the data frame has more rows
  than the restricted series. A source that repeats a time can mask a missing data time; the
  model keeps this test (`RowCountMissesRepeatedTimes`).
- **Havvarsel response without observations.** It is an error. The frame built from no rows
  has no columns, so reading its `time` column (`HavvarselFrostImporter.py:98`) raises
  `KeyError`.
- **Hourly `first`.** `resample` orders the rows by time before `first` takes a value, so an
  hour's value is that of its earliest valued observation, ties going to input order. It is the
  first in input order when the observations arrive in time order (`ResampleSortedFirst`).

## Model

| member | source | states |
|---|---|---|
| DataImporter.HourlyGrid | DataImporter.py:65 | one grid point per hour from the start, `(end-start)/60+1` of them, none when the end precedes the start |
| DataImporter.HourlyGridBounds | DataImporter.py:65 | for a start no later than the end, the grid starts at the start time and its last point is at most the end time and less than an hour before it |
| DataImporter.HourlyGridMembership | DataImporter.py:65 | a time is on the grid exactly when it lies between start and end a whole number of hours after the start |
| DataImporter.ExampleGridHas48Hours | DataImporter.py:15-16 | the documented example period 2020-09-01T00:00 to 2020-09-02T23:59 gives 48 hourly rows |
| DataImporter.Restrict | DataImporter.py:176 | the restriction keeps exactly the rows whose time is among the data times |
| DataImporter.RestrictAppend | DataImporter.py:176 | restriction distributes over concatenation, so the kept rows stay in source order |
| DataImporter.RestrictIncreasing | DataImporter.py:176 | restricting a series with strictly increasing times keeps them strictly increasing |
| DataImporter.RestrictDistinct | DataImporter.py:176 | restricting a series without repeated times leaves none |
| DataImporter.RestrictKeepsTime | DataImporter.py:176 | a source time that is also a data time survives the restriction |
| DataImporter.RestrictTimes | DataImporter.py:176 | every time of the restricted series is both a source time and a data time |
| DataImporter.Missing | DataImporter.py:207 | the missing times are exactly the data times absent from the source |
| DataImporter.MissingDistinct | DataImporter.py:207 | distinct data times give distinct missing times |
| DataImporter.FirstAtLeast | DataImporter.py:217 | the insertion point of a time: all earlier positions hold smaller times, the position itself a time not smaller |
| DataImporter.NearestIndex | DataImporter.py:217 | on a non-empty, strictly increasing index, the nearest lookup answers a position at minimal distance, the later of two equally near ones |
| DataImporter.NearestUnique | DataImporter.py:217 | the position the nearest lookup answers is unique |
| DataImporter.NearestExact | DataImporter.py:217 | in a strictly increasing index, a time present in the index is its own nearest time |
| DataImporter.ImputeMissing | DataImporter.py:202-232 | the loop equals the imputation function: an error when no data time is missing (empty fill frame) or the source is empty or not strictly increasing, otherwise `ts` followed by one fill row per missing time |
| DataImporter.ImputeRows | DataImporter.py:207-227 | the result keeps `ts` as its prefix, then for each missing time a row at that time with the cells of a nearest source row |
| DataImporter.FillTimes | DataImporter.py:211-221 | for a non-empty source with strictly increasing times, the fill rows carry exactly the missing times, in order |
| DataImporter.RestrictedAndMissingCover | DataImporter.py:176-207 | every data time is a time of the restricted series or a missing time |
| DataImporter.RestrictedAndMissingDistinct | DataImporter.py:176-207 | for a source with strictly increasing times and data times without repeats, the restricted series and the missing times share no time and repeat none |
| DataImporter.ImputeCovers | DataImporter.py:180-182 | for a non-empty source with strictly increasing times, data times without repeats and at least one missing time, imputing the restricted series succeeds, covers every data time and repeats none |
| DataImporter.RowCountDetectsMissing | DataImporter.py:180 | when neither the data times nor the source times repeat, the row-count test of `left_join` holds exactly when some data time is missing from the source |
| DataImporter.RowCountMissesRepeatedTimes | DataImporter.py:180 | the hypothesis above is needed: data times 0 and 60 against a source with two rows at 0 give equal row counts although 60 is missing, so `left_join` does not impute it |
| DataImporter.PreparedWidth | DataImporter.py:174-182 | when preparation succeeds on a source of row width `n`, the series prepared for the join keeps that row width |
| DataImporter.RestrictedCells | DataImporter.py:176 | for a non-empty source with strictly increasing times, each restricted row copies the cells of the source row nearest its time |
| DataImporter.PreparedCovers | DataImporter.py:174-182 | for a non-empty source with strictly increasing times and data times without repeats, preparation succeeds, covers every data time once and carries the cells of the nearest source row at every time |
| DataImporter.ParamColumnsFrom | DataImporter.py:185 | the selected positions are exactly the columns from `from` on whose name contains the key, in increasing order |
| DataImporter.ParamColumns | DataImporter.py:185 | the selected positions are exactly the columns whose name contains the lower-cased element, in column order |
| DataImporter.Project | DataImporter.py:191 | the projection has one cell per selected column |
| DataImporter.Absent | DataImporter.py:191 | an unmatched row of the left merge gets NaN in every new column |
| DataImporter.MatchUnique | DataImporter.py:191 | against a series without repeated times a time matches at most one row, and one exactly when present |
| DataImporter.MergeRowUnique | DataImporter.py:191 | against a right series without repeated times, a base row contributes a single joined row carrying its time, its cells and the matching cells or NaN |
| DataImporter.LeftMergeUnique | DataImporter.py:191 | against a right series without repeated times, the left merge keeps the base rows in order, each extended with the matching row's cells or NaN |
| DataImporter.Rename | DataImporter.py:196 | renaming keeps the number of columns |
| DataImporter.RenameSteps | DataImporter.py:195-196 | the first `n` renames keep the number of columns |
| DataImporter.RenameJoinedColumns | DataImporter.py:195-196 | the rename loop equals the composition of its single renames |
| DataImporter.JoinedNames | DataImporter.py:196 | one new name per selected column |
| DataImporter.RenamedColumns | DataImporter.py:195-196 | with names that do not clash, the loop renames the i-th selected column to `station_id + param + str(i)` and leaves the base columns unrenamed |
| DataImporter.RenamedPrefix | DataImporter.py:195-196 | with names that do not clash, after `n` steps the first `n` selected columns have their new names and the rest are unchanged |
| DataImporter.LeftJoin | DataImporter.py:167-199 | the statement sequence of `left_join` equals its specification, including the imputation error |
| DataImporter.LeftJoinComplete | DataImporter.py:167-199 | with distinct data times and a sorted non-empty source the join succeeds, keeps every data row in order, and appends the selected cells of the nearest source row |
| DataImporter.NorKystLabelRenamed | DataImporter.py:126-129 | a `temperature…` label becomes a `norkyst_water_temp…` label with the rest kept |
| DataImporter.NorKystLabelNotTemperature | DataImporter.py:126-129 | no renamed label is a `temperature` label, so no column is renamed twice |
| DataImporter.RenameNorKystColumns | DataImporter.py:126-129 | the rename loop keeps the number of columns and renames every label as the one-label rule says, since no renamed label is caught by a later rename |
| FrostImporter.YearChunks | FrostImporter.py:84-95 | one batch per calendar year from the start year to the end year, none when the end year is earlier |
| FrostImporter.YearChunksShape | FrostImporter.py:84-95 | when the start year is not after the end year, the first batch starts at the start time and the last ends at the end time; inner borders are Jan 1 00:00 and Dec 31 23:59 of each year |
| FrostImporter.YearChunksChronological | FrostImporter.py:84-95 | for start before end, each batch is ordered and ends before the next one begins |
| FrostImporter.YearChunksValid | FrostImporter.py:86-95 | all batch borders are valid datetimes |
| FrostImporter.ChunkRequestNamesPeriod | FrostImporter.py:101-102 | a batch's query parses back to exactly its period, and names the station and the element |
| FrostImporter.Requests | FrostImporter.py:86-102 | one request per batch |
| FrostImporter.BatchInterval | FrostImporter.py:87-95 | the period the loop computes for a batch is that batch's chunk |
| FrostImporter.BatchPayload | FrostImporter.py:86-102 | the loop body builds exactly the request of its batch |
| FrostImporter.BatchRequest | FrostImporter.py:86-102 | the request built from a batch's period is that batch's request |
| FrostImporter.Data | FrostImporter.py:58-120 | the batch loop equals its specification: the concatenated rows, or `None` after a failed request |
| FrostImporter.FetchStep | FrostImporter.py:118 | a successful request appends its rows to the accumulated series |
| FrostImporter.FetchNoneIff | FrostImporter.py:104-116 | the result is `None` exactly when some batch's request fails |
| FrostImporter.FetchConcatenates | FrostImporter.py:118-120 | when no request fails, the result is every batch's rows in batch order |
| FrostImporter.CoordRowsAppend | FrostImporter.py:146-150 | the coordinate frame of concatenated element lists is the concatenation of their frames |
| FrostImporter.BuildCoordRows | FrostImporter.py:145-152 | the element loop builds the coordinate frame: one row per coordinate of each element with a geometry |
| FrostImporter.CoordRowsLayout | FrostImporter.py:146-150 | with two coordinates per geometry, rows `2i` and `2i+1` are element `i`'s longitude and latitude |
| FrostImporter.NormaliseIdPrefix | FrostImporter.py:174 | the normalised id is the colon-free prefix of the source id before its first colon |
| FrostImporter.NormaliseIdOf | FrostImporter.py:174 | `id:suffix` normalises to `id` for a colon-free station id |
| FrostImporter.AvailableIds | FrostImporter.py:169-175 | the availability loop normalises every source id, in order |
| FrostImporter.KeepAvailable | FrostImporter.py:180 | the filter keeps exactly the coordinate rows whose station id is available |
| FrostImporter.KeepAvailableAppend | FrostImporter.py:180 | the availability filter distributes over concatenation |
| FrostImporter.KeepAvailableGroup | FrostImporter.py:180 | the filter keeps all of an element's rows or none |
| FrostImporter.KeepAvailableAll | FrostImporter.py:180 | rows sharing one id are all kept or all dropped |
| FrostImporter.KeepAvailableRows | FrostImporter.py:146-180 | the filtered frame is the frame of the located elements |
| FrostImporter.LocatedElements | FrostImporter.py:146-180 | the located elements are elements with a geometry and an available id |
| FrostImporter.Pairs | FrostImporter.py:186-190 | one candidate for each pair of coordinate rows, `int(len/2)` of them |
| FrostImporter.PairRows | FrostImporter.py:185-190 | the distance loop builds the candidate list |
| FrostImporter.PairsAligned | FrostImporter.py:186-190 | when every geometry has two coordinates, candidate `i` is the `i`-th located element with its latitude and longitude |
| FrostImporter.SortPositionsSpec | FrostImporter.py:193 | the sort of positions is ordered by distance then position, and is a permutation |
| FrostImporter.NSmallestPositions | FrostImporter.py:193 | `nsmallest` keeps `min(n, len)` positions, all in range |
| FrostImporter.NSmallestSpec | FrostImporter.py:193 | `nsmallest(n, "dist")` keeps distinct candidates in ascending distance, ties by position, each no farther than any candidate it drops |
| FrostImporter.LocationIds | FrostImporter.py:142-198 | the statements after both answers equal the specification of `location_ids`, including its three `KeyError` cases |
| FrostImporter.LocationIdsRanked | FrostImporter.py:123-198 | when every geometry has two coordinates: the call fails with no geometry (no `station_id` column), with an empty availability answer (no `id` column) or with no located station (no `dist` column), and only then; otherwise it gives at most `n` ids, `min(n, located)` of them, each the id of a located and available station |
| Calendar.IsoFormat | FrostImporter.py:101 | the ISO text of a datetime with zero seconds has 19 characters |
| Calendar.ParseIsoFormat | FrostImporter.py:101 | the ISO text of a valid datetime parses back to it |
| Calendar.PeriodString | HavvarselFrostImporter.py:63 | the period value `a.isoformat()+"Z/"+b.isoformat()+"Z"` has 41 characters |
| Calendar.ParsePeriodString | HavvarselFrostImporter.py:63 | a period value parses back to exactly its two datetimes |
| Calendar.DateOf | NorKystImporter.py:75 | `.date()` of a valid datetime is a valid date |
| Calendar.NextDayNumber | NorKystImporter.py:75 | for a calendar date, the day after it has the next day number |
| Calendar.AddDaysNumber | NorKystImporter.py:75 | adding `i` days to a calendar date gives a calendar date whose day number is `i` higher |
| Calendar.DayNumberOrder | NorKystImporter.py:74 | of two valid datetimes, the one whose date comes first has the smaller day number |
| Calendar.LessEqMinutes | FrostImporter.py:84-100 | Python's `<=` on valid datetimes holds exactly when the minute count since 1970 is no larger |
| Text.SplitJoin | HavvarselFrostImporter.py:65 | splitting a join at its separator gives the parts back when no part holds the separator |
| Seqs.FirstArgmin | NorKystImporter.py:231 | numpy's `argmin` answers the first position holding the minimum |
| NorKystImporter.DateRangeAsWritten | NorKystImporter.py:71-75 | `daterange` as written yields `(end-start).days + 1` dates |
| NorKystImporter.DateRange | NorKystImporter.py:71-75 | the corrected range holds one date per day from the start's date to the end's date |
| NorKystImporter.DateRangeDays | NorKystImporter.py:71-75 | the `i`-th date of the range is a calendar date `i` days after the start date |
| NorKystImporter.DateRangeAsWrittenPrefix | NorKystImporter.py:71-75 | the corrected range ends on the end date; the written range is a prefix of it, equal exactly when the end's time of day is not before the start's |
| NorKystImporter.DateRangeMissesEndDay | NorKystImporter.py:71-75 | from 2020-09-01T12:00 to 2020-09-02T06:00 the written range misses 2020-09-02 |
| NorKystImporter.ParseFilenameOf | NorKystImporter.py:85-86 | the file name of a date names that date, so distinct dates have distinct files |
| NorKystImporter.Filenames | NorKystImporter.py:84-86 | one file name per date of the corrected range `DateRange` |
| NorKystImporter.BuildFilenames | NorKystImporter.py:81-86 | the loop builds the file names of the corrected range, in date order |
| NorKystImporter.DropUnopenable | NorKystImporter.py:90-96 | the `while testing` loop equals the drop function, including running out of names |
| NorKystImporter.FirstOpenableSpec | NorKystImporter.py:88-96 | only leading unopenable names are dropped; the rest starts with a file that opens; there is none exactly when no file opens |
| NorKystImporter.GridArgmin | NorKystImporter.py:143 | on a non-empty grid with non-empty rows, `argmin` and `unravel_index` pick the first row-major cell with the smallest value |
| NorKystImporter.Distances | NorKystImporter.py:139-142 | the distance grid has the file's shape and holds the land-penalised squared distance at each cell |
| NorKystImporter.NearestCellMinimal | NorKystImporter.py:120-143 | when a cell is chosen, it minimises the penalised distance and precedes every other minimiser in row-major order |
| NorKystImporter.NearestCellPrefersSea | NorKystImporter.py:139-143 | when some sea cell is within the land penalty the chosen cell is a sea cell |
| NorKystImporter.DepthIndex | NorKystImporter.py:152-154 | the first level holding the depth; none exactly when no level does |
| NorKystImporter.DepthIndices | NorKystImporter.py:149-152 | the `depth_index.append` loop equals the list function |
| NorKystImporter.DepthIndexListFails | NorKystImporter.py:151-152 | one missing depth fails the whole list |
| NorKystImporter.DepthIndexListSpec | NorKystImporter.py:149-152 | every depth maps in order to its first level; the list fails exactly when some depth has no level |
| NorKystImporter.TruncateFloors | NorKystImporter.py:224 | dropping the seconds rounds a time down to its whole minute |
| NorKystImporter.CfTimesToDateTimes | NorKystImporter.py:221-226 | one datetime per time value, with its year, month, day, hour and minute |
| NorKystImporter.FindNearestIndex | NorKystImporter.py:230-232 | the first position nearest the value; nothing for an empty array |
| NorKystImporter.Slice | NorKystImporter.py:202 | a Python slice is no longer than its sequence |
| NorKystImporter.RowsFromTimes | NorKystImporter.py:202-209 | reading `n` steps yields `n` rows with the steps' times and one cell per depth |
| NorKystImporter.CellsAtWidth | NorKystImporter.py:206 | the cells of a step have one entry per depth index |
| NorKystImporter.Data1FileTimes | NorKystImporter.py:195-217 | when the file reads, `data1file` keeps every step of `t1:t2` once, in file order, with one cell per depth |
| NorKystImporter.StitchAsWrittenSingle | NorKystImporter.py:164-187 | with one file the written stitching appends the file's `[:t2]` to its `[t1:]` |
| NorKystImporter.StitchAsWrittenDuplicates | NorKystImporter.py:164-187 | a one-file archive with two steps gives four rows, each time twice; the corrected stitching gives two |
| NorKystImporter.StitchSingle | NorKystImporter.py:164-187 | corrected stitching of one file yields each step of `t1:t2` exactly once, in order |
| NorKystImporter.MiddleRowsConcatenate | NorKystImporter.py:167-173 | the middle files contribute in file order, each readable file whole and the others nothing |
| NorKystImporter.ReadMiddleFiles | NorKystImporter.py:167-173 | the middle loop equals the middle-file rows, skipping unreadable files |
| NorKystImporter.StitchFiles | NorKystImporter.py:164-187 | for a non-empty file list whose first file is in the archive, the three file steps equal the corrected stitching |
| NorKystImporter.ReadSeries | NorKystImporter.py:147-187 | for a non-empty file list whose first file is in the archive, depth lookup followed by stitching equals the series function, with the missing-depth and unreadable-first-file errors; the first file is read from `t1 = max(0, before)` (0 when the lookup raises) and the last up to the after index (`len(times)` when it raises) |
| NorKystImporter.FilesForOpens | NorKystImporter.py:111-113 | a file list computed afresh starts with a file that opens |
| NorKystImporter.NorKystResultFilenames | NorKystImporter.py:111-113 | a cached file list is kept; otherwise the list is the period's names without leading unopenable ones, and the call fails exactly when none opens |
| NorKystImporter.NorKystResultCell | NorKystImporter.py:120-143 | a cached cell is kept; a new one is computed from the first file and minimises the penalised distance |
| NorKystImporter.NorKystResultOk | NorKystImporter.py:101-193 | a successful call returns the corrected stitching of the cached files at the cached cell and depth indices, with the `data1file` labels |
| NorKystImporter.NorKystResultStable | NorKystImporter.py:101-193 | the cache a call leaves is a fixed point: the same call again gives the same result and cache |
| NorKystImporter.NorKystImporter.constructor | NorKystImporter.py:60-67 | a new importer holds its period and archive with both caches empty |
| NorKystImporter.NorKystImporter.CacheFilenames | NorKystImporter.py:111-113 | the file list is filled only when missing and the cell is untouched |
| NorKystImporter.NorKystImporter.CacheCell | NorKystImporter.py:120-143 | the cell is filled only when missing and the file list is untouched |
| NorKystImporter.NorKystImporter.NorKystData | NorKystImporter.py:101-193 | one call returns the specification's result and leaves the specification's cache, keeping the importer valid |
| HavvarselFrostImporter.ParsePayloadOf | HavvarselFrostImporter.py:63-65 | for a buoy id and parameter without `&`, the query string splits into its four `k=v` pairs and parses back to the period, buoy and parameter |
| HavvarselFrostImporter.LocationOf | HavvarselFrostImporter.py:79-81 | the location row copies the header's buoy id, parameter, name, longitude and latitude |
| HavvarselFrostImporter.ObservationRows | HavvarselFrostImporter.py:89-99 | one row per observation, in order, with its time and its single value |
| HavvarselFrostImporter.HourBounds | HavvarselFrostImporter.py:103-106 | a time lies in the hour that starts at its floored hour |
| HavvarselFrostImporter.FirstOfHour | HavvarselFrostImporter.py:106 | the row `first` takes for an hour has a value in that hour and is earliest by (time, position); there is none exactly when no row qualifies |
| HavvarselFrostImporter.ResampleHours | HavvarselFrostImporter.py:103-106 | one row per hour on hour boundaries, rising by one hour from the hour of the earliest observation to the hour of the latest, so both end hours hold an observation and no empty hour lies outside them, covering every observation |
| HavvarselFrostImporter.ResampleValues | HavvarselFrostImporter.py:106 | each hourly value is the earliest observed value of that hour, and NaN exactly when the hour has none |
| HavvarselFrostImporter.ResampleSortedFirst | HavvarselFrostImporter.py:106 | on time-ordered rows an hour's value is the first valued row of that hour |
| HavvarselFrostImporter.Data | HavvarselFrostImporter.py:45-108 | `data` equals its specification: HTTP error, no observations, or the location and the resampled frame |
| HavvarselFrostImporter.DataOk | HavvarselFrostImporter.py:45-108 | a successful call queried this buoy, parameter and period; it returns the header's location and a non-empty `water_temp` frame spanning every observation |

## Left out

- HTTP, netCDF and THREDDS access are outside the model. Each server is a function
  parameter; the file catalogue is a fixed archive map. Authentication, URLs and status
  codes beyond success or failure are not modelled.
- The map projection (`pyproj`) is not modelled. Positions and grid coordinates arrive
  already projected, as integers.
- The great circle distance (`haversine`) is not modelled. It is a function parameter of the
  station ranking.
- Floating point is not modelled. Distances and depths are integers, values are opaque reals,
  and `1e12` is the exact integer 10^12.
- `PPImporter.py` is not part of this model, nor is the post-processed forecast join of
  `constructDataset`.
- Command-line parsing, logging, printing, plotting, CSV writing, the `simulated_depth` remote
  file and the `if False:` Frost block of `constructDataset` are left out. They are I/O or
  switched off.
- Time zones are not modelled: `tz_localize("UTC")` only labels the times.
- `df.set_index('time')` in the Havvarsel `data` is not modelled. It is a no-op whose result
  is discarded.
- Parsing of the time strings of the responses (`pd.to_datetime`) is not modelled.
  Observations arrive as datetimes to the minute. Seconds in observation times are not
  modelled.
- Indexes that decrease (accepted by pandas' nearest lookup) are treated as unsorted sources.
- The `index` column that `reset_index` adds and `drop` removes is not modelled.
- Column-name clashes on merge (pandas' suffixes) are not modelled: frames carry only the
  columns the model follows.
- The `if True:` block that resets the period to the grid's first and last time
  (`DataImporter.py:78-81`) is not modelled. The Frost and NorKyst importers take their
  period as an input, so a caller passes the reset period.
- The post-processed forecast call passes the longitude twice (`DataImporter.py:144`). It
  belongs to `PPImporter`, which is outside the model.
- The status check of the availability request in `location_ids` tests the earlier response
  (`FrostImporter.py:163`). HTTP status is outside the model.
- NorKystImporter.ParseFilenameOf: years are written as four zero-padded digits, as `%Y` does for
  the archive's years; the round trip is stated for years 0 to 9999 only, where four digits suffice.
- FrostImporter.LocationIdsRanked: ranking by distance is stated for the candidate list by
  `NSmallestSpec` rather than again for the ids.
- NorKystImporter.NorKystImporter.NorKystData: the importer's own stitching uses the corrected
  single-file rule (see Findings). The as-written rule is modelled separately by
  `StitchAsWritten`. Its file list comes from the corrected day range, as the next lines say.
- NorKystImporter.StitchFiles: uses the corrected single-file rule (see Findings): a single
  file is read once, from `t1` to `t2`, where the code reads it from `t1` and again up to `t2`.
  The rule as written is modelled by `StitchAsWritten`.
- NorKystImporter.ReadSeries: stitches with the corrected single-file rule, like `StitchFiles`.
  The rule as written is modelled by `StitchAsWritten`.
- NorKystImporter.Filenames: the file list is built from the corrected day range `DateRange`,
  not from `daterange` as written (see Findings). When the end's time of day is earlier than
  the start's, the written loop misses the end date's file; `DateRangeAsWrittenPrefix` states
  how far the two ranges differ.
- NorKystImporter.BuildFilenames: loops over the corrected day range, like `Filenames`.
- NorKystImporter.FilesFor: a list computed afresh starts from the corrected day range.
- NorKystImporter.NorKystResultFilenames: states the cached file list in terms of the corrected
  day range.
- NorKystImporter.NorKystResultOk: the stitched files are those of the corrected day range.
- NorKystImporter.NorKystImporter.CacheFilenames: fills the cache from the corrected day range.
- Text.Lower: folds ASCII letters only. Python's `str.lower` also folds letters outside ASCII.
  Parameter names outside ASCII are not modelled.

## Findings

| source | as written | input that shows it | evidently intended | confidence | as-written member | corrected member |
|---|---|---|---|---|---|---|
| NorKystImporter.py:71-75 | `daterange` yields `(end - start).days + 1` dates, counting whole 24-hour spans | start 2020-09-01T12:00, end 2020-09-02T06:00: one date, 2020-09-01 only | every date from the start's date to the end's date, including the end date (the comment promises the end date is included) | not executed | NorKystImporter.DateRangeAsWritten, NorKystImporter.DateRangeMissesEndDay | NorKystImporter.DateRange, NorKystImporter.DateRangeDays, NorKystImporter.DateRangeAsWrittenPrefix |
| NorKystImporter.py:164-187 | with a single file, `norkyst_data` reads it as the first file from `t1` and again as the last file up to `t2`, and concatenates both | one file with two hourly steps, no index lookups: four rows, each time twice | a single file read once, from `t1` to `t2` | not executed | NorKystImporter.StitchAsWritten, NorKystImporter.StitchAsWrittenSingle, NorKystImporter.StitchAsWrittenDuplicates | NorKystImporter.Stitch, NorKystImporter.StitchSingle |
