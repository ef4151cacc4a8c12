# Elevation resolver core in Dafny

A Dafny model of the sequential core of an elevation lookup service. The
service stores terrain rasters as netCDF tiles and keeps a summary index of
records, each a file name plus a bounding box `[min_lat, max_lat, min_lon,
max_lon]`. It answers queries such as `"(48.35,5.3),(48.43,5.23)"` with one
elevation per point. The model covers three pieces:

- **Tile sampling** (`elevation.dfy`, module `Elevation`). A tile has two
  axis sequences and a grid. `MinMax::min_value` and `max_value` are loops
  that start at `f64::MAX` and `f64::MIN`. `find_closest_index` is a loop
  with a strict `<`, so the first of several equally close samples wins.
  `get_elevation` reads the grid at the two nearest indices.
- **Resolution** (`elevation.dfy`, `utils.dfy`). `load_summary_file` joins
  every stored file name onto the data directory. `get_elevations` looks up
  each point in order: it finds the first record whose inclusive box holds
  the point and reads that record's tile. Tiles are loaded through a
  per-call cache, and a point no record covers gets the sentinel `-9999`.
  The older `utils::get_elevation` does the same for one point, with no
  cache, and returns `Option`.
- **Query parsing** (`query_text.dfy`, `json_structs.dfy`,
  `lib_json_structs.dfy`). Both copies of the parser run the same chain:
  split on `(`, drop empty pieces, trim `)` and `,`, split on `,`, parse
  with `f64::from_str`. `CoordinateList::from_str` parses every scalar
  before it builds a tuple. `Points::from_str` builds each tuple as soon as
  its segment has parsed. `query_strings.dfy` and `query_examples.dfy` state
  what the parsers give on the query strings of the repository's tests (with
  `Points::from_str`, as the tests call it), on the doc-comment example of
  `Points::from_str` (with both parsers), and on one further string,
  `"(5)(x,1)"`, chosen to show where the two parsers part ways.
  `elevation_examples.dfy` states what the resolver gives on the test
  summary.

Modelling choices:

- `f64` is `real`. `f64::MAX` is the exact value `(2^53 - 1) * 2^971`.
- The netCDF loader `ElevationTile::new` is a parameter `load: string -> Tile`.
  A ghost log `loads` records every call to it.
- `f64::from_str` is a parameter `parse: string -> Option<real>`. The model
  itself decides the empty string: it is `Err(Empty)` without consulting
  `parse`. Any other string that `parse` rejects is `Err(Invalid)`, as in
  Rust's `ParseFloatError`.
- A Rust panic becomes one of two things. In the parser it is the outcome
  `Panicked`. Out-of-range grid indexing becomes the precondition `TileShaped`
  (the grid has one row per latitude and one column per longitude), which
  the resolvers require of every tile they read.

A tuple with more than two values keeps its first two; a tuple with fewer
than two panics (src/json_structs.rs:42, elevation-lib/src/json_structs.rs:46).

## Model

| member | source | states |
|---|---|---|
| Elevation.MinValue | src/elevation/mod.rs:24-32 | the result is at most `f64::MAX` and at most every element; it is an element unless the array is empty or every element exceeds `f64::MAX`, in which case it is `f64::MAX` |
| Elevation.MaxValue | src/elevation/mod.rs:34-42 | the dual: at least `f64::MIN` and every element, an element or the start value `f64::MIN` |
| Elevation.Scan | src/elevation/mod.rs:96-112 | the running (index, minimum distance) of the scan: the recorded distance is at most `f64::MAX` and bounds every element's distance; when it is below `f64::MAX` it is attained at the index and all earlier distances are strictly larger; otherwise (including the empty array) the index is 0 |
| Elevation.NearestIndexIsFirstNearest | src/elevation/mod.rs:96-111 | when some distance is below `f64::MAX`, the index is the smallest one that minimises `abs(f - a[i])`; otherwise it is 0 |
| Elevation.FindClosestIndex | src/elevation/mod.rs:96-112 | the loop returns `NearestIndex`: 0 for an empty array, otherwise an index in range; when some distance is below `f64::MAX`, it is the first nearest one |
| Elevation.NearestBeyondAxisIsEdge | src/elevation/mod.rs:96-118 | a target above every axis value is matched to a maximal axis value, one below every axis value to a minimal one, so an out-of-range query reads an edge sample |
| Elevation.Sample | src/elevation/mod.rs:114-118 | the sample is some grid cell of the tile |
| Elevation.SampleAtNearest | src/elevation/mod.rs:114-118 | for a well-shaped tile in which some latitude and some longitude lie at distance below `f64::MAX` from the target, the sample is the cell at the first nearest latitude index and the first nearest longitude index |
| Elevation.GetElevation | src/elevation/mod.rs:114-118 | the method returns `data[NearestIndex(lats, lat)][NearestIndex(lons, lon)]` |
| Elevation.JoinPath | src/elevation/mod.rs:161 | `Path::join` on Unix paths: an absolute name replaces the directory; otherwise the result is the directory, then a '/' exactly when the directory is non-empty and does not end in '/', then the name |
| Elevation.JoinPathKeepsFileName | src/elevation/mod.rs:161 | joining a plain file name onto a directory keeps the name as the last path component |
| Elevation.RewriteFiles | src/elevation/mod.rs:158-165 | the rewrite keeps the number and order of the records and their bounds, and sets each file to the data directory joined with the stored name |
| Elevation.RewriteKeepsCoverage | src/elevation/mod.rs:158-165 | the rewrite does not change which record is the first to cover any point |
| Elevation.FirstCovering | src/elevation/mod.rs:229-232 | the index of the first record whose inclusive box contains the point, with no earlier record covering it; None exactly when no record covers it |
| Elevation.FirstCoveringIgnoresLater | src/elevation/mod.rs:229-254 | records after the first covering one never change the answer |
| Elevation.Lookup | src/elevation/mod.rs:229-246 | Some exactly when some record covers the point, and then the sample read from the tile of the first covering record |
| Elevation.LookupIgnoresLater | src/elevation/mod.rs:253-254 | appending records after a covering one changes neither the lookup nor the tiles it needs |
| Elevation.GetElevations | src/elevation/mod.rs:220-265 | one `Elevation` per input point, in input order; each echoes the point's lat and lon with the first covering record's sample, or -9999 when no record covers it; every tile is loaded at most once, and exactly the files of the covering records are loaded |
| Utils.GetElevation | src/utils.rs:69-81 | returns the same lookup as `get_elevations` uses: Some exactly when some record covers the point, and then the first covering record's sample; loads exactly that one tile when it returns Some and none when it returns None |
| QueryText.Split | src/json_structs.rs:27 | `str::split` on one character: at least one piece, and no piece contains the separator |
| QueryText.JoinSplit | src/json_structs.rs:27 | joining the pieces with the separator gives back the input |
| QueryText.SplitJoin | src/json_structs.rs:27 | pieces free of the separator are exactly what splitting their join returns, so the split is unique |
| QueryText.NonEmpty | src/json_structs.rs:27 | no kept piece is empty, and a string occurs among the kept pieces exactly when it is a non-empty piece of the input |
| QueryText.NonEmptyOfOne | src/json_structs.rs:27 | a single piece is kept exactly when it is not empty |
| QueryText.NonEmptyAppend | src/json_structs.rs:27 | filtering a concatenation is the concatenation of the filtered parts, so the kept pieces stay in order and keep their repetitions |
| QueryText.TrimMatches | src/json_structs.rs:28 | the result never starts or ends with ')' or ',' |
| QueryText.TrimMatchesCutsOnlyDelimiters | src/json_structs.rs:28 | the result is a contiguous part of the input, and everything cut away on either side is ')' or ',' |
| QueryText.Segments | src/json_structs.rs:27-29 | one segment per non-empty piece, each with at least one scalar string |
| QueryText.PiecesOfTuples | elevation-lib/src/json_structs.rs:30 | a string made of '(' followed by each of some non-empty pieces, each free of '(', yields exactly those pieces in order |
| QueryText.SegmentOfPiece | elevation-lib/src/json_structs.rs:31-32 | a piece holding scalars joined by ',' and then ")", ")," or nothing, splits back to exactly those scalars |
| QueryText.F64FromStr | src/json_structs.rs:35 | `f64::from_str` on one scalar: the empty string is `Err(Empty)`, a non-empty string the parser rejects is `Err(Invalid)`, and otherwise the result is the parsed value |
| QueryText.ParseScalars | src/json_structs.rs:34-39 | Ok exactly when every scalar parses, with one value per scalar in order |
| QueryText.ParseScalarsFirstError | src/json_structs.rs:34-39 | when some scalar does not parse, the segment's Err is the error of the first such scalar |
| QueryText.Tuples | src/json_structs.rs:42 | one tuple per segment, made of the first two parsed values |
| JsonStructs.CoordinateListFailsOnAnyBadScalar | src/json_structs.rs:31-41 | Err exactly when some scalar anywhere fails to parse, and then the error of the first such scalar in reading order |
| JsonStructs.CoordinateListPanicsOrParses | src/json_structs.rs:31-43 | a panic exactly when every scalar parses but some segment is short; Ok exactly when every scalar parses and every segment has at least two values, with one tuple per segment in order, made of its first two values |
| JsonStructs.FailsAtFirstBadScalar | src/json_structs.rs:35-38 | the first unparsable scalar decides the error |
| JsonStructs.OutcomeOnceAllParsed | src/json_structs.rs:42-43 | once every segment has parsed, a short segment panics and otherwise the tuples are the first two values of each segment |
| JsonStructs.NoPiecesParsesEmpty | src/json_structs.rs:27-43 | a query with no non-empty pieces gives Ok with an empty list |
| JsonStructs.EmptyQueryParsesEmpty | src/json_structs.rs:27-43 | the empty query gives Ok with an empty list |
| JsonStructs.FromStr | src/json_structs.rs:26-44 | the method computes `CoordinateListOf` of the query's segments |
| JsonStructs.ParseLoop | src/json_structs.rs:31-43 | the nested parse loop, with its early return of Err, then the map to tuples, computes `CoordinateListOf` |
| JsonStructs.FromFormValue | src/json_structs.rs:53-58 | Ok exactly when the string parses, with the parsed list; Err exactly when parsing fails, carrying the raw input |
| LibJsonStructs.PointsStopsAtBadScalar | elevation-lib/src/json_structs.rs:41-44 | the first unparsable scalar makes the call return its error, provided no earlier segment was short |
| LibJsonStructs.PointsStopsAtShort | elevation-lib/src/json_structs.rs:46 | a short segment whose scalars parse panics at once, whatever later segments hold |
| LibJsonStructs.PointsParsesAll | elevation-lib/src/json_structs.rs:37-49 | when every segment parses with at least two values, the result holds one tuple per segment in order, made of its first two values |
| LibJsonStructs.FromStr | elevation-lib/src/json_structs.rs:25-50 | the method computes `PointsOf` of the query's segments |
| LibJsonStructs.ParseLoop | elevation-lib/src/json_structs.rs:37-49 | the nested loop, with its early return of Err and the tuple built from `parsed_vec[0]` and `parsed_vec[1]`, computes `PointsOf` |
| LibJsonStructs.Points.Len | elevation-lib/src/json_structs.rs:12-14 | `len()` is the number of stored points, and 0 exactly when there are none |
| LibJsonStructs.LenCountsPieces | elevation-lib/src/json_structs.rs:12-14 | on success `len()` is the number of non-empty pieces of the query |
| LibJsonStructs.CopiesDisagreeExactly | elevation-lib/src/json_structs.rs:30-49 | the two parsers disagree exactly when a short segment comes before the first segment with an unparsable scalar; then Points panics and CoordinateList returns the Err |
| LibJsonStructs.CopiesAgreeOnFullTuples | elevation-lib/src/json_structs.rs:30-49 | when every segment has at least two values, both parsers give the same result |
| LibJsonStructs.CopiesAgreeWhenEveryScalarParses | elevation-lib/src/json_structs.rs:30-49 | when every scalar parses, both parsers give the same result |
| QueryStrings.TwoTupleSegments | src/tests/mod.rs:16 | `"(48.35,5.3),(48.43,5.23)"` has the segments `["48.35","5.3"]` and `["48.43","5.23"]` |
| QueryStrings.UnclosedSegments | src/tests/mod.rs:28 | `"(48.2,54.2a"` has the single segment `["48.2","54.2a"]` |
| QueryStrings.NegativeSegments | src/tests/mod.rs:37 | `"(45.2,34.2),(32.4,-12.0)"` has two segments, the second `["32.4","-12.0"]` |
| QueryStrings.UnseparatedSegments | elevation-lib/src/json_structs.rs:27-28 | `"(1.2,3.4),(3.4,2.9)(1.2,3.4)"` has three segments |
| QueryStrings.ShortThenBadSegments | elevation-lib/src/json_structs.rs:46 | `"(5)(x,1)"` has the segments `["5"]` and `["x","1"]` |
| QueryExamples.TwoTupleQuery | src/tests/mod.rs:16-20 | `"(48.35,5.3),(48.43,5.23)"` parses to the two tuples in that order |
| QueryExamples.UnclosedQueryFails | src/tests/mod.rs:28-32 | `"(48.2,54.2a"` is rejected with Err by both parsers when `54.2a` is not a number |
| QueryExamples.NegativeQueryLen | src/tests/mod.rs:37-38 | `"(45.2,34.2),(32.4,-12.0)"` parses and `len()` is 2 |
| QueryExamples.UnseparatedQuery | elevation-lib/src/json_structs.rs:27-28 | `"(1.2,3.4),(3.4,2.9)(1.2,3.4)"` gives three points in both parsers |
| QueryExamples.ShortThenBadQuery | elevation-lib/src/json_structs.rs:46 | on `"(5)(x,1)"` Points panics, while CoordinateList returns Err |
| ElevationExamples.SummaryRewrite | src/tests/mod.rs:62-71 | the record for `n58e104.nc` gets the full path under the data directory and keeps the bounds 58, 59, 104, 105 |
| ElevationExamples.SummaryLookup | src/tests/mod.rs:85-90 | with a tile whose only cell holds 457.0, the point (58.5, 104.5) resolves to 457.0, as test_get_elevation asserts; in addition, beyond that test, a point outside the box resolves to the -9999 sentinel of src/elevation/mod.rs:257-261 |

## Left out

- Decoding netCDF in `ElevationTile::new` (src/elevation/mod.rs:59-94) is foreign-crate I/O, so it becomes the loader parameter. Also left out with it: the fallback from the `y`/`lat` and `x`/`lon` keys, and the `lat_min_max`/`lon_min_max` fields it fills.
- `make_summary_file` in src/elevation/mod.rs and src/utils.rs: glob, netCDF reads, serde and file writes. These are I/O.
- The I/O of `load_summary_file`: the `DATA_DIR` variable, opening and deserialising `summary.json`, and `into_string().unwrap()`. Only the record rewrite is modelled.
- src/utils.rs declares its own copy of the metadata record. The model reuses `Elevation.MetaData` for it, since the two have the same fields.
- Floating point: NaN, infinities, rounding and overflow in `f - val` are not modelled, because `f64` is `real`.
- Elevation.MinValue: a NaN element, which Rust's `<` never selects, is not modelled.
- Elevation.NearestIndexIsFirstNearest: the case where every distance is at or above `f64::MAX` is stated only as "the result is 0". It needs coordinates near plus or minus `f64::MAX`, where `f - val` reaches `f64::MAX` or overflows to infinity; latitude and longitude axes never hold such values.
- Exact `f64::from_str` grammar and rounding: the parser is a parameter. The example lemmas name only the parse results they use.
- Panics are not modelled as process aborts. A short tuple is the outcome `Panicked`. The grid bounds are the precondition `TileShaped`.
- Elevation.GetElevations, Utils.GetElevation: the loader is total. The panics of `ElevationTile::new` on a file that cannot be opened or a missing axis or `Band1` variable (src/elevation/mod.rs:62-82), which abort the whole call, are not modelled; the contracts describe runs in which every load succeeds.
- Logging (`println!`, `warn!`) is left out.
- src/main.rs (HTTP handlers, CLI, templates, the 50-point cap), the Python tooling, and the lambda stub are outside this core.
- Concurrency: there is none in this core. The cache is a local map of one call.
