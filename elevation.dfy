/**
 * src/elevation/mod.rs: axis extrema of a raster tile, nearest-sample
 * lookup, the path rewrite applied to the summary index, and the batch
 * resolver with its per-call tile cache.
 */
module Elevation {
  import opened Wrappers

  /** f64::MAX, that is (2^53 - 1) * 2^971, written out exactly. */
  const F64Max: real := 179769313486231570814527423731704356798070567525844996598917476803157260780028538760589558632766878171540458953514382464234321326889464182768467546703537516986049910576551282076245490090389328944075868508455133942304583236903222948165808559332123348274797826204144723168738177180919299881250404026184124858368.0

  /** f64::MIN, the most negative finite f64. */
  const F64Min: real := -F64Max

  /** Elevation reported for a point that no tile covers. */
  const Sentinel: real := -9999.0

  function Abs(x: real): real {
    if x < 0.0 then -x else x
  }

  /** `(f - val).abs()`, the distance find_closest_index compares. */
  function Dist(f: real, v: real): real {
    Abs(f - v)
  }

  // ---------------------------------------------------------------------
  // MinMax::min_value / max_value

  /** Smallest element, starting from f64::MAX and replacing on strict `<`. */
  method MinValue(a: seq<real>) returns (v: real)
    ensures v <= F64Max
    ensures forall i :: 0 <= i < |a| ==> v <= a[i]
    ensures v == F64Max || v in a
    ensures (exists i :: 0 <= i < |a| && a[i] <= F64Max) ==> v in a
  {
    v := F64Max;
    for i := 0 to |a|
      invariant v <= F64Max
      invariant forall j :: 0 <= j < i ==> v <= a[j]
      invariant v == F64Max || v in a[..i]
      invariant (exists j :: 0 <= j < i && a[j] <= F64Max) ==> v in a[..i]
    {
      if a[i] < v {
        v := a[i];
      }
    }
    assert a[..|a|] == a;
  }

  /** Largest element, starting from f64::MIN and replacing on strict `>`. */
  method MaxValue(a: seq<real>) returns (v: real)
    ensures v >= F64Min
    ensures forall i :: 0 <= i < |a| ==> v >= a[i]
    ensures v == F64Min || v in a
    ensures (exists i :: 0 <= i < |a| && a[i] >= F64Min) ==> v in a
  {
    v := F64Min;
    for i := 0 to |a|
      invariant v >= F64Min
      invariant forall j :: 0 <= j < i ==> v >= a[j]
      invariant v == F64Min || v in a[..i]
      invariant (exists j :: 0 <= j < i && a[j] >= F64Min) ==> v in a[..i]
    {
      if a[i] > v {
        v := a[i];
      }
    }
    assert a[..|a|] == a;
  }

  // ---------------------------------------------------------------------
  // ElevationTile::find_closest_index

  /**
   * What the scan of find_closest_index holds after visiting all of `a`:
   * the index kept and the distance recorded for it.  The scan starts at
   * (0, f64::MAX) and moves on strict `<` only.
   */
  function Scan(a: seq<real>, f: real): (r: (nat, real))
    ensures |a| == 0 ==> r.0 == 0
    ensures |a| > 0 ==> r.0 < |a|
    ensures r.1 <= F64Max
    ensures forall j :: 0 <= j < |a| ==> r.1 <= Dist(f, a[j])
    ensures r.1 < F64Max ==> r.0 < |a| && Dist(f, a[r.0]) == r.1
    ensures r.1 < F64Max ==> forall j :: 0 <= j < r.0 ==> r.1 < Dist(f, a[j])
    ensures r.1 == F64Max ==> r.0 == 0
    decreases |a|
  {
    if |a| == 0 then (0, F64Max)
    else
      var prev := Scan(a[..|a| - 1], f);
      var d := Dist(f, a[|a| - 1]);
      if d < prev.1 then (|a| - 1, d) else prev
  }

  /** The index find_closest_index returns for `a` and target `f`. */
  function NearestIndex(a: seq<real>, f: real): nat {
    Scan(a, f).0
  }

  /** `i` is the smallest index whose element is closest to `f`. */
  ghost predicate IsFirstNearest(a: seq<real>, f: real, i: nat) {
    && i < |a|
    && (forall j :: 0 <= j < |a| ==> Dist(f, a[i]) <= Dist(f, a[j]))
    && (forall j :: 0 <= j < i ==> Dist(f, a[i]) < Dist(f, a[j]))
  }

  /**
   * When some element lies closer than f64::MAX to the target, the scan
   * returns the first index of minimum distance; otherwise it returns 0.
   */
  lemma NearestIndexIsFirstNearest(a: seq<real>, f: real)
    ensures (exists j :: 0 <= j < |a| && Dist(f, a[j]) < F64Max) ==> IsFirstNearest(a, f, NearestIndex(a, f))
    ensures (forall j :: 0 <= j < |a| ==> Dist(f, a[j]) >= F64Max) ==> NearestIndex(a, f) == 0
  {
    var r := Scan(a, f);
    if exists j :: 0 <= j < |a| && Dist(f, a[j]) < F64Max {
      assert r.1 < F64Max;
    }
  }

  /** Exhaustive linear scan with strict `<`: no sortedness is assumed. */
  method FindClosestIndex(a: seq<real>, f: real) returns (minIndex: nat)
    ensures minIndex == NearestIndex(a, f)
    ensures |a| == 0 ==> minIndex == 0
    ensures |a| > 0 ==> minIndex < |a|
    ensures (exists j :: 0 <= j < |a| && Dist(f, a[j]) < F64Max) ==> IsFirstNearest(a, f, minIndex)
  {
    var min := F64Max;
    minIndex := 0;
    for i := 0 to |a|
      invariant (minIndex, min) == Scan(a[..i], f)
    {
      assert a[..i + 1][..i] == a[..i];
      if Dist(f, a[i]) < min {
        min := Dist(f, a[i]);
        minIndex := i;
      }
    }
    assert a[..|a|] == a;
    NearestIndexIsFirstNearest(a, f);
  }

  /**
   * A target at or beyond the top of the axis gets the first largest axis
   * value, and one at or below the bottom the first smallest one: the
   * lookup falls back to an edge sample.
   */
  lemma NearestBeyondAxisIsEdge(a: seq<real>, f: real)
    requires exists j :: 0 <= j < |a| && Dist(f, a[j]) < F64Max
    ensures (forall j :: 0 <= j < |a| ==> a[j] <= f) ==>
      forall j :: 0 <= j < |a| ==> a[j] <= a[NearestIndex(a, f)]
    ensures (forall j :: 0 <= j < |a| ==> a[j] >= f) ==>
      forall j :: 0 <= j < |a| ==> a[j] >= a[NearestIndex(a, f)]
  {
    NearestIndexIsFirstNearest(a, f);
  }

  // ---------------------------------------------------------------------
  // ElevationTile and ElevationTile::get_elevation

  /** A decoded tile: the two axes and the grid indexed [lat][lon]. */
  datatype Tile = Tile(lats: seq<real>, lons: seq<real>, data: seq<seq<real>>)

  /** The grid has one row per latitude and one column per longitude. */
  predicate TileShaped(t: Tile) {
    && |t.lats| > 0
    && |t.lons| > 0
    && |t.data| == |t.lats|
    && forall r :: 0 <= r < |t.data| ==> |t.data[r]| == |t.lons|
  }

  /** The grid sample get_elevation reads for (lat, lon). */
  function Sample(t: Tile, lat: real, lon: real): (e: real)
    requires TileShaped(t)
    ensures exists i, j :: 0 <= i < |t.lats| && 0 <= j < |t.lons| && e == t.data[i][j]
  {
    var i := NearestIndex(t.lats, lat);
    var j := NearestIndex(t.lons, lon);
    t.data[i][j]
  }

  /**
   * The sample is the one at the first nearest latitude and the first
   * nearest longitude; no interpolation takes place.
   */
  lemma SampleAtNearest(t: Tile, lat: real, lon: real)
    requires TileShaped(t)
    requires exists i :: 0 <= i < |t.lats| && Dist(lat, t.lats[i]) < F64Max
    requires exists j :: 0 <= j < |t.lons| && Dist(lon, t.lons[j]) < F64Max
    ensures exists i: nat, j: nat ::
      IsFirstNearest(t.lats, lat, i) && IsFirstNearest(t.lons, lon, j) && Sample(t, lat, lon) == t.data[i][j]
  {
    NearestIndexIsFirstNearest(t.lats, lat);
    NearestIndexIsFirstNearest(t.lons, lon);
    var i, j := NearestIndex(t.lats, lat), NearestIndex(t.lons, lon);
    assert IsFirstNearest(t.lats, lat, i) && IsFirstNearest(t.lons, lon, j);
  }

  method GetElevation(t: Tile, lat: real, lon: real) returns (e: real)
    requires TileShaped(t)
    ensures e == t.data[NearestIndex(t.lats, lat)][NearestIndex(t.lons, lon)]
  {
    var latIndex := FindClosestIndex(t.lats, lat);
    var lonIndex := FindClosestIndex(t.lons, lon);
    e := t.data[latIndex][lonIndex];
  }

  // ---------------------------------------------------------------------
  // ElevationTileFileMetaData, load_summary_file

  /** `coords` of a summary record: [min_lat, max_lat, min_lon, max_lon]. */
  datatype BBox = BBox(minLat: real, maxLat: real, minLon: real, maxLon: real)

  datatype MetaData = MetaData(file: string, coords: BBox)

  /**
   * `source_dir.join(name)` on a Unix path: an absolute name replaces the
   * directory; otherwise a '/' goes between the two exactly when the
   * directory is non-empty and does not already end in one.
   */
  function JoinPath(dir: string, name: string): (p: string)
    ensures |name| > 0 && name[0] == '/' ==> p == name
    ensures !(|name| > 0 && name[0] == '/') && (|dir| == 0 || dir[|dir| - 1] == '/') ==>
      p == dir + name
    ensures !(|name| > 0 && name[0] == '/') && |dir| > 0 && dir[|dir| - 1] != '/' ==>
      p == dir + "/" + name
  {
    if |name| > 0 && name[0] == '/' then name
    else if |dir| == 0 || dir[|dir| - 1] == '/' then
      dir + name
    else dir + "/" + name
  }

  /** The part of a path after its last '/'. */
  function LastComponent(p: string): (c: string)
    ensures '/' !in c
    decreases |p|
  {
    if |p| == 0 then ""
    else if p[|p| - 1] == '/' then ""
    else LastComponent(p[..|p| - 1]) + [p[|p| - 1]]
  }

  lemma {:induction false} LastComponentAfterSlash(dir: string, name: string)
    requires '/' !in name
    ensures LastComponent(dir + "/" + name) == name
    decreases |name|
  {
    var p := dir + "/" + name;
    if |name| == 0 {
      assert p[|p| - 1] == '/';
    } else {
      var init := name[..|name| - 1];
      assert p[..|p| - 1] == dir + "/" + init;
      assert '/' !in init by {
        forall ch | ch in init ensures ch != '/' {
          var k :| 0 <= k < |init| && init[k] == ch;
          assert name[k] == ch;
        }
      }
      LastComponentAfterSlash(dir, init);
      assert name == init + [name[|name| - 1]];
    }
  }

  /**
   * Joining a bare file name onto a non-empty data directory can be undone:
   * the last component of the result is the stored name.
   */
  lemma JoinPathKeepsFileName(dir: string, name: string)
    requires |dir| > 0 && |name| > 0 && '/' !in name
    ensures LastComponent(JoinPath(dir, name)) == name
  {
    if dir[|dir| - 1] == '/' {
      var init := dir[..|dir| - 1];
      assert dir == init + "/";
      assert dir + name == init + "/" + name;
      LastComponentAfterSlash(init, name);
    } else {
      LastComponentAfterSlash(dir, name);
    }
  }

  /** The map/collect of load_summary_file: only `file` changes. */
  function RewriteFiles(dataDir: string, metas: seq<MetaData>): (r: seq<MetaData>)
    ensures |r| == |metas|
    ensures forall i :: 0 <= i < |metas| ==>
      r[i].coords == metas[i].coords && r[i].file == JoinPath(dataDir, metas[i].file)
  {
    seq(|metas|, i requires 0 <= i < |metas| => MetaData(JoinPath(dataDir, metas[i].file), metas[i].coords))
  }

  // ---------------------------------------------------------------------
  // Coverage search (get_elevations and utils::get_elevation)

  /** Inclusive on all four sides. */
  predicate Covers(m: MetaData, lat: real, lon: real) {
    && m.coords.minLat <= lat && lat <= m.coords.maxLat
    && m.coords.minLon <= lon && lon <= m.coords.maxLon
  }

  /** Index of the first record, in list order, whose box contains the point. */
  function FirstCovering(metas: seq<MetaData>, lat: real, lon: real): (r: Option<nat>)
    ensures r.Some? ==> r.value < |metas| && Covers(metas[r.value], lat, lon)
    ensures r.Some? ==> forall i :: 0 <= i < r.value ==> !Covers(metas[i], lat, lon)
    ensures r.None? <==> forall i :: 0 <= i < |metas| ==> !Covers(metas[i], lat, lon)
    decreases |metas|
  {
    if |metas| == 0 then None
    else if Covers(metas[0], lat, lon) then Some(0)
    else
      match FirstCovering(metas[1..], lat, lon)
      case None => None
      case Some(i) => Some(i + 1)
  }

  /**
   * Records after the first covering one are never consulted: appending
   * records leaves the answer unchanged once a record covers the point.
   */
  lemma {:induction false} FirstCoveringIgnoresLater(metas: seq<MetaData>, rest: seq<MetaData>, lat: real, lon: real)
    requires FirstCovering(metas, lat, lon).Some?
    ensures FirstCovering(metas + rest, lat, lon) == FirstCovering(metas, lat, lon)
  {
    var i := FirstCovering(metas, lat, lon).value;
    var both := metas + rest;
    assert both[i] == metas[i];
    assert forall k :: 0 <= k < i ==> both[k] == metas[k];
  }

  /** Rewriting the file names does not change which record serves a point. */
  lemma RewriteKeepsCoverage(dataDir: string, metas: seq<MetaData>, lat: real, lon: real)
    ensures FirstCovering(RewriteFiles(dataDir, metas), lat, lon) == FirstCovering(metas, lat, lon)
  {
    var r := RewriteFiles(dataDir, metas);
    assert forall i :: 0 <= i < |metas| ==> r[i].coords == metas[i].coords;
    match FirstCovering(metas, lat, lon)
    case None =>
      assert forall i :: 0 <= i < |r| ==> !Covers(r[i], lat, lon);
    case Some(i) =>
      assert Covers(r[i], lat, lon);
      var j := FirstCovering(r, lat, lon).value;
      assert !(j < i) && !(i < j);
  }

  /** The file of the record that serves the point, if any. */
  function CoveringFile(metas: seq<MetaData>, lat: real, lon: real): Option<string> {
    match FirstCovering(metas, lat, lon)
    case None => None
    case Some(i) => Some(metas[i].file)
  }

  /** The tile loaded for the point, if any, has the shape get_elevation indexes. */
  predicate Serves(metas: seq<MetaData>, load: string -> Tile, lat: real, lon: real) {
    match FirstCovering(metas, lat, lon)
    case None => true
    case Some(i) => TileShaped(load(metas[i].file))
  }

  /** The elevation of the point read from the first covering record's tile, if any. */
  function Lookup(metas: seq<MetaData>, load: string -> Tile, lat: real, lon: real): (r: Option<real>)
    requires Serves(metas, load, lat, lon)
    ensures r.Some? <==> exists i :: 0 <= i < |metas| && Covers(metas[i], lat, lon)
    ensures r.Some? ==> CoveringFile(metas, lat, lon).Some?
    ensures r.Some? ==> r.value == Sample(load(CoveringFile(metas, lat, lon).value), lat, lon)
  {
    match FirstCovering(metas, lat, lon)
    case None => None
    case Some(i) => Some(Sample(load(metas[i].file), lat, lon))
  }

  /** The answer for a point depends only on the records up to the first covering one. */
  lemma LookupIgnoresLater(metas: seq<MetaData>, rest: seq<MetaData>, load: string -> Tile, lat: real, lon: real)
    requires FirstCovering(metas, lat, lon).Some?
    requires Serves(metas, load, lat, lon)
    ensures Serves(metas + rest, load, lat, lon)
    ensures Lookup(metas + rest, load, lat, lon) == Lookup(metas, load, lat, lon)
  {
    FirstCoveringIgnoresLater(metas, rest, lat, lon);
    var i := FirstCovering(metas, lat, lon).value;
    assert (metas + rest)[i] == metas[i];
  }

  // ---------------------------------------------------------------------
  // get_elevations

  /** One result row: the query point echoed back with its elevation. */
  datatype Elevation = Elevation(lat: real, lon: real, elevation: real)

  predicate Distinct(s: seq<string>) {
    forall i, j :: 0 <= i < j < |s| ==> s[i] != s[j]
  }

  /** The result row get_elevations produces for the point (lat, lon). */
  function Resolved(metas: seq<MetaData>, load: string -> Tile, lat: real, lon: real): Elevation
    requires Serves(metas, load, lat, lon)
  {
    Elevation(lat, lon, Lookup(metas, load, lat, lon).GetOr(Sentinel))
  }

  /** The first k rows are the resolved rows of coords[..k]. */
  ghost predicate ResolvedUpTo(elevations: seq<Elevation>, coords: seq<(real, real)>, metas: seq<MetaData>, load: string -> Tile, k: nat)
    requires k <= |coords|
    requires forall q :: 0 <= q < |coords| ==> Serves(metas, load, coords[q].0, coords[q].1)
  {
    && |elevations| == k
    && forall q :: 0 <= q < k ==> elevations[q] == Resolved(metas, load, coords[q].0, coords[q].1)
  }

  lemma ResolvedStep(elevations: seq<Elevation>, coords: seq<(real, real)>, metas: seq<MetaData>, load: string -> Tile, k: nat)
    requires k < |coords|
    requires forall q :: 0 <= q < |coords| ==> Serves(metas, load, coords[q].0, coords[q].1)
    requires ResolvedUpTo(elevations, coords, metas, load, k)
    ensures ResolvedUpTo(elevations + [Resolved(metas, load, coords[k].0, coords[k].1)], coords, metas, load, k + 1)
  {
  }

  /** `loads` names exactly the files serving coords[..k]. */
  ghost predicate LoadedFor(loads: seq<string>, coords: seq<(real, real)>, metas: seq<MetaData>, k: nat)
    requires k <= |coords|
  {
    forall file :: file in loads <==>
      exists q :: 0 <= q < k && CoveringFile(metas, coords[q].0, coords[q].1) == Some(file)
  }

  /** Extending the log after point k keeps it exact. */
  lemma LoadedForStep(loads: seq<string>, loads': seq<string>, coords: seq<(real, real)>, metas: seq<MetaData>, k: nat)
    requires k < |coords|
    requires LoadedFor(loads, coords, metas, k)
    requires CoveringFile(metas, coords[k].0, coords[k].1).None? ==> loads' == loads
    requires CoveringFile(metas, coords[k].0, coords[k].1).Some? ==>
      var file := CoveringFile(metas, coords[k].0, coords[k].1).value;
      if file in loads then loads' == loads else loads' == loads + [file]
    ensures LoadedFor(loads', coords, metas, k + 1)
  {
    var c := CoveringFile(metas, coords[k].0, coords[k].1);
    forall file
      ensures file in loads' <==> exists q :: 0 <= q < k + 1 && CoveringFile(metas, coords[q].0, coords[q].1) == Some(file)
    {
      if c == Some(file) {
        assert file in loads';
      }
      if file in loads {
        var q :| 0 <= q < k && CoveringFile(metas, coords[q].0, coords[q].1) == Some(file);
      }
    }
  }

  /**
   * Resolves every point against the first covering record; a tile is
   * loaded (`load`, logged in `loads`) only when its file is not yet in the
   * call's cache, and is cached straight away.
   */
  method GetElevations(coords: seq<(real, real)>, metas: seq<MetaData>, load: string -> Tile)
    returns (elevations: seq<Elevation>, ghost loads: seq<string>)
    requires forall k :: 0 <= k < |coords| ==> Serves(metas, load, coords[k].0, coords[k].1)
    ensures |elevations| == |coords|
    ensures forall k :: 0 <= k < |coords| ==>
      elevations[k] == Elevation(coords[k].0, coords[k].1, Lookup(metas, load, coords[k].0, coords[k].1).GetOr(Sentinel))
    ensures Distinct(loads)
    ensures forall file :: file in loads <==>
      exists k :: 0 <= k < |coords| && CoveringFile(metas, coords[k].0, coords[k].1) == Some(file)
  {
    var tiles: map<string, Tile> := map[];
    elevations := [];
    loads := [];
    for k := 0 to |coords|
      invariant ResolvedUpTo(elevations, coords, metas, load, k)
      invariant forall file :: file in tiles ==> tiles[file] == load(file)
      invariant forall file :: file in tiles <==> file in loads
      invariant Distinct(loads)
      invariant LoadedFor(loads, coords, metas, k)
    {
      ghost var loads0, tiles0, elevations0 := loads, tiles, elevations;
      var (lat, lon) := coords[k];
      ghost var expected := Resolved(metas, load, lat, lon);
      var found := false;
      for r := 0 to |metas|
        invariant forall i :: 0 <= i < r ==> !Covers(metas[i], lat, lon)
        invariant !found
        invariant loads == loads0 && tiles == tiles0 && elevations == elevations0
      {
        var resource := metas[r];
        if Covers(resource, lat, lon) {
          assert FirstCovering(metas, lat, lon) == Some(r);
          var elevation;
          if resource.file in tiles {
            elevation := GetElevation(tiles[resource.file], lat, lon);
          } else {
            var tile := load(resource.file);
            loads := loads + [resource.file];
            elevation := GetElevation(tile, lat, lon);
            tiles := tiles[resource.file := tile];
          }
          assert Elevation(lat, lon, elevation) == expected;
          elevations := elevations + [Elevation(lat, lon, elevation)];
          found := true;
          break;
        }
      }
      if !found {
        assert FirstCovering(metas, lat, lon) == None;
        elevations := elevations + [Elevation(lat, lon, Sentinel)];
      }
      assert elevations == elevations0 + [expected];
      ResolvedStep(elevations0, coords, metas, load, k);
      LoadedForStep(loads0, loads, coords, metas, k);
    }
  }
}
