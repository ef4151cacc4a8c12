/**
 * The summary and lookup scenario of src/tests/mod.rs: one record for the
 * tile n58e104.nc covering latitudes 58..59 and longitudes 104..105. The
 * tile's netCDF content is a parameter; the lemmas assume one grid cell.
 */
module ElevationExamples {
  import opened Wrappers
  import opened Elevation

  const Summary: seq<MetaData> := [MetaData("n58e104.nc", BBox(58.0, 59.0, 104.0, 105.0))]

  /** test_load_summary_file: the file name is joined onto the data directory, the bounds are kept. */
  lemma SummaryRewrite(dataDir: string)
    requires |dataDir| > 0 && dataDir[|dataDir| - 1] == '/'
    ensures var metas := RewriteFiles(dataDir, Summary);
      && |metas| == 1
      && metas[0].file == dataDir + "n58e104.nc"
      && metas[0].coords == BBox(58.0, 59.0, 104.0, 105.0)
  {
  }

  /**
   * test_get_elevation: a point inside the box is read from the tile
   * (src/tests/mod.rs:85-90). In addition, beyond what that test checks,
   * a point outside every box gets the -9999 sentinel of get_elevations
   * (src/elevation/mod.rs:257-261).
   */
  lemma SummaryLookup(dataDir: string, load: string -> Tile)
    requires load(JoinPath(dataDir, "n58e104.nc")) == Tile([58.5], [104.5], [[457.0]])
    ensures var metas := RewriteFiles(dataDir, Summary);
      && Serves(metas, load, 58.5, 104.5)
      && Lookup(metas, load, 58.5, 104.5) == Some(457.0)
      && Serves(metas, load, 10.0, 10.0)
      && Lookup(metas, load, 10.0, 10.0).GetOr(Sentinel) == -9999.0
  {
    var metas := RewriteFiles(dataDir, Summary);
    var t := Tile([58.5], [104.5], [[457.0]]);
    assert Covers(metas[0], 58.5, 104.5);
    assert FirstCovering(metas, 58.5, 104.5) == Some(0);
    assert NearestIndex(t.lats, 58.5) == 0 && NearestIndex(t.lons, 104.5) == 0;
    assert !Covers(metas[0], 10.0, 10.0);
  }
}
