/**
 * src/utils.rs: the older single-point resolver.  It scans the records in
 * order, loads the tile of the first one containing the point (nothing is
 * cached between calls) and returns its nearest sample, or None.
 */
module Utils {
  import opened Wrappers
  import E = Elevation

  /** `loads` logs the tiles this call loads. */
  method GetElevation(lat: real, lon: real, metaDatas: seq<E.MetaData>, load: string -> E.Tile)
    returns (r: Option<real>, ghost loads: seq<string>)
    requires E.Serves(metaDatas, load, lat, lon)
    ensures r == E.Lookup(metaDatas, load, lat, lon)
    ensures r.Some? <==> exists i :: 0 <= i < |metaDatas| && E.Covers(metaDatas[i], lat, lon)
    ensures r.None? ==> loads == []
    ensures r.Some? ==> E.CoveringFile(metaDatas, lat, lon).Some? && loads == [E.CoveringFile(metaDatas, lat, lon).value]
  {
    loads := [];
    for i := 0 to |metaDatas|
      invariant forall j :: 0 <= j < i ==> !E.Covers(metaDatas[j], lat, lon)
      invariant loads == []
    {
      var resource := metaDatas[i];
      if E.Covers(resource, lat, lon) {
        assert E.FirstCovering(metaDatas, lat, lon) == Some(i);
        var tile := load(resource.file);
        loads := [resource.file];
        var elevation := E.GetElevation(tile, lat, lon);
        r := Some(elevation);
        return;
      }
    }
    r := None;
  }
}
