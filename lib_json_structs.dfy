/**
 * elevation-lib/src/json_structs.rs: Points::from_str, which builds each
 * tuple as soon as its segment has parsed, and Points::len.
 */
module LibJsonStructs {
  import opened Wrappers
  import opened QueryText
  import JsonStructs

  datatype Points = Points(points: seq<Point>) {
    /** Points::len. */
    function Len(): (n: nat)
      ensures n == 0 <==> points == []
      ensures n == |points|
    {
      |points|
    }
  }

  /**
   * The outcome Points::from_str reaches on the segments of a query:
   * segments are handled in order, and the first one that either holds an
   * unparsable scalar (an Err) or is short (a panic at `parsed_vec[1]`)
   * ends the call.
   */
  function PointsOf(parse: string -> Option<real>, segs: seq<seq<string>>): Outcome<Points> {
    var f, sh := FirstFailure(parse, segs), FirstShort(parse, segs);
    if f < |segs| && f < sh then Failed(ParseScalars(parse, segs[f]).error)
    else if sh < |segs| then Panicked
    else Parsed(Points(Tuples(parse, segs)))
  }

  /** A bad scalar ends the call with its error unless a short segment came first. */
  lemma PointsStopsAtBadScalar(parse: string -> Option<real>, segs: seq<seq<string>>, k: nat, j: nat)
    requires JsonStructs.FirstBadScalar(parse, segs, k, j)
    requires forall i :: 0 <= i < k ==> !IsShort(parse, segs[i])
    ensures PointsOf(parse, segs) == Failed(F64FromStr(parse, segs[k][j]).error)
  {
    ParseScalarsFirstError(parse, segs[k], j);
    assert FirstFailure(parse, segs) == k;
    assert !IsShort(parse, segs[k]);
  }

  /**
   * A short segment panics as soon as it is reached, whatever the later
   * segments hold.
   */
  lemma PointsStopsAtShort(parse: string -> Option<real>, segs: seq<seq<string>>, k: nat)
    requires k < |segs|
    requires forall i :: 0 <= i < k ==> ParseScalars(parse, segs[i]).Ok? && !IsShort(parse, segs[i])
    requires IsShort(parse, segs[k])
    ensures PointsOf(parse, segs) == Panicked
  {
    assert FirstShort(parse, segs) == k;
    assert FirstFailure(parse, segs) > k;
  }

  /** The segment parses, has at least two values, and `p` holds the first two. */
  predicate TupleParsed(parse: string -> Option<real>, seg: seq<string>, p: Point) {
    && ParseScalars(parse, seg).Ok? && |seg| >= 2
    && p == (F64FromStr(parse, seg[0]).value, F64FromStr(parse, seg[1]).value)
  }

  /** When every segment parses with at least two values, `ps` holds their first two values. */
  lemma PointsParsesAll(parse: string -> Option<real>, segs: seq<seq<string>>, ps: seq<Point>)
    requires |ps| == |segs|
    requires forall i :: 0 <= i < |segs| ==> TupleParsed(parse, segs[i], ps[i])
    ensures PointsOf(parse, segs) == Parsed(Points(ps))
  {
    assert FirstFailure(parse, segs) == |segs|;
    assert FirstShort(parse, segs) == |segs|;
    assert Tuples(parse, segs) == ps;
  }

  /** Points::from_str: the iterator chain, then the parse loop. */
  method FromStr(s: string, parse: string -> Option<real>) returns (r: Outcome<Points>)
    ensures r == PointsOf(parse, Segments(s))
  {
    var points := Segments(s);
    r := ParseLoop(points, parse);
  }

  /** The loop of Points::from_str: per segment, parse its scalars, then take `(parsed_vec[0], parsed_vec[1])`. */
  method ParseLoop(points: seq<seq<string>>, parse: string -> Option<real>) returns (r: Outcome<Points>)
    ensures r == PointsOf(parse, points)
  {
    var parsedPoints: seq<Point> := [];
    for k := 0 to |points|
      invariant |parsedPoints| == k
      invariant forall i :: 0 <= i < k ==> TupleParsed(parse, points[i], parsedPoints[i])
    {
      var strVec := points[k];
      var parsedVec: seq<real> := [];
      for j := 0 to |strVec|
        invariant |parsedVec| == j
        invariant forall q :: 0 <= q < j ==> F64FromStr(parse, strVec[q]) == Ok(parsedVec[q])
      {
        match F64FromStr(parse, strVec[j]) {
          case Ok(parsedFloat) =>
            parsedVec := parsedVec + [parsedFloat];
          case Err(err) =>
            PointsStopsAtBadScalar(parse, points, k, j);
            return Failed(err);
        }
      }
      assert ParseScalars(parse, strVec).Ok?;
      if |parsedVec| < 2 {
        // `parsed_vec[1]` is out of bounds
        PointsStopsAtShort(parse, points, k);
        return Panicked;
      }
      assert TupleParsed(parse, strVec, (parsedVec[0], parsedVec[1]));
      parsedPoints := parsedPoints + [(parsedVec[0], parsedVec[1])];
    }
    PointsParsesAll(parse, points, parsedPoints);
    r := Parsed(Points(parsedPoints));
  }

  /** len() counts one tuple per non-empty '(' piece of the query. */
  lemma LenCountsPieces(parse: string -> Option<real>, s: string)
    requires PointsOf(parse, Segments(s)).Parsed?
    ensures PointsOf(parse, Segments(s)).value.Len() == |Pieces(s)|
  {
  }

  // ---------------------------------------------------------------------
  // The two copies compared

  function AsCoordinateList(o: Outcome<Points>): Outcome<JsonStructs.CoordinateList> {
    match o
    case Parsed(p) => Parsed(JsonStructs.CoordinateList(p.points))
    case Failed(e) => Failed(e)
    case Panicked => Panicked
  }

  /**
   * The two copies disagree exactly when a short segment comes before the
   * first segment holding an unparsable scalar: Points::from_str then
   * panics while CoordinateList::from_str returns that scalar's Err.
   */
  lemma CopiesDisagreeExactly(parse: string -> Option<real>, segs: seq<seq<string>>)
    ensures AsCoordinateList(PointsOf(parse, segs)) != JsonStructs.CoordinateListOf(parse, segs) <==>
      FirstShort(parse, segs) < FirstFailure(parse, segs) < |segs|
    ensures FirstShort(parse, segs) < FirstFailure(parse, segs) < |segs| ==>
      PointsOf(parse, segs).Panicked? && JsonStructs.CoordinateListOf(parse, segs).Failed?
  {
    FailureIsNotShort(parse, segs);
  }

  /** On queries whose every segment has at least two scalars, the copies agree. */
  lemma CopiesAgreeOnFullTuples(parse: string -> Option<real>, segs: seq<seq<string>>)
    requires forall k :: 0 <= k < |segs| ==> |segs[k]| >= 2
    ensures AsCoordinateList(PointsOf(parse, segs)) == JsonStructs.CoordinateListOf(parse, segs)
  {
    CopiesDisagreeExactly(parse, segs);
    if FirstShort(parse, segs) < |segs| {
      assert IsShort(parse, segs[FirstShort(parse, segs)]);
    }
  }

  /** On queries whose every scalar parses, the copies agree too. */
  lemma CopiesAgreeWhenEveryScalarParses(parse: string -> Option<real>, segs: seq<seq<string>>)
    requires forall k :: 0 <= k < |segs| ==> ParseScalars(parse, segs[k]).Ok?
    ensures AsCoordinateList(PointsOf(parse, segs)) == JsonStructs.CoordinateListOf(parse, segs)
  {
    CopiesDisagreeExactly(parse, segs);
  }
}
