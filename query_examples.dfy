/**
 * What the parsers give on concrete query strings: Points::from_str on the
 * strings of src/tests/mod.rs (and CoordinateList::from_str too for
 * "(48.2,54.2a"), and both parsers on the doc-comment example of
 * elevation-lib/src/json_structs.rs and on "(5)(x,1)", a string chosen to
 * show where the two part ways. f64::from_str stays a parameter: each
 * lemma names only what it needs of it.
 */
module QueryExamples {
  import opened Wrappers
  import opened QueryText
  import JsonStructs
  import opened LibJsonStructs
  import opened QueryStrings

  // ---------------------------------------------------------------------
  // What the parsers make of them

  /** src/tests/mod.rs test_points: both tuples come back, in order. */
  lemma TwoTupleQuery(parse: string -> Option<real>, s: string, a: real, b: real, c: real, d: real)
    requires s == "(48.35,5.3),(48.43,5.23)"
    requires parse("48.35") == Some(a) && parse("5.3") == Some(b)
    requires parse("48.43") == Some(c) && parse("5.23") == Some(d)
    ensures PointsOf(parse, Segments(s)) == Parsed(Points([(a, b), (c, d)]))
  {
    TwoTupleSegments(s);
    PointsParsesAll(parse, [["48.35", "5.3"], ["48.43", "5.23"]], [(a, b), (c, d)]);
  }

  /**
   * src/tests/mod.rs test_points_parse_failure: a scalar f64::from_str
   * rejects makes both copies return Err, whatever the other scalar does.
   */
  lemma UnclosedQueryFails(parse: string -> Option<real>, s: string)
    requires s == "(48.2,54.2a"
    requires parse("54.2a") == None
    ensures PointsOf(parse, Segments(s)) == Failed(Invalid)
    ensures JsonStructs.CoordinateListOf(parse, Segments(s)) == Failed(Invalid)
  {
    UnclosedSegments(s);
    var segs := [["48.2", "54.2a"]];
    CopiesAgreeOnFullTuples(parse, segs);
    if parse("48.2").None? {
      JsonStructs.FailsAtFirstBadScalar(parse, segs, 0, 0);
    } else {
      JsonStructs.FailsAtFirstBadScalar(parse, segs, 0, 1);
    }
  }

  /** src/tests/mod.rs test_points_len: two tuples, so len() is 2. */
  lemma NegativeQueryLen(parse: string -> Option<real>, s: string)
    requires s == "(45.2,34.2),(32.4,-12.0)"
    requires parse("45.2").Some? && parse("34.2").Some?
    requires parse("32.4").Some? && parse("-12.0").Some?
    ensures PointsOf(parse, Segments(s)).Parsed?
    ensures PointsOf(parse, Segments(s)).value.Len() == 2
  {
    NegativeSegments(s);
    var segs := [["45.2", "34.2"], ["32.4", "-12.0"]];
    var ps := [(parse("45.2").value, parse("34.2").value), (parse("32.4").value, parse("-12.0").value)];
    forall i | 0 <= i < |segs| ensures TupleParsed(parse, segs[i], ps[i]) {
      assert i == 0 || i == 1;
    }
    PointsParsesAll(parse, segs, ps);
  }

  /** The example in the doc comment of Points::from_str gives three points. */
  lemma UnseparatedQuery(parse: string -> Option<real>, s: string, a: real, b: real, c: real)
    requires s == "(1.2,3.4),(3.4,2.9)(1.2,3.4)"
    requires parse("1.2") == Some(a) && parse("3.4") == Some(b) && parse("2.9") == Some(c)
    ensures PointsOf(parse, Segments(s)) == Parsed(Points([(a, b), (b, c), (a, b)]))
    ensures JsonStructs.CoordinateListOf(parse, Segments(s)) == Parsed(JsonStructs.CoordinateList([(a, b), (b, c), (a, b)]))
  {
    UnseparatedSegments(s);
    var segs := [["1.2", "3.4"], ["3.4", "2.9"], ["1.2", "3.4"]];
    var ps := [(a, b), (b, c), (a, b)];
    forall i | 0 <= i < |segs| ensures TupleParsed(parse, segs[i], ps[i]) {
      assert i == 0 || i == 1 || i == 2;
    }
    PointsParsesAll(parse, segs, ps);
    CopiesAgreeOnFullTuples(parse, segs);
  }

  /**
   * A one-value tuple before an unparsable scalar: Points::from_str panics
   * at `parsed_vec[1]` of the first tuple, while CoordinateList::from_str
   * reaches the second tuple first and returns its Err.
   */
  lemma ShortThenBadQuery(parse: string -> Option<real>, s: string)
    requires s == "(5)(x,1)"
    requires parse("5").Some? && parse("x") == None
    ensures PointsOf(parse, Segments(s)) == Panicked
    ensures JsonStructs.CoordinateListOf(parse, Segments(s)) == Failed(Invalid)
  {
    ShortThenBadSegments(s);
    var segs := [["5"], ["x", "1"]];
    assert ParseScalars(parse, segs[0]).Ok?;
    PointsStopsAtShort(parse, segs, 0);
    JsonStructs.FailsAtFirstBadScalar(parse, segs, 1, 0);
  }
}
