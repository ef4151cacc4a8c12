/**
 * src/json_structs.rs: CoordinateList::from_str, which parses every scalar
 * of every segment before it builds any tuple, and Rocket's
 * FromFormValue::from_form_value on top of it.
 */
module JsonStructs {
  import opened Wrappers
  import opened QueryText

  datatype CoordinateList = CoordinateList(points: seq<Point>)

  /**
   * The outcome CoordinateList::from_str reaches on the segments of a query:
   * the first parse error anywhere; otherwise a panic at `v[1]` if some
   * segment is short; otherwise the first two values of every segment.
   */
  function CoordinateListOf(parse: string -> Option<real>, segs: seq<seq<string>>): Outcome<CoordinateList> {
    var f := FirstFailure(parse, segs);
    if f < |segs| then Failed(ParseScalars(parse, segs[f]).error)
    else if FirstShort(parse, segs) < |segs| then Panicked
    else Parsed(CoordinateList(Tuples(parse, segs)))
  }

  /** The first scalar that does not parse, in reading order, is at (k, j). */
  ghost predicate FirstBadScalar(parse: string -> Option<real>, segs: seq<seq<string>>, k: nat, j: nat) {
    && k < |segs| && j < |segs[k]|
    && F64FromStr(parse, segs[k][j]).Err?
    && (forall i :: 0 <= i < k ==> ParseScalars(parse, segs[i]).Ok?)
    && (forall q :: 0 <= q < j ==> F64FromStr(parse, segs[k][q]).Ok?)
  }

  /**
   * The call fails exactly when some scalar of some segment does not
   * parse, and then with the error of the first such scalar.
   */
  lemma CoordinateListFailsOnAnyBadScalar(parse: string -> Option<real>, segs: seq<seq<string>>)
    ensures CoordinateListOf(parse, segs).Failed? <==>
      exists k, j :: 0 <= k < |segs| && 0 <= j < |segs[k]| && F64FromStr(parse, segs[k][j]).Err?
    ensures CoordinateListOf(parse, segs).Failed? ==>
      exists k: nat, j: nat :: FirstBadScalar(parse, segs, k, j) &&
        CoordinateListOf(parse, segs).error == F64FromStr(parse, segs[k][j]).error
  {
    var f := FirstFailure(parse, segs);
    if f < |segs| {
      var j := FirstBad(parse, segs[f]);
      ParseScalarsFirstError(parse, segs[f], j);
      assert FirstBadScalar(parse, segs, f, j);
    }
  }

  /**
   * A short segment only panics once every scalar of the query has parsed;
   * on success there is one tuple per segment, in segment order, made of
   * the segment's first two values (any further values are dropped).
   */
  lemma CoordinateListPanicsOrParses(parse: string -> Option<real>, segs: seq<seq<string>>)
    ensures CoordinateListOf(parse, segs).Panicked? <==>
      (forall k :: 0 <= k < |segs| ==> ParseScalars(parse, segs[k]).Ok?) &&
      (exists k :: 0 <= k < |segs| && |segs[k]| < 2)
    ensures CoordinateListOf(parse, segs).Parsed? <==>
      forall k :: 0 <= k < |segs| ==> ParseScalars(parse, segs[k]).Ok? && |segs[k]| >= 2
    ensures CoordinateListOf(parse, segs).Parsed? ==>
      var ps := CoordinateListOf(parse, segs).value.points;
      && |ps| == |segs|
      && forall k :: 0 <= k < |segs| ==>
           ps[k] == (F64FromStr(parse, segs[k][0]).value, F64FromStr(parse, segs[k][1]).value)
  {
    var f, sh := FirstFailure(parse, segs), FirstShort(parse, segs);
    if f < |segs| {
      assert !ParseScalars(parse, segs[f]).Ok?;
    } else if sh < |segs| {
      assert IsShort(parse, segs[sh]);
    } else {
      assert forall k :: 0 <= k < |segs| ==> !IsShort(parse, segs[k]);
    }
  }

  /** A query with no non-empty '(' piece, such as "", parses to the empty list. */
  lemma NoPiecesParsesEmpty(parse: string -> Option<real>, s: string)
    requires Pieces(s) == []
    ensures CoordinateListOf(parse, Segments(s)) == Parsed(CoordinateList([]))
  {
  }

  lemma EmptyQueryParsesEmpty(parse: string -> Option<real>)
    ensures CoordinateListOf(parse, Segments("")) == Parsed(CoordinateList([]))
  {
    assert Split("", '(') == [""];
    NoPiecesParsesEmpty(parse, "");
  }

  /** The call stops at the first unparsable scalar, with its error. */
  lemma FailsAtFirstBadScalar(parse: string -> Option<real>, segs: seq<seq<string>>, k: nat, j: nat)
    requires FirstBadScalar(parse, segs, k, j)
    ensures CoordinateListOf(parse, segs) == Failed(F64FromStr(parse, segs[k][j]).error)
  {
    ParseScalarsFirstError(parse, segs[k], j);
    assert FirstFailure(parse, segs) == k;
  }

  /** With every segment parsed into `vals`, the map to tuples decides the outcome. */
  lemma OutcomeOnceAllParsed(parse: string -> Option<real>, segs: seq<seq<string>>, vals: seq<seq<real>>)
    requires |vals| == |segs|
    requires forall i :: 0 <= i < |segs| ==> ParseScalars(parse, segs[i]) == Ok(vals[i])
    ensures (exists k :: 0 <= k < |vals| && |vals[k]| < 2) ==> CoordinateListOf(parse, segs) == Panicked
    ensures (forall k :: 0 <= k < |vals| ==> |vals[k]| >= 2) ==>
      CoordinateListOf(parse, segs) ==
        Parsed(CoordinateList(seq(|vals|, k requires 0 <= k < |vals| && |vals[k]| >= 2 => (vals[k][0], vals[k][1]))))
  {
    assert FirstFailure(parse, segs) == |segs|;
    if exists k :: 0 <= k < |vals| && |vals[k]| < 2 {
      var k :| 0 <= k < |vals| && |vals[k]| < 2;
      assert IsShort(parse, segs[k]);
    } else {
      assert FirstShort(parse, segs) == |segs|;
      var ps := Tuples(parse, segs);
      var t := seq(|vals|, k requires 0 <= k < |vals| && |vals[k]| >= 2 => (vals[k][0], vals[k][1]));
      forall k | 0 <= k < |vals| ensures t[k] == ps[k] {
        assert ParseScalars(parse, segs[k]).value == vals[k];
      }
      assert t == ps;
    }
  }

  /** CoordinateList::from_str: the iterator chain, then the parse loop with its early `return Err`. */
  method FromStr(s: string, parse: string -> Option<real>) returns (r: Outcome<CoordinateList>)
    ensures r == CoordinateListOf(parse, Segments(s))
  {
    var points := Segments(s);
    r := ParseLoop(points, parse);
  }

  /** The loop of CoordinateList::from_str over the segments, and the final map to tuples. */
  method ParseLoop(points: seq<seq<string>>, parse: string -> Option<real>) returns (r: Outcome<CoordinateList>)
    ensures r == CoordinateListOf(parse, points)
  {
    var parsedPoints: seq<seq<real>> := [];
    for k := 0 to |points|
      invariant |parsedPoints| == k
      invariant forall i :: 0 <= i < k ==> ParseScalars(parse, points[i]) == Ok(parsedPoints[i])
    {
      var strVec := points[k];
      var parsedVec: seq<real> := [];
      for j := 0 to |strVec|
        invariant |parsedVec| == j
        invariant forall q :: 0 <= q < j ==> F64FromStr(parse, strVec[q]) == Ok(parsedVec[q])
      {
        match F64FromStr(parse, strVec[j]) {
          case Ok(parsedFloat) =>
            parsedVec := parsedVec + [parsedFloat];
          case Err(err) =>
            FailsAtFirstBadScalar(parse, points, k, j);
            return Failed(err);
        }
      }
      assert ParseScalars(parse, strVec).Ok?;
      assert ParseScalars(parse, strVec).value == parsedVec;
      parsedPoints := parsedPoints + [parsedVec];
    }
    OutcomeOnceAllParsed(parse, points, parsedPoints);
    if exists k :: 0 <= k < |parsedPoints| && |parsedPoints[k]| < 2 {
      // `v[1]` is out of bounds for that segment
      r := Panicked;
    } else {
      r := Parsed(CoordinateList(seq(|parsedPoints|, k requires 0 <= k < |parsedPoints| && |parsedPoints[k]| >= 2 =>
                                       (parsedPoints[k][0], parsedPoints[k][1]))));
    }
  }

  /** How Rocket's from_form_value ends: a list, the raw input as error, or a panic. */
  datatype FormValue = Accepted(list: CoordinateList) | Rejected(raw: string) | FormPanicked

  /** FromFormValue::from_form_value: Ok exactly when the text parses, else Err carrying the raw input. */
  method FromFormValue(formValue: string, parse: string -> Option<real>) returns (r: FormValue)
    ensures r.Accepted? <==> CoordinateListOf(parse, Segments(formValue)).Parsed?
    ensures r.Accepted? ==> r.list == CoordinateListOf(parse, Segments(formValue)).value
    ensures r.Rejected? <==> CoordinateListOf(parse, Segments(formValue)).Failed?
    ensures r.Rejected? ==> r.raw == formValue
  {
    var parsed := FromStr(formValue, parse);
    match parsed {
      case Parsed(points) => r := Accepted(points);
      case Failed(_) => r := Rejected(formValue);
      case Panicked => r := FormPanicked;
    }
  }
}
