/**
 * The query strings of elevation-lib/src/json_structs.rs and
 * src/tests/mod.rs, taken apart by the iterator chain. Each string is a
 * parameter fixed by a precondition, so that the verifier reaches its
 * pieces and segments through the lemmas of QueryText one step at a
 * time instead of evaluating the whole chain on a literal.
 */
module QueryStrings {
  import opened QueryText

  // "(48.35,5.3),(48.43,5.23)"

  lemma TwoTupleText(s: string)
    requires s == "(48.35,5.3),(48.43,5.23)"
    ensures s == Join(["", "48.35,5.3),", "48.43,5.23)"], '(')
  {
    var t0, t1 := "48.35,5.3),", "48.43,5.23)";
    assert [t0, t1][1..] == [t1];
    assert Join([t0, t1], '(') == t0 + "(" + t1;
    assert ["", t0, t1][1..] == [t0, t1];
    assert Join(["", t0, t1], '(') == "(" + t0 + "(" + t1;
    assert "(" + t0 == "(48.35,5.3),";
    assert "(48.35,5.3)," + "(" + t1 == "(48.35,5.3),(48.43,5.23)";
  }

  lemma TwoTuplePieces(s: string)
    requires s == "(48.35,5.3),(48.43,5.23)"
    ensures Pieces(s) == ["48.35,5.3),", "48.43,5.23)"]
  {
    TwoTupleText(s);
    PiecesOfTuples(["48.35,5.3),", "48.43,5.23)"]);
    assert [""] + ["48.35,5.3),", "48.43,5.23)"] == ["", "48.35,5.3),", "48.43,5.23)"];
  }

  lemma TwoTuplePiece0(p: string)
    requires p == "48.35,5.3),"
    ensures Split(TrimMatches(p), ',') == ["48.35", "5.3"]
  {
    SegmentOfPiece(p, ["48.35", "5.3"], "),");
  }

  lemma TwoTuplePiece1(p: string)
    requires p == "48.43,5.23)"
    ensures Split(TrimMatches(p), ',') == ["48.43", "5.23"]
  {
    SegmentOfPiece(p, ["48.43", "5.23"], ")");
  }

  lemma TwoTupleSegments(s: string)
    requires s == "(48.35,5.3),(48.43,5.23)"
    ensures Segments(s) == [["48.35", "5.3"], ["48.43", "5.23"]]
  {
    TwoTuplePieces(s);
    var pieces, segs := Pieces(s), [["48.35", "5.3"], ["48.43", "5.23"]];
    forall k | 0 <= k < 2 ensures Split(TrimMatches(pieces[k]), ',') == segs[k] {
      if k == 0 {
        TwoTuplePiece0(pieces[0]);
      } else {
        TwoTuplePiece1(pieces[1]);
      }
    }
    SegmentsOfPieces(s, segs);
  }

  // "(48.2,54.2a"

  lemma UnclosedText(s: string)
    requires s == "(48.2,54.2a"
    ensures s == Join(["", "48.2,54.2a"], '(')
  {
    var t0 := "48.2,54.2a";
    assert ["", t0][1..] == [t0];
    assert Join(["", t0], '(') == "(" + t0;
    assert "(" + t0 == "(48.2,54.2a";
  }

  lemma UnclosedPieces(s: string)
    requires s == "(48.2,54.2a"
    ensures Pieces(s) == ["48.2,54.2a"]
  {
    UnclosedText(s);
    PiecesOfTuples(["48.2,54.2a"]);
    assert [""] + ["48.2,54.2a"] == ["", "48.2,54.2a"];
  }

  lemma UnclosedPiece0(p: string)
    requires p == "48.2,54.2a"
    ensures Split(TrimMatches(p), ',') == ["48.2", "54.2a"]
  {
    SegmentOfPiece(p, ["48.2", "54.2a"], "");
  }

  lemma UnclosedSegments(s: string)
    requires s == "(48.2,54.2a"
    ensures Segments(s) == [["48.2", "54.2a"]]
  {
    UnclosedPieces(s);
    var pieces, segs := Pieces(s), [["48.2", "54.2a"]];
    forall k | 0 <= k < 1 ensures Split(TrimMatches(pieces[k]), ',') == segs[k] {
      UnclosedPiece0(pieces[0]);
    }
    SegmentsOfPieces(s, segs);
  }

  // "(45.2,34.2),(32.4,-12.0)"

  lemma NegativeText(s: string)
    requires s == "(45.2,34.2),(32.4,-12.0)"
    ensures s == Join(["", "45.2,34.2),", "32.4,-12.0)"], '(')
  {
    var t0, t1 := "45.2,34.2),", "32.4,-12.0)";
    assert [t0, t1][1..] == [t1];
    assert Join([t0, t1], '(') == t0 + "(" + t1;
    assert ["", t0, t1][1..] == [t0, t1];
    assert Join(["", t0, t1], '(') == "(" + t0 + "(" + t1;
    assert "(" + t0 == "(45.2,34.2),";
    assert "(45.2,34.2)," + "(" + t1 == "(45.2,34.2),(32.4,-12.0)";
  }

  lemma NegativePieces(s: string)
    requires s == "(45.2,34.2),(32.4,-12.0)"
    ensures Pieces(s) == ["45.2,34.2),", "32.4,-12.0)"]
  {
    NegativeText(s);
    PiecesOfTuples(["45.2,34.2),", "32.4,-12.0)"]);
    assert [""] + ["45.2,34.2),", "32.4,-12.0)"] == ["", "45.2,34.2),", "32.4,-12.0)"];
  }

  lemma NegativePiece0(p: string)
    requires p == "45.2,34.2),"
    ensures Split(TrimMatches(p), ',') == ["45.2", "34.2"]
  {
    SegmentOfPiece(p, ["45.2", "34.2"], "),");
  }

  lemma NegativePiece1(p: string)
    requires p == "32.4,-12.0)"
    ensures Split(TrimMatches(p), ',') == ["32.4", "-12.0"]
  {
    SegmentOfPiece(p, ["32.4", "-12.0"], ")");
  }

  lemma NegativeSegments(s: string)
    requires s == "(45.2,34.2),(32.4,-12.0)"
    ensures Segments(s) == [["45.2", "34.2"], ["32.4", "-12.0"]]
  {
    NegativePieces(s);
    var pieces, segs := Pieces(s), [["45.2", "34.2"], ["32.4", "-12.0"]];
    forall k | 0 <= k < 2 ensures Split(TrimMatches(pieces[k]), ',') == segs[k] {
      if k == 0 {
        NegativePiece0(pieces[0]);
      } else {
        NegativePiece1(pieces[1]);
      }
    }
    SegmentsOfPieces(s, segs);
  }

  // "(1.2,3.4),(3.4,2.9)(1.2,3.4)"

  lemma UnseparatedText(s: string)
    requires s == "(1.2,3.4),(3.4,2.9)(1.2,3.4)"
    ensures s == Join(["", "1.2,3.4),", "3.4,2.9)", "1.2,3.4)"], '(')
  {
    var t0, t1, t2 := "1.2,3.4),", "3.4,2.9)", "1.2,3.4)";
    assert [t1, t2][1..] == [t2];
    assert Join([t1, t2], '(') == t1 + "(" + t2;
    assert [t0, t1, t2][1..] == [t1, t2];
    assert Join([t0, t1, t2], '(') == t0 + "(" + t1 + "(" + t2;
    assert ["", t0, t1, t2][1..] == [t0, t1, t2];
    assert Join(["", t0, t1, t2], '(') == "(" + t0 + "(" + t1 + "(" + t2;
    assert "(" + t0 == "(1.2,3.4),";
    assert "(1.2,3.4)," + "(" + t1 == "(1.2,3.4),(3.4,2.9)";
    assert "(1.2,3.4),(3.4,2.9)" + "(" + t2 == "(1.2,3.4),(3.4,2.9)(1.2,3.4)";
  }

  lemma UnseparatedPieces(s: string)
    requires s == "(1.2,3.4),(3.4,2.9)(1.2,3.4)"
    ensures Pieces(s) == ["1.2,3.4),", "3.4,2.9)", "1.2,3.4)"]
  {
    UnseparatedText(s);
    PiecesOfTuples(["1.2,3.4),", "3.4,2.9)", "1.2,3.4)"]);
    assert [""] + ["1.2,3.4),", "3.4,2.9)", "1.2,3.4)"] == ["", "1.2,3.4),", "3.4,2.9)", "1.2,3.4)"];
  }

  lemma UnseparatedPiece0(p: string)
    requires p == "1.2,3.4),"
    ensures Split(TrimMatches(p), ',') == ["1.2", "3.4"]
  {
    SegmentOfPiece(p, ["1.2", "3.4"], "),");
  }

  lemma UnseparatedPiece1(p: string)
    requires p == "3.4,2.9)"
    ensures Split(TrimMatches(p), ',') == ["3.4", "2.9"]
  {
    SegmentOfPiece(p, ["3.4", "2.9"], ")");
  }

  lemma UnseparatedPiece2(p: string)
    requires p == "1.2,3.4)"
    ensures Split(TrimMatches(p), ',') == ["1.2", "3.4"]
  {
    SegmentOfPiece(p, ["1.2", "3.4"], ")");
  }

  /** The doc-comment example of Points::from_str: the missing ',' between the last two tuples does not matter. */
  lemma UnseparatedSegments(s: string)
    requires s == "(1.2,3.4),(3.4,2.9)(1.2,3.4)"
    ensures Segments(s) == [["1.2", "3.4"], ["3.4", "2.9"], ["1.2", "3.4"]]
  {
    UnseparatedPieces(s);
    var pieces, segs := Pieces(s), [["1.2", "3.4"], ["3.4", "2.9"], ["1.2", "3.4"]];
    forall k | 0 <= k < 3 ensures Split(TrimMatches(pieces[k]), ',') == segs[k] {
      if k == 0 {
        UnseparatedPiece0(pieces[0]);
      } else if k == 1 {
        UnseparatedPiece1(pieces[1]);
      } else {
        UnseparatedPiece2(pieces[2]);
      }
    }
    SegmentsOfPieces(s, segs);
  }

  // "(5)(x,1)"

  lemma ShortThenBadText(s: string)
    requires s == "(5)(x,1)"
    ensures s == Join(["", "5)", "x,1)"], '(')
  {
    var t0, t1 := "5)", "x,1)";
    assert [t0, t1][1..] == [t1];
    assert Join([t0, t1], '(') == t0 + "(" + t1;
    assert ["", t0, t1][1..] == [t0, t1];
    assert Join(["", t0, t1], '(') == "(" + t0 + "(" + t1;
    assert "(" + t0 == "(5)";
    assert "(5)" + "(" + t1 == "(5)(x,1)";
  }

  lemma ShortThenBadPieces(s: string)
    requires s == "(5)(x,1)"
    ensures Pieces(s) == ["5)", "x,1)"]
  {
    ShortThenBadText(s);
    PiecesOfTuples(["5)", "x,1)"]);
    assert [""] + ["5)", "x,1)"] == ["", "5)", "x,1)"];
  }

  lemma ShortThenBadPiece0(p: string)
    requires p == "5)"
    ensures Split(TrimMatches(p), ',') == ["5"]
  {
    SegmentOfPiece(p, ["5"], ")");
  }

  lemma ShortThenBadPiece1(p: string)
    requires p == "x,1)"
    ensures Split(TrimMatches(p), ',') == ["x", "1"]
  {
    SegmentOfPiece(p, ["x", "1"], ")");
  }

  /** A one-value tuple followed by a tuple whose first scalar is not a number. */
  lemma ShortThenBadSegments(s: string)
    requires s == "(5)(x,1)"
    ensures Segments(s) == [["5"], ["x", "1"]]
  {
    ShortThenBadPieces(s);
    var pieces, segs := Pieces(s), [["5"], ["x", "1"]];
    forall k | 0 <= k < 2 ensures Split(TrimMatches(pieces[k]), ',') == segs[k] {
      if k == 0 {
        ShortThenBadPiece0(pieces[0]);
      } else {
        ShortThenBadPiece1(pieces[1]);
      }
    }
    SegmentsOfPieces(s, segs);
  }
}
