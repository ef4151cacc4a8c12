/**
 * The coordinate-list query text, shared by src/json_structs.rs and
 * elevation-lib/src/json_structs.rs: split on '(', drop empty pieces, trim
 * ')' and ',' from both ends, split on ',', and parse each scalar.
 */
module QueryText {
  import opened Wrappers

  /** A (lat, lon) tuple. */
  type Point = (real, real)

  // ---------------------------------------------------------------------
  // str::split on a single character

  /** The pieces of `s` between occurrences of `c`. */
  function Split(s: string, c: char): (r: seq<string>)
    ensures |r| >= 1
    ensures forall i :: 0 <= i < |r| ==> c !in r[i]
    decreases |s|
  {
    if |s| == 0 then [""]
    else
      var rest := Split(s[1..], c);
      if s[0] == c then [""] + rest else [[s[0]] + rest[0]] + rest[1..]
  }

  /** The pieces glued back together with `c` between neighbours. */
  function Join(ps: seq<string>, c: char): string
    requires |ps| >= 1
    decreases |ps|
  {
    if |ps| == 1 then ps[0] else ps[0] + [c] + Join(ps[1..], c)
  }

  /** Splitting loses nothing: joining the pieces gives the input back. */
  lemma {:induction false} JoinSplit(s: string, c: char)
    ensures Join(Split(s, c), c) == s
    decreases |s|
  {
    if |s| > 0 {
      JoinSplit(s[1..], c);
      var rest := Split(s[1..], c);
      if s[0] == c {
        assert ([""] + rest)[1..] == rest;
      } else {
        var r := [[s[0]] + rest[0]] + rest[1..];
        assert r[1..] == rest[1..];
        if |rest| > 1 {
          assert Join(rest, c) == rest[0] + [c] + Join(rest[1..], c);
        }
        assert s == [s[0]] + s[1..];
      }
    }
  }

  lemma {:induction false} SplitNoSeparator(a: string, c: char)
    requires c !in a
    ensures Split(a, c) == [a]
    decreases |a|
  {
    if |a| > 0 {
      SplitNoSeparator(a[1..], c);
      assert a == [a[0]] + a[1..];
    }
  }

  lemma {:induction false} SplitAtFirstSeparator(a: string, b: string, c: char)
    requires c !in a
    ensures Split(a + [c] + b, c) == [a] + Split(b, c)
    decreases |a|
  {
    var s := a + [c] + b;
    if |a| == 0 {
      assert s == [c] + b && s[1..] == b;
    } else {
      assert s[0] == a[0] && s[1..] == a[1..] + [c] + b;
      SplitAtFirstSeparator(a[1..], b, c);
      assert a == [a[0]] + a[1..];
    }
  }

  /**
   * Pieces free of the separator are exactly what splitting their join
   * gives back: the split of a string is unique.
   */
  lemma {:induction false} SplitJoin(ps: seq<string>, c: char)
    requires |ps| >= 1
    requires forall i :: 0 <= i < |ps| ==> c !in ps[i]
    ensures Split(Join(ps, c), c) == ps
    decreases |ps|
  {
    if |ps| == 1 {
      SplitNoSeparator(ps[0], c);
    } else {
      assert forall i :: 0 <= i < |ps| - 1 ==> ps[1..][i] == ps[i + 1];
      SplitJoin(ps[1..], c);
      SplitAtFirstSeparator(ps[0], Join(ps[1..], c), c);
      assert ps == [ps[0]] + ps[1..];
    }
  }

  // ---------------------------------------------------------------------
  // filter(|v| v != &"")

  function NonEmpty(ps: seq<string>): (r: seq<string>)
    ensures |r| <= |ps|
    ensures forall i :: 0 <= i < |r| ==> r[i] != ""
    ensures forall x :: x in r <==> x in ps && x != ""
    decreases |ps|
  {
    if |ps| == 0 then []
    else (if ps[0] == "" then [] else [ps[0]]) + NonEmpty(ps[1..])
  }

  /** One piece is kept exactly when it is not empty. */
  lemma NonEmptyOfOne(p: string)
    ensures NonEmpty([p]) == (if p == "" then [] else [p])
  {
    assert [p][1..] == [];
  }

  /**
   * The filter works piece by piece: filtering a concatenation filters each
   * part, so the kept pieces keep their order and their repetitions.
   */
  lemma {:induction false} NonEmptyAppend(a: seq<string>, b: seq<string>)
    ensures NonEmpty(a + b) == NonEmpty(a) + NonEmpty(b)
    decreases |a|
  {
    if |a| == 0 {
      assert a + b == b;
    } else {
      assert (a + b)[1..] == a[1..] + b;
      NonEmptyAppend(a[1..], b);
    }
  }

  // ---------------------------------------------------------------------
  // trim_matches(|v| v == ')' || v == ',')

  predicate IsTrimmed(ch: char) {
    ch == ')' || ch == ','
  }

  function TrimStart(s: string): (r: string)
    ensures |r| <= |s| && r == s[|s| - |r|..]
    ensures forall k :: 0 <= k < |s| - |r| ==> IsTrimmed(s[k])
    ensures r == "" || !IsTrimmed(r[0])
    decreases |s|
  {
    if |s| > 0 && IsTrimmed(s[0]) then TrimStart(s[1..]) else s
  }

  function TrimEnd(s: string): (r: string)
    ensures |r| <= |s| && r == s[..|r|]
    ensures forall k :: |r| <= k < |s| ==> IsTrimmed(s[k])
    ensures r == "" || !IsTrimmed(r[|r| - 1])
    decreases |s|
  {
    if |s| > 0 && IsTrimmed(s[|s| - 1]) then TrimEnd(s[..|s| - 1]) else s
  }

  /** `s` with every leading and trailing ')' and ',' removed. */
  function TrimMatches(s: string): (r: string)
    ensures |r| <= |s|
    ensures r == "" || (!IsTrimmed(r[0]) && !IsTrimmed(r[|r| - 1]))
  {
    TrimEnd(TrimStart(s))
  }

  /**
   * What trim_matches keeps is a contiguous part of `s`, and everything it
   * cuts away on either side is ')' or ','.
   */
  lemma TrimMatchesCutsOnlyDelimiters(s: string)
    ensures var r, i := TrimMatches(s), |s| - |TrimStart(s)|;
      && i + |r| <= |s|
      && r == s[i..i + |r|]
      && (forall k :: 0 <= k < i ==> IsTrimmed(s[k]))
      && (forall k :: i + |r| <= k < |s| ==> IsTrimmed(s[k]))
  {
    var t := TrimStart(s);
    SliceOfSuffix(s, |s| - |t|, |TrimEnd(t)|);
  }

  lemma SliceOfSuffix(s: string, i: nat, n: nat)
    requires i + n <= |s|
    ensures s[i..][..n] == s[i..i + n]
    ensures forall k :: i + n <= k < |s| ==> s[i..][k - i] == s[k]
  {
  }

  // ---------------------------------------------------------------------
  // The iterator chain

  /** The non-empty pieces between '(' characters. */
  function Pieces(s: string): seq<string> {
    NonEmpty(Split(s, '('))
  }

  /** Per tuple, the scalar strings: each piece trimmed and split on ','. */
  function Segments(s: string): (segs: seq<seq<string>>)
    ensures |segs| == |Pieces(s)|
    ensures forall k :: 0 <= k < |segs| ==> |segs[k]| >= 1
  {
    var pieces := Pieces(s);
    seq(|pieces|, k requires 0 <= k < |pieces| => Split(TrimMatches(pieces[k]), ','))
  }


  /** Trimming leaves a tuple body alone and drops the ")" or ")," after it. */
  lemma TrimTupleTail(body: string, tail: string)
    requires body != "" && !IsTrimmed(body[0]) && !IsTrimmed(body[|body| - 1])
    requires tail == "" || tail == ")" || tail == "),"
    ensures TrimMatches(body + tail) == body
  {
    var s := body + tail;
    assert s[0] == body[0];
    assert TrimStart(s) == s;
    if tail == "" {
      assert s == body;
    } else if tail == ")" {
      assert s[..|s| - 1] == body;
    } else {
      assert s[..|s| - 1] == body + ")";
      assert (body + ")")[..|body|] == body;
    }
  }

  /** Joining non-empty pieces keeps the first character of the first and the last of the last. */
  lemma {:induction false} JoinEnds(ps: seq<string>, c: char)
    requires |ps| >= 1 && forall i :: 0 <= i < |ps| ==> ps[i] != ""
    ensures var j := Join(ps, c); j != "" && j[0] == ps[0][0] && j[|j| - 1] == ps[|ps| - 1][|ps[|ps| - 1]| - 1]
    decreases |ps|
  {
    if |ps| > 1 {
      JoinEnds(ps[1..], c);
    }
  }

  lemma {:induction false} NonEmptyKeepsAll(ps: seq<string>)
    requires forall i :: 0 <= i < |ps| ==> ps[i] != ""
    ensures NonEmpty(ps) == ps
    decreases |ps|
  {
    if |ps| > 0 {
      NonEmptyKeepsAll(ps[1..]);
    }
  }

  /** A query written as '(' before each piece yields exactly those pieces. */
  lemma PiecesOfTuples(ts: seq<string>)
    requires forall i :: 0 <= i < |ts| ==> ts[i] != "" && '(' !in ts[i]
    ensures Pieces(Join([""] + ts, '(')) == ts
  {
    var all := [""] + ts;
    assert forall i :: 0 <= i < |ts| ==> all[i + 1] == ts[i];
    SplitJoin(all, '(');
    assert all[1..] == ts;
    NonEmptyKeepsAll(ts);
  }

  /** A piece holding a well-formed tuple, then ")" or ")," or nothing, splits back to its scalars. */
  lemma SegmentOfPiece(piece: string, scalars: seq<string>, tail: string)
    requires |scalars| >= 1
    requires forall i :: 0 <= i < |scalars| ==> scalars[i] != "" && ',' !in scalars[i]
    requires !IsTrimmed(scalars[0][0])
    requires var last := scalars[|scalars| - 1]; !IsTrimmed(last[|last| - 1])
    requires tail == "" || tail == ")" || tail == "),"
    requires piece == Join(scalars, ',') + tail
    ensures Split(TrimMatches(piece), ',') == scalars
  {
    var body := Join(scalars, ',');
    JoinEnds(scalars, ',');
    assert body != "" && !IsTrimmed(body[0]) && !IsTrimmed(body[|body| - 1]);
    TrimTupleTail(body, tail);
    assert TrimMatches(piece) == body;
    SplitJoin(scalars, ',');
  }

  /** Segments is determined piece by piece. */
  lemma SegmentsOfPieces(s: string, segs: seq<seq<string>>)
    requires |Pieces(s)| == |segs|
    requires forall k :: 0 <= k < |segs| ==> Split(TrimMatches(Pieces(s)[k]), ',') == segs[k]
    ensures Segments(s) == segs
  {
  }

  // ---------------------------------------------------------------------
  // f64::from_str over the scalars

  /** The kind a ParseFloatError carries. */
  datatype FloatErrorKind = Empty | Invalid

  /**
   * f64::from_str: the empty string is rejected as Empty before anything
   * else; every other string goes to `parse`, the model of the float
   * grammar, and is rejected as Invalid when `parse` refuses it.
   */
  function F64FromStr(parse: string -> Option<real>, t: string): (r: Result<real, FloatErrorKind>)
    ensures r == Err(Empty) <==> t == ""
    ensures r == Err(Invalid) <==> t != "" && parse(t).None?
    ensures r.Ok? <==> t != "" && parse(t).Some?
    ensures r.Ok? ==> parse(t) == Some(r.value)
  {
    if t == "" then Err(Empty)
    else
      match parse(t)
      case Some(v) => Ok(v)
      case None => Err(Invalid)
  }

  /** The inner parse loop over one segment: all the values, or the first error. */
  function ParseScalars(parse: string -> Option<real>, seg: seq<string>): (r: Result<seq<real>, FloatErrorKind>)
    ensures r.Ok? <==> forall j :: 0 <= j < |seg| ==> F64FromStr(parse, seg[j]).Ok?
    ensures r.Ok? ==> |r.value| == |seg|
    ensures r.Ok? ==> forall j :: 0 <= j < |seg| ==> r.value[j] == F64FromStr(parse, seg[j]).value
    decreases |seg|
  {
    if |seg| == 0 then Ok([])
    else
      match F64FromStr(parse, seg[0])
      case Err(e) => Err(e)
      case Ok(v) =>
        match ParseScalars(parse, seg[1..])
        case Err(e) => Err(e)
        case Ok(vs) => Ok([v] + vs)
  }

  /** The error of a segment is that of its first unparsable scalar. */
  lemma {:induction false} ParseScalarsFirstError(parse: string -> Option<real>, seg: seq<string>, j: nat)
    requires j < |seg|
    requires forall q :: 0 <= q < j ==> F64FromStr(parse, seg[q]).Ok?
    requires F64FromStr(parse, seg[j]).Err?
    ensures ParseScalars(parse, seg) == Err(F64FromStr(parse, seg[j]).error)
    decreases j
  {
    if j > 0 {
      assert F64FromStr(parse, seg[0]).Ok?;
      assert forall q :: 0 <= q < j - 1 ==> seg[1..][q] == seg[q + 1];
      ParseScalarsFirstError(parse, seg[1..], j - 1);
    }
  }

  /** Index of the first unparsable scalar of a segment, or |seg| if none. */
  function FirstBad(parse: string -> Option<real>, seg: seq<string>): (j: nat)
    ensures j <= |seg|
    ensures forall q :: 0 <= q < j ==> F64FromStr(parse, seg[q]).Ok?
    ensures j < |seg| ==> F64FromStr(parse, seg[j]).Err?
    decreases |seg|
  {
    if |seg| == 0 then 0
    else if F64FromStr(parse, seg[0]).Err? then 0
    else 1 + FirstBad(parse, seg[1..])
  }

  /** Index of the first segment with an unparsable scalar, or |segs| if none. */
  function FirstFailure(parse: string -> Option<real>, segs: seq<seq<string>>): (f: nat)
    ensures f <= |segs|
    ensures forall i :: 0 <= i < f ==> ParseScalars(parse, segs[i]).Ok?
    ensures f < |segs| ==> ParseScalars(parse, segs[f]).Err?
    decreases |segs|
  {
    if |segs| == 0 then 0
    else if ParseScalars(parse, segs[0]).Err? then 0
    else 1 + FirstFailure(parse, segs[1..])
  }

  /** A segment whose scalars all parse but which has fewer than two of them. */
  predicate IsShort(parse: string -> Option<real>, seg: seq<string>) {
    ParseScalars(parse, seg).Ok? && |seg| < 2
  }

  /** Index of the first short segment, or |segs| if none. */
  function FirstShort(parse: string -> Option<real>, segs: seq<seq<string>>): (k: nat)
    ensures k <= |segs|
    ensures forall i :: 0 <= i < k ==> !IsShort(parse, segs[i])
    ensures k < |segs| ==> IsShort(parse, segs[k])
    decreases |segs|
  {
    if |segs| == 0 then 0
    else if IsShort(parse, segs[0]) then 0
    else 1 + FirstShort(parse, segs[1..])
  }

  /** No segment is both the first failing one and the first short one. */
  lemma FailureIsNotShort(parse: string -> Option<real>, segs: seq<seq<string>>)
    ensures FirstFailure(parse, segs) < |segs| ==> FirstFailure(parse, segs) != FirstShort(parse, segs)
  {
  }

  /** `(v[0], v[1])` for every segment, once all parse and none is short. */
  function Tuples(parse: string -> Option<real>, segs: seq<seq<string>>): (ps: seq<Point>)
    requires FirstFailure(parse, segs) == |segs| && FirstShort(parse, segs) == |segs|
    ensures |ps| == |segs|
    ensures forall k :: 0 <= k < |segs| ==> |segs[k]| >= 2
    ensures forall k :: 0 <= k < |segs| ==>
      ps[k] == (F64FromStr(parse, segs[k][0]).value, F64FromStr(parse, segs[k][1]).value)
  {
    seq(|segs|, k requires 0 <= k < |segs| =>
      var v := ParseScalars(parse, segs[k]).value;
      (v[0], v[1]))
  }

  /** How a from_str call ends: a value, a ParseFloatError, or a panic. */
  datatype Outcome<T> = Parsed(value: T) | Failed(error: FloatErrorKind) | Panicked
}
