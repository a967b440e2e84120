/** The connectivity rule. Two cells connect along a straight line (a row, a column
    or a diagonal) whose interior cells are all unoccupied, or along the row-major
    scan order when every cell strictly between them in that order is unoccupied.
    The straight case is tried first. */
module Paths {
  import opened GameModels
  import opened Board

  function Abs(x: int): nat { if x < 0 then -x else x }

  /** `d / Math.abs(d)` for a non-zero `d`, and 0 for 0. */
  function Sign(d: int): int { if d > 0 then 1 else if d < 0 then -1 else 0 }

  /** `base + step * k` for a step of -1, 0 or 1. */
  function Offset(base: int, step: int, k: int): int {
    if step > 0 then base + k else if step < 0 then base - k else base
  }

  // ---------------------------------------------------------------- straight lines

  /** The offset from p1 to p2 is non-zero and horizontal, vertical or diagonal. */
  predicate IsLine(p1: Point, p2: Point) {
    var dr, dc := p2.row - p1.row, p2.col - p1.col;
    !(dr == 0 && dc == 0) && (dr == 0 || dc == 0 || Abs(dr) == Abs(dc))
  }

  /** Number of unit steps from p1 to p2. */
  function Span(p1: Point, p2: Point): nat {
    var a, b := Abs(p2.row - p1.row), Abs(p2.col - p1.col);
    if a >= b then a else b
  }

  /** The point `k` unit steps from p1 in the direction of p2. */
  function StepPoint(p1: Point, p2: Point, k: int): Point {
    Point(Offset(p1.row, Sign(p2.row - p1.row), k), Offset(p1.col, Sign(p2.col - p1.col), k))
  }

  /** The cells strictly between p1 and p2 on their line, from p1's side; empty when
      the two points are not on a line. */
  function StraightInterior(p1: Point, p2: Point): seq<Point> {
    if IsLine(p1, p2) then
      var n := Span(p1, p2) - 1;
      seq(n, k requires 0 <= k < n => StepPoint(p1, p2, k + 1))
    else []
  }

  /** The straight case: p1 and p2 are on a line and no cell strictly between them
      is occupied. */
  predicate StraightClear(g: Grid, p1: Point, p2: Point) {
    IsLine(p1, p2) && forall k :: 0 < k < Span(p1, p2) ==> !Occupied(g, StepPoint(p1, p2, k))
  }

  /** The path of the straight case, endpoints included. */
  function StraightPath(p1: Point, p2: Point): Path {
    [p1] + StraightInterior(p1, p2) + [p2]
  }

  /** Consecutive steps differ by the unit direction. */
  lemma {:induction false} StepNext(p1: Point, p2: Point, k: int)
    ensures StepPoint(p1, p2, k + 1) ==
              Point(StepPoint(p1, p2, k).row + Sign(p2.row - p1.row), StepPoint(p1, p2, k).col + Sign(p2.col - p1.col))
  {
  }

  lemma {:induction false} StepFacts(p1: Point, p2: Point, k: int)
    requires IsLine(p1, p2) && 0 <= k <= Span(p1, p2)
    ensures StepPoint(p1, p2, 0) == p1 && StepPoint(p1, p2, Span(p1, p2)) == p2
    ensures k < Span(p1, p2) ==> StepPoint(p1, p2, k) != p2
    ensures StepPoint(p1, p2, k + 1) ==
              Point(StepPoint(p1, p2, k).row + Sign(p2.row - p1.row), StepPoint(p1, p2, k).col + Sign(p2.col - p1.col))
    ensures Min(p1.row, p2.row) <= StepPoint(p1, p2, k).row <= Max(p1.row, p2.row)
    ensures Min(p1.col, p2.col) <= StepPoint(p1, p2, k).col <= Max(p1.col, p2.col)
  {
  }

  /** A straight path has Span + 1 points, runs from p1 to p2, and moves by exactly
      one (stepR, stepC) unit step between consecutive points. */
  lemma {:induction false} StraightPathShape(p1: Point, p2: Point)
    requires IsLine(p1, p2)
    ensures var w := StraightPath(p1, p2);
      && |w| == Span(p1, p2) + 1 && w[0] == p1 && w[|w| - 1] == p2
      && (forall k :: 0 <= k < |w| ==> w[k] == StepPoint(p1, p2, k))
      && (forall k :: 0 <= k < |w| - 1 ==>
            w[k + 1] == Point(w[k].row + Sign(p2.row - p1.row), w[k].col + Sign(p2.col - p1.col)))
  {
    var w := StraightPath(p1, p2);
    var n := Span(p1, p2);
    StepFacts(p1, p2, 0);
    forall k | 0 <= k < |w|
      ensures w[k] == StepPoint(p1, p2, k)
    {
      StepFacts(p1, p2, k);
      if 0 < k < n {
        assert w[k] == StraightInterior(p1, p2)[k - 1];
      }
    }
    forall k | 0 <= k < |w| - 1
      ensures w[k + 1] == Point(w[k].row + Sign(p2.row - p1.row), w[k].col + Sign(p2.col - p1.col))
    {
      StepFacts(p1, p2, k);
    }
  }

  /** A sequence that lists the unit steps from p1 to p2 one by one is the straight path. */
  lemma {:induction false} StraightPathPointwise(p1: Point, p2: Point, w: Path)
    requires IsLine(p1, p2) && |w| == Span(p1, p2) + 1
    requires forall k :: 0 <= k < |w| ==> w[k] == StepPoint(p1, p2, k)
    ensures w == StraightPath(p1, p2)
  {
    StraightPathShape(p1, p2);
  }

  /** Every point of a straight path between two cells of a rectangular grid is a
      cell of the grid. */
  lemma {:induction false} StraightInGrid(g: Grid, p1: Point, p2: Point, k: int)
    requires Rectangular(g) && InGrid(g, p1) && InGrid(g, p2) && IsLine(p1, p2)
    requires 0 <= k <= Span(p1, p2)
    ensures InGrid(g, StepPoint(p1, p2, k))
  {
    StepFacts(p1, p2, k);
  }

  // ---------------------------------------------------------------- scan order

  /** The cells whose row-major index lies strictly between those of p1 and p2, in
      ascending index order. */
  function ScanInterior(p1: Point, p2: Point): seq<Point> {
    var lo, hi := Min(Index(p1), Index(p2)), Max(Index(p1), Index(p2));
    var n := Max(hi - lo - 1, 0);
    seq(n, k requires 0 <= k < n => PointOf(lo + 1 + k))
  }

  /** The scan-order case: no cell whose index lies strictly between the two
      endpoints' indices is occupied, whatever rows that run crosses. */
  predicate ScanClear(g: Grid, p1: Point, p2: Point) {
    var lo, hi := Min(Index(p1), Index(p2)), Max(Index(p1), Index(p2));
    forall k :: lo < k < hi ==> !Occupied(g, PointOf(k))
  }

  /** The path of the scan-order case: p1, the cells between in index order moving
      towards p2, then p2. */
  function ScanWalk(p1: Point, p2: Point): Path {
    var i1, i2 := Index(p1), Index(p2);
    var n := Max(Abs(i2 - i1) - 1, 0);
    [p1]
    + (if i1 < i2 then seq(n, k requires 0 <= k < n => PointOf(i1 + 1 + k))
       else seq(n, k requires 0 <= k < n => PointOf(i1 - 1 - k)))
    + [p2]
  }

  /** A sequence holding, point by point, the cells between p1 and p2 in ascending
      index order is `ScanInterior(p1, p2)`. */
  lemma {:induction false} ScanInteriorPointwise(p1: Point, p2: Point, s: seq<Point>)
    requires var lo, hi := Min(Index(p1), Index(p2)), Max(Index(p1), Index(p2));
      |s| == Max(hi - lo - 1, 0) && forall k :: 0 <= k < |s| ==> s[k] == PointOf(lo + 1 + k)
    ensures s == ScanInterior(p1, p2)
  {
  }

  /** A sequence holding, point by point, p1, the cells between moving towards p2,
      and p2 is `ScanWalk(p1, p2)`. */
  lemma {:induction false} ScanWalkPointwise(p1: Point, p2: Point, w: seq<Point>)
    requires var i1, i2 := Index(p1), Index(p2);
      && |w| == Max(Abs(i2 - i1) - 1, 0) + 2 && w[0] == p1 && w[|w| - 1] == p2
      && forall k :: 0 < k < |w| - 1 ==> w[k] == PointOf(if i1 < i2 then i1 + k else i1 - k)
    ensures w == ScanWalk(p1, p2)
  {
    var v := ScanWalk(p1, p2);
    assert |v| == |w|;
    forall k | 0 <= k < |w|
      ensures w[k] == v[k]
    {
    }
  }

  /** For distinct cells the scan-order path has |idx1 - idx2| + 1 points, starts at
      p1, ends at p2 and visits consecutive indices moving from p1 towards p2. */
  lemma {:induction false} ScanWalkShape(p1: Point, p2: Point)
    requires 0 <= p1.row && 0 <= p1.col < Cols && 0 <= p2.row && 0 <= p2.col < Cols && p1 != p2
    ensures var w, i1, i2 := ScanWalk(p1, p2), Index(p1), Index(p2);
      && |w| == Abs(i1 - i2) + 1 && w[0] == p1 && w[|w| - 1] == p2
      && forall k :: 0 <= k < |w| ==> Index(w[k]) == Offset(i1, Sign(i2 - i1), k)
  {
    var w, i1, i2 := ScanWalk(p1, p2), Index(p1), Index(p2);
    PointOfIndex(p1);
    PointOfIndex(p2);
    assert i1 != i2;
    forall k | 0 <= k < |w|
      ensures Index(w[k]) == Offset(i1, Sign(i2 - i1), k)
    {
      if 0 < k < |w| - 1 {
        if i1 < i2 {
          IndexPointOf(i1 + k);
        } else {
          IndexPointOf(i1 - k);
        }
      }
    }
  }

  /** Every index strictly between two cells of a rectangular grid names a cell of
      the grid. */
  lemma {:induction false} ScanInGrid(g: Grid, p1: Point, p2: Point, k: int)
    requires Rectangular(g) && InGrid(g, p1) && InGrid(g, p2)
    requires Min(Index(p1), Index(p2)) < k < Max(Index(p1), Index(p2))
    ensures InGrid(g, PointOf(k))
  {
  }

  // ---------------------------------------------------------------- resolution

  /** Two cells are connectable by one of the two cases. */
  predicate Connectable(g: Grid, p1: Point, p2: Point) {
    StraightClear(g, p1, p2) || ScanClear(g, p1, p2)
  }

  /** The path `findPath` yields: the straight case first, then the scan order. */
  function ResolvedPath(g: Grid, p1: Point, p2: Point): Option<Path> {
    if StraightClear(g, p1, p2) then Some(StraightPath(p1, p2))
    else if ScanClear(g, p1, p2) then Some(ScanWalk(p1, p2))
    else None
  }

  /** The resolver finds a path exactly when the cells are connectable, and a found
      path runs from p1 to p2 through cells of the grid that are all unoccupied. */
  lemma {:induction false} ResolvedPathSound(g: Grid, p1: Point, p2: Point)
    requires Rectangular(g) && InGrid(g, p1) && InGrid(g, p2) && p1 != p2
    ensures ResolvedPath(g, p1, p2).Some? <==> Connectable(g, p1, p2)
    ensures ResolvedPath(g, p1, p2).Some? ==>
      var w := ResolvedPath(g, p1, p2).value;
      && |w| >= 2 && w[0] == p1 && w[|w| - 1] == p2
      && forall k :: 0 < k < |w| - 1 ==> InGrid(g, w[k]) && !Occupied(g, w[k])
  {
    if StraightClear(g, p1, p2) {
      var w := StraightPath(p1, p2);
      StraightPathShape(p1, p2);
      forall k | 0 < k < |w| - 1
        ensures InGrid(g, w[k]) && !Occupied(g, w[k])
      {
        StraightInGrid(g, p1, p2, k);
      }
    } else if ScanClear(g, p1, p2) {
      var w, i1, i2 := ScanWalk(p1, p2), Index(p1), Index(p2);
      ScanWalkShape(p1, p2);
      forall k | 0 < k < |w| - 1
        ensures InGrid(g, w[k]) && !Occupied(g, w[k])
      {
        var j := if i1 < i2 then i1 + k else i1 - k;
        assert w[k] == PointOf(j);
        ScanInGrid(g, p1, p2, j);
      }
    }
  }

  /** A cell at the end of a row and the first cell of the next row are always
      connectable: no index lies between them. */
  lemma {:induction false} RowEndMeetsNextRowStart(g: Grid, r: int)
    requires 0 <= r
    ensures ScanClear(g, Point(r, Cols - 1), Point(r + 1, 0))
  {
  }

  // ---------------------------------------------------------------- highlighted cells

  /** The points of `s` other than p1 and p2, each kept once at its first appearance
      (what de-duplicating through a map keyed by position yields). */
  function FirstOccurrences(s: seq<Point>, p1: Point, p2: Point): seq<Point> {
    if |s| == 0 then []
    else
      var prev, q := FirstOccurrences(s[..|s| - 1], p1, p2), s[|s| - 1];
      if q == p1 || q == p2 || q in prev then prev else prev + [q]
  }

  /** The cells highlighted after a blocked attempt: the cells examined by both
      cases, minus the endpoints, without repetition. */
  function AttemptedCells(p1: Point, p2: Point): seq<Point> {
    FirstOccurrences(StraightInterior(p1, p2) + ScanInterior(p1, p2), p1, p2)
  }

  /** One step of the first-occurrence scan over a prefix of `s`. */
  lemma FirstOccurrencesStep(s: seq<Point>, i: int, p1: Point, p2: Point)
    requires 0 <= i < |s|
    ensures FirstOccurrences(s[..i + 1], p1, p2)
            == var prev := FirstOccurrences(s[..i], p1, p2);
               if s[i] == p1 || s[i] == p2 || s[i] in prev then prev else prev + [s[i]]
  {
    assert s[..i + 1][..i] == s[..i];
  }

  lemma {:induction false} FirstOccurrencesFacts(s: seq<Point>, p1: Point, p2: Point)
    ensures forall q :: q in FirstOccurrences(s, p1, p2) <==> q in s && q != p1 && q != p2
    ensures forall i, j :: 0 <= i < j < |FirstOccurrences(s, p1, p2)| ==>
              FirstOccurrences(s, p1, p2)[i] != FirstOccurrences(s, p1, p2)[j]
    decreases |s|
  {
    if |s| > 0 {
      var front := s[..|s| - 1];
      FirstOccurrencesFacts(front, p1, p2);
      assert s == front + [s[|s| - 1]];
    }
  }
}
