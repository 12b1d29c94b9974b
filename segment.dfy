/** segment/segment.go: points, and straight segments that know every point they cover. */
module Segments {
  import opened Wrappers

  datatype Point = Point(x: int, y: int)

  /** The error NewSegment reports for two points that are not in a straight line. */
  datatype SegmentError = NotStraightLine(start: Point, end: Point)

  /** lo and hi are a and b, smaller first. */
  predicate Ordered(lo: int, hi: int, a: int, b: int) {
    lo <= hi && ((lo == a && hi == b) || (lo == b && hi == a))
  }

  /** inOrder: its two arguments as (smaller, larger). */
  function InOrder(i1: int, i2: int): (r: (int, int))
    ensures Ordered(r.0, r.1, i1, i2)
  {
    if i1 <= i2 then (i1, i2) else (i2, i1)
  }

  lemma InOrderSymmetric(i1: int, i2: int)
    ensures InOrder(i1, i2) == InOrder(i2, i1)
  {
  }

  /** Horizontally or vertically in line (a point is in line with itself). */
  predicate Straight(start: Point, end: Point) {
    start.x == end.x || start.y == end.y
  }

  /** (x, y1), (x, y1 + 1), ..., (x, yHi): what NewSegment's inner loop appends for one x. */
  function Column(x: int, y1: int, yHi: int): (r: seq<Point>)
    ensures |r| == if yHi < y1 then 0 else yHi - y1 + 1
    ensures forall i :: 0 <= i < |r| ==> r[i] == Point(x, y1 + i)
    decreases yHi - y1
  {
    if yHi < y1 then [] else Column(x, y1, yHi - 1) + [Point(x, yHi)]
  }

  /**
   * The columns x1, ..., xHi of the box [x1, xHi] x [y1, y2], one after the other: the order of
   * NewSegment's nested loops.
   */
  function Grid(x1: int, xHi: int, y1: int, y2: int): seq<Point>
    decreases xHi - x1
  {
    if xHi < x1 then [] else Grid(x1, xHi - 1, y1, y2) + Column(xHi, y1, y2)
  }

  /** The list holds exactly the integer points of the box. */
  lemma {:induction false} GridMembership(x1: int, xHi: int, y1: int, y2: int)
    ensures forall p :: p in Grid(x1, xHi, y1, y2) <==> x1 <= p.x <= xHi && y1 <= p.y <= y2
    decreases xHi - x1
  {
    if xHi >= x1 {
      GridMembership(x1, xHi - 1, y1, y2);
      var c := Column(xHi, y1, y2);
      forall p: Point | p.x == xHi && y1 <= p.y <= y2
        ensures p in c
      {
        assert c[p.y - y1] == p;
      }
    }
  }

  /** A box one column wide is that column, top to bottom. */
  lemma GridOneColumn(x: int, y1: int, y2: int)
    ensures Grid(x, x, y1, y2) == Column(x, y1, y2)
  {
    assert Grid(x, x - 1, y1, y2) == [];
  }

  /** A box one row high is that row, left to right. */
  lemma {:induction false} GridOneRow(x1: int, xHi: int, y: int)
    ensures |Grid(x1, xHi, y, y)| == if xHi < x1 then 0 else xHi - x1 + 1
    ensures forall i :: 0 <= i < |Grid(x1, xHi, y, y)| ==> Grid(x1, xHi, y, y)[i] == Point(x1 + i, y)
    decreases xHi - x1
  {
    if xHi >= x1 {
      GridOneRow(x1, xHi - 1, y);
    }
  }

  /**
   * A segment from Start to End, both corners of the box it covers (Start the smaller), and
   * the list of its points. Go keeps the list private and never changes it after construction.
   */
  datatype Segment = Segment(start: Point, end: Point, points: seq<Point>) {

    /** What NewSegment builds. */
    ghost predicate Valid() {
      && start.x <= end.x && start.y <= end.y
      && Straight(start, end)
      && points == Grid(start.x, end.x, start.y, end.y)
    }

    /** Points: a fresh copy of the point list. */
    method Points() returns (copy: array<Point>)
      ensures fresh(copy) && copy[..] == points
    {
      copy := new Point[|points|](i requires 0 <= i < |points| => points[i]);
    }

    /** Contains: linear search of the point list. */
    method Contains(point: Point) returns (found: bool)
      ensures found <==> point in points
      ensures Valid() ==> (found <==> start.x <= point.x <= end.x && start.y <= point.y <= end.y)
    {
      GridMembership(start.x, end.x, start.y, end.y);
      for i := 0 to |points|
        invariant point !in points[..i]
      {
        if point == points[i] {
          return true;
        }
      }
      assert points[..|points|] == points;
      return false;
    }
  }

  /**
   * s joins start and end: its corners are theirs, smaller first, and its point list runs from
   * corner to corner one step at a time, along the column or the row they share.
   */
  ghost predicate Joins(s: Segment, start: Point, end: Point) {
    && Ordered(s.start.x, s.end.x, start.x, end.x)
    && Ordered(s.start.y, s.end.y, start.y, end.y)
    && |s.points| == (s.end.x - s.start.x) + (s.end.y - s.start.y) + 1
    && s.points[0] == s.start && s.points[|s.points| - 1] == s.end
    && forall i :: 0 <= i < |s.points| ==>
         s.points[i] == if start.x == end.x then Point(s.start.x, s.start.y + i) else Point(s.start.x + i, s.start.y)
  }

  lemma JoinsCorners(start: Point, end: Point, s: Segment)
    requires Straight(start, end)
    requires Ordered(s.start.x, s.end.x, start.x, end.x) && Ordered(s.start.y, s.end.y, start.y, end.y)
    requires s.points == Grid(s.start.x, s.end.x, s.start.y, s.end.y)
    ensures Joins(s, start, end)
  {
    if start.x == end.x {
      GridOneColumn(s.start.x, s.start.y, s.end.y);
    } else {
      GridOneRow(s.start.x, s.end.x, s.start.y);
    }
  }

  /**
   * NewSegment: an error for two points out of line; otherwise the segment from the smaller to
   * the larger corner with every integer point between them, in ascending order.
   */
  method NewSegment(start: Point, end: Point) returns (r: Result<Segment, SegmentError>)
    ensures r.Failure? <==> !Straight(start, end)
    ensures r.Failure? ==> r.error == NotStraightLine(start, end)
    ensures r.Success? ==> r.value.Valid() && Joins(r.value, start, end)
  {
    if start.x != end.x && start.y != end.y {
      return Failure(NotStraightLine(start, end));
    }
    var (x1, x2) := InOrder(start.x, end.x);
    var (y1, y2) := InOrder(start.y, end.y);
    var points: seq<Point> := [];

    var x := x1;
    while x <= x2
      invariant x1 <= x <= x2 + 1
      invariant points == Grid(x1, x - 1, y1, y2)
    {
      var y := y1;
      while y <= y2
        invariant y1 <= y <= y2 + 1
        invariant points == Grid(x1, x - 1, y1, y2) + Column(x, y1, y - 1)
      {
        assert Column(x, y1, y) == Column(x, y1, y - 1) + [Point(x, y)];
        points := points + [Point(x, y)];
        y := y + 1;
      }
      assert Grid(x1, x, y1, y2) == Grid(x1, x - 1, y1, y2) + Column(x, y1, y2);
      x := x + 1;
    }
    r := Success(Segment(Point(x1, y1), Point(x2, y2), points));
    JoinsCorners(start, end, r.value);
  }

  /** The point list of a segment has no repeated point. */
  lemma JoinsDistinct(s: Segment, start: Point, end: Point)
    requires Joins(s, start, end)
    ensures forall i, j :: 0 <= i < j < |s.points| ==> s.points[i] != s.points[j]
  {
  }

  /** A segment from a point to itself holds that point alone. */
  lemma JoinsSinglePoint(s: Segment, p: Point)
    requires Joins(s, p, p)
    ensures s.start == p && s.end == p && s.points == [p]
  {
  }
}
