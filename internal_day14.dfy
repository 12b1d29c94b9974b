/**
 * The earlier, stand-alone rock-path expansion: each consecutive pair of a path fills its whole
 * bounding rectangle with rock, with no check that the pair is in line.
 */
module InternalDay14 {
  import S = Segments
  import D = Day14

  type Point = S.Point

  /** The only obstacle this version knows: rock ('#'). */
  datatype Obstacle = Rock

  /** ObstacleMap: the cells holding rock. Go maps are shared, so callers see updates. */
  class ObstacleMap {
    var cells: map<Point, Obstacle>

    constructor ()
      ensures cells == map[]
    {
      cells := map[];
    }
  }

  /** The cells of rows y1..y2 in columns x1 up to but excluding xEnd, and of column xEnd up to but excluding yEnd. */
  predicate Swept(p: Point, x1: int, xEnd: int, y1: int, y2: int, yEnd: int) {
    || (x1 <= p.x < xEnd && y1 <= p.y <= y2)
    || (p.x == xEnd && y1 <= p.y < yEnd)
  }

  /** A pair of path points; unlike Segments.Segment it may be diagonal. */
  datatype Segment = Segment(start: Point, end: Point) {

    /**
     * expandToMap: every point of the closed rectangle spanned by start and end becomes rock
     * in the caller's map; every other key stays as it was.
     */
    method ExpandToMap(om: ObstacleMap)
      modifies om
      ensures forall p :: p in om.cells <==> p in old(om.cells) || D.InBox(start, end, p)
    {
      var (x1, x2) := S.InOrder(start.x, end.x);
      var (y1, y2) := S.InOrder(start.y, end.y);
      var x := x1;
      while x <= x2
        invariant x1 <= x <= x2 + 1
        invariant forall p :: p in om.cells <==> p in old(om.cells) || Swept(p, x1, x, y1, y2, y1)
      {
        var y := y1;
        while y <= y2
          invariant y1 <= y <= y2 + 1
          invariant forall p :: p in om.cells <==> p in old(om.cells) || Swept(p, x1, x, y1, y2, y)
        {
          om.cells := om.cells[S.Point(x, y) := Rock];
          y := y + 1;
        }
        x := x + 1;
      }
    }
  }

  /** zipWithNext: one segment from each point to the next. */
  method ZipWithNext(points: seq<Point>) returns (result: seq<Segment>)
    requires |points| >= 1
    ensures |result| == |points| - 1
    ensures forall i :: 0 <= i < |result| ==> result[i] == Segment(points[i], points[i + 1])
  {
    var ends := points[1..];
    var slots := new Segment[|ends|](_ => Segment(points[0], points[0]));
    for i := 0 to |ends|
      invariant forall j :: 0 <= j < i ==> slots[j] == Segment(points[j], points[j + 1])
    {
      slots[i] := Segment(points[i], ends[i]);
    }
    result := slots[..];
  }

  /**
   * ExpandPath: a fresh map holding the union of the rectangles of consecutive points; a
   * single point gives an empty map.
   */
  method ExpandPath(points: seq<Point>) returns (result: ObstacleMap)
    requires |points| >= 1
    ensures fresh(result)
    ensures forall p :: p in result.cells <==> D.OnPath(points, p)
  {
    var segments := ZipWithNext(points);
    result := new ObstacleMap();
    for i := 0 to |segments|
      invariant |segments| == |points| - 1
      invariant forall p :: p in result.cells <==> D.OnSegments(points, i, p)
    {
      segments[i].ExpandToMap(result);
      forall p
        ensures p in result.cells <==> D.OnSegments(points, i + 1, p)
      {
        D.OnSegmentsExtend(points, i, p);
      }
    }
  }

  /** A one-point path covers nothing: the lone vertex is not marked. */
  lemma SinglePointCoversNothing(v: Point, p: Point)
    ensures !D.OnPath([v], p)
  {
  }

  /** The sample path fills its five points and nothing beside them. */
  lemma SampleRectangles(cells: map<Point, Obstacle>)
    requires forall p :: p in cells <==> D.OnPath(D.SampleHigh, p)
    ensures forall p :: p in [S.Point(498, 4), S.Point(498, 5), S.Point(498, 6), S.Point(497, 6), S.Point(496, 6)] ==> p in cells
    ensures S.Point(497, 4) !in cells && S.Point(500, 5) !in cells && S.Point(498, 10) !in cells
  {
    assert D.InBox(D.SampleHigh[0], D.SampleHigh[1], S.Point(498, 5));
    assert D.InBox(D.SampleHigh[1], D.SampleHigh[2], S.Point(497, 6));
  }
}
