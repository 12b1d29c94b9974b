/**
 * Day 14, "Regolith Reservoir": rock paths drawn into a cave map, and grains of sand dropped
 * from a source until they settle, fall past the deepest rock, or block the source.
 */
module Day14 {
  import opened Wrappers
  import opened Decimal
  import opened Text
  import opened Pairs
  import opened Segments

  /* ---------------------------------------------------------------- paths and segments */

  /** p lies in the box with corners a and b (for a straight pair, on the line between them). */
  predicate InBox(a: Point, b: Point, p: Point) {
    && (a.x <= p.x <= b.x || b.x <= p.x <= a.x)
    && (a.y <= p.y <= b.y || b.y <= p.y <= a.y)
  }

  /** p lies on one of the first n segments of the path. */
  predicate OnSegments(path: seq<Point>, n: int, p: Point) {
    exists i :: 0 <= i < n && i + 1 < |path| && InBox(path[i], path[i + 1], p)
  }

  /** p lies on one of the path's segments. */
  predicate OnPath(path: seq<Point>, p: Point) {
    OnSegments(path, |path| - 1, p)
  }

  /** Every consecutive pair of the path shares a row or a column. */
  predicate AllStraight(path: seq<Point>) {
    forall i :: 0 <= i < |path| - 1 ==> Straight(path[i], path[i + 1])
  }

  /** err is the error NewSegment gives for the first consecutive pair that is out of line. */
  predicate FirstBendError(path: seq<Point>, err: SegmentError) {
    exists k :: 0 <= k < |path| - 1
      && (forall j :: 0 <= j < k ==> Straight(path[j], path[j + 1]))
      && !Straight(path[k], path[k + 1])
      && err == NotStraightLine(path[k], path[k + 1])
  }

  /** after is base with each of the points set to obstacle. */
  ghost predicate Overlaid(base: map<Point, Obstacle>, after: map<Point, Obstacle>, points: seq<Point>, obstacle: Obstacle) {
    && (forall p :: p in after <==> p in base || p in points)
    && (forall p :: p in after ==> after[p] == if p in points then obstacle else base[p])
  }

  lemma OverlaidStep(base: map<Point, Obstacle>, after: map<Point, Obstacle>, points: seq<Point>, q: Point, obstacle: Obstacle)
    requires Overlaid(base, after, points, obstacle)
    ensures Overlaid(base, after[q := obstacle], points + [q], obstacle)
  {
  }

  /** Painting one more segment of the path over its first i painted segments paints i + 1. */
  lemma PaintedExtend(before: map<Point, Obstacle>, mid: map<Point, Obstacle>, after: map<Point, Obstacle>,
                      path: seq<Point>, i: nat, points: seq<Point>, obstacle: Obstacle)
    requires i + 1 < |path|
    requires PaintedUpTo(before, mid, path, i, obstacle)
    requires forall p :: p in points <==> InBox(path[i], path[i + 1], p)
    requires Overlaid(mid, after, points, obstacle)
    ensures PaintedUpTo(before, after, path, i + 1, obstacle)
  {
    forall p
      ensures p in after <==> p in before || OnSegments(path, i + 1, p)
      ensures p in after ==> after[p] == if OnSegments(path, i + 1, p) then obstacle else before[p]
    {
      OnSegmentsExtend(path, i, p);
    }
  }

  lemma OnSegmentsExtend(path: seq<Point>, i: nat, p: Point)
    requires i + 1 < |path|
    ensures OnSegments(path, i + 1, p) <==> OnSegments(path, i, p) || InBox(path[i], path[i + 1], p)
  {
    if OnSegments(path, i + 1, p) && !InBox(path[i], path[i + 1], p) {
      var k :| 0 <= k < i + 1 && k + 1 < |path| && InBox(path[k], path[k + 1], p);
      assert k < i;
    }
  }

  /** The point list of a segment built from a and b is exactly the box they span. */
  lemma SegmentCovers(s: Segment, a: Point, b: Point)
    requires s.Valid() && Joins(s, a, b)
    ensures forall p :: p in s.points <==> InBox(a, b, p)
  {
    GridMembership(s.start.x, s.end.x, s.start.y, s.end.y);
  }

  /** The first bent pair of a path, at k, gives the path's error. */
  lemma FirstBendAt(path: seq<Point>, k: int)
    requires 0 <= k < |path| - 1 && !Straight(path[k], path[k + 1])
    requires forall j :: 0 <= j < k ==> Straight(path[j], path[j + 1])
    ensures !AllStraight(path) && FirstBendError(path, NotStraightLine(path[k], path[k + 1]))
  {
  }

  /** Each segment is one NewSegment built, joining the points of the path at its index. */
  ghost predicate SegmentsAlong(segments: seq<Segment>, path: seq<Point>) {
    && |segments| < |path|
    && forall j :: 0 <= j < |segments| ==> segments[j].Valid() && Joins(segments[j], path[j], path[j + 1])
  }

  lemma SegmentsAlongStep(segments: seq<Segment>, s: Segment, path: seq<Point>)
    requires SegmentsAlong(segments, path) && |segments| + 1 < |path|
    requires s.Valid() && Joins(s, path[|segments|], path[|segments| + 1])
    ensures SegmentsAlong(segments + [s], path)
  {
  }

  /**
   * Path.ToSegments: one segment per consecutive pair of points, or the error for the first
   * pair that is out of line.
   */
  method ToSegments(path: seq<Point>) returns (r: Result<seq<Segment>, SegmentError>)
    requires |path| >= 1
    ensures r.Success? <==> AllStraight(path)
    ensures r.Failure? ==> FirstBendError(path, r.error)
    ensures r.Success? ==> |r.value| == |path| - 1 && SegmentsAlong(r.value, path)
  {
    var pairs := ZipWithNext(path);
    var result := new Segment[|pairs|];
    for i := 0 to |pairs|
      invariant forall j :: 0 <= j < i ==> Straight(path[j], path[j + 1])
      invariant SegmentsAlong(result[..i], path)
    {
      var segment := NewSegment(pairs[i].first, pairs[i].second);
      if segment.Failure? {
        FirstBendAt(path, i);
        return Failure(segment.error);
      }
      ghost var done := result[..i];
      result[i] := segment.value;
      SegmentsAlongStep(done, segment.value, path);
      assert result[..i + 1] == done + [segment.value];
    }
    assert result[..] == result[..|pairs|];
    return Success(result[..]);
  }

  /* ---------------------------------------------------------------- the obstacle map */

  /** What occupies a cell: a settled grain ('o') or rock ('#'). */
  datatype Obstacle = Sand | Rock

  /**
   * after is before with every point of the first n segments of the path set to obstacle, and
   * nothing else added or changed.
   */
  ghost predicate PaintedUpTo(before: map<Point, Obstacle>, after: map<Point, Obstacle>, path: seq<Point>, n: int, obstacle: Obstacle) {
    && (forall p :: p in after <==> p in before || OnSegments(path, n, p))
    && (forall p :: p in after ==> after[p] == if OnSegments(path, n, p) then obstacle else before[p])
  }

  /** after is before with every point of the path's segments set to obstacle. */
  ghost predicate Painted(before: map<Point, Obstacle>, after: map<Point, Obstacle>, path: seq<Point>, obstacle: Obstacle) {
    PaintedUpTo(before, after, path, |path| - 1, obstacle)
  }

  /** ObstacleMap: the cells of the cave that hold something. */
  class ObstacleMap {
    var cells: map<Point, Obstacle>

    constructor ()
      ensures cells == map[]
    {
      cells := map[];
    }

    /** Sets every point of one segment to obstacle, one after another. */
    method PlotPoints(points: array<Point>, obstacle: Obstacle)
      modifies this
      ensures Overlaid(old(cells), cells, points[..], obstacle)
    {
      ghost var base := cells;
      for j := 0 to points.Length
        invariant Overlaid(base, cells, points[..j], obstacle)
      {
        OverlaidStep(base, cells, points[..j], points[j], obstacle);
        cells := cells[points[j] := obstacle];
        assert points[..j + 1] == points[..j] + [points[j]];
      }
      assert points[..points.Length] == points[..];
    }

    /**
     * PlotObstaclePath: either the error for the first pair that is out of line, with the map
     * untouched, or every point of every segment of the path set to obstacle.
     */
    method PlotObstaclePath(path: seq<Point>, obstacle: Obstacle) returns (err: Option<SegmentError>)
      requires |path| >= 1
      modifies this
      ensures err.Some? <==> !AllStraight(path)
      ensures err.Some? ==> FirstBendError(path, err.value) && cells == old(cells)
      ensures err.None? ==> Painted(old(cells), cells, path, obstacle)
    {
      var segments := ToSegments(path);
      if segments.Failure? {
        return Some(segments.error);
      }
      var segs := segments.value;
      for i := 0 to |segs|
        invariant |segs| == |path| - 1
        invariant PaintedUpTo(old(cells), cells, path, i, obstacle)
      {
        var points := segs[i].Points();
        ghost var base := cells;
        SegmentCovers(segs[i], path[i], path[i + 1]);
        PlotPoints(points, obstacle);
        PaintedExtend(old(cells), base, cells, path, i, points[..], obstacle);
      }
      return None;
    }
  }

  /* ---------------------------------------------------------------- falling sand */

  /** The three cells a grain at sand may move to, in the order it tries them. */
  function Below(sand: Point): seq<Point> {
    [Point(sand.x, sand.y + 1), Point(sand.x - 1, sand.y + 1), Point(sand.x + 1, sand.y + 1)]
  }

  /** The first of the candidates that is not occupied, if any. */
  function FirstFree(cells: map<Point, Obstacle>, candidates: seq<Point>): (r: Option<Point>)
    ensures r.None? <==> forall j :: 0 <= j < |candidates| ==> candidates[j] in cells
    ensures r.Some? ==> r.value !in cells
    ensures r.Some? ==>
              exists k :: 0 <= k < |candidates| && candidates[k] == r.value && (forall j :: 0 <= j < k ==> candidates[j] in cells)
  {
    if candidates == [] then None
    else if candidates[0] !in cells then Some(candidates[0])
    else
      var r := FirstFree(cells, candidates[1..]);
      assert forall j :: 1 <= j < |candidates| ==> candidates[j] == candidates[1..][j - 1];
      r
  }

  /** p lies in the cone a grain can reach from apex: one column sideways per row down at most. */
  predicate InFallCone(apex: Point, p: Point) {
    apex.y <= p.y && apex.x - (p.y - apex.y) <= p.x <= apex.x + (p.y - apex.y)
  }

  /**
   * Where a grain at sand comes to rest in the cells, or None when it passes below the
   * deepest rock row.
   */
  function Settle(cells: map<Point, Obstacle>, deepest: int, sand: Point): (r: Option<Point>)
    ensures r.Some? ==> InFallCone(sand, r.value) && r.value.y <= deepest
    ensures r.Some? ==> r.value == sand || r.value !in cells
    ensures r.Some? ==> FirstFree(cells, Below(r.value)).None?
    decreases deepest + 1 - sand.y
  {
    if sand.y > deepest then None
    else match FirstFree(cells, Below(sand))
      case None => Some(sand)
      case Some(next) => Settle(cells, deepest, next)
  }

  /** Every cell of row `floor` that lies in apex's fall cone is occupied. */
  ghost predicate FloorUnder(cells: map<Point, Obstacle>, floor: int, apex: Point) {
    forall x :: apex.x - (floor - apex.y) <= x <= apex.x + (floor - apex.y) ==> Point(x, floor) in cells
  }

  /** With a full floor under the fall cone, every free grain in the cone comes to rest. */
  lemma {:induction false} FloorCatches(cells: map<Point, Obstacle>, floor: int, apex: Point, sand: Point)
    requires FloorUnder(cells, floor, apex)
    requires InFallCone(apex, sand) && sand.y <= floor && sand !in cells
    ensures Settle(cells, floor, sand).Some?
    decreases floor - sand.y
  {
    match FirstFree(cells, Below(sand))
    case None =>
    case Some(next) =>
      FloorCatches(cells, floor, apex, next);
  }

  /** The finite set of cells at or above floor in apex's fall cone. */
  ghost function FallCone(apex: Point, floor: int): (cone: set<Point>)
    ensures forall p :: p in cone <==> InFallCone(apex, p) && p.y <= floor
  {
    set x: int, y: int | apex.y <= y <= floor && apex.x - (y - apex.y) <= x <= apex.x + (y - apex.y) :: Point(x, y)
  }

  /** The larger of deepest and every point's row. */
  predicate DeepestRow(r: int, deepest: int, path: seq<Point>) {
    && r >= deepest
    && (forall i :: 0 <= i < |path| ==> path[i].y <= r)
    && (r == deepest || exists i :: 0 <= i < |path| && path[i].y == r)
  }

  /** findDeepest: the deepest row of the path, or deepest when that is lower still. */
  method FindDeepest(path: seq<Point>, deepest: int) returns (r: int)
    ensures DeepestRow(r, deepest, path)
  {
    r := deepest;
    for i := 0 to |path|
      invariant DeepestRow(r, deepest, path[..i])
    {
      if path[i].y > r {
        r := path[i].y;
      }
    }
    assert path[..|path|] == path;
  }

  /** A grain settling in a new cell of the cone grows the map by one and takes one more cell of the cone. */
  lemma TakesConeCell(cells: map<Point, Obstacle>, rest: Point, cone: set<Point>)
    requires rest !in cells && rest in cone
    ensures |cells[rest := Sand]| == |cells| + 1
    ensures |cone - cells[rest := Sand].Keys| < |cone - cells.Keys|
  {
    RemoveOne(cone, cells.Keys, rest);
    assert cells[rest := Sand].Keys == cells.Keys + {rest};
  }

  /** A map that keeps every key of another grows by the keys it adds. */
  lemma KeysAdded(before: map<Point, Obstacle>, after: map<Point, Obstacle>)
    requires before.Keys <= after.Keys
    ensures |after.Keys - before.Keys| == |after| - |before|
  {
    assert after.Keys == before.Keys + (after.Keys - before.Keys);
  }

  lemma RemoveOne(cone: set<Point>, keys: set<Point>, q: Point)
    requires q in cone && q !in keys
    ensures |cone - (keys + {q})| < |cone - keys|
  {
    var rest := cone - keys;
    assert cone - (keys + {q}) == rest - {q};
    assert rest == (rest - {q}) + {q};
  }

  /**
   * The resting places, in order, of the grains dropped from start until one does not settle:
   * each grain comes to rest where Settle says over the cells left by the grains before it.
   */
  ghost function Pour(cells: map<Point, Obstacle>, deepest: int, start: Point): seq<Point>
    decreases |FallCone(start, deepest) - cells.Keys|
  {
    if start in cells || Settle(cells, deepest, start).None? then []
    else
      var rest := Settle(cells, deepest, start).value;
      TakesConeCell(cells, rest, FallCone(start, deepest));
      [rest] + Pour(cells[rest := Sand], deepest, start)
  }

  /** cells with each of the grains, in order, recorded as sand. */
  ghost function Poured(cells: map<Point, Obstacle>, grains: seq<Point>): map<Point, Obstacle>
    decreases |grains|
  {
    if grains == [] then cells else Poured(cells[grains[0] := Sand], grains[1..])
  }

  /** Poured holds the cells and the grains, each grain as sand and every other cell as it was. */
  lemma {:induction false} PouredCells(cells: map<Point, Obstacle>, grains: seq<Point>)
    ensures forall p :: p in Poured(cells, grains) <==> p in cells || p in grains
    ensures forall p :: p in Poured(cells, grains) ==> Poured(cells, grains)[p] == if p in grains then Sand else cells[p]
    decreases |grains|
  {
    if grains != [] {
      PouredCells(cells[grains[0] := Sand], grains[1..]);
      assert forall p :: p in grains <==> p == grains[0] || p in grains[1..];
    }
  }

  /**
   * Grain k of a pour settles where Settle puts a grain from start over the cells and the
   * grains before it, and start was free for it.
   */
  lemma {:induction false} PourSettlesEach(cells: map<Point, Obstacle>, deepest: int, start: Point, k: nat)
    requires k < |Pour(cells, deepest, start)|
    ensures start !in Poured(cells, Pour(cells, deepest, start)[..k])
    ensures Settle(Poured(cells, Pour(cells, deepest, start)[..k]), deepest, start) == Some(Pour(cells, deepest, start)[k])
    decreases |FallCone(start, deepest) - cells.Keys|
  {
    var grains := Pour(cells, deepest, start);
    assert start !in cells && Settle(cells, deepest, start).Some?;
    var rest := Settle(cells, deepest, start).value;
    var next := cells[rest := Sand];
    PourStep(cells, deepest, start);
    TakesConeCell(cells, rest, FallCone(start, deepest));
    var tail := Pour(next, deepest, start);
    assert grains == [rest] + tail;
    if k == 0 {
      assert grains[..0] == [];
    } else {
      PourSettlesEach(next, deepest, start, k - 1);
      PrefixOfCons(rest, tail, k);
      PouredCons(cells, rest, tail[..k - 1]);
      assert grains[k] == tail[k - 1];
    }
  }

  lemma PouredCons(cells: map<Point, Obstacle>, grain: Point, grains: seq<Point>)
    ensures Poured(cells, [grain] + grains) == Poured(cells[grain := Sand], grains)
  {
    assert ([grain] + grains)[1..] == grains;
  }

  lemma PrefixOfCons<T>(a: T, t: seq<T>, k: nat)
    requires 0 < k <= |t| + 1
    ensures ([a] + t)[..k] == [a] + t[..k - 1]
  {
  }

  /** Every grain of a pour rests in a cell that was free, inside start's fall cone. */
  lemma {:induction false} PourFresh(cells: map<Point, Obstacle>, deepest: int, start: Point)
    ensures forall p :: p in Pour(cells, deepest, start) ==> p !in cells && InFallCone(start, p)
    decreases |FallCone(start, deepest) - cells.Keys|
  {
    if start !in cells && Settle(cells, deepest, start).Some? {
      var rest := Settle(cells, deepest, start).value;
      PourStep(cells, deepest, start);
      TakesConeCell(cells, rest, FallCone(start, deepest));
      var tail := Pour(cells[rest := Sand], deepest, start);
      PourFresh(cells[rest := Sand], deepest, start);
      assert forall p :: p in tail ==> p !in cells;
      assert forall p :: p in [rest] + tail <==> p == rest || p in tail;
    }
  }

  /** A pour ends with start blocked or with a grain from start falling through. */
  lemma {:induction false} PourEnds(cells: map<Point, Obstacle>, deepest: int, start: Point)
    ensures var after := Poured(cells, Pour(cells, deepest, start));
      start in after || Settle(after, deepest, start).None?
    decreases |FallCone(start, deepest) - cells.Keys|
  {
    if start in cells || Settle(cells, deepest, start).None? {
      assert Pour(cells, deepest, start) == [];
    } else {
      var rest := Settle(cells, deepest, start).value;
      PourStep(cells, deepest, start);
      TakesConeCell(cells, rest, FallCone(start, deepest));
      PourEnds(cells[rest := Sand], deepest, start);
    }
  }

  /** A settled grain is the first of the pour, and the rest of the pour starts from its cells. */
  lemma PourStep(cells: map<Point, Obstacle>, deepest: int, start: Point)
    requires start !in cells && Settle(cells, deepest, start).Some?
    ensures var rest := Settle(cells, deepest, start).value;
      Pour(cells, deepest, start) == [rest] + Pour(cells[rest := Sand], deepest, start)
  {
    TakesConeCell(cells, Settle(cells, deepest, start).value, FallCone(start, deepest));
  }

  /** After one settled grain the pour goes on from the new cells to the same end, one grain shorter. */
  lemma PourAdvance(cells: map<Point, Obstacle>, deepest: int, start: Point, rest: Point)
    requires start !in cells && Settle(cells, deepest, start) == Some(rest)
    ensures Poured(cells[rest := Sand], Pour(cells[rest := Sand], deepest, start)) == Poured(cells, Pour(cells, deepest, start))
    ensures |Pour(cells, deepest, start)| == 1 + |Pour(cells[rest := Sand], deepest, start)|
  {
    PourStep(cells, deepest, start);
    PouredCons(cells, rest, Pour(cells[rest := Sand], deepest, start));
  }

  /** In an empty cave with rock no deeper than row 0, the first grain from the source falls through. */
  lemma EmptyCavePoursNothing()
    ensures Pour(map[], 0, Point(500, 0)) == []
  {
    assert FirstFree(map[], Below(Point(500, 0))) == Some(Point(500, 1));
  }

  /** The cave: its obstacle map and the deepest row holding rock. */
  class Cave {
    const obstacles: ObstacleMap
    var deepest: int

    /** Nothing lies below the deepest row. */
    ghost predicate Valid()
      reads this, obstacles
    {
      forall p :: p in obstacles.cells ==> p.y <= deepest
    }

    /** NewCave: an empty map with the deepest row at 0. */
    constructor ()
      ensures Valid() && fresh(obstacles)
      ensures obstacles.cells == map[] && deepest == 0
    {
      obstacles := new ObstacleMap();
      deepest := 0;
    }

    /** ObstacleAt (and isBlocked): the cell holds rock or sand, and in a
      * valid cave nothing below the deepest row does. */
    predicate ObstacleAt(point: Point): (r: bool)
      reads this, obstacles
      ensures r <==> point in obstacles.cells
      ensures Valid() && point.y > deepest ==> !r
    {
      point in obstacles.cells
    }

    /**
     * DropSandFrom: a grain from a free start settles where Settle says and is recorded as
     * sand; from a blocked start, or when it falls past the deepest row, nothing changes and
     * start comes back.
     */
    method DropSandFrom(start: Point) returns (rest: Point, settled: bool)
      requires Valid()
      modifies obstacles
      ensures Valid()
      ensures settled <==> start !in old(obstacles.cells) && Settle(old(obstacles.cells), deepest, start).Some?
      ensures settled ==> rest == Settle(old(obstacles.cells), deepest, start).value
      ensures settled ==> rest !in old(obstacles.cells) && obstacles.cells == old(obstacles.cells)[rest := Sand]
      ensures !settled ==> rest == start && obstacles.cells == old(obstacles.cells)
    {
      var sand := start;
      if ObstacleAt(sand) {
        return sand, false;
      }
      ghost var cells := obstacles.cells;

      label grains:
      while sand.y <= deepest
        invariant obstacles.cells == cells
        invariant sand == start || sand !in cells
        invariant Settle(cells, deepest, sand) == Settle(cells, deepest, start)
        decreases deepest + 1 - sand.y
      {
        ghost var from := sand;
        var candidates := [sand.x, sand.x - 1, sand.x + 1];
        for k := 0 to 3
          invariant sand == from
          invariant forall j :: 0 <= j < k ==> Below(sand)[j] in cells
        {
          var below := Point(candidates[k], sand.y + 1);
          assert below == Below(sand)[k];
          if !ObstacleAt(below) {
            sand := below;
            continue grains;
          }
        }
        // no cell below is free: the grain settles here
        obstacles.cells := obstacles.cells[sand := Sand];
        return sand, true;
      }
      // the grain passed below the deepest rock
      return start, false;
    }

    /**
     * FillWithSandFrom: drops grains until one does not settle, and returns how many cells
     * were filled: the grains of Pour, each recorded as sand. Every new cell is sand inside
     * start's fall cone, old cells keep their contents, and at the end start is blocked or a
     * grain from it falls through.
     */
    method FillWithSandFrom(start: Point) returns (count: int)
      requires Valid()
      modifies obstacles
      ensures Valid()
      ensures forall p :: p in old(obstacles.cells) ==> p in obstacles.cells && obstacles.cells[p] == old(obstacles.cells)[p]
      ensures forall p :: p in obstacles.cells && p !in old(obstacles.cells) ==>
        obstacles.cells[p] == Sand && InFallCone(start, p)
      ensures count == |obstacles.cells.Keys - old(obstacles.cells).Keys|
      ensures start in obstacles.cells || Settle(obstacles.cells, deepest, start).None?
      ensures obstacles.cells == Poured(old(obstacles.cells), Pour(old(obstacles.cells), deepest, start))
      ensures count == |Pour(old(obstacles.cells), deepest, start)|
    {
      var before := |obstacles.cells|;
      ghost var cone := FallCone(start, deepest);
      ghost var filled := Poured(obstacles.cells, Pour(obstacles.cells, deepest, start));
      ghost var grains := |Pour(obstacles.cells, deepest, start)|;
      var settled := true;
      while settled
        invariant Valid()
        invariant !settled ==> start in obstacles.cells || Settle(obstacles.cells, deepest, start).None?
        invariant Poured(obstacles.cells, Pour(obstacles.cells, deepest, start)) == filled
        invariant grains == |obstacles.cells| - before + |Pour(obstacles.cells, deepest, start)|
        decreases |cone - obstacles.cells.Keys| + (if settled then 1 else 0)
      {
        ghost var cells := obstacles.cells;
        var rest;
        rest, settled := DropSandFrom(start);
        if settled {
          TakesConeCell(cells, rest, cone);
          PourAdvance(cells, deepest, start, rest);
          assert obstacles.cells == cells[rest := Sand];
        } else {
          assert obstacles.cells == cells;
        }
      }
      assert Pour(obstacles.cells, deepest, start) == [];
      PouredCells(old(obstacles.cells), Pour(old(obstacles.cells), deepest, start));
      PourFresh(old(obstacles.cells), deepest, start);
      KeysAdded(old(obstacles.cells), obstacles.cells);
      var after := |obstacles.cells|;
      count := after - before;
    }

    /**
     * ExpandPath: draws the path in rock and lowers the deepest row to the path's deepest
     * point; on a bent pair, the error and no change.
     */
    method ExpandPath(path: seq<Point>) returns (err: Option<SegmentError>)
      requires Valid() && |path| >= 1
      modifies this, obstacles
      ensures Valid()
      ensures err.Some? <==> !AllStraight(path)
      ensures err.Some? ==> FirstBendError(path, err.value)
      ensures err.Some? ==> obstacles.cells == old(obstacles.cells) && deepest == old(deepest)
      ensures err.None? ==> Painted(old(obstacles.cells), obstacles.cells, path, Rock)
      ensures err.None? ==> DeepestRow(deepest, old(deepest), path)
    {
      err := obstacles.PlotObstaclePath(path, Rock);
      if err.Some? {
        return err;
      }
      deepest := FindDeepest(path, deepest);
      forall p | p in obstacles.cells
        ensures p.y <= deepest
      {
        if OnPath(path, p) {
          var i :| 0 <= i < |path| - 1 && InBox(path[i], path[i + 1], p);
          assert path[i].y <= deepest && path[i + 1].y <= deepest;
        }
      }
      return None;
    }

    /**
     * BaselineAround: the ends of a floor two rows below the deepest rock, centred on start
     * and wide enough to catch every grain from a start at row -1 or lower down.
     */
    function BaselineAround(start: Point): (ends: (Point, Point))
      reads this
      ensures ends.0.y == deepest + 2 && ends.1.y == deepest + 2
      ensures start.x - ends.0.x == ends.1.x - start.x
      ensures start.y >= -1 ==>
        ends.0.x <= start.x - (deepest + 2 - start.y) && start.x + (deepest + 2 - start.y) <= ends.1.x
    {
      var depth := deepest + 2;
      (Point(start.x - depth - 1, depth), Point(start.x + depth + 1, depth))
    }

    /**
     * AddBaselineAround: adds the floor as rock, which moves the deepest row to the floor;
     * afterwards every grain from centre is caught.
     */
    method AddBaselineAround(centre: Point) returns (err: Option<SegmentError>)
      requires Valid()
      modifies this, obstacles
      ensures Valid()
      ensures err.None? && deepest == old(deepest) + 2
      ensures Painted(old(obstacles.cells), obstacles.cells, [old(BaselineAround(centre)).0, old(BaselineAround(centre)).1], Rock)
      ensures centre.y >= -1 ==> FloorUnder(obstacles.cells, deepest, centre)
    {
      var (left, right) := BaselineAround(centre);
      ghost var floor := deepest + 2;
      err := ExpandPath([left, right]);
      if err.Some? {
        return err;
      }
      assert [left, right][1].y == floor;
      if centre.y >= -1 {
        forall x | centre.x - (floor - centre.y) <= x <= centre.x + (floor - centre.y)
          ensures Point(x, floor) in obstacles.cells
        {
          assert InBox([left, right][0], [left, right][1], Point(x, floor));
        }
      }
      return None;
    }
  }

  /**
   * With a floor under the fall cone, a grain from start either is blocked at start or comes
   * to rest: together with FillWithSandFrom's last postcondition, a fill after
   * AddBaselineAround ends only when the source itself is covered.
   */
  lemma FloorStopsFill(cells: map<Point, Obstacle>, floor: int, start: Point)
    requires FloorUnder(cells, floor, start) && start.y <= floor
    ensures start in cells || Settle(cells, floor, start).Some?
  {
    if start !in cells {
      FloorCatches(cells, floor, start, start);
    }
  }

  /* ---------------------------------------------------------------- building a cave */

  /** Where the sand comes from. */
  const StartPoint := Point(500, 0)

  /** p is on a segment of one of the first n paths. */
  predicate OnAnyPath(paths: seq<seq<Point>>, n: int, p: Point) {
    exists i :: 0 <= i < n && i < |paths| && OnPath(paths[i], p)
  }

  /** r is the deepest row of the first n paths, or 0 when they all lie higher. */
  predicate DeepestOfPaths(r: int, paths: seq<seq<Point>>, n: int) {
    && r >= 0
    && (forall i, j :: 0 <= i < n && i < |paths| && 0 <= j < |paths[i]| ==> paths[i][j].y <= r)
    && (r == 0 || exists i, j :: 0 <= i < n && i < |paths| && 0 <= j < |paths[i]| && paths[i][j].y == r)
  }

  /** err is the first bend error of the first path that is not straight. */
  predicate FirstPathError(paths: seq<seq<Point>>, err: SegmentError) {
    exists k :: 0 <= k < |paths| && (forall j :: 0 <= j < k ==> AllStraight(paths[j])) && FirstBendError(paths[k], err)
  }

  lemma FirstPathErrorAt(paths: seq<seq<Point>>, k: int, err: SegmentError)
    requires 0 <= k < |paths| && FirstBendError(paths[k], err)
    requires forall j :: 0 <= j < k ==> AllStraight(paths[j])
    ensures FirstPathError(paths, err)
    ensures !forall i :: 0 <= i < |paths| ==> AllStraight(paths[i])
  {
    var b :| 0 <= b < |paths[k]| - 1 && !Straight(paths[k][b], paths[k][b + 1]);
    assert !AllStraight(paths[k]);
  }

  /**
   * NewCaveFromPaths: a cave holding every path in rock, with the deepest row the deepest
   * point of any path (0 at least); or the error of the first bent pair of the first bad path,
   * with an empty cave.
   */
  method NewCaveFromPaths(paths: seq<seq<Point>>) returns (cave: Cave, err: Option<SegmentError>)
    requires forall i :: 0 <= i < |paths| ==> |paths[i]| >= 1
    ensures fresh(cave) && fresh(cave.obstacles) && cave.Valid()
    ensures err.None? <==> forall i :: 0 <= i < |paths| ==> AllStraight(paths[i])
    ensures err.Some? ==> FirstPathError(paths, err.value)
    ensures err.Some? ==> cave.obstacles.cells == map[] && cave.deepest == 0
    ensures err.None? ==> HoldsPaths(cave.obstacles.cells, paths, |paths|)
    ensures err.None? ==> DeepestOfPaths(cave.deepest, paths, |paths|)
  {
    var result := new Cave();
    for i := 0 to |paths|
      invariant fresh(result) && fresh(result.obstacles) && result.Valid()
      invariant forall j :: 0 <= j < i ==> AllStraight(paths[j])
      invariant HoldsPaths(result.obstacles.cells, paths, i)
      invariant DeepestOfPaths(result.deepest, paths, i)
    {
      ghost var cells := result.obstacles.cells;
      ghost var deepest := result.deepest;
      var e := result.ExpandPath(paths[i]);
      if e.Some? {
        FirstPathErrorAt(paths, i, e.value);
        cave := new Cave();
        return cave, e;
      }
      assert forall j :: 0 <= j < i + 1 ==> AllStraight(paths[j]) by {
        assert AllStraight(paths[i]);
      }
      HoldsPathsExtend(cells, result.obstacles.cells, paths, i);
      DeepestOfPathsExtend(deepest, result.deepest, paths, i);
    }
    return result, None;
  }

  /** cells holds exactly the rock of the first n paths. */
  ghost predicate HoldsPaths(cells: map<Point, Obstacle>, paths: seq<seq<Point>>, n: int) {
    && (forall p :: p in cells <==> OnAnyPath(paths, n, p))
    && (forall p :: p in cells ==> cells[p] == Rock)
  }

  lemma HoldsPathsExtend(before: map<Point, Obstacle>, after: map<Point, Obstacle>, paths: seq<seq<Point>>, i: nat)
    requires i < |paths| && HoldsPaths(before, paths, i) && Painted(before, after, paths[i], Rock)
    ensures HoldsPaths(after, paths, i + 1)
  {
    forall p
      ensures p in after <==> OnAnyPath(paths, i + 1, p)
    {
      OnAnyPathExtend(paths, i, p);
    }
  }

  lemma OnAnyPathExtend(paths: seq<seq<Point>>, i: nat, p: Point)
    requires i < |paths|
    ensures OnAnyPath(paths, i + 1, p) <==> OnAnyPath(paths, i, p) || OnPath(paths[i], p)
  {
    if OnAnyPath(paths, i + 1, p) && !OnPath(paths[i], p) {
      var k :| 0 <= k < i + 1 && k < |paths| && OnPath(paths[k], p);
      assert k < i;
    }
  }

  lemma DeepestOfPathsExtend(d: int, r: int, paths: seq<seq<Point>>, i: nat)
    requires i < |paths|
    requires DeepestOfPaths(d, paths, i) && DeepestRow(r, d, paths[i])
    ensures DeepestOfPaths(r, paths, i + 1)
  {
    if r != 0 && r != d {
      var j :| 0 <= j < |paths[i]| && paths[i][j].y == r;
      assert 0 <= i < i + 1 && i < |paths| && 0 <= j < |paths[i]| && paths[i][j].y == r;
    } else if r != 0 {
      var i', j :| 0 <= i' < i && i' < |paths| && 0 <= j < |paths[i']| && paths[i'][j].y == r;
      assert 0 <= i' < i + 1 && i' < |paths| && 0 <= j < |paths[i']| && paths[i'][j].y == r;
    }
  }

  /* ---------------------------------------------------------------- parsing */

  /** The separator between the coordinates of a path. */
  const Arrow := " -> "

  /** A coordinate "x,y" whose two halves strconv.Atoi accepts: toInt panics on anything else. */
  predicate IsCoordText(token: string) {
    var (x, y, _) := Cut(token, ',');
    IsIntText(x) && IsIntText(y)
  }

  /** A line whose every " -> "-separated piece is a coordinate. */
  predicate IsPathText(line: string) {
    forall t :: t in Split(line, Arrow) ==> IsCoordText(t)
  }

  /** The point a coordinate token denotes. */
  function CoordOf(token: string): Point
    requires IsCoordText(token)
  {
    var (x, y, _) := Cut(token, ',');
    Point(Atoi(x), Atoi(y))
  }

  /** path holds one point per " -> "-separated piece of line, in order. */
  predicate Parses(line: string, path: seq<Point>)
    requires IsPathText(line)
  {
    var coords := Split(line, Arrow);
    |path| == |coords| && forall i :: 0 <= i < |path| ==> path[i] == CoordOf(coords[i])
  }

  /** ParsePath: the points of a path line. */
  method ParsePath(input: string) returns (path: seq<Point>)
    requires IsPathText(input)
    ensures Parses(input, path) && |path| >= 1
  {
    var coords := Split(input, Arrow);
    var result := new Point[|coords|];
    for i := 0 to |coords|
      invariant forall j :: 0 <= j < i ==> result[j] == CoordOf(coords[j])
    {
      assert coords[i] in coords;
      var (x, y, _) := Cut(coords[i], ',');
      result[i] := Point(Atoi(x), Atoi(y));
    }
    path := result[..];
  }

  /** ParsePaths: the paths of the lines, one per line. */
  method ParsePaths(input: seq<string>) returns (paths: seq<seq<Point>>)
    requires forall i :: 0 <= i < |input| ==> IsPathText(input[i])
    ensures |paths| == |input|
    ensures forall i :: 0 <= i < |input| ==> Parses(input[i], paths[i]) && |paths[i]| >= 1
  {
    var result := new seq<Point>[|input|];
    for i := 0 to |input|
      invariant forall j :: 0 <= j < i ==> Parses(input[j], result[j]) && |result[j]| >= 1
    {
      result[i] := ParsePath(input[i]);
    }
    paths := result[..];
  }

  /** NewCaveFromStrings: parses the lines, then builds the cave from the paths. */
  method NewCaveFromStrings(lines: seq<string>) returns (cave: Cave, err: Option<SegmentError>, ghost paths: seq<seq<Point>>)
    requires forall i :: 0 <= i < |lines| ==> IsPathText(lines[i])
    ensures |paths| == |lines| && forall i :: 0 <= i < |lines| ==> Parses(lines[i], paths[i])
    ensures fresh(cave) && fresh(cave.obstacles) && cave.Valid()
    ensures err.None? <==> forall i :: 0 <= i < |paths| ==> AllStraight(paths[i])
    ensures err.Some? ==> FirstPathError(paths, err.value)
    ensures err.Some? ==> cave.obstacles.cells == map[] && cave.deepest == 0
    ensures err.None? ==> HoldsPaths(cave.obstacles.cells, paths, |paths|)
    ensures err.None? ==> DeepestOfPaths(cave.deepest, paths, |paths|)
  {
    var parsed := ParsePaths(lines);
    paths := parsed;
    cave, err := NewCaveFromPaths(parsed);
  }

  /** The text of a coordinate, as the puzzle input writes it. */
  function FormatCoord(p: Point): string {
    IntText(p.x) + "," + IntText(p.y)
  }

  /** The text of a path, as the puzzle input writes it. */
  function FormatPath(path: seq<Point>): string
    requires |path| >= 1
  {
    Join(seq(|path|, i requires 0 <= i < |path| => FormatCoord(path[i])), Arrow)
  }

  lemma CoordRoundTrip(p: Point)
    ensures IsCoordText(FormatCoord(p)) && CoordOf(FormatCoord(p)) == p
  {
    AtoiIntText(p.x);
    AtoiIntText(p.y);
    assert ',' !in IntText(p.x);
    assert FormatCoord(p) == IntText(p.x) + [','] + IntText(p.y);
    CutAt(IntText(p.x), ',', IntText(p.y));
  }

  /** Parsing the text of a path gives the path back. */
  lemma {:induction false} PathRoundTrip(path: seq<Point>)
    requires |path| >= 1
    ensures IsPathText(FormatPath(path)) && Parses(FormatPath(path), path)
  {
    var coords := seq(|path|, i requires 0 <= i < |path| => FormatCoord(path[i]));
    forall i | 0 <= i < |coords|
      ensures Arrow[0] !in coords[i]
      ensures IsCoordText(coords[i]) && CoordOf(coords[i]) == path[i]
    {
      CoordRoundTrip(path[i]);
      assert ' ' !in IntText(path[i].x) && ' ' !in IntText(path[i].y);
      assert coords[i] == IntText(path[i].x) + [','] + IntText(path[i].y);
    }
    SplitJoin(coords, Arrow);
  }

  /* ---------------------------------------------------------------- the sample cave */

  const SampleHigh := [Point(498, 4), Point(498, 6), Point(496, 6)]
  const SampleLow := [Point(503, 4), Point(502, 4), Point(502, 9), Point(494, 9)]

  /** Drawing the first sample path fills its five points and nothing beside them. */
  lemma SampleRockPath(after: map<Point, Obstacle>)
    requires Painted(map[], after, SampleHigh, Rock)
    ensures forall p :: p in [Point(498, 4), Point(498, 5), Point(498, 6), Point(497, 6), Point(496, 6)] ==> p in after
    ensures Point(497, 4) !in after && Point(500, 5) !in after && Point(498, 10) !in after
  {
    assert InBox(SampleHigh[0], SampleHigh[1], Point(498, 5));
    assert InBox(SampleHigh[1], SampleHigh[2], Point(497, 6));
  }

  lemma SampleColumnFree(y: int)
    requires y <= 8
    ensures !OnPath(SampleHigh, Point(500, y)) && !OnPath(SampleLow, Point(500, y))
  {
    forall i | 0 <= i < |SampleLow| - 1
      ensures !InBox(SampleLow[i], SampleLow[i + 1], Point(500, y))
    {
    }
  }

  lemma {:induction false} SampleFallsStraight(cells: map<Point, Obstacle>, y: int)
    requires forall k :: 1 <= k <= 8 ==> Point(500, k) !in cells
    requires 0 <= y <= 8
    ensures Settle(cells, 9, Point(500, y)) == Settle(cells, 9, Point(500, 8))
    decreases 8 - y
  {
    if y < 8 {
      assert FirstFree(cells, Below(Point(500, y))) == Some(Point(500, y + 1));
      SampleFallsStraight(cells, y + 1);
    }
  }

  /** In the sample cave the first grain from the source comes to rest at (500, 8). */
  lemma SampleFirstGrain(cells: map<Point, Obstacle>)
    requires forall p :: p in cells <==> OnPath(SampleHigh, p) || OnPath(SampleLow, p)
    ensures Settle(cells, 9, StartPoint) == Some(Point(500, 8))
  {
    forall k | 1 <= k <= 8
      ensures Point(500, k) !in cells
    {
      SampleColumnFree(k);
    }
    SampleFallsStraight(cells, 0);
    SampleRestsOnRock(cells);
  }

  /** The three cells below (500, 8) lie on the sample's second path, so a grain there rests. */
  lemma SampleRestsOnRock(cells: map<Point, Obstacle>)
    requires forall p :: OnPath(SampleLow, p) ==> p in cells
    ensures Settle(cells, 9, Point(500, 8)) == Some(Point(500, 8))
  {
    var floor := Below(Point(500, 8));
    assert InBox(SampleLow[2], SampleLow[3], floor[0]);
    assert InBox(SampleLow[2], SampleLow[3], floor[1]);
    assert InBox(SampleLow[2], SampleLow[3], floor[2]);
    assert FirstFree(cells, floor) == None;
  }

  /** Below the sample cave's deepest rock, row 9, the floor lies on row 11 from x = 488 to 512. */
  lemma SampleBaseline(cave: Cave)
    requires cave.deepest == 9
    ensures cave.BaselineAround(StartPoint) == (Point(488, 11), Point(512, 11))
  {
  }

  /** The sample cave's deepest rock is row 9. */
  lemma SampleDeepest(r: int)
    requires DeepestOfPaths(r, [SampleHigh, SampleLow], 2)
    ensures r == 9
  {
    assert [SampleHigh, SampleLow][1][2].y == 9;
  }
}
