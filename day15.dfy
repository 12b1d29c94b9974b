/**
 * Day 15, "Beacon Exclusion Zone": sensors that each know their closest beacon, the spans of a
 * row they rule out, the length those spans cover together, and the first row with a gap.
 */
module Day15 {
  import opened Wrappers
  import opened Decimal
  import opened Sorting
  import opened Scan

  /* ---------------------------------------------------------------- geometry */

  /** absDiff: the distance between two integers. */
  function AbsDiff(a: int, b: int): (r: int)
    ensures r >= 0 && (r == a - b || r == b - a)
  {
    if a < b then b - a else a - b
  }

  datatype Point = Point(x: int, y: int) {

    /** ManhattanDist: the taxicab distance to other. */
    function ManhattanDist(other: Point): (d: int)
      ensures d >= 0
      ensures d == 0 <==> this == other
    {
      AbsDiff(x, other.x) + AbsDiff(y, other.y)
    }
  }

  lemma ManhattanDistSymmetric(p: Point, q: Point)
    ensures p.ManhattanDist(q) == q.ManhattanDist(p)
  {
  }

  /** The closed range of x positions Start..End on one row. */
  datatype Span = Span(start: int, end: int)

  /** A sensor and the closest beacon it detects. */
  datatype Reading = Reading(sensor: Point, beacon: Point) {

    /** Radius: how far the sensor sees; no beacon is nearer than this one. */
    function Radius(): (r: int)
      ensures r >= 0
      ensures r == 0 <==> sensor == beacon
    {
      sensor.ManhattanDist(beacon)
    }

    /**
     * SpanOnRow: the positions of the row within the sensor's radius, centred on the sensor's
     * column; None when the row is out of reach.
     */
    function SpanOnRow(row: int): (r: Option<Span>)
      ensures r.Some? <==> AbsDiff(sensor.y, row) <= Radius()
      ensures r.Some? ==> r.value.start <= sensor.x <= r.value.end
      ensures r.Some? ==> sensor.x - r.value.start == r.value.end - sensor.x
    {
      var yDist := AbsDiff(sensor.y, row);
      var xDist := Radius() - yDist;
      if xDist >= 0 then Some(Span(sensor.x - xDist, sensor.x + xDist)) else None
    }
  }

  /** A position of the row is within the sensor's radius exactly when the row's span holds it. */
  lemma SpanOnRowExact(r: Reading, row: int, x: int)
    ensures r.sensor.ManhattanDist(Point(x, row)) <= r.Radius() <==>
      r.SpanOnRow(row).Some? && r.SpanOnRow(row).value.start <= x <= r.SpanOnRow(row).value.end
  {
  }

  /** TuningFrequency: x scaled by four million plus y, which gives both back for 0 <= y < 4000000. */
  function TuningFrequency(point: Point): (f: int)
    ensures 0 <= point.y < 4000000 ==> f / 4000000 == point.x && f % 4000000 == point.y
  {
    4000000 * point.x + point.y
  }

  lemma SampleRadius()
    ensures Reading(Point(2, 18), Point(-2, 15)).Radius() == 7
  {
  }

  lemma SampleSpanOnRow()
    ensures Reading(Point(8, 7), Point(2, 10)).SpanOnRow(10) == Some(Span(2, 14))
  {
  }

  lemma SampleTuningFrequency()
    ensures TuningFrequency(Point(14, 11)) == 56000011
  {
  }

  /* ---------------------------------------------------------------- parsing */

  /** The format of a sensor line: "Sensor at x=%d, y=%d: closest beacon is at x=%d, y=%d". */
  const ReadingFormat := [
    Literal("Sensor at x="), Int, Literal(", y="), Int,
    Literal(": closest beacon is at x="), Int, Literal(", y="), Int]

  lemma ReadingFormatCount()
    ensures IntCount(ReadingFormat) == 4
  {
    assert multiset(ReadingFormat)[Int] == 4;
  }

  lemma ReadingFormatSeparated()
    ensures Separated(ReadingFormat)
  {
    forall i | 0 <= i < |ReadingFormat| - 1 && ReadingFormat[i].Int?
      ensures ReadingFormat[i + 1].Literal? && |ReadingFormat[i + 1].text| > 0 && !IsDigit(ReadingFormat[i + 1].text[0])
    {
      assert i in {1, 3, 5};
    }
  }

  lemma ReadingFormatShape()
    ensures IntCount(ReadingFormat) == 4
    ensures Separated(ReadingFormat)
  {
    ReadingFormatCount();
    ReadingFormatSeparated();
  }

  /** The reading in line, read with the sensor-line format; text after the last number is ignored. */
  function ScanReading(line: string): (r: Result<Reading, ScanError>)
    ensures r.Success? <==> Sscanf(line, ReadingFormat).Success?
  {
    ReadingFormatShape();
    var v :- Sscanf(line, ReadingFormat);
    Success(Reading(Point(v[0], v[1]), Point(v[2], v[3])))
  }

  /** NewReading: the reading a sensor line describes, or the zero Reading and the error. */
  function NewReading(sensorLine: string): (r: (Reading, Option<ScanError>))
    ensures r.1.None? <==> ScanReading(sensorLine).Success?
    ensures r.1.None? ==> r.0 == ScanReading(sensorLine).value
    ensures r.1.Some? ==> r.0 == Reading(Point(0, 0), Point(0, 0))
  {
    match ScanReading(sensorLine)
    case Success(reading) => (reading, None)
    case Failure(e) => (Reading(Point(0, 0), Point(0, 0)), Some(e))
  }

  /** The line the puzzle input has for a reading. */
  function FormatReading(r: Reading): string {
    ReadingFormatShape();
    Sprintf(ReadingFormat, [r.sensor.x, r.sensor.y, r.beacon.x, r.beacon.y])
  }

  /** NewReading reads back every reading written in the input's format. */
  lemma ReadingRoundTrip(r: Reading)
    ensures NewReading(FormatReading(r)) == (r, None)
  {
    ReadingFormatShape();
    var line := FormatReading(r);
    ScanPrinted(ReadingFormat, [r.sensor.x, r.sensor.y, r.beacon.x, r.beacon.y], []);
    assert line + [] == line;
  }

  /** A line that is not a sensor line gives the zero Reading and an error. */
  lemma SampleBadLine()
    ensures NewReading("Sensor at some other place") == (Reading(Point(0, 0), Point(0, 0)), Some(InputMismatch))
  {
    var line := "Sensor at some other place";
    var opening := ReadingFormat[0].text;
    assert line[..|opening|][10] != opening[10];
    MismatchFirst(line, ReadingFormat);
  }

  /** e is the error of the first line on which read fails. */
  ghost predicate FirstError<T, E>(lines: seq<string>, read: string -> (T, Option<E>), e: E) {
    exists k ::
      && 0 <= k < |lines|
      && read(lines[k]).1 == Some(e)
      && (forall i :: 0 <= i < k ==> read(lines[i]).1.None?)
  }

  /**
   * The loop of parseReadings, for any reader of one line: the item of every line, in order;
   * or, at the first line read rejects, no items and that line's error.
   */
  method ReadEach<T, E>(lines: seq<string>, read: string -> (T, Option<E>)) returns (items: seq<T>, err: Option<E>)
    ensures err.None? <==> forall i :: 0 <= i < |lines| ==> read(lines[i]).1.None?
    ensures err.None? ==> |items| == |lines| && forall i :: 0 <= i < |lines| ==> items[i] == read(lines[i]).0
    ensures err.Some? ==> items == [] && FirstError(lines, read, err.value)
  {
    items := [];
    for i := 0 to |lines|
      invariant |items| == i
      invariant forall j :: 0 <= j < i ==> read(lines[j]).1.None? && items[j] == read(lines[j]).0
    {
      var (item, e) := read(lines[i]);
      if e.Some? {
        items, err := [], e;
        return;
      }
      items := items + [item];
    }
    err := None;
  }

  /**
   * ParseReadings: one reading per line, in order; or, at the first line that does not scan,
   * no readings and that line's error.
   */
  method ParseReadings(readingLines: seq<string>) returns (readings: seq<Reading>, err: Option<ScanError>)
    ensures err.None? <==> forall i :: 0 <= i < |readingLines| ==> NewReading(readingLines[i]).1.None?
    ensures err.None? ==> |readings| == |readingLines|
    ensures err.None? ==> forall i :: 0 <= i < |readingLines| ==> readings[i] == NewReading(readingLines[i]).0
    ensures err.Some? ==> readings == [] && FirstError(readingLines, NewReading, err.value)
  {
    readings, err := ReadEach(readingLines, NewReading);
  }

  /* ---------------------------------------------------------------- coverage of a row */

  /** Some sensor is at least as close to p as to its own beacon, so p holds no unknown beacon. */
  ghost predicate Detected(readings: seq<Reading>, p: Point) {
    exists k :: 0 <= k < |readings| && readings[k].sensor.ManhattanDist(p) <= readings[k].Radius()
  }

  /** x lies in one of the closed spans. */
  ghost predicate Covers(spans: seq<Span>, x: int) {
    exists sp :: sp in spans && sp.start <= x <= sp.end
  }

  /** The spans the readings rule out on row, one per sensor that reaches it, in reading order. */
  function RowSpans(readings: seq<Reading>, row: int): (spans: seq<Span>)
    ensures |spans| <= |readings|
    ensures forall sp :: sp in spans ==> sp.start <= sp.end
  {
    if readings == [] then []
    else
      var init := RowSpans(readings[..|readings| - 1], row);
      match readings[|readings| - 1].SpanOnRow(row)
      case Some(sp) => init + [sp]
      case None => init
  }

  /** Two readings that both reach the row give their spans in order. */
  lemma RowSpansOfTwo(a: Reading, b: Reading, row: int, spanA: Span, spanB: Span)
    requires a.SpanOnRow(row) == Some(spanA) && b.SpanOnRow(row) == Some(spanB)
    ensures RowSpans([a, b], row) == [spanA, spanB]
  {
    assert [a, b][..1] == [a];
    assert [a][..0] == [];
  }

  /** A point is detected by all readings when the earlier ones or the last one detects it. */
  lemma DetectedByLast(readings: seq<Reading>, p: Point)
    requires |readings| > 0
    ensures Detected(readings, p) <==>
      || Detected(readings[..|readings| - 1], p)
      || readings[|readings| - 1].sensor.ManhattanDist(p) <= readings[|readings| - 1].Radius()
  {
    var n := |readings| - 1;
    assert forall k :: 0 <= k < n ==> readings[..n][k] == readings[k];
  }

  lemma CoversAppend(spans: seq<Span>, sp: Span, x: int)
    ensures Covers(spans + [sp], x) <==> Covers(spans, x) || sp.start <= x <= sp.end
  {
    assert sp in spans + [sp];
    assert forall s :: s in spans ==> s in spans + [sp];
  }

  /** The spans of a row cover exactly its detected positions. */
  lemma {:induction false} RowSpansDetect(readings: seq<Reading>, row: int, x: int)
    ensures Covers(RowSpans(readings, row), x) <==> Detected(readings, Point(x, row))
  {
    if readings != [] {
      var n := |readings| - 1;
      RowSpansDetect(readings[..n], row, x);
      DetectedByLast(readings, Point(x, row));
      SpanOnRowExact(readings[n], row, x);
      match readings[n].SpanOnRow(row)
      case Some(sp) =>
        CoversAppend(RowSpans(readings[..n], row), sp, x);
      case None =>
    }
  }

  /** Covering depends only on which spans there are, not on their order. */
  lemma CoversPermutation(spans: seq<Span>, others: seq<Span>, x: int)
    requires multiset(spans) == multiset(others)
    ensures Covers(spans, x) <==> Covers(others, x)
  {
    assert forall sp :: sp in spans <==> sp in others by {
      forall sp
        ensures sp in spans <==> sp in others
      {
        assert sp in spans <==> sp in multiset(spans);
        assert sp in others <==> sp in multiset(others);
      }
    }
  }

  /* ---------------------------------------------------------------- beacons */

  /** The zero-width spans of the beacons on row, in reading order. */
  function BeaconSpans(readings: seq<Reading>, row: int): (spans: seq<Span>)
    ensures |spans| <= |readings|
    ensures forall sp :: sp in spans ==> sp.start == sp.end && exists k :: 0 <= k < |readings| && readings[k].beacon == Point(sp.start, row)
  {
    if readings == [] then []
    else
      var n := |readings| - 1;
      var init := BeaconSpans(readings[..n], row);
      assert forall k :: 0 <= k < n ==> readings[..n][k] == readings[k];
      var beacon := readings[n].beacon;
      if beacon.y == row then init + [Span(beacon.x, beacon.x)] else init
  }

  /** Every beacon has its zero-width span in its own row. */
  lemma {:induction false} BeaconSpansHold(readings: seq<Reading>, k: int)
    requires 0 <= k < |readings|
    ensures Span(readings[k].beacon.x, readings[k].beacon.x) in BeaconSpans(readings, readings[k].beacon.y)
  {
    var n := |readings| - 1;
    if k < n {
      BeaconSpansHold(readings[..n], k);
    }
  }

  /**
   * mapOfBeaconsByRow: a row is a key exactly when a beacon is on it, and maps to the
   * zero-width spans of the beacons on it, in reading order.
   */
  method MapOfBeaconsByRow(readings: seq<Reading>) returns (result: map<int, seq<Span>>)
    ensures forall row :: row in result <==> BeaconSpans(readings, row) != []
    ensures forall row :: row in result ==> result[row] == BeaconSpans(readings, row)
  {
    result := map[];
    for i := 0 to |readings|
      invariant forall row :: row in result <==> BeaconSpans(readings[..i], row) != []
      invariant forall row :: row in result ==> result[row] == BeaconSpans(readings[..i], row)
    {
      assert readings[..i + 1][..i] == readings[..i];
      var row := readings[i].beacon.y;
      var span := Span(readings[i].beacon.x, readings[i].beacon.x);
      if row in result {
        result := result[row := result[row] + [span]];
      } else {
        result := result[row := [span]];
      }
    }
    assert readings[..|readings|] == readings;
  }

  /** A beacon lies in its own sensor's span on the beacon's row. */
  lemma BeaconInOwnSpan(r: Reading)
    ensures r.SpanOnRow(r.beacon.y).Some?
    ensures r.SpanOnRow(r.beacon.y).value.start <= r.beacon.x <= r.SpanOnRow(r.beacon.y).value.end
  {
  }

  /**
   * Go's `copy(dst, src)`: the first min(len(dst), len(src)) elements of src overwrite dst, whose
   * length does not change.
   */
  function CopyInto<T>(dst: seq<T>, src: seq<T>): (r: seq<T>)
    ensures |r| == |dst|
    ensures forall i :: 0 <= i < |r| ==> r[i] == (if i < |src| then src[i] else dst[i])
  {
    if |src| >= |dst| then src[..|dst|] else src + dst[|src|..]
  }

  /* ---------------------------------------------------------------- Klee's algorithm */

  /** KleePoint: where a span starts, or where it ends. */
  datatype KleePoint = KleePoint(x: int, isEnd: bool)

  /** The start and end events of every span, in span order. */
  function SpanEvents(spans: seq<Span>): (events: seq<KleePoint>)
    ensures |events| == 2 * |spans|
  {
    if spans == [] then []
    else
      var last := spans[|spans| - 1];
      SpanEvents(spans[..|spans| - 1]) + [KleePoint(last.start, false), KleePoint(last.end, true)]
  }

  /** The order buildKleeVector sorts into: by position, and ends before starts at one position. */
  function EventKey(e: KleePoint): int {
    2 * e.x + (if e.isEnd then 0 else 1)
  }

  /** Ordering by EventKey is the comparator of buildKleeVector. */
  lemma EventKeyOrder(a: KleePoint, b: KleePoint)
    ensures EventKey(a) < EventKey(b) <==> a.x < b.x || (a.x == b.x && a.isEnd && !b.isEnd)
    ensures EventKey(a) == EventKey(b) <==> a == b
  {
  }

  /** The events are in ascending position. */
  predicate SortedX(events: seq<KleePoint>) {
    forall i, j :: 0 <= i < j < |events| ==> events[i].x <= events[j].x
  }

  lemma SortedByKeyIsSortedX(events: seq<KleePoint>)
    requires SortedBy(events, EventKey)
    ensures SortedX(events)
  {
    forall i, j | 0 <= i < j < |events|
      ensures events[i].x <= events[j].x
    {
      assert EventKey(events[i]) <= EventKey(events[j]);
    }
  }

  /**
   * buildKleeVector: the start and end of each span the readings make on row, sorted by
   * position with ends first.
   */
  method BuildKleeVector(row: int, readings: seq<Reading>) returns (result: seq<KleePoint>)
    ensures SortedBy(result, EventKey)
    ensures multiset(result) == multiset(SpanEvents(RowSpans(readings, row)))
  {
    var events: seq<KleePoint> := [];
    for i := 0 to |readings|
      invariant events == SpanEvents(RowSpans(readings[..i], row))
    {
      assert readings[..i + 1][..i] == readings[..i];
      match readings[i].SpanOnRow(row)
      case Some(span) =>
        events := events + [KleePoint(span.start, false), KleePoint(span.end, true)];
      case None =>
    }
    assert readings[..|readings|] == readings;
    result := SortByKey(events, EventKey);
  }

  /** How an event changes the number of open spans. */
  function Delta(e: KleePoint): int {
    if e.isEnd then -1 else 1
  }

  /** The number of spans open after all the events. */
  function Depth(events: seq<KleePoint>): int {
    if events == [] then 0 else Depth(events[..|events| - 1]) + Delta(events[|events| - 1])
  }

  /** What one event adds to the depth at c. */
  function Step(e: KleePoint, c: int): int {
    if e.x <= c then Delta(e) else 0
  }

  /** The number of spans open at position c: the events at or before c, counted with their sign. */
  function CoverAt(events: seq<KleePoint>, c: int): int {
    if events == [] then 0
    else
      CoverAt(events[..|events| - 1], c) + Step(events[|events| - 1], c)
  }

  /** The number of positions c in [lo, hi) where some span is open. */
  function CoveredCount(events: seq<KleePoint>, lo: int, hi: int): (n: nat)
    decreases hi - lo
  {
    if hi <= lo then 0 else CoveredCount(events, lo, hi - 1) + (if CoverAt(events, hi - 1) > 0 then 1 else 0)
  }

  lemma {:induction false} CoverAtConcat(a: seq<KleePoint>, b: seq<KleePoint>, c: int)
    ensures CoverAt(a + b, c) == CoverAt(a, c) + CoverAt(b, c)
  {
    if b != [] {
      var n := |b| - 1;
      assert (a + b)[..|a + b| - 1] == a + b[..n];
      CoverAtConcat(a, b[..n], c);
    } else {
      assert a + b == a;
    }
  }

  lemma {:induction false} CoverAtAll(events: seq<KleePoint>, c: int)
    requires forall k :: 0 <= k < |events| ==> events[k].x <= c
    ensures CoverAt(events, c) == Depth(events)
  {
    if events != [] {
      CoverAtAll(events[..|events| - 1], c);
    }
  }

  lemma {:induction false} CoverAtNone(events: seq<KleePoint>, c: int)
    requires forall k :: 0 <= k < |events| ==> c < events[k].x
    ensures CoverAt(events, c) == 0
  {
    if events != [] {
      CoverAtNone(events[..|events| - 1], c);
    }
  }

  /** In a vector sorted by position, everything before i is at or before c, and the rest after c. */
  lemma SortedSplit(events: seq<KleePoint>, i: int, c: int)
    requires SortedX(events) && 0 < i < |events|
    requires events[i - 1].x <= c < events[i].x
    ensures forall k :: 0 <= k < |events[..i]| ==> events[..i][k].x <= c
    ensures forall k :: 0 <= k < |events[i..]| ==> c < events[i..][k].x
  {
    forall k | 0 <= k < i
      ensures events[k].x <= c
    {
      assert k == i - 1 || events[k].x <= events[i - 1].x;
    }
    forall k | i <= k < |events|
      ensures c < events[k].x
    {
      assert k == i || events[i].x <= events[k].x;
    }
  }

  /** Between two neighbouring positions of a sorted vector, the depth is that after the earlier one. */
  lemma CoverRun(events: seq<KleePoint>, i: int, c: int)
    requires SortedX(events) && 0 < i < |events|
    requires events[i - 1].x <= c < events[i].x
    ensures CoverAt(events, c) == Depth(events[..i])
  {
    var before, after := events[..i], events[i..];
    assert events == before + after;
    CoverAtConcat(before, after, c);
    SortedSplit(events, i, c);
    CoverAtAll(before, c);
    CoverAtNone(after, c);
  }

  /** Counting over a stretch where the depth is constant adds all of it, or none of it. */
  lemma {:induction false} CountRun(events: seq<KleePoint>, lo: int, a: int, b: int, d: int)
    requires lo <= a <= b
    requires forall c :: a <= c < b ==> CoverAt(events, c) == d
    ensures CoveredCount(events, lo, b) == CoveredCount(events, lo, a) + (if d > 0 then b - a else 0)
    decreases b - a
  {
    if a < b {
      CountRun(events, lo, a, b - 1, d);
    }
  }

  /**
   * calculateOverlappingLength, with the depth starting from the first event: for a vector
   * sorted by position, the number of positions between its first and last event where some
   * span is open.
   */
  method CalculateOverlappingLength(kleeVector: seq<KleePoint>) returns (result: int)
    ensures result >= 0
    ensures |kleeVector| <= 1 ==> result == 0
    ensures SortedX(kleeVector) && |kleeVector| > 0 ==>
      result == CoveredCount(kleeVector, kleeVector[0].x, kleeVector[|kleeVector| - 1].x)
  {
    result := 0;
    var segmentDepth := if |kleeVector| > 0 then Delta(kleeVector[0]) else 0;
    if |kleeVector| > 0 {
      assert kleeVector[..1] == [] + [kleeVector[0]];
    }
    var i := 1;
    while i < |kleeVector|
      invariant |kleeVector| > 0 ==> 1 <= i <= |kleeVector|
      invariant |kleeVector| > 0 ==> segmentDepth == Depth(kleeVector[..i])
      invariant result >= 0
      invariant |kleeVector| <= 1 ==> result == 0
      invariant SortedX(kleeVector) && |kleeVector| > 0 ==> result == CoveredCount(kleeVector, kleeVector[0].x, kleeVector[i - 1].x)
    {
      var prev, current := kleeVector[i - 1], kleeVector[i];
      var diff := current.x - prev.x;
      if SortedX(kleeVector) {
        forall c | prev.x <= c < current.x
          ensures CoverAt(kleeVector, c) == segmentDepth
        {
          CoverRun(kleeVector, i, c);
        }
        CountRun(kleeVector, kleeVector[0].x, prev.x, current.x, segmentDepth);
      }
      if segmentDepth > 0 && diff > 0 {
        result := result + diff;
      }
      if current.isEnd {
        segmentDepth := segmentDepth - 1;
      } else {
        segmentDepth := segmentDepth + 1;
      }
      assert kleeVector[..i + 1][..i] == kleeVector[..i];
      i := i + 1;
    }
  }

  /** Taking one event out of a vector takes out its share of the depth and of the multiset. */
  lemma CoverAtRemove(events: seq<KleePoint>, j: int, c: int)
    requires 0 <= j < |events|
    ensures multiset(events) == multiset(events[..j] + events[j + 1..]) + multiset{events[j]}
    ensures CoverAt(events, c) == CoverAt(events[..j] + events[j + 1..], c) + Step(events[j], c)
  {
    var front, back := events[..j], events[j + 1..];
    assert events == front + [events[j]] + back;
    CoverAtConcat(front + [events[j]], back, c);
    CoverAtConcat(front, [events[j]], c);
    CoverAtConcat(front, back, c);
    assert [events[j]][..0] == [];
  }

  /** The depth at a position does not depend on the order of the events. */
  lemma {:induction false} CoverAtPermutation(events: seq<KleePoint>, others: seq<KleePoint>, c: int)
    requires multiset(events) == multiset(others)
    ensures CoverAt(events, c) == CoverAt(others, c)
    decreases |events|
  {
    if events != [] {
      var n := |events| - 1;
      var last := events[n];
      assert events == events[..n] + [last];
      assert multiset(events) == multiset(events[..n]) + multiset{last};
      assert last in multiset(others);
      var j :| 0 <= j < |others| && others[j] == last;
      CoverAtRemove(others, j, c);
      assert multiset(events[..n]) == multiset(events) - multiset{last};
      assert multiset(others[..j] + others[j + 1..]) == multiset(others) - multiset{last};
      CoverAtPermutation(events[..n], others[..j] + others[j + 1..], c);
    }
  }

  /** The two events of a span that does not run backwards add one at the positions of [start, end). */
  lemma CoverAtPair(sp: Span, c: int)
    requires sp.start <= sp.end
    ensures CoverAt([KleePoint(sp.start, false), KleePoint(sp.end, true)], c) == if sp.start <= c < sp.end then 1 else 0
  {
    var pair := [KleePoint(sp.start, false), KleePoint(sp.end, true)];
    assert pair[..1] == [pair[0]];
    assert [pair[0]][..0] == [];
    assert CoverAt([pair[0]], c) == Step(pair[0], c);
    assert CoverAt(pair, c) == CoverAt([pair[0]], c) + Step(pair[1], c);
  }

  /** The number of spans open at c, each taken as the half-open range [start, end). */
  function Active(spans: seq<Span>, c: int): nat {
    if spans == [] then 0
    else
      var last := spans[|spans| - 1];
      Active(spans[..|spans| - 1], c) + (if last.start <= c < last.end then 1 else 0)
  }

  /** c lies in the half-open range [start, end) of one of the spans. */
  ghost predicate Measures(spans: seq<Span>, c: int) {
    exists sp :: sp in spans && sp.start <= c < sp.end
  }

  /** The events of spans that do not run backwards count the spans open at each position. */
  lemma {:induction false} CoverAtEvents(spans: seq<Span>, c: int)
    requires forall sp :: sp in spans ==> sp.start <= sp.end
    ensures CoverAt(SpanEvents(spans), c) == Active(spans, c)
  {
    if spans != [] {
      var n := |spans| - 1;
      var last := spans[n];
      assert forall sp :: sp in spans[..n] ==> sp in spans;
      CoverAtEvents(spans[..n], c);
      var pair := [KleePoint(last.start, false), KleePoint(last.end, true)];
      CoverAtConcat(SpanEvents(spans[..n]), pair, c);
      assert spans[n] in spans;
      CoverAtPair(last, c);
    }
  }

  lemma {:induction false} ActiveMeasures(spans: seq<Span>, c: int)
    ensures Active(spans, c) > 0 <==> Measures(spans, c)
  {
    if spans != [] {
      var n := |spans| - 1;
      ActiveMeasures(spans[..n], c);
      assert spans == spans[..n] + [spans[n]];
      assert forall sp :: sp in spans <==> sp in spans[..n] || sp == spans[n];
    }
  }

  /** The number of positions c in [lo, hi) that some span measures. */
  ghost function MeasuredCount(spans: seq<Span>, lo: int, hi: int): (n: nat)
    ensures n <= if hi <= lo then 0 else hi - lo
    decreases hi - lo
  {
    if hi <= lo then 0 else MeasuredCount(spans, lo, hi - 1) + (if Measures(spans, hi - 1) then 1 else 0)
  }

  /** Counting the open positions of the events counts the measured positions of the spans. */
  lemma {:induction false} CountsAgree(events: seq<KleePoint>, spans: seq<Span>, lo: int, hi: int)
    requires forall c :: CoverAt(events, c) > 0 <==> Measures(spans, c)
    ensures CoveredCount(events, lo, hi) == MeasuredCount(spans, lo, hi)
    decreases hi - lo
  {
    if lo < hi {
      CountsAgree(events, spans, lo, hi - 1);
    }
  }

  /** [lo, hi) holds every span. */
  ghost predicate Encloses(spans: seq<Span>, lo: int, hi: int) {
    lo <= hi && forall sp :: sp in spans ==> lo <= sp.start && sp.end <= hi
  }

  lemma {:induction false} WidenHi(spans: seq<Span>, lo: int, hi: int, top: int)
    requires lo <= hi <= top
    requires forall c :: hi <= c < top ==> !Measures(spans, c)
    ensures MeasuredCount(spans, lo, top) == MeasuredCount(spans, lo, hi)
    decreases top - hi
  {
    if hi < top {
      WidenHi(spans, lo, hi, top - 1);
    }
  }

  lemma {:induction false} WidenLo(spans: seq<Span>, bottom: int, lo: int, hi: int)
    requires bottom <= lo
    requires forall c :: bottom <= c < lo ==> !Measures(spans, c)
    ensures MeasuredCount(spans, bottom, hi) == MeasuredCount(spans, lo, hi)
    decreases hi - bottom
  {
    if bottom < hi {
      WidenLo(spans, bottom, lo, hi - 1);
    }
  }

  /** Every window that holds all the spans counts the same positions. */
  lemma WindowIndependent(spans: seq<Span>, lo: int, hi: int, lo2: int, hi2: int)
    requires Encloses(spans, lo, hi) && Encloses(spans, lo2, hi2)
    ensures MeasuredCount(spans, lo, hi) == MeasuredCount(spans, lo2, hi2)
  {
    var bottom := if lo < lo2 then lo else lo2;
    var top := if hi < hi2 then hi2 else hi;
    WidenHi(spans, bottom, hi, top);
    WidenLo(spans, bottom, lo, hi);
    WidenHi(spans, bottom, hi2, top);
    WidenLo(spans, bottom, lo2, hi2);
  }

  /** Both events of every span are in the vector. */
  lemma {:induction false} SpanEventsHold(spans: seq<Span>, sp: Span)
    requires sp in spans
    ensures KleePoint(sp.start, false) in SpanEvents(spans) && KleePoint(sp.end, true) in SpanEvents(spans)
  {
    var n := |spans| - 1;
    if sp != spans[n] {
      assert spans == spans[..n] + [spans[n]];
      SpanEventsHold(spans[..n], sp);
    }
  }

  /** A vector holding the events of spans is open exactly where the spans measure. */
  lemma VectorMeasures(events: seq<KleePoint>, spans: seq<Span>)
    requires multiset(events) == multiset(SpanEvents(spans))
    requires forall sp :: sp in spans ==> sp.start <= sp.end
    ensures forall c :: CoverAt(events, c) > 0 <==> Measures(spans, c)
  {
    forall c
      ensures CoverAt(events, c) > 0 <==> Measures(spans, c)
    {
      CoverAtPermutation(events, SpanEvents(spans), c);
      CoverAtEvents(spans, c);
      ActiveMeasures(spans, c);
    }
  }

  /** A sorted vector holding the events of spans runs from below every span to above it. */
  lemma VectorEncloses(events: seq<KleePoint>, spans: seq<Span>)
    requires SortedX(events) && spans != []
    requires multiset(events) == multiset(SpanEvents(spans))
    ensures |events| > 0 && Encloses(spans, events[0].x, events[|events| - 1].x)
  {
    assert |events| == |SpanEvents(spans)| by {
      assert |multiset(events)| == |multiset(SpanEvents(spans))|;
    }
    var first, last := events[0].x, events[|events| - 1].x;
    forall sp | sp in spans
      ensures first <= sp.start && sp.end <= last
    {
      SpanEventsHold(spans, sp);
      assert KleePoint(sp.start, false) in multiset(events);
      assert KleePoint(sp.end, true) in multiset(events);
    }
  }

  /** No span measures anything. */
  lemma {:induction false} NothingMeasured(lo: int, hi: int)
    ensures MeasuredCount([], lo, hi) == 0
    decreases hi - lo
  {
    if lo < hi {
      NothingMeasured(lo, hi - 1);
    }
  }

  /**
   * SumOverlappingSegmentLengths, with the corrected calculateOverlappingLength: the number of
   * positions on row that lie in the half-open range [start, end) of some sensor's span,
   * counted over any window that holds all the spans.
   */
  method SumOverlappingSegmentLengths(row: int, readings: seq<Reading>) returns (length: int)
    ensures forall lo, hi :: Encloses(RowSpans(readings, row), lo, hi) ==> length == MeasuredCount(RowSpans(readings, row), lo, hi)
  {
    var kleePoints := BuildKleeVector(row, readings);
    length := CalculateOverlappingLength(kleePoints);
    ghost var spans := RowSpans(readings, row);
    if spans == [] {
      assert kleePoints == [] by {
        assert |multiset(kleePoints)| == |multiset(SpanEvents(spans))|;
      }
      forall lo, hi | Encloses(spans, lo, hi)
        ensures length == MeasuredCount(spans, lo, hi)
      {
        NothingMeasured(lo, hi);
      }
    } else {
      SortedByKeyIsSortedX(kleePoints);
      VectorEncloses(kleePoints, spans);
      VectorMeasures(kleePoints, spans);
      var first, last := kleePoints[0].x, kleePoints[|kleePoints| - 1].x;
      CountsAgree(kleePoints, spans, first, last);
      forall lo, hi | Encloses(spans, lo, hi)
        ensures length == MeasuredCount(spans, lo, hi)
      {
        WindowIndependent(spans, lo, hi, first, last);
      }
    }
  }

  /* ---------------------------------------------------------------- the first vacant point */

  /** The key findVacantPointsSerially sorts a row's spans by. */
  function SpanStart(sp: Span): int {
    sp.start
  }

  /** y lies in one of the first n spans. */
  ghost predicate CoversFirst(spans: seq<Span>, n: int, y: int) {
    exists k :: 0 <= k < n && k < |spans| && spans[k].start <= y <= spans[k].end
  }

  lemma CoversFirstAll(spans: seq<Span>, y: int)
    ensures CoversFirst(spans, |spans|, y) <==> Covers(spans, y)
  {
    if Covers(spans, y) {
      var sp :| sp in spans && sp.start <= y <= sp.end;
      var k :| 0 <= k < |spans| && spans[k] == sp;
    }
  }

  /**
   * x is the first gap of a row: no span holds it, a span holds the position before it and one
   * holds a position after it, and every position between a covered one and x is covered.
   */
  ghost predicate GapAt(spans: seq<Span>, x: int) {
    && !Covers(spans, x)
    && Covers(spans, x - 1)
    && (exists b :: x < b && Covers(spans, b))
    && (forall a, y :: a < y < x && Covers(spans, a) ==> Covers(spans, y))
  }

  /** The spans cover one unbroken range of positions. */
  ghost predicate NoGap(spans: seq<Span>) {
    forall a, y, b :: a < y < b && Covers(spans, a) && Covers(spans, b) ==> Covers(spans, y)
  }

  /** What the merged span is while the spans of a row are walked in order of start. */
  ghost predicate Merged(spans: seq<Span>, i: int, spanSoFar: Span) {
    && 0 < i <= |spans|
    && spanSoFar.start == spans[0].start <= spanSoFar.end
    && forall y :: CoversFirst(spans, i, y) <==> spanSoFar.start <= y <= spanSoFar.end
  }

  lemma MergeStep(spans: seq<Span>, i: int, spanSoFar: Span)
    requires Merged(spans, i, spanSoFar) && i < |spans|
    requires SortedBy(spans, SpanStart) && spans[i].start <= spans[i].end
    requires spans[i].start <= spanSoFar.end + 1
    ensures Merged(spans, i + 1, if spans[i].end > spanSoFar.end then Span(spanSoFar.start, spans[i].end) else spanSoFar)
  {
    assert SpanStart(spans[0]) <= SpanStart(spans[i]);
    forall y
      ensures CoversFirst(spans, i + 1, y) <==> CoversFirst(spans, i, y) || spans[i].start <= y <= spans[i].end
    {
      if CoversFirst(spans, i + 1, y) && !(spans[i].start <= y <= spans[i].end) {
        var k :| 0 <= k < i + 1 && k < |spans| && spans[k].start <= y <= spans[k].end;
        assert k < i;
      }
      if spans[i].start <= y <= spans[i].end {
        assert CoversFirst(spans, i + 1, y);
      }
      if CoversFirst(spans, i, y) {
        var k :| 0 <= k < i && k < |spans| && spans[k].start <= y <= spans[k].end;
        assert CoversFirst(spans, i + 1, y);
      }
    }
    var next := if spans[i].end > spanSoFar.end then Span(spanSoFar.start, spans[i].end) else spanSoFar;
    var j := i + 1;
    forall y
      ensures CoversFirst(spans, j, y) <==> next.start <= y <= next.end
    {
      assert CoversFirst(spans, i, y) <==> spanSoFar.start <= y <= spanSoFar.end;
    }
  }

  lemma GapFound(spans: seq<Span>, i: int, spanSoFar: Span)
    requires Merged(spans, i, spanSoFar) && i < |spans|
    requires SortedBy(spans, SpanStart) && spans[i].start <= spans[i].end
    requires spans[i].start > spanSoFar.end + 1
    ensures GapAt(spans, spanSoFar.end + 1)
  {
    var x := spanSoFar.end + 1;
    forall k | i <= k < |spans|
      ensures spans[k].start > x
    {
      assert SpanStart(spans[i]) <= SpanStart(spans[k]);
    }
    forall y | y < spans[i].start
      ensures Covers(spans, y) <==> spanSoFar.start <= y <= spanSoFar.end
    {
      CoversFirstAll(spans, y);
      if Covers(spans, y) {
        var k :| 0 <= k < |spans| && spans[k].start <= y <= spans[k].end;
        assert CoversFirst(spans, i, y);
      }
      if spanSoFar.start <= y <= spanSoFar.end {
        assert CoversFirst(spans, i, y);
      }
    }
    assert spans[i] in spans;
    assert Covers(spans, spans[i].start);
  }

  lemma NoGapFound(spans: seq<Span>, spanSoFar: Span)
    requires Merged(spans, |spans|, spanSoFar)
    ensures NoGap(spans)
  {
    forall y
      ensures Covers(spans, y) <==> spanSoFar.start <= y <= spanSoFar.end
    {
      CoversFirstAll(spans, y);
    }
  }

  /**
   * The merge of one row in findVacantPointsSerially, with adjacent spans taken as touching: the
   * first gap in the spans, or none when they cover one unbroken range.
   */
  method FirstGap(spans: seq<Span>) returns (x: int, found: bool)
    requires |spans| > 0
    requires SortedBy(spans, SpanStart)
    requires forall sp :: sp in spans ==> sp.start <= sp.end
    ensures found ==> GapAt(spans, x)
    ensures !found ==> NoGap(spans)
  {
    var spanSoFar := spans[0];
    assert spans[0] in spans;
    assert forall y :: CoversFirst(spans, 1, y) <==> spanSoFar.start <= y <= spanSoFar.end;
    var i := 1;
    while i < |spans|
      invariant Merged(spans, i, spanSoFar)
    {
      var span := spans[i];
      assert span in spans;
      if span.start <= spanSoFar.end + 1 {
        MergeStep(spans, i, spanSoFar);
        if span.end > spanSoFar.end {
          spanSoFar := Span(spanSoFar.start, span.end);
        }
      } else {
        GapFound(spans, i, spanSoFar);
        return spanSoFar.end + 1, true;
      }
      i := i + 1;
    }
    NoGapFound(spans, spanSoFar);
    return 0, false;
  }

  /** The spans the readings make on row, appended to spans in reading order. */
  method AppendRowSpans(spans: seq<Span>, row: int, readings: seq<Reading>) returns (result: seq<Span>)
    ensures result == spans + RowSpans(readings, row)
  {
    result := spans;
    for i := 0 to |readings|
      invariant result == spans + RowSpans(readings[..i], row)
    {
      assert readings[..i + 1][..i] == readings[..i];
      match readings[i].SpanOnRow(row)
      case Some(span) =>
        result := result + [span];
      case None =>
    }
    assert readings[..|readings|] == readings;
  }

  /** No undetected position of row lies between two detected ones. */
  ghost predicate GapFree(readings: seq<Reading>, row: int) {
    forall a, y, b :: a < y < b && Detected(readings, Point(a, row)) && Detected(readings, Point(b, row)) ==> Detected(readings, Point(y, row))
  }

  /** Every row from 0 up to but excluding row is gap-free, so the search gets to row. */
  ghost predicate RowsBeforeGapFree(readings: seq<Reading>, row: int) {
    forall r :: 0 <= r < row ==> GapFree(readings, r)
  }

  /**
   * p is undetected, the position before it is detected, one after it is detected, and no
   * undetected position of its row lies between a detected one and p.
   */
  ghost predicate VacantAt(readings: seq<Reading>, p: Point) {
    && !Detected(readings, p)
    && Detected(readings, Point(p.x - 1, p.y))
    && (exists b :: p.x < b && Detected(readings, Point(b, p.y)))
    && (forall a, y :: a < y < p.x && Detected(readings, Point(a, p.y)) ==> Detected(readings, Point(y, p.y)))
  }

  /** A row's spans in any order cover exactly what the readings detect on it. */
  lemma SortedRowCovers(readings: seq<Reading>, row: int, spans: seq<Span>)
    requires multiset(spans) == multiset(RowSpans(readings, row))
    ensures forall y :: Covers(spans, y) <==> Detected(readings, Point(y, row))
  {
    forall y
      ensures Covers(spans, y) <==> Detected(readings, Point(y, row))
    {
      CoversPermutation(spans, RowSpans(readings, row), y);
      RowSpansDetect(readings, row, y);
    }
  }

  /** A row's spans in any order run forwards, and there are some when the row meets a sensor's range. */
  lemma SortedRowShape(readings: seq<Reading>, row: int, spans: seq<Span>)
    requires multiset(spans) == multiset(RowSpans(readings, row))
    ensures forall sp :: sp in spans ==> sp.start <= sp.end
    ensures |spans| == |RowSpans(readings, row)|
  {
    forall sp | sp in spans
      ensures sp.start <= sp.end
    {
      assert sp in multiset(spans);
    }
    assert |multiset(spans)| == |multiset(RowSpans(readings, row))|;
  }

  /** The first gap of a row's spans is a vacant point of the row. */
  lemma GapIsVacant(readings: seq<Reading>, row: int, spans: seq<Span>, x: int)
    requires multiset(spans) == multiset(RowSpans(readings, row))
    requires GapAt(spans, x)
    ensures VacantAt(readings, Point(x, row))
  {
    SortedRowCovers(readings, row, spans);
    var b :| x < b && Covers(spans, b);
    assert Detected(readings, Point(b, row));
  }

  /** When a row's spans cover one unbroken range, the row is gap-free. */
  lemma NoGapIsGapFree(readings: seq<Reading>, row: int, spans: seq<Span>)
    requires multiset(spans) == multiset(RowSpans(readings, row))
    requires NoGap(spans)
    ensures GapFree(readings, row)
  {
    SortedRowCovers(readings, row, spans);
  }

  lemma RowsBeforeStep(readings: seq<Reading>, row: int)
    requires 0 <= row && RowsBeforeGapFree(readings, row) && GapFree(readings, row)
    ensures RowsBeforeGapFree(readings, row + 1)
  {
  }

  /**
   * findVacantPointsSerially, with adjacent spans taken as touching: the first gap of the first
   * row from 0 below limit that has one, every earlier row being gap-free; or the zero Point and
   * false when every such row is gap-free. A row the search reaches must meet some sensor's
   * range, as spans[0] fails on a row that none reaches.
   */
  method FindVacantPointsSerially(limit: int, readings: seq<Reading>) returns (p: Point, found: bool)
    requires forall row :: 0 <= row < limit && RowsBeforeGapFree(readings, row) ==> RowSpans(readings, row) != []
    ensures found ==> 0 <= p.y < limit && RowsBeforeGapFree(readings, p.y) && VacantAt(readings, p)
    ensures !found ==> p == Point(0, 0) && RowsBeforeGapFree(readings, limit)
  {
    var beaconsByRow := MapOfBeaconsByRow(readings);
    var row := 0;
    while row < limit
      invariant 0 <= row
      invariant RowsBeforeGapFree(readings, row)
    {
      var spans: seq<Span> := [];
      if row in beaconsByRow {
        spans := CopyInto(spans, beaconsByRow[row]);
      }
      spans := AppendRowSpans(spans, row, readings);
      spans := SortByKey(spans, SpanStart);
      assert multiset(spans) == multiset(RowSpans(readings, row));
      SortedRowShape(readings, row, spans);
      var x, gap := FirstGap(spans);
      if gap {
        GapIsVacant(readings, row, spans, x);
        return Point(x, row), true;
      }
      NoGapIsGapFree(readings, row, spans);
      RowsBeforeStep(readings, row);
      row := row + 1;
    }
    return Point(0, 0), false;
  }

  /* ---------------------------------------------------------------- the code as written */

  /**
   * calculateOverlappingLength as written: the loop from index i with the given depth. The
   * function starts it at index 1 with depth 1, whatever the first event is.
   */
  function OverlapAsWritten(kleeVector: seq<KleePoint>, i: nat, segmentDepth: int): (result: int)
    requires 0 < i
    ensures result >= 0
    decreases |kleeVector| - i
  {
    if i >= |kleeVector| then 0
    else
      var diff := kleeVector[i].x - kleeVector[i - 1].x;
      (if segmentDepth > 0 && diff > 0 then diff else 0) + OverlapAsWritten(kleeVector, i + 1, segmentDepth + Delta(kleeVector[i]))
  }

  /**
   * From index i of a vector sorted by position, with the depth the events before i leave, the
   * loop as written adds the positions from event i - 1 to the last event where a span is open.
   */
  lemma {:induction false} AsWrittenFrom(kleeVector: seq<KleePoint>, i: int)
    requires SortedX(kleeVector) && 0 < i <= |kleeVector|
    ensures CoveredCount(kleeVector, kleeVector[0].x, kleeVector[i - 1].x) + OverlapAsWritten(kleeVector, i, Depth(kleeVector[..i]))
      == CoveredCount(kleeVector, kleeVector[0].x, kleeVector[|kleeVector| - 1].x)
    decreases |kleeVector| - i
  {
    if i < |kleeVector| {
      var prev, current := kleeVector[i - 1], kleeVector[i];
      var depth := Depth(kleeVector[..i]);
      forall c | prev.x <= c < current.x
        ensures CoverAt(kleeVector, c) == depth
      {
        CoverRun(kleeVector, i, c);
      }
      assert kleeVector[0].x <= prev.x <= current.x;
      CountRun(kleeVector, kleeVector[0].x, prev.x, current.x, depth);
      assert kleeVector[..i + 1][..i] == kleeVector[..i];
      AsWrittenFrom(kleeVector, i + 1);
    }
  }

  /**
   * When the first event of a vector sorted by position is a start, the code as written counts
   * what the corrected count does: the positions between the first and last event where some
   * span is open.
   */
  lemma AsWrittenMeasures(kleeVector: seq<KleePoint>)
    requires SortedX(kleeVector) && |kleeVector| > 0 && !kleeVector[0].isEnd
    ensures OverlapAsWritten(kleeVector, 1, 1) == CoveredCount(kleeVector, kleeVector[0].x, kleeVector[|kleeVector| - 1].x)
  {
    assert kleeVector[..1] == [] + [kleeVector[0]];
    AsWrittenFrom(kleeVector, 1);
  }

  /** Row 3 of these readings holds the zero-width span 5..5 and the span 7..9. */
  const OverlapReadings := [Reading(Point(5, 0), Point(5, 3)), Reading(Point(8, 3), Point(9, 3))]

  /** The vector buildKleeVector sorts their events into: the only order by EventKey. */
  const OverlapVector := [KleePoint(5, true), KleePoint(5, false), KleePoint(7, false), KleePoint(9, true)]

  /** The first of OverlapReadings reaches row 3 at its edge: the zero-width span 5..5. */
  lemma OverlapSpanFirst()
    ensures OverlapReadings[0].SpanOnRow(3) == Some(Span(5, 5))
  {
  }

  /** The second of OverlapReadings covers 7..9 of its own row 3. */
  lemma OverlapSpanSecond()
    ensures OverlapReadings[1].SpanOnRow(3) == Some(Span(7, 9))
  {
  }

  lemma OverlapEvents()
    ensures SpanEvents([Span(5, 5), Span(7, 9)]) == [KleePoint(5, false), KleePoint(5, true), KleePoint(7, false), KleePoint(9, true)]
  {
    assert [Span(5, 5), Span(7, 9)][..1] == [Span(5, 5)];
  }

  lemma OverlapVectorSorted()
    ensures SortedBy(OverlapVector, EventKey)
  {
  }

  lemma OverlapVectorEvents()
    ensures multiset(OverlapVector) == multiset(SpanEvents([Span(5, 5), Span(7, 9)]))
  {
    OverlapEvents();
    assert multiset(OverlapVector) == multiset([KleePoint(5, false), KleePoint(5, true), KleePoint(7, false), KleePoint(9, true)]);
  }

  /** Only positions 7 and 8 are open: the depth is 0 on 5..6 and 1 on 7..8. */
  lemma OverlapCovered()
    ensures CoveredCount(OverlapVector, 5, 9) == 2
  {
    var v := OverlapVector;
    assert v[..1] == [v[0]];
    assert v[..2] == [v[0], v[1]];
    assert v[..3] == [v[0], v[1], v[2]];
    assert v[..1][..0] == [] && v[..2][..1] == v[..1] && v[..3][..2] == v[..2];
    assert Depth(v[..1]) == -1;
    assert Depth(v[..2]) == 0;
    assert Depth(v[..3]) == 1;
    forall c | 5 <= c < 7
      ensures CoverAt(v, c) == 0
    {
      CoverRun(v, 2, c);
    }
    forall c | 7 <= c < 9
      ensures CoverAt(v, c) == 1
    {
      CoverRun(v, 3, c);
    }
    CountRun(v, 5, 5, 7, 0);
    CountRun(v, 5, 7, 9, 1);
  }

  lemma OverlapAsWrittenCount()
    ensures OverlapAsWritten(OverlapVector, 1, 1) == 4
  {
  }

  /** Of positions 5..8, the spans measure 7 and 8, as the events count. */
  lemma OverlapMeasured()
    ensures MeasuredCount([Span(5, 5), Span(7, 9)], 5, 9) == 2
  {
    OverlapVectorSorted();
    OverlapVectorEvents();
    OverlapCovered();
    var spans := [Span(5, 5), Span(7, 9)];
    VectorMeasures(OverlapVector, spans);
    CountsAgree(OverlapVector, spans, 5, 9);
  }

  /**
   * OverlapReadings give the spans 5..5 and 7..9 on row 3 (OverlapSpanFirst, OverlapSpanSecond, RowSpansOfTwo), whose
   * events sort into OverlapVector. There the first event is an end, so a starting depth of 1
   * is one too many: the code as written counts 4 positions where only 7 and 8 lie in a span,
   * as the corrected count says.
   */
  lemma OverlapAsWrittenOvercounts()
    ensures SortedBy(OverlapVector, EventKey)
    ensures multiset(OverlapVector) == multiset(SpanEvents([Span(5, 5), Span(7, 9)]))
    ensures OverlapAsWritten(OverlapVector, 1, 1) == 4
    ensures CoveredCount(OverlapVector, 5, 9) == 2
    ensures MeasuredCount([Span(5, 5), Span(7, 9)], 5, 9) == 2
  {
    OverlapVectorSorted();
    OverlapVectorEvents();
    OverlapCovered();
    OverlapMeasured();
    OverlapAsWrittenCount();
  }

  /**
   * The merge of findVacantPointsSerially as written, from the merged span so far over the
   * rest: a span that starts right after spanSoFar ends is taken as a gap.
   */
  function MergeAsWritten(spanSoFar: Span, rest: seq<Span>): (gap: Option<int>)
    ensures gap.Some? ==> spanSoFar.end < gap.value
    decreases |rest|
  {
    if rest == [] then None
    else if rest[0].start <= spanSoFar.end then
      MergeAsWritten(if rest[0].end > spanSoFar.end then Span(spanSoFar.start, rest[0].end) else spanSoFar, rest[1..])
    else Some(spanSoFar.end + 1)
  }

  /** Row 0 of these readings holds the spans 0..0 and 1..1, which touch. */
  const AdjacentReadings := [Reading(Point(0, 1), Point(0, 2)), Reading(Point(1, 1), Point(1, 2))]

  /** The first of AdjacentReadings reaches row 0 at its edge: the span 0..0. */
  lemma AdjacentSpanFirst()
    ensures AdjacentReadings[0].SpanOnRow(0) == Some(Span(0, 0))
  {
  }

  /** The second of AdjacentReadings reaches row 0 at its edge: the span 1..1. */
  lemma AdjacentSpanSecond()
    ensures AdjacentReadings[1].SpanOnRow(0) == Some(Span(1, 1))
  {
  }

  /** Row 0 of AdjacentReadings is detected at 0 and at 1. */
  lemma AdjacentDetectedAt(y: int)
    requires 0 <= y <= 1
    ensures Detected(AdjacentReadings, Point(y, 0))
  {
    assert AdjacentReadings[y].sensor.ManhattanDist(Point(y, 0)) <= AdjacentReadings[y].Radius();
  }

  /** Row 0 of AdjacentReadings is detected nowhere but at 0 and 1. */
  lemma AdjacentDetectedOnly(y: int)
    requires Detected(AdjacentReadings, Point(y, 0))
    ensures 0 <= y <= 1
  {
    var k :| 0 <= k < 2 && AdjacentReadings[k].sensor.ManhattanDist(Point(y, 0)) <= AdjacentReadings[k].Radius();
  }

  /** Row 0 of AdjacentReadings is detected exactly at 0 and 1, with nothing missing between. */
  lemma AdjacentGapFree()
    ensures GapFree(AdjacentReadings, 0)
  {
    forall y
      ensures Detected(AdjacentReadings, Point(y, 0)) <==> 0 <= y <= 1
    {
      if 0 <= y <= 1 {
        AdjacentDetectedAt(y);
      }
      if Detected(AdjacentReadings, Point(y, 0)) {
        AdjacentDetectedOnly(y);
      }
    }
  }

  /**
   * The readings give the spans 0..0 and 1..1 on row 0 (so RowSpans of the two is these, by
   * RowSpansOfTwo). From them the code as written reports position 1 of row 0 as vacant, but
   * the second sensor detects it, and the row has no gap at all.
   */
  lemma MergeAsWrittenSplitsAdjacent()
    ensures AdjacentReadings[0].SpanOnRow(0) == Some(Span(0, 0))
    ensures AdjacentReadings[1].SpanOnRow(0) == Some(Span(1, 1))
    ensures MergeAsWritten(Span(0, 0), [Span(1, 1)]) == Some(1)
    ensures Detected(AdjacentReadings, Point(1, 0))
    ensures GapFree(AdjacentReadings, 0)
  {
    AdjacentSpanFirst();
    AdjacentSpanSecond();
    AdjacentDetectedAt(1);
    AdjacentGapFree();
  }
}
