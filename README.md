# Advent of Code 2022, days 14 and 15, in Dafny

A model of the core of `tastapod/advent2022`, a set of Go solutions to two Advent of Code
puzzles:

- **Day 14, "Regolith Reservoir"**: rock paths, given as lines such as `498,4 -> 498,6 -> 496,6`,
  are drawn into a cave map. Grains of sand then fall from `(500, 0)`: straight down, else down
  to the left, else down to the right. A grain settles where it can move no further, or it falls
  past the deepest rock. Part two adds a floor two rows below the deepest rock.
- **Day 15, "Beacon Exclusion Zone"**: sensor lines give a sensor and its closest beacon. Each
  sensor rules out a diamond of Manhattan radius. On one row the diamonds become spans of x
  positions. Klee's algorithm measures their union. A row-by-row merge of the spans finds the
  first position that no sensor rules out.

The modules follow the Go packages:

- `Pairs` (`pair/pair.go`)
- `Segments` (`segment/segment.go`)
- `Day14` (`day14/day14.go`)
- `InternalDay14` (`internal/day14/day14.go`, the earlier version that expands whole rectangles)
- `Day15` (`day15/day15.go`)

Small modules stand in for the Go library functions the code calls:

- `Text`: `strings.Split` and `strings.Cut`
- `Decimal`: `strconv.Atoi`, `strconv.Itoa` and the `%d` verb
- `Scan`: `fmt.Sscanf` and `fmt.Sprintf` with literal text and `%d`
- `Sorting`: `sort.Slice`, as a sort by an integer key
- `Wrappers`: `Option` for Go's `(value, bool)`, `Result` for `(value, error)`

State follows the Go code:

- `ObstacleMap` is a class whose `cells` map the methods update. Go maps are shared by
  reference.
- `Cave` is a class holding its obstacle map and its deepest rock row.
- Loops that build slices or maps are methods with loop invariants. Each is proved against a
  specification function or predicate: `Settle` for the fall of a grain, `Pour` and `Poured` for a fill, `RowSpans` for the
  spans of a row, `CoveredCount` and `MeasuredCount` for Klee's count, `GapAt` and `NoGap` for
  the merge.

## Model

| member | source | states |
|---|---|---|
| `Pairs.ZipWithNext` | pair/pair.go:7-15 | One pair per element and its successor, in order; consecutive pairs share a point. |
| `Segments.InOrder` | segment/segment.go:52-58 | Its two arguments, smaller first. |
| `Segments.InOrderSymmetric` | segment/segment.go:52-58 | The result does not depend on the order of the arguments. |
| `Segments.GridMembership` | segment/segment.go:29-33 | The points the nested loops append are exactly the integer points of the box. |
| `Segments.NewSegment` | segment/segment.go:21-35 | An error naming both points exactly when they share neither row nor column. Otherwise the corners are ordered smaller first, and the point list runs from corner to corner one step at a time along the shared row or column. |
| `Segments.Segment.Points` | segment/segment.go:37-41 | A fresh array holding the point list. |
| `Segments.Segment.Contains` | segment/segment.go:43-50 | True exactly when the point is in the list; for a built segment, exactly when it lies in the box. |
| `Segments.JoinsDistinct` | segment/segment.go:21-35 | A built segment lists no point twice. |
| `Segments.JoinsSinglePoint` | segment/segment.go:21-35 | A segment from a point to itself is that one point. |
| `Day14.ToSegments` | day14/day14.go:13-25 | Succeeds exactly when every consecutive pair is in line, with one segment per pair joining its points. Otherwise it gives the error of the first pair out of line. |
| `Day14.FirstBendAt` | day14/day14.go:17-20 | A pair out of line after straight pairs makes the path not straight, with that pair's error as its first bend error. |
| `Day14.ObstacleMap.PlotPoints` | day14/day14.go:70-72 | The map becomes the old map with each listed point set to the obstacle. |
| `Day14.ObstacleMap.PlotObstaclePath` | day14/day14.go:63-75 | On a bent path, the first bend's error and an unchanged map. Otherwise every point of every segment is set to the obstacle, and no other key is added or changed. |
| `Day14.FirstFree` | day14/day14.go:119-125 | The first unoccupied candidate, every earlier one occupied; None exactly when all are occupied. |
| `Day14.Settle` | day14/day14.go:111-132 | Where a grain comes to rest, if it does. The spot is free (or the start), inside the fall cone, not below the deepest row, and all three cells below it are occupied. |
| `Day14.FloorCatches` | day14/day14.go:117-129 | A full floor under the fall cone makes every free grain in the cone come to rest. |
| `Day14.FindDeepest` | day14/day14.go:161-168 | The largest of deepest and the rows of the path's points. |
| `Day14.Cave.constructor` | day14/day14.go:99-101 | An empty map with the deepest row at 0. |
| `Day14.Cave.ObstacleAt` | day14/day14.go:103-106 | True exactly when the cell holds rock or sand, as `isBlocked` (day14/day14.go:170-173) also asks; in a valid cave no cell below the deepest row is an obstacle. |
| `Day14.Cave.DropSandFrom` | day14/day14.go:108-132 | From a free start, the grain settles where `Settle` says, that cell alone becomes sand, and true comes back. From a blocked start or a fall-through: start, false and no change. |
| `Day14.Cave.FillWithSandFrom` | day14/day14.go:134-141 | The new map is the old one with the grains of `Pour` recorded as sand, and the count is the number of those grains. Old cells are kept, and every new cell is sand in the start's fall cone. It stops only once the start is blocked or a grain falls through. |
| `Day14.PourSettlesEach` | day14/day14.go:136-137 | Each grain of a pour drops from a free start and rests where `Settle` puts it, over the old cells plus the grains before it. |
| `Day14.PourFresh` | day14/day14.go:126-127 | Every grain of a pour rests in a cell that was free, inside the start's fall cone. |
| `Day14.PourEnds` | day14/day14.go:136-137 | After a pour the start is blocked, or a grain from it falls through. |
| `Day14.PourAdvance` | day14/day14.go:136-137 | After one settled grain the pour goes on from the new cells to the same final map, one grain shorter. |
| `Day14.PouredCells` | day14/day14.go:127 | Recording grains as sand keeps every other cell as it was and adds exactly the grains. |
| `Day14.EmptyCavePoursNothing` | day14/day14.go:129-131 | In an empty cave with deepest row 0, the first grain from (500, 0) falls through, so nothing is poured. |
| `Day14.Cave.ExpandPath` | day14/day14.go:152-159 | On a bent path, the error and no change. Otherwise the path is drawn in rock and the deepest row becomes the deepest of the old one and the path's points. |
| `Day14.Cave.BaselineAround` | day14/day14.go:175-178 | Two ends on the row two below the deepest, symmetric about the centre, wide enough for the whole fall cone of a start at row -1 or lower down. |
| `Day14.Cave.AddBaselineAround` | day14/day14.go:143-150 | The floor is drawn in rock without error, and the deepest row moves down by 2. Every cell of the floor under the centre's fall cone is occupied. |
| `Day14.FloorStopsFill` | day14/day14.go:134-150 | Under a floor, a grain from start is blocked or comes to rest, so filling ends only when the source is covered. |
| `Day14.NewCaveFromPaths` | day14/day14.go:88-101 | Without error exactly when every path is straight; the map then holds exactly the rock of all paths, and the deepest row is their deepest point (at least 0). Otherwise the first bad path's first bend error and an empty cave. |
| `Day14.FirstPathErrorAt` | day14/day14.go:91-93 | A bent path after straight ones gives the first path error, and not every path is straight. |
| `Day14.ParsePath` | day14/day14.go:36-45 | One point per `" -> "`-separated coordinate, in order. |
| `Day14.ParsePaths` | day14/day14.go:27-34 | One parsed path per line, in order. |
| `Day14.NewCaveFromStrings` | day14/day14.go:84-86 | The cave of the parsed paths, as `NewCaveFromPaths` states it. |
| `Day14.CoordRoundTrip` | day14/day14.go:41-42 | Parsing the text `x,y` of a point gives the point back. |
| `Day14.PathRoundTrip` | day14/day14.go:36-45 | Parsing the text of a path written as the puzzle writes it gives the path back. |
| `Day14.SampleRockPath` | day14/day14_test.go:22-39 | Drawing `498,4 -> 498,6 -> 496,6` fills its five points and not (497,4), (500,5) or (498,10). |
| `Day14.SampleFirstGrain` | day14/day14_test.go:68-74 | In the sample cave the first grain settles at (500, 8). |
| `Day14.SampleRestsOnRock` | day14/day14_test.go:68-74 | A grain at (500, 8) rests, as the three cells below it are rock of the second sample path. |
| `Day14.SampleBaseline` | day14/day14_test.go:96-101 | With deepest row 9 the floor runs from (488, 11) to (512, 11). |
| `Day14.SampleDeepest` | day14/day14_test.go:49-51 | The sample paths' deepest row is 9. |
| `InternalDay14.ObstacleMap.constructor` | internal/day14/day14.go:30 | A fresh empty map. |
| `InternalDay14.Segment.ExpandToMap` | internal/day14/day14.go:17-26 | The caller's map gains every point of the closed rectangle spanned by the two ends; every other key is kept. |
| `InternalDay14.ZipWithNext` | internal/day14/day14.go:38-46 | One segment from each point to the next, in order. |
| `InternalDay14.ExpandPath` | internal/day14/day14.go:28-36 | A fresh map holding exactly the union of the rectangles of consecutive points. |
| `InternalDay14.SinglePointCoversNothing` | internal/day14/day14.go:28-36 | A one-point path marks nothing, not even its point. |
| `InternalDay14.SampleRectangles` | internal/day14/day14_test.go:29-45 | The sample path fills its five points and not (497,4), (500,5) or (498,10). |
| `Text.Cut` | day14/day14.go:41 | The text before and after the first separator and true, or the whole text, "" and false when there is none. |
| `Text.SplitJoin` | day14/day14.go:37 | Splitting pieces joined by `" -> "` gives the pieces back when none contains a space. |
| `Text.CutAt` | day14/day14.go:41 | Cutting `x,y` at the comma gives `x` and `y` when `x` has no comma. |
| `Decimal.AtoiIntText` | day14/day14.go:47-52 | `strconv.Atoi` accepts the decimal text of every integer and reads the integer back. |
| `Decimal.ScanInt` | day15/day15.go:52-54 | `%d` reads a sign and every digit that follows, at least one. The text read is accepted by `Atoi`, gives the value, and is not followed by a digit. |
| `Decimal.ScanIntText` | day15/day15.go:52-54 | `%d` reads back the decimal text of any integer when no digit follows it. |
| `Scan.ScanLiteral` | day15/day15.go:52 | Succeeds exactly when the input starts with the literal, leaving the rest; fails with an input mismatch otherwise. |
| `Scan.Sscanf` | day15/day15.go:52-55 | On success, one value per `%d` verb. |
| `Scan.MismatchFirst` | day15/day15.go:52-56 | Input that does not start with the format's opening text is an input mismatch. |
| `Scan.ScanPrinted` | day15/day15.go:52-54 | Scanning what the same format prints gives back its values, when every `%d` is followed by non-digit text. |
| `Sorting.Insert` | day15/day15.go:110 | Inserting into a key-sorted sequence keeps it sorted and adds exactly that element. |
| `Sorting.SortByKey` | day15/day15.go:211-220 | A permutation of the input in ascending key order. |
| `Day15.AbsDiff` | day15/day15.go:41-47 | The distance between two integers: non-negative and one of the two differences. |
| `Day15.Point.ManhattanDist` | day15/day15.go:21-23 | A non-negative distance, zero exactly between equal points. |
| `Day15.ManhattanDistSymmetric` | day15/day15.go:21-23 | The distance from p to q is that from q to p. |
| `Day15.Reading.Radius` | day15/day15.go:25-27 | Non-negative, zero exactly when the sensor is on its beacon. |
| `Day15.Reading.SpanOnRow` | day15/day15.go:29-39 | Some exactly when the row is within the radius. The span is centred on the sensor's column. |
| `Day15.SpanOnRowExact` | day15/day15.go:29-39 | A position of the row is within the sensor's radius exactly when the row's span holds it. |
| `Day15.TuningFrequency` | day15/day15.go:196-198 | For 0 <= y < 4000000, dividing by four million gives x back and the remainder gives y. |
| `Day15.SampleRadius` | day15/day15_test.go:30-33 | The sensor at (2,18) with beacon (-2,15) has radius 7. |
| `Day15.SampleSpanOnRow` | day15/day15_test.go:35-43 | The sensor at (8,7) with beacon (2,10) covers 2..14 on row 10. |
| `Day15.SampleTuningFrequency` | day15/day15_test.go:81-83 | The tuning frequency of (14, 11) is 56000011. |
| `Day15.ReadingFormatShape` | day15/day15.go:52 | The sensor-line format has four `%d` verbs, each followed by non-digit text. |
| `Day15.ScanReading` | day15/day15.go:52-58 | Succeeds exactly when the line scans against the sensor-line format. |
| `Day15.NewReading` | day15/day15.go:49-59 | The scanned reading and no error, or the zero Reading and the scan error. |
| `Day15.ReadingRoundTrip` | day15/day15.go:49-59 | Every reading written in the input's format is read back exactly, without error. |
| `Day15.SampleBadLine` | day15/day15_test.go:18-20 | "Sensor at some other place" gives the zero Reading and an error. |
| `Day15.ReadEach` | day15/day15.go:67-77 | For any line reader: the items of all lines in order, or no items and the first failing line's error. |
| `Day15.ParseReadings` | day15/day15.go:67-77 | One reading per line in order when every line scans. Otherwise no readings and the error of the first line that does not scan. |
| `Day15.RowSpans` | day15/day15.go:103-107 | At most one span per reading, none running backwards. |
| `Day15.RowSpansOfTwo` | day15/day15.go:103-107 | Two readings that both reach the row give their two spans, in reading order. |
| `Day15.RowSpansDetect` | day15/day15.go:103-107 | The spans of a row cover exactly the positions that some sensor sees. |
| `Day15.CoversPermutation` | day15/day15.go:110 | Reordering the spans does not change what they cover. |
| `Day15.BeaconSpans` | day15/day15.go:181-194 | Zero-width spans, each at a beacon on the row. |
| `Day15.BeaconSpansHold` | day15/day15.go:181-194 | Every beacon's zero-width span is listed for its own row. |
| `Day15.MapOfBeaconsByRow` | day15/day15.go:181-194 | A row is a key exactly when a beacon lies on it, and maps to its beacons' spans in reading order. |
| `Day15.BeaconInOwnSpan` | day15/day15.go:99-107 | A beacon lies in its own sensor's span on the beacon's row. |
| `Day15.CopyInto` | day15/day15.go:100 | Go's `copy`: the length of the destination is kept, and its first elements are overwritten by the source's. |
| `Day15.SpanEvents` | day15/day15.go:203-209 | Two events per span. |
| `Day15.EventKeyOrder` | day15/day15.go:211-220 | The sort key orders by position, ends before starts at one position, and is equal only for equal events. |
| `Day15.SortedByKeyIsSortedX` | day15/day15.go:211-220 | A vector sorted by the key is sorted by position. |
| `Day15.BuildKleeVector` | day15/day15.go:200-222 | Exactly the start and end events of the row's spans, sorted by the comparator's order. |
| `Day15.CoverAtPermutation` | day15/day15.go:211-222 | The number of spans open at a position does not depend on the order of the events. |
| `Day15.CalculateOverlappingLength` | day15/day15.go:224-240 | Non-negative, and 0 for fewer than two events. For a position-sorted vector it is the number of positions between the first and last event where some span is open. |
| `Day15.CoverAtEvents` | day15/day15.go:203-209 | At each position, the events of forward spans count the spans open there. |
| `Day15.CountsAgree` | day15/day15.go:224-240 | When the events are open exactly where the spans measure, the two counts agree. |
| `Day15.WindowIndependent` | day15/day15.go:83-86 | Every window holding all spans counts the same positions. |
| `Day15.VectorMeasures` | day15/day15.go:83-86 | A vector holding the events of forward spans is open exactly where the spans measure. |
| `Day15.VectorEncloses` | day15/day15.go:83-86 | A sorted vector of the events runs from below every span to above it. |
| `Day15.SumOverlappingSegmentLengths` | day15/day15.go:83-86 | The number of positions of the row lying in the half-open range of some sensor's span, over any window that holds all the spans. This uses the corrected `CalculateOverlappingLength` from "## Findings"; the code as written can count more (`OverlapAsWrittenOvercounts`). |
| `Day15.MergeStep` | day15/day15.go:115-121 | Merging a span that starts at or before one past the merged end keeps the merged span equal to the union so far. |
| `Day15.GapFound` | day15/day15.go:122-125 | A span starting beyond one past the merged end leaves the first gap just after it. |
| `Day15.FirstGap` | day15/day15.go:113-126 | For sorted forward spans, the first gap, or none when they cover one unbroken range. |
| `Day15.AppendRowSpans` | day15/day15.go:103-107 | The given spans followed by the spans the readings make on the row. |
| `Day15.GapIsVacant` | day15/day15.go:122-124 | The first gap of a row's spans is a position no sensor sees, with a seen position before it and after it. |
| `Day15.NoGapIsGapFree` | day15/day15.go:113-126 | When a row's spans cover one range, no unseen position lies between two seen ones. |
| `Day15.FindVacantPointsSerially` | day15/day15.go:92-131 | The first gap of the first row below the limit that has one, every earlier row being gap-free. Otherwise the zero Point and false, with every row gap-free. This uses the corrected merge `FirstGap` from "## Findings"; the code as written can report a seen position (`MergeAsWrittenSplitsAdjacent`). |
| `Day15.OverlapAsWritten` | day15/day15.go:224-240 | The loop as written from a given index and depth; never negative. |
| `Day15.AsWrittenFrom` | day15/day15.go:228-238 | For a vector sorted by position, the loop from index i with the depth of the events before i adds the open positions from event i - 1 to the last event. |
| `Day15.AsWrittenMeasures` | day15/day15.go:224-240 | When the first event of a sorted vector is a start, the code as written gives the number of open positions between the first and last event, as the corrected count does. |
| `Day15.OverlapSpanFirst` | day15/day15.go:29-39 | The sensor (5,0) with beacon (5,3) reaches row 3 only at 5: the span 5..5. |
| `Day15.OverlapSpanSecond` | day15/day15.go:29-39 | The sensor (8,3) with beacon (9,3) covers 7..9 of row 3. |
| `Day15.OverlapAsWrittenOvercounts` | day15/day15.go:226 | For the events of 5..5 and 7..9, sorted by the comparator, the code as written gives 4 where 2 positions are measured. |
| `Day15.MergeAsWritten` | day15/day15.go:113-126 | The merge as written: a reported gap lies beyond the merged span. |
| `Day15.AdjacentSpanFirst` | day15/day15.go:29-39 | The sensor (0,1) with beacon (0,2) reaches row 0 only at 0: the span 0..0. |
| `Day15.AdjacentSpanSecond` | day15/day15.go:29-39 | The sensor (1,1) with beacon (1,2) reaches row 0 only at 1: the span 1..1. |
| `Day15.AdjacentGapFree` | day15/day15.go:113-126 | Row 0 of the adjacent readings is seen at 0 and 1, with no gap. |
| `Day15.MergeAsWrittenSplitsAdjacent` | day15/day15.go:118 | For the spans 0..0 and 1..1 the code as written reports position 1 as vacant, yet a sensor sees it and the row has no gap. |

## Left out

- Goroutines and channels: `FindVacantPoint`, `findVacantPointsWithGoroutines` and the channel pipeline `ExpandPathToChannel` of `internal/day14/day14.go` are concurrent. Only their serial counterparts are modelled.
- `main.go` and reading the puzzle input from files are not modelled. The test helper `check/check.go` is not modelled either.
- Go's `int` is 64 bits wide; the model uses unbounded integers. Overflow cannot arise at puzzle sizes, except in `TuningFrequency` for x beyond about 2^41.
- Error messages: the error of `NewSegment` carries its two points instead of the formatted text. A `Sscanf` error is one of two kinds, input mismatch and expected integer.
- `Decimal.ScanInt`: `Sscanf`'s `%d` also skips leading spaces and fails past 64 bits; the model reads an optional sign and decimal digits only. The sensor lines have none of those.
- `toInt` panics on text `strconv.Atoi` rejects. `Day14.ParsePath` requires well-formed coordinates instead of modelling the panic.
- `Pairs.ZipWithNext` and `Day14.ToSegments` require a non-empty path, as `ts[1:]` panics on an empty slice.
- `InternalDay14.ZipWithNext` and `InternalDay14.ExpandPath` require at least one point, as `points[1:]` (internal/day14/day14.go:39) panics on an empty slice.
- `Day14.ObstacleMap.PlotObstaclePath`, `Day14.Cave.ExpandPath` and `Day14.NewCaveFromPaths` inherit that requirement: every path they draw has at least one point.
- `Scan.ScanLiteral` matches the literal character for character, where a space in an `Sscanf` format matches any run of spaces; Go's "unexpected EOF" error is folded into the input-mismatch and expected-integer kinds.
- `Day15.FindVacantPointsSerially` requires that every row the search reaches meets some sensor's range. `spans[0]` panics on a row that none reaches.
- `Day14.NewCaveFromPaths` returns an empty cave on error, where Go returns the zero `Cave{}` with a nil map.
- `Day15.CalculateOverlappingLength` states the count only for a vector sorted by position, which is what `BuildKleeVector` makes. On other input it promises only a non-negative result.
- `Sorting.SortByKey`: `sort.Slice` is not stable, and the comparator of `buildKleeVector` reports an end event as less than itself. The model sorts by the key the comparator intends and promises nothing about the order of equal keys. Nothing downstream depends on it.
- `Day15.Reading.SpanOnRow` returns None where Go returns the zero Span and false.
- In `findVacantPointsSerially`, `copy` into the zero-length slice copies nothing, so the beacon spans never reach the merge. `Day15.CopyInto` models that. It is harmless: `Day15.BeaconInOwnSpan` shows that each beacon already lies in its own sensor's span.
- The parse loop of `ParseReadings` is stated once for any line reader, in `Day15.ReadEach`. The merge loop and the span-collecting loop of `findVacantPointsSerially` are the helper methods `Day15.FirstGap` and `Day15.AppendRowSpans`.
- The whole-sample answers of the tests (24 and 93 grains, 26 positions, the point (14, 11)) are not proved. They need the full simulation on the sample, which is far beyond what the solver evaluates on constants. The first grain, the floor ends and the single-reading facts are proved.
- Parsing the full sample text is proved only in general, by `Day14.PathRoundTrip` and `Day15.ReadingRoundTrip`, not on the literal sample lines.

## Findings

| source | as written | input that shows it | evidently intended | confidence | as-written member | corrected member |
|---|---|---|---|---|---|---|
| day15/day15.go:226 | The depth starts at 1, as if the first event of the sorted vector were always a start. Ends sort before starts at one position, so a zero-width span at the smallest position puts its end first. | Sensors (5,0) with beacon (5,3) and (8,3) with beacon (9,3), row 3: spans 5..5 and 7..9, vector [end 5, start 5, start 7, end 9]. The code counts 4; positions 7 and 8 are the only ones measured. | The depth after the first event: 1 for a start, -1 for an end. | not executed | `Day15.OverlapAsWrittenOvercounts` | `Day15.CalculateOverlappingLength` |
| day15/day15.go:118 | A span is merged only when it starts at or before the merged end. A span starting right after the merged end is reported as a gap. | Sensors (0,1) with beacon (0,2) and (1,1) with beacon (1,2), row 0: spans 0..0 and 1..1. The code reports (1, 0) as vacant, but the second sensor sees it. | Merge when the span starts at or before one past the merged end, since positions are integers. | not executed | `Day15.MergeAsWrittenSplitsAdjacent` | `Day15.FirstGap` |
