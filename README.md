# Scan-line polygon rasterizer of polygon_canvas, in Dafny

This project models the polygon rasterizer of the `polygon_canvas` Rust
crate and proves properties of the model. The crate has two rewrites of
one scan-line algorithm built on a New Edge Table (NET) and an Active
Edge Table (AET):

- `polygon_interior` (src/algorithms/scan_line.rs) builds a
  height-by-width boolean mask. For each row it sweeps the columns with an
  index into the sorted crossings and a running total.
- `fill_polygon` (src/algorithms/fill_polygon.rs) updates an image in
  place. For each row it turns the crossings into half-open column spans
  (sort, prefix sum, dedup, pair) and blends the pixels of those spans.

Below both sit the geometry of lines and polygons, the rounding helpers
and the canvas sizing.

Modules, one per file:

| file | module | models |
|---|---|---|
| `wrappers.dfy` | `Wrappers` | `Option` |
| `nums.dfy` | `Nums` | src/nums.rs: `Round`, `RoundToUsize`, and the `as usize` casts (a float cast saturates at 0, an integer cast wraps modulo 2^64; the rasterizers use the saturating float cast for every polygon, see "## Left out") |
| `geometry.dfy` | `Geometry` | src/geometry/point.rs and line.rs |
| `polygon.dfy` | `Polygons` | src/geometry/polygon.rs; `Polygon` is a class whose `vertices` field `AddPoint` appends to |
| `canvas.dfy` | `Canvas` | src/canvas.rs: `CanvasSpec`, `from_spec`, `get_spec`, the RGBA buffer layout |
| `edge_table.dfy` | `EdgeTable` | what both rasterizers share: `ScanlineEdge` (generic in its orientation field), `from_line`, `shift_down`, `net_from_polygon`, and the closed form of an AET |
| `crossings.dfy` | `Crossings` | `FillRule` and `check`, the sort of a row's crossings by x, and the weighted count of crossings at or left of a column |
| `scan_line.dfy` | `ScanLine` | `polygon_interior`, with the row loop and the column sweep over an `array2<bool>` |
| `fill_polygon.dfy` | `FillPolygon` | `fill_polygon`: the row loop, the span pipeline, and the in-place painting of an `array2<P>` |
| `scan_line_examples.dfy`, `fill_polygon_examples.dfy` | `ScanLineExamples`, `FillPolygonExamples` | the scenarios of the two files' tests |
| `fill_polygon_findings.dfy` | `FillPolygonFindings` | a side whose upper y is not an integer: the row `fill_polygon` misses as written, and the rows an edge covers with the ceiling instead of the floor |

Main results:

- **scan_line.rs, AET.** The AET of row `r` holds exactly the edges keyed
  at rows `k <= r` with `r <= y_max`, each moved `r - k` steps. The mask
  entry is `check` applied to the weighted count of crossings at or left
  of the column.
- **scan_line.rs, NonZero.** Every crossing weighs +1, so an entry is set
  exactly when some crossing lies at or left of its column. This holds
  also to the right of the polygon: every column of the test square's
  rows is set, however far right.
- **fill_polygon.rs, AET.** The AET of row `r` holds the edges keyed at
  `r`, plus those keyed earlier with `r < y_max`.
- **fill_polygon.rs, spans.** A painted pixel always satisfies the rule
  for the signed sum of the crossings at or left of it. The converse holds
  whenever the row's total does not satisfy the rule. Under EvenOdd that
  is every row with an even number of crossings. Under NonZero it is
  every row whose crossings all close again, as in every row of the test
  polygons. A vertex at a non-integer y can leave a row of a closed
  polygon with an unmatched crossing and nothing painted (see
  "## Findings").
- **fill_polygon.rs, painting.** `FillPolygon` changes exactly the painted
  pixels, each once.

The source's `f64` and integer coordinates are exact reals here.

In these places the model follows the code as written:

- **scan_line.rs sign mapping.** Under NonZero every crossing counts +1
  (not its direction). Under EvenOdd the crossing's orientation gives ±1.
- **Span bounds.** `fill_polygon` does not keep spans inside the image by
  construction. A vertex right of the image can make `get_pixel_mut` panic,
  so `FillPolygon` requires every vertex to have `x <= width`.
- **Canvas fields.** scan_line.rs reads `spec.x` and `spec.y`, which
  `CanvasSpec` does not have. The model reads them as `width` and
  `height`.

## Model

| member | source | states |
|---|---|---|
| Nums.FloatFloor | src/nums.rs:21-23 | `floor` is the greatest integer not above x |
| Nums.FloatCeil | src/nums.rs:17-19 | `ceil` is the least integer not below x |
| Nums.FloatRound | src/nums.rs:13-15 | `round` is within one half of x, with halfway cases rounded away from zero |
| Nums.IntInstanceAgreesWithFloat | src/nums.rs:29-50 | the integer instance (identity) computes what round, ceil and floor compute on an integral value |
| Nums.FloatAsUsize | src/nums.rs:62-70 | a float's `as usize` keeps a non-negative integral value and saturates a negative one at 0 |
| Nums.IntAsUsize | src/nums.rs:58-70 | an integer's `as usize` keeps values in range and wraps a negative one by adding 2^64 |
| Nums.CeilToUsizeAtMost | src/nums.rs:65-67 | `ceil_to_usize(x) <= c` exactly when `x <= c`, for every column c |
| Nums.CeilToUsizeMonotone | src/nums.rs:65-67 | `ceil_to_usize` is monotone |
| Nums.FloorToUsizeAtLeast | src/nums.rs:68-70 | `floor_to_usize(x) >= r` exactly when `x >= r`, for every positive row r |
| Nums.UsizeCastsAgree | src/nums.rs:58-71 | float and integer casts agree on non-negative values below 2^64 |
| Nums.RoundingOfFivePointSeven | src/nums.rs:77-91 | 5.7 rounds to 6, ceils to 6 and floors to 5 |
| Nums.IntegersUnchanged | src/nums.rs:93-123 | 42 and 100 are unchanged by all three integer operations |
| Geometry.NewLine | src/geometry/line.rs:12-14 | `Line::new` keeps both endpoints |
| Geometry.InvSlope | src/geometry/line.rs:21-27 | no slope exactly for a horizontal line; otherwise slope times rise equals run |
| Geometry.YMinPoint | src/geometry/line.rs:34-40 | an endpoint whose y is at most both ys, `start` on a tie |
| Geometry.YMaxPoint | src/geometry/line.rs:42-48 | an endpoint whose y is at least both ys, `start` on a tie |
| Geometry.InvSlopeSymmetric | src/geometry/line.rs:21-27 | reversing a line leaves its inverse slope unchanged |
| Geometry.MinMaxPointsPartition | src/geometry/line.rs:34-48 | for a non-horizontal line the lower and upper endpoints are the two endpoints, lower strictly below |
| Geometry.InvSlopeFromLowerPoint | src/geometry/line.rs:21-48 | the slope also relates the rise and run from the lower to the upper endpoint |
| Geometry.LineExamples | src/geometry/line.rs:55-94 | the line tests: construction, slope 3, no slope for a horizontal line, lower and upper endpoints |
| Polygons.PointsOfAt | src/geometry/polygon.rs:31-38 | a flat list of 2n coordinates gives n vertices, vertex i being `(v[2i], v[2i+1])` |
| Polygons.EdgesOfAt | src/geometry/polygon.rs:46-52 | n vertices give n edges, edge i running from vertex i to vertex (i+1) mod n |
| Polygons.SmallPolygonEdges | src/geometry/polygon.rs:46-52 | no vertices give no edges; one vertex gives the degenerate edge from it to itself |
| Polygons.Polygon.constructor | src/geometry/polygon.rs:20-24 | a new polygon has no vertices |
| Polygons.Polygon.AddPoint | src/geometry/polygon.rs:41-44 | appends exactly the one vertex and keeps the earlier ones |
| Polygons.Polygon.Edges | src/geometry/polygon.rs:46-52 | one edge per vertex, from each vertex to the next, the closing edge last |
| Polygons.FromVec | src/geometry/polygon.rs:26-39 | `None` exactly for an odd count of coordinates; otherwise a fresh polygon with the pairs as vertices |
| Canvas.NewSpec | src/canvas.rs:15-17 | keeps width and height |
| Canvas.FromSpec | src/canvas.rs:31-37 | a buffer of width * height * 4 entries, all zero, whose spec reads back unchanged |
| Canvas.PixelIndex | src/canvas.rs:22-25 | channel c of pixel (row, col) sits at `(row * width + col) * 4 + c`, inside the buffer, and the index gives back row, column and channel |
| Canvas.PixelIndexInjective | src/canvas.rs:22-25 | distinct (pixel, channel) positions occupy distinct entries |
| Canvas.CanvasCreationExample | src/canvas.rs:85-92 | a 10-by-20 canvas reports its size and holds 800 entries |
| EdgeTable.FromLineWith | src/algorithms/fill_polygon.rs:23-44 | no edge exactly for a horizontal line or one whose ends ceil to the same row; otherwise `y_max = floor(max y) >= key`, step times rise equals run, and the orientation is that of start to end |
| EdgeTable.FromLineIntercept | src/algorithms/fill_polygon.rs:34-37 | the first intercept lies on the line at row `ceil(y_min)` |
| EdgeTable.AdvancedIntercept | src/algorithms/fill_polygon.rs:36-47 | after n steps the intercept is the lower endpoint's x plus the slope times the rise to row `ceil(y_min) + n` |
| EdgeTable.AdvancedOnSegment | src/algorithms/fill_polygon.rs:34-47 | on the first row and on every row up to `y_max` the intercept lies between the endpoints' x |
| EdgeTable.ShiftDown | src/algorithms/fill_polygon.rs:46-48 | `shift_down` moves x by `delta_x` and changes no other field |
| EdgeTable.ShiftDownAdvanced | src/algorithms/fill_polygon.rs:46-48 | n + 1 shifts of an edge are one shift of n shifts |
| EdgeTable.NetFromPolygon | src/algorithms/fill_polygon.rs:61-74 | the loop builds the table `NetOf` of the polygon's edges |
| EdgeTable.NetOfIsKeyedEdges | src/algorithms/fill_polygon.rs:61-74 | every row of the table holds exactly the edges of the lines keyed at it, in traversal order; a row is present only when non-empty |
| EdgeTable.KeyedEdgesOrigin | src/algorithms/fill_polygon.rs:61-74 | every edge in a row comes from a kept line with that key |
| EdgeTable.NetEdgeLine | src/algorithms/fill_polygon.rs:61-74 | every edge in a row of the table is the edge of some kept line whose key is that row |
| EdgeTable.KeyedEdgesComplete | src/algorithms/fill_polygon.rs:61-74 | every kept line's edge is in the row of its key |
| EdgeTable.LayersMembers | src/algorithms/fill_polygon.rs:111-116 | the closed form of an AET holds exactly the edges keyed before a row that last long enough, each moved by the rows since its key |
| EdgeTable.LayersOrigin | src/algorithms/fill_polygon.rs:111-116 | every edge of the closed form is some keyed edge, surviving the bound, moved by the rows since its key |
| EdgeTable.LayersMember | src/algorithms/fill_polygon.rs:111-116 | every keyed edge that survives the bound is in the closed form, moved by the rows since its key |
| EdgeTable.LayersReadOnlyEarlierRows | src/algorithms/fill_polygon.rs:111-116 | the closed form reads only the table's rows before its bound |
| Crossings.CheckFacts | src/algorithms/fill_polygon.rs:85-92 | zero is outside under both rules, ±1 inside, and EvenOdd accepts exactly the odd totals |
| Crossings.SortByX | src/algorithms/fill_polygon.rs:126 | the crossings sorted ascending by x, a permutation of the input |
| Crossings.SumLeSort | src/algorithms/fill_polygon.rs:126 | sorting does not change the weighted count at or left of a column |
| Crossings.SumAllSort | src/algorithms/fill_polygon.rs:126 | sorting does not change a row's total |
| Crossings.SumLeSortedPrefix | src/algorithms/scan_line.rs:121-127 | in a sorted list, the prefix of the crossings at or left of c carries the weighted count at c |
| Crossings.UnitWeightsParity | src/algorithms/scan_line.rs:82-89 | with ±1 weights the count at c has the parity of the number of crossings at c |
| Crossings.PositiveWeightsCount | src/algorithms/scan_line.rs:47-52 | with +1 weights the weighted count is the number of crossings at or left of c |
| Crossings.CountLePositive | src/algorithms/scan_line.rs:124 | that number is positive exactly when some crossing is at or left of c |
| ScanLine.FromLine | src/algorithms/scan_line.rs:20-41 | as `FromLineWith`, with `is_upwards` exactly when start.y < end.y |
| ScanLine.AetClosedForm | src/algorithms/scan_line.rs:103-108 | shift, extend, retain `y_max >= row` leaves the closed form with bound `row` |
| ScanLine.AetStep | src/algorithms/scan_line.rs:103-108 | one row of shift, extend and retain carries the closed form of row r - 1 to that of row r |
| ScanLine.ActiveEdges | src/algorithms/scan_line.rs:103-108 | an edge keyed at k is active exactly on rows k to `y_max` inclusive, moved `r - k` steps |
| ScanLine.AetReadsRowsUpTo | src/algorithms/scan_line.rs:103-108 | the AET of row r depends only on the table's rows up to r |
| ScanLine.EmptyRowIsOutside | src/algorithms/scan_line.rs:109-111 | a row with an empty AET is false in every column |
| ScanLine.EvenOddCell | src/algorithms/scan_line.rs:47-52 | under EvenOdd a cell is set exactly when an odd number of crossings lie at or left of it |
| ScanLine.NonZeroCell | src/algorithms/scan_line.rs:47-52 | under NonZero a cell is set exactly when some AET edge lies at or left of it |
| ScanLine.SweepRow | src/algorithms/scan_line.rs:121-129 | the column sweep sets every column of the row to `check` of the weighted count at it; other rows unchanged |
| ScanLine.FillRow | src/algorithms/scan_line.rs:109-129 | the row of the mask becomes the cell verdict of its AET in every column, false when the AET is empty; other rows unchanged |
| ScanLine.PolygonInterior | src/algorithms/scan_line.rs:91-133 | a fresh height-by-width mask whose every entry is the sweep's verdict for the AET of its row |
| ScanLineExamples.SideActive | src/algorithms/scan_line.rs:103-108 | the edge of a kept polygon side is in the AET of every row from its key to its `y_max` |
| ScanLineExamples.ActiveSide | src/algorithms/scan_line.rs:103-108 | every AET edge is the edge of a kept side, moved by the rows since its key |
| ScanLineExamples.SquareLeftSide | src/algorithms/scan_line.rs:139-149 | the square's left side is active at x = 0 on rows 0 to 9 |
| ScanLineExamples.SquareCell | src/algorithms/scan_line.rs:139-149 | every column of the square's rows 0 to 9 is set |
| ScanLineExamples.SquareIsFilled | src/algorithms/scan_line.rs:139-161 | the full-square tests: [0,0], [9,0], [5,5], [0,7] are set |
| ScanLineExamples.TriangleSides | src/algorithms/scan_line.rs:163-174 | the triangle's bottom gives no edge, its two other sides are keyed at 0 and last to row 9 |
| ScanLineExamples.TriangleSlantedSide | src/algorithms/scan_line.rs:163-174 | row r holds the slanted side at x = 7r/9 |
| ScanLineExamples.LastRowMeet | src/algorithms/scan_line.rs:163-174 | on row 9 every AET edge of the triangle is at x = 7 |
| ScanLineExamples.TriangleLastRow | src/algorithms/scan_line.rs:163-174 | row 9 of the triangle is unset left of column 7 |
| ScanLineExamples.TriangleSetAt | src/algorithms/scan_line.rs:163-174 | a column at or right of the slanted side is set |
| ScanLineExamples.TriangleIsFilled | src/algorithms/scan_line.rs:163-186 | the triangle tests: [0,1], [5,5], [8,7] set and [9,0] unset |
| FillPolygon.FromLine | src/algorithms/fill_polygon.rs:23-44 | as `FromLineWith`, with `direction` +1 exactly when start.y < end.y and -1 otherwise |
| FillPolygon.UnitContributions | src/algorithms/fill_polygon.rs:50-55 | the crossings of edges of direction ±1 contribute ±1 under both rules |
| FillPolygon.AetClosedForm | src/algorithms/fill_polygon.rs:111-116 | shift, retain `y_max > row`, extend leaves the closed form with bound row + 1, followed by the row's new edges |
| FillPolygon.AetStep | src/algorithms/fill_polygon.rs:111-116 | one row of shift, retain and extend carries the closed form of row r - 1 to that of row r |
| FillPolygon.ActiveEdges | src/algorithms/fill_polygon.rs:111-116 | an edge keyed at k is active exactly on rows r with `k <= r < max(k + 1, y_max)`, moved `r - k` steps |
| FillPolygon.AetReadsRowsUpTo | src/algorithms/fill_polygon.rs:111-116 | the AET of row r depends only on the table's rows up to r |
| FillPolygon.Scan | src/algorithms/fill_polygon.rs:127-130 | one boundary per crossing, at the crossing's x |
| FillPolygon.ScanFlags | src/algorithms/fill_polygon.rs:127-130 | each boundary's flag is `check` of the prefix sum ending at it |
| FillPolygon.DedupAfter | src/algorithms/fill_polygon.rs:133 | keeps only boundaries of the input, no more of them than the input has; adjacent flags differ, and the first differs from the last kept |
| FillPolygon.Dedup | src/algorithms/fill_polygon.rs:133 | keeps the first boundary and only boundaries of the input, no more of them than the input has; adjacent flags differ |
| FillPolygon.Tuples | src/algorithms/fill_polygon.rs:135 | consecutive pairs, the unpaired last element dropped |
| FillPolygon.InsideAtScan | src/algorithms/fill_polygon.rs:127-130 | on sorted crossings, the flag of the last boundary at or left of c is `check` of the count at c |
| FillPolygon.InsideAtDedup | src/algorithms/fill_polygon.rs:133 | dedup does not change the flag in force at any x |
| FillPolygon.DedupSorted | src/algorithms/fill_polygon.rs:133 | dedup keeps the boundaries sorted |
| FillPolygon.DedupScanAlternates | src/algorithms/fill_polygon.rs:127-133 | with ±1 contributions the deduplicated boundaries open at even positions and close at odd ones |
| FillPolygon.CoveredPairs | src/algorithms/fill_polygon.rs:134-135 | a column is in a pair exactly when an opening boundary is in force at it and it is not past an unpaired last boundary |
| FillPolygon.BoundariesOfSortedRow | src/algorithms/fill_polygon.rs:126-133 | the boundaries are sorted and each lies at some crossing's x |
| FillPolygon.SpansMeaning | src/algorithms/fill_polygon.rs:122-135 | a covered column satisfies the rule for the count at it; when the row total is rejected, coverage and the rule agree |
| FillPolygon.ClosedRowEvenBoundaries | src/algorithms/fill_polygon.rs:127-135 | when the row total is rejected no boundary is left unpaired |
| FillPolygon.SpansOrdered | src/algorithms/fill_polygon.rs:122-135 | each span has low <= high and spans are disjoint and ascending |
| FillPolygon.SpansWithin | src/algorithms/fill_polygon.rs:134-135 | crossings at or left of the width give spans ending at or before the width |
| FillPolygon.AetOrigin | src/algorithms/fill_polygon.rs:111-116 | every AET edge is a polygon side's edge moved to the current row |
| FillPolygon.AetUnitContributions | src/algorithms/fill_polygon.rs:38 | every crossing of a polygon's AET contributes +1 or -1 |
| FillPolygon.SortedCrossingsWithin | src/algorithms/fill_polygon.rs:122-126 | sorting keeps every crossing at or left of the width when every edge's x is |
| FillPolygon.AetWithin | src/algorithms/fill_polygon.rs:111-116 | vertices at or left of a width keep every AET intercept at or left of it |
| FillPolygon.EmptyRowHasNoSpans | src/algorithms/fill_polygon.rs:117-120 | an empty AET yields no spans |
| FillPolygon.PaintedMeaning | src/algorithms/fill_polygon.rs:111-141 | a painted pixel satisfies the rule for its winding count; when the row total is rejected, painted exactly when it does |
| FillPolygon.EvenOddPainted | src/algorithms/fill_polygon.rs:53 | under EvenOdd a painted pixel has an odd number of crossings at or left of it, and with an even-sized AET that is exact |
| FillPolygon.RowSpansFit | src/algorithms/fill_polygon.rs:122-142 | a polygon inside the width gives spans within the row, ascending and disjoint |
| FillPolygon.PaintSpans | src/algorithms/fill_polygon.rs:140-151 | exactly the covered pixels of the row are painted once; all others unchanged |
| FillPolygon.PaintRow | src/algorithms/fill_polygon.rs:117-151 | exactly the painted pixels of the row change |
| FillPolygon.FillPolygon | src/algorithms/fill_polygon.rs:94-153 | every pixel is painted once if `Painted` and unchanged otherwise |
| FillPolygonExamples.NetOfPush | src/algorithms/fill_polygon.rs:66-71 | one more line pushes its edge, if any, onto the row of its key |
| FillPolygonExamples.SquareNet | src/algorithms/fill_polygon.rs:171-182 | the square's table holds its two vertical sides under row 0 |
| FillPolygonExamples.SquareAet | src/algorithms/fill_polygon.rs:171-182 | both sides are active unmoved on rows 0 to 9 |
| FillPolygonExamples.SquarePixel | src/algorithms/fill_polygon.rs:171-182 | every pixel of rows 0 to 9 and columns 0 to 7 is painted |
| FillPolygonExamples.SquareIsFilled | src/algorithms/fill_polygon.rs:171-195 | the full-square tests: (0,0), (9,0), (5,5), (0,7) painted |
| FillPolygonExamples.TriangleNet | src/algorithms/fill_polygon.rs:197-210 | the triangle's table holds its vertical side and its diagonal under row 0 |
| FillPolygonExamples.TriangleAet | src/algorithms/fill_polygon.rs:197-210 | at row r the diagonal has moved to 0.8r |
| FillPolygonExamples.TriangleRow | src/algorithms/fill_polygon.rs:197-210 | row r is painted exactly from 0.8r up to 8 |
| FillPolygonExamples.OpenCloseRow | src/algorithms/fill_polygon.rs:122-151 | a row whose AET is an upward edge and, at or left of it, a downward one is painted under NonZero exactly on the columns between them |
| FillPolygonExamples.TriangleIsFilled | src/algorithms/fill_polygon.rs:197-223 | the triangle tests: (0,0), (0,1), (5,5), (0,7), (8,7) painted, (9,0) unchanged |
| FillPolygonExamples.HexagonNet | src/algorithms/fill_polygon.rs:225-239 | the self-intersecting hexagon's table holds two sides under row 0 and two under row 3 |
| FillPolygonExamples.HexagonAet | src/algorithms/fill_polygon.rs:225-239 | the AET of row 7 holds those four sides moved to row 7 |
| FillPolygonExamples.HexagonCrossings | src/algorithms/fill_polygon.rs:225-256 | row 7's crossings total 0 with -2 left of column 10 under NonZero, and 4 with 2 under EvenOdd |
| FillPolygonExamples.HexagonNonZero | src/algorithms/fill_polygon.rs:225-239 | (7,10) is painted under NonZero |
| FillPolygonExamples.HexagonEvenOdd | src/algorithms/fill_polygon.rs:241-256 | (7,10) is unchanged under EvenOdd |
| FillPolygonFindings.WrittenActiveRows | src/algorithms/fill_polygon.rs:111-116 | as written, a side's edge is active on row r exactly when `y_min <= r` and either r is its key row or a whole row fits below its upper y (`r + 1 <= y_max`) |
| FillPolygonFindings.NotchSideEndsEarly | src/algorithms/fill_polygon.rs:34-37 | the side from (0, 2.5) to (0, 0) covers y = 2, yet its edge has `y_max` 2 and is not active on row 2 |
| FillPolygonFindings.NotchNet | src/algorithms/fill_polygon.rs:61-74 | the Notch's table: its right side and lower left side under row 0, its upper left side under row 3 |
| FillPolygonFindings.AetAfterFirstRow | src/algorithms/fill_polygon.rs:111-116 | with no edges keyed between row 0 and row r, the AET of row r is row 0's edges that reach row r + 1, then row r's own |
| FillPolygonFindings.NotchAet | src/algorithms/fill_polygon.rs:111-116 | the Notch's AET holds both sides on rows 1 and 3, but only the right side on row 2 |
| FillPolygonFindings.OneCrossingNoSpan | src/algorithms/fill_polygon.rs:122-135 | a row with at most one crossing yields no span |
| FillPolygonFindings.NotchRowTwoBlank | src/algorithms/fill_polygon.rs:111-151 | no pixel of the Notch's row 2 is painted under NonZero |
| FillPolygonFindings.NotchRowsAround | src/algorithms/fill_polygon.rs:111-151 | rows 1 and 3 of the Notch are painted exactly on columns 0 to 9 |
| FillPolygonFindings.IntendedActiveRows | src/algorithms/fill_polygon.rs:35 | with `y_max` the ceiling of the upper y, an edge is active on exactly the rows r with `y_min <= r < y_max` |
| FillPolygonFindings.NotchSideIntended | src/algorithms/fill_polygon.rs:35 | with that `y_max`, the Notch's lower left side is active on row 2 |

## Left out

- Colour compositing (sRGB decoding, `multiply` blend, re-encoding) in fill_polygon.rs is the pixel function `paint`. `test_blending` is not modelled, because it checks only that blend.
- The debug `println!` calls and the test printouts are left out: they are I/O.
- Floating point: coordinates are exact reals. The model has no drift from repeated `delta_x` additions, no NaN, and no `f32`/`f64` difference. The `partial_cmp(..).unwrap()` panic on NaN cannot occur.
- Integer polygons: `Line::inv_slope` (src/geometry/line.rs:21-27) divides in the coordinate type `T`, which truncates for integers. But `from_line` multiplies that `T` slope with an `f64` and stores it directly in the `f64` fields `x` and `delta_x` (src/algorithms/fill_polygon.rs:17-18, 27, 36-37; src/algorithms/scan_line.rs:14-15, 33-34), so the text does not settle how integer coordinates behave. The model divides exactly for integer polygons as well.
- Three integer tests depend on that choice and would come out differently under truncating division: `test_scanline_triangle_int` in src/algorithms/fill_polygon.rs:212-223 (slope 8/10 would become 0 and paint (9,0)), `test_scanline_triangle_int` in src/algorithms/scan_line.rs:176-186 (slope 7/9 would become 0 and set `[9,0]`), and `test_scanline_rule_non_zero` in src/algorithms/fill_polygon.rs:225-239 (slopes -1, 1, 0, 0 would leave (7,10) with a NonZero count of 0, unpainted). `FillPolygonExamples.TriangleIsFilled`, `ScanLineExamples.TriangleIsFilled` and `FillPolygonExamples.HexagonNonZero` prove those tests' assertions under exact division.
- Integer polygons with a negative y: for `T = i32` the row key (src/algorithms/fill_polygon.rs:68, src/algorithms/scan_line.rs:65) and `y_max` (src/algorithms/fill_polygon.rs:35, src/algorithms/scan_line.rs:32) go through the integer `as usize` of src/nums.rs:58-70, which wraps. An edge whose lower end has a negative y is then keyed near 2^64 and never becomes active; for example the integer polygon (0,-1), (8,-1), (8,10), (0,10) paints nothing. `EdgeTable.FromLineWith` and `EdgeTable.NetOf` use the saturating `Nums.CeilToUsize` and `Nums.FloorToUsize` for every polygon, so the model keys that edge at 0 and paints rows 0 to 9. `Nums.IntAsUsize` states the wrap but no rasterizer member uses it.
- FillPolygon.FillPolygon: requires every vertex to have `x <= width`. Without that, a span can reach past the last column, and then the source panics in `get_pixel_mut`.
- FillPolygon.PaintedMeaning: the exact match between painted pixels and the rule is stated only when the row's total is rejected by the rule. When the total is accepted, a trailing unpaired boundary is dropped and the model states only one direction.
- Crossings.SortByX: a particular sort (insertion by x), standing for `sort_by` and `sorted_unstable_by`. The exact painted set (`FillPolygon.Painted`, and so the postcondition of `FillPolygon.FillPolygon`) assumes this sort's order of crossings with equal x. Under NonZero that order can matter: crossings (1, +1), (3, +1), (3, -1) paint nothing in this order, but columns 1 and 2 when the two at x = 3 are swapped. `FillPolygon.SpansMeaning` holds for every list sorted by x, so what `FillPolygon.PaintedMeaning` states does not depend on the order of ties.
- `HashMap` hashing is left out: the NET is a map from row to edge list, and only its contents matter.
- `i32` overflow of the running totals is not modelled; totals are unbounded integers.
- `i8` overflow of the direction is not modelled either.
- Saturation of a float `as usize` above `usize::MAX` is not modelled.
- Nums.FloatAsUsize: only the saturation of negative values at 0 is modelled.
- Canvas conversions (`from_image`, `from_array2`, `into_image`, `into_array2`) and their tests are left out: they wrap the image, ndarray and palette crates.
- `Canvas::get_spec` has no contract of its own: `FromSpec` states the round trip through it.
- src/engine/engine.rs, src/geometry/mod.rs and the `render_polygon` example program are not part of this model: a stub, re-exports, and a driver with PNG output.
- `Polygon<T>` is modelled with real coordinates only; the numeric trait bounds have no counterpart.
- The polygon tests `test_polygon_creation` and `test_add_point` are `Polygons.Polygon.constructor` and `Polygons.Polygon.AddPoint`, exercised by the contract-free method `Polygons.AddPointExample`.

## Findings

| source | as written | input that shows it | evidently intended | confidence | as-written member | corrected member |
|---|---|---|---|---|---|---|
| src/algorithms/fill_polygon.rs:35 | `from_line` sets `y_max` to the floor of the upper y, and the row loop (line 113) keeps an edge only while `y_max > row`; the side above is keyed at the ceiling of the same y (line 68) | the rectangle (0,0), (10,0), (10,5), (0,5), (0,2.5): row 2 has only the right side in its AET and paints nothing, while rows 1 and 3 paint columns 0 to 9 | an edge stays active on every row r with `y_min <= r < y_max`, as the ceiling of the upper y gives | not executed; the intent is inferred from the half-open rows `ceil(y_min) <= r` used for the key | FillPolygonFindings.NotchRowTwoBlank | FillPolygonFindings.IntendedActiveRows |

The rest of the model keeps `from_line` as written, so that its results
describe what the crate paints. The discrepancy needs a vertex whose y is
not an integer: `WrittenActiveRows` shows that an edge loses only the row
just below a fractional upper y.
