/**
 * The mask rasterizer of src/algorithms/scan_line.rs: `polygon_interior`
 * sweeps the rows of a height-by-width boolean mask, keeping an AET that
 * it shifts, extends from the NET and then retains (`y_max >= row`), and
 * sweeps each row's sorted crossings column by column.
 */
module ScanLine {
  import opened Wrappers
  import opened Geometry
  import opened Polygons
  import opened Canvas
  import opened EdgeTable
  import opened Crossings

  /** The scan-line edge of scan_line.rs; `dir` is `is_upwards`. */
  type Edge = ScanlineEdge<bool>

  /** `ScanlineEdge::from_line` of scan_line.rs: `is_upwards` is whether the
      line goes from smaller to larger y. */
  function FromLine(l: Line): (r: Option<Edge>)
    ensures r.None? <==> l.start.y == l.end.y || Nums.CeilToUsize(l.start.y) == Nums.CeilToUsize(l.end.y)
    ensures r.Some? ==> r.value.dir == (l.start.y < l.end.y)
    ensures r.Some? ==> Key(l) <= r.value.yMax
  {
    FromLineWith(l, true, false)
  }

  /** `ScanlineEdge::get_intersect` of scan_line.rs: every crossing counts
      as `true` under NonZero, the orientation is used under EvenOdd. */
  function GetIntersect(e: Edge, rule: FillRule): (real, bool)
  {
    match rule
    case NonZero => (e.x, true)
    case EvenOdd => (e.x, e.dir)
  }

  /** The column sweep's `points[idx].1 as i32 * 2 - 1`. */
  function Weight(b: bool): int
  {
    (if b then 1 else 0) * 2 - 1
  }

  function Intersects(aet: seq<Edge>, rule: FillRule): (pts: seq<(real, bool)>)
    ensures |pts| == |aet|
    ensures forall i :: 0 <= i < |aet| ==> pts[i] == GetIntersect(aet[i], rule)
  {
    seq(|aet|, i requires 0 <= i < |aet| => GetIntersect(aet[i], rule))
  }

  /** The NET `polygon_interior` builds for a vertex list. */
  function PolygonNet(vertices: seq<Point>): Net<bool>
  {
    NetOf(EdgesOf(vertices), true, false)
  }

  /**
   * The AET after the first `n` rows of the sweep: each row shifts the
   * previous AET, appends the edges keyed at that row and then retains
   * the edges whose last row is not above it.
   */
  function AetAfter(net: Net<bool>, n: nat): seq<Edge>
  {
    if n == 0 then []
    else Survivors(ShiftAll(AetAfter(net, n - 1)) + Get(net, n - 1), n - 1)
  }

  /** What the sweep stores at column `col` of a row whose AET is `aet`:
      the rule applied to the weight of the crossings at or left of `col`. */
  predicate Cell(rule: FillRule, aet: seq<Edge>, col: nat)
  {
    Check(rule, SumLe(Intersects(aet, rule), col as real, Weight))
  }

  /** The mask entry at (`row`, `col`) for a polygon with these vertices. */
  predicate MaskCell(vertices: seq<Point>, rule: FillRule, row: nat, col: nat)
  {
    Cell(rule, AetAfter(PolygonNet(vertices), row + 1), col)
  }

  /**
   * The AET used at row `r` in closed form: the edges keyed at rows
   * `0..r`, in key order, each advanced by `r - k` rows, less those whose
   * last row is before `r`.
   */
  lemma {:induction false} AetClosedForm(net: Net<bool>, r: nat)
    ensures AetAfter(net, r + 1) == Layers(net, r + 1, r, r)
  {
    if r > 0 {
      AetClosedForm(net, r - 1);
      AetStep(net, r);
    } else {
      var first := Get(net, 0);
      AdvanceAllZero(first);
      assert ShiftAll(AetAfter(net, 0)) == [];
      assert [] + first == first;
      assert Layers(net, 1, 0, 0) == [] + Survivors(first, 0);
    }
  }

  /** One row of the sweep keeps the closed form: the AET of row `r` from
      that of row `r - 1`. */
  lemma AetStep(net: Net<bool>, r: nat)
    requires r > 0 && AetAfter(net, r) == Layers(net, r, r - 1, r - 1)
    ensures AetAfter(net, r + 1) == Layers(net, r + 1, r, r)
  {
    var newEdges := Get(net, r);
    AdvanceAllZero(newEdges);
    SurvivorsConcat(ShiftAll(AetAfter(net, r)), newEdges, r);
    ShiftLayers(net, r, r - 1, r - 1, r);
    assert r - r == 0;
  }

  /**
   * An edge keyed at row `k` is active exactly on rows `k` through its
   * `y_max` inclusive, and at row `r` its intercept has moved `r - k`
   * steps.
   */
  lemma ActiveEdges(net: Net<bool>, r: nat, e': Edge)
    ensures e' in AetAfter(net, r + 1)
        <==> exists k: nat, e :: k <= r && e in Get(net, k) && r <= e.yMax && e' == Advanced(e, r - k)
  {
    AetClosedForm(net, r);
    LayersMembers(net, r + 1, r, r, e');
  }

  /** The AET of row `r` reads only the table's rows up to `r`: edges keyed
      below the mask (at or beyond its height) are never used. */
  lemma AetReadsRowsUpTo(net: Net<bool>, net': Net<bool>, r: nat)
    requires forall k: nat :: k <= r ==> Get(net, k) == Get(net', k)
    ensures AetAfter(net, r + 1) == AetAfter(net', r + 1)
  {
    AetClosedForm(net, r);
    AetClosedForm(net', r);
    LayersReadOnlyEarlierRows(net, net', r + 1, r, r);
  }

  /** A row whose AET is empty is all false. */
  lemma EmptyRowIsOutside(rule: FillRule, col: nat)
    ensures !Cell(rule, [], col)
  {
    assert Intersects([], rule) == [];
  }

  /** Under EvenOdd a cell is set exactly when an odd number of crossings
      lie at or left of it, whatever their orientation. */
  lemma EvenOddCell(aet: seq<Edge>, col: nat)
    ensures Cell(EvenOdd, aet, col) <==> CountLe(Intersects(aet, EvenOdd), col as real) % 2 == 1
  {
    UnitWeightsParity(Intersects(aet, EvenOdd), col as real, Weight);
  }

  /** Under NonZero every crossing counts +1, so a cell is set exactly when
      some crossing lies at or left of it. */
  lemma NonZeroCell(aet: seq<Edge>, col: nat)
    ensures Cell(NonZero, aet, col) <==> exists i :: 0 <= i < |aet| && aet[i].x <= col as real
  {
    var pts := Intersects(aet, NonZero);
    PositiveWeightsCount(pts, col as real, Weight);
    CountLePositive(pts, col as real);
    if exists i :: 0 <= i < |aet| && aet[i].x <= col as real {
      var i :| 0 <= i < |aet| && aet[i].x <= col as real;
      assert pts[i].0 <= col as real;
    }
  }

  /**
   * The column loop of one row: walk the sorted crossings with `idx`,
   * accumulating their weights in `track`, and store the rule's verdict.
   */
  method SweepRow(mask: array2<bool>, row: nat, points: seq<(real, bool)>, rule: FillRule)
    requires row < mask.Length0
    requires SortedByX(points)
    modifies mask
    ensures forall r, c :: 0 <= r < mask.Length0 && 0 <= c < mask.Length1 ==>
              mask[r, c] == if r == row then Check(rule, SumLe(points, c as real, Weight)) else old(mask[r, c])
  {
    var idx := 0;
    var track := 0;
    for col := 0 to mask.Length1
      invariant idx <= |points|
      invariant forall j :: 0 <= j < idx ==> points[j].0 <= col as real
      invariant track == SumAll(points[..idx], Weight)
      invariant forall r, c :: 0 <= r < mask.Length0 && 0 <= c < mask.Length1 ==>
                  mask[r, c] == if r == row && c < col then Check(rule, SumLe(points, c as real, Weight))
                                else old(mask[r, c])
    {
      while idx < |points| && col as real >= points[idx].0
        invariant idx <= |points|
        invariant forall j :: 0 <= j < idx ==> points[j].0 <= col as real
        invariant track == SumAll(points[..idx], Weight)
        modifies {}
      {
        SumAllAppend(points[..idx], points[idx], Weight);
        assert points[..idx + 1] == points[..idx] + [points[idx]];
        track := track + Weight(points[idx].1);
        idx := idx + 1;
      }
      SumLeSortedPrefix(points, idx, col as real, Weight);
      mask[row, col] := Check(rule, track);
    }
  }

  /**
   * `polygon_interior`: a fresh height-by-width mask whose entry at
   * (`row`, `col`) is the sweep's verdict for that pixel; rows whose AET
   * is empty are left false.
   */
  method PolygonInterior(poly: Polygon, spec: CanvasSpec, rule: FillRule) returns (mask: array2<bool>)
    ensures fresh(mask)
    ensures mask.Length0 == spec.height && mask.Length1 == spec.width
    ensures forall row, col :: 0 <= row < spec.height && 0 <= col < spec.width ==>
              mask[row, col] == MaskCell(poly.vertices, rule, row, col)
  {
    mask := new bool[spec.height, spec.width]((_, _) => false);
    var net := NetFromPolygon(poly, true, false);
    var aet: seq<Edge> := [];
    for row := 0 to spec.height
      invariant aet == AetAfter(net, row)
      invariant forall r, c :: 0 <= r < spec.height && 0 <= c < spec.width ==>
                  mask[r, c] == (r < row && Cell(rule, AetAfter(net, r + 1), c))
    {
      aet := ShiftAll(aet);
      aet := aet + Get(net, row);
      aet := Survivors(aet, row);
      FillRow(mask, row, aet, rule);
    }
  }

  /** The body of the row loop once the AET is known: an empty AET leaves
      the row false, otherwise its sorted crossings are swept. */
  method FillRow(mask: array2<bool>, row: nat, aet: seq<Edge>, rule: FillRule)
    requires row < mask.Length0
    requires forall c :: 0 <= c < mask.Length1 ==> !mask[row, c]
    modifies mask
    ensures forall r, c :: 0 <= r < mask.Length0 && 0 <= c < mask.Length1 ==>
              mask[r, c] == if r == row then Cell(rule, aet, c) else old(mask[r, c])
  {
    if |aet| == 0 {
      forall c: nat { EmptyRowIsOutside(rule, c); }
      return;
    }
    var points := Intersects(aet, rule);
    points := SortByX(points);
    SweepRow(mask, row, points, rule);
    forall c: nat ensures Cell(rule, aet, c) == Check(rule, SumLe(points, c as real, Weight)) {
      SumLeSort(Intersects(aet, rule), c as real, Weight);
    }
  }
}
