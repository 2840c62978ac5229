/**
 * A side whose upper end lies strictly between two rows.  `from_line` in
 * src/algorithms/fill_polygon.rs stores `y_max` as the FLOOR of the upper
 * y, and the row loop keeps an edge only while `y_max > row`, so such a
 * side leaves the AET one row before its span of y ends.  The side above
 * it is keyed at the CEILING of that same y, one row later.  The row in
 * between sees neither of them.
 *
 * The first half of this module follows the code as written and exhibits
 * a polygon whose inner row is left blank.  The second half gives the edge
 * the ceiling of its upper y and proves that it is then active on exactly
 * the rows its y span covers.
 */
module FillPolygonFindings {
  import opened Wrappers
  import opened Nums
  import opened Geometry
  import opened Polygons
  import opened EdgeTable
  import opened Crossings
  import opened FillPolygon
  import opened FillPolygonExamples

  // ---------------------------------------------------------------------
  // As written

  /** Rows on which an edge built by `from_line` is active: from the
      ceiling of its lower y, and past its first row only while a whole
      row fits below its upper y. */
  lemma WrittenActiveRows(l: Line, e: Edge, r: nat)
    requires FromLine(l) == Some(e)
    ensures ActiveAt(e, Key(l), r)
        <==> YMinPoint(l).y <= r as real && (r == Key(l) || r as real + 1.0 <= YMaxPoint(l).y)
  {
    CeilToUsizeAtMost(YMinPoint(l).y, r);
    FloorToUsizeAtLeast(YMaxPoint(l).y, r + 1);
    assert e.yMax == FloorToUsize(YMaxPoint(l).y);
  }

  /** A rectangle 10 wide and 5 high whose left side is split at y = 2.5. */
  function Notch(): seq<Point>
  {
    [Point(0.0, 0.0), Point(10.0, 0.0), Point(10.0, 5.0), Point(0.0, 5.0), Point(0.0, 2.5)]
  }

  /** The lower half of the Notch's left side covers row 2, yet its edge
      is gone by then. */
  lemma NotchSideEndsEarly()
    ensures var l := Line(Point(0.0, 2.5), Point(0.0, 0.0));
            FromLine(l) == Some(ScanlineEdge(2, 0.0, 0.0, -1)) && Key(l) == 0
            && YMinPoint(l).y <= 2.0 < YMaxPoint(l).y
            && !ActiveAt(ScanlineEdge(2, 0.0, 0.0, -1), Key(l), 2)
  {
    var l := Line(Point(0.0, 2.5), Point(0.0, 0.0));
    assert FloatCeil(0.0) == 0 && FloatCeil(2.5) == 3 && FloatFloor(2.5) == 2;
    assert CeilToUsize(0.0) == 0 && CeilToUsize(2.5) == 3 && FloorToUsize(2.5) == 2;
  }

  /** The Notch's table: its right side and the lower left side keyed at
      row 0, the upper left side at row 3. */
  lemma NotchNet()
    ensures PolygonNet(Notch())
         == map[0 := [ScanlineEdge(5, 10.0, 0.0, 1), ScanlineEdge(2, 0.0, 0.0, -1)],
                3 := [ScanlineEdge(5, 0.0, 0.0, -1)]]
  {
    var vs := Notch();
    EdgesOfAt(vs);
    var l0, l1, l2, l3, l4 := Line(vs[0], vs[1]), Line(vs[1], vs[2]), Line(vs[2], vs[3]), Line(vs[3], vs[4]), Line(vs[4], vs[0]);
    assert EdgesOf(vs) == [l0, l1, l2, l3, l4];
    var right, lower, upper := ScanlineEdge(5, 10.0, 0.0, 1), ScanlineEdge(2, 0.0, 0.0, -1), ScanlineEdge(5, 0.0, 0.0, -1);
    assert FloatCeil(0.0) == 0 && FloatCeil(2.5) == 3 && FloatCeil(5.0) == 5;
    assert FloatFloor(2.5) == 2 && FloatFloor(5.0) == 5;
    assert CeilToUsize(0.0) == 0 && CeilToUsize(2.5) == 3 && CeilToUsize(5.0) == 5;
    assert FromLine(l0) == None && FromLine(l2) == None;
    assert FromLine(l1) == Some(right) && Key(l1) == 0;
    assert FromLine(l3) == Some(upper) && Key(l3) == 3;
    NotchSideEndsEarly();
    assert FromLine(l4) == Some(lower) && Key(l4) == 0;
    NotchTable(l0, l1, l2, l3, l4, right, lower, upper);
  }

  /** The table of five lines of which the second and the fifth give an
      edge keyed at row 0 and the fourth one keyed at row 3. */
  lemma NotchTable(l0: Line, l1: Line, l2: Line, l3: Line, l4: Line, right: Edge, lower: Edge, upper: Edge)
    requires FromLine(l0) == None && FromLine(l2) == None
    requires FromLine(l1) == Some(right) && Key(l1) == 0
    requires FromLine(l3) == Some(upper) && Key(l3) == 3
    requires FromLine(l4) == Some(lower) && Key(l4) == 0
    ensures NetOf([l0, l1, l2, l3, l4], 1, -1) == map[0 := [right, lower], 3 := [upper]]
  {
    var m1, m3: Net<int> := map[0 := [right]], map[0 := [right], 3 := [upper]];
    assert NetOf([], 1, -1) == map[];
    PushSkipped([], l0, map[]);
    assert [] + [l0] == [l0];
    PushKept([l0], l1, map[], right);
    assert [l0] + [l1] == [l0, l1];
    NotchTableSteps(right, lower, upper);
    PushSkipped([l0, l1], l2, m1);
    assert [l0, l1] + [l2] == [l0, l1, l2];
    PushKept([l0, l1, l2], l3, m1, upper);
    assert [l0, l1, l2] + [l3] == [l0, l1, l2, l3];
    PushKept([l0, l1, l2, l3], l4, m3, lower);
    assert [l0, l1, l2, l3] + [l4] == [l0, l1, l2, l3, l4];
  }

  /** The three pushes of `NotchTable`, on the maps alone. */
  lemma NotchTableSteps(right: Edge, lower: Edge, upper: Edge)
    ensures var m0: Net<int> := map[];
            m0[0 := Get(m0, 0) + [right]] == map[0 := [right]]
    ensures var m1: Net<int> := map[0 := [right]];
            m1[3 := Get(m1, 3) + [upper]] == map[0 := [right], 3 := [upper]]
    ensures var m3: Net<int> := map[0 := [right], 3 := [upper]];
            m3[0 := Get(m3, 0) + [lower]] == map[0 := [right, lower], 3 := [upper]]
  {
    var m0: Net<int> := map[];
    var m1: Net<int> := map[0 := [right]];
    var m3: Net<int> := map[0 := [right], 3 := [upper]];
    assert Get(m0, 0) + [right] == [right];
    assert Get(m1, 3) + [upper] == [upper];
    assert Get(m3, 0) + [lower] == [right, lower];
  }

  /** The AET of a table whose rows between 0 and `r` hold no edges: the
      edges of row 0 moved `r` steps that reach row `r + 1`, then row `r`'s
      own. */
  lemma AetAfterFirstRow(net: Net<int>, r: nat)
    requires r >= 1
    requires forall k: nat :: 0 < k < r ==> Get(net, k) == []
    ensures AetAt(net, r) == Survivors(AdvanceAll(Get(net, 0), r), r + 1) + Get(net, r)
  {
    AetClosedForm(net, r);
    LayersSkipEmpty(net, 1, r, r, r + 1);
    LayersUnfold(net, 1, r, r + 1, r);
    assert Layers(net, 0, r, r + 1) == [];
    NothingBefore(AetAt(net, r), Layers(net, r, r, r + 1), Layers(net, 1, r, r + 1), Layers(net, 0, r, r + 1),
                  Survivors(AdvanceAll(Get(net, 0), r), r + 1), Get(net, r));
  }

  /** An empty front adds nothing.  Stated over plain sequence parameters so
      that `AetAfterFirstRow` closes with a sequence identity alone: asserted
      inline, next to the unfolded `Layers` terms, the same step makes the
      solver diverge on some seeds. */
  lemma NothingBefore(aet: seq<Edge>, layers: seq<Edge>, layers1: seq<Edge>, front: seq<Edge>, first: seq<Edge>, rest: seq<Edge>)
    requires aet == layers + rest && layers == layers1 && layers1 == front + first && front == []
    ensures aet == first + rest
  {
    assert front + first == first;
  }

  /** The AET of the Notch on rows 1 to 3: both sides on rows 1 and 3,
      only the right side on row 2. */
  lemma NotchAet(r: nat)
    requires 1 <= r <= 3
    ensures AetAt(PolygonNet(Notch()), r)
         == if r == 1 then [ScanlineEdge(5, 10.0, 0.0, 1), ScanlineEdge(2, 0.0, 0.0, -1)]
            else if r == 2 then [ScanlineEdge(5, 10.0, 0.0, 1)]
            else [ScanlineEdge(5, 10.0, 0.0, 1), ScanlineEdge(5, 0.0, 0.0, -1)]
  {
    NotchNet();
    NotchAetOf(PolygonNet(Notch()), r);
  }

  /** `NotchAet` for any table equal to the Notch's. */
  lemma NotchAetOf(net: Net<int>, r: nat)
    requires 1 <= r <= 3
    requires net == map[0 := [ScanlineEdge(5, 10.0, 0.0, 1), ScanlineEdge(2, 0.0, 0.0, -1)],
                        3 := [ScanlineEdge(5, 0.0, 0.0, -1)]]
    ensures AetAt(net, r)
         == if r == 1 then [ScanlineEdge(5, 10.0, 0.0, 1), ScanlineEdge(2, 0.0, 0.0, -1)]
            else if r == 2 then [ScanlineEdge(5, 10.0, 0.0, 1)]
            else [ScanlineEdge(5, 10.0, 0.0, 1), ScanlineEdge(5, 0.0, 0.0, -1)]
  {
    var right, lower := ScanlineEdge(5, 10.0, 0.0, 1), ScanlineEdge(2, 0.0, 0.0, -1);
    AetAfterFirstRow(net, r);
    AdvanceTwo(right, lower, r);
    assert Advanced(right, r) == right && Advanced(lower, r) == lower;
    if r == 1 {
      TwoEdgesAdvanced(right, lower, 1, 2);
      assert Get(net, 1) == [];
    } else if r == 2 {
      SurvivorsFirstOfTwo(right, lower, 3);
      assert Get(net, 2) == [];
    } else {
      SurvivorsFirstOfTwo(right, lower, 4);
    }
  }

  /** Advancing two edges advances each. */
  lemma AdvanceTwo(a: Edge, b: Edge, n: nat)
    ensures AdvanceAll([a, b], n) == [Advanced(a, n), Advanced(b, n)]
  {
    assert [a, b][1..] == [b] && [b][1..] == [];
    assert AdvanceAll([b], n) == [Advanced(b, n)] + AdvanceAll([], n);
  }

  /** Of two edges, only the first reaches row `bound`. */
  lemma SurvivorsFirstOfTwo(a: Edge, b: Edge, bound: nat)
    requires a.yMax >= bound > b.yMax
    ensures Survivors([a, b], bound) == [a]
  {
    assert [a, b][1..] == [b] && [b][1..] == [];
    assert Survivors([b], bound) == [] + Survivors([], bound);
  }

  /** A row with at most one crossing yields no span. */
  lemma OneCrossingNoSpan(aet: seq<Edge>, rule: FillRule)
    requires |aet| <= 1
    ensures RowSpans(aet, rule) == []
  {
    var pts := Intersects(aet, rule);
    assert |multiset(SortByX(pts))| == |multiset(pts)|;
  }

  /** Row 2 of the Notch, inside the rectangle, is not painted at all. */
  lemma NotchRowTwoBlank(c: nat)
    ensures !Painted(Notch(), NonZero, 2, c)
  {
    NotchAet(2);
    RowOfOneCrossing(Notch(), 2, c);
  }

  /** Rows 1 and 3 of the Notch, on either side of row 2, are painted from
      column 0 to 9 under NonZero. */
  lemma NotchRowsAround(r: nat, c: nat)
    requires r == 1 || r == 3
    ensures Painted(Notch(), NonZero, r, c) <==> c < 10
  {
    NotchAet(r);
    if r == 1 {
      OpenCloseRow(Notch(), 1, c, ScanlineEdge(5, 10.0, 0.0, 1), ScanlineEdge(2, 0.0, 0.0, -1));
    } else {
      OpenCloseRow(Notch(), 3, c, ScanlineEdge(5, 10.0, 0.0, 1), ScanlineEdge(5, 0.0, 0.0, -1));
    }
  }

  /** No pixel of a row with at most one active edge is painted. */
  lemma RowOfOneCrossing(vertices: seq<Point>, r: nat, c: nat)
    requires |AetAt(PolygonNet(vertices), r)| <= 1
    ensures !Painted(vertices, NonZero, r, c)
  {
    OneCrossingNoSpan(AetAt(PolygonNet(vertices), r), NonZero);
  }

  // ---------------------------------------------------------------------
  // As intended

  /** `from_line` with `y_max` the ceiling of the upper y. */
  function FromLineIntended(l: Line): Option<Edge>
  {
    match FromLine(l)
    case None => None
    case Some(e) => Some(e.(yMax := CeilToUsize(YMaxPoint(l).y)))
  }

  /** With the ceiling, an edge is active on exactly the rows `r` with
      `y_min <= r < y_max`: every row its side crosses. */
  lemma IntendedActiveRows(l: Line, e: Edge, r: nat)
    requires FromLineIntended(l) == Some(e)
    ensures ActiveAt(e, Key(l), r) <==> YMinPoint(l).y <= r as real < YMaxPoint(l).y
  {
    var lo, hi := YMinPoint(l).y, YMaxPoint(l).y;
    MinMaxPointsPartition(l);
    CeilToUsizeAtMost(lo, r);
    CeilToUsizeAtMost(hi, r);
    CeilToUsizeMonotone(lo, hi);
    assert CeilToUsize(lo) != CeilToUsize(hi);
  }

  /** With the ceiling, the lower half of the Notch's left side is still
      active on row 2. */
  lemma NotchSideIntended()
    ensures var l := Line(Point(0.0, 2.5), Point(0.0, 0.0));
            FromLineIntended(l) == Some(ScanlineEdge(3, 0.0, 0.0, -1))
            && ActiveAt(ScanlineEdge(3, 0.0, 0.0, -1), Key(l), 2)
  {
    NotchSideEndsEarly();
    assert FloatCeil(2.5) == 3;
  }
}
