/**
 * The scenarios of the tests in src/algorithms/scan_line.rs, proved about
 * the model: which entries of the mask `polygon_interior` sets for a
 * square and a triangle under NonZero.  The tests index the mask as
 * `[[row, col]]`; so do the lemmas here.
 */
module ScanLineExamples {
  import opened Wrappers
  import opened Nums
  import opened Geometry
  import opened Polygons
  import opened EdgeTable
  import opened Crossings
  import opened ScanLine

  /** The edge of a kept line is in its key's row of the table. */
  lemma LineInNet(lines: seq<Line>, i: nat, e: Edge)
    requires i < |lines| && FromLineWith(lines[i], true, false) == Some(e)
    ensures e in Get(NetOf(lines, true, false), Key(lines[i]))
  {
    KeyedEdgesComplete(lines, i, true, false);
    NetOfIsKeyedEdges(lines, true, false);
  }

  /** An edge of row `k` of a table is in the AET of every row from `k` to
      its last row, moved by the rows since `k`. */
  lemma KeyedEdgeActive(net: Net<bool>, k: nat, e: Edge, r: nat)
    requires e in Get(net, k) && k <= r <= e.yMax
    ensures Advanced(e, r - k) in AetAfter(net, r + 1)
  {
    AetClosedForm(net, r);
    LayersMembers(net, r + 1, r, r, Advanced(e, r - k));
    assert k < r + 1 && e in Get(net, k) && r <= e.yMax;
  }

  /** The edge of a kept line is in the AET of every row from its key to
      its last row, moved by the rows since its key. */
  lemma SideActive(lines: seq<Line>, i: nat, e: Edge, r: nat)
    requires i < |lines| && FromLine(lines[i]) == Some(e)
    requires Key(lines[i]) <= r <= e.yMax
    ensures Advanced(e, r - Key(lines[i])) in AetAfter(NetOf(lines, true, false), r + 1)
  {
    LineInNet(lines, i, e);
    KeyedEdgeActive(NetOf(lines, true, false), Key(lines[i]), e, r);
  }

  /** Every AET edge is the edge of some kept line, moved by the rows
      since its key. */
  lemma ActiveSide(lines: seq<Line>, r: nat, e': Edge) returns (i: nat, e: Edge)
    requires e' in AetAfter(NetOf(lines, true, false), r + 1)
    ensures i < |lines| && FromLine(lines[i]) == Some(e)
    ensures Key(lines[i]) <= r <= e.yMax && e' == Advanced(e, r - Key(lines[i]))
  {
    var net := NetOf(lines, true, false);
    var k;
    AetClosedForm(net, r);
    k, e := LayersOrigin(net, r + 1, r, r, e');
    i := NetEdgeLine(lines, k, true, false, e);
  }

  /** An AET edge at or left of a column sets that column under NonZero. */
  lemma NonZeroSetBy(vs: seq<Point>, row: nat, col: nat, e: Edge)
    requires e in AetAfter(PolygonNet(vs), row + 1) && e.x <= col as real
    ensures MaskCell(vs, NonZero, row, col)
  {
    var aet := AetAfter(PolygonNet(vs), row + 1);
    var i :| 0 <= i < |aet| && aet[i] == e;
    NonZeroCell(aet, col);
  }

  function Square(): seq<Point>
  {
    [Point(0.0, 0.0), Point(7.0, 0.0), Point(7.0, 9.0), Point(0.0, 9.0)]
  }

  /** The square's left side, from (0, 9) down to (0, 0), is active on
      every row 0 through 9 at column 0. */
  lemma SquareLeftSide(vs: seq<Point>, row: nat)
    requires vs == Square() && row <= 9
    ensures ScanlineEdge(9, 0.0, 0.0, false) in AetAfter(PolygonNet(vs), row + 1)
  {
    EdgesOfAt(vs);
    var l := EdgesOf(vs)[3];
    assert l == Line(Point(0.0, 9.0), Point(0.0, 0.0));
    assert FloatCeil(0.0) == 0 && CeilToUsize(0.0) == 0 && CeilToUsize(9.0) == 9 && FloorToUsize(9.0) == 9;
    assert FromLine(l) == Some(ScanlineEdge(9, 0.0, 0.0, false)) && Key(l) == 0;
    SideActive(EdgesOf(vs), 3, ScanlineEdge(9, 0.0, 0.0, false), row);
  }

  /** Every entry of the square's 10 rows is set under NonZero. */
  lemma SquareCell(vs: seq<Point>, row: nat, col: nat)
    requires vs == Square() && row <= 9
    ensures MaskCell(vs, NonZero, row, col)
  {
    SquareLeftSide(vs, row);
    NonZeroSetBy(vs, row, col, ScanlineEdge(9, 0.0, 0.0, false));
  }

  /** `test_scanline_full_float` and `test_scanline_full_int`: the square
      sets [0, 0], [9, 0], [5, 5] and [0, 7]. */
  lemma SquareIsFilled()
    ensures MaskCell(Square(), NonZero, 0, 0)
    ensures MaskCell(Square(), NonZero, 9, 0)
    ensures MaskCell(Square(), NonZero, 5, 5)
    ensures MaskCell(Square(), NonZero, 0, 7)
  {
    SquareCell(Square(), 0, 0);
    SquareCell(Square(), 9, 0);
    SquareCell(Square(), 5, 5);
    SquareCell(Square(), 0, 7);
  }

  function Triangle(): seq<Point>
  {
    [Point(0.0, 0.0), Point(7.0, 0.0), Point(7.0, 9.0)]
  }

  /** The triangle's two kept sides: the vertical one at x = 7 and the
      slanted one from (0, 0), both keyed at row 0 with last row 9; the
      bottom side is horizontal and has no edge. */
  lemma TriangleSides(vs: seq<Point>)
    requires vs == Triangle()
    ensures |EdgesOf(vs)| == 3
    ensures FromLine(EdgesOf(vs)[0]) == None
    ensures FromLine(EdgesOf(vs)[1]) == Some(ScanlineEdge(9, 7.0, 0.0, true)) && Key(EdgesOf(vs)[1]) == 0
    ensures FromLine(EdgesOf(vs)[2]) == Some(ScanlineEdge(9, 0.0, 7.0 / 9.0, false)) && Key(EdgesOf(vs)[2]) == 0
  {
    EdgesOfAt(vs);
    assert EdgesOf(vs)[1] == Line(Point(7.0, 0.0), Point(7.0, 9.0));
    assert EdgesOf(vs)[2] == Line(Point(7.0, 9.0), Point(0.0, 0.0));
    assert FloatCeil(0.0) == 0 && CeilToUsize(0.0) == 0 && CeilToUsize(9.0) == 9 && FloorToUsize(9.0) == 9;
  }

  /** Row `row` of the triangle holds the slanted side at x = 7 * row / 9. */
  lemma TriangleSlantedSide(vs: seq<Point>, row: nat)
    requires vs == Triangle() && row <= 9
    ensures ScanlineEdge(9, row as real * (7.0 / 9.0), 7.0 / 9.0, false) in AetAfter(PolygonNet(vs), row + 1)
  {
    var e := ScanlineEdge(9, 0.0, 7.0 / 9.0, false);
    TriangleSides(vs);
    SideActive(EdgesOf(vs), 2, e, row);
    assert Advanced(e, row - 0) == ScanlineEdge(9, row as real * (7.0 / 9.0), 7.0 / 9.0, false);
  }

  /** On the last row both kept sides meet at x = 7, so nothing left of
      column 7 is set. */
  lemma TriangleLastRow(vs: seq<Point>, col: nat)
    requires vs == Triangle() && col < 7
    ensures !MaskCell(vs, NonZero, 9, col)
  {
    var lines := EdgesOf(vs);
    var aet := AetAfter(NetOf(lines, true, false), 10);
    TriangleSides(vs);
    forall j | 0 <= j < |aet|
      ensures aet[j].x == 7.0
    {
      LastRowMeet(lines, aet[j]);
    }
    NonZeroCell(aet, col);
  }

  /** The edges left at row 9 of lines kept as the triangle's are. */
  lemma LastRowMeet(lines: seq<Line>, e': Edge)
    requires |lines| == 3 && FromLine(lines[0]) == None
    requires FromLine(lines[1]) == Some(ScanlineEdge(9, 7.0, 0.0, true)) && Key(lines[1]) == 0
    requires FromLine(lines[2]) == Some(ScanlineEdge(9, 0.0, 7.0 / 9.0, false)) && Key(lines[2]) == 0
    requires e' in AetAfter(NetOf(lines, true, false), 10)
    ensures e'.x == 7.0
  {
    var i, e := ActiveSide(lines, 9, e');
    if i == 1 {
      assert e' == Advanced(ScanlineEdge(9, 7.0, 0.0, true), 9);
    } else {
      assert i == 2;
      assert e' == Advanced(ScanlineEdge(9, 0.0, 7.0 / 9.0, false), 9);
    }
  }

  /** `test_scanline_triangle_float` and `test_scanline_triangle_int`, the
      latter with the slope divided exactly: the
      triangle sets [0, 1], [5, 5] and [8, 7] and leaves [9, 0] unset. */
  lemma TriangleIsFilled()
    ensures MaskCell(Triangle(), NonZero, 0, 1)
    ensures !MaskCell(Triangle(), NonZero, 9, 0)
    ensures MaskCell(Triangle(), NonZero, 5, 5)
    ensures MaskCell(Triangle(), NonZero, 8, 7)
  {
    TriangleSetAt(Triangle(), 0, 1);
    TriangleLastRow(Triangle(), 0);
    TriangleSetAt(Triangle(), 5, 5);
    TriangleSetAt(Triangle(), 8, 7);
  }

  /** A column at or right of the slanted side is set. */
  lemma TriangleSetAt(vs: seq<Point>, row: nat, col: nat)
    requires vs == Triangle() && row <= 9 && row as real * 7.0 <= col as real * 9.0
    ensures MaskCell(vs, NonZero, row, col)
  {
    TriangleSlantedSide(vs, row);
    NonZeroSetBy(vs, row, col, ScanlineEdge(9, row as real * (7.0 / 9.0), 7.0 / 9.0, false));
  }
}
