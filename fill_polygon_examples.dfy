/**
 * The scenarios of the tests in src/algorithms/fill_polygon.rs, proved
 * about the model: which pixels `fill_polygon` paints for a square, a
 * triangle and a self-intersecting hexagon.  "Painted" here stands for
 * the tests' colour comparisons: a painted pixel is blended with the
 * polygon's colour, an unpainted one keeps its background.
 */
module FillPolygonExamples {
  import opened Wrappers
  import opened Nums
  import opened Geometry
  import opened Polygons
  import opened EdgeTable
  import opened Crossings
  import opened FillPolygon

  /** Rows of the closed form that hold no edges add nothing. */
  lemma {:induction false} LayersSkipEmpty<D>(net: Net<D>, lo: nat, hi: nat, r: nat, bound: nat)
    requires lo <= hi <= r + 1
    requires forall k: nat :: lo <= k < hi ==> Get(net, k) == []
    ensures Layers(net, hi, r, bound) == Layers(net, lo, r, bound)
  {
    if lo < hi {
      LayersSkipEmpty(net, lo, hi - 1, r, bound);
      assert AdvanceAll(Get(net, hi - 1), r - (hi - 1)) == [];
    }
  }

  /** The AET at row `r` of a table whose only row is row 0. */
  lemma AetOfFirstRowOnly(net: Net<int>, r: nat)
    requires forall k: nat :: k > 0 ==> Get(net, k) == []
    ensures AetAt(net, r) == if r == 0 then Get(net, 0) else Survivors(AdvanceAll(Get(net, 0), r), r + 1)
  {
    AetClosedForm(net, r);
    if r > 0 {
      LayersSkipEmpty(net, 1, r, r, r + 1);
    }
  }

  /** Both edges of a two-edge row advanced `r` steps, kept while their
      last row is at least `bound`, when both are. */
  lemma TwoEdgesAdvanced(a: Edge, b: Edge, r: nat, bound: nat)
    requires a.yMax >= bound && b.yMax >= bound
    ensures Survivors(AdvanceAll([a, b], r), bound) == [Advanced(a, r), Advanced(b, r)]
  {
    assert AdvanceAll([b], r) == [Advanced(b, r)] by {
      assert [b][1..] == [];
    }
    assert [a, b][1..] == [b];
    var advanced := [Advanced(a, r), Advanced(b, r)];
    assert Survivors([Advanced(b, r)], bound) == [Advanced(b, r)] by {
      assert [Advanced(b, r)][1..] == [];
    }
    assert advanced[1..] == [Advanced(b, r)];
  }

  /** One more line onto a table: its edge, if any, is pushed onto the
      row of its key. */
  lemma NetOfPush(lines: seq<Line>, l: Line)
    ensures NetOf(lines + [l], 1, -1)
         == match FromLine(l)
            case None => NetOf(lines, 1, -1)
            case Some(e) => NetOf(lines, 1, -1)[Key(l) := Get(NetOf(lines, 1, -1), Key(l)) + [e]]
  {
    assert (lines + [l])[..|lines|] == lines;
  }

  function Square(): seq<Point>
  {
    [Point(0.0, 0.0), Point(8.0, 0.0), Point(8.0, 10.0), Point(0.0, 10.0)]
  }

  /** The square's table: its two vertical sides, both keyed at row 0. */
  lemma SquareNet()
    ensures PolygonNet(Square()) == map[0 := [ScanlineEdge(10, 8.0, 0.0, 1), ScanlineEdge(10, 0.0, 0.0, -1)]]
  {
    var vs := Square();
    EdgesOfAt(vs);
    var l0, l1, l2, l3 := Line(vs[0], vs[1]), Line(vs[1], vs[2]), Line(vs[2], vs[3]), Line(vs[3], vs[0]);
    assert EdgesOf(vs) == [l0, l1, l2, l3];
    assert FloatCeil(0.0) == 0 && FloorToUsize(10.0) == 10 && CeilToUsize(10.0) == 10 && CeilToUsize(0.0) == 0;
    assert FromLine(l0) == None && FromLine(l2) == None;
    assert FromLine(l1) == Some(ScanlineEdge(10, 8.0, 0.0, 1)) && Key(l1) == 0;
    assert FromLine(l3) == Some(ScanlineEdge(10, 0.0, 0.0, -1)) && Key(l3) == 0;
    TwoSidesTable(l0, l1, l2, l3, ScanlineEdge(10, 8.0, 0.0, 1), ScanlineEdge(10, 0.0, 0.0, -1));
  }

  /** The table of four lines of which the second and the fourth give an
      edge, both keyed at row 0. */
  lemma TwoSidesTable(l0: Line, l1: Line, l2: Line, l3: Line, a: Edge, b: Edge)
    requires FromLine(l0) == None && FromLine(l2) == None
    requires FromLine(l1) == Some(a) && Key(l1) == 0
    requires FromLine(l3) == Some(b) && Key(l3) == 0
    ensures NetOf([l0, l1, l2, l3], 1, -1) == map[0 := [a, b]]
  {
    NetOfPush([], l0);
    assert [] + [l0] == [l0];
    assert NetOf([l0], 1, -1) == map[];
    NetOfPush([l0], l1);
    assert [l0] + [l1] == [l0, l1];
    assert Get(NetOf([l0], 1, -1), 0) + [a] == [a];
    assert NetOf([l0, l1], 1, -1) == map[0 := [a]];
    NetOfPush([l0, l1], l2);
    assert [l0, l1] + [l2] == [l0, l1, l2];
    assert NetOf([l0, l1, l2], 1, -1) == map[0 := [a]];
    NetOfPush([l0, l1, l2], l3);
    assert [l0, l1, l2] + [l3] == [l0, l1, l2, l3];
    assert Get(map[0 := [a]], 0) + [b] == [a, b];
  }

  /** At every row of the square both sides are active, unmoved. */
  lemma SquareAet(r: nat)
    requires r < 10
    ensures AetAt(PolygonNet(Square()), r) == [ScanlineEdge(10, 8.0, 0.0, 1), ScanlineEdge(10, 0.0, 0.0, -1)]
  {
    var right, left := ScanlineEdge(10, 8.0, 0.0, 1), ScanlineEdge(10, 0.0, 0.0, -1);
    SquareNet();
    AetOfFirstRowOnly(PolygonNet(Square()), r);
    TwoEdgesAdvanced(right, left, r, r + 1);
    if r == 0 {
      assert Get(PolygonNet(Square()), 0) == [right, left];
    } else {
      assert Advanced(right, r) == right && Advanced(left, r) == left;
    }
  }

  /** Every pixel of the square's 10 rows and 8 columns is painted. */
  lemma SquarePixel(r: nat, c: nat)
    requires r < 10 && c < 8
    ensures Painted(Square(), NonZero, r, c)
  {
    SquareAet(r);
    var pts := Intersects(AetAt(PolygonNet(Square()), r), NonZero);
    assert pts == [(8.0, 1), (0.0, -1)];
    assert pts[1..] == [(0.0, -1)] && pts[1..][1..] == [];
    assert SumAll(pts[1..][1..], Contribution) == 0;
    assert SumAll(pts[1..], Contribution) == -1;
    assert SumAll(pts, Contribution) == 0;
    assert SumLe(pts[1..][1..], c as real, Contribution) == 0;
    assert SumLe(pts[1..], c as real, Contribution) == -1;
    assert SumLe(pts, c as real, Contribution) == -1;
    PaintedMeaning(Square(), NonZero, r, c);
  }

  /** `test_scanline_full_float` and `test_scanline_full_int`: the square
      paints (0,0), (9,0), (5,5) and (0,7), given as (row, col). */
  lemma SquareIsFilled()
    ensures Painted(Square(), NonZero, 0, 0)
    ensures Painted(Square(), NonZero, 9, 0)
    ensures Painted(Square(), NonZero, 5, 5)
    ensures Painted(Square(), NonZero, 0, 7)
  {
    SquarePixel(0, 0);
    SquarePixel(9, 0);
    SquarePixel(5, 5);
    SquarePixel(0, 7);
  }

  function Triangle(): seq<Point>
  {
    [Point(0.0, 0.0), Point(8.0, 0.0), Point(8.0, 10.0)]
  }

  /** The triangle's table: its vertical side and its diagonal, both keyed
      at row 0. */
  lemma TriangleNet()
    ensures PolygonNet(Triangle()) == map[0 := [ScanlineEdge(10, 8.0, 0.0, 1), ScanlineEdge(10, 0.0, 0.8, -1)]]
  {
    var vs := Triangle();
    EdgesOfAt(vs);
    var l0, l1, l2 := Line(vs[0], vs[1]), Line(vs[1], vs[2]), Line(vs[2], vs[0]);
    assert EdgesOf(vs) == [l0, l1, l2];
    assert FloatCeil(0.0) == 0 && FloorToUsize(10.0) == 10 && CeilToUsize(10.0) == 10 && CeilToUsize(0.0) == 0;
    assert FromLine(l0) == None;
    assert FromLine(l1) == Some(ScanlineEdge(10, 8.0, 0.0, 1)) && Key(l1) == 0;
    assert FromLine(l2) == Some(ScanlineEdge(10, 0.0, 0.8, -1)) && Key(l2) == 0;
    LastTwoTable(l0, l1, l2, ScanlineEdge(10, 8.0, 0.0, 1), ScanlineEdge(10, 0.0, 0.8, -1));
  }

  /** The table of three lines of which the last two give an edge, both
      keyed at row 0. */
  lemma LastTwoTable(l0: Line, l1: Line, l2: Line, a: Edge, b: Edge)
    requires FromLine(l0) == None
    requires FromLine(l1) == Some(a) && Key(l1) == 0
    requires FromLine(l2) == Some(b) && Key(l2) == 0
    ensures NetOf([l0, l1, l2], 1, -1) == map[0 := [a, b]]
  {
    NetOfPush([], l0);
    assert [] + [l0] == [l0];
    assert NetOf([l0], 1, -1) == map[];
    NetOfPush([l0], l1);
    assert [l0] + [l1] == [l0, l1];
    assert Get(NetOf([l0], 1, -1), 0) + [a] == [a];
    assert NetOf([l0, l1], 1, -1) == map[0 := [a]];
    NetOfPush([l0, l1], l2);
    assert [l0, l1] + [l2] == [l0, l1, l2];
    assert Get(map[0 := [a]], 0) + [b] == [a, b];
  }

  /** At row `r` of the triangle both sides are active and the diagonal
      has moved `r` steps. */
  lemma TriangleAet(r: nat)
    requires r < 10
    ensures AetAt(PolygonNet(Triangle()), r) == [ScanlineEdge(10, 8.0, 0.0, 1), ScanlineEdge(10, 0.8 * r as real, 0.8, -1)]
  {
    var right, diagonal := ScanlineEdge(10, 8.0, 0.0, 1), ScanlineEdge(10, 0.0, 0.8, -1);
    var net := PolygonNet(Triangle());
    TriangleNet();
    AetOfFirstRowOnly(net, r);
    TwoEdgesAdvanced(right, diagonal, r, r + 1);
    if r == 0 {
      assert Get(net, 0) == [right, diagonal];
    }
  }

  /** Row `r` of the triangle is painted from the diagonal at `0.8 r` up
      to the vertical side at 8. */
  lemma TriangleRow(r: nat, c: nat)
    requires r < 10
    ensures Painted(Triangle(), NonZero, r, c) <==> 0.8 * r as real <= c as real < 8.0
  {
    TriangleAet(r);
    OpenCloseRow(Triangle(), r, c, ScanlineEdge(10, 8.0, 0.0, 1), ScanlineEdge(10, 0.8 * r as real, 0.8, -1));
  }

  /** A row whose AET is an upward edge and, at or left of it, a downward
      one is painted under NonZero on the columns from the downward edge up
      to the upward one. */
  lemma OpenCloseRow(vertices: seq<Point>, r: nat, c: nat, a: Edge, b: Edge)
    requires AetAt(PolygonNet(vertices), r) == [a, b]
    requires a.dir == 1 && b.dir == -1 && b.x <= a.x
    ensures Painted(vertices, NonZero, r, c) <==> b.x <= c as real < a.x
  {
    var pts := Intersects(AetAt(PolygonNet(vertices), r), NonZero);
    assert pts == [(a.x, 1), (b.x, -1)];
    OpenCloseSums(pts, a.x, b.x, c as real);
    PaintedMeaning(vertices, NonZero, r, c);
  }

  /** A crossing counting +1 at `b` and one counting -1 at `a` close
      again, and weigh at `c` by which of them lie at or left of it. */
  lemma OpenCloseSums(pts: seq<(real, int)>, b: real, a: real, c: real)
    requires pts == [(b, 1), (a, -1)]
    ensures SumAll(pts, Contribution) == 0
    ensures SumLe(pts, c, Contribution) == (if b <= c then 1 else 0) - (if a <= c then 1 else 0)
  {
    var tail := pts[1..];
    assert tail == [(a, -1)] && tail[1..] == [];
    assert SumLe(tail, c, Contribution) == (if a <= c then -1 else 0) + SumLe(tail[1..], c, Contribution);
    assert SumAll(tail, Contribution) == -1 + SumAll(tail[1..], Contribution);
  }

  /** `test_scanline_triangle_float` and `test_scanline_triangle_int`, the
      latter with the slope divided exactly: the
      triangle paints (0,0), (0,1), (5,5), (0,7) and (8,7) and leaves
      (9,0), left of the diagonal, unchanged. */
  lemma TriangleIsFilled()
    ensures Painted(Triangle(), NonZero, 0, 0)
    ensures Painted(Triangle(), NonZero, 0, 1)
    ensures !Painted(Triangle(), NonZero, 9, 0)
    ensures Painted(Triangle(), NonZero, 5, 5)
    ensures Painted(Triangle(), NonZero, 0, 7)
    ensures Painted(Triangle(), NonZero, 8, 7)
  {
    TriangleRow(0, 0);
    TriangleRow(0, 1);
    TriangleRow(9, 0);
    TriangleRow(5, 5);
    TriangleRow(0, 7);
    TriangleRow(8, 7);
  }

  /** The self-intersecting hexagon of `test_scanline_rule_non_zero` and
      `test_scanline_rule_even_odd`. */
  function Hexagon(): seq<Point>
  {
    [Point(0.0, 0.0), Point(20.0, 0.0), Point(3.0, 15.0), Point(13.0, 3.0), Point(8.0, 3.0), Point(18.0, 15.0)]
  }

  /** The hexagon's table: two sides keyed at row 0 and two at row 3. */
  lemma HexagonNet()
    ensures PolygonNet(Hexagon())
         == map[0 := [ScanlineEdge(15, 20.0, -17.0 / 15.0, 1), ScanlineEdge(15, 0.0, 6.0 / 5.0, -1)],
                3 := [ScanlineEdge(15, 13.0, -5.0 / 6.0, -1), ScanlineEdge(15, 8.0, 5.0 / 6.0, 1)]]
  {
    var vs := Hexagon();
    EdgesOfAt(vs);
    var l0, l1, l2 := Line(vs[0], vs[1]), Line(vs[1], vs[2]), Line(vs[2], vs[3]);
    var l3, l4, l5 := Line(vs[3], vs[4]), Line(vs[4], vs[5]), Line(vs[5], vs[0]);
    assert EdgesOf(vs) == [l0, l1, l2, l3, l4, l5];
    HexagonSides(l0, l1, l2, l3, l4, l5);
    HexagonTable(l0, l1, l2, l3, l4, l5,
                 ScanlineEdge(15, 20.0, -17.0 / 15.0, 1), ScanlineEdge(15, 13.0, -5.0 / 6.0, -1),
                 ScanlineEdge(15, 8.0, 5.0 / 6.0, 1), ScanlineEdge(15, 0.0, 6.0 / 5.0, -1));
  }

  /** The edges of the hexagon's six sides: the two horizontal ones have
      none. */
  lemma HexagonSides(l0: Line, l1: Line, l2: Line, l3: Line, l4: Line, l5: Line)
    requires l0 == Line(Point(0.0, 0.0), Point(20.0, 0.0)) && l1 == Line(Point(20.0, 0.0), Point(3.0, 15.0))
    requires l2 == Line(Point(3.0, 15.0), Point(13.0, 3.0)) && l3 == Line(Point(13.0, 3.0), Point(8.0, 3.0))
    requires l4 == Line(Point(8.0, 3.0), Point(18.0, 15.0)) && l5 == Line(Point(18.0, 15.0), Point(0.0, 0.0))
    ensures FromLine(l0) == None && FromLine(l3) == None
    ensures FromLine(l1) == Some(ScanlineEdge(15, 20.0, -17.0 / 15.0, 1)) && Key(l1) == 0
    ensures FromLine(l2) == Some(ScanlineEdge(15, 13.0, -5.0 / 6.0, -1)) && Key(l2) == 3
    ensures FromLine(l4) == Some(ScanlineEdge(15, 8.0, 5.0 / 6.0, 1)) && Key(l4) == 3
    ensures FromLine(l5) == Some(ScanlineEdge(15, 0.0, 6.0 / 5.0, -1)) && Key(l5) == 0
  {
    assert FloatCeil(0.0) == 0 && FloatCeil(3.0) == 3 && FloorToUsize(15.0) == 15;
    assert CeilToUsize(15.0) == 15 && CeilToUsize(3.0) == 3 && CeilToUsize(0.0) == 0;
  }

  /** The table of six lines whose edges are those of the hexagon's sides. */
  lemma HexagonTable(l0: Line, l1: Line, l2: Line, l3: Line, l4: Line, l5: Line,
                      e1: Edge, e2: Edge, e4: Edge, e5: Edge)
    requires FromLine(l0) == None && FromLine(l3) == None
    requires FromLine(l1) == Some(e1) && Key(l1) == 0
    requires FromLine(l2) == Some(e2) && Key(l2) == 3
    requires FromLine(l4) == Some(e4) && Key(l4) == 3
    requires FromLine(l5) == Some(e5) && Key(l5) == 0
    ensures NetOf([l0, l1, l2, l3, l4, l5], 1, -1) == map[0 := [e1, e5], 3 := [e2, e4]]
  {
    HexagonFirstSides(l0, l1, l2, e1, e2);
    HexagonLastSides([l0, l1, l2], l3, l4, l5, e1, e2, e4, e5);
    assert [l0, l1, l2] + [l3, l4, l5] == [l0, l1, l2, l3, l4, l5];
  }

  /** The table after the hexagon's last three sides. */
  lemma HexagonLastSides(lines: seq<Line>, l3: Line, l4: Line, l5: Line, e1: Edge, e2: Edge, e4: Edge, e5: Edge)
    requires NetOf(lines, 1, -1) == map[0 := [e1], 3 := [e2]]
    requires FromLine(l3) == None
    requires FromLine(l4) == Some(e4) && Key(l4) == 3
    requires FromLine(l5) == Some(e5) && Key(l5) == 0
    ensures NetOf(lines + [l3, l4, l5], 1, -1) == map[0 := [e1, e5], 3 := [e2, e4]]
  {
    var n2 := map[0 := [e1], 3 := [e2]];
    var with3, with4 := lines + [l3], lines + [l3] + [l4];
    PushSkipped(lines, l3, n2);
    PushKept(with3, l4, n2, e4);
    assert [e2] + [e4] == [e2, e4];
    var n3 := map[0 := [e1], 3 := [e2, e4]];
    assert n2[3 := Get(n2, 3) + [e4]] == n3;
    PushKept(with4, l5, n3, e5);
    assert [e1] + [e5] == [e1, e5];
    assert n3[0 := Get(n3, 0) + [e5]] == map[0 := [e1, e5], 3 := [e2, e4]];
    assert with4 + [l5] == lines + [l3, l4, l5];
  }

  /** A line without an edge leaves the table as it was. */
  lemma PushSkipped(lines: seq<Line>, l: Line, net: Net<int>)
    requires NetOf(lines, 1, -1) == net && FromLine(l) == None
    ensures NetOf(lines + [l], 1, -1) == net
  {
    NetOfPush(lines, l);
  }

  /** A line with an edge appends it to the row of its key. */
  lemma PushKept(lines: seq<Line>, l: Line, net: Net<int>, e: Edge)
    requires NetOf(lines, 1, -1) == net && FromLine(l) == Some(e)
    ensures NetOf(lines + [l], 1, -1) == net[Key(l) := Get(net, Key(l)) + [e]]
  {
    NetOfPush(lines, l);
  }

  /** The table of the hexagon's first three sides. */
  lemma HexagonFirstSides(l0: Line, l1: Line, l2: Line, e1: Edge, e2: Edge)
    requires FromLine(l0) == None
    requires FromLine(l1) == Some(e1) && Key(l1) == 0
    requires FromLine(l2) == Some(e2) && Key(l2) == 3
    ensures NetOf([l0, l1, l2], 1, -1) == map[0 := [e1], 3 := [e2]]
  {
    NetOfPush([], l0);
    assert [] + [l0] == [l0];
    assert NetOf([l0], 1, -1) == map[];
    NetOfPush([l0], l1);
    assert [l0] + [l1] == [l0, l1];
    assert Get(NetOf([l0], 1, -1), 0) + [e1] == [e1];
    var n1 := map[0 := [e1]];
    assert NetOf([l0, l1], 1, -1) == n1;
    NetOfPush([l0, l1], l2);
    assert [l0, l1] + [l2] == [l0, l1, l2];
    assert Get(n1, 3) + [e2] == [e2];
  }

  /** At row 7 the AET holds the two row-0 sides advanced 7 steps and then
      the two row-3 sides advanced 4 steps. */
  lemma HexagonAet()
    ensures AetAt(PolygonNet(Hexagon()), 7)
         == [ScanlineEdge(15, 181.0 / 15.0, -17.0 / 15.0, 1), ScanlineEdge(15, 42.0 / 5.0, 6.0 / 5.0, -1),
             ScanlineEdge(15, 29.0 / 3.0, -5.0 / 6.0, -1), ScanlineEdge(15, 34.0 / 3.0, 5.0 / 6.0, 1)]
  {
    HexagonNet();
    TwoKeyRowsEmpty(PolygonNet(Hexagon()), ScanlineEdge(15, 20.0, -17.0 / 15.0, 1), ScanlineEdge(15, 0.0, 6.0 / 5.0, -1),
                    ScanlineEdge(15, 13.0, -5.0 / 6.0, -1), ScanlineEdge(15, 8.0, 5.0 / 6.0, 1));
    TwoKeyAet(PolygonNet(Hexagon()), ScanlineEdge(15, 20.0, -17.0 / 15.0, 1), ScanlineEdge(15, 0.0, 6.0 / 5.0, -1),
              ScanlineEdge(15, 13.0, -5.0 / 6.0, -1), ScanlineEdge(15, 8.0, 5.0 / 6.0, 1));
  }

  /** The AET at row 7 of a table with two edges under row 0 and two under
      row 3, all lasting past row 7. */
  lemma TwoKeyAet(net: Net<int>, e1: Edge, e5: Edge, e2: Edge, e4: Edge)
    requires Get(net, 0) == [e1, e5] && Get(net, 3) == [e2, e4]
    requires forall k: nat :: k != 0 && k != 3 ==> Get(net, k) == []
    requires e1.yMax >= 8 && e5.yMax >= 8 && e2.yMax >= 8 && e4.yMax >= 8
    ensures AetAt(net, 7) == [Advanced(e1, 7), Advanced(e5, 7), Advanced(e2, 4), Advanced(e4, 4)]
  {
    AetClosedForm(net, 7);
    LayersSkipEmpty(net, 4, 7, 7, 8);
    TwoKeyLayers(net, e1, e5, e2, e4);
    NothingAfter(AetAt(net, 7), Layers(net, 7, 7, 8), Layers(net, 4, 7, 8), Get(net, 7),
                 [Advanced(e1, 7), Advanced(e5, 7), Advanced(e2, 4), Advanced(e4, 4)]);
  }

  /** A table with edges under rows 0 and 3 only has nothing in the rows
      between and after.  A lemma of its own so that the literal map is
      unfolded here, once, and the AET proofs that use the table see it only
      through `Get`: with the map in their context they run out of resource. */
  lemma TwoKeyRowsEmpty(net: Net<int>, e1: Edge, e5: Edge, e2: Edge, e4: Edge)
    requires net == map[0 := [e1, e5], 3 := [e2, e4]]
    ensures forall k: nat :: k != 0 && k != 3 ==> Get(net, k) == []
  {
  }

  /** An empty tail adds nothing.  Stated over plain sequence parameters so
      that `TwoKeyAet` closes with a sequence identity alone: asserted inline,
      next to the unfolded `Layers` terms, the same step makes the solver
      diverge on some seeds. */
  lemma NothingAfter(aet: seq<Edge>, layers: seq<Edge>, layers': seq<Edge>, rest: seq<Edge>, result: seq<Edge>)
    requires aet == layers + rest && layers == layers' && layers' == result && rest == []
    ensures aet == result
  {
    assert result + [] == result;
  }

  lemma TwoKeyLayers(net: Net<int>, e1: Edge, e5: Edge, e2: Edge, e4: Edge)
    requires Get(net, 0) == [e1, e5] && Get(net, 3) == [e2, e4]
    requires forall k: nat :: k != 0 && k != 3 ==> Get(net, k) == []
    requires e1.yMax >= 8 && e5.yMax >= 8 && e2.yMax >= 8 && e4.yMax >= 8
    ensures Layers(net, 4, 7, 8) == [Advanced(e1, 7), Advanced(e5, 7), Advanced(e2, 4), Advanced(e4, 4)]
  {
    LayersSkipEmpty(net, 1, 3, 7, 8);
    TwoEdgesAdvanced(e1, e5, 7, 8);
    TwoEdgesAdvanced(e2, e4, 4, 8);
    assert Layers(net, 1, 7, 8) == [Advanced(e1, 7), Advanced(e5, 7)];
    assert Layers(net, 4, 7, 8) == [Advanced(e1, 7), Advanced(e5, 7)] + [Advanced(e2, 4), Advanced(e4, 4)];
  }

  /** The crossings of the hexagon's row 7, and what they sum to left of
      column 10 and overall. */
  lemma HexagonCrossings(vs: seq<Point>, rule: FillRule)
    requires vs == Hexagon()
    ensures var pts := Intersects(AetAt(PolygonNet(vs), 7), rule);
            match rule
            case NonZero => SumAll(pts, Contribution) == 0 && SumLe(pts, 10.0, Contribution) == -2
            case EvenOdd => SumAll(pts, Contribution) == 4 && SumLe(pts, 10.0, Contribution) == 2
  {
    HexagonAet();
    var aet := AetAt(PolygonNet(vs), 7);
    var pts := Intersects(aet, rule);
    FourCrossings(aet, rule);
    if rule == NonZero {
      FourSums(pts, 1, -1, -1, 1);
    } else {
      FourSums(pts, 1, 1, 1, 1);
    }
  }

  lemma FourCrossings(aet: seq<Edge>, rule: FillRule)
    requires aet == [ScanlineEdge(15, 181.0 / 15.0, -17.0 / 15.0, 1), ScanlineEdge(15, 42.0 / 5.0, 6.0 / 5.0, -1),
                     ScanlineEdge(15, 29.0 / 3.0, -5.0 / 6.0, -1), ScanlineEdge(15, 34.0 / 3.0, 5.0 / 6.0, 1)]
    ensures rule == NonZero ==> Intersects(aet, rule) == [(181.0 / 15.0, 1), (42.0 / 5.0, -1), (29.0 / 3.0, -1), (34.0 / 3.0, 1)]
    ensures rule == EvenOdd ==> Intersects(aet, rule) == [(181.0 / 15.0, 1), (42.0 / 5.0, 1), (29.0 / 3.0, 1), (34.0 / 3.0, 1)]
  {
  }

  lemma FourSums(pts: seq<(real, int)>, d1: int, d2: int, d3: int, d4: int)
    requires pts == [(181.0 / 15.0, d1), (42.0 / 5.0, d2), (29.0 / 3.0, d3), (34.0 / 3.0, d4)]
    ensures SumAll(pts, Contribution) == d1 + d2 + d3 + d4
    ensures SumLe(pts, 10.0, Contribution) == d2 + d3
  {
    assert pts[1..][1..][1..][1..] == [];
    assert SumAll(pts[1..][1..][1..], Contribution) == d4;
    assert SumAll(pts[1..][1..], Contribution) == d3 + d4;
    assert SumAll(pts[1..], Contribution) == d2 + d3 + d4;
    assert SumLe(pts[1..][1..][1..], 10.0, Contribution) == 0;
    assert SumLe(pts[1..][1..], 10.0, Contribution) == d3;
    assert SumLe(pts[1..], 10.0, Contribution) == d2 + d3;
  }

  /** `test_scanline_rule_non_zero`: pixel (7,10) lies where the hexagon
      overlaps itself; both crossings left of it run the same way, so the
      winding number there is -2 and the pixel is painted. */
  lemma HexagonNonZero()
    ensures Painted(Hexagon(), NonZero, 7, 10)
  {
    HexagonCrossings(Hexagon(), NonZero);
    PaintedMeaning(Hexagon(), NonZero, 7, 10);
  }

  /** `test_scanline_rule_even_odd`: the same pixel has two crossings left
      of it, an even number, so it keeps its background. */
  lemma HexagonEvenOdd()
    ensures !Painted(Hexagon(), EvenOdd, 7, 10)
  {
    HexagonEvenOddAt(Hexagon());
  }

  lemma HexagonEvenOddAt(vs: seq<Point>)
    requires vs == Hexagon()
    ensures !Painted(vs, EvenOdd, 7, 10)
  {
    HexagonCrossings(vs, EvenOdd);
    var pts := Intersects(AetAt(PolygonNet(vs), 7), EvenOdd);
    assert !Check(EvenOdd, SumAll(pts, Contribution));
    assert !Check(EvenOdd, SumLe(pts, 10 as real, Contribution));
    PaintedMeaning(vs, EvenOdd, 7, 10);
  }
}
