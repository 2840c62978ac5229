/**
 * The parts of the scan-line machinery that src/algorithms/scan_line.rs
 * and src/algorithms/fill_polygon.rs share: the scan-line edge, its
 * construction from a polygon line, the New Edge Table (NET) keyed by
 * starting row, and the closed form of an Active Edge Table (AET).
 *
 * The two source files each declare their own `ScanlineEdge`; they differ
 * only in the type of the orientation field (`is_upwards: bool` in
 * scan_line.rs, `direction: i8` in fill_polygon.rs), so the edge here is
 * generic in that field, and construction takes the values to store for
 * an upward and a downward line.
 */
module EdgeTable {
  import opened Wrappers
  import opened Nums
  import opened Geometry
  import opened Polygons

  datatype ScanlineEdge<D> = ScanlineEdge(yMax: nat, x: real, deltaX: real, dir: D)

  /** The NET row of a line: the ceiling of its lower y, cast to usize. */
  function Key(l: Line): nat
  {
    CeilToUsize(YMinPoint(l).y)
  }

  /**
   * `ScanlineEdge::from_line`: no edge for a horizontal line or for a line
   * whose two ends round up to the same row; otherwise the last row
   * `floor(y_max)`, the intercept moved to the first whole row at or above
   * the lower end, the inverse slope as the per-row step, and the
   * orientation of the line as given.
   */
  function FromLineWith<D>(l: Line, up: D, down: D): (r: Option<ScanlineEdge<D>>)
    ensures r.None? <==> l.start.y == l.end.y || CeilToUsize(l.start.y) == CeilToUsize(l.end.y)
    ensures r.Some? ==> Key(l) <= r.value.yMax
    ensures r.Some? ==> r.value.yMax == FloorToUsize(YMaxPoint(l).y)
    ensures r.Some? ==> r.value.deltaX * (l.end.y - l.start.y) == l.end.x - l.start.x
    ensures r.Some? ==> r.value.dir == if l.start.y < l.end.y then up else down
  {
    match InvSlope(l)
    case None => None
    case Some(invSlope) =>
      var yMax := YMaxPoint(l).y;
      var lower := YMinPoint(l);
      if CeilToUsize(yMax) == CeilToUsize(lower.y) then None
      else
        Some(ScanlineEdge(FloorToUsize(yMax),
                          lower.x + (FloatCeil(lower.y) as real - lower.y) * invSlope,
                          invSlope,
                          if l.start.y < l.end.y then up else down))
  }

  /** The edge `n` rows below where it was built. */
  function Advanced<D>(e: ScanlineEdge<D>, n: nat): ScanlineEdge<D>
  {
    e.(x := e.x + n as real * e.deltaX)
  }

  /** `ScanlineEdge::shift_down`: one row further, only `x` changes. */
  function ShiftDown<D>(e: ScanlineEdge<D>): (r: ScanlineEdge<D>)
    ensures r.yMax == e.yMax && r.deltaX == e.deltaX && r.dir == e.dir
    ensures r.x - e.x == e.deltaX
  {
    e.(x := e.deltaX + e.x)
  }

  /** Shifting an edge advanced by `n` rows advances it by `n + 1`. */
  lemma ShiftDownAdvanced<D>(e: ScanlineEdge<D>, n: nat)
    ensures ShiftDown(Advanced(e, n)) == Advanced(e, n + 1)
  {
    assert (n + 1) as real * e.deltaX == n as real * e.deltaX + e.deltaX;
  }

  /**
   * The initial intercept lies on the line through the two endpoints, at
   * the first whole row `ceil(y_min)`.
   */
  lemma FromLineIntercept<D>(l: Line, up: D, down: D)
    requires FromLineWith(l, up, down).Some?
    ensures var e := FromLineWith(l, up, down).value;
            (e.x - l.start.x) * (l.end.y - l.start.y)
            == (FloatCeil(YMinPoint(l).y) as real - l.start.y) * (l.end.x - l.start.x)
  {
    var e := FromLineWith(l, up, down).value;
    var s := e.deltaX;
    var p := YMinPoint(l);
    var c := FloatCeil(p.y) as real;
    var dy := l.end.y - l.start.y;
    BuiltEdge(l, up, down);
    if p == l.start {
      calc {
        (e.x - l.start.x) * dy;
        ((c - p.y) * s) * dy;
        (c - p.y) * (s * dy);
      }
    } else {
      assert p == l.end;
      calc {
        (e.x - l.start.x) * dy;
        (l.end.x - l.start.x + (c - l.end.y) * s) * dy;
        (l.end.x - l.start.x) * dy + (c - l.end.y) * (s * dy);
        (l.end.x - l.start.x) * dy + (c - l.end.y) * (l.end.x - l.start.x);
        (c - l.start.y) * (l.end.x - l.start.x);
      }
    }
  }

  function Min(a: real, b: real): real { if a <= b then a else b }
  function Max(a: real, b: real): real { if a >= b then a else b }

  /** The x reached from `x0` after rising `a` of the `d` it takes to
      reach `x1`. */
  function Lerp(x0: real, x1: real, a: real, d: real): real
    requires d != 0.0
  {
    x0 + a * ((x1 - x0) / d)
  }

  /** `x0 + t * (x1 - x0)` with `0 <= t <= 1` lies between `x0` and `x1`. */
  lemma Interpolation(x0: real, x1: real, a: real, d: real)
    requires d > 0.0 && 0.0 <= a <= d
    ensures Min(x0, x1) <= Lerp(x0, x1, a, d) <= Max(x0, x1)
  {
    var t := a / d;
    assert a * ((x1 - x0) / d) == t * (x1 - x0);
    assert 0.0 <= t <= 1.0;
    if x1 >= x0 {
      assert 0.0 <= t * (x1 - x0) <= x1 - x0;
    } else {
      assert x1 - x0 <= t * (x1 - x0) <= 0.0;
    }
  }

  /**
   * On every row where the sweep can hold it — the first row, and every
   * later row up to `y_max` — the intercept of an edge lies between the
   * x-coordinates of the line's endpoints.
   */
  lemma AdvancedOnSegment<D>(l: Line, up: D, down: D, n: nat)
    requires FromLineWith(l, up, down).Some?
    requires n == 0 || FromLineWith(l, up, down).value.yMax >= Key(l) + n
    ensures var e := FromLineWith(l, up, down).value;
            Min(l.start.x, l.end.x) <= Advanced(e, n).x <= Max(l.start.x, l.end.x)
  {
    var e := FromLineWith(l, up, down).value;
    var p, q := YMinPoint(l), YMaxPoint(l);
    var y := FloatCeil(p.y) as real + n as real;
    RowWithinLine(l, up, down, n);
    AdvancedIntercept(l, up, down, n);
    Interpolation(p.x, q.x, y - p.y, q.y - p.y);
    EndpointsBounds(l);
  }

  /** The lower and upper endpoints span the same x-range as the line. */
  lemma EndpointsBounds(l: Line)
    requires l.start.y != l.end.y
    ensures Min(YMinPoint(l).x, YMaxPoint(l).x) == Min(l.start.x, l.end.x)
    ensures Max(YMinPoint(l).x, YMaxPoint(l).x) == Max(l.start.x, l.end.x)
  {
    if l.start.y < l.end.y {
      assert YMinPoint(l) == l.start && YMaxPoint(l) == l.end;
    } else {
      assert YMinPoint(l) == l.end && YMaxPoint(l) == l.start;
    }
  }

  /** The row an edge is advanced to lies between the line's two ys. */
  lemma RowWithinLine<D>(l: Line, up: D, down: D, n: nat)
    requires FromLineWith(l, up, down).Some?
    requires n == 0 || FromLineWith(l, up, down).value.yMax >= Key(l) + n
    ensures YMinPoint(l).y <= FloatCeil(YMinPoint(l).y) as real + n as real <= YMaxPoint(l).y
  {
    var p, q := YMinPoint(l), YMaxPoint(l);
    if n == 0 {
      assert CeilToUsize(q.y) != CeilToUsize(p.y);
      CeilToUsizeMonotone(p.y, q.y);
    } else {
      assert FloorToUsize(q.y) >= Key(l) + n;
    }
  }

  /** The advanced intercept is the lower endpoint's x plus the slope
      times the rise to the advanced row. */
  lemma AdvancedIntercept<D>(l: Line, up: D, down: D, n: nat)
    requires FromLineWith(l, up, down).Some?
    ensures var e := FromLineWith(l, up, down).value;
            var p, q := YMinPoint(l), YMaxPoint(l);
            p.y < q.y &&
            Advanced(e, n).x == Lerp(p.x, q.x, FloatCeil(p.y) as real + n as real - p.y, q.y - p.y)
  {
    var e := FromLineWith(l, up, down).value;
    var p, q := YMinPoint(l), YMaxPoint(l);
    var s := InvSlope(l).value;
    var c := FloatCeil(p.y) as real;
    BuiltEdge(l, up, down);
    MinMaxPointsPartition(l);
    InvSlopeFromLowerPoint(l);
    DivideBack(s, q.x - p.x, q.y - p.y);
    LerpSteps(p.x, q.x, p.y, q.y - p.y, c, n as real, s);
  }

  /** The start and the step of a built edge, from the lower endpoint and
      the slope. */
  lemma BuiltEdge<D>(l: Line, up: D, down: D)
    requires FromLineWith(l, up, down).Some?
    ensures InvSlope(l).Some?
    ensures FromLineWith(l, up, down).value.deltaX == InvSlope(l).value
    ensures FromLineWith(l, up, down).value.x
         == YMinPoint(l).x + (FloatCeil(YMinPoint(l).y) as real - YMinPoint(l).y) * InvSlope(l).value
  {
  }

  /** The start at row `c` plus `n` steps of the slope is the point `n`
      rows further up the line. */
  lemma LerpSteps(px: real, qx: real, py: real, d: real, c: real, n: real, s: real)
    requires d != 0.0 && s == (qx - px) / d
    ensures px + (c - py) * s + n * s == Lerp(px, qx, c + n - py, d)
  {
    assert (c - py) * s + n * s == (c + n - py) * s;
  }

  lemma DivideBack(s: real, n: real, d: real)
    requires d != 0.0 && s * d == n
    ensures s == n / d
  {
  }

  // ---------------------------------------------------------------------
  // The New Edge Table

  type Net<D> = map<nat, seq<ScanlineEdge<D>>>

  /** `net.get(&row)`, with a missing row read as no edges. */
  function Get<D>(net: Net<D>, k: nat): seq<ScanlineEdge<D>>
  {
    if k in net then net[k] else []
  }

  /** The table `net_from_polygon` builds from a list of lines: each line
      in turn, its edge (if any) pushed onto the list of its row. */
  function NetOf<D>(lines: seq<Line>, up: D, down: D): Net<D>
  {
    if lines == [] then map[]
    else
      var net := NetOf(lines[..|lines| - 1], up, down);
      var l := lines[|lines| - 1];
      match FromLineWith(l, up, down)
      case None => net
      case Some(e) => net[Key(l) := Get(net, Key(l)) + [e]]
  }

  /** The edges of the lines keyed at row `k`, in the order of the lines. */
  function KeyedEdges<D>(lines: seq<Line>, k: nat, up: D, down: D): seq<ScanlineEdge<D>>
  {
    if lines == [] then []
    else
      var l := lines[|lines| - 1];
      var e := FromLineWith(l, up, down);
      KeyedEdges(lines[..|lines| - 1], k, up, down)
        + (if e.Some? && Key(l) == k then [e.value] else [])
  }

  /**
   * The table holds, under each row, exactly the edges of the lines keyed
   * at that row, in traversal order; a row is present only when it has
   * edges.
   */
  lemma {:induction false} NetOfIsKeyedEdges<D>(lines: seq<Line>, up: D, down: D)
    ensures forall k: nat :: Get(NetOf(lines, up, down), k) == KeyedEdges(lines, k, up, down)
    ensures forall k: nat :: k in NetOf(lines, up, down) <==> KeyedEdges(lines, k, up, down) != []
  {
    if lines != [] {
      NetOfIsKeyedEdges(lines[..|lines| - 1], up, down);
    }
  }

  /** Every keyed edge comes from a kept line with that key. */
  lemma {:induction false} KeyedEdgesOrigin<D>(lines: seq<Line>, k: nat, up: D, down: D, e: ScanlineEdge<D>)
    requires e in KeyedEdges(lines, k, up, down)
    ensures exists i :: 0 <= i < |lines| && FromLineWith(lines[i], up, down) == Some(e) && Key(lines[i]) == k
  {
    var init := lines[..|lines| - 1];
    if e in KeyedEdges(init, k, up, down) {
      KeyedEdgesOrigin(init, k, up, down, e);
      var i :| 0 <= i < |init| && FromLineWith(init[i], up, down) == Some(e) && Key(init[i]) == k;
      assert lines[i] == init[i];
    } else {
      assert FromLineWith(lines[|lines| - 1], up, down) == Some(e);
    }
  }

  /** Every edge of a row of the table is the edge of a kept line with
      that row as its key. */
  lemma NetEdgeLine<D>(lines: seq<Line>, k: nat, up: D, down: D, e: ScanlineEdge<D>) returns (i: nat)
    requires e in Get(NetOf(lines, up, down), k)
    ensures i < |lines| && FromLineWith(lines[i], up, down) == Some(e) && Key(lines[i]) == k
  {
    NetOfIsKeyedEdges(lines, up, down);
    KeyedEdgesOrigin(lines, k, up, down, e);
    i :| 0 <= i < |lines| && FromLineWith(lines[i], up, down) == Some(e) && Key(lines[i]) == k;
  }

  /** Every kept line's edge is keyed under the line's key. */
  lemma {:induction false} KeyedEdgesComplete<D>(lines: seq<Line>, i: nat, up: D, down: D)
    requires i < |lines| && FromLineWith(lines[i], up, down).Some?
    ensures FromLineWith(lines[i], up, down).value in KeyedEdges(lines, Key(lines[i]), up, down)
  {
    var init := lines[..|lines| - 1];
    if i < |lines| - 1 {
      assert init[i] == lines[i];
      KeyedEdgesComplete(init, i, up, down);
    }
  }

  /** `net_from_polygon`: one pass over the polygon's edges. */
  method NetFromPolygon<D>(poly: Polygon, up: D, down: D) returns (net: Net<D>)
    ensures net == NetOf(poly.Edges(), up, down)
  {
    net := map[];
    var edges := poly.Edges();
    for i := 0 to |edges|
      invariant net == NetOf(edges[..i], up, down)
    {
      assert edges[..i + 1][..i] == edges[..i];
      var line := edges[i];
      match FromLineWith(line, up, down) {
        case Some(edge) =>
          var k := Key(line);
          net := net[k := Get(net, k) + [edge]];
        case None =>
      }
    }
    assert edges[..|edges|] == edges;
  }

  // ---------------------------------------------------------------------
  // The Active Edge Table

  /** `aet.iter_mut().for_each(|p| p.shift_down())`. */
  function ShiftAll<D>(aet: seq<ScanlineEdge<D>>): seq<ScanlineEdge<D>>
  {
    if aet == [] then [] else [ShiftDown(aet[0])] + ShiftAll(aet[1..])
  }

  /** Every edge of a list advanced by the same number of rows. */
  function AdvanceAll<D>(es: seq<ScanlineEdge<D>>, n: nat): seq<ScanlineEdge<D>>
  {
    if es == [] then [] else [Advanced(es[0], n)] + AdvanceAll(es[1..], n)
  }

  /** `aet.retain(|l| l.y_max >= bound)`, keeping the order. */
  function Survivors<D>(aet: seq<ScanlineEdge<D>>, bound: nat): seq<ScanlineEdge<D>>
  {
    if aet == [] then []
    else (if aet[0].yMax >= bound then [aet[0]] else []) + Survivors(aet[1..], bound)
  }

  /**
   * The closed form of an AET at row `r`: for each key `k < n` in turn,
   * the edges of row `k` advanced by `r - k` rows, less those whose last
   * row is below `bound`.
   */
  function Layers<D>(net: Net<D>, n: nat, r: nat, bound: nat): seq<ScanlineEdge<D>>
    requires n <= r + 1
  {
    if n == 0 then []
    else Layers(net, n - 1, r, bound) + Survivors(AdvanceAll(Get(net, n - 1), r - (n - 1)), bound)
  }

  lemma {:induction false} ShiftAllConcat<D>(a: seq<ScanlineEdge<D>>, b: seq<ScanlineEdge<D>>)
    ensures ShiftAll(a + b) == ShiftAll(a) + ShiftAll(b)
  {
    if a != [] {
      assert (a + b)[1..] == a[1..] + b;
      ShiftAllConcat(a[1..], b);
    } else {
      assert a + b == b;
    }
  }

  lemma {:induction false} SurvivorsConcat<D>(a: seq<ScanlineEdge<D>>, b: seq<ScanlineEdge<D>>, bound: nat)
    ensures Survivors(a + b, bound) == Survivors(a, bound) + Survivors(b, bound)
  {
    if a != [] {
      assert (a + b)[1..] == a[1..] + b;
      SurvivorsConcat(a[1..], b, bound);
    } else {
      assert a + b == b;
    }
  }

  lemma {:induction false} AdvanceAllZero<D>(es: seq<ScanlineEdge<D>>)
    ensures AdvanceAll(es, 0) == es
  {
    if es != [] {
      AdvanceAllZero(es[1..]);
    }
  }

  lemma {:induction false} ShiftAllIsAdvanceOne<D>(es: seq<ScanlineEdge<D>>)
    ensures ShiftAll(es) == AdvanceAll(es, 1)
  {
    if es != [] {
      ShiftAllIsAdvanceOne(es[1..]);
      ShiftDownAdvanced(es[0], 0);
      assert Advanced(es[0], 0) == es[0];
    }
  }

  /**
   * One more row of a retained layer: shifting the survivors of `bound`
   * and then retaining at a later `bound'` is the same as advancing one
   * row further and retaining at `bound'` only.
   */
  lemma {:induction false} ShiftSurvivors<D>(es: seq<ScanlineEdge<D>>, m: nat, bound: nat, bound': nat)
    requires bound <= bound'
    ensures Survivors(ShiftAll(Survivors(AdvanceAll(es, m), bound)), bound')
         == Survivors(AdvanceAll(es, m + 1), bound')
  {
    if es != [] {
      ShiftSurvivors(es[1..], m, bound, bound');
      ShiftDownAdvanced(es[0], m);
      var head := Advanced(es[0], m);
      var rest := Survivors(AdvanceAll(es[1..], m), bound);
      if head.yMax >= bound {
        assert Survivors(AdvanceAll(es, m), bound) == [head] + rest;
        assert ShiftAll([head] + rest) == [ShiftDown(head)] + ShiftAll(rest);
      } else {
        assert Survivors(AdvanceAll(es, m), bound) == rest;
      }
    }
  }

  /** Shifting a whole closed-form AET and retaining at `bound'` gives the
      closed form one row later. */
  lemma {:induction false} ShiftLayers<D>(net: Net<D>, n: nat, r: nat, bound: nat, bound': nat)
    requires n <= r + 1 && bound <= bound'
    ensures Survivors(ShiftAll(Layers(net, n, r, bound)), bound') == Layers(net, n, r + 1, bound')
  {
    if n > 0 {
      var es, m := Get(net, n - 1), r - (n - 1);
      LayersUnfold(net, n, r, bound, m);
      LayersUnfold(net, n, r + 1, bound', m + 1);
      ShiftLayers(net, n - 1, r, bound, bound');
      ShiftAppendedLayer(Layers(net, n, r, bound), Layers(net, n - 1, r, bound), es, m, bound, bound',
                         Layers(net, n - 1, r + 1, bound'), Layers(net, n, r + 1, bound'));
    } else {
      assert Layers(net, 0, r, bound) == [] && Layers(net, 0, r + 1, bound') == [];
      assert ShiftAll<D>([]) == [] && Survivors<D>([], bound') == [];
    }
  }

  /** The last layer of the closed form, its edges moved `m` rows. */
  lemma LayersUnfold<D>(net: Net<D>, n: nat, r: nat, bound: nat, m: nat)
    requires 0 < n <= r + 1 && m == r - (n - 1)
    ensures Layers(net, n, r, bound) == Layers(net, n - 1, r, bound) + Survivors(AdvanceAll(Get(net, n - 1), m), bound)
  {
  }

  /** Shifting and retaining an AET with one more retained layer appended
      appends that layer advanced one row further. */
  lemma ShiftAppendedLayer<D>(layers: seq<ScanlineEdge<D>>, front: seq<ScanlineEdge<D>>, es: seq<ScanlineEdge<D>>,
                              m: nat, bound: nat, bound': nat, tail: seq<ScanlineEdge<D>>, next: seq<ScanlineEdge<D>>)
    requires bound <= bound'
    requires layers == front + Survivors(AdvanceAll(es, m), bound)
    requires Survivors(ShiftAll(front), bound') == tail
    requires next == tail + Survivors(AdvanceAll(es, m + 1), bound')
    ensures Survivors(ShiftAll(layers), bound') == next
  {
    var last := Survivors(AdvanceAll(es, m), bound);
    ShiftAllConcat(front, last);
    SurvivorsConcat(ShiftAll(front), ShiftAll(last), bound');
    ShiftSurvivors(es, m, bound, bound');
  }

  lemma {:induction false} SurvivorsOfAdvancedMembers<D>(es: seq<ScanlineEdge<D>>, m: nat, bound: nat, e': ScanlineEdge<D>)
    ensures e' in Survivors(AdvanceAll(es, m), bound)
        <==> exists e :: e in es && bound <= e.yMax && e' == Advanced(e, m)
  {
    if es != [] {
      SurvivorsOfAdvancedMembers(es[1..], m, bound, e');
      if e' in Survivors(AdvanceAll(es[1..], m), bound) {
        var e :| e in es[1..] && bound <= e.yMax && e' == Advanced(e, m);
        assert e in es;
      }
      assert Survivors(AdvanceAll(es, m), bound)
          == (if es[0].yMax >= bound then [Advanced(es[0], m)] else []) + Survivors(AdvanceAll(es[1..], m), bound);
      if exists e :: e in es && bound <= e.yMax && e' == Advanced(e, m) {
        var e :| e in es && bound <= e.yMax && e' == Advanced(e, m);
        if e != es[0] {
          assert e in es[1..];
        }
      }
    }
  }

  /**
   * An edge is in the closed-form AET exactly when it is an edge keyed at
   * some row `k < n`, whose last row is at least `bound`, advanced by
   * `r - k` rows.
   */
  lemma {:induction false} LayersMembers<D>(net: Net<D>, n: nat, r: nat, bound: nat, e': ScanlineEdge<D>)
    requires n <= r + 1
    ensures e' in Layers(net, n, r, bound)
        <==> exists k: nat, e :: k < n && e in Get(net, k) && bound <= e.yMax && e' == Advanced(e, r - k)
  {
    if e' in Layers(net, n, r, bound) {
      var k, e := LayersOrigin(net, n, r, bound, e');
      assert k < n && e in Get(net, k) && bound <= e.yMax && e' == Advanced(e, r - k);
    } else {
      forall k: nat, e | k < n && e in Get(net, k) && bound <= e.yMax
        ensures e' != Advanced(e, r - k)
      {
        LayersMember(net, n, r, bound, k, e);
      }
    }
  }

  /** Every edge of the closed form comes from some row `k < n`. */
  lemma {:induction false} LayersOrigin<D>(net: Net<D>, n: nat, r: nat, bound: nat, e': ScanlineEdge<D>)
      returns (k: nat, e: ScanlineEdge<D>)
    requires n <= r + 1 && e' in Layers(net, n, r, bound)
    ensures k < n && e in Get(net, k) && bound <= e.yMax && e' == Advanced(e, r - k)
  {
    var last := Survivors(AdvanceAll(Get(net, n - 1), r - (n - 1)), bound);
    if e' in last {
      SurvivorsOfAdvancedMembers(Get(net, n - 1), r - (n - 1), bound, e');
      k := n - 1;
      e :| e in Get(net, k) && bound <= e.yMax && e' == Advanced(e, r - k);
    } else {
      k, e := LayersOrigin(net, n - 1, r, bound, e');
    }
  }

  /** Every surviving edge of a row `k < n` is in the closed form. */
  lemma {:induction false} LayersMember<D>(net: Net<D>, n: nat, r: nat, bound: nat, k: nat, e: ScanlineEdge<D>)
    requires n <= r + 1 && k < n && e in Get(net, k) && bound <= e.yMax
    ensures Advanced(e, r - k) in Layers(net, n, r, bound)
  {
    var m := r - (n - 1);
    var front, last := Layers(net, n - 1, r, bound), Survivors(AdvanceAll(Get(net, n - 1), m), bound);
    LayersUnfold(net, n, r, bound, m);
    if k < n - 1 {
      LayersMember(net, n - 1, r, bound, k, e);
      assert Advanced(e, r - k) in front;
    } else {
      assert r - k == m;
      SurvivorsOfAdvancedMembers(Get(net, n - 1), m, bound, Advanced(e, m));
      assert e in Get(net, n - 1) && bound <= e.yMax;
      assert Advanced(e, m) in last;
    }
  }

  /** The closed form at row `r` reads only the table's rows up to `n - 1`:
      rows keyed at or after `n` play no part. */
  lemma {:induction false} LayersReadOnlyEarlierRows<D>(net: Net<D>, net': Net<D>, n: nat, r: nat, bound: nat)
    requires n <= r + 1
    requires forall k: nat :: k < n ==> Get(net, k) == Get(net', k)
    ensures Layers(net, n, r, bound) == Layers(net', n, r, bound)
  {
    if n > 0 {
      LayersReadOnlyEarlierRows(net, net', n - 1, r, bound);
    }
  }
}
