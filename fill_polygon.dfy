/**
 * The in-place rasterizer of src/algorithms/fill_polygon.rs: `fill_polygon`
 * sweeps the rows of an image, keeping an AET that it shifts, retains
 * (`y_max > row`) and then extends from the NET, turns each row's crossings
 * into half-open column spans (sort, prefix sum, dedup, pair) and paints
 * the pixels of those spans.
 *
 * The pixel colour update (sRGB decoding, `multiply` blend, re-encoding)
 * is the parameter `paint`.
 */
module FillPolygon {
  import opened Wrappers
  import opened Nums
  import opened Geometry
  import opened Polygons
  import opened EdgeTable
  import opened Crossings

  /** The scan-line edge of fill_polygon.rs; `dir` is `direction`. */
  type Edge = ScanlineEdge<int>

  /** `ScanlineEdge::from_line` of fill_polygon.rs: `direction` is +1 for a
      line going from smaller to larger y, -1 otherwise. */
  function FromLine(l: Line): (r: Option<Edge>)
    ensures r.None? <==> l.start.y == l.end.y || CeilToUsize(l.start.y) == CeilToUsize(l.end.y)
    ensures r.Some? ==> r.value.dir == (if l.start.y < l.end.y then 1 else -1)
    ensures r.Some? ==> Key(l) <= r.value.yMax
  {
    FromLineWith(l, 1, -1)
  }

  /** `ScanlineEdge::get_intersect` of fill_polygon.rs: the direction under
      NonZero, a uniform +1 under EvenOdd. */
  function GetIntersect(e: Edge, rule: FillRule): (real, int)
  {
    match rule
    case NonZero => (e.x, e.dir)
    case EvenOdd => (e.x, 1)
  }

  /** What a crossing adds to the prefix sum: `point.1 as i32`. */
  function Contribution(d: int): int { d }

  function Intersects(aet: seq<Edge>, rule: FillRule): (pts: seq<(real, int)>)
    ensures |pts| == |aet|
    ensures forall i :: 0 <= i < |aet| ==> pts[i] == GetIntersect(aet[i], rule)
  {
    seq(|aet|, i requires 0 <= i < |aet| => GetIntersect(aet[i], rule))
  }

  /** Every crossing of an edge built by `FromLine` contributes +1 or -1. */
  lemma UnitContributions(aet: seq<Edge>, rule: FillRule)
    requires forall e :: e in aet ==> e.dir == 1 || e.dir == -1
    ensures forall i :: 0 <= i < |aet| ==>
              Contribution(Intersects(aet, rule)[i].1) == 1 || Contribution(Intersects(aet, rule)[i].1) == -1
  {
    forall i | 0 <= i < |aet| ensures aet[i] in aet { }
  }

  /** The NET `fill_polygon` builds for a vertex list. */
  function PolygonNet(vertices: seq<Point>): Net<int>
  {
    NetOf(EdgesOf(vertices), 1, -1)
  }

  // ---------------------------------------------------------------------
  // The Active Edge Table

  /**
   * The AET used at row `r`: the previous row's AET shifted, retained
   * while `y_max > r`, and then extended by the edges keyed at `r`.
   */
  function AetAt(net: Net<int>, r: nat): seq<Edge>
    decreases r, 1
  {
    Survivors(ShiftAll(AetBefore(net, r)), r + 1) + Get(net, r)
  }

  /** The AET left over from the row before `r` (empty before row 0). */
  function AetBefore(net: Net<int>, r: nat): seq<Edge>
    decreases r, 0
  {
    if r == 0 then [] else AetAt(net, r - 1)
  }

  /**
   * The AET at row `r` in closed form: the edges keyed before `r`, in key
   * order, advanced by `r - k` rows and kept while their last row is after
   * `r`, followed by the edges keyed at `r` itself.
   */
  lemma {:induction false} AetClosedForm(net: Net<int>, r: nat)
    ensures AetAt(net, r) == Layers(net, r, r, r + 1) + Get(net, r)
  {
    if r > 0 {
      AetClosedForm(net, r - 1);
      AetStep(net, r);
    } else {
      assert Layers(net, 0, 0, 1) == [];
      assert Survivors(ShiftAll(AetBefore(net, 0)), 1) == [];
    }
  }

  /** One row of the fill loop keeps the closed form: the AET of row `r`
      from that of row `r - 1`. */
  lemma AetStep(net: Net<int>, r: nat)
    requires r > 0 && AetAt(net, r - 1) == Layers(net, r - 1, r - 1, r) + Get(net, r - 1)
    ensures AetAt(net, r) == Layers(net, r, r, r + 1) + Get(net, r)
  {
    assert AetBefore(net, r) == AetAt(net, r - 1);
    CarriedLayers(net, r);
  }

  /** The edges carried over into row `r > 0`, from the closed form of the
      AET at row `r - 1`. */
  lemma CarriedLayers(net: Net<int>, r: nat)
    requires r > 0
    ensures Survivors(ShiftAll(Layers(net, r - 1, r - 1, r) + Get(net, r - 1)), r + 1)
         == Layers(net, r, r, r + 1)
  {
    var prevLayers := Layers(net, r - 1, r - 1, r);
    var prevNew := Get(net, r - 1);
    ShiftAllConcat(prevLayers, prevNew);
    SurvivorsConcat(ShiftAll(prevLayers), ShiftAll(prevNew), r + 1);
    ShiftLayers(net, r - 1, r - 1, r, r + 1);
    ShiftAllIsAdvanceOne(prevNew);
    assert r - (r - 1) == 1;
  }

  /** An edge keyed at row `k` is still in the AET of row `r`: `k <= r`
      and either it entered at this row or its `y_max` is below `r`. */
  predicate ActiveAt(e: Edge, k: nat, r: nat)
  {
    k <= r && (k == r || r < e.yMax)
  }

  /**
   * An edge keyed at row `k` is active exactly on the rows `r` with
   * `k <= r < max(k + 1, y_max)`, and at row `r` its intercept has moved
   * `r - k` steps.
   */
  lemma ActiveEdges(net: Net<int>, r: nat, e': Edge)
    ensures e' in AetAt(net, r)
        <==> exists k: nat, e :: e in Get(net, k) && ActiveAt(e, k, r) && e' == Advanced(e, r - k)
  {
    if e' in AetAt(net, r) {
      var k, e := ActiveEdgeKey(net, r, e');
      assert e in Get(net, k) && ActiveAt(e, k, r) && e' == Advanced(e, r - k);
    } else {
      forall k: nat, e | e in Get(net, k) && ActiveAt(e, k, r)
        ensures e' != Advanced(e, r - k)
      {
        ActiveEdgeMember(net, r, k, e);
      }
    }
  }

  /** An edge keyed at `k` is in the AET of row `r` when `k <= r` and it
      has not ended yet. */
  lemma ActiveEdgeMember(net: Net<int>, r: nat, k: nat, e: Edge)
    requires e in Get(net, k) && ActiveAt(e, k, r)
    ensures Advanced(e, r - k) in AetAt(net, r)
  {
    AetClosedForm(net, r);
    if k == r {
      assert Advanced(e, 0) == e;
    } else {
      LayersMember(net, r, r, r + 1, k, e);
    }
  }

  /** The AET at row `r` reads only the table's rows up to `r`: edges keyed
      below the image (at or beyond its height) are never used. */
  lemma AetReadsRowsUpTo(net: Net<int>, net': Net<int>, r: nat)
    requires forall k: nat :: k <= r ==> Get(net, k) == Get(net', k)
    ensures AetAt(net, r) == AetAt(net', r)
  {
    AetClosedForm(net, r);
    AetClosedForm(net', r);
    LayersReadOnlyEarlierRows(net, net', r, r, r + 1);
  }

  // ---------------------------------------------------------------------
  // From crossings to spans

  /**
   * `scan` with a running `prefix_sum`: each crossing's x paired with
   * whether the pixels just right of it are inside, i.e. whether the rule
   * accepts the sum of the contributions up to and including it.
   */
  function Scan(pts: seq<(real, int)>, acc: int, rule: FillRule): (r: seq<(real, bool)>)
    ensures |r| == |pts|
    ensures forall i :: 0 <= i < |pts| ==> r[i].0 == pts[i].0
  {
    if pts == [] then []
    else
      var sum := acc + Contribution(pts[0].1);
      [(pts[0].0, Check(rule, sum))] + Scan(pts[1..], sum, rule)
  }

  /** The flag of every boundary is the rule applied to the prefix sum
      ending at it. */
  lemma {:induction false} ScanFlags(pts: seq<(real, int)>, acc: int, rule: FillRule)
    ensures forall i :: 0 <= i < |pts| ==>
              Scan(pts, acc, rule)[i].1 == Check(rule, acc + SumAll(pts[..i + 1], Contribution))
  {
    if pts != [] {
      var sum := acc + Contribution(pts[0].1);
      ScanFlags(pts[1..], sum, rule);
      forall i | 0 <= i < |pts|
        ensures Scan(pts, acc, rule)[i].1 == Check(rule, acc + SumAll(pts[..i + 1], Contribution))
      {
        assert pts[..i + 1][1..] == pts[1..][..i];
        if i > 0 {
          assert Scan(pts, acc, rule)[i] == Scan(pts[1..], sum, rule)[i - 1];
        }
      }
    }
  }

  /**
   * `dedup_by(|p1, p2| p1.1 == p2.1)` after a kept boundary whose flag is
   * `f`: a boundary whose flag equals the last kept one is dropped, so the
   * first of every run of equal flags is the one kept.
   */
  function DedupAfter(s: seq<(real, bool)>, f: bool): (r: seq<(real, bool)>)
    ensures |r| <= |s|
    ensures forall e :: e in r ==> e in s
    ensures r != [] ==> r[0].1 != f
    ensures forall i :: 0 < i < |r| ==> r[i].1 != r[i - 1].1
  {
    if s == [] then []
    else if s[0].1 == f then DedupAfter(s[1..], f)
    else [s[0]] + DedupAfter(s[1..], s[0].1)
  }

  /** `dedup_by` on a whole row: the first boundary is always kept. */
  function Dedup(s: seq<(real, bool)>): (r: seq<(real, bool)>)
    ensures |r| <= |s|
    ensures s != [] ==> r != [] && r[0] == s[0]
    ensures forall e :: e in r ==> e in s
    ensures forall i :: 0 < i < |r| ==> r[i].1 != r[i - 1].1
  {
    if s == [] then [] else [s[0]] + DedupAfter(s[1..], s[0].1)
  }

  /** `map(|p| f64::ceil(p.0) as usize)`. */
  function CeilAll(s: seq<(real, bool)>): (ns: seq<nat>)
    ensures |ns| == |s|
    ensures forall i :: 0 <= i < |s| ==> ns[i] == CeilToUsize(s[i].0)
  {
    seq(|s|, i requires 0 <= i < |s| => CeilToUsize(s[i].0))
  }

  /** `tuples::<(_, _)>()`: consecutive pairs; an unpaired last element is
      dropped. */
  function Tuples(ns: seq<nat>): (r: seq<(nat, nat)>)
    ensures |r| == |ns| / 2
    ensures forall i :: 0 <= i < |r| ==> r[i] == (ns[2 * i], ns[2 * i + 1])
  {
    if |ns| < 2 then []
    else
      var rest := Tuples(ns[2..]);
      assert forall i :: 0 < i <= |rest| ==> ns[2..][2 * (i - 1)] == ns[2 * i];
      [(ns[0], ns[1])] + rest
  }

  /** The half-open column spans `[low, high)` of a row whose crossings are
      sorted by x. */
  function Spans(pts: seq<(real, int)>, rule: FillRule): seq<(nat, nat)>
  {
    Tuples(CeilAll(Dedup(Scan(pts, 0, rule))))
  }

  /** The spans `fill_polygon` paints for an AET. */
  function RowSpans(aet: seq<Edge>, rule: FillRule): seq<(nat, nat)>
  {
    Spans(SortByX(Intersects(aet, rule)), rule)
  }

  predicate Covered(spans: seq<(nat, nat)>, col: nat)
  {
    exists i :: 0 <= i < |spans| && spans[i].0 <= col < spans[i].1
  }

  /** The flag of the last boundary at or left of `c`, or `cur` when there
      is none. */
  function InsideAt(s: seq<(real, bool)>, c: real, cur: bool): bool
  {
    if s == [] || s[0].0 > c then cur else InsideAt(s[1..], c, s[0].1)
  }

  /** The boundaries open a span at even positions and close one at odd
      positions. */
  predicate OpensAtEven(d: seq<(real, bool)>)
  {
    forall i :: 0 <= i < |d| ==> d[i].1 == (i % 2 == 0)
  }

  /** Replaying the prefix sums of a sorted row up to column `c` gives the
      rule applied to the weight of the crossings at or left of `c`. */
  lemma {:induction false} InsideAtScan(pts: seq<(real, int)>, acc: int, rule: FillRule, c: real)
    requires SortedByX(pts)
    ensures InsideAt(Scan(pts, acc, rule), c, Check(rule, acc))
         == Check(rule, acc + SumLe(pts, c, Contribution))
  {
    if pts != [] {
      var sum := acc + Contribution(pts[0].1);
      if pts[0].0 <= c {
        InsideAtScan(pts[1..], sum, rule, c);
      } else {
        SumLeSortedPrefix(pts, 0, c, Contribution);
      }
    }
  }

  lemma {:induction false} InsideAtDedupAfter(s: seq<(real, bool)>, f: bool, c: real)
    requires SortedByX(s)
    ensures InsideAt(DedupAfter(s, f), c, f) == InsideAt(s, c, f)
  {
    if s != [] {
      InsideAtDedupAfter(s[1..], if s[0].1 == f then f else s[0].1, c);
      if s[0].1 == f && s[0].0 > c && |s| > 1 {
        assert s[1].0 >= s[0].0;
      }
    }
  }

  /** Dropping repeated flags does not change which side of the boundary
      any column is on. */
  lemma InsideAtDedup(s: seq<(real, bool)>, c: real)
    requires SortedByX(s)
    ensures InsideAt(Dedup(s), c, false) == InsideAt(s, c, false)
  {
    if s != [] {
      InsideAtDedupAfter(s[1..], s[0].1, c);
    }
  }

  lemma {:induction false} DedupAfterSorted(s: seq<(real, bool)>, f: bool)
    requires SortedByX(s)
    ensures SortedByX(DedupAfter(s, f))
  {
    if s != [] {
      DedupAfterSorted(s[1..], if s[0].1 == f then f else s[0].1);
      var rest := DedupAfter(s[1..], if s[0].1 == f then f else s[0].1);
      forall e | e in rest
        ensures s[0].0 <= e.0
      {
        var j :| 0 <= j < |s[1..]| && s[1..][j] == e;
        assert s[j + 1] == e;
      }
    }
  }

  /** The kept boundaries stay in x order. */
  lemma DedupSorted(s: seq<(real, bool)>)
    requires SortedByX(s)
    ensures SortedByX(Dedup(s))
  {
    if s != [] {
      DedupAfterSorted(s[1..], s[0].1);
      forall e | e in DedupAfter(s[1..], s[0].1)
        ensures s[0].0 <= e.0
      {
        var j :| 0 <= j < |s[1..]| && s[1..][j] == e;
        assert s[j + 1] == e;
      }
    }
  }

  lemma {:induction false} AlternatingFromInside(d: seq<(real, bool)>)
    requires d != [] ==> d[0].1
    requires forall i :: 0 < i < |d| ==> d[i].1 != d[i - 1].1
    ensures OpensAtEven(d)
  {
    if d != [] {
      var front := d[..|d| - 1];
      assert forall i :: 0 <= i < |front| ==> front[i] == d[i];
      AlternatingFromInside(front);
      var k := |d| - 1;
      if k > 0 {
        assert d[k - 1].1 == ((k - 1) % 2 == 0) by {
          assert front[k - 1] == d[k - 1];
        }
      }
    }
  }

  /**
   * A row whose first crossing enters the polygon (every crossing counts
   * +1 or -1, so the first prefix sum is inside) turns into boundaries
   * that open a span at every even position and close it at every odd one.
   */
  lemma DedupScanAlternates(pts: seq<(real, int)>, rule: FillRule)
    requires forall i :: 0 <= i < |pts| ==> pts[i].1 == 1 || pts[i].1 == -1
    ensures OpensAtEven(Dedup(Scan(pts, 0, rule)))
  {
    if pts != [] {
      CheckFacts(rule, 0);
      AlternatingFromInside(Dedup(Scan(pts, 0, rule)));
    }
  }

  lemma CoveredFirst(spans: seq<(nat, nat)>, c: nat)
    requires spans != []
    ensures Covered(spans, c) <==> spans[0].0 <= c < spans[0].1 || Covered(spans[1..], c)
  {
    if Covered(spans, c) {
      var i :| 0 <= i < |spans| && spans[i].0 <= c < spans[i].1;
      if i > 0 {
        assert spans[1..][i - 1] == spans[i];
      }
    }
    if Covered(spans[1..], c) {
      var i :| 0 <= i < |spans[1..]| && spans[1..][i].0 <= c < spans[1..][i].1;
      assert spans[i + 1] == spans[1..][i];
    }
  }

  lemma TuplesOfCeilAll(d: seq<(real, bool)>)
    requires |d| >= 2
    ensures Tuples(CeilAll(d))[0] == (CeilToUsize(d[0].0), CeilToUsize(d[1].0))
    ensures Tuples(CeilAll(d))[1..] == Tuples(CeilAll(d[2..]))
  {
    assert CeilAll(d)[2..] == CeilAll(d[2..]);
  }

  /**
   * The pairs of ceiled boundaries cover column `c` exactly when the last
   * boundary at or left of `c` opens a span, except that a final opening
   * boundary has no partner and covers nothing.
   */
  lemma {:induction false} CoveredPairs(d: seq<(real, bool)>, c: nat)
    requires SortedByX(d) && OpensAtEven(d)
    ensures Covered(Tuples(CeilAll(d)), c)
        <==> InsideAt(d, c as real, false) && !(|d| % 2 == 1 && d[|d| - 1].0 <= c as real)
  {
    if |d| >= 2 {
      var rest := d[2..];
      assert OpensAtEven(rest) by {
        forall i | 0 <= i < |rest| ensures rest[i].1 == (i % 2 == 0) {
          assert rest[i] == d[i + 2];
        }
      }
      CoveredPairs(rest, c);
      TuplesOfCeilAll(d);
      CoveredFirst(Tuples(CeilAll(d)), c);
      CeilToUsizeAtMost(d[0].0, c);
      CeilToUsizeAtMost(d[1].0, c);
      CoveredPairsStep(d, c);
    } else if |d| == 1 {
      assert Tuples(CeilAll(d)) == [];
    }
  }

  /** The case split of `CoveredPairs` on where `c` lies relative to the
      first two boundaries. */
  lemma CoveredPairsStep(d: seq<(real, bool)>, c: nat)
    requires |d| >= 2 && SortedByX(d) && OpensAtEven(d)
    ensures InsideAt(d, c as real, false) && !(|d| % 2 == 1 && d[|d| - 1].0 <= c as real)
        <==> (d[0].0 <= c as real < d[1].0)
             || (InsideAt(d[2..], c as real, false) && !(|d[2..]| % 2 == 1 && d[2..][|d[2..]| - 1].0 <= c as real))
  {
    var rest := d[2..];
    if c as real < d[0].0 {
      if rest != [] {
        assert rest[0].0 >= d[0].0;
      }
    } else if c as real < d[1].0 {
      assert d[|d| - 1].0 >= d[1].0;
    } else {
      assert d[1..][1..] == rest;
      if rest != [] {
        assert d[|d| - 1] == rest[|rest| - 1];
      }
    }
  }

  /** Past every boundary, the flag is the last boundary's. */
  lemma {:induction false} InsideAtBeyond(d: seq<(real, bool)>, c: real, cur: bool)
    requires d != []
    requires forall i :: 0 <= i < |d| ==> d[i].0 <= c
    ensures InsideAt(d, c, cur) == d[|d| - 1].1
  {
    if |d| > 1 {
      InsideAtBeyond(d[1..], c, d[0].1);
    }
  }

  /** The boundaries of a sorted row are in x order, and each lies at the
      x of one of the row's crossings. */
  lemma BoundariesOfSortedRow(pts: seq<(real, int)>, rule: FillRule)
    requires SortedByX(pts)
    ensures SortedByX(Dedup(Scan(pts, 0, rule)))
    ensures forall e :: e in Dedup(Scan(pts, 0, rule)) ==> exists j :: 0 <= j < |pts| && e.0 == pts[j].0
  {
    var s := Scan(pts, 0, rule);
    DedupSorted(s);
    forall e | e in Dedup(s)
      ensures exists j :: 0 <= j < |pts| && e.0 == pts[j].0
    {
      var j :| 0 <= j < |s| && s[j] == e;
      assert e.0 == pts[j].0;
    }
  }

  /**
   * What the spans of a sorted row mean.  Every covered column has its
   * crossings at or left of it summing to a value the rule accepts; and
   * when the whole row sums to a value the rule rejects (every crossing
   * has been closed again), the covered columns are exactly those.
   */
  lemma SpansMeaning(pts: seq<(real, int)>, rule: FillRule, c: nat)
    requires SortedByX(pts)
    requires forall i :: 0 <= i < |pts| ==> pts[i].1 == 1 || pts[i].1 == -1
    ensures Covered(Spans(pts, rule), c) ==> Check(rule, SumLe(pts, c as real, Contribution))
    ensures !Check(rule, SumAll(pts, Contribution))
        ==> (Covered(Spans(pts, rule), c) <==> Check(rule, SumLe(pts, c as real, Contribution)))
  {
    var s := Scan(pts, 0, rule);
    var d := Dedup(s);
    CheckFacts(rule, 0);
    BoundariesOfSortedRow(pts, rule);
    DedupScanAlternates(pts, rule);
    CoveredPairs(d, c);
    InsideAtDedup(s, c as real);
    InsideAtScan(pts, 0, rule, c as real);
    if !Check(rule, SumAll(pts, Contribution)) {
      ClosedRowEvenBoundaries(pts, rule);
    }
  }

  /** A row whose total the rule rejects ends on a closing boundary, so
      every opening boundary has a partner. */
  lemma ClosedRowEvenBoundaries(pts: seq<(real, int)>, rule: FillRule)
    requires SortedByX(pts)
    requires forall i :: 0 <= i < |pts| ==> pts[i].1 == 1 || pts[i].1 == -1
    requires !Check(rule, SumAll(pts, Contribution))
    ensures |Dedup(Scan(pts, 0, rule))| % 2 == 0
  {
    var s := Scan(pts, 0, rule);
    var d := Dedup(s);
    if |d| % 2 == 1 {
      assert pts != [];
      var top := pts[|pts| - 1].0;
      BoundariesAtMostLast(pts, rule);
      DedupScanAlternates(pts, rule);
      assert d[|d| - 1].1;
      InsideAtBeyond(d, top, false);
      RowTotalFlag(pts, rule);
      assert false;
    }
  }

  lemma BoundariesAtMostLast(pts: seq<(real, int)>, rule: FillRule)
    requires SortedByX(pts) && pts != []
    ensures forall i :: 0 <= i < |Dedup(Scan(pts, 0, rule))| ==> Dedup(Scan(pts, 0, rule))[i].0 <= pts[|pts| - 1].0
  {
    BoundariesOfSortedRow(pts, rule);
    AtCrossingsAtMostLast(Dedup(Scan(pts, 0, rule)), pts);
  }

  /** Boundaries that each lie at some crossing's x lie at or left of the
      last crossing of a sorted row. */
  lemma AtCrossingsAtMostLast(d: seq<(real, bool)>, pts: seq<(real, int)>)
    requires SortedByX(pts) && pts != []
    requires forall e :: e in d ==> exists j :: 0 <= j < |pts| && e.0 == pts[j].0
    ensures forall i :: 0 <= i < |d| ==> d[i].0 <= pts[|pts| - 1].0
  {
    var top := pts[|pts| - 1].0;
    forall i | 0 <= i < |d| ensures d[i].0 <= top {
      assert d[i] in d;
      var j :| 0 <= j < |pts| && d[i].0 == pts[j].0;
      assert pts[j].0 <= top;
    }
  }

  /** Right of the last crossing the flag is the rule applied to the
      row's total. */
  lemma RowTotalFlag(pts: seq<(real, int)>, rule: FillRule)
    requires SortedByX(pts) && pts != []
    ensures InsideAt(Dedup(Scan(pts, 0, rule)), pts[|pts| - 1].0, false) == Check(rule, SumAll(pts, Contribution))
  {
    var top := pts[|pts| - 1].0;
    CheckFacts(rule, 0);
    InsideAtDedup(Scan(pts, 0, rule), top);
    InsideAtScan(pts, 0, rule, top);
    SumLeAll(pts, top, Contribution);
  }

  /** The spans of a sorted row are non-empty-or-empty intervals
      `low <= high`, in order and pairwise disjoint. */
  lemma SpansOrdered(pts: seq<(real, int)>, rule: FillRule)
    requires SortedByX(pts)
    ensures forall i :: 0 <= i < |Spans(pts, rule)| ==> Spans(pts, rule)[i].0 <= Spans(pts, rule)[i].1
    ensures forall i, j :: 0 <= i < j < |Spans(pts, rule)| ==> Spans(pts, rule)[i].1 <= Spans(pts, rule)[j].0
  {
    var d := Dedup(Scan(pts, 0, rule));
    var ns := CeilAll(d);
    BoundariesOfSortedRow(pts, rule);
    forall i, j | 0 <= i < j < |ns| ensures ns[i] <= ns[j] {
      CeilToUsizeMonotone(d[i].0, d[j].0);
    }
  }

  /** When no crossing lies right of `width`, no span reaches past it. */
  lemma SpansWithin(pts: seq<(real, int)>, rule: FillRule, width: nat)
    requires SortedByX(pts)
    requires forall i :: 0 <= i < |pts| ==> pts[i].0 <= width as real
    ensures forall i :: 0 <= i < |Spans(pts, rule)| ==> Spans(pts, rule)[i].1 <= width
  {
    var d := Dedup(Scan(pts, 0, rule));
    BoundariesOfSortedRow(pts, rule);
    forall i | 0 <= i < |d| ensures CeilToUsize(d[i].0) <= width {
      assert d[i] in d;
      CeilToUsizeAtMost(d[i].0, width);
    }
  }

  // ---------------------------------------------------------------------
  // The AET of a polygon

  /** `e'` is the edge of side `l` at row `r`: keyed at or before `r`,
      still active at `r`, and advanced by the rows since its key. */
  predicate SideEdgeAt(l: Line, r: nat, e': Edge)
  {
    FromLine(l).Some? && Key(l) <= r && (Key(l) == r || r < FromLine(l).value.yMax)
    && e' == Advanced(FromLine(l).value, r - Key(l))
  }

  /** Every edge in the AET at row `r` is the edge at `r` of one of the
      polygon's sides. */
  lemma AetOrigin(vertices: seq<Point>, r: nat, e': Edge)
    requires e' in AetAt(PolygonNet(vertices), r)
    ensures exists i :: 0 <= i < |EdgesOf(vertices)| && SideEdgeAt(EdgesOf(vertices)[i], r, e')
  {
    var lines := EdgesOf(vertices);
    var k: nat, e := ActiveEdgeKey(PolygonNet(vertices), r, e');
    var i := NetEdgeLine(lines, k, 1, -1, e);
    assert SideEdgeAt(lines[i], r, e');
  }

  lemma ActiveEdgeKey(net: Net<int>, r: nat, e': Edge) returns (k: nat, e: Edge)
    requires e' in AetAt(net, r)
    ensures e in Get(net, k) && ActiveAt(e, k, r) && e' == Advanced(e, r - k)
  {
    AetClosedForm(net, r);
    if e' in Get(net, r) {
      k, e := r, e';
      assert Advanced(e', 0) == e';
    } else {
      LayersMembers(net, r, r, r + 1, e');
      k, e :| k < r && e in Get(net, k) && r + 1 <= e.yMax && e' == Advanced(e, r - k);
    }
  }

  /** Every crossing of a polygon's AET counts +1 or -1. */
  lemma AetUnitContributions(vertices: seq<Point>, r: nat, rule: FillRule)
    ensures forall i :: 0 <= i < |Intersects(AetAt(PolygonNet(vertices), r), rule)| ==>
              Intersects(AetAt(PolygonNet(vertices), r), rule)[i].1 == 1 || Intersects(AetAt(PolygonNet(vertices), r), rule)[i].1 == -1
  {
    var aet := AetAt(PolygonNet(vertices), r);
    forall e' | e' in aet
      ensures e'.dir == 1 || e'.dir == -1
    {
      AetOrigin(vertices, r, e');
    }
    UnitContributions(aet, rule);
  }

  /** The intercept of every AET edge lies between the x of the two
      vertices of its side, so within `[0, width]` when they are. */
  lemma AetWithin(vertices: seq<Point>, r: nat, width: real)
    requires forall v :: v in vertices ==> v.x <= width
    ensures forall e' :: e' in AetAt(PolygonNet(vertices), r) ==> e'.x <= width
  {
    var lines := EdgesOf(vertices);
    EdgesOfAt(vertices);
    forall e' | e' in AetAt(PolygonNet(vertices), r)
      ensures e'.x <= width
    {
      AetOrigin(vertices, r, e');
      var i :| 0 <= i < |lines| && SideEdgeAt(lines[i], r, e');
      assert vertices[i] in vertices && vertices[(i + 1) % |vertices|] in vertices;
      SideWithin(lines[i], r, e', width);
    }
  }

  /** The edge of a side at any row lies between the side's two x. */
  lemma SideWithin(l: Line, r: nat, e': Edge, width: real)
    requires SideEdgeAt(l, r, e') && l.start.x <= width && l.end.x <= width
    ensures e'.x <= width
  {
    AdvancedOnSegment(l, 1, -1, r - Key(l));
  }

  // ---------------------------------------------------------------------
  // Painting

  /** Whether `fill_polygon` paints pixel (`row`, `col`). */
  predicate Painted(vertices: seq<Point>, rule: FillRule, row: nat, col: nat)
  {
    Covered(RowSpans(AetAt(PolygonNet(vertices), row), rule), col)
  }

  /** A row with an empty AET (skipped by the source) has no spans. */
  lemma EmptyRowHasNoSpans(rule: FillRule)
    ensures RowSpans([], rule) == []
  {
    assert Intersects([], rule) == [];
    assert SortByX<int>([]) == [];
  }

  /** The sorted crossings of a polygon's AET all count +1 or -1. */
  lemma SortedRowUnits(vertices: seq<Point>, r: nat, rule: FillRule)
    ensures forall i :: 0 <= i < |SortByX(Intersects(AetAt(PolygonNet(vertices), r), rule))| ==>
              SortByX(Intersects(AetAt(PolygonNet(vertices), r), rule))[i].1 == 1
              || SortByX(Intersects(AetAt(PolygonNet(vertices), r), rule))[i].1 == -1
  {
    var row := Intersects(AetAt(PolygonNet(vertices), r), rule);
    AetUnitContributions(vertices, r, rule);
    SortByXElements(row);
    forall i | 0 <= i < |SortByX(row)|
      ensures SortByX(row)[i].1 == 1 || SortByX(row)[i].1 == -1
    {
      var j :| 0 <= j < |row| && row[j] == SortByX(row)[i];
    }
  }

  /**
   * Which pixels are painted, in terms of the crossings of the row's AET:
   * only pixels whose crossings at or left of them sum to a value the rule
   * accepts, and, in a row whose crossings all close again, all of them.
   */
  lemma PaintedMeaning(vertices: seq<Point>, rule: FillRule, row: nat, col: nat)
    ensures var pts := Intersects(AetAt(PolygonNet(vertices), row), rule);
            Painted(vertices, rule, row, col) ==> Check(rule, SumLe(pts, col as real, Contribution))
    ensures var pts := Intersects(AetAt(PolygonNet(vertices), row), rule);
            !Check(rule, SumAll(pts, Contribution))
            ==> (Painted(vertices, rule, row, col) <==> Check(rule, SumLe(pts, col as real, Contribution)))
  {
    var pts := Intersects(AetAt(PolygonNet(vertices), row), rule);
    SortedRowUnits(vertices, row, rule);
    SpansMeaning(SortByX(pts), rule, col);
    SumLeSort(pts, col as real, Contribution);
    SumAllSort(pts, Contribution);
  }

  /** Under EvenOdd a painted pixel has an odd number of crossings at or
      left of it; when the row has an even number of crossings, every such
      pixel is painted. */
  lemma EvenOddPainted(vertices: seq<Point>, row: nat, col: nat)
    ensures var aet := AetAt(PolygonNet(vertices), row);
            Painted(vertices, EvenOdd, row, col) ==> CountLe(Intersects(aet, EvenOdd), col as real) % 2 == 1
    ensures var aet := AetAt(PolygonNet(vertices), row);
            |aet| % 2 == 0
            ==> (Painted(vertices, EvenOdd, row, col) <==> CountLe(Intersects(aet, EvenOdd), col as real) % 2 == 1)
  {
    var pts := Intersects(AetAt(PolygonNet(vertices), row), EvenOdd);
    PaintedMeaning(vertices, EvenOdd, row, col);
    PositiveWeightsCount(pts, col as real, Contribution);
    PositiveWeightsTotal(pts, Contribution);
  }

  /** The spans of every row of a polygon whose vertices lie at or left of
      `width` are ordered, disjoint and end at or before `width`. */
  lemma RowSpansFit(vertices: seq<Point>, r: nat, rule: FillRule, width: nat)
    requires forall v :: v in vertices ==> v.x <= width as real
    ensures var spans := RowSpans(AetAt(PolygonNet(vertices), r), rule);
            (forall i :: 0 <= i < |spans| ==> spans[i].0 <= spans[i].1 <= width)
            && (forall i, j :: 0 <= i < j < |spans| ==> spans[i].1 <= spans[j].0)
  {
    var aet := AetAt(PolygonNet(vertices), r);
    var pts := SortByX(Intersects(aet, rule));
    AetWithin(vertices, r, width as real);
    SortedCrossingsWithin(aet, rule, width);
    SpansOrdered(pts, rule);
    SpansWithin(pts, rule, width);
  }

  /** Sorting the crossings of edges left of `width` keeps them there. */
  lemma SortedCrossingsWithin(aet: seq<Edge>, rule: FillRule, width: nat)
    requires forall e' :: e' in aet ==> e'.x <= width as real
    ensures forall i :: 0 <= i < |SortByX(Intersects(aet, rule))| ==> SortByX(Intersects(aet, rule))[i].0 <= width as real
  {
    var crossings := Intersects(aet, rule);
    var pts := SortByX(crossings);
    SortByXElements(crossings);
    forall i | 0 <= i < |pts| ensures pts[i].0 <= width as real {
      var j :| 0 <= j < |crossings| && crossings[j] == pts[i];
      assert aet[j] in aet;
    }
  }

  /** `for (low_idx, high_idx) in internal_range { for col in low_idx..high_idx { .. } }`:
      paint every column of every span of one row. */
  method PaintSpans<P>(image: array2<P>, row: nat, spans: seq<(nat, nat)>, paint: P -> P)
    requires row < image.Length0
    requires forall i :: 0 <= i < |spans| ==> spans[i].0 <= spans[i].1 <= image.Length1
    requires forall i, j :: 0 <= i < j < |spans| ==> spans[i].1 <= spans[j].0
    modifies image
    ensures forall r, c :: 0 <= r < image.Length0 && 0 <= c < image.Length1 ==>
              image[r, c] == if r == row && Covered(spans, c) then paint(old(image[r, c])) else old(image[r, c])
  {
    for i := 0 to |spans|
      invariant forall r, c :: 0 <= r < image.Length0 && 0 <= c < image.Length1 ==>
                  image[r, c] == if r == row && Covered(spans[..i], c) then paint(old(image[r, c])) else old(image[r, c])
    {
      var (low, high) := spans[i];
      CoveredAppend(spans[..i], spans[i]);
      assert spans[..i + 1] == spans[..i] + [spans[i]];
      forall j | 0 <= j < i
        ensures spans[..i][j].1 <= low
      {
        assert spans[..i][j] == spans[j];
      }
      for col := low to high
        invariant forall r, c :: 0 <= r < image.Length0 && 0 <= c < image.Length1 ==>
                    image[r, c] == if r == row && (Covered(spans[..i], c) || low <= c < col)
                                   then paint(old(image[r, c])) else old(image[r, c])
      {
        image[row, col] := paint(image[row, col]);
      }
    }
    assert spans[..|spans|] == spans;
  }

  lemma CoveredAppend(spans: seq<(nat, nat)>, s: (nat, nat))
    ensures forall c: nat :: Covered(spans + [s], c) <==> Covered(spans, c) || s.0 <= c < s.1
  {
    forall c: nat | Covered(spans + [s], c)
      ensures Covered(spans, c) || s.0 <= c < s.1
    {
      var j :| 0 <= j < |spans + [s]| && (spans + [s])[j].0 <= c < (spans + [s])[j].1;
      if j < |spans| {
        assert spans[j] == (spans + [s])[j];
      }
    }
    forall c: nat | Covered(spans, c)
      ensures Covered(spans + [s], c)
    {
      var j :| 0 <= j < |spans| && spans[j].0 <= c < spans[j].1;
      assert (spans + [s])[j] == spans[j];
    }
    assert (spans + [s])[|spans|] == s;
  }

  /**
   * `fill_polygon`: for every row of the image, update the AET (shift,
   * retain `y_max > row`, extend from the NET) and paint the row's spans.
   * The image is indexed `[row, col]`; every vertex must lie at or left of
   * the image's right edge, otherwise a span reaches a pixel the image
   * does not have.
   */
  method FillPolygon<P>(image: array2<P>, poly: Polygon, paint: P -> P, rule: FillRule)
    requires forall v :: v in poly.vertices ==> v.x <= image.Length1 as real
    modifies image
    ensures forall r, c :: 0 <= r < image.Length0 && 0 <= c < image.Length1 ==>
              image[r, c] == if Painted(poly.vertices, rule, r, c) then paint(old(image[r, c])) else old(image[r, c])
  {
    var height := image.Length0;
    var net := NetFromPolygon(poly, 1, -1);
    ghost var vertices := poly.vertices;
    assert net == PolygonNet(vertices);
    var aet: seq<Edge> := [];
    for row := 0 to height
      invariant aet == AetBefore(net, row)
      invariant forall r, c :: 0 <= r < image.Length0 && 0 <= c < image.Length1 ==>
                  image[r, c] == if r < row && Painted(vertices, rule, r, c)
                                 then paint(old(image[r, c])) else old(image[r, c])
    {
      aet := ShiftAll(aet);
      aet := Survivors(aet, row + 1);
      aet := aet + Get(net, row);
      PaintRow(image, vertices, net, row, aet, paint, rule);
    }
  }

  /** The body of the row loop after the AET update: skip an empty AET,
      otherwise paint the spans of the row's crossings. */
  method PaintRow<P>(image: array2<P>, ghost vertices: seq<Point>, net: Net<int>, row: nat, aet: seq<Edge>,
                     paint: P -> P, rule: FillRule)
    requires net == PolygonNet(vertices) && aet == AetAt(net, row)
    requires row < image.Length0
    requires forall v :: v in vertices ==> v.x <= image.Length1 as real
    modifies image
    ensures forall r, c :: 0 <= r < image.Length0 && 0 <= c < image.Length1 ==>
              image[r, c] == if r == row && Painted(vertices, rule, r, c) then paint(old(image[r, c])) else old(image[r, c])
  {
    if |aet| == 0 {
      EmptyRowHasNoSpans(rule);
      return;
    }
    var spans := RowSpans(aet, rule);
    RowSpansFit(vertices, row, rule, image.Length1);
    PaintSpans(image, row, spans, paint);
  }
}
