/**
 * The polygon of src/geometry/polygon.rs: an ordered vertex list, closed
 * implicitly by an edge from the last vertex back to the first.
 */
module Polygons {
  import opened Wrappers
  import opened Geometry

  /** Vertices read pairwise from a flat coordinate list `x0, y0, x1, y1, ...`. */
  function PointsOf(v: seq<real>): seq<Point>
    decreases |v|
  {
    if |v| < 2 then [] else [Point(v[0], v[1])] + PointsOf(v[2..])
  }

  /** Vertex `i` of a flat list is the pair at positions `2i` and `2i + 1`;
      an odd trailing coordinate is ignored. */
  lemma {:induction false} PointsOfAt(v: seq<real>)
    ensures |PointsOf(v)| == |v| / 2
    ensures forall i :: 0 <= i < |v| / 2 ==> PointsOf(v)[i] == Point(v[2 * i], v[2 * i + 1])
  {
    if |v| >= 2 {
      PointsOfAt(v[2..]);
      forall i | 0 < i < |v| / 2
        ensures PointsOf(v)[i] == Point(v[2 * i], v[2 * i + 1])
      {
        assert PointsOf(v)[i] == PointsOf(v[2..])[i - 1];
        assert v[2..][2 * (i - 1)] == v[2 * i];
      }
    }
  }

  /** `vertices.iter().cycle().skip(1)`, cut to the length of `vertices`. */
  function RotateLeft(vs: seq<Point>): seq<Point>
  {
    if vs == [] then [] else vs[1..] + [vs[0]]
  }

  /** `zip`, pairing each start with the matching end. */
  function Zip(starts: seq<Point>, ends: seq<Point>): seq<Line>
    requires |starts| == |ends|
  {
    if starts == [] then [] else [Line(starts[0], ends[0])] + Zip(starts[1..], ends[1..])
  }

  /** The edges of a vertex list, in traversal order, closing edge last. */
  function EdgesOf(vs: seq<Point>): seq<Line>
  {
    Zip(vs, RotateLeft(vs))
  }

  lemma {:induction false} ZipAt(starts: seq<Point>, ends: seq<Point>)
    requires |starts| == |ends|
    ensures |Zip(starts, ends)| == |starts|
    ensures forall i :: 0 <= i < |starts| ==> Zip(starts, ends)[i] == Line(starts[i], ends[i])
  {
    if starts != [] {
      ZipAt(starts[1..], ends[1..]);
    }
  }

  /** Edge `i` runs from vertex `i` to vertex `(i + 1) mod n`. */
  lemma EdgesOfAt(vs: seq<Point>)
    ensures |EdgesOf(vs)| == |vs|
    ensures forall i :: 0 <= i < |vs| ==> EdgesOf(vs)[i] == Line(vs[i], vs[(i + 1) % |vs|])
  {
    RotateLeftAt(vs);
    ZipAt(vs, RotateLeft(vs));
  }

  /** Entry `i` of the rotated list is vertex `(i + 1) mod n`. */
  lemma RotateLeftAt(vs: seq<Point>)
    ensures |RotateLeft(vs)| == |vs|
    ensures forall i :: 0 <= i < |vs| ==> RotateLeft(vs)[i] == vs[(i + 1) % |vs|]
  {
    forall i | 0 <= i < |vs|
      ensures RotateLeft(vs)[i] == vs[(i + 1) % |vs|]
    {
      NextIndex(i, |vs|);
      if i < |vs| - 1 {
        assert RotateLeft(vs)[i] == vs[1..][i];
      }
    }
  }

  /** The index after `i` around a cycle of `n`. */
  lemma NextIndex(i: nat, n: nat)
    requires i < n
    ensures (i + 1) % n == if i == n - 1 then 0 else i + 1
  {
    if i == n - 1 {
      assert (i + 1) == 1 * n + 0;
    }
  }

  /** An empty polygon has no edges; a single vertex gives the one
      degenerate edge from the vertex to itself. */
  lemma SmallPolygonEdges(p: Point)
    ensures EdgesOf([]) == []
    ensures EdgesOf([p]) == [Line(p, p)]
  {
    assert RotateLeft([p]) == [p];
  }

  class Polygon {
    var vertices: seq<Point>

    /** `Polygon::new`: no vertices. */
    constructor ()
      ensures vertices == []
    {
      vertices := [];
    }

    /** `Polygon::add_point`: push one vertex at the end. */
    method AddPoint(p: Point)
      modifies this
      ensures vertices == old(vertices) + [p]
    {
      vertices := vertices + [p];
    }

    /** `Polygon::edges`. */
    function Edges(): (es: seq<Line>)
      reads this
      ensures |es| == |vertices|
      ensures forall i :: 0 <= i < |vertices| ==> es[i] == Line(vertices[i], vertices[(i + 1) % |vertices|])
    {
      EdgesOfAt(vertices);
      EdgesOf(vertices)
    }
  }

  /** `Polygon::from_vec`: `None` for an odd number of coordinates,
      otherwise a fresh polygon with one vertex per coordinate pair. */
  method FromVec(v: seq<real>) returns (r: Option<Polygon>)
    ensures r.None? <==> |v| % 2 != 0
    ensures r.Some? ==> fresh(r.value) && r.value.vertices == PointsOf(v)
  {
    if |v| % 2 != 0 {
      return None;
    }
    var poly := new Polygon();
    var i := 0;
    while i < |v|
      invariant 0 <= i <= |v| && i % 2 == 0
      invariant |poly.vertices| == i / 2
      invariant forall j :: 0 <= j < i / 2 ==> poly.vertices[j] == Point(v[2 * j], v[2 * j + 1])
    {
      poly.AddPoint(Point(v[i], v[i + 1]));
      i := i + 2;
    }
    PointsOfAt(v);
    r := Some(poly);
  }

  /** The test of polygon.rs: one `add_point` on a new polygon gives exactly
      that vertex. */
  method AddPointExample()
  {
    var polygon := new Polygon();
    assert |polygon.vertices| == 0;
    polygon.AddPoint(Point(1.0, 2.0));
    assert polygon.vertices == [Point(1.0, 2.0)];
  }
}
