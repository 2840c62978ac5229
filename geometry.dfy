/**
 * Points and lines of src/geometry/point.rs and src/geometry/line.rs.
 * Coordinates are exact reals.
 */
module Geometry {
  import opened Wrappers

  datatype Point = Point(x: real, y: real)

  /** A directed segment; not required to be monotonic in y. */
  datatype Line = Line(start: Point, end: Point)

  /** `Line::new` keeps both endpoints as given. */
  function NewLine(start: Point, end: Point): (l: Line)
    ensures l.start == start && l.end == end
  {
    Line(start, end)
  }

  /**
   * `Line::inv_slope`: run per unit of rise, absent for a horizontal line
   * (the source's comment calls that case "vertical").
   */
  function InvSlope(l: Line): (r: Option<real>)
    ensures r.None? <==> l.start.y == l.end.y
    ensures r.Some? ==> r.value * (l.end.y - l.start.y) == l.end.x - l.start.x
  {
    if l.start.y == l.end.y then None
    else Some((l.end.x - l.start.x) / (l.end.y - l.start.y))
  }

  /** `Line::y_min_point`: the endpoint with the smaller y, `start` on a tie. */
  function YMinPoint(l: Line): (p: Point)
    ensures p == l.start || p == l.end
    ensures p.y <= l.start.y && p.y <= l.end.y
    ensures l.start.y == l.end.y ==> p == l.start
  {
    if l.start.y <= l.end.y then l.start else l.end
  }

  /** `Line::y_max_point`: the endpoint with the larger y, `start` on a tie. */
  function YMaxPoint(l: Line): (p: Point)
    ensures p == l.start || p == l.end
    ensures p.y >= l.start.y && p.y >= l.end.y
    ensures l.start.y == l.end.y ==> p == l.start
  {
    if l.start.y >= l.end.y then l.start else l.end
  }

  /** Reversing a line leaves its inverse slope unchanged. */
  lemma InvSlopeSymmetric(l: Line)
    ensures InvSlope(Line(l.end, l.start)) == InvSlope(l)
  {
    if l.start.y != l.end.y {
      var dx, dy := l.end.x - l.start.x, l.end.y - l.start.y;
      assert (-dx) / (-dy) == dx / dy;
    }
  }

  /** For a line that is not horizontal, the two selected endpoints are the
      two distinct endpoints, lower one first. */
  lemma MinMaxPointsPartition(l: Line)
    requires l.start.y != l.end.y
    ensures {YMinPoint(l), YMaxPoint(l)} == {l.start, l.end}
    ensures YMinPoint(l).y < YMaxPoint(l).y
  {
  }

  /** The slope measured from the lower to the upper endpoint is the slope. */
  lemma InvSlopeFromLowerPoint(l: Line)
    requires l.start.y != l.end.y
    ensures InvSlope(l).value * (YMaxPoint(l).y - YMinPoint(l).y) == YMaxPoint(l).x - YMinPoint(l).x
  {
    var s := InvSlope(l).value;
    if l.start.y > l.end.y {
      assert s * (l.start.y - l.end.y) == -(s * (l.end.y - l.start.y));
    }
  }

  /** The tests of line.rs: construction, slope 3 for (1,2)-(4,3), no slope
      for a horizontal line, and the lower/upper endpoints of (1,2)-(4,6). */
  lemma LineExamples()
    ensures NewLine(Point(1.0, 2.0), Point(4.0, 6.0)) == Line(Point(1.0, 2.0), Point(4.0, 6.0))
    ensures InvSlope(Line(Point(1.0, 2.0), Point(4.0, 3.0))) == Some(3.0)
    ensures InvSlope(Line(Point(1.0, 2.0), Point(6.0, 2.0))) == None
    ensures YMinPoint(Line(Point(1.0, 2.0), Point(4.0, 6.0))) == Point(1.0, 2.0)
    ensures YMaxPoint(Line(Point(1.0, 2.0), Point(4.0, 6.0))) == Point(4.0, 6.0)
  {
  }
}
