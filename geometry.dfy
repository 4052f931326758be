/**
 * Two-dimensional points with real coordinates, as the editor's `{x, y}` records.
 * Points are values here: the source passes point objects by reference, and the
 * model does not track that aliasing.
 */
module Geometry {

  datatype Point = Point(x: real, y: real)

  /** Component-wise vector addition (what `PointCal.addVector` computes). */
  function Add(p: Point, q: Point): (r: Point)
    ensures r.x - p.x == q.x && r.y - p.y == q.y
  {
    Point(p.x + q.x, p.y + q.y)
  }

  /** The square of the Euclidean distance between two points. */
  function Dist2(p: Point, q: Point): (d: real)
    ensures d >= 0.0
  {
    var dx, dy := p.x - q.x, p.y - q.y;
    assert dx * dx >= 0.0 && dy * dy >= 0.0;
    dx * dx + dy * dy
  }

  /**
   * `distance(p, q) < radius`, stated without the square root: for a
   * non-negative radius the two are equivalent.
   */
  predicate WithinRadius(p: Point, q: Point, radius: real)
    requires radius >= 0.0
  {
    Dist2(p, q) < radius * radius
  }
}
