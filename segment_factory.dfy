/**
 * The track segments of the segment editor (straight, quadratic Bezier and
 * cubic Bezier) and the factory that creates them. The three segment classes
 * share one interface (`TrackSegment`); here they are one class whose constant
 * `kind` says which of the three a segment is, and whose `points` holds the
 * segment's defining points: [start, end] for a straight segment, the Bezier
 * control points otherwise.
 */
module Segments {
  import opened Geometry
  import opened Wrappers

  datatype SegmentKind = Straight | QuadBezier | CubicBezier

  /** `movePoint` accepts the indices 0 <= i < PointBound(kind): 2, 3 and 4 points. */
  function PointBound(kind: SegmentKind): nat {
    match kind
    case Straight => 2
    case QuadBezier => 3
    case CubicBezier => 4
  }

  /** The radius, in pixels, of a control point's clickable circle. */
  const ControlPointSize: real := 10.0

  /** The click lies strictly inside the control point's circle. */
  predicate Near(p: Point, click: Point) {
    WithinRadius(p, click, ControlPointSize)
  }

  /** The answer of a segment's hit test. */
  datatype SegmentHit = SegmentHit(hit: bool, index: int)

  /**
   * The hit test of a segment over its points: the first point whose circle
   * contains the click, or {hit: false, index: 0} when there is none.
   */
  function ControlPointHit(points: seq<Point>, click: Point): (r: SegmentHit)
    ensures r.hit <==> exists i :: 0 <= i < |points| && Near(points[i], click)
    ensures r.hit ==> 0 <= r.index < |points| && Near(points[r.index], click)
    ensures r.hit ==> forall j :: 0 <= j < r.index ==> !Near(points[j], click)
    ensures !r.hit ==> r.index == 0
    decreases |points|
  {
    if points == [] then SegmentHit(false, 0)
    else if Near(points[0], click) then SegmentHit(true, 0)
    else
      var rest := ControlPointHit(points[1..], click);
      assert forall i :: 0 < i < |points| ==> points[i] == points[1..][i - 1];
      if rest.hit then SegmentHit(true, rest.index + 1) else SegmentHit(false, 0)
  }

  /** The points after `movePoint(i, p)` when indices 0 <= i < bound are accepted. */
  function MovedPoints(points: seq<Point>, bound: nat, i: int, p: Point): (r: seq<Point>)
    requires bound <= |points|
    ensures |r| == |points|
    ensures !(0 <= i < bound) ==> r == points
    ensures 0 <= i < bound ==> r[i] == p && forall j :: 0 <= j < |r| && j != i ==> r[j] == points[j]
  {
    if 0 <= i < bound then points[i := p] else points
  }

  /**
   * `StraightSegment.clickedOnControlPoint` as the source writes it: it tests
   * the start point, then the end point, and on a miss returns nothing at all
   * (`None` here, `undefined` in the source).
   */
  function StraightClickAsWritten(start: Point, end: Point, click: Point): Option<SegmentHit> {
    if Near(start, click) then Some(SegmentHit(true, 0))
    else if Near(end, click) then Some(SegmentHit(true, 1))
    else None
  }

  /**
   * The as-written straight hit test agrees with the general rule on a hit and
   * yields no result exactly when the general rule reports a miss.
   */
  lemma {:induction false} StraightClickAsWrittenAgrees(start: Point, end: Point, click: Point)
    ensures StraightClickAsWritten(start, end, click).None? <==> !ControlPointHit([start, end], click).hit
    ensures StraightClickAsWritten(start, end, click).Some? ==>
      StraightClickAsWritten(start, end, click).value == ControlPointHit([start, end], click)
  {
    var pts := [start, end];
    assert pts[1..] == [end] && pts[1..][1..] == [];
  }

  /**
   * A click away from both ends of a straight segment: the source's method
   * returns `undefined`, so a caller that reads `.hit` of the result (as
   * `checkSegmentControlPointClicked` does) throws.
   */
  lemma StraightMissReturnsUndefined()
    ensures StraightClickAsWritten(Point(0.0, 0.0), Point(100.0, 0.0), Point(50.0, 50.0)).None?
    ensures ControlPointHit([Point(0.0, 0.0), Point(100.0, 0.0)], Point(50.0, 50.0)) == SegmentHit(false, 0)
  {
    StraightClickAsWrittenAgrees(Point(0.0, 0.0), Point(100.0, 0.0), Point(50.0, 50.0));
  }

  class TrackSegment {
    const kind: SegmentKind
    var points: seq<Point>
    var name: string

    ghost predicate Valid()
      reads this`points
    {
      PointBound(kind) <= |points| && (kind == Straight ==> |points| == 2)
    }

    constructor (kind: SegmentKind, name: string, points: seq<Point>)
      requires PointBound(kind) <= |points| && (kind == Straight ==> |points| == 2)
      ensures Valid()
      ensures this.kind == kind && this.name == name && this.points == points
    {
      this.kind := kind;
      this.name := name;
      this.points := points;
    }

    /** The segment's points in order: [start, end] for a straight segment. */
    function GetPoints(): (r: seq<Point>)
      requires Valid()
      reads this
      ensures |r| >= PointBound(kind)
      ensures kind == Straight ==> |r| == 2 && r[0] == points[0] && r[1] == points[1]
      ensures r == points
    {
      points
    }

    function GetName(): string
      reads this
    {
      name
    }

    method SetName(name: string)
      modifies this`name
      ensures GetName() == name
    {
      this.name := name;
    }

    /**
     * Moves point `pointIndex` to (x, y) in place; an index the segment kind
     * does not accept leaves every point where it was.
     */
    method MovePoint(pointIndex: int, x: real, y: real)
      requires Valid()
      modifies this`points
      ensures Valid()
      ensures points == MovedPoints(old(points), PointBound(kind), pointIndex, Point(x, y))
    {
      if kind == Straight {
        if pointIndex >= 2 || pointIndex < 0 {
          return;
        }
        if pointIndex == 0 {
          points := points[0 := Point(x, y)];
        } else {
          points := points[1 := Point(x, y)];
        }
      } else {
        if pointIndex >= PointBound(kind) || pointIndex < 0 {
          return;
        }
        points := points[pointIndex := Point(x, y)];
      }
    }

    /**
     * The first point whose circle holds the click. The straight segment tests
     * its start before its end; the Bezier segments scan all their points and
     * keep the first hit. On a miss the straight segment returns
     * {hit: false, index: 0} here, like the other two (see StraightClickAsWritten).
     */
    method ClickedOnControlPoint(click: Point) returns (r: SegmentHit)
      requires Valid()
      ensures r == ControlPointHit(points, click)
      ensures r.hit <==> exists i :: 0 <= i < |points| && Near(points[i], click)
      ensures r.hit ==> 0 <= r.index < |points| && Near(points[r.index], click)
      ensures r.hit ==> forall j :: 0 <= j < r.index ==> !Near(points[j], click)
      ensures !r.hit ==> r.index == 0
    {
      if kind == Straight {
        assert points[1..][1..] == [];
        if Near(points[0], click) {
          return SegmentHit(true, 0);
        }
        if Near(points[1], click) {
          return SegmentHit(true, 1);
        }
        return SegmentHit(false, 0);
      }
      var hit := false;
      var hitIndex := 0;
      var i := 0;
      while i < |points|
        invariant 0 <= i <= |points|
        invariant hit <==> exists j :: 0 <= j < i && Near(points[j], click)
        invariant hit ==> 0 <= hitIndex < i && Near(points[hitIndex], click)
        invariant hit ==> forall j :: 0 <= j < hitIndex ==> !Near(points[j], click)
        invariant !hit ==> hitIndex == 0
      {
        if Near(points[i], click) && !hit {
          hit := true;
          hitIndex := i;
        }
        i := i + 1;
      }
      r := SegmentHit(hit, hitIndex);
    }
  }

  class SegmentFactory {
    var name: string

    constructor (name: string)
      ensures this.name == name
    {
      this.name := name;
    }

    method CreateStraightSegment(name: string, startPoint: Point, endPoint: Point) returns (s: TrackSegment)
      ensures fresh(s) && s.Valid()
      ensures s.kind == Straight && s.GetName() == name && s.GetPoints() == [startPoint, endPoint]
    {
      s := new TrackSegment(Straight, name, [startPoint, endPoint]);
    }

    method CreateQuadBezierSegment(name: string, curvePoints: seq<Point>) returns (s: TrackSegment)
      requires |curvePoints| >= 3
      ensures fresh(s) && s.Valid()
      ensures s.kind == QuadBezier && s.GetName() == name && s.GetPoints() == curvePoints
    {
      s := new TrackSegment(QuadBezier, name, curvePoints);
    }

    method CreateCubicBezierSegment(name: string, curvePoints: seq<Point>) returns (s: TrackSegment)
      requires |curvePoints| >= 4
      ensures fresh(s) && s.Valid()
      ensures s.kind == CubicBezier && s.GetName() == name && s.GetPoints() == curvePoints
    {
      s := new TrackSegment(CubicBezier, name, curvePoints);
    }
  }
}
