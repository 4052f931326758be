/**
 * The composite cubic Bezier curve of the track editor: its handle and control
 * point types, the curve object's state, and the two enumerations that its
 * drawing code performs over the control points (the cubic pieces drawn by
 * `draw` and the handle lines drawn by `drawControlPoints`). The canvas calls
 * themselves are not modelled; the enumerations are what they draw.
 */
module BezierCurves {
  import opened Geometry
  import opened Wrappers

  /** How a handle reacts to edits; the enum's numeric values are 1, 2 and 3. */
  datatype HandleType = VECTOR | ALIGNED | FREE

  /** The numeric value of each handle type. */
  function HandleTypeCode(t: HandleType): (v: int)
    ensures 1 <= v <= 3
  {
    match t
    case VECTOR => 1
    case ALIGNED => 2
    case FREE => 3
  }

  /** The handle type that a number stands for, if any. */
  function HandleTypeOfCode(v: int): (r: Option<HandleType>)
    ensures r.Some? <==> 1 <= v <= 3
    ensures r.Some? ==> HandleTypeCode(r.value) == v
  {
    if v == 1 then Some(VECTOR)
    else if v == 2 then Some(ALIGNED)
    else if v == 3 then Some(FREE)
    else None
  }

  /** The three handle types have three distinct codes, and decoding a code gives its type back. */
  lemma HandleTypeCodesRoundTrip(t: HandleType, u: HandleType)
    ensures HandleTypeOfCode(HandleTypeCode(t)) == Some(t)
    ensures HandleTypeCode(t) == HandleTypeCode(u) ==> t == u
  {
  }

  datatype HandlePoint = HandlePoint(coord: Point, handleType: HandleType)

  datatype ControlPoint = ControlPoint(coord: Point, leftHandle: HandlePoint, rightHandle: HandlePoint)

  /** What a curve object holds, as one value. */
  datatype CurveShape = CurveShape(anchorPoint: Point, orientationAngle: real, points: seq<ControlPoint>)

  /**
   * The answer of the curve's point hit test (`clickedOnPoint`): whether a
   * point was hit, its index, and its kind ("cp" for the control point,
   * "lh"/"rh" for the left/right handle).
   */
  datatype PointHit = PointHit(hit: bool, pointIndex: int, pointType: string)

  /*
   * Curve operations that the mediator calls but whose bodies are not part of
   * this model: each is a parameter, applied to the curve's state.
   */
  type HitTest = (CurveShape, Point) -> PointHit
  type MoveRule = (CurveShape, Point, int, string) -> seq<ControlPoint>
  type HandleTypeRule = (CurveShape, int, string, HandleType) -> seq<ControlPoint>
  type ExtendRule = (CurveShape, bool) -> seq<ControlPoint>

  /** The hit test only reports indices of existing control points. */
  ghost predicate HitIndexInRange(hitTest: HitTest) {
    forall s: CurveShape, c: Point ::
      hitTest(s, c).hit ==> 0 <= hitTest(s, c).pointIndex < |s.points|
  }

  class BezierCurve {
    var anchorPoint: Point
    var points: seq<ControlPoint>
    var orientationAngle: real  // radians
    var selected: bool

    /** A fresh curve has no points, orientation 0 and is not selected; its anchor is not set. */
    constructor ()
      ensures points == [] && orientationAngle == 0.0 && !selected
    {
      points := [];
      orientationAngle := 0.0;
      selected := false;
    }

    function Shape(): CurveShape
      reads this
    {
      CurveShape(anchorPoint, orientationAngle, points)
    }

    /** Visits every control point and does nothing with it. */
    method UpdatePointsCoordinates()
      ensures Shape() == old(Shape()) && selected == old(selected)
    {
      var i := 0;
      while i < |points|
        invariant 0 <= i <= |points|
      {
        i := i + 1;
      }
    }

    /** Moves the whole curve: the anchor becomes `dest`. */
    method MoveAnchorPoint(dest: Point)
      modifies this`anchorPoint
      ensures anchorPoint == dest
    {
      anchorPoint := dest;
    }

    /** Moves one control point or handle by the given rule; only the points change. */
    method MoveControlPoint(rule: MoveRule, dest: Point, pointIndex: int, pointType: string)
      modifies this`points
      ensures points == rule(old(Shape()), dest, pointIndex, pointType)
    {
      points := rule(Shape(), dest, pointIndex, pointType);
    }

    /** Changes one handle's type by the given rule; only the points change. */
    method ChangeHandleType(rule: HandleTypeRule, pointIndex: int, side: string, t: HandleType)
      modifies this`points
      ensures points == rule(old(Shape()), pointIndex, side, t)
    {
      points := rule(Shape(), pointIndex, side, t);
    }

    /** Adds a control point at one end by the given rule; only the points change. */
    method ExtendControlPoint(rule: ExtendRule, prepend: bool)
      modifies this`points
      ensures points == rule(old(Shape()), prepend)
    {
      points := rule(Shape(), prepend);
    }
  }

  /** One cubic piece as `bezierCurveTo` draws it: start, two handles, end. */
  datatype CubicPiece = CubicPiece(start: Point, firstHandle: Point, secondHandle: Point, end: Point)

  /**
   * `drawPoints` of `draw`: the points from index `j` on whose index is not
   * the last one, kept in order (the `filter` on the index).
   */
  function DrawStartsFrom(points: seq<ControlPoint>, j: nat): seq<ControlPoint>
    requires j <= |points|
    decreases |points| - j
  {
    if j == |points| then []
    else (if j != |points| - 1 then [points[j]] else []) + DrawStartsFrom(points, j + 1)
  }

  /** The points `draw` starts a piece at. */
  function DrawStarts(points: seq<ControlPoint>): seq<ControlPoint> {
    DrawStartsFrom(points, 0)
  }

  /** The filter from `j` on keeps every index but the last, shifted by `j`. */
  lemma {:induction false} DrawStartsFromShape(points: seq<ControlPoint>, j: nat)
    requires j <= |points|
    ensures |DrawStartsFrom(points, j)| == if j < |points| then |points| - 1 - j else 0
    ensures forall i :: 0 <= i < |DrawStartsFrom(points, j)| ==> DrawStartsFrom(points, j)[i] == points[j + i]
    decreases |points| - j
  {
    if j < |points| {
      DrawStartsFromShape(points, j + 1);
    }
  }

  /** The piece from `start` to `end`: `start`'s right handle, `end`'s left handle. */
  function PieceFrom(start: ControlPoint, end: ControlPoint): CubicPiece {
    CubicPiece(start.coord, start.rightHandle.coord, end.leftHandle.coord, end.coord)
  }

  /**
   * The pieces `draw` strokes: the `index`-th element of `drawPoints` is the
   * start and `points[index + 1]` the end.
   */
  function DrawPieces(points: seq<ControlPoint>): seq<CubicPiece> {
    var starts := DrawStarts(points);
    DrawStartsFromShape(points, 0);
    seq(|starts|, i requires 0 <= i < |starts| => PieceFrom(starts[i], points[i + 1]))
  }

  /**
   * `draw` strokes max(n - 1, 0) pieces for n points, and piece i joins
   * point i (with its right handle) to point i + 1 (with its left handle):
   * the index filter keeps the positions of the points it lets through.
   */
  lemma DrawPiecesShape(points: seq<ControlPoint>)
    ensures |DrawPieces(points)| == if |points| == 0 then 0 else |points| - 1
    ensures forall i :: 0 <= i < |DrawPieces(points)| ==>
      DrawPieces(points)[i] == CubicPiece(points[i].coord, points[i].rightHandle.coord,
                                          points[i + 1].leftHandle.coord, points[i + 1].coord)
  {
    DrawStartsFromShape(points, 0);
  }

  /** The first point's left handle and the last point's right handle are never drawn. */
  lemma {:induction false} DrawPiecesIgnoreOuterHandles(points: seq<ControlPoint>, h: HandlePoint)
    requires |points| > 0
    ensures DrawPieces(points[0 := points[0].(leftHandle := h)]) == DrawPieces(points)
    ensures DrawPieces(points[|points| - 1 := points[|points| - 1].(rightHandle := h)]) == DrawPieces(points)
  {
    var first := points[0 := points[0].(leftHandle := h)];
    var last := points[|points| - 1 := points[|points| - 1].(rightHandle := h)];
    DrawPiecesShape(points);
    DrawPiecesShape(first);
    DrawPiecesShape(last);
    assert |DrawPieces(first)| == |DrawPieces(points)|;
    forall i | 0 <= i < |DrawPieces(points)| ensures DrawPieces(first)[i] == DrawPieces(points)[i] {
      assert first[i].coord == points[i].coord && first[i].rightHandle == points[i].rightHandle;
      assert first[i + 1] == points[i + 1];
    }
    assert |DrawPieces(last)| == |DrawPieces(points)|;
    forall i | 0 <= i < |DrawPieces(points)| ensures DrawPieces(last)[i] == DrawPieces(points)[i] {
      assert last[i] == points[i];
      assert last[i + 1].coord == points[i + 1].coord && last[i + 1].leftHandle == points[i + 1].leftHandle;
    }
  }

  /** A dashed line from one point to another. */
  datatype Line = Line(from: Point, to: Point)

  /** The two handle lines `drawControlPoint` draws for one control point. */
  function HandleLinesOf(cp: ControlPoint): seq<Line> {
    [Line(cp.coord, cp.leftHandle.coord), Line(cp.coord, cp.rightHandle.coord)]
  }

  /** The handle lines `drawControlPoints` draws, point by point in order. */
  function HandleLines(points: seq<ControlPoint>): seq<Line>
    decreases |points|
  {
    if points == [] then [] else HandleLinesOf(points[0]) + HandleLines(points[1..])
  }

  /**
   * Every control point is visited once, in order, and contributes two lines:
   * to its left handle (line 2i) and to its right handle (line 2i + 1).
   */
  lemma {:induction false} HandleLinesShape(points: seq<ControlPoint>)
    ensures |HandleLines(points)| == 2 * |points|
    ensures forall i :: 0 <= i < |points| ==>
      HandleLines(points)[2 * i] == Line(points[i].coord, points[i].leftHandle.coord) &&
      HandleLines(points)[2 * i + 1] == Line(points[i].coord, points[i].rightHandle.coord)
    decreases |points|
  {
    if points != [] {
      var tail := points[1..];
      HandleLinesShape(tail);
      var r := HandleLines(points);
      assert r == HandleLinesOf(points[0]) + HandleLines(tail);
      forall i | 0 <= i < |points|
        ensures r[2 * i] == Line(points[i].coord, points[i].leftHandle.coord)
        ensures r[2 * i + 1] == Line(points[i].coord, points[i].rightHandle.coord)
      {
        if i > 0 {
          assert r[2 * i] == HandleLines(tail)[2 * (i - 1)];
          assert r[2 * i + 1] == HandleLines(tail)[2 * (i - 1) + 1];
          assert tail[i - 1] == points[i];
        }
      }
    }
  }
}
