/**
 * `TrackCurveMediator`: the registry of the curve editor. It keeps the curves
 * by ident (in insertion order) with a display name and a selected flag, the
 * ident whose curve is being edited, a snapshot of the selected curves'
 * anchors taken when an OBJECT-mode drag starts, and the grabbed control point
 * of an EDIT-mode drag. The curves' own hit test and point edits are
 * parameters (see `BezierCurves`); the rotation `transform2NewAxis` of the
 * vector library is a parameter too.
 */
module CurveMediator {
  import opened Geometry
  import opened OrderedKeys
  import opened SelectionRule
  import opened BezierCurves
  import opened Wrappers

  datatype ViewMode = EDIT | OBJECT

  datatype BezierCurveItem = BezierCurveItem(name: string, curve: BezierCurve, selected: bool)

  /** `curveBeingEdited`; an `ident` of None stands for `null`. */
  datatype CurveBeingEdited = CurveBeingEdited(editing: bool, ident: Option<string>)

  /** `grabbedPoint`; each None stands for `null`. */
  datatype GrabbedPoint = GrabbedPoint(ident: Option<string>, pointIndex: Option<int>,
                                       pointType: Option<string>, lastPos: Option<Point>)

  /** One row of the curve list shown beside the canvas. */
  datatype CurveListEntry = CurveListEntry(ident: string, name: string, selected: bool, beingEdited: bool)

  /** The name every added curve starts with. */
  const DefaultCurveName: string := "default curve"

  /** The grabbed point before anything is grabbed: all fields null. */
  const NoGrab: GrabbedPoint := GrabbedPoint(None, None, None, None)

  /** The grabbed point after `releaseGrabbedPoint`: all null except the index, which is -1. */
  const ReleasedGrab: GrabbedPoint := GrabbedPoint(None, Some(-1), None, None)

  /** A grabbed point that names a curve also has an index, a type and a last position. */
  predicate GrabComplete(g: GrabbedPoint) {
    g.ident.Some? ==> g.pointIndex.Some? && g.pointType.Some? && g.lastPos.Some?
  }

  /** Same keys, and every key keeps its name and its curve object. */
  predicate SameCurves(a: map<string, BezierCurveItem>, b: map<string, BezierCurveItem>) {
    a.Keys == b.Keys && forall k :: k in a ==> b[k].curve == a[k].curve && b[k].name == a[k].name
  }

  // ---------------------------------------------------------------------
  // The grabbed point of `handleClick` and `holdGrabbedPointCurPos`
  // ---------------------------------------------------------------------

  /**
   * The position `handleClick` records for a hit: "cp" takes the control
   * point, "lh" its left handle and every other type its right handle.
   */
  function GrabbedCoord(cp: ControlPoint, pointType: string): Point {
    if pointType == "cp" then cp.coord
    else if pointType == "lh" then cp.leftHandle.coord
    else cp.rightHandle.coord
  }

  /**
   * The position `holdGrabbedPointCurPos` records: "lh", "rh" and "cp" pick
   * the matching coordinate; any other type records nothing.
   */
  function HeldCoord(cp: ControlPoint, pointType: string): Option<Point> {
    if pointType == "lh" then Some(cp.leftHandle.coord)
    else if pointType == "rh" then Some(cp.rightHandle.coord)
    else if pointType == "cp" then Some(cp.coord)
    else None
  }

  /**
   * Renewing the grabbed position reads the same coordinate that the click
   * recorded for the three known point types; for any other type the click
   * took the right handle while the renewal records nothing.
   */
  lemma HeldAgreesWithGrabbed(cp: ControlPoint, pointType: string)
    ensures pointType == "cp" || pointType == "lh" || pointType == "rh" ==>
      HeldCoord(cp, pointType) == Some(GrabbedCoord(cp, pointType))
    ensures !(pointType == "cp" || pointType == "lh" || pointType == "rh") ==>
      HeldCoord(cp, pointType).None? && GrabbedCoord(cp, pointType) == cp.rightHandle.coord
  {
  }

  /** The curve at `ident` exists and its hit test reports a hit. */
  predicate CurveHitAt(ident: string, shapes: map<string, CurveShape>, hitTest: HitTest, cursor: Point) {
    ident in shapes && hitTest(shapes[ident], cursor).hit
  }

  /**
   * The position, in `idents`, of the LAST curve whose hit test reports a
   * hit, or None when none does. `handleClick` overwrites the grabbed point on
   * every hit, so the last one is what remains.
   */
  function LastHitIndex(idents: seq<string>, shapes: map<string, CurveShape>, hitTest: HitTest, cursor: Point): (r: Option<nat>)
    ensures r.Some? ==> r.value < |idents| && CurveHitAt(idents[r.value], shapes, hitTest, cursor)
    ensures r.Some? ==> forall j :: r.value < j < |idents| ==> !CurveHitAt(idents[j], shapes, hitTest, cursor)
    ensures r.None? ==> forall j :: 0 <= j < |idents| ==> !CurveHitAt(idents[j], shapes, hitTest, cursor)
    decreases |idents|
  {
    if idents == [] then None
    else if CurveHitAt(idents[|idents| - 1], shapes, hitTest, cursor) then Some(|idents| - 1)
    else LastHitIndex(idents[..|idents| - 1], shapes, hitTest, cursor)
  }

  /**
   * The grabbed point after `handleClick` over the curves `idents`: the last
   * hit curve with the hit point's index, type and recorded position, or the
   * released record when no curve is hit.
   */
  ghost function GrabAfterClick(idents: seq<string>, shapes: map<string, CurveShape>, hitTest: HitTest, cursor: Point): GrabbedPoint
    requires HitIndexInRange(hitTest)
  {
    var f := LastHitIndex(idents, shapes, hitTest, cursor);
    if f.None? then ReleasedGrab else GrabOfHit(idents[f.value], shapes, hitTest, cursor)
  }

  /**
   * After a click a point is grabbed exactly when some listed curve reports a
   * hit; the grabbed curve is then a hit one with no hit curve after it, and
   * the record holds that curve's hit and the coordinate its type selects. On
   * a miss the record is the released one.
   */
  lemma {:induction false} ClickGrabsLastHit(idents: seq<string>, shapes: map<string, CurveShape>, hitTest: HitTest, cursor: Point)
    requires HitIndexInRange(hitTest)
    ensures GrabComplete(GrabAfterClick(idents, shapes, hitTest, cursor))
    ensures GrabAfterClick(idents, shapes, hitTest, cursor).ident.Some? <==>
      exists i :: 0 <= i < |idents| && CurveHitAt(idents[i], shapes, hitTest, cursor)
    ensures GrabAfterClick(idents, shapes, hitTest, cursor).ident.None? ==>
      GrabAfterClick(idents, shapes, hitTest, cursor) == ReleasedGrab
    ensures GrabAfterClick(idents, shapes, hitTest, cursor).ident.Some? ==>
      exists i :: 0 <= i < |idents| && LastHitAt(idents, i, shapes, hitTest, cursor)
        && GrabAfterClick(idents, shapes, hitTest, cursor) == GrabOfHit(idents[i], shapes, hitTest, cursor)
  {
    var f := LastHitIndex(idents, shapes, hitTest, cursor);
    if f.Some? {
      assert CurveHitAt(idents[f.value], shapes, hitTest, cursor);
      assert LastHitAt(idents, f.value, shapes, hitTest, cursor);
    }
  }

  /** Position `i` is a hit and no later position is. */
  predicate LastHitAt(idents: seq<string>, i: int, shapes: map<string, CurveShape>, hitTest: HitTest, cursor: Point)
    requires 0 <= i < |idents|
  {
    && CurveHitAt(idents[i], shapes, hitTest, cursor)
    && forall j :: i < j < |idents| ==> !CurveHitAt(idents[j], shapes, hitTest, cursor)
  }

  /**
   * The record a hit on curve `ident` leaves: the ident, the hit's index and
   * type, and the coordinate that type selects.
   */
  ghost function GrabOfHit(ident: string, shapes: map<string, CurveShape>, hitTest: HitTest, cursor: Point): (g: GrabbedPoint)
    requires HitIndexInRange(hitTest) && CurveHitAt(ident, shapes, hitTest, cursor)
    ensures GrabComplete(g) && g.ident == Some(ident)
  {
    var h := hitTest(shapes[ident], cursor);
    GrabbedPoint(Some(ident), Some(h.pointIndex), Some(h.pointType),
                 Some(GrabbedCoord(shapes[ident].points[h.pointIndex], h.pointType)))
  }

  // ---------------------------------------------------------------------
  // The OBJECT-mode drag and its snapshot
  // ---------------------------------------------------------------------

  /**
   * The anchors after an OBJECT-mode grab by `diff`: every curve in `sel`
   * that has a snapshot sits at its snapshot plus `diff`; every other curve
   * keeps its anchor.
   */
  function DragAnchors(anchors: map<string, Point>, sel: set<string>, snapshot: map<string, Point>, diff: Point): (r: map<string, Point>)
    ensures r.Keys == anchors.Keys
  {
    map k | k in anchors :: if k in sel && k in snapshot then Add(snapshot[k], diff) else anchors[k]
  }

  /** The snapshot `holdSelectedCurveCusPos` takes: the anchors of the selected curves. */
  function HoldSnapshot(anchors: map<string, Point>, sel: set<string>): (r: map<string, Point>)
    ensures r.Keys == anchors.Keys * sel
  {
    map k | k in anchors && k in sel :: anchors[k]
  }

  /** The anchors after `revertCurveToPrevPos`: every curve with a snapshot is put back there. */
  function RevertAnchors(anchors: map<string, Point>, snapshot: map<string, Point>): (r: map<string, Point>)
    ensures r.Keys == anchors.Keys
  {
    map k | k in anchors :: if k in snapshot then snapshot[k] else anchors[k]
  }

  /**
   * A grab is relative to the snapshot, not to the current anchors: a grab by
   * `d2` after a grab by `d1` ends where a single grab by `d2` ends. With
   * `d1 == d2` this is the idempotence of repeating a grab.
   */
  lemma {:induction false} DragIsRelative(anchors: map<string, Point>, sel: set<string>, snapshot: map<string, Point>, d1: Point, d2: Point)
    ensures DragAnchors(DragAnchors(anchors, sel, snapshot, d1), sel, snapshot, d2) == DragAnchors(anchors, sel, snapshot, d2)
  {
    var once := DragAnchors(anchors, sel, snapshot, d1);
    assert DragAnchors(once, sel, snapshot, d2).Keys == DragAnchors(anchors, sel, snapshot, d2).Keys;
  }

  /** Taking the snapshot and grabbing by a zero offset leaves every anchor where it is. */
  lemma {:induction false} ZeroDragKeepsAnchors(anchors: map<string, Point>, sel: set<string>)
    ensures DragAnchors(anchors, sel, HoldSnapshot(anchors, sel), Point(0.0, 0.0)) == anchors
  {
    var r := DragAnchors(anchors, sel, HoldSnapshot(anchors, sel), Point(0.0, 0.0));
    forall k | k in anchors ensures r[k] == anchors[k] {
    }
  }

  /**
   * Hold, then any change of anchors `now` (a drag, a deletion), then revert:
   * every curve still present that was selected at hold time is back at its
   * held anchor, every other present curve keeps its current anchor.
   */
  lemma {:induction false} RevertRestoresHeld(held: map<string, Point>, sel: set<string>, now: map<string, Point>)
    requires now.Keys <= held.Keys
    ensures var r := RevertAnchors(now, HoldSnapshot(held, sel));
      && r.Keys == now.Keys
      && forall k :: k in now ==> r[k] == if k in sel then held[k] else now[k]
  {
  }

  /** Hold, grab by any offset, revert: the anchors are the held ones again. */
  lemma {:induction false} HoldDragRevert(anchors: map<string, Point>, sel: set<string>, diff: Point)
    ensures RevertAnchors(DragAnchors(anchors, sel, HoldSnapshot(anchors, sel), diff), HoldSnapshot(anchors, sel)) == anchors
  {
    var snap := HoldSnapshot(anchors, sel);
    var dragged := DragAnchors(anchors, sel, snap, diff);
    RevertRestoresHeld(anchors, sel, dragged);
    var r := RevertAnchors(dragged, snap);
    forall k | k in anchors ensures r[k] == anchors[k] {
      if k !in sel {
        assert dragged[k] == anchors[k];
      }
    }
  }



  /** One more position of the list: a hit there is the new last hit. */
  lemma LastHitIndexStep(idents: seq<string>, i: int, shapes: map<string, CurveShape>, hitTest: HitTest, cursor: Point)
    requires 0 <= i < |idents|
    ensures LastHitIndex(idents[..i + 1], shapes, hitTest, cursor) ==
      if CurveHitAt(idents[i], shapes, hitTest, cursor) then Some(i) else LastHitIndex(idents[..i], shapes, hitTest, cursor)
  {
    assert idents[..i + 1][..i] == idents[..i];
  }

  /** One more curve tested by `handleClick`: a hit there overwrites the record. */
  lemma GrabAfterClickStep(idents: seq<string>, i: int, shapes: map<string, CurveShape>, hitTest: HitTest, cursor: Point)
    requires HitIndexInRange(hitTest) && 0 <= i < |idents|
    ensures GrabAfterClick(idents[..i + 1], shapes, hitTest, cursor) ==
      if CurveHitAt(idents[i], shapes, hitTest, cursor) then GrabOfHit(idents[i], shapes, hitTest, cursor)
      else GrabAfterClick(idents[..i], shapes, hitTest, cursor)
  {
    LastHitIndexStep(idents, i, shapes, hitTest, cursor);
    assert idents[..i + 1][i] == idents[i];
  }

  // ---------------------------------------------------------------------
  // Point edits delegated to the curves
  // ---------------------------------------------------------------------

  /** The points of every curve, unchanged. */
  function PointsOfShapes(shapes: map<string, CurveShape>): (r: map<string, seq<ControlPoint>>)
    ensures r.Keys == shapes.Keys
  {
    map k | k in shapes :: shapes[k].points
  }

  /**
   * The points after an EDIT-mode grab by `diff`: the grabbed point of the
   * grabbed curve goes to its last position plus `diff` turned into the
   * curve's axes; every other curve keeps its points, and without a grabbed
   * point nothing moves.
   */
  function EditGrabPoints(shapes: map<string, CurveShape>, g: GrabbedPoint, diff: Point,
                          rotate: (Point, real) -> Point, rule: MoveRule): (r: map<string, seq<ControlPoint>>)
    requires GrabComplete(g)
    ensures r.Keys == shapes.Keys
    ensures g.ident.None? ==> r == PointsOfShapes(shapes)
    ensures forall k :: k in shapes && g.ident != Some(k) ==> r[k] == shapes[k].points
  {
    map k | k in shapes ::
      if g.ident == Some(k)
      then rule(shapes[k], Add(g.lastPos.value, rotate(diff, shapes[k].orientationAngle)), g.pointIndex.value, g.pointType.value)
      else shapes[k].points
  }

  /**
   * The points after `revertPointToPrevPos`: the grabbed point of the grabbed
   * curve goes back to its last position when its index is below the curve's
   * point count; otherwise nothing moves.
   */
  function RevertPointPoints(shapes: map<string, CurveShape>, g: GrabbedPoint, rule: MoveRule): (r: map<string, seq<ControlPoint>>)
    requires GrabComplete(g)
    ensures r.Keys == shapes.Keys
    ensures forall k :: k in shapes && g.ident != Some(k) ==> r[k] == shapes[k].points
  {
    map k | k in shapes ::
      if g.ident == Some(k) && g.pointIndex.value < |shapes[k].points|
      then rule(shapes[k], g.lastPos.value, g.pointIndex.value, g.pointType.value)
      else shapes[k].points
  }

  /**
   * The points after `changeGrabbedHandle2Type(t)`: the grabbed handle of the
   * grabbed curve takes type `t`; a grabbed control point ("cp") has no
   * handle type and nothing changes.
   */
  function HandleTypePoints(shapes: map<string, CurveShape>, g: GrabbedPoint, rule: HandleTypeRule, t: HandleType): (r: map<string, seq<ControlPoint>>)
    requires GrabComplete(g)
    ensures r.Keys == shapes.Keys
    ensures forall k :: k in shapes && g.ident != Some(k) ==> r[k] == shapes[k].points
    ensures g.pointType == Some("cp") ==> r == PointsOfShapes(shapes)
  {
    map k | k in shapes ::
      if g.ident == Some(k) && g.pointType != Some("cp")
      then rule(shapes[k], g.pointIndex.value, g.pointType.value, t)
      else shapes[k].points
  }

  /** The points after extending the curves in `done` at one end. */
  function ExtendedPoints(shapes: map<string, CurveShape>, done: set<string>, rule: ExtendRule, prepend: bool): (r: map<string, seq<ControlPoint>>)
    ensures r.Keys == shapes.Keys
  {
    map k | k in shapes :: if k in done then rule(shapes[k], prepend) else shapes[k].points
  }


  /** One more snapshot entry taken by `holdSelectedCurveCusPos`. */
  lemma HoldSnapshotStep(anchors: map<string, Point>, sel: set<string>, done: set<string>, k: string)
    requires k in anchors
    ensures HoldSnapshot(anchors, sel * (done + {k})) ==
      if k in sel then HoldSnapshot(anchors, sel * done)[k := anchors[k]] else HoldSnapshot(anchors, sel * done)
  {
  }

  class TrackCurveMediator {
    var order: seq<string>
    var curveMap: map<string, BezierCurveItem>
    var curveBeingEdited: CurveBeingEdited
    var selectedCurveLastPos: map<string, Point>
    var grabbedPoint: GrabbedPoint

    /** The curve objects the registry refers to. */
    ghost function Curves(): set<BezierCurve>
      reads this`curveMap
    {
      set k | k in curveMap :: curveMap[k].curve
    }

    /**
     * The order lists the keys once each, different idents hold different
     * curve objects, the `editing` flag is never set (no method sets it), and
     * a grabbed point is complete.
     */
    ghost predicate Valid()
      reads this`order, this`curveMap, this`curveBeingEdited, this`grabbedPoint
    {
      && Distinct(order)
      && Elems(order) == curveMap.Keys
      && DistinctCurves()
      && !curveBeingEdited.editing
      && GrabComplete(grabbedPoint)
    }

    /** Different idents hold different curve objects. */
    ghost predicate DistinctCurves()
      reads this`curveMap
    {
      forall a, b :: a in curveMap && b in curveMap && a != b ==> curveMap[a].curve != curveMap[b].curve
    }

    ghost function SelectedSet(): set<string>
      reads this`curveMap
    {
      set k | k in curveMap && curveMap[k].selected
    }

    /** Every curve's anchor, by ident. */
    ghost function Anchors(): map<string, Point>
      reads this`curveMap, Curves()`anchorPoint
    {
      map k | k in curveMap :: curveMap[k].curve.anchorPoint
    }

    /** Every curve's state, by ident. */
    ghost function Shapes(): map<string, CurveShape>
      reads this`curveMap, Curves()
    {
      map k | k in curveMap :: curveMap[k].curve.Shape()
    }

    /** Every curve's control points, by ident. */
    ghost function Points(): map<string, seq<ControlPoint>>
      reads this`curveMap, Curves()`points
    {
      map k | k in curveMap :: curveMap[k].curve.points
    }

    /** The curve of the grabbed point, when it names a registered curve. */
    ghost function GrabbedCurve(): set<BezierCurve>
      reads this`curveMap, this`grabbedPoint
    {
      if grabbedPoint.ident.Some? && grabbedPoint.ident.value in curveMap
      then {curveMap[grabbedPoint.ident.value].curve} else {}
    }

    constructor ()
      ensures Valid()
      ensures order == [] && curveMap == map[] && selectedCurveLastPos == map[]
      ensures curveBeingEdited == CurveBeingEdited(false, None) && grabbedPoint == NoGrab
    {
      order := [];
      curveMap := map[];
      curveBeingEdited := CurveBeingEdited(false, None);
      selectedCurveLastPos := map[];
      grabbedPoint := NoGrab;
    }

    /**
     * Stores the curve under the default name, unselected; a known ident keeps
     * its place in the order.
     */
    method AddCurve(ident: string, curve: BezierCurve)
      requires Valid()
      requires forall k :: k in curveMap && k != ident ==> curveMap[k].curve != curve
      modifies this`order, this`curveMap
      ensures Valid()
      ensures curveMap == old(curveMap)[ident := BezierCurveItem(DefaultCurveName, curve, false)]
      ensures order == if ident in old(curveMap) then old(order) else old(order) + [ident]
    {
      if ident !in curveMap {
        order := order + [ident];
      }
      curveMap := curveMap[ident := BezierCurveItem(DefaultCurveName, curve, false)];
    }

    /** Removes the ident if present; the others keep their relative order. */
    method DeleteCurve(ident: string)
      requires Valid()
      modifies this`order, this`curveMap
      ensures Valid()
      ensures curveMap == old(curveMap) - {ident}
      ensures order == Filter(old(order), curveMap.Keys)
    {
      if ident in curveMap {
        curveMap := curveMap - {ident};
        order := Filter(order, curveMap.Keys);
        FilterDistinct(old(order), curveMap.Keys);
      } else {
        FilterKeepsAll(order, curveMap.Keys);
      }
    }

    /**
     * Removes exactly the selected curves and keeps the others, items
     * included; nothing is selected afterwards. The grabbed point is kept,
     * even when it names a deleted curve.
     */
    method DeleteSelectedCurve()
      requires Valid()
      modifies this`order, this`curveMap
      ensures Valid()
      ensures curveMap == old(curveMap) - old(SelectedSet())
      ensures order == Filter(old(order), curveMap.Keys)
      ensures SelectedSet() == {}
    {
      var deleteList := GetSelectedCurveList();
      DeleteEach(deleteList);
      forall k | k in curveMap ensures !curveMap[k].selected {
        assert k !in old(SelectedSet());
      }
    }

    /** The `forEach` of `deleteSelectedCurve`: `deleteCurve` on every listed ident. */
    method DeleteEach(deleteList: seq<string>)
      requires Valid()
      modifies this`order, this`curveMap
      ensures Valid()
      ensures curveMap == old(curveMap) - Elems(deleteList)
      ensures order == Filter(old(order), curveMap.Keys)
    {
      var i := 0;
      ghost var done: set<string> := {};
      FilterKeepsAll(order, curveMap.Keys);
      while i < |deleteList|
        invariant 0 <= i <= |deleteList|
        invariant Valid()
        invariant done == Elems(deleteList[..i])
        invariant curveMap == old(curveMap) - done
        invariant order == Filter(old(order), curveMap.Keys)
      {
        ghost var before := curveMap.Keys;
        ElemsPrefix(deleteList, i);
        DeleteCurve(deleteList[i]);
        RemoveTwice(old(curveMap), done, deleteList[i]);
        FilterShrink(old(order), before, curveMap.Keys);
        done := done + {deleteList[i]};
        i := i + 1;
      }
      assert deleteList[..i] == deleteList;
    }

    /** Removing a set of keys and then one more is removing their union. */
    static lemma RemoveTwice(m: map<string, BezierCurveItem>, done: set<string>, x: string)
      ensures (m - done) - {x} == m - (done + {x})
    {
    }

    /**
     * One row per curve, in map order, with its name and flag; a row is
     * marked `beingEdited` when its ident is the edited one, so at most one is.
     */
    method GetCurveList() returns (r: seq<CurveListEntry>)
      requires Valid()
      ensures |r| == |order|
      ensures forall i :: 0 <= i < |r| ==>
        r[i] == CurveListEntry(order[i], curveMap[order[i]].name, curveMap[order[i]].selected,
                               curveBeingEdited.ident == Some(order[i]))
      ensures forall i, j :: 0 <= i < j < |r| ==> !(r[i].beingEdited && r[j].beingEdited)
    {
      r := [];
      var i := 0;
      while i < |order|
        invariant 0 <= i <= |order|
        invariant |r| == i
        invariant forall j :: 0 <= j < i ==>
          r[j] == CurveListEntry(order[j], curveMap[order[j]].name, curveMap[order[j]].selected,
                                 curveBeingEdited.ident == Some(order[j]))
      {
        var ident := order[i];
        var item := curveMap[ident];
        r := r + [CurveListEntry(ident, item.name, item.selected, curveBeingEdited.ident == Some(ident))];
        i := i + 1;
      }
    }

    /** The selected idents in map order, each once. */
    method GetSelectedCurveList() returns (r: seq<string>)
      requires Valid()
      ensures r == Filter(order, SelectedSet())
      ensures Distinct(r) && Elems(r) == SelectedSet()
    {
      r := [];
      var i := 0;
      while i < |order|
        invariant 0 <= i <= |order|
        invariant r == Filter(order[..i], SelectedSet())
      {
        FilterPrefix(order, i, SelectedSet());
        if curveMap[order[i]].selected {
          r := r + [order[i]];
        }
        i := i + 1;
      }
      assert order[..i] == order;
      FilterDistinct(order, SelectedSet());
    }

    /** The number of selected curves: the length of the selected list. */
    method GetSelectedCurveSize() returns (selectedSize: nat)
      requires Valid()
      ensures selectedSize == |Filter(order, SelectedSet())|
      ensures selectedSize == |SelectedSet()|
    {
      selectedSize := 0;
      var i := 0;
      while i < |order|
        invariant 0 <= i <= |order|
        invariant selectedSize == |Filter(order[..i], SelectedSet())|
      {
        FilterPrefix(order, i, SelectedSet());
        if curveMap[order[i]].selected {
          selectedSize := selectedSize + 1;
        }
        i := i + 1;
      }
      assert order[..i] == order;
      FilterLength(order, SelectedSet());
      SelectedAreRegistered();
    }

    /** Every selected ident is in the order. */
    lemma SelectedAreRegistered()
      requires Valid()
      ensures Elems(order) * SelectedSet() == SelectedSet()
    {
    }

    predicate HasCurveBeingEdited()
      reads this`curveBeingEdited
    {
      curveBeingEdited.ident.Some?
    }

    /** `curveIsSelected`: an unknown ident is not selected. */
    predicate CurveIsSelected(ident: string)
      reads this`curveMap
      ensures CurveIsSelected(ident) <==> ident in SelectedSet()
    {
      ident in curveMap && curveMap[ident].selected
    }

    predicate CurveNameIsBeingEdited(ident: string)
      reads this`curveMap, this`curveBeingEdited
    {
      ident in curveMap && curveBeingEdited.editing && curveBeingEdited.ident == Some(ident)
    }

    predicate HasGrabbedPoint()
      reads this`grabbedPoint
    {
      grabbedPoint.ident.Some?
    }

    /** Since the `editing` flag is never set, no curve name is ever being edited. */
    lemma NoNameIsBeingEdited(ident: string)
      requires Valid()
      ensures !CurveNameIsBeingEdited(ident)
    {
    }

    /** Renames a known curve; nothing else changes. */
    method RenameCurve(ident: string, name: string)
      requires Valid()
      modifies this`curveMap
      ensures Valid()
      ensures curveMap == if ident in old(curveMap) then old(curveMap)[ident := old(curveMap)[ident].(name := name)]
                          else old(curveMap)
    {
      if ident !in curveMap {
        return;
      }
      var curveItem := curveMap[ident];
      curveMap := curveMap[ident := curveItem.(name := name)];
    }

    /** Selects a known curve; an unknown ident changes nothing. */
    method SelectCurve(ident: string)
      requires Valid()
      modifies this`curveMap
      ensures Valid()
      ensures SameCurves(old(curveMap), curveMap)
      ensures SelectedSet() == old(SelectedSet()) + ({ident} * curveMap.Keys)
    {
      if ident !in curveMap {
        return;
      }
      var toBeUpdated := curveMap[ident];
      curveMap := curveMap[ident := toBeUpdated.(selected := true)];
    }

    /** Deselects a known curve; an unknown ident changes nothing. */
    method DeselectCurve(ident: string)
      requires Valid()
      modifies this`curveMap
      ensures Valid()
      ensures SameCurves(old(curveMap), curveMap)
      ensures SelectedSet() == old(SelectedSet()) - {ident}
    {
      if ident in curveMap {
        var toBeUpdated := curveMap[ident];
        curveMap := curveMap[ident := toBeUpdated.(selected := false)];
      }
    }

    /** Deselects every curve, one entry at a time. */
    method ClearSelected()
      requires Valid()
      modifies this`curveMap
      ensures Valid()
      ensures SameCurves(old(curveMap), curveMap)
      ensures SelectedSet() == {}
    {
      var i := 0;
      while i < |order|
        invariant 0 <= i <= |order|
        invariant SameCurves(old(curveMap), curveMap)
        invariant forall j :: 0 <= j < i ==> !curveMap[order[j]].selected
      {
        var ident := order[i];
        var item := curveMap[ident];
        curveMap := curveMap[ident := item.(selected := false)];
        i := i + 1;
      }
      forall k | k in curveMap ensures !curveMap[k].selected {
        assert k in Elems(order);
      }
      SameCurvesValid(old(curveMap));
    }

    /** Replacing the items by items over the same curve objects keeps the registry valid. */
    lemma SameCurvesValid(before: map<string, BezierCurveItem>)
      requires SameCurves(before, curveMap)
      requires Distinct(order) && Elems(order) == before.Keys
      requires forall a, b :: a in before && b in before && a != b ==> before[a].curve != before[b].curve
      requires !curveBeingEdited.editing && GrabComplete(grabbedPoint)
      ensures Valid()
    {
    }

    /**
     * The card-click rule; while a curve is being edited (or its name is), a
     * click changes nothing.
     */
    method ClickedOnCurveCard(shiftPressed: bool, ident: string)
      requires Valid()
      modifies this`curveMap
      ensures Valid()
      ensures SameCurves(old(curveMap), curveMap)
      ensures old(CurveNameIsBeingEdited(ident) || HasCurveBeingEdited()) ==> curveMap == old(curveMap)
      ensures !old(CurveNameIsBeingEdited(ident) || HasCurveBeingEdited()) ==>
        SelectedSet() == ClickSelection(old(SelectedSet()), old(curveMap).Keys, shiftPressed, ident)
    {
      if CurveNameIsBeingEdited(ident) || HasCurveBeingEdited() {
        return;
      }
      if shiftPressed {
        if CurveIsSelected(ident) {
          DeselectCurve(ident);
        } else {
          SelectCurve(ident);
        }
      } else {
        var size := GetSelectedCurveSize();
        if size == 1 && CurveIsSelected(ident) {
          OnlyMember(SelectedSet(), ident);
          DeselectCurve(ident);
        } else {
          ClearSelected();
          SelectCurve(ident);
        }
      }
    }

    /** A known ident becomes the edited one and every selection is cleared. */
    method DoubleClickedOnCurveCard(ident: string)
      requires Valid()
      modifies this`curveMap, this`curveBeingEdited
      ensures Valid()
      ensures SameCurves(old(curveMap), curveMap)
      ensures ident !in old(curveMap) ==> curveMap == old(curveMap) && curveBeingEdited == old(curveBeingEdited)
      ensures ident in old(curveMap) ==>
        curveBeingEdited == old(curveBeingEdited).(ident := Some(ident)) && SelectedSet() == {}
    {
      if ident !in curveMap {
        return;
      }
      curveBeingEdited := curveBeingEdited.(ident := Some(ident));
      ClearSelected();
    }

    /** Afterwards no curve is being edited. */
    method ClearEditingStatus()
      modifies this`curveBeingEdited
      ensures curveBeingEdited == old(curveBeingEdited).(ident := None)
      ensures !HasCurveBeingEdited()
    {
      curveBeingEdited := curveBeingEdited.(ident := None);
    }

    /** Drops the grabbed point: afterwards no point is grabbed and the index is -1. */
    method ReleaseGrabbedPoint()
      modifies this`grabbedPoint
      ensures grabbedPoint == ReleasedGrab && !HasGrabbedPoint()
    {
      grabbedPoint := grabbedPoint.(ident := None);
      grabbedPoint := grabbedPoint.(lastPos := None);
      grabbedPoint := grabbedPoint.(pointIndex := Some(-1));
      grabbedPoint := grabbedPoint.(pointType := None);
    }

    /**
     * Tests the selected curves in map order; every hit overwrites the
     * grabbed point with the curve, the hit's index and type and the position
     * the type selects, so the last hit curve wins. Without a hit the grab is
     * released.
     */
    method HandleClick(cursorPosition: Point, hitTest: HitTest)
      requires Valid() && HitIndexInRange(hitTest)
      modifies this`grabbedPoint
      ensures Valid()
      ensures grabbedPoint == old(GrabAfterClick(Filter(order, SelectedSet()), Shapes(), hitTest, cursorPosition))
    {
      var selectedList := GetSelectedCurveList();
      var clickedOnPoint := GrabOnCurves(selectedList, cursorPosition, hitTest);
      if !clickedOnPoint {
        ReleaseGrabbedPoint();
      }
    }

    /**
     * The `forEach` of `handleClick` over the listed curves: reports whether
     * some listed curve was hit and leaves the record of the last hit, or the
     * old record when none was hit.
     */
    method GrabOnCurves(idents: seq<string>, cursorPosition: Point, hitTest: HitTest) returns (clickedOnPoint: bool)
      requires forall i :: 0 <= i < |idents| ==> idents[i] in curveMap
      requires HitIndexInRange(hitTest) && GrabComplete(grabbedPoint)
      modifies this`grabbedPoint
      ensures clickedOnPoint == old(GrabAfterClick(idents, Shapes(), hitTest, cursorPosition)).ident.Some?
      ensures grabbedPoint == if clickedOnPoint then old(GrabAfterClick(idents, Shapes(), hitTest, cursorPosition)) else old(grabbedPoint)
      ensures GrabComplete(grabbedPoint)
    {
      ghost var shapes := Shapes();
      clickedOnPoint := false;
      var i := 0;
      while i < |idents|
        invariant 0 <= i <= |idents|
        invariant clickedOnPoint <==> GrabAfterClick(idents[..i], shapes, hitTest, cursorPosition).ident.Some?
        invariant grabbedPoint == if clickedOnPoint then GrabAfterClick(idents[..i], shapes, hitTest, cursorPosition) else old(grabbedPoint)
        invariant GrabComplete(grabbedPoint)
        invariant Shapes() == shapes
      {
        GrabAfterClickStep(idents, i, shapes, hitTest, cursorPosition);
        var onPoint := TestCurveForGrab(idents[i], cursorPosition, hitTest);
        clickedOnPoint := clickedOnPoint || onPoint;
        i := i + 1;
      }
      assert idents[..i] == idents;
    }

    /**
     * The `forEach` callback of `handleClick` for one curve: on a hit the
     * grabbed point becomes that curve's hit record.
     */
    method TestCurveForGrab(ident: string, cursorPosition: Point, hitTest: HitTest) returns (hit: bool)
      requires ident in curveMap && HitIndexInRange(hitTest)
      modifies this`grabbedPoint
      ensures hit == old(CurveHitAt(ident, Shapes(), hitTest, cursorPosition))
      ensures hit ==> grabbedPoint == old(GrabOfHit(ident, Shapes(), hitTest, cursorPosition))
      ensures !hit ==> grabbedPoint == old(grabbedPoint)
    {
      var curveItem := curveMap[ident];
      ghost var shapes := Shapes();
      assert shapes[ident] == curveItem.curve.Shape();
      var onPoint := hitTest(curveItem.curve.Shape(), cursorPosition);
      hit := onPoint.hit;
      if onPoint.hit {
        var thePoint := curveItem.curve.points[onPoint.pointIndex];
        var lastPos: Point;
        if onPoint.pointType == "cp" {
          lastPos := thePoint.coord;
        } else if onPoint.pointType == "lh" {
          lastPos := thePoint.leftHandle.coord;
        } else {
          lastPos := thePoint.rightHandle.coord;
        }
        assert lastPos == GrabbedCoord(thePoint, onPoint.pointType);
        grabbedPoint := GrabbedPoint(Some(ident), Some(onPoint.pointIndex), Some(onPoint.pointType), Some(lastPos));
      }
      assert Shapes() == shapes;
    }

    /**
     * The drag of the mouse by `cursorPositionDiff`. In EDIT mode the grabbed
     * point moves to its last position plus the difference turned into its
     * curve's axes, and only that curve's points change; in OBJECT mode every
     * selected curve with a snapshot moves its anchor to the snapshot plus the
     * difference, and no points change.
     */
    method HandleGrab(viewMode: ViewMode, shiftPressed: bool, cursorPositionDiff: Point,
                      rotate: (Point, real) -> Point, moveRule: MoveRule)
      requires Valid()
      modifies Curves()`anchorPoint, Curves()`points
      ensures Valid()
      ensures viewMode == EDIT ==>
        && Anchors() == old(Anchors())
        && Points() == EditGrabPoints(old(Shapes()), grabbedPoint, cursorPositionDiff, rotate, moveRule)
      ensures viewMode == OBJECT ==>
        && Anchors() == DragAnchors(old(Anchors()), old(SelectedSet()), selectedCurveLastPos, cursorPositionDiff)
        && Points() == old(Points())
    {
      if viewMode == EDIT {
        GrabInEditMode(cursorPositionDiff, rotate, moveRule);
      } else {
        var selectedList := GetSelectedCurveList();
        GrabInObjectMode(selectedList, cursorPositionDiff);
      }
    }

    /** The EDIT branch of `handleGrab`. */
    method GrabInEditMode(cursorPositionDiff: Point, rotate: (Point, real) -> Point, moveRule: MoveRule)
      requires DistinctCurves() && GrabComplete(grabbedPoint)
      modifies GrabbedCurve()`points
      ensures Points() == EditGrabPoints(old(Shapes()), grabbedPoint, cursorPositionDiff, rotate, moveRule)
      ensures Anchors() == old(Anchors())
    {
      if grabbedPoint.ident.Some? && grabbedPoint.ident.value in curveMap {
        ghost var shapes := Shapes();
        var ident := grabbedPoint.ident.value;
        var curveOfInterest := curveMap[ident];
        var diff := rotate(cursorPositionDiff, curveOfInterest.curve.orientationAngle);
        var destPos := Add(grabbedPoint.lastPos.value, diff);
        curveOfInterest.curve.MoveControlPoint(moveRule, destPos, grabbedPoint.pointIndex.value, grabbedPoint.pointType.value);
        forall k | k in curveMap ensures Points()[k] == EditGrabPoints(shapes, grabbedPoint, cursorPositionDiff, rotate, moveRule)[k] {
          if k != ident {
            assert curveMap[k].curve != curveOfInterest.curve;
          }
        }
      }
    }

    /** The OBJECT branch of `handleGrab`: the `forEach` over the listed (selected) curves. */
    method GrabInObjectMode(selectedList: seq<string>, cursorPositionDiff: Point)
      requires DistinctCurves() && forall i :: 0 <= i < |selectedList| ==> selectedList[i] in curveMap
      modifies Curves()`anchorPoint
      ensures Anchors() == DragAnchors(old(Anchors()), Elems(selectedList), selectedCurveLastPos, cursorPositionDiff)
      ensures Points() == old(Points())
    {
      ghost var anchors := Anchors();
      var i := 0;
      while i < |selectedList|
        invariant 0 <= i <= |selectedList|
        invariant forall k :: k in curveMap ==>
          curveMap[k].curve.anchorPoint ==
            if k in Elems(selectedList[..i]) && k in selectedCurveLastPos then Add(selectedCurveLastPos[k], cursorPositionDiff) else anchors[k]
      {
        var ident := selectedList[i];
        var curveItem := curveMap[ident];
        ElemsPrefix(selectedList, i);
        if ident in selectedCurveLastPos {
          var destPos := Add(selectedCurveLastPos[ident], cursorPositionDiff);
          curveItem.curve.MoveAnchorPoint(destPos);
        }
        i := i + 1;
      }
      assert selectedList[..i] == selectedList;
      assert Anchors() == DragAnchors(anchors, Elems(selectedList), selectedCurveLastPos, cursorPositionDiff);
    }

    /**
     * Puts the grabbed point back at its last position, when the grabbed
     * curve is registered and the index is below its point count.
     */
    method RevertPointToPrevPos(moveRule: MoveRule)
      requires DistinctCurves() && GrabComplete(grabbedPoint)
      modifies GrabbedCurve()`points
      ensures Points() == RevertPointPoints(old(Shapes()), grabbedPoint, moveRule)
    {
      if grabbedPoint.ident.Some? && grabbedPoint.ident.value in curveMap {
        ghost var shapes := Shapes();
        var ident := grabbedPoint.ident.value;
        var curveOfInterest := curveMap[ident];
        if grabbedPoint.pointIndex.value < |curveOfInterest.curve.points| {
          curveOfInterest.curve.MoveControlPoint(moveRule, grabbedPoint.lastPos.value,
                                                 grabbedPoint.pointIndex.value, grabbedPoint.pointType.value);
        }
        forall k | k in curveMap ensures Points()[k] == RevertPointPoints(shapes, grabbedPoint, moveRule)[k] {
          if k != ident {
            assert curveMap[k].curve != curveOfInterest.curve;
          }
        }
      }
    }

    /**
     * Puts every registered curve with a snapshot back at its snapshot
     * anchor, then empties the snapshot.
     */
    method RevertCurveToPrevPos()
      requires Valid()
      modifies Curves()`anchorPoint, this`selectedCurveLastPos
      ensures Anchors() == RevertAnchors(old(Anchors()), old(selectedCurveLastPos))
      ensures selectedCurveLastPos == map[]
    {
      ghost var anchors := Anchors();
      var todo := selectedCurveLastPos.Keys;
      while todo != {}
        invariant selectedCurveLastPos == old(selectedCurveLastPos)
        invariant todo <= selectedCurveLastPos.Keys
        invariant forall k :: k in curveMap ==>
          curveMap[k].curve.anchorPoint == if k in selectedCurveLastPos && k !in todo then selectedCurveLastPos[k] else anchors[k]
        decreases todo
      {
        var ident :| ident in todo;
        if ident in curveMap {
          var curveOfInterest := curveMap[ident];
          curveOfInterest.curve.anchorPoint := selectedCurveLastPos[ident];
        }
        todo := todo - {ident};
      }
      assert Anchors() == RevertAnchors(anchors, selectedCurveLastPos);
      selectedCurveLastPos := map[];
    }

    /** Replaces the snapshot by the anchors of the selected curves. */
    method HoldSelectedCurveCusPos()
      requires Valid()
      modifies this`selectedCurveLastPos
      ensures selectedCurveLastPos == old(HoldSnapshot(Anchors(), SelectedSet()))
    {
      ghost var anchors := Anchors();
      ghost var sel := SelectedSet();
      selectedCurveLastPos := map[];
      var i := 0;
      while i < |order|
        invariant 0 <= i <= |order|
        invariant selectedCurveLastPos == HoldSnapshot(anchors, sel * Elems(order[..i]))
      {
        var ident := order[i];
        var curveItem := curveMap[ident];
        ElemsPrefix(order, i);
        HoldSnapshotStep(anchors, sel, Elems(order[..i]), ident);
        if curveItem.selected {
          selectedCurveLastPos := selectedCurveLastPos[ident := curveItem.curve.anchorPoint];
        }
        i := i + 1;
      }
      assert order[..i] == order;
      SelectedAreRegistered();
    }

    /**
     * Renews the grabbed point's last position from its curve's current
     * points; nothing changes without a registered grabbed curve, with an
     * index outside the curve's points, or with an unknown point type.
     */
    method HoldGrabbedPointCurPos()
      requires Valid()
      modifies this`grabbedPoint
      ensures Valid()
      ensures var g := old(grabbedPoint);
        grabbedPoint ==
          if g.ident.Some? && g.ident.value in curveMap
             && 0 <= g.pointIndex.value < |curveMap[g.ident.value].curve.points|
             && HeldCoord(curveMap[g.ident.value].curve.points[g.pointIndex.value], g.pointType.value).Some?
          then g.(lastPos := HeldCoord(curveMap[g.ident.value].curve.points[g.pointIndex.value], g.pointType.value))
          else g
    {
      if HasGrabbedPoint() && grabbedPoint.ident.value in curveMap {
        var pts := curveMap[grabbedPoint.ident.value].curve.points;
        if 0 <= grabbedPoint.pointIndex.value < |pts| {
          var controlPointOfInterest := pts[grabbedPoint.pointIndex.value];
          if grabbedPoint.pointType.value == "lh" {
            grabbedPoint := grabbedPoint.(lastPos := Some(controlPointOfInterest.leftHandle.coord));
          } else if grabbedPoint.pointType.value == "rh" {
            grabbedPoint := grabbedPoint.(lastPos := Some(controlPointOfInterest.rightHandle.coord));
          } else if grabbedPoint.pointType.value == "cp" {
            grabbedPoint := grabbedPoint.(lastPos := Some(controlPointOfInterest.coord));
          }
        }
      }
    }

    /**
     * Gives the grabbed handle the handle type `t`; a grabbed control point
     * ("cp") is left alone.
     */
    method ChangeGrabbedHandle2Type(t: HandleType, rule: HandleTypeRule)
      requires DistinctCurves() && GrabComplete(grabbedPoint)
      modifies GrabbedCurve()`points
      ensures Points() == HandleTypePoints(old(Shapes()), grabbedPoint, rule, t)
    {
      if HasGrabbedPoint() && grabbedPoint.ident.value in curveMap {
        ghost var shapes := Shapes();
        var ident := grabbedPoint.ident.value;
        var curveOfInterest := curveMap[ident];
        if grabbedPoint.pointType.value != "cp" {
          curveOfInterest.curve.ChangeHandleType(rule, grabbedPoint.pointIndex.value, grabbedPoint.pointType.value, t);
          forall k | k in curveMap ensures Points()[k] == HandleTypePoints(shapes, grabbedPoint, rule, t)[k] {
            if k != ident {
              assert curveMap[k].curve != curveOfInterest.curve;
            }
          }
        }
      }
    }

    /** Adds a control point at one end of EVERY curve, selected or not. */
    method ExtendSelectedCurves(prepend: bool, rule: ExtendRule)
      requires Valid()
      modifies Curves()`points
      ensures Points() == ExtendedPoints(old(Shapes()), curveMap.Keys, rule, prepend)
    {
      ghost var shapes := Shapes();
      ghost var done: set<string> := {};
      var i := 0;
      while i < |order|
        invariant 0 <= i <= |order|
        invariant done == Elems(order[..i])
        invariant forall k :: k in curveMap ==>
          curveMap[k].curve.points == if k in done then rule(shapes[k], prepend) else shapes[k].points
      {
        var ident := order[i];
        var curveItem := curveMap[ident];
        ElemsPrefix(order, i);
        assert ident !in done;
        curveItem.curve.ExtendControlPoint(rule, prepend);
        done := done + {ident};
        i := i + 1;
      }
      assert order[..i] == order;
      assert Points() == ExtendedPoints(shapes, curveMap.Keys, rule, prepend);
    }
  }
}
