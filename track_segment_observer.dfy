/**
 * `TrackSegmentObserver`: the registry of the segment editor. It keeps the
 * segments by ident (in insertion order), their selected flags, the segment
 * whose name is being edited and the control point being dragged, and
 * implements card selection, deletion, renaming, the control-point hit test
 * over the selected segments and the drag of the hit point.
 */
module SegmentObserver {
  import opened Geometry
  import opened OrderedKeys
  import opened SelectionRule
  import opened Segments
  import opened Wrappers

  datatype SegmentItem = SegmentItem(segment: TrackSegment, selected: bool)

  datatype EditingSegment = EditingSegment(editing: bool, ident: string)

  datatype DraggedPoint = DraggedPoint(active: bool, ident: string, index: int)

  /** One row of the segment list shown beside the canvas. */
  datatype SegmentListEntry = SegmentListEntry(ident: string, name: string, selected: bool, editing: bool)

  /** Same keys, and every key still holds the same segment object. */
  predicate SameSegments(a: map<string, SegmentItem>, b: map<string, SegmentItem>) {
    a.Keys == b.Keys && forall k :: k in a ==> b[k].segment == a[k].segment
  }

  /** Key `k` is selected and the click hits one of its segment's points. */
  predicate SegmentHitAt(k: string, sel: set<string>, pts: map<string, seq<Point>>, click: Point) {
    k in sel && k in pts && ControlPointHit(pts[k], click).hit
  }

  /**
   * The position, in `idents`, of the first selected segment that the click
   * hits, or None when no selected segment is hit.
   */
  function FirstHitIndex(idents: seq<string>, sel: set<string>, pts: map<string, seq<Point>>, click: Point): (r: Option<nat>)
    ensures r.Some? ==> r.value < |idents| && SegmentHitAt(idents[r.value], sel, pts, click)
    ensures r.Some? ==> forall j :: 0 <= j < r.value ==> !SegmentHitAt(idents[j], sel, pts, click)
    ensures r.None? ==> forall j :: 0 <= j < |idents| ==> !SegmentHitAt(idents[j], sel, pts, click)
    decreases |idents|
  {
    if idents == [] then None
    else if SegmentHitAt(idents[0], sel, pts, click) then Some(0)
    else
      var rest := FirstHitIndex(idents[1..], sel, pts, click);
      assert forall j :: 0 < j < |idents| ==> idents[j] == idents[1..][j - 1];
      if rest.Some? then Some(rest.value + 1) else None
  }

  class TrackSegmentObserver {
    var order: seq<string>
    var segmentMap: map<string, SegmentItem>
    var editingSegment: EditingSegment
    var draggedPoint: DraggedPoint

    /** The segment objects the registry refers to. */
    ghost function Segments(): set<TrackSegment>
      reads this`segmentMap
    {
      set k | k in segmentMap :: segmentMap[k].segment
    }

    /** The segment registered under `ident`, as a frame: empty when there is none. */
    ghost function SegmentOf(ident: string): set<TrackSegment>
      reads this`segmentMap
    {
      if ident in segmentMap then {segmentMap[ident].segment} else {}
    }

    ghost predicate Valid()
      reads this`order, this`segmentMap, Segments()
    {
      && Distinct(order)
      && Elems(order) == segmentMap.Keys
      && forall k :: k in segmentMap ==> segmentMap[k].segment.Valid()
    }

    ghost function SelectedSet(): set<string>
      reads this`segmentMap
    {
      set k | k in segmentMap && segmentMap[k].selected
    }

    /** The points of every registered segment, by ident. */
    ghost function PointsOf(): map<string, seq<Point>>
      reads this`segmentMap, Segments()
    {
      map k | k in segmentMap :: segmentMap[k].segment.points
    }

    constructor ()
      ensures Valid()
      ensures order == [] && segmentMap == map[]
      ensures editingSegment == EditingSegment(false, "") && draggedPoint == DraggedPoint(false, "", 0)
    {
      order := [];
      segmentMap := map[];
      editingSegment := EditingSegment(false, "");
      draggedPoint := DraggedPoint(false, "", 0);
    }

    /** Stores the segment, unselected; a known ident keeps its place in the order. */
    method AddSegment(ident: string, segment: TrackSegment)
      requires Valid() && segment.Valid()
      modifies this
      ensures Valid()
      ensures segmentMap == old(segmentMap)[ident := SegmentItem(segment, false)]
      ensures order == if ident in old(segmentMap) then old(order) else old(order) + [ident]
      ensures editingSegment == old(editingSegment) && draggedPoint == old(draggedPoint)
    {
      if ident !in segmentMap {
        order := order + [ident];
      }
      segmentMap := segmentMap[ident := SegmentItem(segment, false)];
    }

    /** Removes the ident if present; the others keep their relative order. */
    method DeleteSegment(ident: string)
      requires Valid()
      modifies this`order, this`segmentMap
      ensures Valid()
      ensures segmentMap == old(segmentMap) - {ident}
      ensures order == Filter(old(order), segmentMap.Keys)
      ensures editingSegment == old(editingSegment) && draggedPoint == old(draggedPoint)
    {
      if ident in segmentMap {
        segmentMap := segmentMap - {ident};
        order := Filter(order, segmentMap.Keys);
        FilterDistinct(old(order), segmentMap.Keys);
      } else {
        FilterKeepsAll(order, segmentMap.Keys);
      }
    }

    /** Removes exactly the selected segments and keeps the rest in their order. */
    method DeleteSelectedSegment()
      requires Valid()
      modifies this`order, this`segmentMap
      ensures Valid()
      ensures segmentMap == old(segmentMap) - old(SelectedSet())
      ensures order == Filter(old(order), segmentMap.Keys)
      ensures SelectedSet() == {}
      ensures editingSegment == old(editingSegment) && draggedPoint == old(draggedPoint)
    {
      var deleteList := GetSelectedSegmentList();
      DeleteEach(deleteList);
      forall k | k in segmentMap ensures !segmentMap[k].selected {
        assert k !in old(SelectedSet());
      }
    }

    /** The `forEach` of `deleteSelectedSegment`: `deleteSegment` on every listed ident. */
    method DeleteEach(deleteList: seq<string>)
      requires Valid()
      modifies this`order, this`segmentMap
      ensures Valid()
      ensures segmentMap == old(segmentMap) - Elems(deleteList)
      ensures order == Filter(old(order), segmentMap.Keys)
    {
      var i := 0;
      ghost var done: set<string> := {};
      FilterKeepsAll(order, segmentMap.Keys);
      while i < |deleteList|
        invariant 0 <= i <= |deleteList|
        invariant Valid()
        invariant done == Elems(deleteList[..i])
        invariant segmentMap == old(segmentMap) - done
        invariant order == Filter(old(order), segmentMap.Keys)
      {
        ghost var before := segmentMap.Keys;
        ElemsPrefix(deleteList, i);
        DeleteSegment(deleteList[i]);
        RemoveTwice(old(segmentMap), done, deleteList[i]);
        FilterShrink(old(order), before, segmentMap.Keys);
        done := done + {deleteList[i]};
        i := i + 1;
      }
      assert deleteList[..i] == deleteList;
    }

    /** Sets the segment's name through the segment itself. */
    method RenameSegment(ident: string, name: string)
      requires Valid()
      modifies SegmentOf(ident)`name
      ensures Valid()
      ensures ident in segmentMap ==> segmentMap[ident].segment.GetName() == name
      ensures ident in segmentMap ==> segmentMap[ident].segment.points == old(segmentMap[ident].segment.points)
    {
      if ident !in segmentMap {
        return;
      }
      var segItem := segmentMap[ident];
      segItem.segment.SetName(name);
    }

    method SelectSegment(ident: string)
      requires Valid()
      modifies this`segmentMap
      ensures Valid()
      ensures order == old(order) && SameSegments(old(segmentMap), segmentMap)
      ensures SelectedSet() == old(SelectedSet()) + ({ident} * segmentMap.Keys)
      ensures editingSegment == old(editingSegment) && draggedPoint == old(draggedPoint)
    {
      if ident !in segmentMap {
        return;
      }
      var toBeUpdated := segmentMap[ident];
      segmentMap := segmentMap[ident := toBeUpdated.(selected := true)];
    }

    method DeselectSegment(ident: string)
      requires Valid()
      modifies this`segmentMap
      ensures Valid()
      ensures order == old(order) && SameSegments(old(segmentMap), segmentMap)
      ensures SelectedSet() == old(SelectedSet()) - {ident}
      ensures editingSegment == old(editingSegment) && draggedPoint == old(draggedPoint)
    {
      if ident in segmentMap {
        var toBeUpdated := segmentMap[ident];
        segmentMap := segmentMap[ident := toBeUpdated.(selected := false)];
      }
    }

    /** Deselects every segment, one entry at a time. */
    method ClearSelected()
      requires Valid()
      modifies this`segmentMap
      ensures Valid()
      ensures order == old(order) && SameSegments(old(segmentMap), segmentMap)
      ensures SelectedSet() == {}
      ensures editingSegment == old(editingSegment) && draggedPoint == old(draggedPoint)
    {
      var i := 0;
      while i < |order|
        invariant 0 <= i <= |order|
        invariant SameSegments(old(segmentMap), segmentMap)
        invariant forall j :: 0 <= j < i ==> !segmentMap[order[j]].selected
      {
        var ident := order[i];
        var segItem := segmentMap[ident];
        segmentMap := segmentMap[ident := segItem.(selected := false)];
        i := i + 1;
      }
      forall k | k in segmentMap ensures !segmentMap[k].selected {
        assert k in Elems(order);
      }
      SameSegmentsValid(old(segmentMap));
    }

    /** Removing a set of keys and then one more is removing their union. */
    static lemma RemoveTwice(m: map<string, SegmentItem>, done: set<string>, x: string)
      ensures (m - done) - {x} == m - (done + {x})
    {
    }

    /** Replacing the items by items over the same segment objects keeps the registry valid. */
    lemma SameSegmentsValid(before: map<string, SegmentItem>)
      requires SameSegments(before, segmentMap)
      requires Distinct(order) && Elems(order) == before.Keys
      requires forall k :: k in before ==> before[k].segment.Valid()
      ensures Valid()
    {
    }

    /**
     * The selected segment whose point the click hits first, in map order,
     * becomes the dragged point; on a miss the drag is deactivated.
     */
    method CheckSegmentControlPointClicked(click: Point) returns (r: bool)
      requires Valid()
      modifies this`draggedPoint
      ensures var f := old(FirstHitIndex(order, SelectedSet(), PointsOf(), click));
        && (r <==> f.Some?)
        && (f.Some? ==> draggedPoint == old(DraggedPoint(true, order[f.value],
                                                         ControlPointHit(PointsOf()[order[f.value]], click).index)))
        && (f.None? ==> draggedPoint == old(draggedPoint).(active := false))
    {
      var hit, hitIdent, hitIndex := ScanSelectedForHit(click);
      if hit {
        draggedPoint := DraggedPoint(true, hitIdent, hitIndex);
        r := true;
      } else {
        ClearDraggedControlPoint();
        r := false;
      }
    }

    /**
     * The scan over the map inside `checkSegmentControlPointClicked`: the
     * first selected segment hit by the click, with the index of its hit point.
     */
    method ScanSelectedForHit(click: Point) returns (hit: bool, hitIdent: string, hitIndex: int)
      requires Valid()
      ensures var f := FirstHitIndex(order, SelectedSet(), PointsOf(), click);
        && (hit <==> f.Some?)
        && (f.Some? ==> hitIdent == order[f.value]
                        && hitIndex == ControlPointHit(PointsOf()[hitIdent], click).index)
    {
      hit := false;
      hitIdent := "";
      hitIndex := 0;
      ghost var hitPos := 0;
      ghost var sel := SelectedSet();
      ghost var pts := PointsOf();
      var i := 0;
      while i < |order|
        invariant 0 <= i <= |order|
        invariant !hit ==> forall j :: 0 <= j < i ==> !SegmentHitAt(order[j], sel, pts, click)
        invariant hit ==> 0 <= hitPos < i && order[hitPos] == hitIdent
        invariant hit ==> SegmentHitAt(hitIdent, sel, pts, click)
        invariant hit ==> forall j :: 0 <= j < hitPos ==> !SegmentHitAt(order[j], sel, pts, click)
        invariant hit ==> hitIndex == ControlPointHit(pts[hitIdent], click).index
      {
        var ident := order[i];
        var segItem := segmentMap[ident];
        if segItem.selected && !hit {
          var hitRes := segItem.segment.ClickedOnControlPoint(click);
          assert pts[ident] == segItem.segment.points;
          if hitRes.hit {
            hit := hitRes.hit;
            hitIndex := hitRes.index;
            hitIdent := ident;
            hitPos := i;
          }
        }
        i := i + 1;
      }
      ghost var f := FirstHitIndex(order, sel, pts, click);
      if hit {
        assert f.Some? && f.value == hitPos;
      } else {
        assert forall j :: 0 <= j < |order| ==> !SegmentHitAt(order[j], sel, pts, click);
        assert f.None?;
      }
      assert sel == SelectedSet() && pts == PointsOf();
    }

    /**
     * Moves the dragged point of its segment to the mouse position, but only
     * while the drag is active, its ident is registered and that segment is
     * selected; no other segment is touched.
     */
    method MoveDraggedPoint(mousePos: Point)
      requires Valid()
      modifies SegmentOf(draggedPoint.ident)`points
      ensures Valid()
      ensures draggedPoint.ident in segmentMap ==>
        var seg := segmentMap[draggedPoint.ident].segment;
        seg.points == if draggedPoint.active && segmentMap[draggedPoint.ident].selected
                      then MovedPoints(old(seg.points), PointBound(seg.kind), draggedPoint.index, mousePos)
                      else old(seg.points)
      ensures draggedPoint.ident in segmentMap ==>
        segmentMap[draggedPoint.ident].segment.name == old(segmentMap[draggedPoint.ident].segment.name)
    {
      if draggedPoint.active && draggedPoint.ident in segmentMap {
        var segItem := segmentMap[draggedPoint.ident];
        if segItem.selected {
          segItem.segment.MovePoint(draggedPoint.index, mousePos.x, mousePos.y);
        }
      }
    }

    method ClearDraggedControlPoint()
      modifies this`draggedPoint
      ensures draggedPoint == old(draggedPoint).(active := false)
    {
      draggedPoint := draggedPoint.(active := false);
    }

    /** One row per segment, in map order, with its name and flags; at most one row is editing. */
    method GetSegmentList() returns (r: seq<SegmentListEntry>)
      requires Valid()
      ensures |r| == |order|
      ensures forall i :: 0 <= i < |r| ==>
        r[i] == SegmentListEntry(order[i], segmentMap[order[i]].segment.name,
                                 segmentMap[order[i]].selected, IsEditing(order[i]))
      ensures forall i, j :: 0 <= i < j < |r| ==> !(r[i].editing && r[j].editing)
    {
      r := [];
      var i := 0;
      while i < |order|
        invariant 0 <= i <= |order|
        invariant |r| == i
        invariant forall j :: 0 <= j < i ==>
          r[j] == SegmentListEntry(order[j], segmentMap[order[j]].segment.name,
                                   segmentMap[order[j]].selected, IsEditing(order[j]))
      {
        var ident := order[i];
        var segItem := segmentMap[ident];
        r := r + [SegmentListEntry(ident, segItem.segment.GetName(), segItem.selected,
                                   editingSegment.editing && editingSegment.ident == ident)];
        i := i + 1;
      }
    }

    /** The selected idents in map order, each once. */
    method GetSelectedSegmentList() returns (r: seq<string>)
      requires Valid()
      ensures r == Filter(order, SelectedSet())
      ensures Distinct(r) && Elems(r) == SelectedSet()
    {
      r := [];
      var i := 0;
      while i < |order|
        invariant 0 <= i <= |order|
        invariant r == Filter(order[..i], SelectedSet())
      {
        FilterPrefix(order, i, SelectedSet());
        if segmentMap[order[i]].selected {
          r := r + [order[i]];
        }
        i := i + 1;
      }
      assert order[..i] == order;
      FilterDistinct(order, SelectedSet());
    }

    /** The number of selected segments: the length of the selected list. */
    method GetSelectedSegmentSize() returns (count: nat)
      requires Valid()
      ensures count == |Filter(order, SelectedSet())|
      ensures count == |SelectedSet()|
    {
      count := 0;
      var i := 0;
      while i < |order|
        invariant 0 <= i <= |order|
        invariant count == |Filter(order[..i], SelectedSet())|
      {
        FilterPrefix(order, i, SelectedSet());
        if segmentMap[order[i]].selected {
          count := count + 1;
        }
        i := i + 1;
      }
      assert order[..i] == order;
      FilterLength(order, SelectedSet());
      SelectedAreRegistered();
    }

    /** Every selected ident is in the order. */
    lemma SelectedAreRegistered()
      requires Valid()
      ensures Elems(order) * SelectedSet() == SelectedSet()
    {
    }

    /** `isSelected`: an unknown ident is not selected. */
    predicate IsSelected(ident: string)
      reads this
      ensures IsSelected(ident) <==> ident in SelectedSet()
    {
      ident in segmentMap && segmentMap[ident].selected
    }

    predicate IsEditing(ident: string)
      reads this
    {
      ident in segmentMap && editingSegment.editing && editingSegment.ident == ident
    }

    /** A known ident becomes the one being edited and every selection is cleared. */
    method DoubleClickedOnSegment(ident: string)
      requires Valid()
      modifies this`segmentMap, this`editingSegment
      ensures Valid()
      ensures order == old(order) && SameSegments(old(segmentMap), segmentMap) && draggedPoint == old(draggedPoint)
      ensures ident !in old(segmentMap) ==> segmentMap == old(segmentMap) && editingSegment == old(editingSegment)
      ensures ident in old(segmentMap) ==> IsEditing(ident) && SelectedSet() == {}
      ensures ident in old(segmentMap) ==> forall k :: k != ident ==> !IsEditing(k)
    {
      if ident !in segmentMap {
        return;
      }
      editingSegment := editingSegment.(editing := true);
      editingSegment := editingSegment.(ident := ident);
      ClearSelected();
    }

    /**
     * The card-click rule; a click on the card of the segment being edited
     * changes nothing.
     */
    method ClickedOnSegment(shiftPressed: bool, ident: string)
      requires Valid()
      modifies this`segmentMap
      ensures Valid()
      ensures order == old(order) && SameSegments(old(segmentMap), segmentMap)
      ensures editingSegment == old(editingSegment) && draggedPoint == old(draggedPoint)
      ensures old(IsEditing(ident)) ==> segmentMap == old(segmentMap)
      ensures !old(IsEditing(ident)) ==>
        SelectedSet() == ClickSelection(old(SelectedSet()), old(segmentMap).Keys, shiftPressed, ident)
    {
      if IsEditing(ident) {
        return;
      }
      if shiftPressed {
        if IsSelected(ident) {
          DeselectSegment(ident);
        } else {
          SelectSegment(ident);
        }
      } else {
        var size := GetSelectedSegmentSize();
        if size == 1 && IsSelected(ident) {
          OnlyMember(SelectedSet(), ident);
          DeselectSegment(ident);
        } else {
          ClearSelected();
          SelectSegment(ident);
        }
      }
    }

    /** Afterwards no ident is being edited. */
    method ClearEditingStatus()
      modifies this`editingSegment
      ensures editingSegment == EditingSegment(false, "")
      ensures forall k :: !IsEditing(k)
    {
      editingSegment := editingSegment.(editing := false);
      editingSegment := editingSegment.(ident := "");
    }
  }
}
