# Track editor registries, segments and Bezier curves — a Dafny model

This project models the bookkeeping core of a race-track editor (hrracetrack-maker) that
runs in the browser. Four pieces are covered:

- **`TrackCurveMediator`** (`builder_page_mediator.dfy`, module `CurveMediator`) is the curve
  editor's registry. It holds:
  - the curves by ident, each with a display name and a selected flag;
  - the ident being edited;
  - a snapshot of the selected curves' anchors, taken when an OBJECT-mode drag starts;
  - the grabbed control point of an EDIT-mode drag.

  Its methods are the card-click selection rule, double-click editing, deletion of the
  selected curves, click-to-grab, release, the drag in both view modes, hold and revert of
  anchors and of the grabbed point, the handle-type change and curve extension.
- **`TrackSegmentObserver`** (`track_segment_observer.dfy`, module `SegmentObserver`) is the
  segment editor's registry. It has the same selection machine with its own guards, plus
  the control-point hit test over the selected segments and the drag of the hit point.
- **The three track segments and `SegmentFactory`** (`segment_factory.dfy`, module
  `Segments`): straight, quadratic and cubic segments. They provide bounds-checked `movePoint`,
  the first-match hit test within a radius of 10 px, and name get/set.
- **`BezierCurve`** (`bezier_curve.dfy`, module `BezierCurves`): the handle and control-point
  types and the curve object's state. It also holds the two enumerations the drawing code
  performs: the cubic pieces of `draw` and the handle lines of `drawControlPoints`.

Shared vocabulary:

- `ordered_keys.dfy` models a JavaScript `Map` as a duplicate-free key sequence in insertion
  order beside a Dafny `map`. Its `Filter` is the in-order `forEach`/`push` filter.
- `selection_rule.dfy` states the three-way card-click rule once, on sets of keys. Each
  registry proves that its own method follows it.
- `geometry.dfy` has points, squared distance and vector addition.
- `wrappers.dfy` has `Option`.

Both registries are classes whose fields the methods update. Each has a `Valid()` invariant:
the key sequence lists every key once, and in the mediator different idents hold different
curve objects. Heap frames are field-granular (`modifies Curves()\`anchorPoint`), so a
contract can say which curve state an operation leaves alone.

Some curve operations are called by the mediator but have no body in `BezierCurve.ts`:
`clickedOnPoint`, `moveControlPoint`, `changeHandleType`, `extendControlPoint` and
`moveAnchorPoint`. The rotation `PointCal.transform2NewAxis` has no body in the model either.
The first four and the rotation are function-typed parameters: `HitTest`, `MoveRule`,
`HandleTypeRule`, `ExtendRule` and `rotate`. The contracts say how the mediator applies them:
to which curve, with which arguments, and that no other curve changes. They make no claim
about what the functions compute. `moveAnchorPoint` is given the meaning its name and its one
call site (`BuilderPageMediator.ts:213`) suggest: the anchor becomes the destination and
nothing else of the curve changes. The OBJECT-mode drag and its lemmas rest on that meaning.

The boolean queries `hasCurveBeingEdited`, `curveNameisBeingEdited`, `hasGrabbedPoint` and
`isEditing` are the predicates `HasCurveBeingEdited`, `CurveNameIsBeingEdited`,
`HasGrabbedPoint` and `IsEditing`. They appear in the contracts below. `getName` is
`TrackSegment.GetName`.

Three behaviours of the code that the model keeps as written:

- `extendSelectedCurves` extends every curve, selected or not (`BuilderPageMediator.ts:304-308`).
- `deleteSelectedCurve` leaves the grabbed point alone, even when it names a deleted curve.
- No method ever sets `curveBeingEdited.editing`, so `curveNameisBeingEdited` is always false
  (`CurveMediator.TrackCurveMediator.NoNameIsBeingEdited`).

## Model

| member | source | states |
|---|---|---|
| CurveMediator.TrackCurveMediator.constructor | src/frontend/modules/BuilderPageMediator.ts:39-42 | a new mediator has no curves and an empty snapshot; nothing is edited; the grabbed point is all null |
| CurveMediator.TrackCurveMediator.AddCurve | src/frontend/modules/BuilderPageMediator.ts:49-51 | the ident maps to the curve, named "default curve" and unselected; a new ident goes last in map order, a known one keeps its place |
| CurveMediator.TrackCurveMediator.DeleteCurve | src/frontend/modules/BuilderPageMediator.ts:82-86 | exactly that ident is removed (none if unknown); the others keep their relative order |
| CurveMediator.TrackCurveMediator.DeleteSelectedCurve | src/frontend/modules/BuilderPageMediator.ts:53-58 | exactly the selected idents are removed; every other item is kept unchanged and in order; afterwards none is selected |
| CurveMediator.TrackCurveMediator.DeleteEach | src/frontend/modules/BuilderPageMediator.ts:55-57 | deleting every listed ident removes exactly the listed keys and keeps the order of the rest |
| CurveMediator.TrackCurveMediator.GetCurveList | src/frontend/modules/BuilderPageMediator.ts:60-66 | one row per curve in map order with its ident, name and selected flag; `beingEdited` marks the edited ident, so at most one row has it |
| CurveMediator.TrackCurveMediator.GetSelectedCurveList | src/frontend/modules/BuilderPageMediator.ts:68-76 | the selected idents in map order, each once, and no others |
| CurveMediator.TrackCurveMediator.GetSelectedCurveSize | src/frontend/modules/BuilderPageMediator.ts:154-162 | the count is the length of the selected list and the number of selected items |
| CurveMediator.TrackCurveMediator.CurveIsSelected | src/frontend/modules/BuilderPageMediator.ts:171-176 | true exactly for registered, selected idents |
| CurveMediator.TrackCurveMediator.NoNameIsBeingEdited | src/frontend/modules/BuilderPageMediator.ts:178-183 | since the `editing` flag is never set, no curve name is ever being edited |
| CurveMediator.TrackCurveMediator.RenameCurve | src/frontend/modules/BuilderPageMediator.ts:88-95 | a known curve takes the new name and nothing else changes; an unknown ident changes nothing |
| CurveMediator.TrackCurveMediator.SelectCurve | src/frontend/modules/BuilderPageMediator.ts:97-104 | the selection gains the ident if it is registered; names and curves are unchanged |
| CurveMediator.TrackCurveMediator.DeselectCurve | src/frontend/modules/BuilderPageMediator.ts:106-112 | the selection loses the ident; names and curves are unchanged |
| CurveMediator.TrackCurveMediator.ClearSelected | src/frontend/modules/BuilderPageMediator.ts:164-169 | nothing is selected afterwards; names and curves are unchanged |
| CurveMediator.TrackCurveMediator.ClickedOnCurveCard | src/frontend/modules/BuilderPageMediator.ts:126-144 | while any curve is being edited the click changes nothing; otherwise the new selection is `ClickSelection` of the old one |
| SelectionRule.ClickSelection | src/frontend/modules/BuilderPageMediator.ts:130-143 | the card-click rule on selected-key sets; it never selects an unregistered key |
| SelectionRule.ShiftClickTogglesOnlyClicked | src/frontend/modules/BuilderPageMediator.ts:130-135 | a shift-click flips the clicked key's flag (only when it is registered) and leaves every other key's flag unchanged |
| SelectionRule.ShiftClickTwiceRestores | src/frontend/modules/TrackSegmentObserver.ts:178-183 | two shift-clicks on the same card restore the selection |
| SelectionRule.PlainClickOutcome | src/frontend/modules/BuilderPageMediator.ts:136-143 | a plain click on the only selected key leaves nothing selected; any other plain click selects exactly the clicked key, or nothing if it is unregistered |
| CurveMediator.TrackCurveMediator.DoubleClickedOnCurveCard | src/frontend/modules/BuilderPageMediator.ts:146-152 | a known ident becomes the edited one and every selection is cleared; an unknown ident changes nothing |
| CurveMediator.TrackCurveMediator.ClearEditingStatus | src/frontend/modules/BuilderPageMediator.ts:185-187 | afterwards no curve is being edited; the `editing` flag is kept |
| CurveMediator.TrackCurveMediator.ReleaseGrabbedPoint | src/frontend/modules/BuilderPageMediator.ts:193-198 | the grabbed point becomes {null, -1, null, null}, so no point is grabbed |
| CurveMediator.TrackCurveMediator.HandleClick | src/frontend/modules/BuilderPageMediator.ts:219-247 | the grabbed point is `GrabAfterClick` of the selected list in map order: the record of the last hit, or the released record when no selected curve is hit |
| CurveMediator.TrackCurveMediator.GrabOnCurves | src/frontend/modules/BuilderPageMediator.ts:221-243 | after the `forEach`, the flag says whether some listed curve was hit; the record is the last hit's, or the old record when nothing was hit |
| CurveMediator.TrackCurveMediator.TestCurveForGrab | src/frontend/modules/BuilderPageMediator.ts:223-242 | the flag is the curve's hit result; a hit writes that curve's hit record and a miss leaves the record unchanged |
| CurveMediator.LastHitIndex | src/frontend/modules/BuilderPageMediator.ts:221-243 | the position of a hit curve with no hit curve after it, or None exactly when no listed curve is hit |
| CurveMediator.ClickGrabsLastHit | src/frontend/modules/BuilderPageMediator.ts:219-247 | after a click a point is grabbed iff some selected curve was hit; that curve is the last hit one; a miss leaves the released record; the record is complete |
| CurveMediator.GrabOfHit | src/frontend/modules/BuilderPageMediator.ts:231-240 | a hit record names the hit curve and has an index, a type and a last position |
| CurveMediator.HeldAgreesWithGrabbed | src/frontend/modules/BuilderPageMediator.ts:278-289 | for "cp", "lh" and "rh", re-reading the position gives the coordinate the click recorded; any other type changes nothing |
| CurveMediator.TrackCurveMediator.HandleGrab | src/frontend/modules/BuilderPageMediator.ts:200-217 | EDIT mode: only the grabbed curve's points change, by `EditGrabPoints`, and no anchor moves. OBJECT mode: the anchors become `DragAnchors` of the snapshot and no point changes |
| CurveMediator.TrackCurveMediator.GrabInEditMode | src/frontend/modules/BuilderPageMediator.ts:201-207 | the grabbed point moves to its last position plus the rotated offset; every other curve's points and every anchor are unchanged |
| CurveMediator.EditGrabPoints | src/frontend/modules/BuilderPageMediator.ts:201-207 | with no grabbed point nothing changes; otherwise only the grabbed curve's points change |
| CurveMediator.TrackCurveMediator.GrabInObjectMode | src/frontend/modules/BuilderPageMediator.ts:208-216 | each listed curve with a snapshot moves its anchor to snapshot + offset; the other anchors and all points are unchanged |
| CurveMediator.DragAnchors | src/frontend/modules/BuilderPageMediator.ts:208-216 | the OBJECT-mode drag keeps the set of curves |
| CurveMediator.DragIsRelative | src/frontend/modules/BuilderPageMediator.ts:208-216 | a drag is relative to the snapshot: a drag after a drag ends where the second drag alone ends, so repeating a drag changes nothing |
| CurveMediator.ZeroDragKeepsAnchors | src/frontend/modules/BuilderPageMediator.ts:208-276 | a snapshot, then a zero-offset drag, leaves every anchor where it was |
| CurveMediator.TrackCurveMediator.RevertPointToPrevPos | src/frontend/modules/BuilderPageMediator.ts:249-256 | a registered grabbed curve whose index is below its point count moves its point back to the last position; otherwise, and for every other curve, the points are unchanged |
| CurveMediator.RevertPointPoints | src/frontend/modules/BuilderPageMediator.ts:249-256 | only the grabbed curve's points can change |
| CurveMediator.TrackCurveMediator.RevertCurveToPrevPos | src/frontend/modules/BuilderPageMediator.ts:258-267 | every registered curve with a snapshot gets its snapshot anchor back and the others keep theirs; the snapshot is emptied afterwards |
| CurveMediator.RevertAnchors | src/frontend/modules/BuilderPageMediator.ts:258-267 | reverting keeps the set of curves |
| CurveMediator.TrackCurveMediator.HoldSelectedCurveCusPos | src/frontend/modules/BuilderPageMediator.ts:269-276 | the snapshot becomes exactly the anchors of the selected curves |
| CurveMediator.HoldSnapshot | src/frontend/modules/BuilderPageMediator.ts:269-276 | the snapshot holds exactly the selected registered curves |
| CurveMediator.RevertRestoresHeld | src/frontend/modules/BuilderPageMediator.ts:258-276 | hold, then any change of anchors or removal of curves, then revert: each remaining curve selected at hold time is back at its held anchor, and the others keep their current one |
| CurveMediator.HoldDragRevert | src/frontend/modules/BuilderPageMediator.ts:208-276 | hold, drag by any offset, revert: every anchor is back where it was held |
| CurveMediator.TrackCurveMediator.HoldGrabbedPointCurPos | src/frontend/modules/BuilderPageMediator.ts:278-289 | the last position is re-read from the grabbed point's "lh", "rh" or "cp" coordinate; other types, an unregistered curve and no grab change nothing |
| CurveMediator.TrackCurveMediator.ChangeGrabbedHandle2Type | src/frontend/modules/BuilderPageMediator.ts:291-301 | the grabbed handle of the grabbed curve takes the type; a grabbed "cp" changes nothing, and no other curve changes |
| CurveMediator.HandleTypePoints | src/frontend/modules/BuilderPageMediator.ts:291-301 | a grabbed control point ("cp") leaves every curve's points unchanged; only the grabbed curve can change |
| CurveMediator.TrackCurveMediator.ExtendSelectedCurves | src/frontend/modules/BuilderPageMediator.ts:304-308 | every curve, selected or not, is extended once at the chosen end |
| CurveMediator.ExtendedPoints | src/frontend/modules/BuilderPageMediator.ts:304-308 | extending keeps the set of curves |
| Geometry.Add | src/frontend/modules/BuilderPageMediator.ts:212 | `addVector` is component-wise addition |
| SegmentObserver.TrackSegmentObserver.constructor | src/frontend/modules/TrackSegmentObserver.ts:12-18 | a new observer has no segments; nothing is edited; the drag is inactive |
| SegmentObserver.TrackSegmentObserver.AddSegment | src/frontend/modules/TrackSegmentObserver.ts:20-22 | the segment is stored unselected, even over a known ident; a new ident goes last in map order |
| SegmentObserver.TrackSegmentObserver.DeleteSegment | src/frontend/modules/TrackSegmentObserver.ts:31-35 | exactly that ident is removed; the rest keep their relative order |
| SegmentObserver.TrackSegmentObserver.DeleteSelectedSegment | src/frontend/modules/TrackSegmentObserver.ts:24-29 | exactly the selected segments are removed and the rest are kept in order; afterwards none is selected |
| SegmentObserver.TrackSegmentObserver.DeleteEach | src/frontend/modules/TrackSegmentObserver.ts:26-28 | deleting every listed ident removes exactly the listed keys and keeps the rest in order |
| SegmentObserver.TrackSegmentObserver.RenameSegment | src/frontend/modules/TrackSegmentObserver.ts:37-44 | a registered segment's name becomes the new one; only that segment's name can change, and its points stay |
| SegmentObserver.TrackSegmentObserver.SelectSegment | src/frontend/modules/TrackSegmentObserver.ts:46-53 | the selection gains the ident if it is registered; nothing else changes |
| SegmentObserver.TrackSegmentObserver.DeselectSegment | src/frontend/modules/TrackSegmentObserver.ts:55-61 | the selection loses the ident; nothing else changes |
| SegmentObserver.TrackSegmentObserver.ClearSelected | src/frontend/modules/TrackSegmentObserver.ts:63-68 | nothing is selected afterwards; segments and order are unchanged |
| SegmentObserver.FirstHitIndex | src/frontend/modules/TrackSegmentObserver.ts:87-97 | the position of the first selected segment hit by the click, or None exactly when no selected segment is hit |
| SegmentObserver.TrackSegmentObserver.ScanSelectedForHit | src/frontend/modules/TrackSegmentObserver.ts:84-97 | the loop finds the first selected, hit segment in map order (later hits are skipped by the `!hit` guard) and that segment's first hit point |
| SegmentObserver.TrackSegmentObserver.CheckSegmentControlPointClicked | src/frontend/modules/TrackSegmentObserver.ts:83-107 | on a hit it returns true and the drag becomes active on the first hit segment and point; on a miss it returns false and only `active` is cleared |
| SegmentObserver.TrackSegmentObserver.MoveDraggedPoint | src/frontend/modules/TrackSegmentObserver.ts:109-116 | the dragged point moves only while the drag is active and its registered segment is selected; otherwise no point moves; only that segment's points can change, and its name stays |
| SegmentObserver.TrackSegmentObserver.ClearDraggedControlPoint | src/frontend/modules/TrackSegmentObserver.ts:118-120 | only `active` is cleared |
| SegmentObserver.TrackSegmentObserver.GetSegmentList | src/frontend/modules/TrackSegmentObserver.ts:123-129 | one row per segment in map order with name, selected flag and editing flag; at most one row is editing |
| SegmentObserver.TrackSegmentObserver.GetSelectedSegmentList | src/frontend/modules/TrackSegmentObserver.ts:131-139 | the selected idents in map order, each once, and no others |
| SegmentObserver.TrackSegmentObserver.GetSelectedSegmentSize | src/frontend/modules/TrackSegmentObserver.ts:141-149 | the count is the length of the selected list and the number of selected items |
| SegmentObserver.TrackSegmentObserver.IsSelected | src/frontend/modules/TrackSegmentObserver.ts:151-156 | true exactly for registered, selected idents |
| SegmentObserver.TrackSegmentObserver.DoubleClickedOnSegment | src/frontend/modules/TrackSegmentObserver.ts:165-172 | a known ident becomes the only one being edited and every selection is cleared; an unknown ident changes nothing |
| SegmentObserver.TrackSegmentObserver.ClickedOnSegment | src/frontend/modules/TrackSegmentObserver.ts:174-192 | a click on the segment being edited changes nothing; otherwise the new selection is `ClickSelection` of the old one |
| SegmentObserver.TrackSegmentObserver.ClearEditingStatus | src/frontend/modules/TrackSegmentObserver.ts:194-197 | afterwards no ident is being edited |
| Segments.ControlPointHit | src/frontend/modules/SegmentFactory.ts:207-216 | hit iff some point lies strictly within 10 px; the index is the first such point, or 0 on a miss |
| Segments.TrackSegment.ClickedOnControlPoint | src/frontend/modules/SegmentFactory.ts:297-308 | all three segment kinds answer with the first point within 10 px, or {hit: false, index: 0}; the straight segment tests its start before its end |
| Segments.MovedPoints | src/frontend/modules/SegmentFactory.ts:176-182 | an index in range moves exactly that point; an index out of range changes nothing |
| Segments.TrackSegment.MovePoint | src/frontend/modules/SegmentFactory.ts:105-116 | accepts the indices 0-1 (straight), 0-2 (quadratic) and 0-3 (cubic): exactly point i becomes (x, y); any other index leaves every point in place |
| Segments.TrackSegment.GetPoints | src/frontend/modules/SegmentFactory.ts:118-120 | a straight segment's points are [start, end]; the Bezier segments return their control points |
| Segments.TrackSegment.SetName | src/frontend/modules/SegmentFactory.ts:132-138 | `getName` after `setName(n)` returns n |
| Segments.TrackSegment.constructor | src/frontend/modules/SegmentFactory.ts:59-63 | a segment holds the given kind, name and points |
| Segments.SegmentFactory.constructor | src/frontend/modules/SegmentFactory.ts:324-326 | the factory keeps its name |
| Segments.SegmentFactory.CreateStraightSegment | src/frontend/modules/SegmentFactory.ts:328-330 | a fresh straight segment with the given name and points [start, end] |
| Segments.SegmentFactory.CreateQuadBezierSegment | src/frontend/modules/SegmentFactory.ts:332-334 | a fresh quadratic segment with the given name and points |
| Segments.SegmentFactory.CreateCubicBezierSegment | src/frontend/modules/SegmentFactory.ts:336-338 | a fresh cubic segment with the given name and points |
| Segments.StraightClickAsWritten | src/frontend/modules/SegmentFactory.ts:122-130 | the straight hit test as written: start, then end, otherwise no value |
| Segments.StraightClickAsWrittenAgrees | src/frontend/modules/SegmentFactory.ts:122-130 | the as-written test gives no value exactly on a miss, and agrees with the general rule on a hit |
| Segments.StraightMissReturnsUndefined | src/frontend/modules/SegmentFactory.ts:122-130 | a click away from both ends gets no value from the as-written test, where the general rule answers {hit: false, index: 0} |
| BezierCurves.HandleTypeCode | src/frontend/modules/BezierCurve.ts:9-13 | every handle type's number is 1, 2 or 3 |
| BezierCurves.HandleTypeOfCode | src/frontend/modules/BezierCurve.ts:9-13 | exactly the numbers 1, 2 and 3 stand for a handle type, and encoding gives the number back |
| BezierCurves.HandleTypeCodesRoundTrip | src/frontend/modules/BezierCurve.ts:9-13 | decoding a type's number gives the type; distinct types have distinct numbers |
| BezierCurves.BezierCurve.constructor | src/frontend/modules/BezierCurve.ts:33-37 | a fresh curve has no points, orientation 0 and is not selected |
| BezierCurves.BezierCurve.UpdatePointsCoordinates | src/frontend/modules/BezierCurve.ts:39-43 | the loop visits the points and changes nothing |
| BezierCurves.BezierCurve.MoveAnchorPoint | src/frontend/modules/BuilderPageMediator.ts:213 | the assumed meaning of the bodiless `moveAnchorPoint`: the anchor becomes the destination; nothing else of the curve changes |
| BezierCurves.BezierCurve.MoveControlPoint | src/frontend/modules/BuilderPageMediator.ts:206 | only the points change, by the move rule applied to the old curve |
| BezierCurves.BezierCurve.ChangeHandleType | src/frontend/modules/BuilderPageMediator.ts:297 | only the points change, by the handle-type rule |
| BezierCurves.BezierCurve.ExtendControlPoint | src/frontend/modules/BuilderPageMediator.ts:306 | only the points change, by the extend rule |
| BezierCurves.DrawPiecesShape | src/frontend/modules/BezierCurve.ts:47-56 | `draw` starts piece i at the i-th element of the index-filtered `drawPoints` and ends it at `points[i + 1]`; the filter keeps positions, so there are max(n - 1, 0) pieces for n points and piece i runs from point i (with its right handle) to point i + 1 (with its left handle) |
| BezierCurves.DrawStartsFromShape | src/frontend/modules/BezierCurve.ts:47-49 | the `filter` that drops the last index keeps every other point at its own position, in order |
| BezierCurves.DrawPiecesIgnoreOuterHandles | src/frontend/modules/BezierCurve.ts:50-56 | the first point's left handle and the last point's right handle are in no piece |
| BezierCurves.HandleLinesShape | src/frontend/modules/BezierCurve.ts:68-81 | every control point is visited once, in order, and gives two lines: to its left handle and to its right handle |

## Left out

- Drawing: every canvas call (`draw*`, `drawSegmentDirection`, `drawCurves`, `drawSegments`, the arrowheads) is I/O. Only the enumerations that `draw` and `drawControlPoints` perform are modelled.
- Floating-point vector math in `Utils.ts` is not part of this model. Hit tests compare squared distances over the reals, so there is no square root.
- The bezier-js library: a segment's Bezier object is its point sequence, and `update()` is not modelled.
- The bodies of `clickedOnPoint`, `moveControlPoint`, `changeHandleType`, `extendControlPoint` and `transform2NewAxis`: no file of this model defines them, so each is a parameter the contracts leave unconstrained.
- BezierCurves.BezierCurve.MoveAnchorPoint: `BezierCurve.ts` defines no `moveAnchorPoint`. The model assumes the anchor becomes the destination and nothing else changes; `GrabInObjectMode`, the OBJECT branch of `HandleGrab` and `HoldDragRevert` depend on that assumption.
- Point indices are JavaScript numbers in the source and `int` here: fractional and NaN indices are not modelled.
- CurveMediator.TrackCurveMediator.ExtendSelectedCurves: the optional `prepend` argument (default `false`) is a required parameter; a call without it is the call with `false`.
- `console.log`, the `alert` in `changeGrabbedHandle2Type` and the debug-only `testOnSelectedCurves`: side effects with no state change.
- The unused `operationStack` field and the `OperationType` enum: nothing reads or writes them.
- The page components, routing, server and build files are not part of this model.
- Reference aliasing: points and items are values here. The source shares point objects (the recorded `lastPos`, the snapshot entries) and item objects. A later in-place change to a shared object is not mirrored.
- The order of `selectedCurveLastPos` is not modelled: no operation's outcome depends on it.
- The mismatched calls in the observer: `TrackSegmentObserver.ts:93` reads `controlPoints[0].pointIndex`, and line 113 passes four arguments to `movePoint`. The model uses the interface the segments declare (`{hit, index}` and `movePoint(index, x, y)`), and the shift key is dropped.
- The source's `controlPoints` field is modelled as the curve's `points` field.
- CurveMediator.TrackCurveMediator.AddCurve: requires that the curve object is not registered under another ident. The source does not check this, but the model's frame reasoning needs different idents to hold different curves.
- CurveMediator.TrackCurveMediator.HandleClick: requires that the hit test only reports existing point indices. The source would read an undefined point and throw.
- CurveMediator.TrackCurveMediator.HandleGrab: in EDIT mode, a grabbed ident that is no longer registered (for example after `deleteSelectedCurve`) makes the source throw on `curveOfInterest.curve`. The model changes nothing in that case.
- CurveMediator.TrackCurveMediator.HoldGrabbedPointCurPos: an index outside the curve's points makes the source throw when it reads the handle. The model changes nothing in that case.
- Segments.SegmentFactory.CreateQuadBezierSegment and Segments.SegmentFactory.CreateCubicBezierSegment: require at least 3 and 4 points. The source receives a Bezier object that already has them.
- BezierCurves.BezierCurve.constructor: it does not set `anchorPoint`, and in the source the anchor stays undefined. The model leaves it unconstrained.

## Findings

| source | as written | input that shows it | evidently intended | confidence | as-written member | corrected member |
|---|---|---|---|---|---|---|
| src/frontend/modules/SegmentFactory.ts:122-130 | `StraightSegment.clickedOnControlPoint` returns nothing when the click misses both ends, and `checkSegmentControlPointClicked` then reads `.hit` of `undefined` (TrackSegmentObserver.ts:89-91) | segment (0,0)-(100,0), click at (50,50) | return `{hit: false, index: 0}` on a miss, like the quadratic and cubic segments | not executed | Segments.StraightMissReturnsUndefined | Segments.TrackSegment.ClickedOnControlPoint |
