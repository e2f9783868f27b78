# Rip Bezier Curve: a verified model

This project models the "Rip Bezier Curve" Blender add-on. In edit mode the add-on cuts one spline of a curve object in two at the selected point. The split point ends up in both pieces: it is the last point of the original and the first point of a new spline.

The add-on has no data structure of its own. It uses the document's selection flags as a scratch register and drives three Blender operators:

- deselect all;
- duplicate-move;
- delete vertices.

The model keeps that structure.

- `Curves` holds the data model.
  - An object's curve data is a class `Curve`. It has the splines in storage order and a supply of fresh point identities.
  - Splines and points are values. A point carries its identity, opaque geometry and the selection flags Blender gives it: control point, left handle and right handle for Bezier points, `select` for plain points.
  - The three Blender operators are methods of `Curve`, each with a contract describing its effect. Blender applies them to every curve in edit mode, so each also takes the set of the other curves in edit mode and states its effect on them:
    - `DeselectAll` clears every flag.
    - `DuplicateMove` appends a selected copy, with fresh identities, of every fully selected spline.
    - `DeleteSelected` removes the selected points of every spline and drops a spline that loses all of them.
- `Rip` states once, as the function `Ripped`, what a rip does to the splines of a curve. It proves what the add-on promises of that result:
  - the original keeps its points `0..i`;
  - the new last spline holds fresh copies of points `i..`;
  - the two pieces put together give the old point sequence;
  - only point `i` of the original stays selected;
  - every other spline keeps its points;
  - point identities stay unique within each spline and below the identity supply.

  It also holds the lemmas that carry each Blender operator's effect from one phase of the split to the next.
- `Resolve` specifies the two selection resolvers as recursive functions over objects, splines and points, and proves them sound and complete:
  - `get_selected_points_info`: BEZIER and POLY splines, any selection flag;
  - `get_active_points`: BEZIER splines, control points only.
- `RipCurve` models `src/lib/rip_curve.py`, the implementation that handles BEZIER and POLY splines alike. `RipBezierCurve` models `src/lib/rip_bezier_curve.py`, the Bezier-only implementation. Each `split_on_point` is a method proved against `Ripped`, step by step through the same Blender operator calls as the source.
- `RipOperator` models `src/operator/rip.py`:
  - the eligibility check `failcheck` and its messages;
  - `poll`;
  - `execute`, which re-runs the check just before it mutates anything and then rips with the Bezier-only implementation. The operator imports `rip_bezier_curve`, not `rip_curve`.
- `Variants` compares the two implementations:
  - They agree on which spline `get_selected_spline` finds in a BEZIER curve.
  - They agree on the deletion marks at every interior split point.
  - They differ at the first point.
  - When only control points are selected, the two resolvers return the same list.

Python compares Blender points by reference. The model gives every point an identity `id` and compares those. A spline's identity is its position in the curve's splines. Duplication appends and an interior rip removes no spline, so that position stays valid through the whole split. `Curve.Valid()` is the data invariant of a curve. The constructor establishes it. Every operator method, `select_points`, each `split_on_point` and `execute` requires it and keeps it, in this curve and in every other curve in edit mode:

- only the list matching the spline's kind is filled;
- identities are distinct within a spline;
- all identities are below the fresh-identity supply.

Two behaviours of the code that are easy to miss:

- With no active point, `failcheck` indexes `active_points[0]` (`src/operator/rip.py:35`), which raises IndexError. The model returns `Raised`.
- The Bezier-only `split_on_point` handles any point of the spline, the first and the last included, and its contract says so.

## Model

| member | source | states |
|---|---|---|
| Curves.PointsCollection | src/lib/rip_curve.py:50-54 | A BEZIER spline yields its Bezier points; every other kind yields its plain points, in storage order. |
| Curves.WithFlag | src/lib/rip_curve.py:57-70 | Setting the kind's flag makes the point flagged and selected and keeps its identity and geometry. |
| Curves.Selected | src/lib/rip_curve.py:29-33 | `is_sel` with the properties of line 45: a Bezier point counts as selected when its control point or either handle is selected, any other point when `select` is set. This is a definition; its consequences are stated by `Curves.WithFlag` and the `Resolve` lemmas. |
| Curves.Curve.DeselectAll | src/lib/rip_curve.py:19 | `select_all(action='DESELECT')` clears every flag of every point of every spline, in this curve and in every other curve in edit mode, and draws no identity. Every one of these curves stays valid. |
| Curves.Curve.DuplicateMove | src/lib/rip_curve.py:21 | `duplicate_move`, in this curve and in every other curve in edit mode, deselects every fully selected spline, appends a selected copy of each with fresh identities, and draws as many identities as it copied points. Every one of these curves stays valid: the copies' fresh identities lie below the advanced supply. |
| Curves.Curve.DeleteSelected | src/lib/rip_bezier_curve.py:50 | `delete(type="VERT")`, in this curve and in every other curve in edit mode, removes the selected points of every spline in one pass and drops a spline left without points. Every one of these curves stays valid. |
| Curves.UnselectedSub | src/lib/rip_bezier_curve.py:50 | Every point the deletion keeps was a point of the spline and is not selected. |
| Curves.UnselectedDistinct | src/lib/rip_bezier_curve.py:50 | Deletion keeps a spline's identities distinct. |
| Curves.KeptValid | src/lib/rip_bezier_curve.py:50 | Deletion keeps a valid spline valid under the same identity bound. |
| Curves.PrunedValid | src/lib/rip_bezier_curve.py:50 | Every spline left by the deletion is valid when every spline was valid before. |
| Curves.PrunedConcat | src/lib/rip_bezier_curve.py:50 | The deletion handles each spline on its own, so it distributes over concatenation. |
| Curves.CopiesValid | src/lib/rip_curve.py:21 | The copies the duplicate appends are well formed, with identities distinct within each copy and below the supply advanced by the copied point count. |
| Curves.CopiesFresh | src/lib/rip_curve.py:21 | Every identity of every copy is fresh: none is below the supply the duplicate starts from. |
| Curves.DuplicatedValid | src/lib/rip_curve.py:21 | After the duplicate, the originals and the copies are all valid under the advanced supply. |
| Curves.ClearAllValid | src/lib/rip_curve.py:19 | Deselecting keeps every spline valid. |
| Curves.ClearedValid | src/lib/rip_bezier_curve.py:43 | Deselecting keeps a spline valid under any larger identity bound. |
| Curves.PrunedAppend | src/lib/rip_bezier_curve.py:50 | The deletion handles splines in order: the last spline is either dropped (all of its points were selected) or kept with its unselected points. |
| Curves.PrunedKeepsEverySpline | src/lib/rip_bezier_curve.py:50 | When no spline is emptied, deletion filters each spline in place and keeps every spline at its position. |
| Curves.UnselectedKeepsPrefix | src/lib/rip_bezier_curve.py:50 | When exactly the points from `h` on are selected, deletion keeps the points before `h`. |
| Curves.UnselectedKeepsSuffix | src/lib/rip_bezier_curve.py:50 | When exactly the points before `l` are selected, deletion keeps the points from `l` on. |
| Curves.CopiesOfOne | src/lib/rip_curve.py:21 | With exactly one fully selected spline, the duplicate appends exactly one renumbered copy of it and draws its point count of identities. |
| Curves.NoCopies | src/lib/rip_curve.py:21 | With no fully selected spline, the duplicate appends nothing and draws no identity. |
| Rip.SplitIndex | src/lib/rip_bezier_curve.py:41 | `split_index` is the first position whose point is the given point; None, where the source raises IndexError, when the point is not in the spline. |
| Rip.SplitIndexAt | src/lib/rip_bezier_curve.py:41 | With distinct identities, the scan finds exactly the point's own position. |
| Rip.Ripped | src/lib/rip_bezier_curve.py:39-51 | The closed form of a rip at index `i` of spline `k`. It is a definition; `Rip.RippedParts` through `Rip.RippedValid` state what it means, and both `split_on_point` methods are proved to produce it. |
| Rip.RippedParts | src/lib/rip_bezier_curve.py:39-51 | The rip adds exactly one spline, last, of the same kind. The original holds its deselected points `0..i` with `i` flagged; the copy holds renumbered points `i..`; every other spline is only deselected. |
| Rip.RippedHead | src/lib/rip_bezier_curve.py:50 | The original keeps its first `i + 1` points: the same identities and the same geometry. |
| Rip.RippedTail | src/lib/rip_bezier_curve.py:50 | The new spline has the original's geometry from `i` on and only fresh identities from the supply. |
| Rip.RippedRejoins | src/lib/rip_bezier_curve.py:44-50 | The split point is the original's last point and the copy's first point; the original's geometry followed by the copy's from its second point is the old geometry. |
| Rip.RippedSelection | src/lib/rip_bezier_curve.py:51 | Afterwards a point of the curve is selected if and only if it is point `i` of the original. |
| Rip.RippedOthers | src/lib/rip_bezier_curve.py:43 | Every other spline keeps its points and only loses its selection. |
| Rip.RippedValid | src/lib/rip_bezier_curve.py:39-51 | The rip keeps identities distinct within each spline and below the supply advanced by the spline's point count. |
| Rip.HeadValid | src/lib/rip_bezier_curve.py:50-51 | The cut-back original keeps distinct identities below the bound. |
| Rip.TailValid | src/lib/rip_bezier_curve.py:42 | The copy's fresh identities are distinct and below the advanced supply. |
| Rip.DuplicatedParts | src/lib/rip_curve.py:21 | After the duplicate, every original is deselected and the appended copy has the spline's length with every point flagged. |
| Rip.ClearAllIdempotent | src/lib/rip_curve.py:19 | Deselecting twice is deselecting once. |
| Rip.DuplicateNothing | src/lib/rip_bezier_curve.py:19 | Duplicating a deselected curve copies nothing and changes nothing. |
| Rip.DeselectedUntouched | src/lib/rip_curve.py:19-21 | A curve in edit mode that holds no selection comes out of deselect, duplicate and delete exactly as it went in; this is why the split changes no other curve beyond its first deselect. |
| Rip.ClearAllNothingSelected | src/lib/rip_curve.py:19 | After deselecting, no point of any spline is selected. |
| Rip.CopyPhase | src/lib/rip_curve.py:19-21 | Duplicating after "deselect all, select spline `k`" appends one fully selected copy of `k` and draws `n` identities. Deselecting then leaves the deselected originals followed by the deselected copy. |
| Rip.MarkedParts | src/lib/rip_bezier_curve.py:44-49 | The deletion marks flag the original's points after `i` and the copy's points before `i`, and leave every other spline deselected. |
| Rip.HeadKept | src/lib/rip_bezier_curve.py:49-50 | Deleting the marked tail of the deselected original keeps its points `0..i`. |
| Rip.TailKept | src/lib/rip_bezier_curve.py:47-50 | Deleting the marked head of the deselected copy keeps its points from `i` on. |
| Rip.ClearedKept | src/lib/rip_bezier_curve.py:50 | Deleting leaves a deselected spline as it is. |
| Rip.RenumberedSuffix | src/lib/rip_bezier_curve.py:42 | The copy's suffix from `i` carries the identities `next + i, next + i + 1, ...`. |
| Rip.PrunedMarks | src/lib/rip_bezier_curve.py:50 | The deletion over the marks removes no spline: it cuts the original to `0..i` and the copy to `i..`. |
| Rip.DeletePhase | src/lib/rip_bezier_curve.py:50-51 | Deleting the marks and then selecting point `i` of the original gives `Ripped`. |
| Resolve.PointRefsSound | src/lib/rip_curve.py:44-46 | Every triple for a spline names that object, that spline and one of its listed points that the resolver counts as selected. |
| Resolve.SplineRefsSound | src/lib/rip_curve.py:40-46 | Every triple for an object comes from one of its splines of a kind the resolver handles, at that spline's position. |
| Resolve.Resolved | src/lib/rip_curve.py:26-47 | The triples a resolver collects, by recursion over objects, splines and points: with the `is_sel` resolver those of `get_selected_points_info`, with the control-point resolver those of `get_active_points` (src/lib/rip_bezier_curve.py:24-36). A definition; `Resolve.ResolvedSound` and `Resolve.ResolvedComplete` state what it returns. |
| Resolve.ResolvedSound | src/lib/rip_curve.py:35-47 | Every resolved triple names a selected CURVE object, a handled spline of it as stored, and a counted point of that spline. Nothing unselected is reported. |
| Resolve.ResolvedStep | src/lib/rip_curve.py:36-46 | Resolving one more object appends that object's triples after those of the objects before it (object order). |
| Resolve.PointRefsComplete | src/lib/rip_bezier_curve.py:33-35 | Every counted point of a spline gets its triple. |
| Resolve.SplineRefsComplete | src/lib/rip_bezier_curve.py:30-35 | Every counted point of every handled spline of an object gets its triple. |
| Resolve.ResolvedComplete | src/lib/rip_bezier_curve.py:24-36 | Every counted point of every handled spline of every selected CURVE object appears among the resolved triples. Nothing selected is missed. |
| RipCurve.Range | src/lib/rip_curve.py:83 | `range(lo, hi)` has `hi - lo` elements `lo, lo + 1, ...`, and none when `hi <= lo`. |
| RipCurve.EffectiveIndices | src/lib/rip_curve.py:67 | An empty index collection stands for every index of the spline; otherwise the given indices are used as they are. |
| RipCurve.Selecting | src/lib/rip_curve.py:56-70 | `select_points` keeps the spline's kind and length and leaves any kind other than BEZIER and POLY unchanged. |
| RipCurve.SelectingFlags | src/lib/rip_curve.py:57-70 | On BEZIER it sets `select_control_point`, on POLY `select`, exactly at the effective indices. It keeps every other flag, the identities, the geometry and the other point list. |
| RipCurve.SelectingIsAdditive | src/lib/rip_curve.py:69-70 | `select_points` never clears a flag: a point selected or flagged before stays so. |
| RipCurve.SelectingRange | src/lib/rip_curve.py:67-70 | A non-empty range selects exactly the points in it. |
| RipCurve.SelectPoints | src/lib/rip_curve.py:56-70 | The loop over the indices leaves spline `k` as `Selecting` describes and every other spline unchanged, and keeps the curve valid. |
| RipCurve.SelectingValid | src/lib/rip_curve.py:67-70 | `select_points` only sets flags, so a valid spline stays valid. |
| RipCurve.SelectingNothing | src/lib/rip_curve.py:67 | No indices select every point of the spline. |
| RipCurve.GetSelectedSpline | src/lib/rip_curve.py:5-13 | Returns the first spline in storage order with a point whose kind's flag is set (a selected handle alone does not count), or None when there is none. |
| RipCurve.FirstFlaggedIs | src/lib/rip_curve.py:5-13 | That result is unique: it is the first spline with a flagged point. |
| RipCurve.ClearedHasNoFlag | src/lib/rip_curve.py:19 | A deselected spline has no flagged point. |
| RipCurve.CopySpline | src/lib/rip_curve.py:16-23 | `copy_spline` leaves everything deselected except a fully selected copy appended last, returns that copy, and draws `n` identities. Every other curve in edit mode keeps its splines and its identity supply and loses its selection. |
| RipCurve.ScannedPoints | src/lib/rip_curve.py:75 | The list `split_on_point` scans: the plain points when there are any, else the Bezier points. A definition; `RipCurve.ScannedPointsAgree` states that it is the spline's own point list. |
| RipCurve.ScannedPointsAgree | src/lib/rip_curve.py:75 | `spline.points if spline.points else spline.bezier_points` is the same list as `get_points_collection` on a well-formed spline. |
| RipCurve.MarkPhase | src/lib/rip_curve.py:82-85 | For an interior index the two `select_points` ranges mark exactly the rip's deletion marks. |
| RipCurve.FirstPointMarks | src/lib/rip_curve.py:85 | At index 0 the copy's range `range(0)` is empty, so the whole copy is marked for deletion. |
| RipCurve.FirstPointPruned | src/lib/rip_curve.py:87 | At index 0 the deletion drops the copy and cuts the original back to its first point. |
| RipCurve.FirstPointDeletes | src/lib/rip_curve.py:82-90 | At index 0 deleting and reselecting point 0 gives `FirstPointRip`. |
| RipCurve.FirstPointRipLoses | src/lib/rip_curve.py:82-90 | A split at the first point of a spline with two or more points leaves the spline with one point, makes no new spline, and differs from the rip. |
| RipCurve.FirstPointRipValid | src/lib/rip_curve.py:73-90 | The first-point result keeps identities distinct and below the supply. |
| RipCurve.LastPointMarksSplit | src/lib/rip_curve.py:82-85 | At the last index the original's range `range(n, n)` is empty, so the whole original is marked, and the copy is marked before its last point. |
| RipCurve.WholeMarkedPruned | src/lib/rip_curve.py:87 | Deleting with the original marked throughout removes that spline and keeps the others, deselected, in order. |
| RipCurve.LastCopyKept | src/lib/rip_curve.py:87 | At the last index the deletion keeps only the copy's last point, renumbered. |
| RipCurve.LastPointDropsOriginal | src/lib/rip_curve.py:82-90 | After the delete at the last index the curve holds the other splines and the copy cut to its last point: the original spline is gone, and the curve has one spline fewer than the rip. |
| RipCurve.ReselectPhase | src/lib/rip_curve.py:87-90 | Deleting the interior marks and selecting `[split_index]` gives `Ripped`. |
| RipCurve.SelectOutside | src/lib/rip_curve.py:82-85 | The two `select_points` calls on the deselected duplicate give the deletion marks `SelectedForDeletion`. |
| RipCurve.CopyAndDeselect | src/lib/rip_curve.py:76-78 | Copying and deselecting leaves the deselected originals followed by the deselected copy, with the original's length unchanged. The other curves in edit mode lose their selection and nothing else. |
| RipCurve.DeselectedDuplicate | src/lib/rip_curve.py:76-80 | Deselecting after the duplicate gives the deselected originals followed by the fresh copy; `point_count` is the spline's length. |
| RipCurve.DeleteAndReselect | src/lib/rip_curve.py:87-90 | The delete and the final `select_points` give `Ripped` at an interior index and `FirstPointRip` at index 0, and keep the curve valid. Deselected curves in edit mode are unchanged. |
| RipCurve.DeleteMarked | src/lib/rip_curve.py:87 | The delete prunes this curve and leaves every deselected curve in edit mode unchanged. |
| RipCurve.Reselect | src/lib/rip_curve.py:90 | Selecting `[split_index]` after the delete gives `Ripped` at an interior index and `FirstPointRip` at index 0, and a valid curve. |
| RipCurve.FinishSplit | src/lib/rip_curve.py:80-90 | From the deselected duplicate, the two `select_points`, the delete and the reselect give `Ripped` or `FirstPointRip`, and leave deselected curves in edit mode unchanged. |
| RipCurve.SplitOnPoint | src/lib/rip_curve.py:73-90 | `split_on_point` keeps the curve valid and draws `n` identities. At an interior index the curve becomes `Ripped`; at index 0 it becomes `FirstPointRip`. Every other curve in edit mode keeps its splines and its identity supply and loses its selection. |
| RipCurve.GetSelectedPointsInfo | src/lib/rip_curve.py:26-47 | Returns exactly the resolved triples of the BEZIER and POLY splines of the selected CURVE objects, in object, spline and point order. A BEZIER point counts when any of its three flags is set, a POLY point when `select` is set. |
| RipCurve.SelectedPointsOf | src/lib/rip_curve.py:40-46 | The loops over one object's splines give that object's triples. |
| RipCurve.SelectedPointsOfSpline | src/lib/rip_curve.py:44-46 | The loop over one spline's points gives its triples for the points `is_sel` accepts. |
| RipBezierCurve.SetControlValid | src/lib/rip_bezier_curve.py:18 | Setting a control point keeps every spline valid. |
| RipBezierCurve.SetControl | src/lib/rip_bezier_curve.py:18 | Setting `select_control_point` on point `q` sets that flag and nothing else: point `q` keeps its identity, geometry, handles and `select`, every other Bezier point is unchanged, and the kind and the plain points stay as they were. |
| RipBezierCurve.GetSelectedSpline | src/lib/rip_bezier_curve.py:4-10 | Returns the first spline with a Bezier point whose control point is selected, or None when there is none. |
| RipBezierCurve.FirstControlledIs | src/lib/rip_bezier_curve.py:4-10 | That result is unique. |
| RipBezierCurve.ClearedHasNoControl | src/lib/rip_bezier_curve.py:16 | A deselected spline has no selected control point. |
| RipBezierCurve.ControlsStart | src/lib/rip_bezier_curve.py:16 | Before the selection loop the curve is just deselected. |
| RipBezierCurve.ControlsStep | src/lib/rip_bezier_curve.py:17-18 | Each step of the loop selects the control point of the next Bezier point. |
| RipBezierCurve.SelectControls | src/lib/rip_bezier_curve.py:16-18 | The loop over spline `k`'s Bezier points selects each control point in turn, ending with every control point of `k` selected and everything else deselected, and keeps the curve valid. |
| RipBezierCurve.ControlsPrepared | src/lib/rip_bezier_curve.py:16-18 | For a BEZIER spline the loop ends in the "deselect all, select spline `k`" state. |
| RipBezierCurve.CopySpline | src/lib/rip_bezier_curve.py:13-21 | A BEZIER spline with points: the selected copy is appended last and returned, and `n` identities are drawn. Otherwise no copy is made, nothing is returned, and the curve is only deselected. Every other curve in edit mode keeps its splines and its identity supply and loses its selection. |
| RipBezierCurve.GetActivePoints | src/lib/rip_bezier_curve.py:24-36 | Returns exactly the resolved triples of the BEZIER splines of the selected CURVE objects, in object, spline and point order. A point counts only when its control point is selected; handles are ignored. |
| RipBezierCurve.ActivePointsOf | src/lib/rip_bezier_curve.py:30-35 | The loops over one object's splines give that object's triples. |
| RipBezierCurve.ControlPointsOf | src/lib/rip_bezier_curve.py:33-35 | The loop over one spline's Bezier points gives its triples. |
| RipBezierCurve.MarkedUpToStart | src/lib/rip_bezier_curve.py:43 | The marking loop starts from the deselected duplicate. |
| RipBezierCurve.MarkedUpToStep | src/lib/rip_bezier_curve.py:44-49 | Step `idx` marks the copy when `idx < split_index`, the original when `idx > split_index`, and neither at the split index. |
| RipBezierCurve.MarkedUpToEnd | src/lib/rip_bezier_curve.py:44-49 | After every index the marks are exactly the rip's deletion marks, for every split index including 0. |
| RipBezierCurve.MarkOutside | src/lib/rip_bezier_curve.py:44-49 | The marking loop turns the deselected duplicate into the deletion marks. |
| RipBezierCurve.DeleteAndReselect | src/lib/rip_bezier_curve.py:50-51 | Deleting the marks and selecting the split point's control point gives `Ripped`. Deselected curves in edit mode are unchanged. |
| RipBezierCurve.SplitOnPoint | src/lib/rip_bezier_curve.py:39-51 | For any point of the spline, the first and last included, `split_on_point` makes the curve `Ripped` at that point's index, keeps it valid, and draws `n` identities. Every other curve in edit mode keeps its splines and its identity supply and loses its selection. |
| RipOperator.Digit | src/operator/rip.py:33 | A decimal digit character has the digit's value. |
| RipOperator.NatToString | src/operator/rip.py:33 | The count's text in the message is a non-empty run of decimal digits without a leading zero. |
| RipOperator.NatToStringRoundTrip | src/operator/rip.py:33 | Reading the digits back gives the count. |
| RipOperator.Message | src/operator/rip.py:33-39 | Every failure message is non-empty. |
| RipOperator.MessageNamesCount | src/operator/rip.py:33 | The "only rip a single point" message carries the selected count right after its fixed prefix, and the count reads back from it. |
| RipOperator.Failcheck | src/operator/rip.py:26-39 | `failcheck` on the resolved active points: the count message for more than one, `Raised` for none (the IndexError at line 35), the first-point and last-point messages, else None. A definition; `RipOperator.FailcheckDecides` and `RipOperator.FailcheckFirstWins` state its cases. |
| RipOperator.FailcheckDecides | src/operator/rip.py:26-39 | For a non-empty selection each result holds if and only if its condition does. More than one point gives the count message. Otherwise the point at index 0 gives "first point", the point at the last index gives "last point", and an interior point gives None. |
| RipOperator.FailcheckFirstWins | src/operator/rip.py:35-39 | On a one-point spline the point is first and last, and the first-point message wins. |
| RipOperator.FailcheckOnActivePoints | src/operator/rip.py:27-35 | On what `get_active_points` returns, the check raises if and only if nothing is selected, and every triple can be located in its spline. |
| RipOperator.ActiveLocatable | src/operator/rip.py:35-39 | A triple from a valid curve names a point of its spline, whose identities are distinct. |
| RipOperator.Poll | src/operator/rip.py:42-52 | `poll`: False outside edit mode, otherwise True exactly when `failcheck` returns nothing, and raising when it raises. A definition; `RipOperator.PollDecides` and `RipOperator.PollOnActivePoints` state its cases. |
| RipOperator.PollDecides | src/operator/rip.py:42-52 | `poll` is True if and only if the mode is EDIT and the check finds nothing. It raises if and only if the mode is EDIT and the check raises. |
| RipOperator.PollOnActivePoints | src/operator/rip.py:42-52 | For valid curves, `poll` is True if and only if the mode is EDIT and exactly one control point is selected, at an interior index. It raises if and only if the mode is EDIT and nothing is selected. |
| RipOperator.Execute | src/operator/rip.py:54-62 | `execute` raises if and only if nothing is selected. On a refusal it reports the check's message and changes no curve. Otherwise it returns FINISHED with no error, rips the one active point's spline at that point and keeps that curve valid. Every other curve of the selected objects keeps its splines and its identity supply but loses its selection. Every curve of the selected objects is valid afterwards. |
| Variants.SelectedSplineTestsAgree | src/lib/rip_bezier_curve.py:4-10 | On a BEZIER spline both `get_selected_spline` tests agree. |
| Variants.MarksAgree | src/lib/rip_bezier_curve.py:44-49 | For every interior index of a BEZIER spline, both implementations mark the same points for deletion. |
| Variants.MarksDifferAtFirstPoint | src/lib/rip_bezier_curve.py:44-49 | At index 0 `rip_curve` marks the copy's first point and `rip_bezier_curve` does not. |
| Variants.PointRefsAgree | src/lib/rip_curve.py:29-33 | When no handle is selected without its control point, `is_sel` and the control-point test pick the same points of a BEZIER spline. |
| Variants.PointRefsNone | src/lib/rip_curve.py:44-46 | A spline with no counted point contributes no triple. |
| Variants.SplineRefsAgree | src/lib/rip_curve.py:40-46 | Under the same condition, with no POLY point selected, both resolvers give an object the same triples. |
| Variants.ResolversAgree | src/lib/rip_bezier_curve.py:24-36 | When only control points of BEZIER splines are selected, `get_selected_points_info` and `get_active_points` return the same list. |

## Left out

- Add-on registration, menu wiring, `bl_info`, `pkginfo` and module reloading: host plumbing with nothing to state.
- `bpy.context`: the selected objects and the active object's mode are parameters of `Execute`, `GetActivePoints`, `GetSelectedPointsInfo` and `Poll`. A missing active object, where `poll` would raise, is not modelled.
- `print`, `poll_message_set` and `self.report` are UI channels. The model returns the message; poll's "Not in Edit mode" message is not modelled.
- Internals of Blender's deselect, duplicate and delete operators are not modelled; each is a `Curve` method with a contract.
- Curves.Curve.DuplicateMove: only splines that are fully selected are copied. The add-on only duplicates a spline after selecting all of it, so copying a partial selection is not modelled.
- Curves.Curve.DeleteSelected: each spline is filtered on its own. Blender can split a spline at a non-contiguous selection; the add-on only ever selects a contiguous head or tail.
- Point coordinates, handle positions and weights are carried along as opaque data and never inspected. Cyclic splines are not modelled; the add-on ignores `use_cyclic_u`.
- RipCurve.SplitOnPoint: requires the split index to be below the last index. At the last index `range(split_index + 1, point_count)` is empty. `select_points` then marks the whole original and the delete removes it (`RipCurve.LastPointDropsOriginal`, under Findings). The final `select_points` then goes through a reference to a removed spline, which the model cannot represent. The operator never calls this implementation, and its check refuses the last point.
- RipCurve.SplitOnPoint: requires a BEZIER or POLY spline. On a NURBS spline the source does not stop early: line 75 finds the points, `copy_spline` deselects everything and selects nothing, so nothing is duplicated, and line 85 calls `select_points(None, ...)`, which raises at line 62 on `None.type` after the curve has already been deselected. The model does not follow that path.
- RipCurve.SplitOnPoint and RipBezierCurve.SplitOnPoint: require the point to be in the spline. The source raises IndexError on the empty match list otherwise; the operator only passes a point it found in that spline.
- RipCurve.CopySpline: requires a BEZIER or POLY spline with points. For another kind `select_points` does nothing and nothing is duplicated. The model's `RipCurve.SplitOnPoint` requires a BEZIER or POLY spline, so it never calls `CopySpline` on another kind.
- RipOperator.Execute: the curves in edit mode are taken to be the curve data of the selected objects. A curve object in edit mode that is not among the selected objects is outside the model. Objects sharing one curve data count once.
- RipOperator.Execute models the second resolution inside `failcheck` as a second `get_active_points` call on the unchanged scene.
- The undo transaction Blender wraps around the operator (`'UNDO'` in `bl_options`) is not modelled.

## Findings

| source | as written | input that shows it | evidently intended | confidence | as-written member | corrected member |
|---|---|---|---|---|---|---|
| src/lib/rip_curve.py:83-85 | The copy's deletion range is `range(split_index)`. `select_points` treats an empty index collection as "every point". | A split at index 0 of a spline with two or more points. Every point of the copy is marked and the copy is deleted. Every original point after the first is deleted too. The curve is left with one point of that spline and no new spline. | At index 0 nothing of the copy is marked. The original keeps point 0 and the copy keeps every point: the rip at index 0, as `rip_bezier_curve.split_on_point` does it. | not executed | RipCurve.FirstPointRipLoses | RipBezierCurve.SplitOnPoint |
| src/lib/rip_curve.py:83,87,90 | The original's deletion range is `range(split_index + 1, point_count)`. `select_points` treats an empty index collection as "every point". | A split at the last index of a spline with two or more points. Every point of the original is marked and the delete removes the original spline. The curve keeps the other splines and the copy cut to its last point, and the final `select_points(spline, [split_index])` goes through a reference to the removed spline. | At the last index nothing of the original is marked. The original keeps every point and the copy keeps the last point: the rip at the last index, as `rip_bezier_curve.split_on_point` does it. | not executed | RipCurve.LastPointDropsOriginal | RipBezierCurve.SplitOnPoint |
