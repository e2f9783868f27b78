/**
 * `rip_bezier_curve`: the Bezier-only implementation, the one the rip operator
 * uses. It reads `bezier_points` directly and sets `select_control_point` point
 * by point instead of going through `select_points`.
 */
module RipBezierCurve {
  import opened Curves
  import opened Rip
  import opened Resolve

  predicate HasControlPoint(s: Spline) {
    exists q :: 0 <= q < |s.bezierPoints| && s.bezierPoints[q].control
  }

  /** The spline with the control point of its Bezier point `q` selected. */
  function SetControl(s: Spline, q: nat): (r: Spline)
    requires q < |s.bezierPoints|
    ensures r.kind == s.kind && r.points == s.points && |r.bezierPoints| == |s.bezierPoints|
    ensures r.bezierPoints[q].control
    ensures r.bezierPoints[q] == s.bezierPoints[q].(control := true)
    ensures forall p :: 0 <= p < |s.bezierPoints| && p != q ==> r.bezierPoints[p] == s.bezierPoints[p]
  {
    s.(bezierPoints := s.bezierPoints[q := s.bezierPoints[q].(control := true)])
  }

  /** Selecting a control point keeps a valid curve valid. */
  lemma SetControlValid(S: seq<Spline>, j: nat, q: nat, bound: nat)
    requires j < |S| && q < |S[j].bezierPoints|
    requires forall i :: 0 <= i < |S| ==> SplineValid(S[i], bound)
    ensures var T := S[j := SetControl(S[j], q)];
      forall i :: 0 <= i < |T| ==> SplineValid(T[i], bound)
  {
    var s := S[j];
    assert SplineValid(s, bound);
    assert forall p :: 0 <= p < |s.bezierPoints| ==> SetControl(s, q).bezierPoints[p].id == s.bezierPoints[p].id;
    UpdateValid(S, j, SetControl(s, q), bound, S[j := SetControl(s, q)]);
  }

  /**
   * `get_selected_spline`: the first spline, in storage order, with a Bezier point
   * whose control point is selected.
   */
  method GetSelectedSpline(c: Curve) returns (r: Option<nat>)
    ensures r.Some? ==> r.value < |c.splines| && HasControlPoint(c.splines[r.value])
    ensures r.Some? ==> forall j :: 0 <= j < r.value ==> !HasControlPoint(c.splines[j])
    ensures r.None? ==> forall j :: 0 <= j < |c.splines| ==> !HasControlPoint(c.splines[j])
  {
    for j := 0 to |c.splines|
      invariant forall j' :: 0 <= j' < j ==> !HasControlPoint(c.splines[j'])
    {
      var spline := c.splines[j];
      for q := 0 to |spline.bezierPoints|
        invariant forall q' :: 0 <= q' < q ==> !spline.bezierPoints[q'].control
      {
        if spline.bezierPoints[q].control {
          return Some(j);
        }
      }
    }
    return None;
  }

  /** The spline `get_selected_spline` returns is determined: the first one with a selected control point. */
  lemma FirstControlledIs(T: seq<Spline>, r: Option<nat>, m: Option<nat>)
    requires m.Some? ==> m.value < |T| && HasControlPoint(T[m.value])
    requires m.Some? ==> forall j :: 0 <= j < m.value ==> !HasControlPoint(T[j])
    requires m.None? ==> forall j :: 0 <= j < |T| ==> !HasControlPoint(T[j])
    requires r.Some? ==> r.value < |T| && HasControlPoint(T[r.value])
    requires r.Some? ==> forall j :: 0 <= j < r.value ==> !HasControlPoint(T[j])
    requires r.None? ==> forall j :: 0 <= j < |T| ==> !HasControlPoint(T[j])
    ensures r == m
  {
  }

  /** A deselected spline has no selected control point. */
  lemma ClearedHasNoControl(s: Spline)
    ensures !HasControlPoint(ClearSpline(s))
  {
    assert ClearSpline(s).bezierPoints == ClearPoints(s.bezierPoints);
  }

  /** The curve after deselecting and selecting the control points of spline `k`'s first `t` Bezier points. */
  function ControlsUpTo(S: seq<Spline>, k: nat, t: int): seq<Spline>
    requires k < |S|
  {
    ClearAll(S)[k := ClearSpline(S[k]).(bezierPoints := Mark(ClearPoints(S[k].bezierPoints), Bezier, 0, t))]
  }

  lemma ControlsStep(S: seq<Spline>, k: nat, t: nat)
    requires k < |S| && t < |S[k].bezierPoints|
    ensures var C := ControlsUpTo(S, k, t);
      k < |C| && t < |C[k].bezierPoints| && C[k := SetControl(C[k], t)] == ControlsUpTo(S, k, t + 1)
  {
    var ps := ClearPoints(S[k].bezierPoints);
    assert Mark(ps, Bezier, 0, t)[t := Mark(ps, Bezier, 0, t)[t].(control := true)] == Mark(ps, Bezier, 0, t + 1);
  }

  /** With every Bezier point of a BEZIER spline selected this is the state a duplicate starts from. */
  lemma ControlsPrepared(S: seq<Spline>, k: nat)
    requires k < |S| && S[k].kind == Bezier
    ensures ControlsUpTo(S, k, |S[k].bezierPoints|) == Prepared(S, k)
  {
  }

  /** Before the loop, and after it when the spline has no Bezier points, the curve is just deselected. */
  lemma ControlsStart(S: seq<Spline>, k: nat)
    requires k < |S|
    ensures ControlsUpTo(S, k, 0) == ClearAll(S)
  {
    assert Mark(ClearPoints(S[k].bezierPoints), Bezier, 0, 0) == ClearPoints(S[k].bezierPoints);
    assert ClearSpline(S[k]).(bezierPoints := ClearPoints(S[k].bezierPoints)) == ClearSpline(S[k]);
  }

  /**
   * `copy_spline`: deselect everything, select the control point of every Bezier
   * point of spline `k`, duplicate, and return the spline then selected. For a
   * BEZIER spline with points that is the copy; otherwise nothing is duplicated
   * and no spline is returned.
   */
  method CopySpline(c: Curve, k: nat, others: set<Curve>) returns (r: Option<nat>)
    requires c.Valid() && k < |c.splines| && c !in others && AllValid(others)
    modifies c, others
    ensures c.Valid() && AllValid(others)
    ensures var s := old(c.splines)[k];
      s.kind == Bezier && |s.bezierPoints| > 0 ==>
        r == Some(|old(c.splines)|) && c.splines == Duplicated(old(c.splines), k, old(c.nextId)) &&
        c.nextId == old(c.nextId) + |s.bezierPoints|
    ensures var s := old(c.splines)[k];
      !(s.kind == Bezier && |s.bezierPoints| > 0) ==>
        r == None && c.splines == ClearAll(old(c.splines)) && c.nextId == old(c.nextId)
    ensures forall d :: d in others ==> d.splines == ClearAll(old(d.splines)) && d.nextId == old(d.nextId)
  {
    ghost var S, next := c.splines, c.nextId;
    c.DeselectAll(others);
    SelectControls(c, k, S);
    ghost var copied := S[k].kind == Bezier && |S[k].bezierPoints| > 0;
    if copied {
      ControlsPrepared(S, k);
      CopyPhase(S, k, next);
    } else {
      assert S[k].bezierPoints == [] by {
        assert SplineValid(S[k], next);
      }
      ControlsStart(S, k);
      DuplicateNothing(S, next);
    }
    c.DuplicateMove(others);
    forall d | d in others
      ensures d.splines == ClearAll(old(d.splines)) && d.nextId == old(d.nextId)
    {
      DeselectedUntouched(old(d.splines), old(d.nextId));
    }
    r := GetSelectedSpline(c);
    if copied {
      DuplicatedParts(S, k, next);
      forall j | 0 <= j < |S|
        ensures !HasControlPoint(c.splines[j])
      {
        ClearedHasNoControl(S[j]);
      }
      assert c.splines[|S|].bezierPoints[0].control;
      FirstControlledIs(c.splines, r, Some(|S|));
    } else {
      forall j | 0 <= j < |S|
        ensures !HasControlPoint(c.splines[j])
      {
        ClearedHasNoControl(S[j]);
      }
      FirstControlledIs(c.splines, r, None);
    }
  }

  /** The loop of `copy_spline` that selects the control point of every Bezier point of spline `k`. */
  method SelectControls(c: Curve, k: nat, ghost S: seq<Spline>)
    requires k < |S| && c.splines == ClearAll(S) && c.Valid()
    modifies c
    ensures c.splines == ControlsUpTo(S, k, |S[k].bezierPoints|) && c.nextId == old(c.nextId) && c.Valid()
  {
    ControlsStart(S, k);
    for q := 0 to |c.splines[k].bezierPoints|
      invariant c.splines == ControlsUpTo(S, k, q) && c.nextId == old(c.nextId) && c.Valid()
    {
      ControlsStep(S, k, q);
      SetControlValid(c.splines, k, q, c.nextId);
      c.splines := c.splines[k := SetControl(c.splines[k], q)];
    }
  }

  /** `get_active_points`: the points of BEZIER splines whose control point is selected. */
  method GetActivePoints(objs: seq<Object>) returns (points: seq<PointRef>)
    ensures points == Resolved(ControlPointsOnly, objs)
  {
    points := [];
    for a := 0 to |objs|
      invariant points == Resolved(ControlPointsOnly, objs[..a])
    {
      var ob := objs[a];
      if ob.CurveObject? {
        label pre:
        var found := ActivePointsOf(ob);
        assert unchanged@pre(CurvesOf(objs[..a]));
        points := points + found;
      } else {
        assert ObjectRefs(ControlPointsOnly, ob) == [];
      }
      ResolvedStep(ControlPointsOnly, objs, a);
    }
    assert objs[..|objs|] == objs;
  }

  /** The inner loops of `get_active_points` for one curve object. */
  method ActivePointsOf(ob: Object) returns (found: seq<PointRef>)
    requires ob.CurveObject?
    ensures found == ObjectRefs(ControlPointsOnly, ob)
  {
    found := [];
    var splines := ob.data.splines;
    for j := 0 to |splines|
      invariant found == SplineRefs(ControlPointsOnly, ob, splines, j)
    {
      var spl := splines[j];
      if spl.kind == Bezier {
        var more := ControlPointsOf(ob, j, spl);
        found := found + more;
      }
    }
  }

  /** The innermost loop of `get_active_points`: the spline's points whose control point is selected. */
  method ControlPointsOf(ob: Object, j: nat, spl: Spline) returns (found: seq<PointRef>)
    ensures found == PointRefs(ControlPointsOnly, ob, j, spl, |spl.bezierPoints|)
  {
    found := [];
    for q := 0 to |spl.bezierPoints|
      invariant found == PointRefs(ControlPointsOnly, ob, j, spl, q)
    {
      var pt := spl.bezierPoints[q];
      if pt.control {
        found := found + [PointRef(ob, j, spl, pt)];
      }
    }
  }

  /**
   * The deletion marks after the first `t` steps of the marking loop: the copy's
   * points before `min(t, i)` and the original's points from `i + 1` up to `t`.
   */
  function MarkedUpTo(S: seq<Spline>, k: nat, i: nat, next: nat, t: nat): seq<Spline>
    requires k < |S|
  {
    var copy := FreshCopy(S, k, next);
    (ClearAll(S) + [copy])
      [k := WithPoints(ClearSpline(S[k]), Mark(ClearPoints(PointsCollection(S[k])), S[k].kind, i + 1, t))]
      [|S| := WithPoints(copy, Mark(PointsCollection(copy), S[k].kind, 0, if t < i then t else i))]
  }

  lemma MarkedUpToParts(S: seq<Spline>, k: nat, i: nat, next: nat, t: nat)
    requires k < |S| && S[k].kind == Bezier
    ensures var M := MarkedUpTo(S, k, i, next, t); var n := |S[k].bezierPoints|;
      |M| == |S| + 1 && |M[k].bezierPoints| == n && |M[|S|].bezierPoints| == n
  {
  }

  /** Starting the loop on the deselected duplicate: nothing is marked yet. */
  lemma MarkedUpToStart(S: seq<Spline>, k: nat, i: nat, next: nat)
    requires k < |S| && S[k].kind == Bezier
    ensures MarkedUpTo(S, k, i, next, 0) == ClearAll(S) + [FreshCopy(S, k, next)]
  {
    var copy := FreshCopy(S, k, next);
    assert Mark(PointsCollection(copy), Bezier, 0, 0) == PointsCollection(copy);
    assert Mark(ClearPoints(PointsCollection(S[k])), Bezier, i + 1, 0) == ClearPoints(PointsCollection(S[k]));
  }

  /** One step of the loop: index `t` marked on the copy when below `i`, on the original when above. */
  lemma MarkedUpToStep(S: seq<Spline>, k: nat, i: nat, next: nat, t: nat)
    requires k < |S| && S[k].kind == Bezier && t < |S[k].bezierPoints|
    ensures var M := MarkedUpTo(S, k, i, next, t);
      var M1 := if t < i then M[|S| := SetControl(M[|S|], t)] else M;
      |M1| == |S| + 1 && |M1[k].bezierPoints| == |S[k].bezierPoints| &&
      (if t > i then M1[k := SetControl(M1[k], t)] else M1) == MarkedUpTo(S, k, i, next, t + 1)
  {
    var copy := FreshCopy(S, k, next);
    var cps := PointsCollection(copy);
    var ops := ClearPoints(PointsCollection(S[k]));
    if t < i {
      assert Mark(cps, Bezier, 0, t)[t := Mark(cps, Bezier, 0, t)[t].(control := true)] == Mark(cps, Bezier, 0, t + 1);
    } else {
      assert Mark(cps, Bezier, 0, if t < i then t else i) == Mark(cps, Bezier, 0, if t + 1 < i then t + 1 else i);
    }
    if t > i {
      assert Mark(ops, Bezier, i + 1, t)[t := Mark(ops, Bezier, i + 1, t)[t].(control := true)] == Mark(ops, Bezier, i + 1, t + 1);
    } else {
      assert Mark(ops, Bezier, i + 1, t) == Mark(ops, Bezier, i + 1, t + 1);
    }
  }

  /** At the end of the loop the marks are exactly the deletion marks of the rip. */
  lemma MarkedUpToEnd(S: seq<Spline>, k: nat, i: nat, next: nat)
    requires k < |S| && S[k].kind == Bezier && i < |S[k].bezierPoints|
    ensures MarkedUpTo(S, k, i, next, |S[k].bezierPoints|) == MarkedForDeletion(S, k, i, next)
  {
  }

  /**
   * The marking loop of `split_on_point` on the deselected duplicate: index `idx`
   * is marked on the copy when `idx < i` and on the original when `idx > i`; the
   * split point itself is marked on neither and so stays in both.
   */
  method MarkOutside(c: Curve, k: nat, copy: nat, i: nat, ghost S: seq<Spline>, ghost next: nat)
    requires k < |S| && S[k].kind == Bezier && copy == |S| && i < |S[k].bezierPoints|
    requires c.splines == ClearAll(S) + [FreshCopy(S, k, next)] && c.Valid()
    modifies c
    ensures c.splines == MarkedForDeletion(S, k, i, next) && c.nextId == old(c.nextId) && c.Valid()
  {
    MarkedUpToStart(S, k, i, next);
    MarkedUpToParts(S, k, i, next, 0);
    for idx := 0 to |c.splines[k].bezierPoints|
      invariant c.splines == MarkedUpTo(S, k, i, next, idx) && c.nextId == old(c.nextId) && c.Valid()
    {
      MarkedUpToParts(S, k, i, next, idx);
      MarkedUpToStep(S, k, i, next, idx);
      if idx < i {
        SetControlValid(c.splines, copy, idx, c.nextId);
        c.splines := c.splines[copy := SetControl(c.splines[copy], idx)];
      }
      if idx > i {
        SetControlValid(c.splines, k, idx, c.nextId);
        c.splines := c.splines[k := SetControl(c.splines[k], idx)];
      }
    }
    MarkedUpToEnd(S, k, i, next);
  }

  /**
   * `split_on_point`: rip spline `k` at `point`. Any point of the spline works,
   * the first and the last included: at either end one of the two mark sets is
   * simply empty.
   */
  method SplitOnPoint(c: Curve, k: nat, point: Point, others: set<Curve>)
    requires c.Valid() && k < |c.splines|
    requires SplitIndex(c.splines[k].bezierPoints, point).Some?
    requires c !in others && AllValid(others)
    modifies c, others
    ensures AllValid(others)
    ensures c.Valid() && old(c.splines)[k].kind == Bezier
    ensures c.splines == Ripped(old(c.splines), k, SplitIndex(old(c.splines)[k].bezierPoints, point).value, old(c.nextId))
    ensures c.nextId == old(c.nextId) + |old(c.splines)[k].bezierPoints|
    ensures forall d :: d in others ==> d.splines == ClearAll(old(d.splines)) && d.nextId == old(d.nextId)
  {
    ghost var S, next := c.splines, c.nextId;
    assert S[k].kind == Bezier by {
      assert SplineValid(S[k], next);
    }
    var splitIndex := SplitIndex(c.splines[k].bezierPoints, point).value;
    var newSpline := CopySpline(c, k, others);
    c.DeselectAll(others);
    forall d | d in others
      ensures d.splines == ClearAll(old(d.splines)) && ClearAll(d.splines) == d.splines
    {
      DeselectedUntouched(old(d.splines), old(d.nextId));
    }
    assert c.splines == ClearAll(S) + [FreshCopy(S, k, next)] by {
      CopyPhase(S, k, next);
    }
    MarkOutside(c, k, newSpline.value, splitIndex, S, next);
    DeleteAndReselect(c, k, splitIndex, S, next, others);
    RippedValid(S, k, splitIndex, next);
  }

  /** The end of `split_on_point`: delete the marked points, then select the split point's control point. */
  method DeleteAndReselect(c: Curve, k: nat, i: nat, ghost S: seq<Spline>, ghost next: nat, others: set<Curve>)
    requires k < |S| && S[k].kind == Bezier && i < |S[k].bezierPoints|
    requires c.splines == MarkedForDeletion(S, k, i, next)
    requires c !in others && Deselected(others) && c.Valid() && AllValid(others)
    modifies c, others
    ensures c.splines == Ripped(S, k, i, next) && c.nextId == old(c.nextId) && AllValid(others)
    ensures forall d :: d in others ==> d.splines == old(d.splines) && d.nextId == old(d.nextId)
  {
    c.DeleteSelected(others);
    forall d | d in others
      ensures d.splines == old(d.splines)
    {
      DeselectedUntouched(old(d.splines), old(d.nextId));
    }
    DeletePhase(S, k, i, next);
    assert SetControl(c.splines[k], i) == WithPoints(c.splines[k], Mark(PointsCollection(c.splines[k]), Bezier, i, i + 1));
    c.splines := c.splines[k := SetControl(c.splines[k], i)];
  }
}
