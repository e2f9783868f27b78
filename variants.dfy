/**
 * The two implementations side by side: where `rip_curve` and
 * `rip_bezier_curve` agree on Bezier splines, and where they do not.
 */
module Variants {
  import opened Curves
  import opened Rip
  import opened Resolve
  import RipCurve
  import RipBezierCurve

  /** On a BEZIER spline both `get_selected_spline` tests look at the same flag of the same points. */
  lemma SelectedSplineTestsAgree(s: Spline)
    requires s.kind == Bezier
    ensures RipBezierCurve.HasControlPoint(s) <==> RipCurve.HasFlaggedPoint(s)
  {
    if RipBezierCurve.HasControlPoint(s) {
      var q :| 0 <= q < |s.bezierPoints| && s.bezierPoints[q].control;
      assert Flagged(PointsCollection(s)[q], s.kind);
    }
  }

  /**
   * For an interior split index of a BEZIER spline the two implementations mark
   * the same points for deletion: `rip_curve`'s two ranges through
   * `select_points` and `rip_bezier_curve`'s index loop.
   */
  lemma MarksAgree(S: seq<Spline>, k: nat, i: nat, next: nat)
    requires k < |S| && S[k].kind == Bezier && 0 < i < |S[k].bezierPoints| - 1
    ensures RipCurve.SelectedForDeletion(S, k, i, next) ==
      RipBezierCurve.MarkedUpTo(S, k, i, next, |S[k].bezierPoints|)
  {
    RipCurve.MarkPhase(S, k, i, next);
    RipBezierCurve.MarkedUpToEnd(S, k, i, next);
  }

  /**
   * At the first point they differ: `rip_curve` marks the copy's first point
   * (all of the copy, in fact), `rip_bezier_curve` marks none of the copy.
   */
  lemma MarksDifferAtFirstPoint(S: seq<Spline>, k: nat, next: nat)
    requires k < |S| && S[k].kind == Bezier && 2 <= |S[k].bezierPoints|
    ensures var a := RipCurve.SelectedForDeletion(S, k, 0, next);
      var b := RipBezierCurve.MarkedUpTo(S, k, 0, next, |S[k].bezierPoints|);
      |a| == |b| == |S| + 1 && |a[|S|].bezierPoints| > 0 && |b[|S|].bezierPoints| > 0 &&
      a[|S|].bezierPoints[0].control && !b[|S|].bezierPoints[0].control
  {
    RipCurve.FirstPointMarks(S, k, next);
    RipBezierCurve.MarkedUpToEnd(S, k, 0, next);
    MarkedParts(S, k, 0, next);
  }

  /** A selection `get_active_points` and `get_selected_points_info` see alike: control points of BEZIER splines only. */
  predicate ControlOnly(S: seq<Spline>) {
    forall j, q :: 0 <= j < |S| && 0 <= q < |PointsCollection(S[j])| ==>
      var p := PointsCollection(S[j])[q];
      (S[j].kind == Poly ==> !p.select) &&
      (S[j].kind == Bezier ==> (p.left || p.right ==> p.control))
  }

  lemma {:induction false} PointRefsAgree(o: Object, j: nat, s: Spline, c: nat)
    requires s.kind == Bezier && c <= |s.bezierPoints|
    requires forall q :: 0 <= q < c ==> (s.bezierPoints[q].left || s.bezierPoints[q].right ==> s.bezierPoints[q].control)
    ensures PointRefs(AnySelection, o, j, s, c) == PointRefs(ControlPointsOnly, o, j, s, c)
  {
    if c > 0 {
      PointRefsAgree(o, j, s, c - 1);
    }
  }

  lemma {:induction false} PointRefsNone(rv: Resolver, o: Object, j: nat, s: Spline, c: nat)
    requires c <= |Listed(rv, s)|
    requires forall q :: 0 <= q < c ==> !Counts(rv, Listed(rv, s)[q], s.kind)
    ensures PointRefs(rv, o, j, s, c) == []
  {
    if c > 0 {
      PointRefsNone(rv, o, j, s, c - 1);
    }
  }

  lemma {:induction false} SplineRefsAgree(o: Object, S: seq<Spline>, b: nat)
    requires b <= |S| && ControlOnly(S)
    ensures SplineRefs(AnySelection, o, S, b) == SplineRefs(ControlPointsOnly, o, S, b)
  {
    if b > 0 {
      SplineRefsAgree(o, S, b - 1);
      var s := S[b - 1];
      if s.kind == Bezier {
        forall q | 0 <= q < |s.bezierPoints|
          ensures s.bezierPoints[q].left || s.bezierPoints[q].right ==> s.bezierPoints[q].control
        {
          assert PointsCollection(S[b - 1])[q] == s.bezierPoints[q];
        }
        PointRefsAgree(o, b - 1, s, |s.bezierPoints|);
      } else if s.kind == Poly {
        forall q | 0 <= q < |s.points|
          ensures !Counts(AnySelection, Listed(AnySelection, s)[q], s.kind)
        {
          assert PointsCollection(S[b - 1])[q] == s.points[q];
        }
        PointRefsNone(AnySelection, o, b - 1, s, |s.points|);
      }
    }
  }

  /**
   * When only control points of BEZIER splines are selected the two resolvers
   * return the same triples in the same order.
   */
  lemma {:induction false} ResolversAgree(objs: seq<Object>)
    requires forall o :: o in objs && o.CurveObject? ==> ControlOnly(o.data.splines)
    ensures Resolved(AnySelection, objs) == Resolved(ControlPointsOnly, objs)
    decreases |objs|
  {
    if objs != [] {
      var o := objs[|objs| - 1];
      ResolversAgree(objs[..|objs| - 1]);
      if o.CurveObject? {
        SplineRefsAgree(o, o.data.splines, |o.data.splines|);
      }
    }
  }
}
