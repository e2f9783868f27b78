/**
 * Selection resolution: turning the selected objects into the list of
 * (object, spline, point) triples the add-on works on. Both resolvers of the
 * add-on walk objects, then splines, then points in storage order; they differ
 * in which splines they look at and in when a point counts as selected.
 */
module Resolve {
  import opened Curves

  /**
   * `AnySelection` is `get_selected_points_info`: BEZIER and POLY splines, a point
   * counts when any of its flags is set. `ControlPointsOnly` is `get_active_points`:
   * BEZIER splines only, a point counts when its control point is selected.
   */
  datatype Resolver = AnySelection | ControlPointsOnly

  /**
   * A resolved point: the object, the spline's position in the object's splines,
   * the spline as it stood when resolved, and the point.
   */
  datatype PointRef = PointRef(obj: Object, index: nat, spline: Spline, point: Point)

  predicate Handles(rv: Resolver, kind: SplineKind) {
    if rv == AnySelection then kind == Bezier || kind == Poly else kind == Bezier
  }

  predicate Counts(rv: Resolver, p: Point, kind: SplineKind) {
    if rv == AnySelection then Selected(p, kind) else p.control
  }

  /** The list a resolver walks: `get_points_collection`, or `bezier_points`. */
  function Listed(rv: Resolver, s: Spline): seq<Point> {
    if rv == AnySelection then PointsCollection(s) else s.bezierPoints
  }

  function CurvesOf(objs: seq<Object>): set<Curve> {
    set o | o in objs && o.CurveObject? :: o.data
  }

  /** What a resolved triple promises about the spline it was read from. */
  predicate RefOf(rv: Resolver, o: Object, S: seq<Spline>, ref: PointRef) {
    ref.obj == o && ref.index < |S| && ref.spline == S[ref.index] &&
    Handles(rv, ref.spline.kind) && ref.point in Listed(rv, ref.spline) &&
    Counts(rv, ref.point, ref.spline.kind)
  }

  /** The triples for the first `c` listed points of spline `s`, at position `j` of object `o`. */
  function PointRefs(rv: Resolver, o: Object, j: nat, s: Spline, c: nat): seq<PointRef>
    requires c <= |Listed(rv, s)|
  {
    if c == 0 then []
    else
      var p := Listed(rv, s)[c - 1];
      PointRefs(rv, o, j, s, c - 1) + (if Counts(rv, p, s.kind) then [PointRef(o, j, s, p)] else [])
  }

  /** The triples for the first `b` splines of `S`, the splines of object `o`. */
  function SplineRefs(rv: Resolver, o: Object, S: seq<Spline>, b: nat): seq<PointRef>
    requires b <= |S|
  {
    if b == 0 then []
    else
      var s := S[b - 1];
      SplineRefs(rv, o, S, b - 1)
        + (if Handles(rv, s.kind) then PointRefs(rv, o, b - 1, s, |Listed(rv, s)|) else [])
  }

  function ObjectRefs(rv: Resolver, o: Object): seq<PointRef>
    reads if o.CurveObject? then {o.data} else {}
  {
    if o.CurveObject? then SplineRefs(rv, o, o.data.splines, |o.data.splines|) else []
  }

  /** Every triple of the selected objects `objs`, objects first, then splines, then points. */
  function Resolved(rv: Resolver, objs: seq<Object>): seq<PointRef>
    reads CurvesOf(objs)
  {
    if objs == [] then []
    else
      var o := objs[|objs| - 1];
      assert CurvesOf(objs[..|objs| - 1]) <= CurvesOf(objs);
      Resolved(rv, objs[..|objs| - 1]) + ObjectRefs(rv, o)
  }

  /** Every triple for a spline names that spline and one of its counted, listed points. */
  lemma {:induction false} PointRefsSound(rv: Resolver, o: Object, j: nat, s: Spline, c: nat)
    requires c <= |Listed(rv, s)|
    ensures forall t :: 0 <= t < |PointRefs(rv, o, j, s, c)| ==>
      var ref := PointRefs(rv, o, j, s, c)[t];
      ref.obj == o && ref.index == j && ref.spline == s &&
      ref.point in Listed(rv, s)[..c] && Counts(rv, ref.point, s.kind)
  {
    if c > 0 {
      var ps, r := Listed(rv, s), PointRefs(rv, o, j, s, c);
      var prev := PointRefs(rv, o, j, s, c - 1);
      PointRefsSound(rv, o, j, s, c - 1);
      forall t | 0 <= t < |r|
        ensures r[t].obj == o && r[t].index == j && r[t].spline == s &&
          r[t].point in ps[..c] && Counts(rv, r[t].point, s.kind)
      {
        if t < |prev| {
          assert r[t] == prev[t];
          assert ps[..c - 1] <= ps[..c];
        } else {
          assert r[t] == PointRef(o, j, s, ps[c - 1]);
          assert ps[..c][c - 1] == ps[c - 1];
        }
      }
    }
  }

  /** Every triple for an object's splines comes from a handled spline among the first `b`. */
  lemma {:induction false} SplineRefsSound(rv: Resolver, o: Object, S: seq<Spline>, b: nat)
    requires b <= |S|
    ensures forall t :: 0 <= t < |SplineRefs(rv, o, S, b)| ==>
      RefOf(rv, o, S, SplineRefs(rv, o, S, b)[t]) && SplineRefs(rv, o, S, b)[t].index < b
  {
    if b > 0 {
      var r, prev := SplineRefs(rv, o, S, b), SplineRefs(rv, o, S, b - 1);
      SplineRefsSound(rv, o, S, b - 1);
      if Handles(rv, S[b - 1].kind) {
        var s := S[b - 1];
        var last := PointRefs(rv, o, b - 1, s, |Listed(rv, s)|);
        PointRefsSound(rv, o, b - 1, s, |Listed(rv, s)|);
        assert Listed(rv, s)[..|Listed(rv, s)|] == Listed(rv, s);
        forall t | 0 <= t < |r|
          ensures RefOf(rv, o, S, r[t]) && r[t].index < b
        {
          if t < |prev| {
            assert r[t] == prev[t];
          } else {
            assert r[t] == last[t - |prev|];
          }
        }
      } else {
        assert r == prev;
      }
    }
  }

  /**
   * Nothing unselected is reported: every resolved triple names a selected curve
   * object, one of its handled splines, and a counted point of that spline.
   */
  lemma {:induction false} ResolvedSound(rv: Resolver, objs: seq<Object>)
    ensures forall t :: 0 <= t < |Resolved(rv, objs)| ==>
      var ref := Resolved(rv, objs)[t];
      ref.obj in objs && ref.obj.CurveObject? && RefOf(rv, ref.obj, ref.obj.data.splines, ref)
    decreases |objs|
  {
    if objs != [] {
      var o, init := objs[|objs| - 1], objs[..|objs| - 1];
      var r, prev := Resolved(rv, objs), Resolved(rv, init);
      ResolvedSound(rv, init);
      if o.CurveObject? {
        var last := SplineRefs(rv, o, o.data.splines, |o.data.splines|);
        SplineRefsSound(rv, o, o.data.splines, |o.data.splines|);
        forall t | 0 <= t < |r|
          ensures r[t].obj in objs && r[t].obj.CurveObject? && RefOf(rv, r[t].obj, r[t].obj.data.splines, r[t])
        {
          if t < |prev| {
            assert r[t] == prev[t] && r[t].obj in init;
          } else {
            assert r[t] == last[t - |prev|];
          }
        }
      } else {
        forall t | 0 <= t < |r|
          ensures r[t].obj in objs && r[t].obj.CurveObject? && RefOf(rv, r[t].obj, r[t].obj.data.splines, r[t])
        {
          assert r[t] == prev[t] && r[t].obj in init;
        }
      }
    }
  }

  /** Resolving one more object appends that object's triples. */
  lemma ResolvedStep(rv: Resolver, objs: seq<Object>, a: nat)
    requires a < |objs|
    ensures Resolved(rv, objs[..a + 1]) == Resolved(rv, objs[..a]) + ObjectRefs(rv, objs[a])
  {
    assert objs[..a + 1][..a] == objs[..a];
  }

  /** Every counted point of a handled spline is listed. */
  lemma {:induction false} PointRefsComplete(rv: Resolver, o: Object, j: nat, s: Spline, c: nat, q: nat)
    requires q < c <= |Listed(rv, s)| && Counts(rv, Listed(rv, s)[q], s.kind)
    ensures PointRef(o, j, s, Listed(rv, s)[q]) in PointRefs(rv, o, j, s, c)
  {
    if q < c - 1 {
      PointRefsComplete(rv, o, j, s, c - 1, q);
    }
  }

  lemma {:induction false} SplineRefsComplete(rv: Resolver, o: Object, S: seq<Spline>, b: nat, j: nat, q: nat)
    requires j < b <= |S| && Handles(rv, S[j].kind)
    requires q < |Listed(rv, S[j])| && Counts(rv, Listed(rv, S[j])[q], S[j].kind)
    ensures PointRef(o, j, S[j], Listed(rv, S[j])[q]) in SplineRefs(rv, o, S, b)
  {
    if j < b - 1 {
      SplineRefsComplete(rv, o, S, b - 1, j, q);
    } else {
      PointRefsComplete(rv, o, j, S[j], |Listed(rv, S[j])|, q);
    }
  }

  /**
   * Nothing selected is missed: every counted point of every handled spline of
   * every selected curve object appears among the resolved triples.
   */
  lemma {:induction false} ResolvedComplete(rv: Resolver, objs: seq<Object>, a: nat, j: nat, q: nat)
    requires a < |objs| && objs[a].CurveObject?
    requires j < |objs[a].data.splines| && Handles(rv, objs[a].data.splines[j].kind)
    requires var s := objs[a].data.splines[j];
      q < |Listed(rv, s)| && Counts(rv, Listed(rv, s)[q], s.kind)
    ensures var s := objs[a].data.splines[j];
      PointRef(objs[a], j, s, Listed(rv, s)[q]) in Resolved(rv, objs)
  {
    var o := objs[|objs| - 1];
    if a < |objs| - 1 {
      ResolvedComplete(rv, objs[..|objs| - 1], a, j, q);
    } else {
      SplineRefsComplete(rv, o, o.data.splines, |o.data.splines|, j, q);
    }
  }
}
