/**
 * The "Rip Bezier Curve" operator: the eligibility check `failcheck`, the
 * `poll` gate in front of it and `execute`, which checks again and then rips
 * with the Bezier-only implementation.
 */
module RipOperator {
  import opened Curves
  import opened Rip
  import opened Resolve
  import RipBezierCurve

  /** Why the operator refuses to run. */
  datatype Failure = TooMany(count: nat) | FirstPoint | LastPoint

  /** What `execute` hands back: always `{'FINISHED'}`, with the error it reported, if any. */
  datatype Report = Finished(error: Option<string>)

  function Digit(d: nat): (c: char)
    requires d < 10
    ensures '0' <= c <= '9' && c as int - '0' as int == d
  {
    ('0' as int + d) as char
  }

  /** The decimal text Python's f-string gives a non-negative count. */
  function NatToString(n: nat): (s: string)
    ensures |s| >= 1 && forall t :: 0 <= t < |s| ==> '0' <= s[t] <= '9'
    ensures n > 0 ==> s[0] != '0'
    decreases n
  {
    if n < 10 then [Digit(n)] else NatToString(n / 10) + [Digit(n % 10)]
  }

  /** Reading decimal digits back, the partner of `NatToString`. */
  function ParseNat(s: string): nat
    requires forall t :: 0 <= t < |s| ==> '0' <= s[t] <= '9'
    decreases |s|
  {
    if s == [] then 0 else ParseNat(s[..|s| - 1]) * 10 + (s[|s| - 1] as int - '0' as int)
  }

  /** The count in a message reads back as the count. */
  lemma {:induction false} NatToStringRoundTrip(n: nat)
    ensures ParseNat(NatToString(n)) == n
    decreases n
  {
    var s := NatToString(n);
    if n >= 10 {
      NatToStringRoundTrip(n / 10);
      assert s[..|s| - 1] == NatToString(n / 10);
    }
  }

  const TooManyPrefix := "This operator can only rip a single point. "

  function Message(f: Failure): (m: string)
    ensures |m| > 0
  {
    match f
    case TooMany(count) => TooManyPrefix + NatToString(count) + " are selected."
    case FirstPoint => "Ripping the first point in a curve will accomplish nothing."
    case LastPoint => "Ripping the last point in a curve will accomplish nothing."
  }

  /** The "too many" message names the number of selected points, which reads back from it. */
  lemma MessageNamesCount(count: nat)
    ensures var m := Message(TooMany(count)); var d := |NatToString(count)|;
      |m| == |TooManyPrefix| + d + 14 && m[..|TooManyPrefix|] == TooManyPrefix &&
      (forall t :: |TooManyPrefix| <= t < |TooManyPrefix| + d ==> '0' <= m[t] <= '9') &&
      ParseNat(m[|TooManyPrefix|..|TooManyPrefix| + d]) == count
  {
    var m := Message(TooMany(count));
    var d := |NatToString(count)|;
    assert m[|TooManyPrefix|..|TooManyPrefix| + d] == NatToString(count);
    NatToStringRoundTrip(count);
  }

  /**
   * `failcheck` over the active points `ap`: more than one point is refused with
   * the count; otherwise the first triple is read, which raises when there is
   * none, and its point is refused when it is its spline's first or last Bezier
   * point (first wins). Points are compared by identity.
   */
  function Failcheck(ap: seq<PointRef>): Outcome<Option<Failure>> {
    if |ap| > 1 then Returned(Some(TooMany(|ap|)))
    else if |ap| == 0 then Raised
    else
      var bp := ap[0].spline.bezierPoints;
      if |bp| == 0 then Raised
      else if ap[0].point.id == bp[0].id then Returned(Some(FirstPoint))
      else if ap[0].point.id == bp[|bp| - 1].id then Returned(Some(LastPoint))
      else Returned(None)
  }

  /** The split position of the one active point. */
  function SplitAt(ref: PointRef): Option<nat> {
    SplitIndex(ref.spline.bezierPoints, ref.point)
  }

  /** A triple as `get_active_points` produces it: its point is in its spline, identities distinct. */
  predicate Locatable(ref: PointRef) {
    SplitAt(ref).Some? && DistinctIds(ref.spline.bezierPoints)
  }

  /**
   * For a non-empty selection the check decides on the split position: the count
   * when several points are selected, otherwise first point, last point, or go
   * ahead exactly when the point is interior.
   */
  lemma FailcheckDecides(ap: seq<PointRef>)
    requires |ap| >= 1 && (|ap| == 1 ==> Locatable(ap[0]))
    ensures Failcheck(ap).Returned?
    ensures Failcheck(ap) == Returned(Some(TooMany(|ap|))) <==> |ap| > 1
    ensures Failcheck(ap) == Returned(Some(FirstPoint)) <==> |ap| == 1 && SplitAt(ap[0]).value == 0
    ensures Failcheck(ap) == Returned(Some(LastPoint)) <==>
      |ap| == 1 && 0 < SplitAt(ap[0]).value == |ap[0].spline.bezierPoints| - 1
    ensures Failcheck(ap) == Returned(None) <==>
      |ap| == 1 && 0 < SplitAt(ap[0]).value < |ap[0].spline.bezierPoints| - 1
  {
    if |ap| == 1 {
      var bp, i := ap[0].spline.bezierPoints, SplitAt(ap[0]).value;
      assert bp[i].id == ap[0].point.id;
      if i != |bp| - 1 {
        assert bp[|bp| - 1].id != bp[i].id;
      }
    }
  }

  /** On a one-point spline the point is both first and last; the first-point message wins. */
  lemma FailcheckFirstWins(ref: PointRef)
    requires |ref.spline.bezierPoints| == 1 && ref.point.id == ref.spline.bezierPoints[0].id
    ensures Failcheck([ref]) == Returned(Some(FirstPoint))
  {
  }

  /**
   * On what `get_active_points` returns from valid curves the check raises exactly
   * when nothing is selected, and every triple is locatable.
   */
  lemma FailcheckOnActivePoints(objs: seq<Object>)
    requires forall o :: o in objs && o.CurveObject? ==> o.data.Valid()
    ensures var ap := Resolved(ControlPointsOnly, objs);
      (forall t :: 0 <= t < |ap| ==> Locatable(ap[t])) &&
      (Failcheck(ap) == Raised <==> |ap| == 0)
  {
    var ap := Resolved(ControlPointsOnly, objs);
    ResolvedSound(ControlPointsOnly, objs);
    forall t | 0 <= t < |ap|
      ensures Locatable(ap[t])
    {
      ActiveLocatable(objs, ap[t]);
    }
    if |ap| == 1 {
      FailcheckDecides(ap);
    }
  }

  lemma ActiveLocatable(objs: seq<Object>, ref: PointRef)
    requires forall o :: o in objs && o.CurveObject? ==> o.data.Valid()
    requires ref.obj in objs && ref.obj.CurveObject? && RefOf(ControlPointsOnly, ref.obj, ref.obj.data.splines, ref)
    ensures Locatable(ref)
  {
    var c := ref.obj.data;
    assert c.Valid();
    assert SplineValid(c.splines[ref.index], c.nextId);
    var q :| 0 <= q < |ref.spline.bezierPoints| && ref.spline.bezierPoints[q] == ref.point;
    SplitIndexAt(ref.spline.bezierPoints, ref.point, q);
  }

  /**
   * `poll`: outside EDIT mode the operator is unavailable; in EDIT mode it is
   * available exactly when the check finds nothing, and it raises when the check does.
   */
  function Poll(mode: string, ap: seq<PointRef>): Outcome<bool> {
    if mode != "EDIT" then Returned(false)
    else match Failcheck(ap)
      case Raised => Raised
      case Returned(fail) => Returned(fail.None?)
  }

  lemma PollDecides(mode: string, ap: seq<PointRef>)
    ensures Poll(mode, ap) == Returned(true) <==> mode == "EDIT" && Failcheck(ap) == Returned(None)
    ensures Poll(mode, ap) == Raised <==> mode == "EDIT" && Failcheck(ap) == Raised
  {
  }

  /** Whether the operator is offered for valid curves depends only on the mode and the rip position. */
  lemma PollOnActivePoints(mode: string, objs: seq<Object>)
    requires forall o :: o in objs && o.CurveObject? ==> o.data.Valid()
    ensures var ap := Resolved(ControlPointsOnly, objs);
      (Poll(mode, ap) == Returned(true) <==>
        mode == "EDIT" && |ap| == 1 && SplitAt(ap[0]).Some? &&
        0 < SplitAt(ap[0]).value < |ap[0].spline.bezierPoints| - 1) &&
      (Poll(mode, ap) == Raised <==> mode == "EDIT" && |ap| == 0)
  {
    var ap := Resolved(ControlPointsOnly, objs);
    FailcheckOnActivePoints(objs);
    PollDecides(mode, ap);
    if |ap| >= 1 {
      FailcheckDecides(ap);
    }
  }

  /**
   * `execute`: resolve the active points, run the check, report and stop on a
   * refusal, otherwise rip the one active point's spline at that point. The host
   * operators act on every curve in edit mode, taken here to be the curves of
   * `objs`: the ripped curve changes, and every other one keeps its splines and
   * loses its selection.
   */
  method Execute(objs: seq<Object>) returns (r: Outcome<Report>)
    requires forall o :: o in objs && o.CurveObject? ==> o.data.Valid()
    modifies CurvesOf(objs)
    ensures forall o :: o in objs && o.CurveObject? ==> o.data.Valid()
    ensures var ap := old(Resolved(ControlPointsOnly, objs));
      (r == Raised <==> |ap| == 0) &&
      (r == Raised ==> forall d :: d in CurvesOf(objs) ==> d.splines == old(d.splines) && d.nextId == old(d.nextId))
    ensures var ap := old(Resolved(ControlPointsOnly, objs));
      |ap| > 0 && Failcheck(ap).Returned? && Failcheck(ap).value.Some? ==>
        r == Returned(Finished(Some(Message(Failcheck(ap).value.value)))) &&
        forall d :: d in CurvesOf(objs) ==> d.splines == old(d.splines) && d.nextId == old(d.nextId)
    ensures var ap := old(Resolved(ControlPointsOnly, objs));
      |ap| > 0 && Failcheck(ap) == Returned(None) ==>
        r == Returned(Finished(None)) && ap[0].obj.CurveObject? &&
        var c := ap[0].obj.data;
        c.Valid() && c in CurvesOf(objs) && SplitAt(ap[0]).Some? && ap[0].spline.kind == Bezier &&
        ap[0].index < |old(c.splines)| && ap[0].spline == old(c.splines)[ap[0].index] &&
        c.splines == Ripped(old(c.splines), ap[0].index, SplitAt(ap[0]).value, old(c.nextId)) &&
        c.nextId == old(c.nextId) + |ap[0].spline.bezierPoints| &&
        forall d :: d in CurvesOf(objs) && d != c ==> d.splines == ClearAll(old(d.splines)) && d.nextId == old(d.nextId)
  {
    var activePoints := RipBezierCurve.GetActivePoints(objs);
    var again := RipBezierCurve.GetActivePoints(objs);
    FailcheckOnActivePoints(objs);
    var fail := Failcheck(again);
    if fail.Raised? {
      return Raised;
    }
    if fail.value.Some? {
      return Returned(Finished(Some(Message(fail.value.value))));
    }
    var ref := activePoints[0];
    ResolvedSound(ControlPointsOnly, objs);
    assert ref.obj in objs && ref.obj.CurveObject?;
    assert ref.spline == ref.obj.data.splines[ref.index];
    RipBezierCurve.SplitOnPoint(ref.obj.data, ref.index, ref.point, CurvesOf(objs) - {ref.obj.data});
    return Returned(Finished(None));
  }
}
