/**
 * `rip_curve`: the implementation that handles BEZIER and POLY splines alike,
 * choosing the selection flag and the point list by the spline's kind.
 */
module RipCurve {
  import opened Curves
  import opened Rip
  import opened Resolve

  /** `range(lo, hi)`. */
  function Range(lo: int, hi: int): (r: seq<int>)
    ensures |r| == if lo < hi then hi - lo else 0
    ensures forall t :: 0 <= t < |r| ==> r[t] == lo + t
  {
    if lo < hi then seq(hi - lo, t requires 0 <= t < hi - lo => lo + t) else []
  }

  /** `indices if indices else range(len(coll))`: no indices means every index. */
  function EffectiveIndices(indices: seq<int>, n: nat): (r: seq<int>)
    ensures forall q :: 0 <= q < n ==> (q in r <==> q in indices || indices == [])
    ensures indices != [] ==> r == indices
  {
    if indices != [] then indices
    else
      var all := Range(0, n);
      assert forall q :: 0 <= q < n ==> all[q] == q && q in all;
      all
  }

  /** What `select_points(spline, indices)` makes of the spline. */
  function Selecting(s: Spline, indices: seq<int>): (r: Spline)
    requires forall t :: 0 <= t < |indices| ==> 0 <= indices[t] < |PointsCollection(s)|
    ensures r.kind == s.kind && |PointsCollection(r)| == |PointsCollection(s)|
    ensures s.kind == Nurbs ==> r == s
  {
    if s.kind == Nurbs then s
    else
      var ps := PointsCollection(s);
      var eff := EffectiveIndices(indices, |ps|);
      WithPoints(s, seq(|ps|, q requires 0 <= q < |ps| => if q in eff then WithFlag(ps[q], s.kind) else ps[q]))
  }

  /**
   * Selecting sets the kind's flag (`select_control_point` for BEZIER, `select`
   * for POLY) on the chosen points and touches nothing else.
   */
  lemma SelectingFlags(s: Spline, indices: seq<int>)
    requires forall t :: 0 <= t < |indices| ==> 0 <= indices[t] < |PointsCollection(s)|
    ensures var r := Selecting(s, indices);
      s.kind != Nurbs ==> forall q :: 0 <= q < |PointsCollection(s)| ==>
      var was, now := PointsCollection(s)[q], PointsCollection(r)[q];
      now.id == was.id && now.geometry == was.geometry &&
      now.left == was.left && now.right == was.right &&
      (s.kind == Bezier ==> now.select == was.select && (now.control <==> was.control || q in EffectiveIndices(indices, |PointsCollection(s)|))) &&
      (s.kind == Poly ==> now.control == was.control && (now.select <==> was.select || q in EffectiveIndices(indices, |PointsCollection(s)|)))
    ensures var r := Selecting(s, indices);
      (s.kind == Bezier ==> r.points == s.points) && (s.kind != Bezier ==> r.bezierPoints == s.bezierPoints)
  {
  }

  /** Selecting only ever sets flags: what was selected stays selected. */
  lemma SelectingIsAdditive(s: Spline, indices: seq<int>)
    requires forall t :: 0 <= t < |indices| ==> 0 <= indices[t] < |PointsCollection(s)|
    ensures var r := Selecting(s, indices);
      forall q :: 0 <= q < |PointsCollection(s)| ==>
        (Selected(PointsCollection(s)[q], s.kind) ==> Selected(PointsCollection(r)[q], s.kind)) &&
        (Flagged(PointsCollection(s)[q], s.kind) ==> Flagged(PointsCollection(r)[q], s.kind))
  {
    SelectingFlags(s, indices);
  }

  /** Selecting only sets flags, so a valid spline stays valid. */
  lemma SelectingValid(s: Spline, indices: seq<int>, bound: nat)
    requires forall t :: 0 <= t < |indices| ==> 0 <= indices[t] < |PointsCollection(s)|
    requires SplineValid(s, bound)
    ensures SplineValid(Selecting(s, indices), bound)
  {
    SelectingFlags(s, indices);
    var r := Selecting(s, indices);
    assert forall q :: 0 <= q < |PointsCollection(r)| ==> PointsCollection(r)[q].id == PointsCollection(s)[q].id;
  }

  /** A non-empty range selects exactly the points in it. */
  lemma SelectingRange(s: Spline, lo: nat, hi: nat)
    requires s.kind != Nurbs && lo < hi <= |PointsCollection(s)|
    ensures Selecting(s, Range(lo, hi)) == WithPoints(s, Mark(PointsCollection(s), s.kind, lo, hi))
  {
    var r := Range(lo, hi);
    forall q | 0 <= q < |PointsCollection(s)|
      ensures q in r <==> lo <= q < hi
    {
      if lo <= q < hi {
        assert r[q - lo] == q;
      }
    }
  }

  /** No indices select every point. */
  lemma SelectingNothing(s: Spline)
    requires s.kind != Nurbs && 1 <= |PointsCollection(s)|
    ensures Selecting(s, []) == WithPoints(s, Mark(PointsCollection(s), s.kind, 0, |PointsCollection(s)|))
  {
    assert EffectiveIndices([], |PointsCollection(s)|) == Range(0, |PointsCollection(s)|);
    SelectingRange(s, 0, |PointsCollection(s)|);
  }

  /**
   * `select_points`: for a BEZIER or POLY spline, sets the kind's flag on the
   * points at `indices` (on every point when `indices` is empty); other kinds
   * are left alone.
   */
  method SelectPoints(c: Curve, k: nat, indices: seq<int>)
    requires k < |c.splines| && c.Valid()
    requires forall t :: 0 <= t < |indices| ==> 0 <= indices[t] < |PointsCollection(c.splines[k])|
    modifies c
    ensures c.splines == old(c.splines)[k := Selecting(old(c.splines)[k], indices)]
    ensures c.nextId == old(c.nextId) && c.Valid()
  {
    var spline := c.splines[k];
    if spline.kind == Nurbs {
      return;
    }
    var coll := PointsCollection(spline);
    var idxs := EffectiveIndices(indices, |coll|);
    assert WithPoints(spline, coll) == spline;
    for t := 0 to |idxs|
      invariant |coll| == |PointsCollection(spline)|
      invariant c.splines == old(c.splines)[k := WithPoints(spline, coll)]
      invariant c.nextId == old(c.nextId)
      invariant forall q :: 0 <= q < |coll| ==>
        coll[q] == if q in idxs[..t] then WithFlag(PointsCollection(spline)[q], spline.kind)
                   else PointsCollection(spline)[q]
    {
      var idx := idxs[t];
      assert idxs[..t + 1] == idxs[..t] + [idx];
      coll := coll[idx := WithFlag(coll[idx], spline.kind)];
      c.splines := c.splines[k := WithPoints(spline, coll)];
    }
    assert idxs[..|idxs|] == idxs;
    assert coll == seq(|coll|, q requires 0 <= q < |coll| =>
      if q in idxs then WithFlag(PointsCollection(spline)[q], spline.kind) else PointsCollection(spline)[q]);
    assert c.splines == old(c.splines)[k := Selecting(spline, indices)];
    SelectingValid(spline, indices, c.nextId);
    UpdateValid(old(c.splines), k, Selecting(spline, indices), c.nextId, c.splines);
  }

  predicate HasFlaggedPoint(s: Spline) {
    exists q :: 0 <= q < |PointsCollection(s)| && Flagged(PointsCollection(s)[q], s.kind)
  }

  /**
   * `get_selected_spline`: the first spline, in storage order, with a point whose
   * kind's flag is set; a selected handle alone does not count.
   */
  method GetSelectedSpline(c: Curve) returns (r: Option<nat>)
    ensures r.Some? ==> r.value < |c.splines| && HasFlaggedPoint(c.splines[r.value])
    ensures r.Some? ==> forall j :: 0 <= j < r.value ==> !HasFlaggedPoint(c.splines[j])
    ensures r.None? ==> forall j :: 0 <= j < |c.splines| ==> !HasFlaggedPoint(c.splines[j])
  {
    for j := 0 to |c.splines|
      invariant forall j' :: 0 <= j' < j ==> !HasFlaggedPoint(c.splines[j'])
    {
      var spline := c.splines[j];
      var points := PointsCollection(spline);
      for q := 0 to |points|
        invariant forall q' :: 0 <= q' < q ==> !Flagged(points[q'], spline.kind)
      {
        if Flagged(points[q], spline.kind) {
          return Some(j);
        }
      }
    }
    return None;
  }

  /**
   * `copy_spline`: deselect everything, select every point of spline `k`,
   * duplicate, and return the spline that is then selected, which is the copy.
   */
  method CopySpline(c: Curve, k: nat, others: set<Curve>) returns (r: Option<nat>)
    requires k < |c.splines| && |PointsCollection(c.splines[k])| > 0 && c.splines[k].kind != Nurbs
    requires c !in others && c.Valid() && AllValid(others)
    modifies c, others
    ensures c.Valid() && AllValid(others)
    ensures r == Some(|old(c.splines)|)
    ensures c.splines == Duplicated(old(c.splines), k, old(c.nextId))
    ensures c.nextId == old(c.nextId) + |PointsCollection(old(c.splines)[k])|
    ensures forall d :: d in others ==> d.splines == ClearAll(old(d.splines)) && d.nextId == old(d.nextId)
  {
    ghost var S, next := c.splines, c.nextId;
    c.DeselectAll(others);
    SelectPoints(c, k, []);
    assert c.splines == Prepared(S, k) by {
      SelectingRange(ClearAll(S)[k], 0, |PointsCollection(S[k])|);
      assert Range(0, |PointsCollection(S[k])|) == EffectiveIndices([], |PointsCollection(S[k])|);
    }
    CopyPhase(S, k, next);
    c.DuplicateMove(others);
    forall d | d in others
      ensures d.splines == ClearAll(old(d.splines)) && d.nextId == old(d.nextId)
    {
      DeselectedUntouched(old(d.splines), old(d.nextId));
    }
    r := GetSelectedSpline(c);
    DuplicatedParts(S, k, next);
    forall j | 0 <= j < |S|
      ensures !HasFlaggedPoint(c.splines[j])
    {
      ClearedHasNoFlag(S[j]);
    }
    assert HasFlaggedPoint(c.splines[|S|]) by {
      assert Flagged(PointsCollection(c.splines[|S|])[0], S[k].kind);
    }
    FirstFlaggedIs(c.splines, r, |S|);
  }

  /** The spline `get_selected_spline` returns is determined: the first one with a flagged point. */
  lemma FirstFlaggedIs(T: seq<Spline>, r: Option<nat>, m: nat)
    requires m < |T| && HasFlaggedPoint(T[m]) && forall j :: 0 <= j < m ==> !HasFlaggedPoint(T[j])
    requires r.Some? ==> r.value < |T| && HasFlaggedPoint(T[r.value])
    requires r.Some? ==> forall j :: 0 <= j < r.value ==> !HasFlaggedPoint(T[j])
    requires r.None? ==> forall j :: 0 <= j < |T| ==> !HasFlaggedPoint(T[j])
    ensures r == Some(m)
  {
  }

  lemma ClearedHasNoFlag(s: Spline)
    ensures !HasFlaggedPoint(ClearSpline(s))
  {
    assert PointsCollection(ClearSpline(s)) == ClearPoints(PointsCollection(s));
  }

  /** `points = spline.points if spline.points else spline.bezier_points`, the list the split scans. */
  function ScannedPoints(s: Spline): seq<Point> {
    if |s.points| > 0 then s.points else s.bezierPoints
  }

  /** The list the split scans is `get_points_collection`'s list. */
  lemma ScannedPointsAgree(s: Spline)
    requires WellFormed(s)
    ensures ScannedPoints(s) == PointsCollection(s)
  {
  }

  /**
   * What `split_on_point`'s two `select_points` calls make of a deselected
   * duplicate: the original's range `i + 1..n` and the copy's range `0..i`, each
   * through `select_points`, where an empty range means every point.
   */
  function SelectedForDeletion(S: seq<Spline>, k: nat, i: nat, next: nat): seq<Spline>
    requires k < |S| && i < |PointsCollection(S[k])|
  {
    var n := |PointsCollection(S[k])|;
    var S4 := ClearAll(S) + [FreshCopy(S, k, next)];
    assert PointsCollection(S4[k]) == ClearPoints(PointsCollection(S[k]));
    var S5 := S4[k := Selecting(S4[k], Range(i + 1, n))];
    S5[|S| := Selecting(S5[|S|], Range(0, i))]
  }

  /** For an interior `i` both ranges are non-empty and the marks are the rip's deletion marks. */
  lemma MarkPhase(S: seq<Spline>, k: nat, i: nat, next: nat)
    requires k < |S| && S[k].kind != Nurbs && 0 < i < |PointsCollection(S[k])| - 1
    ensures SelectedForDeletion(S, k, i, next) == MarkedForDeletion(S, k, i, next)
  {
    var n := |PointsCollection(S[k])|;
    var copy := FreshCopy(S, k, next);
    var S4 := ClearAll(S) + [copy];
    assert S4[k] == ClearSpline(S[k]) && S4[|S|] == copy;
    assert PointsCollection(ClearSpline(S[k])) == ClearPoints(PointsCollection(S[k]));
    SelectingRange(ClearSpline(S[k]), i + 1, n);
    SelectingRange(copy, 0, i);
  }

  /**
   * At the first point the copy's range `0..0` is empty, so `select_points`
   * marks the whole copy for deletion instead of none of it.
   */
  lemma FirstPointMarks(S: seq<Spline>, k: nat, next: nat)
    requires k < |S| && S[k].kind != Nurbs && 2 <= |PointsCollection(S[k])|
    ensures var n := |PointsCollection(S[k])|; var copy := FreshCopy(S, k, next);
      SelectedForDeletion(S, k, 0, next) ==
        MarkedForDeletion(S, k, 0, next)[|S| := WithPoints(copy, Mark(PointsCollection(copy), S[k].kind, 0, n))]
  {
    var n := |PointsCollection(S[k])|;
    var copy := FreshCopy(S, k, next);
    SelectingRange(ClearSpline(S[k]), 1, n);
    assert Range(0, 0) == [];
    assert EffectiveIndices([], n) == Range(0, n);
    SelectingRange(copy, 0, n);
  }

  /**
   * What ripping at the first point leaves: no new spline, and the original cut
   * back to its first point, which is selected.
   */
  function FirstPointRip(S: seq<Spline>, k: nat): seq<Spline>
    requires k < |S| && 1 <= |PointsCollection(S[k])|
  {
    var ps := ClearPoints(PointsCollection(S[k]));
    ClearAll(S)[k := WithPoints(ClearSpline(S[k]), Mark(ps[..1], S[k].kind, 0, 1))]
  }

  /** The originals once the first-point marks are set: spline `k` marked from point 1 on. */
  function HeadMarked(S: seq<Spline>, k: nat): seq<Spline>
    requires k < |S|
  {
    var ps := ClearPoints(PointsCollection(S[k]));
    ClearAll(S)[k := WithPoints(ClearSpline(S[k]), Mark(ps, S[k].kind, 1, |ps|))]
  }

  /** Deleting on the originals cuts spline `k` back to its first point and keeps the others. */
  lemma HeadMarkedPruned(S: seq<Spline>, k: nat)
    requires k < |S| && 1 <= |PointsCollection(S[k])|
    ensures Pruned(HeadMarked(S, k)) ==
      ClearAll(S)[k := WithPoints(ClearSpline(S[k]), ClearPoints(PointsCollection(S[k]))[..1])]
  {
    var A := HeadMarked(S, k);
    var ps := ClearPoints(PointsCollection(S[k]));
    HeadKept(PointsCollection(S[k]), S[k].kind, 0);
    forall j | 0 <= j < |A|
      ensures Survives(A[j])
    {
      if j != k {
        ClearedKept(S[j]);
      }
    }
    PrunedKeepsEverySpline(A);
    var D := Pruned(A);
    var E := ClearAll(S)[k := WithPoints(ClearSpline(S[k]), ps[..1])];
    assert |D| == |E|;
    forall j | 0 <= j < |D|
      ensures D[j] == E[j]
    {
      assert D[j] == WithPoints(A[j], Unselected(PointsCollection(A[j]), A[j].kind));
      if j != k {
        ClearedKept(S[j]);
      }
    }
  }

  /** A copy marked throughout is emptied by the deletion. */
  lemma WholeCopyEmptied(S: seq<Spline>, k: nat, next: nat)
    requires k < |S| && 1 <= |PointsCollection(S[k])|
    ensures var copy := FreshCopy(S, k, next);
      var x := WithPoints(copy, Mark(PointsCollection(copy), S[k].kind, 0, |PointsCollection(S[k])|));
      PointsCollection(x) != [] && Unselected(PointsCollection(x), x.kind) == []
  {
    var copy := FreshCopy(S, k, next);
    var m := Mark(PointsCollection(copy), S[k].kind, 0, |PointsCollection(S[k])|);
    UnselectedKeepsSuffix(m, S[k].kind, |m|);
  }

  /** The first-point marks are the marked originals followed by the copy marked throughout. */
  lemma FirstPointMarksSplit(S: seq<Spline>, k: nat, next: nat)
    requires k < |S| && S[k].kind != Nurbs && 2 <= |PointsCollection(S[k])|
    ensures var copy := FreshCopy(S, k, next);
      SelectedForDeletion(S, k, 0, next) ==
        HeadMarked(S, k) + [WithPoints(copy, Mark(PointsCollection(copy), S[k].kind, 0, |PointsCollection(S[k])|))]
  {
    FirstPointMarks(S, k, next);
    MarkedParts(S, k, 0, next);
  }

  /** The originals with spline `k` cut back to its first point. */
  function HeadOnly(S: seq<Spline>, k: nat): seq<Spline>
    requires k < |S| && 1 <= |PointsCollection(S[k])|
  {
    ClearAll(S)[k := WithPoints(ClearSpline(S[k]), ClearPoints(PointsCollection(S[k]))[..1])]
  }

  /** Deleting the first-point marks empties the copy and cuts the original back to its first point. */
  lemma FirstPointPruned(S: seq<Spline>, k: nat, next: nat)
    requires k < |S| && S[k].kind != Nurbs && 2 <= |PointsCollection(S[k])|
    ensures Pruned(SelectedForDeletion(S, k, 0, next)) == HeadOnly(S, k)
  {
    var copy := FreshCopy(S, k, next);
    var x := WithPoints(copy, Mark(PointsCollection(copy), S[k].kind, 0, |PointsCollection(S[k])|));
    FirstPointMarksSplit(S, k, next);
    WholeCopyEmptied(S, k, next);
    PrunedAppend(HeadMarked(S, k), x);
    HeadMarkedPruned(S, k);
  }

  /** Selecting point 0 of what is left gives FirstPointRip. */
  lemma HeadReselected(S: seq<Spline>, k: nat)
    requires k < |S| && S[k].kind != Nurbs && 1 <= |PointsCollection(S[k])|
    ensures var D := HeadOnly(S, k);
      |D| == |S| && 1 <= |PointsCollection(D[k])| &&
      D[k := Selecting(D[k], [0])] == FirstPointRip(S, k)
  {
    var D := HeadOnly(S, k);
    assert [0] == Range(0, 1);
    SelectingRange(D[k], 0, 1);
  }

  /** Deleting the first-point marks and selecting point 0 again gives FirstPointRip. */
  lemma FirstPointDeletes(S: seq<Spline>, k: nat, next: nat)
    requires k < |S| && S[k].kind != Nurbs && 2 <= |PointsCollection(S[k])|
    ensures var D := Pruned(SelectedForDeletion(S, k, 0, next));
      |D| == |S| && 1 <= |PointsCollection(D[k])| &&
      D[k := Selecting(D[k], [0])] == FirstPointRip(S, k)
  {
    FirstPointPruned(S, k, next);
    HeadReselected(S, k);
  }

  /** Ripping at the first point of a spline with two or more points loses points and makes no new spline. */
  lemma FirstPointRipLoses(S: seq<Spline>, k: nat, next: nat)
    requires k < |S| && S[k].kind != Nurbs && 2 <= |PointsCollection(S[k])|
    ensures var r := FirstPointRip(S, k);
      |r| == |S| && |PointsCollection(r[k])| == 1 &&
      (forall j :: 0 <= j < |S| && j != k ==> r[j] == ClearSpline(S[j])) &&
      r != Ripped(S, k, 0, next)
  {
    RippedParts(S, k, 0, next);
  }

  /** The originals once the last-point marks are set: spline `k` marked throughout. */
  function WholeMarked(S: seq<Spline>, k: nat): seq<Spline>
    requires k < |S|
  {
    var ps := ClearPoints(PointsCollection(S[k]));
    ClearAll(S)[k := WithPoints(ClearSpline(S[k]), Mark(ps, S[k].kind, 0, |ps|))]
  }

  /** Setting an element of `A` and then the appended last element gives the two pieces side by side. */
  lemma UpdateAppended(A: seq<Spline>, y: Spline, k: nat, w: Spline, x: Spline)
    requires k < |A|
    ensures (A + [y])[k := w][|A| := x] == A[k := w] + [x]
  {
  }

  /**
   * At the last point the original's range `n..n` is empty, so `select_points`
   * marks the whole original for deletion instead of none of it: the marks are
   * the originals with spline `k` marked throughout, then the copy marked before
   * its last point.
   */
  lemma LastPointMarksSplit(S: seq<Spline>, k: nat, next: nat)
    requires k < |S| && S[k].kind != Nurbs && 2 <= |PointsCollection(S[k])|
    ensures var n := |PointsCollection(S[k])|; var copy := FreshCopy(S, k, next);
      SelectedForDeletion(S, k, n - 1, next) ==
        WholeMarked(S, k) + [WithPoints(copy, Mark(PointsCollection(copy), S[k].kind, 0, n - 1))]
  {
    var n := |PointsCollection(S[k])|;
    var copy, o := FreshCopy(S, k, next), ClearSpline(S[k]);
    var w := WithPoints(o, Mark(PointsCollection(o), S[k].kind, 0, n));
    var x := WithPoints(copy, Mark(PointsCollection(copy), S[k].kind, 0, n - 1));
    assert PointsCollection(o) == ClearPoints(PointsCollection(S[k]));
    assert Range(n, n) == [];
    SelectingNothing(o);
    SelectingRange(copy, 0, n - 1);
    UpdateAppended(ClearAll(S), copy, k, w, x);
    assert SelectedForDeletion(S, k, n - 1, next) == (ClearAll(S) + [copy])[k := w][|S| := x];
  }

  /** Setting spline `k` of the deselected originals splits them around `k`. */
  lemma ClearAllAround(S: seq<Spline>, k: nat, w: Spline)
    requires k < |S|
    ensures ClearAll(S)[k := w] == ClearAll(S[..k]) + [w] + ClearAll(S[k + 1..])
  {
    var L, R := ClearAll(S)[k := w], ClearAll(S[..k]) + [w] + ClearAll(S[k + 1..]);
    assert |L| == |R|;
    forall j | 0 <= j < |L|
      ensures L[j] == R[j]
    {
      if j > k {
        assert R[j] == ClearAll(S[k + 1..])[j - k - 1];
      }
    }
  }

  /** Deleting drops a non-empty spline whose every point is selected and handles its neighbours on their own. */
  lemma PrunedAround(A: seq<Spline>, w: Spline, B: seq<Spline>)
    requires PointsCollection(w) != [] && Unselected(PointsCollection(w), w.kind) == []
    ensures Pruned(A + [w] + B) == Pruned(A) + Pruned(B)
  {
    assert Pruned([w]) == [] by {
      assert [w][1..] == [];
    }
    PrunedConcat(A + [w], B);
    PrunedConcat(A, [w]);
  }

  /** Deleting on the originals marked throughout at `k` drops spline `k` and keeps the others. */
  lemma WholeMarkedPruned(S: seq<Spline>, k: nat)
    requires k < |S| && 1 <= |PointsCollection(S[k])|
    ensures Pruned(WholeMarked(S, k)) == ClearAll(S[..k]) + ClearAll(S[k + 1..])
  {
    var w := WholeMarked(S, k)[k];
    var m := Mark(ClearPoints(PointsCollection(S[k])), S[k].kind, 0, |PointsCollection(S[k])|);
    UnselectedKeepsSuffix(m, S[k].kind, |m|);
    ClearAllAround(S, k, w);
    PrunedAround(ClearAll(S[..k]), w, ClearAll(S[k + 1..]));
    DeselectedUntouched(S[..k], 0);
    DeselectedUntouched(S[k + 1..], 0);
  }

  /**
   * At the last index the original's range `range(n, n)` is empty, so
   * `select_points` marks the whole original and the delete drops it: the
   * curve keeps only the other splines and the copy cut to its last point, one
   * spline fewer than the rip, and the final `select_points(spline, [split_index])`
   * addresses a spline that no longer exists.
   */
  lemma LastPointDropsOriginal(S: seq<Spline>, k: nat, next: nat)
    requires k < |S| && S[k].kind != Nurbs && 2 <= |PointsCollection(S[k])|
    ensures var ps := ClearPoints(PointsCollection(S[k])); var n := |ps|;
      var D := Pruned(SelectedForDeletion(S, k, n - 1, next));
      D == ClearAll(S[..k]) + ClearAll(S[k + 1..]) +
        [WithPoints(ClearSpline(S[k]), Renumbered(ps[n - 1..], next + n - 1))] &&
      |D| == |S| && |Ripped(S, k, n - 1, next)| == |S| + 1
  {
    var n := |PointsCollection(S[k])|;
    var copy := FreshCopy(S, k, next);
    var x := WithPoints(copy, Mark(PointsCollection(copy), S[k].kind, 0, n - 1));
    LastPointMarksSplit(S, k, next);
    LastCopyKept(S, k, next);
    PrunedAppend(WholeMarked(S, k), x);
    WholeMarkedPruned(S, k);
    RippedParts(S, k, n - 1, next);
  }

  /** Deleting the copy marked before its last point keeps its last point, renumbered. */
  lemma LastCopyKept(S: seq<Spline>, k: nat, next: nat)
    requires k < |S| && 1 <= |PointsCollection(S[k])|
    ensures var ps := ClearPoints(PointsCollection(S[k])); var n := |ps|;
      var copy := FreshCopy(S, k, next);
      var x := WithPoints(copy, Mark(PointsCollection(copy), S[k].kind, 0, n - 1));
      var kept := Renumbered(ps[n - 1..], next + n - 1);
      Unselected(PointsCollection(x), x.kind) == kept && WithPoints(x, kept) == WithPoints(ClearSpline(S[k]), kept)
  {
    var ps := ClearPoints(PointsCollection(S[k]));
    TailKept(Renumbered(ps, next), S[k].kind, |ps| - 1);
    RenumberedSuffix(ps, next, |ps| - 1);
  }

  /** The first-point result keeps identities unique and below the id supply. */
  lemma FirstPointRipValid(S: seq<Spline>, k: nat, next: nat, bound: nat)
    requires k < |S| && 1 <= |PointsCollection(S[k])| && next <= bound
    requires forall j :: 0 <= j < |S| ==> SplineValid(S[j], next)
    ensures var r := FirstPointRip(S, k);
      forall j :: 0 <= j < |r| ==> SplineValid(r[j], bound)
  {
    var r := FirstPointRip(S, k);
    forall j | 0 <= j < |r|
      ensures SplineValid(r[j], bound)
    {
      assert SplineValid(S[j], next);
      if j != k {
        assert PointsCollection(r[j]) == ClearPoints(PointsCollection(S[j]));
      } else {
        assert PointsCollection(r[k])[0].id == PointsCollection(S[k])[0].id;
      }
    }
  }

  /** Selecting point `i` of the original after the deletion completes the rip. */
  lemma ReselectPhase(S: seq<Spline>, k: nat, i: nat, next: nat)
    requires k < |S| && S[k].kind != Nurbs && i < |PointsCollection(S[k])|
    ensures var D := Pruned(MarkedForDeletion(S, k, i, next));
      |D| == |S| + 1 && i < |PointsCollection(D[k])| &&
      D[k := Selecting(D[k], [i])] == Ripped(S, k, i, next)
  {
    var D := Pruned(MarkedForDeletion(S, k, i, next));
    DeletePhase(S, k, i, next);
    assert [i] == Range(i, i + 1);
    SelectingRange(D[k], i, i + 1);
  }

  /** The two `select_points` calls of `split_on_point` on the deselected duplicate. */
  method SelectOutside(c: Curve, k: nat, copy: nat, i: nat, pointCount: nat, ghost S: seq<Spline>, ghost next: nat, ghost others: set<Curve>)
    requires k < |S| && copy == |S|
    requires pointCount == |PointsCollection(S[k])| && i < pointCount
    requires c.splines == ClearAll(S) + [FreshCopy(S, k, next)] && c.Valid()
    requires c !in others && Deselected(others) && AllValid(others)
    modifies c
    ensures c.splines == SelectedForDeletion(S, k, i, next) && c.nextId == old(c.nextId) && c.Valid()
    ensures Deselected(others) && AllValid(others)
  {
    assert PointsCollection(c.splines[k]) == ClearPoints(PointsCollection(S[k]));
    SelectPoints(c, k, Range(i + 1, pointCount));
    SelectPoints(c, copy, Range(0, i));
  }

  /**
   * `split_on_point`: rip spline `k` at `point`. At an interior point this is the
   * rip. At the first point the empty range `0..0` makes `select_points` mark
   * the whole copy, so the copy is deleted and the original keeps only its first
   * point. The last point is outside the model: there the original is deleted
   * and the final `select_points` goes through a reference to a removed spline.
   */
  method SplitOnPoint(c: Curve, k: nat, point: Point, others: set<Curve>)
    requires c.Valid() && k < |c.splines| && c.splines[k].kind != Nurbs
    requires SplitIndex(PointsCollection(c.splines[k]), point).Some?
    requires SplitIndex(PointsCollection(c.splines[k]), point).value < |PointsCollection(c.splines[k])| - 1
    requires c !in others && AllValid(others)
    modifies c, others
    ensures AllValid(others)
    ensures c.Valid()
    ensures var i := SplitIndex(PointsCollection(old(c.splines)[k]), point).value;
      0 < i ==> c.splines == Ripped(old(c.splines), k, i, old(c.nextId))
    ensures var i := SplitIndex(PointsCollection(old(c.splines)[k]), point).value;
      i == 0 ==> c.splines == FirstPointRip(old(c.splines), k)
    ensures c.nextId == old(c.nextId) + |PointsCollection(old(c.splines)[k])|
    ensures forall d :: d in others ==> d.splines == ClearAll(old(d.splines)) && d.nextId == old(d.nextId)
  {
    ghost var S, next := c.splines, c.nextId;
    assert SplineValid(S[k], next);
    ScannedPointsAgree(c.splines[k]);
    var points := ScannedPoints(c.splines[k]);
    var splitIndex := SplitIndex(points, point).value;
    var newSpline := CopyAndDeselect(c, k, others);
    var pointCount := |ScannedPoints(c.splines[k])|;
    FinishSplit(c, k, newSpline, splitIndex, pointCount, S, next, others);
  }

  /** The rest of `split_on_point` once the copy is made and everything is deselected. */
  method FinishSplit(c: Curve, k: nat, copy: nat, i: nat, pointCount: nat, ghost S: seq<Spline>, ghost next: nat, others: set<Curve>)
    requires k < |S| && copy == |S| && S[k].kind != Nurbs
    requires pointCount == |PointsCollection(S[k])| && i < pointCount - 1
    requires forall j :: 0 <= j < |S| ==> SplineValid(S[j], next)
    requires c.splines == ClearAll(S) + [FreshCopy(S, k, next)]
    requires c.nextId == next + |PointsCollection(S[k])|
    requires c !in others && Deselected(others) && c.Valid() && AllValid(others)
    modifies c, others
    ensures 0 < i ==> c.splines == Ripped(S, k, i, next)
    ensures i == 0 ==> c.splines == FirstPointRip(S, k)
    ensures c.nextId == old(c.nextId) && c.Valid() && AllValid(others)
    ensures forall d :: d in others ==> d.splines == old(d.splines) && d.nextId == old(d.nextId)
  {
    SelectOutside(c, k, copy, i, pointCount, S, next, others);
    DeleteAndReselect(c, k, i, S, next, others);
  }

  /** The first steps of `split_on_point`: copy the spline, then deselect everything. */
  method CopyAndDeselect(c: Curve, k: nat, others: set<Curve>) returns (copy: nat)
    requires k < |c.splines| && c.splines[k].kind != Nurbs && WellFormed(c.splines[k])
    requires |PointsCollection(c.splines[k])| > 0
    requires c !in others && c.Valid() && AllValid(others)
    modifies c, others
    ensures c.Valid() && AllValid(others)
    ensures copy == |old(c.splines)|
    ensures c.splines == ClearAll(old(c.splines)) + [FreshCopy(old(c.splines), k, old(c.nextId))]
    ensures |ScannedPoints(c.splines[k])| == |PointsCollection(old(c.splines)[k])|
    ensures c.nextId == old(c.nextId) + |PointsCollection(old(c.splines)[k])|
    ensures forall d :: d in others ==> d.splines == ClearAll(old(d.splines)) && d.nextId == old(d.nextId)
    ensures Deselected(others)
  {
    ghost var S, next := c.splines, c.nextId;
    var newSpline := CopySpline(c, k, others);
    c.DeselectAll(others);
    forall d | d in others
      ensures d.splines == ClearAll(old(d.splines)) && ClearAll(d.splines) == d.splines
    {
      DeselectedUntouched(old(d.splines), old(d.nextId));
    }
    DeselectedDuplicate(S, k, next);
    copy := newSpline.value;
  }

  /** Deselecting after the duplicate leaves a deselected curve with the copy last; the original keeps its length. */
  lemma DeselectedDuplicate(S: seq<Spline>, k: nat, next: nat)
    requires k < |S| && S[k].kind != Nurbs && WellFormed(S[k]) && |PointsCollection(S[k])| > 0
    ensures var T := ClearAll(S) + [FreshCopy(S, k, next)];
      ClearAll(Duplicated(S, k, next)) == T && |ScannedPoints(T[k])| == |PointsCollection(S[k])|
  {
    CopyPhase(S, k, next);
    var T := ClearAll(S) + [FreshCopy(S, k, next)];
    assert T[k] == ClearSpline(S[k]);
  }

  /**
   * The end of `split_on_point`: delete the marked points, then select point `i`
   * of the original, which is what is left selected when the operator ends.
   */
  method DeleteAndReselect(c: Curve, k: nat, i: nat, ghost S: seq<Spline>, ghost next: nat, others: set<Curve>)
    requires k < |S| && S[k].kind != Nurbs && i < |PointsCollection(S[k])| - 1
    requires forall j :: 0 <= j < |S| ==> SplineValid(S[j], next)
    requires c.splines == SelectedForDeletion(S, k, i, next)
    requires c.nextId == next + |PointsCollection(S[k])|
    requires c !in others && Deselected(others) && c.Valid() && AllValid(others)
    modifies c, others
    ensures 0 < i ==> c.splines == Ripped(S, k, i, next)
    ensures i == 0 ==> c.splines == FirstPointRip(S, k)
    ensures c.nextId == old(c.nextId) && c.Valid() && AllValid(others)
    ensures forall d :: d in others ==> d.splines == old(d.splines) && d.nextId == old(d.nextId)
  {
    DeleteMarked(c, others);
    Reselect(c, k, i, S, next);
  }

  /** The final `select_points` of `split_on_point`, on what the delete left. */
  method Reselect(c: Curve, k: nat, i: nat, ghost S: seq<Spline>, ghost next: nat)
    requires k < |S| && S[k].kind != Nurbs && i < |PointsCollection(S[k])| - 1
    requires forall j :: 0 <= j < |S| ==> SplineValid(S[j], next)
    requires c.splines == Pruned(SelectedForDeletion(S, k, i, next))
    requires c.nextId == next + |PointsCollection(S[k])| && c.Valid()
    modifies c
    ensures 0 < i ==> c.splines == Ripped(S, k, i, next)
    ensures i == 0 ==> c.splines == FirstPointRip(S, k)
    ensures c.nextId == old(c.nextId) && c.Valid()
  {
    if 0 < i {
      MarkPhase(S, k, i, next);
      ReselectPhase(S, k, i, next);
    } else {
      FirstPointDeletes(S, k, next);
    }
    SelectPoints(c, k, [i]);
    if 0 < i {
      RippedValid(S, k, i, next);
    } else {
      FirstPointRipValid(S, k, next, c.nextId);
    }
  }

  /** `bpy.ops.curve.delete` while every other curve in edit mode holds no selection: only `c` changes. */
  method DeleteMarked(c: Curve, others: set<Curve>)
    requires c !in others && Deselected(others) && c.Valid() && AllValid(others)
    modifies c, others
    ensures c.splines == Pruned(old(c.splines)) && c.nextId == old(c.nextId)
    ensures c.Valid() && AllValid(others)
    ensures forall d :: d in others ==> d.splines == old(d.splines) && d.nextId == old(d.nextId)
  {
    c.DeleteSelected(others);
    forall d | d in others
      ensures d.splines == old(d.splines)
    {
      DeselectedUntouched(old(d.splines), old(d.nextId));
    }
  }

  /** `get_selected_points_info`: the selected points of BEZIER and POLY splines. */
  method GetSelectedPointsInfo(objs: seq<Object>) returns (tuples: seq<PointRef>)
    ensures tuples == Resolved(AnySelection, objs)
  {
    tuples := [];
    for a := 0 to |objs|
      invariant tuples == Resolved(AnySelection, objs[..a])
    {
      var ob := objs[a];
      if ob.CurveObject? {
        label pre:
        var found := SelectedPointsOf(ob);
        assert unchanged@pre(CurvesOf(objs[..a]));
        tuples := tuples + found;
      } else {
        assert ObjectRefs(AnySelection, ob) == [];
      }
      ResolvedStep(AnySelection, objs, a);
    }
    assert objs[..|objs|] == objs;
  }

  /** The inner loops of `get_selected_points_info` for one curve object. */
  method SelectedPointsOf(ob: Object) returns (found: seq<PointRef>)
    requires ob.CurveObject?
    ensures found == ObjectRefs(AnySelection, ob)
  {
    found := [];
    var splines := ob.data.splines;
    for j := 0 to |splines|
      invariant found == SplineRefs(AnySelection, ob, splines, j)
    {
      var spl := splines[j];
      if spl.kind == Bezier || spl.kind == Poly {
        var more := SelectedPointsOfSpline(ob, j, spl);
        found := found + more;
      }
    }
  }

  /** The innermost loop of `get_selected_points_info`: the spline's points `is_sel` accepts. */
  method SelectedPointsOfSpline(ob: Object, j: nat, spl: Spline) returns (found: seq<PointRef>)
    ensures found == PointRefs(AnySelection, ob, j, spl, |PointsCollection(spl)|)
  {
    found := [];
    var allPoints := PointsCollection(spl);
    for q := 0 to |allPoints|
      invariant found == PointRefs(AnySelection, ob, j, spl, q)
    {
      if Selected(allPoints[q], spl.kind) {
        found := found + [PointRef(ob, j, spl, allPoints[q])];
      }
    }
  }
}
