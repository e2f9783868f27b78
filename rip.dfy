/**
 * What a rip does to the splines of one curve, stated once and used by both
 * implementations of `split_on_point`: the closed form `Ripped`, the properties
 * the add-on promises of it, and the lemmas that carry the host operators'
 * effects from one phase of the split to the next.
 */
module Rip {
  import opened Curves

  /**
   * `split_index`: the first position of `p` in `ps`, comparing points by
   * identity; None when `p` is not there (indexing the empty match list raises).
   */
  function SplitIndex(ps: seq<Point>, p: Point): (r: Option<nat>)
    ensures r.Some? ==> r.value < |ps| && ps[r.value].id == p.id
    ensures r.Some? ==> forall q :: 0 <= q < r.value ==> ps[q].id != p.id
    ensures r.None? ==> forall q :: 0 <= q < |ps| ==> ps[q].id != p.id
    decreases |ps|
  {
    if ps == [] then None
    else if ps[0].id == p.id then Some(0)
    else match SplitIndex(ps[1..], p)
      case None => None
      case Some(q) => Some(q + 1)
  }

  /** With distinct identities the scan finds exactly the point's own position. */
  lemma SplitIndexAt(ps: seq<Point>, p: Point, q: nat)
    requires DistinctIds(ps) && q < |ps| && ps[q].id == p.id
    ensures SplitIndex(ps, p) == Some(q)
  {
  }

  /**
   * The splines after ripping spline `k` at point `i` with fresh ids from `next`:
   * every spline deselected, spline `k` cut back to its points `0..i` with only
   * point `i` selected, and a new last spline holding fresh copies of points `i..`.
   */
  function Ripped(S: seq<Spline>, k: nat, i: nat, next: nat): seq<Spline>
    requires k < |S| && i < |PointsCollection(S[k])|
  {
    var ps := ClearPoints(PointsCollection(S[k]));
    ClearAll(S)[k := WithPoints(ClearSpline(S[k]), Mark(ps[..i + 1], S[k].kind, i, i + 1))]
      + [WithPoints(ClearSpline(S[k]), Renumbered(ps[i..], next + i))]
  }

  lemma RippedParts(S: seq<Spline>, k: nat, i: nat, next: nat)
    requires k < |S| && i < |PointsCollection(S[k])|
    ensures var r := Ripped(S, k, i, next); var ps := ClearPoints(PointsCollection(S[k]));
      |r| == |S| + 1 && r[k].kind == S[k].kind && r[|S|].kind == S[k].kind &&
      PointsCollection(r[k]) == Mark(ps[..i + 1], S[k].kind, i, i + 1) &&
      PointsCollection(r[|S|]) == Renumbered(ps[i..], next + i) &&
      (forall j :: 0 <= j < |S| && j != k ==> r[j] == ClearSpline(S[j]))
  {
  }

  /** The original keeps its first `i + 1` points, the same points with the same data. */
  lemma RippedHead(S: seq<Spline>, k: nat, i: nat, next: nat)
    requires k < |S| && i < |PointsCollection(S[k])|
    ensures var r := Ripped(S, k, i, next);
      |r| == |S| + 1 && r[k].kind == S[k].kind &&
      Ids(PointsCollection(r[k])) == Ids(PointsCollection(S[k]))[..i + 1] &&
      Geometries(PointsCollection(r[k])) == Geometries(PointsCollection(S[k]))[..i + 1]
  {
    RippedParts(S, k, i, next);
  }

  /** The new spline, last in storage order, holds fresh copies of the points from `i` on. */
  lemma RippedTail(S: seq<Spline>, k: nat, i: nat, next: nat)
    requires k < |S| && i < |PointsCollection(S[k])|
    ensures var r := Ripped(S, k, i, next); var tail := PointsCollection(r[|S|]);
      r[|S|].kind == S[k].kind &&
      Geometries(tail) == Geometries(PointsCollection(S[k]))[i..] &&
      (forall q :: 0 <= q < |tail| ==> next <= tail[q].id < next + |PointsCollection(S[k])|)
  {
    RippedParts(S, k, i, next);
  }

  /**
   * The two pieces put back together give the spline that was ripped: the split
   * point is the last point of the original and the first point of the copy.
   */
  lemma RippedRejoins(S: seq<Spline>, k: nat, i: nat, next: nat)
    requires k < |S| && i < |PointsCollection(S[k])|
    ensures var r := Ripped(S, k, i, next);
      var head := PointsCollection(r[k]); var tail := PointsCollection(r[|S|]);
      |head| == i + 1 && |tail| > 0 &&
      head[i].geometry == tail[0].geometry &&
      Geometries(head) + Geometries(tail)[1..] == Geometries(PointsCollection(S[k]))
  {
    var r := Ripped(S, k, i, next);
    var g := Geometries(PointsCollection(S[k]));
    RippedHead(S, k, i, next);
    RippedTail(S, k, i, next);
    assert Geometries(PointsCollection(r[|S|]))[1..] == g[i + 1..];
    assert g[..i + 1] + g[i + 1..] == g;
  }

  /** Afterwards exactly one point of the curve is selected: point `i` of the original. */
  lemma RippedSelection(S: seq<Spline>, k: nat, i: nat, next: nat)
    requires k < |S| && i < |PointsCollection(S[k])|
    ensures var r := Ripped(S, k, i, next);
      forall j, q :: 0 <= j < |r| && 0 <= q < |PointsCollection(r[j])| ==>
        (Selected(PointsCollection(r[j])[q], r[j].kind) <==> j == k && q == i)
  {
    var r := Ripped(S, k, i, next);
    RippedParts(S, k, i, next);
    forall j, q | 0 <= j < |r| && 0 <= q < |PointsCollection(r[j])|
      ensures Selected(PointsCollection(r[j])[q], r[j].kind) <==> j == k && q == i
    {
      if j != k && j < |S| {
        assert PointsCollection(r[j]) == ClearPoints(PointsCollection(S[j]));
      }
    }
  }

  /** Every other spline keeps its points and loses its selection. */
  lemma RippedOthers(S: seq<Spline>, k: nat, i: nat, next: nat)
    requires k < |S| && i < |PointsCollection(S[k])|
    ensures var r := Ripped(S, k, i, next);
      forall j :: 0 <= j < |S| && j != k ==> r[j] == ClearSpline(S[j])
  {
    RippedParts(S, k, i, next);
  }

  /** The cut-back original keeps a prefix of its valid identities. */
  lemma HeadValid(s: Spline, i: nat, next: nat, bound: nat)
    requires SplineValid(s, next) && next <= bound && i < |PointsCollection(s)|
    ensures var ps := ClearPoints(PointsCollection(s));
      SplineValid(WithPoints(ClearSpline(s), Mark(ps[..i + 1], s.kind, i, i + 1)), bound)
  {
    var ps := ClearPoints(PointsCollection(s));
    var h := Mark(ps[..i + 1], s.kind, i, i + 1);
    assert forall q :: 0 <= q < |h| ==> h[q].id == PointsCollection(s)[q].id;
  }

  /** The copy's identities `next + i, next + i + 1, ...` are distinct and below `next + n`. */
  lemma TailValid(s: Spline, i: nat, next: nat)
    requires WellFormed(s) && i < |PointsCollection(s)|
    ensures var ps := ClearPoints(PointsCollection(s));
      SplineValid(WithPoints(ClearSpline(s), Renumbered(ps[i..], next + i)), next + |PointsCollection(s)|)
  {
  }

  /** Ripping keeps point identities unique within each spline and below the id supply. */
  lemma RippedValid(S: seq<Spline>, k: nat, i: nat, next: nat)
    requires k < |S| && i < |PointsCollection(S[k])|
    requires forall j :: 0 <= j < |S| ==> SplineValid(S[j], next)
    ensures var r := Ripped(S, k, i, next);
      forall j :: 0 <= j < |r| ==> SplineValid(r[j], next + |PointsCollection(S[k])|)
  {
    var r := Ripped(S, k, i, next);
    var bound := next + |PointsCollection(S[k])|;
    RippedParts(S, k, i, next);
    forall j | 0 <= j < |r|
      ensures SplineValid(r[j], bound)
    {
      if j == |S| {
        TailValid(S[k], i, next);
      } else if j == k {
        HeadValid(S[k], i, next, bound);
      } else {
        ClearedValid(S[j], next, bound);
      }
    }
  }

  /** Deselect everything, then select every point of spline `k`: the state a duplicate starts from. */
  function Prepared(S: seq<Spline>, k: nat): seq<Spline>
    requires k < |S|
  {
    ClearAll(S)[k := WithPoints(ClearSpline(S[k]),
                                Mark(ClearPoints(PointsCollection(S[k])), S[k].kind, 0, |PointsCollection(S[k])|))]
  }

  /** After the duplicate: everything deselected but a fully selected copy of spline `k`, appended. */
  function Duplicated(S: seq<Spline>, k: nat, next: nat): seq<Spline>
    requires k < |S|
  {
    var P := Prepared(S, k);
    ClearAll(S) + [WithPoints(P[k], Renumbered(PointsCollection(P[k]), next))]
  }

  /** The duplicate leaves every original deselected and a fully flagged copy last. */
  lemma DuplicatedParts(S: seq<Spline>, k: nat, next: nat)
    requires k < |S| && S[k].kind != Nurbs
    ensures var D := Duplicated(S, k, next);
      |D| == |S| + 1 && D[|S|].kind == S[k].kind &&
      (forall j :: 0 <= j < |S| ==> D[j] == ClearSpline(S[j])) &&
      |PointsCollection(D[|S|])| == |PointsCollection(S[k])| &&
      (forall q :: 0 <= q < |PointsCollection(S[k])| ==> Flagged(PointsCollection(D[|S|])[q], S[k].kind))
  {
  }

  /** The copy the duplicate appends, as it stands once the selection is cleared again. */
  function FreshCopy(S: seq<Spline>, k: nat, next: nat): Spline
    requires k < |S|
  {
    WithPoints(ClearSpline(S[k]), Renumbered(ClearPoints(PointsCollection(S[k])), next))
  }

  /** The deletion marks: the original's points after `i` and the copy's points before `i`. */
  function MarkedForDeletion(S: seq<Spline>, k: nat, i: nat, next: nat): seq<Spline>
    requires k < |S|
  {
    var n := |PointsCollection(S[k])|;
    var copy := FreshCopy(S, k, next);
    (ClearAll(S) + [copy])
      [k := WithPoints(ClearSpline(S[k]), Mark(ClearPoints(PointsCollection(S[k])), S[k].kind, i + 1, n))]
      [|S| := WithPoints(copy, Mark(PointsCollection(copy), S[k].kind, 0, i))]
  }

  lemma ClearAllIdempotent(S: seq<Spline>)
    ensures ClearAll(ClearAll(S)) == ClearAll(S)
  {
    forall j | 0 <= j < |S|
      ensures ClearSpline(ClearSpline(S[j])) == ClearSpline(S[j])
    {
      assert ClearPoints(ClearPoints(S[j].points)) == ClearPoints(S[j].points);
      assert ClearPoints(ClearPoints(S[j].bezierPoints)) == ClearPoints(S[j].bezierPoints);
    }
  }

  /** No point of a deselected curve is selected. */
  lemma ClearAllNothingSelected(S: seq<Spline>)
    ensures forall j :: 0 <= j < |ClearAll(S)| ==> NothingSelected(ClearAll(S)[j])
  {
    forall j | 0 <= j < |S|
      ensures NothingSelected(ClearAll(S)[j])
    {
      var s := ClearAll(S)[j];
      assert PointsCollection(s) == ClearPoints(PointsCollection(S[j]));
    }
  }

  /** Duplicating a deselected curve copies nothing and changes nothing. */
  lemma DuplicateNothing(S: seq<Spline>, next: nat)
    ensures Originals(ClearAll(S)) == ClearAll(S)
    ensures Copies(ClearAll(S), next) == [] && CopiedCount(ClearAll(S)) == 0
  {
    var C := ClearAll(S);
    ClearAllNothingSelected(S);
    forall j | 0 <= j < |C|
      ensures !FullySelected(C[j])
    {
      assert NothingSelected(C[j]);
      if |PointsCollection(C[j])| > 0 {
        assert !Selected(PointsCollection(C[j])[0], C[j].kind);
      }
    }
    NoCopies(C, next);
  }

  /**
   * A curve in edit mode that holds no selection is left as it is by all three
   * operators: deselecting, duplicating (nothing is fully selected) and deleting
   * (nothing is selected).
   */
  lemma DeselectedUntouched(S: seq<Spline>, next: nat)
    ensures var C := ClearAll(S);
      ClearAll(C) == C && Originals(C) + Copies(C, next) == C && CopiedCount(C) == 0 && Pruned(C) == C
  {
    var C := ClearAll(S);
    ClearAllIdempotent(S);
    DuplicateNothing(S, next);
    forall j | 0 <= j < |C|
      ensures Survives(C[j]) && WithPoints(C[j], Unselected(PointsCollection(C[j]), C[j].kind)) == C[j]
    {
      ClearedKept(S[j]);
    }
    PrunedKeepsEverySpline(C);
  }

  /**
   * Duplicating after Prepared: the originals come back deselected and one copy of
   * spline `k`, fully selected, is appended; its `n` fresh ids are drawn.
   */
  lemma CopyPhase(S: seq<Spline>, k: nat, next: nat)
    requires k < |S| && |PointsCollection(S[k])| > 0 && S[k].kind != Nurbs
    ensures var P := Prepared(S, k); Originals(P) + Copies(P, next) == Duplicated(S, k, next)
    ensures CopiedCount(Prepared(S, k)) == |PointsCollection(S[k])|
    ensures ClearAll(Duplicated(S, k, next)) == ClearAll(S) + [FreshCopy(S, k, next)]
  {
    var P := Prepared(S, k);
    var n := |PointsCollection(S[k])|;
    ClearAllNothingSelected(S);
    assert FullySelected(P[k]);
    forall j | 0 <= j < |P| && j != k
      ensures !FullySelected(P[j])
    {
      assert P[j] == ClearAll(S)[j];
      assert NothingSelected(P[j]);
      if |PointsCollection(P[j])| > 0 {
        assert !Selected(PointsCollection(P[j])[0], P[j].kind);
      }
    }
    CopiesOfOne(P, k, next);
    forall j | 0 <= j < |S|
      ensures Originals(P)[j] == ClearAll(S)[j]
    {
      if j == k {
        assert ClearPoints(PointsCollection(P[k])) == ClearPoints(PointsCollection(S[k]));
        assert ClearPoints(ClearPoints(S[k].points)) == ClearPoints(S[k].points);
        assert ClearPoints(ClearPoints(S[k].bezierPoints)) == ClearPoints(S[k].bezierPoints);
      } else {
        assert NothingSelected(ClearAll(S)[j]);
      }
    }
    var dup := WithPoints(P[k], Renumbered(PointsCollection(P[k]), next));
    assert ClearPoints(Renumbered(PointsCollection(P[k]), next))
        == Renumbered(ClearPoints(PointsCollection(S[k])), next);
    assert ClearPoints(ClearPoints(S[k].points)) == ClearPoints(S[k].points);
    assert ClearPoints(ClearPoints(S[k].bezierPoints)) == ClearPoints(S[k].bezierPoints);
    assert ClearSpline(dup) == FreshCopy(S, k, next);
    ClearAllIdempotent(S);
    var D := Duplicated(S, k, next);
    assert D == ClearAll(S) + [dup];
    assert ClearAll(D) == ClearAll(ClearAll(S)) + [ClearSpline(dup)];
  }

  lemma MarkedParts(S: seq<Spline>, k: nat, i: nat, next: nat)
    requires k < |S|
    ensures var M := MarkedForDeletion(S, k, i, next);
      var ps := ClearPoints(PointsCollection(S[k])); var n := |ps|;
      |M| == |S| + 1 && M[k].kind == S[k].kind && M[|S|].kind == S[k].kind &&
      PointsCollection(M[k]) == Mark(ps, S[k].kind, i + 1, n) &&
      PointsCollection(M[|S|]) == Mark(Renumbered(ps, next), S[k].kind, 0, i) &&
      (forall j :: 0 <= j < |S| && j != k ==> M[j] == ClearSpline(S[j]))
  {
  }

  /** Deleting the marked tail of a deselected spline keeps its points `0..i`. */
  lemma HeadKept(ps: seq<Point>, kind: SplineKind, i: nat)
    requires i < |ps|
    ensures Unselected(Mark(ClearPoints(ps), kind, i + 1, |ps|), kind) == ClearPoints(ps)[..i + 1]
  {
    var m := Mark(ClearPoints(ps), kind, i + 1, |ps|);
    UnselectedKeepsPrefix(m, kind, i + 1);
    assert m[..i + 1] == ClearPoints(ps)[..i + 1];
  }

  /** Deleting the marked head of a deselected spline keeps its points from `i` on. */
  lemma TailKept(ps: seq<Point>, kind: SplineKind, i: nat)
    requires i <= |ps|
    requires forall q :: 0 <= q < |ps| ==> !Selected(ps[q], kind)
    ensures Unselected(Mark(ps, kind, 0, i), kind) == ps[i..]
  {
    var m := Mark(ps, kind, 0, i);
    UnselectedKeepsSuffix(m, kind, i);
    assert m[i..] == ps[i..];
  }

  /** Deleting leaves a spline with nothing selected as it is. */
  lemma ClearedKept(s: Spline)
    ensures Unselected(PointsCollection(ClearSpline(s)), s.kind) == PointsCollection(ClearSpline(s))
    ensures WithPoints(ClearSpline(s), PointsCollection(ClearSpline(s))) == ClearSpline(s)
  {
    var ps := PointsCollection(ClearSpline(s));
    assert ps == ClearPoints(PointsCollection(s));
    UnselectedKeepsPrefix(ps, s.kind, |ps|);
  }

  lemma RenumberedSuffix(ps: seq<Point>, base: nat, i: nat)
    requires i <= |ps|
    ensures Renumbered(ps, base)[i..] == Renumbered(ps[i..], base + i)
  {
    var a, b := Renumbered(ps, base)[i..], Renumbered(ps[i..], base + i);
    assert |a| == |b|;
    forall q | 0 <= q < |a|
      ensures a[q] == b[q]
    {
      assert a[q] == ps[i + q].(id := base + i + q);
    }
  }

  /** The deletion pass over the marks removes no spline: it cuts the original and the copy. */
  lemma PrunedMarks(S: seq<Spline>, k: nat, i: nat, next: nat)
    requires k < |S| && i < |PointsCollection(S[k])|
    ensures var ps := ClearPoints(PointsCollection(S[k]));
      Pruned(MarkedForDeletion(S, k, i, next)) ==
        ClearAll(S)[k := WithPoints(ClearSpline(S[k]), ps[..i + 1])]
          + [WithPoints(ClearSpline(S[k]), Renumbered(ps[i..], next + i))]
  {
    var M := MarkedForDeletion(S, k, i, next);
    var kind := S[k].kind;
    var ps := ClearPoints(PointsCollection(S[k]));
    var copyPts := Renumbered(ps, next);
    MarkedParts(S, k, i, next);
    HeadKept(PointsCollection(S[k]), kind, i);
    TailKept(copyPts, kind, i);
    forall j | 0 <= j < |M|
      ensures Survives(M[j])
    {
      if j != k && j != |S| {
        ClearedKept(S[j]);
      }
    }
    PrunedKeepsEverySpline(M);
    var D := Pruned(M);
    var E := ClearAll(S)[k := WithPoints(ClearSpline(S[k]), ps[..i + 1])]
               + [WithPoints(ClearSpline(S[k]), Renumbered(ps[i..], next + i))];
    assert |D| == |E|;
    forall j | 0 <= j < |D|
      ensures D[j] == E[j]
    {
      assert D[j] == WithPoints(M[j], Unselected(PointsCollection(M[j]), M[j].kind));
      if j == |S| {
        RenumberedSuffix(ps, next, i);
      } else if j != k {
        ClearedKept(S[j]);
      }
    }
  }

  /**
   * Deleting the marks and selecting point `i` of the original again gives Ripped.
   * Nothing is emptied: the original keeps `0..i`, the copy keeps `i..`.
   */
  lemma DeletePhase(S: seq<Spline>, k: nat, i: nat, next: nat)
    requires k < |S| && i < |PointsCollection(S[k])|
    ensures var D := Pruned(MarkedForDeletion(S, k, i, next));
      |D| == |S| + 1 && D[k].kind == S[k].kind && |PointsCollection(D[k])| == i + 1 &&
      D[k := WithPoints(D[k], Mark(PointsCollection(D[k]), S[k].kind, i, i + 1))] == Ripped(S, k, i, next)
  {
    PrunedMarks(S, k, i, next);
  }
}
