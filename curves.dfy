/**
 * The part of Blender's curve data that the rip add-on reads and changes: objects,
 * their curve data, splines, spline points and their selection flags, and the three
 * edit-mode operators the add-on drives (deselect all, duplicate, delete vertices).
 * The operators are modelled by their effect on the point sequences only.
 */
module Curves {

  datatype Option<T> = None | Some(value: T)

  /** The result of a Python call that may raise: `Raised` is an uncaught IndexError. */
  datatype Outcome<T> = Returned(value: T) | Raised

  /** `Spline.type`. `Nurbs` stands for every kind other than BEZIER and POLY. */
  datatype SplineKind = Bezier | Poly | Nurbs

  /** Coordinates, weights and handle positions: carried along, never inspected. */
  type Geometry = seq<real>

  /**
   * One spline point. `id` is its identity (Python compares Blender points by
   * reference). `control`, `left` and `right` are a Bezier point's
   * `select_control_point`, `select_left_handle` and `select_right_handle`;
   * `select` is the single flag of a plain spline point.
   */
  datatype Point = Point(id: nat, geometry: Geometry, control: bool, left: bool, right: bool, select: bool)

  /**
   * A spline holds its plain points in `points` and its Bezier points in
   * `bezierPoints`; Blender fills only the list that matches `kind`.
   */
  datatype Spline = Spline(kind: SplineKind, points: seq<Point>, bezierPoints: seq<Point>)

  /** A selected scene object: a curve object with its curve data, or any other object. */
  datatype Object = CurveObject(name: string, data: Curve) | OtherObject(name: string)

  predicate WellFormed(s: Spline) {
    if s.kind == Bezier then s.points == [] else s.bezierPoints == []
  }

  /** `get_points_collection`: the Bezier points of a BEZIER spline, the plain points otherwise. */
  function PointsCollection(s: Spline): (r: seq<Point>)
    ensures s.kind == Bezier ==> r == s.bezierPoints
    ensures s.kind != Bezier ==> r == s.points
  {
    if s.kind == Bezier then s.bezierPoints else s.points
  }

  /** The spline with the list that PointsCollection reads replaced by `ps`. */
  function WithPoints(s: Spline, ps: seq<Point>): (r: Spline)
    ensures PointsCollection(r) == ps && r.kind == s.kind
    ensures s.kind == Bezier ==> r.points == s.points
    ensures s.kind != Bezier ==> r.bezierPoints == s.bezierPoints
  {
    if s.kind == Bezier then s.(bezierPoints := ps) else s.(points := ps)
  }

  /** A point counts as selected: control point or either handle for Bezier, `select` otherwise. */
  predicate Selected(p: Point, kind: SplineKind) {
    if kind == Bezier then p.control || p.left || p.right else p.select
  }

  /** The one flag the add-on sets: `select_control_point` for Bezier, `select` otherwise. */
  predicate Flagged(p: Point, kind: SplineKind) {
    if kind == Bezier then p.control else p.select
  }

  function WithFlag(p: Point, kind: SplineKind): (r: Point)
    ensures Flagged(r, kind) && Selected(r, kind)
    ensures r.id == p.id && r.geometry == p.geometry
  {
    if kind == Bezier then p.(control := true) else p.(select := true)
  }

  function Cleared(p: Point): Point {
    p.(control := false, left := false, right := false, select := false)
  }

  function ClearPoints(ps: seq<Point>): seq<Point> {
    seq(|ps|, q requires 0 <= q < |ps| => Cleared(ps[q]))
  }

  function ClearSpline(s: Spline): Spline {
    s.(points := ClearPoints(s.points), bezierPoints := ClearPoints(s.bezierPoints))
  }

  function ClearAll(S: seq<Spline>): seq<Spline> {
    seq(|S|, j requires 0 <= j < |S| => ClearSpline(S[j]))
  }

  /** The points of `ps` with the kind's flag set at every index in `lo..hi` and nothing else changed. */
  function Mark(ps: seq<Point>, kind: SplineKind, lo: int, hi: int): seq<Point> {
    seq(|ps|, q requires 0 <= q < |ps| => if lo <= q < hi then WithFlag(ps[q], kind) else ps[q])
  }

  /** Copies of `ps` numbered `base`, `base + 1`, ...: the fresh points a duplicate receives. */
  function Renumbered(ps: seq<Point>, base: nat): seq<Point> {
    seq(|ps|, q requires 0 <= q < |ps| => ps[q].(id := base + q))
  }

  function Ids(ps: seq<Point>): seq<nat> {
    seq(|ps|, q requires 0 <= q < |ps| => ps[q].id)
  }

  function Geometries(ps: seq<Point>): seq<Geometry> {
    seq(|ps|, q requires 0 <= q < |ps| => ps[q].geometry)
  }

  predicate DistinctIds(ps: seq<Point>) {
    forall a, b :: 0 <= a < b < |ps| ==> ps[a].id != ps[b].id
  }

  predicate IdsBelow(ps: seq<Point>, bound: nat) {
    forall q :: 0 <= q < |ps| ==> ps[q].id < bound
  }

  predicate SplineValid(s: Spline, bound: nat) {
    WellFormed(s) && DistinctIds(PointsCollection(s)) && IdsBelow(PointsCollection(s), bound)
  }

  predicate NothingSelected(s: Spline) {
    forall q :: 0 <= q < |PointsCollection(s)| ==> !Selected(PointsCollection(s)[q], s.kind)
  }

  predicate FullySelected(s: Spline) {
    |PointsCollection(s)| > 0 &&
    forall q :: 0 <= q < |PointsCollection(s)| ==> Selected(PointsCollection(s)[q], s.kind)
  }

  /** Duplicating leaves every fully selected spline in place, deselected. */
  function Originals(S: seq<Spline>): seq<Spline> {
    seq(|S|, j requires 0 <= j < |S| => if FullySelected(S[j]) then ClearSpline(S[j]) else S[j])
  }

  /**
   * The new splines a duplicate appends: one copy of every fully selected spline,
   * in storage order, with fresh ids from `next` on and the selection carried over.
   */
  function Copies(S: seq<Spline>, next: nat): seq<Spline>
    decreases |S|
  {
    if S == [] then []
    else if FullySelected(S[0]) then
      [WithPoints(S[0], Renumbered(PointsCollection(S[0]), next))]
        + Copies(S[1..], next + |PointsCollection(S[0])|)
    else Copies(S[1..], next)
  }

  function CopiedCount(S: seq<Spline>): nat
    decreases |S|
  {
    if S == [] then 0
    else (if FullySelected(S[0]) then |PointsCollection(S[0])| else 0) + CopiedCount(S[1..])
  }

  /** The points of `ps` that are not selected, in order. */
  function Unselected(ps: seq<Point>, kind: SplineKind): seq<Point>
    decreases |ps|
  {
    if ps == [] then []
    else (if Selected(ps[0], kind) then [] else [ps[0]]) + Unselected(ps[1..], kind)
  }

  /**
   * Deleting selected vertices: every spline loses its selected points, and a
   * spline that loses all of its points disappears.
   */
  function Pruned(S: seq<Spline>): seq<Spline>
    decreases |S|
  {
    if S == [] then []
    else
      var kept := Unselected(PointsCollection(S[0]), S[0].kind);
      if kept == [] && PointsCollection(S[0]) != [] then Pruned(S[1..])
      else [WithPoints(S[0], kept)] + Pruned(S[1..])
  }

  /** A spline that deletion keeps in place: it is empty or keeps at least one point. */
  predicate Survives(s: Spline) {
    PointsCollection(s) == [] || Unselected(PointsCollection(s), s.kind) != []
  }

  /** When the first `h` points are unselected and the rest selected, Unselected keeps exactly the first `h`. */
  lemma {:induction false} UnselectedKeepsPrefix(ps: seq<Point>, kind: SplineKind, h: nat)
    requires h <= |ps|
    requires forall q :: 0 <= q < |ps| ==> (Selected(ps[q], kind) <==> q >= h)
    ensures Unselected(ps, kind) == ps[..h]
    decreases |ps|
  {
    if ps != [] {
      var h' := if h == 0 then 0 else h - 1;
      forall q | 0 <= q < |ps[1..]|
        ensures Selected(ps[1..][q], kind) <==> q >= h'
      {
        assert ps[1..][q] == ps[q + 1];
      }
      UnselectedKeepsPrefix(ps[1..], kind, h');
      if h == 0 {
        assert Selected(ps[0], kind);
      } else {
        assert !Selected(ps[0], kind);
        assert ps[..h] == [ps[0]] + ps[1..][..h'];
      }
    }
  }

  lemma {:induction false} UnselectedKeepsSuffix(ps: seq<Point>, kind: SplineKind, l: nat)
    requires l <= |ps|
    requires forall q :: 0 <= q < |ps| ==> (Selected(ps[q], kind) <==> q < l)
    ensures Unselected(ps, kind) == ps[l..]
    decreases |ps|
  {
    if l == 0 {
      UnselectedKeepsPrefix(ps, kind, |ps|);
    } else {
      forall q | 0 <= q < |ps[1..]|
        ensures Selected(ps[1..][q], kind) <==> q < l - 1
      {
        assert ps[1..][q] == ps[q + 1];
      }
      UnselectedKeepsSuffix(ps[1..], kind, l - 1);
      assert Selected(ps[0], kind);
      assert ps[1..][l - 1..] == ps[l..];
    }
  }

  /** When no spline is emptied, deletion filters each spline in place and removes none. */
  lemma {:induction false} PrunedKeepsEverySpline(S: seq<Spline>)
    requires forall j :: 0 <= j < |S| ==> Survives(S[j])
    ensures Pruned(S) == seq(|S|, j requires 0 <= j < |S| =>
                             WithPoints(S[j], Unselected(PointsCollection(S[j]), S[j].kind)))
    decreases |S|
  {
    if S != [] {
      assert forall j :: 0 <= j < |S[1..]| ==> S[1..][j] == S[j + 1];
      PrunedKeepsEverySpline(S[1..]);
      assert Survives(S[0]);
    }
  }

  /** Deletion handles the splines in order: the last one is emptied and dropped, or cut and kept. */
  lemma {:induction false} PrunedAppend(A: seq<Spline>, x: Spline)
    ensures var kept := Unselected(PointsCollection(x), x.kind);
      Pruned(A + [x]) == Pruned(A) + (if kept == [] && PointsCollection(x) != [] then [] else [WithPoints(x, kept)])
    decreases |A|
  {
    if A == [] {
      assert [x][1..] == [];
    } else {
      assert (A + [x])[1..] == A[1..] + [x];
      PrunedAppend(A[1..], x);
    }
  }

  /** Deletion handles each spline on its own, so it distributes over concatenation. */
  lemma {:induction false} PrunedConcat(A: seq<Spline>, B: seq<Spline>)
    ensures Pruned(A + B) == Pruned(A) + Pruned(B)
    decreases |A|
  {
    if A == [] {
      assert A + B == B;
    } else {
      assert (A + B)[0] == A[0] && (A + B)[1..] == A[1..] + B;
      PrunedConcat(A[1..], B);
    }
  }

  /** Duplicating with exactly one fully selected spline appends exactly one copy of it. */
  lemma {:induction false} CopiesOfOne(S: seq<Spline>, k: nat, next: nat)
    requires k < |S| && FullySelected(S[k])
    requires forall j :: 0 <= j < |S| && j != k ==> !FullySelected(S[j])
    ensures Copies(S, next) == [WithPoints(S[k], Renumbered(PointsCollection(S[k]), next))]
    ensures CopiedCount(S) == |PointsCollection(S[k])|
    decreases |S|
  {
    if k == 0 {
      NoCopies(S[1..], next + |PointsCollection(S[0])|);
    } else {
      CopiesOfOne(S[1..], k - 1, next);
    }
  }

  lemma {:induction false} NoCopies(S: seq<Spline>, next: nat)
    requires forall j :: 0 <= j < |S| ==> !FullySelected(S[j])
    ensures Copies(S, next) == [] && CopiedCount(S) == 0
    decreases |S|
  {
    if S != [] {
      NoCopies(S[1..], next);
    }
  }

  /** Deselecting a valid spline keeps it valid under any larger id bound. */
  lemma ClearedValid(s: Spline, next: nat, bound: nat)
    requires SplineValid(s, next) && next <= bound
    ensures SplineValid(ClearSpline(s), bound)
  {
    assert PointsCollection(ClearSpline(s)) == ClearPoints(PointsCollection(s));
  }

  /** Deletion keeps only points of the spline, and only unselected ones. */
  lemma {:induction false} UnselectedSub(ps: seq<Point>, kind: SplineKind)
    ensures forall t :: 0 <= t < |Unselected(ps, kind)| ==>
      Unselected(ps, kind)[t] in ps && !Selected(Unselected(ps, kind)[t], kind)
    decreases |ps|
  {
    if ps != [] {
      UnselectedSub(ps[1..], kind);
      var head := if Selected(ps[0], kind) then [] else [ps[0]];
      var rest := Unselected(ps[1..], kind);
      forall t | 0 <= t < |rest|
        ensures rest[t] in ps
      {
        var q :| 0 <= q < |ps[1..]| && ps[1..][q] == rest[t];
        assert ps[q + 1] == rest[t];
      }
      assert Unselected(ps, kind) == head + rest;
    }
  }

  /** Deletion keeps a subset of a spline's points, so their identities stay distinct. */
  lemma {:induction false} UnselectedDistinct(ps: seq<Point>, kind: SplineKind)
    requires DistinctIds(ps)
    ensures DistinctIds(Unselected(ps, kind))
    decreases |ps|
  {
    if ps != [] {
      UnselectedDistinct(ps[1..], kind);
      UnselectedSub(ps[1..], kind);
      var rest := Unselected(ps[1..], kind);
      forall t | 0 <= t < |rest|
        ensures rest[t].id != ps[0].id
      {
        var q :| 0 <= q < |ps[1..]| && ps[1..][q] == rest[t];
        assert ps[q + 1] == rest[t];
      }
    }
  }

  /** Deleting the selected points of a valid spline leaves it valid under the same bound. */
  lemma KeptValid(s: Spline, bound: nat)
    requires SplineValid(s, bound)
    ensures SplineValid(WithPoints(s, Unselected(PointsCollection(s), s.kind)), bound)
  {
    var ps := PointsCollection(s);
    var kept := Unselected(ps, s.kind);
    UnselectedDistinct(ps, s.kind);
    UnselectedSub(ps, s.kind);
    forall t | 0 <= t < |kept|
      ensures kept[t].id < bound
    {
      var q :| 0 <= q < |ps| && ps[q] == kept[t];
    }
  }

  /** Deletion keeps every spline of a valid curve valid. */
  lemma {:induction false} PrunedValid(S: seq<Spline>, bound: nat)
    requires forall j :: 0 <= j < |S| ==> SplineValid(S[j], bound)
    ensures forall j :: 0 <= j < |Pruned(S)| ==> SplineValid(Pruned(S)[j], bound)
    decreases |S|
  {
    if S != [] {
      PrunedValid(S[1..], bound);
      KeptValid(S[0], bound);
    }
  }

  /** The copies a duplicate appends are valid below the advanced id supply. */
  lemma {:induction false} CopiesValid(S: seq<Spline>, next: nat)
    requires forall j :: 0 <= j < |S| ==> WellFormed(S[j])
    ensures forall j :: 0 <= j < |Copies(S, next)| ==> SplineValid(Copies(S, next)[j], next + CopiedCount(S))
    decreases |S|
  {
    if S != [] {
      var n := |PointsCollection(S[0])|;
      if FullySelected(S[0]) {
        CopiesValid(S[1..], next + n);
        var copy := WithPoints(S[0], Renumbered(PointsCollection(S[0]), next));
        assert SplineValid(copy, next + n);
        assert SplineValid(copy, next + CopiedCount(S));
      } else {
        CopiesValid(S[1..], next);
      }
    }
  }

  /** The copies' identities are fresh: none is below the supply `next` the duplicate starts from. */
  lemma {:induction false} CopiesFresh(S: seq<Spline>, next: nat)
    ensures forall j, q :: 0 <= j < |Copies(S, next)| && 0 <= q < |PointsCollection(Copies(S, next)[j])| ==>
      next <= PointsCollection(Copies(S, next)[j])[q].id
    decreases |S|
  {
    if S != [] {
      var n := |PointsCollection(S[0])|;
      if FullySelected(S[0]) {
        CopiesFresh(S[1..], next + n);
        var C := Copies(S, next);
        var copy := WithPoints(S[0], Renumbered(PointsCollection(S[0]), next));
        assert C == [copy] + Copies(S[1..], next + n);
        forall j, q | 0 <= j < |C| && 0 <= q < |PointsCollection(C[j])|
          ensures next <= PointsCollection(C[j])[q].id
        {
          if j > 0 {
            assert C[j] == Copies(S[1..], next + n)[j - 1];
          }
        }
      } else {
        CopiesFresh(S[1..], next);
      }
    }
  }

  /** Duplicating keeps a valid curve valid under the advanced id supply. */
  lemma DuplicatedValid(S: seq<Spline>, next: nat)
    requires forall j :: 0 <= j < |S| ==> SplineValid(S[j], next)
    ensures var D := Originals(S) + Copies(S, next);
      forall j :: 0 <= j < |D| ==> SplineValid(D[j], next + CopiedCount(S))
  {
    var O, C := Originals(S), Copies(S, next);
    var bound := next + CopiedCount(S);
    CopiesValid(S, next);
    forall j | 0 <= j < |O|
      ensures SplineValid(O[j], bound)
    {
      OriginalValid(S[j], next, bound);
    }
    AppendValid(O, C, bound);
  }

  /** A spline the duplicate leaves in place stays valid under the advanced supply. */
  lemma OriginalValid(s: Spline, next: nat, bound: nat)
    requires SplineValid(s, next) && next <= bound
    ensures SplineValid(if FullySelected(s) then ClearSpline(s) else s, bound)
  {
    ClearedValid(s, next, bound);
  }

  lemma AppendValid(A: seq<Spline>, B: seq<Spline>, bound: nat)
    requires forall j :: 0 <= j < |A| ==> SplineValid(A[j], bound)
    requires forall j :: 0 <= j < |B| ==> SplineValid(B[j], bound)
    ensures forall j :: 0 <= j < |A + B| ==> SplineValid((A + B)[j], bound)
  {
    forall j | 0 <= j < |A + B|
      ensures SplineValid((A + B)[j], bound)
    {
      if j >= |A| {
        assert (A + B)[j] == B[j - |A|];
      }
    }
  }

  /** Deselecting keeps a valid curve valid. */
  lemma ClearAllValid(S: seq<Spline>, bound: nat)
    requires forall j :: 0 <= j < |S| ==> SplineValid(S[j], bound)
    ensures forall j :: 0 <= j < |ClearAll(S)| ==> SplineValid(ClearAll(S)[j], bound)
  {
    forall j | 0 <= j < |S|
      ensures SplineValid(ClearAll(S)[j], bound)
    {
      ClearedValid(S[j], bound, bound);
    }
  }

  /** Replacing one spline of a valid curve by a valid spline keeps the curve valid. */
  lemma UpdateValid(S: seq<Spline>, k: nat, s: Spline, bound: nat, T: seq<Spline>)
    requires k < |S| && SplineValid(s, bound) && T == S[k := s]
    requires forall j :: 0 <= j < |S| ==> SplineValid(S[j], bound)
    ensures forall j :: 0 <= j < |T| ==> SplineValid(T[j], bound)
  {
  }

  /** Every curve of `D` keeps Blender's data invariant. */
  ghost predicate AllValid(D: set<Curve>)
    reads D
  {
    forall d :: d in D ==> d.Valid()
  }

  /** No curve of `D` holds a selected point: deselecting changes none of them. */
  ghost predicate Deselected(D: set<Curve>)
    reads D
  {
    forall d :: d in D ==> ClearAll(d.splines) == d.splines
  }

  /**
   * The curve data of one object (`obj.data`): its splines in storage order, and
   * the supply of fresh point identities that duplication draws from.
   */
  class Curve {
    var splines: seq<Spline>
    var nextId: nat

    ghost predicate Valid()
      reads this
    {
      forall j :: 0 <= j < |splines| ==> SplineValid(splines[j], nextId)
    }

    constructor (splines: seq<Spline>, nextId: nat)
      requires forall j :: 0 <= j < |splines| ==> SplineValid(splines[j], nextId)
      ensures this.splines == splines && this.nextId == nextId && Valid()
    {
      this.splines := splines;
      this.nextId := nextId;
    }

    /**
     * `bpy.ops.curve.select_all(action='DESELECT')`: every flag of every point is
     * cleared, in this curve and in the `others` that are in edit mode with it.
     */
    method DeselectAll(others: set<Curve>)
      requires this !in others && Valid() && AllValid(others)
      modifies this, others
      ensures Valid() && AllValid(others)
      ensures splines == ClearAll(old(splines)) && nextId == old(nextId)
      ensures forall d :: d in others ==> d.splines == ClearAll(old(d.splines)) && d.nextId == old(d.nextId)
    {
      splines := ClearAll(splines);
      var rest := others;
      while rest != {}
        invariant rest <= others
        invariant splines == ClearAll(old(splines)) && nextId == old(nextId)
        invariant forall d :: d in others && d !in rest ==> d.splines == ClearAll(old(d.splines)) && d.nextId == old(d.nextId)
        invariant forall d :: d in rest ==> d.splines == old(d.splines) && d.nextId == old(d.nextId)
        decreases rest
      {
        var d :| d in rest;
        d.splines := ClearAll(d.splines);
        rest := rest - {d};
      }
      ClearAllValid(old(splines), nextId);
      forall d | d in others
        ensures d.Valid()
      {
        ClearAllValid(old(d.splines), d.nextId);
      }
    }

    /**
     * `bpy.ops.curve.duplicate_move()` with no move, in every curve in edit mode:
     * every fully selected spline is deselected and a selected copy with fresh
     * points is appended after all splines of its curve. Partially selected
     * splines are not modelled (the add-on never duplicates one).
     */
    method DuplicateMove(others: set<Curve>)
      requires this !in others && Valid() && AllValid(others)
      modifies this, others
      ensures Valid() && AllValid(others)
      ensures splines == Originals(old(splines)) + Copies(old(splines), old(nextId))
      ensures nextId == old(nextId) + CopiedCount(old(splines))
      ensures forall d :: d in others ==>
        d.splines == Originals(old(d.splines)) + Copies(old(d.splines), old(d.nextId)) &&
        d.nextId == old(d.nextId) + CopiedCount(old(d.splines))
    {
      splines, nextId := Originals(splines) + Copies(splines, nextId), nextId + CopiedCount(splines);
      var rest := others;
      while rest != {}
        invariant rest <= others
        invariant splines == Originals(old(splines)) + Copies(old(splines), old(nextId))
        invariant nextId == old(nextId) + CopiedCount(old(splines))
        invariant forall d :: d in others && d !in rest ==>
          d.splines == Originals(old(d.splines)) + Copies(old(d.splines), old(d.nextId)) &&
          d.nextId == old(d.nextId) + CopiedCount(old(d.splines))
        invariant forall d :: d in rest ==> d.splines == old(d.splines) && d.nextId == old(d.nextId)
        decreases rest
      {
        var d :| d in rest;
        d.splines, d.nextId := Originals(d.splines) + Copies(d.splines, d.nextId), d.nextId + CopiedCount(d.splines);
        rest := rest - {d};
      }
      DuplicatedValid(old(splines), old(nextId));
      forall d | d in others
        ensures d.Valid()
      {
        DuplicatedValid(old(d.splines), old(d.nextId));
      }
    }

    /** `bpy.ops.curve.delete(type="VERT")`: one pass over every spline of every curve in edit mode. */
    method DeleteSelected(others: set<Curve>)
      requires this !in others && Valid() && AllValid(others)
      modifies this, others
      ensures Valid() && AllValid(others)
      ensures splines == Pruned(old(splines)) && nextId == old(nextId)
      ensures forall d :: d in others ==> d.splines == Pruned(old(d.splines)) && d.nextId == old(d.nextId)
    {
      splines := Pruned(splines);
      var rest := others;
      while rest != {}
        invariant rest <= others
        invariant splines == Pruned(old(splines)) && nextId == old(nextId)
        invariant forall d :: d in others && d !in rest ==> d.splines == Pruned(old(d.splines)) && d.nextId == old(d.nextId)
        invariant forall d :: d in rest ==> d.splines == old(d.splines) && d.nextId == old(d.nextId)
        decreases rest
      {
        var d :| d in rest;
        d.splines := Pruned(d.splines);
        rest := rest - {d};
      }
      PrunedValid(old(splines), nextId);
      forall d | d in others
        ensures d.Valid()
      {
        PrunedValid(old(d.splines), d.nextId);
      }
    }
  }
}
