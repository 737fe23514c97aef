/** The contour of the polygon editor: a circular sequence of vertices in which vertex `i`
    starts the edge `i -> (i + 1) mod n` and carries that edge's constraint.
    This module holds the vertex state and its predicates, the cyclic index arithmetic,
    the single-edge constraint repair, the topology operations (split an edge, remove a
    vertex) and the rigid translation of the whole contour. */
module Contour {
  import opened Options
  import opened Geometry

  /** The constraint an edge may carry: fixed orientation or fixed (integer) length. */
  datatype EdgeConstraint = Horizontal | Vertical | ConstWidth(width: int)

  /** A contour vertex; it is at the same time the start of its outgoing edge, whose
      constraint it stores. */
  datatype Point = Point(pos: Pos, constraint: Option<EdgeConstraint>) {

    predicate HasConstraint()
    {
      constraint.Some?
    }

    predicate HasHorizontal()
    {
      constraint == Some(Horizontal)
    }

    predicate HasVertical()
    {
      constraint == Some(Vertical)
    }

    predicate HasWidth()
    {
      constraint.Some? && constraint.value.ConstWidth?
    }

    /** The same vertex with its outgoing edge unconstrained. */
    function RemoveConstraint(): (p: Point)
      ensures p.pos == pos
      ensures !p.HasConstraint() && !p.HasHorizontal() && !p.HasVertical() && !p.HasWidth()
    {
      this.(constraint := None)
    }

    function ApplyHorizontal(): (p: Point)
      ensures p.pos == pos
      ensures p.HasConstraint() && p.HasHorizontal() && !p.HasVertical() && !p.HasWidth()
    {
      this.(constraint := Some(Horizontal))
    }

    function ApplyVertical(): (p: Point)
      ensures p.pos == pos
      ensures p.HasConstraint() && p.HasVertical() && !p.HasHorizontal() && !p.HasWidth()
    {
      this.(constraint := Some(Vertical))
    }

    function ApplyWidth(width: int): (p: Point)
      ensures p.pos == pos
      ensures p.HasConstraint() && p.HasWidth() && !p.HasHorizontal() && !p.HasVertical()
      ensures p.constraint.value.width == width
    {
      this.(constraint := Some(ConstWidth(width)))
    }
  }

  /** A fresh vertex, starting an unconstrained edge. */
  function NewPoint(pos: Pos): (p: Point)
    ensures p.pos == pos && !p.HasConstraint()
  {
    Point(pos, None)
  }

  /** A vertex has a constraint exactly when it has one of the three kinds, and never two kinds
      at once. */
  lemma ConstraintKinds(p: Point)
    ensures p.HasConstraint() <==> p.HasHorizontal() || p.HasVertical() || p.HasWidth()
    ensures !(p.HasHorizontal() && p.HasVertical())
    ensures !(p.HasHorizontal() && p.HasWidth()) && !(p.HasVertical() && p.HasWidth())
  {
  }

  /** Two contours agree on every edge constraint (and so on their length). */
  ghost predicate SameConstraints(a: seq<Point>, b: seq<Point>)
  {
    |a| == |b| && forall j :: 0 <= j < |a| ==> a[j].constraint == b[j].constraint
  }

  // ---------------------------------------------------------------------------
  // Cyclic index arithmetic

  /** The vertex after `i` on a contour of `n` vertices (the end of edge `i`). */
  function NextIndex(n: nat, i: nat): (r: nat)
    requires n >= 1
    ensures r < n
    ensures i < n ==> r == if i == n - 1 then 0 else i + 1
  {
    (i + 1) % n
  }

  /** The vertex before `i` on a contour of `n` vertices (the start of the edge ending at `i`).
      On an empty contour the index 0 has no predecessor: the subtraction underflows. */
  function PreviousIndex(n: nat, i: nat): (r: nat)
    requires i != 0 || n >= 1
    ensures i < n ==> r < n
    ensures i < n ==> r == if i == 0 then n - 1 else i - 1
  {
    if i == 0 then n - 1 else i - 1
  }

  /** Stepping forward and stepping back undo each other. */
  lemma IndexInverse(n: nat, i: nat)
    requires 1 <= n && i < n
    ensures PreviousIndex(n, NextIndex(n, i)) == i
    ensures NextIndex(n, PreviousIndex(n, i)) == i
  {
  }

  /** The vertex `k` steps behind `i`. */
  function StepBack(n: nat, i: nat, k: nat): (r: nat)
    requires i < n && k < n
    ensures r < n
  {
    if k <= i then i - k else i + n - k
  }

  /** The vertex `k` steps ahead of `i`. */
  function StepForward(n: nat, i: nat, k: nat): (r: nat)
    requires i < n && k < n
    ensures r < n
  {
    if i + k < n then i + k else i + k - n
  }

  /** How many steps back from `i` the vertex `j` lies. */
  function DistBack(n: nat, i: nat, j: nat): (k: nat)
    requires i < n && j < n
    ensures k < n && StepBack(n, i, k) == j
  {
    if j <= i then i - j else i + n - j
  }

  /** How many steps ahead of `i` the vertex `j` lies. */
  function DistForward(n: nat, i: nat, j: nat): (k: nat)
    requires i < n && j < n
    ensures k < n && StepForward(n, i, k) == j
  {
    if i <= j then j - i else j + n - i
  }

  /** `StepBack` is the `k`-fold `PreviousIndex`, and visits each vertex once per lap. */
  lemma StepBackFacts(n: nat, i: nat, k: nat)
    requires i < n && k < n
    ensures DistBack(n, i, StepBack(n, i, k)) == k
    ensures k + 1 < n ==> StepBack(n, i, k + 1) == PreviousIndex(n, StepBack(n, i, k))
    ensures k + 1 == n ==> PreviousIndex(n, StepBack(n, i, k)) == i
  {
  }

  /** `StepForward` is the `k`-fold `NextIndex`, and visits each vertex once per lap. */
  lemma StepForwardFacts(n: nat, i: nat, k: nat)
    requires i < n && k < n
    ensures DistForward(n, i, StepForward(n, i, k)) == k
    ensures k + 1 < n ==> StepForward(n, i, k + 1) == NextIndex(n, StepForward(n, i, k))
    ensures k + 1 == n ==> NextIndex(n, StepForward(n, i, k)) == i
  {
  }

  // ---------------------------------------------------------------------------
  // Repairing one edge

  /** The length-preserving repair of a `ConstWidth` edge: given the fixed endpoint, the
      current position of the endpoint to move and the width, the new position of that
      endpoint. The editor computes it with floating-point trigonometry; the model
      takes it as a parameter and proves nothing about the distance it produces. */
  type WidthRule = (Pos, Pos, int) -> Pos

  /** `after` is where constraint `c` puts an endpoint that stood at `before`, when the
      other endpoint of the edge is at `fixed`. */
  predicate Repaired(c: EdgeConstraint, fixed: Pos, before: Pos, after: Pos, place: WidthRule)
  {
    match c
    case Horizontal => after.y == fixed.y && after.x == before.x
    case Vertical => after.x == fixed.x && after.y == before.y
    case ConstWidth(w) => after == place(fixed, before, w)
  }

  /** The orientation part of constraint `c` holds between the endpoints `a` and `b`
      (a width constraint asks nothing here). */
  predicate Aligned(c: EdgeConstraint, a: Pos, b: Pos)
  {
    (c.Horizontal? ==> a.y == b.y) && (c.Vertical? ==> a.x == b.x)
  }

  /** Moves vertex `pointIndex` so that its edge with vertex `otherIndex` obeys `c`;
      nothing else changes. */
  function ApplyConstraintDiff(points: seq<Point>, pointIndex: nat, otherIndex: nat,
                               c: EdgeConstraint, place: WidthRule): (r: seq<Point>)
    requires pointIndex < |points| && otherIndex < |points|
    ensures |r| == |points|
    ensures c.Horizontal? ==> r[pointIndex].pos == Pos(points[pointIndex].pos.x, points[otherIndex].pos.y)
    ensures c.Vertical? ==> r[pointIndex].pos == Pos(points[otherIndex].pos.x, points[pointIndex].pos.y)
    ensures Repaired(c, points[otherIndex].pos, points[pointIndex].pos, r[pointIndex].pos, place)
    ensures Aligned(c, r[pointIndex].pos, points[otherIndex].pos)
    ensures r[pointIndex].constraint == points[pointIndex].constraint
    ensures forall j :: 0 <= j < |r| && j != pointIndex ==> r[j] == points[j]
  {
    var fixed := points[otherIndex].pos;
    var p := points[pointIndex];
    var newPos :=
      match c
      case Horizontal => p.pos.(y := fixed.y)
      case Vertical => p.pos.(x := fixed.x)
      case ConstWidth(w) => place(fixed, p.pos, w);
    points[pointIndex := p.(pos := newPos)]
  }

  /** After the start of edge `edgeStart` has moved, repairs the edge by moving its end.
      An unconstrained edge is left alone. */
  function AdjustMovedPointEdgeStart(points: seq<Point>, edgeStart: nat, place: WidthRule): (r: seq<Point>)
    requires edgeStart < |points|
    ensures SameConstraints(points, r)
    ensures var e := NextIndex(|points|, edgeStart);
      forall j :: 0 <= j < |r| && j != e ==> r[j] == points[j]
    ensures !points[edgeStart].HasConstraint() ==> r == points
    ensures var e := NextIndex(|points|, edgeStart);
      points[edgeStart].HasConstraint() ==>
        Repaired(points[edgeStart].constraint.value, points[edgeStart].pos, points[e].pos, r[e].pos, place)
    ensures var e := NextIndex(|points|, edgeStart);
      points[edgeStart].HasConstraint() ==> Aligned(points[edgeStart].constraint.value, r[edgeStart].pos, r[e].pos)
  {
    match points[edgeStart].constraint
    case Some(c) => ApplyConstraintDiff(points, NextIndex(|points|, edgeStart), edgeStart, c, place)
    case None => points
  }

  /** After the end `edgeEnd` of an edge has moved, repairs the edge by moving its start.
      An unconstrained edge is left alone. */
  function AdjustMovedPointEdgeEnd(points: seq<Point>, edgeEnd: nat, place: WidthRule): (r: seq<Point>)
    requires edgeEnd < |points|
    ensures SameConstraints(points, r)
    ensures var s := PreviousIndex(|points|, edgeEnd);
      forall j :: 0 <= j < |r| && j != s ==> r[j] == points[j]
    ensures var s := PreviousIndex(|points|, edgeEnd);
      !points[s].HasConstraint() ==> r == points
    ensures var s := PreviousIndex(|points|, edgeEnd);
      points[s].HasConstraint() ==>
        Repaired(points[s].constraint.value, points[edgeEnd].pos, points[s].pos, r[s].pos, place)
    ensures var s := PreviousIndex(|points|, edgeEnd);
      points[s].HasConstraint() ==> Aligned(points[s].constraint.value, r[s].pos, r[edgeEnd].pos)
  {
    var s := PreviousIndex(|points|, edgeEnd);
    match points[s].constraint
    case Some(c) => ApplyConstraintDiff(points, s, edgeEnd, c, place)
    case None => points
  }

  // ---------------------------------------------------------------------------
  // Topology: splitting an edge and removing a vertex

  /** The point halfway between the two vertices. */
  function GetMiddlePoint(start: Point, end: Point): (m: Pos)
    ensures Sub(m, start.pos) == Sub(end.pos, m)
  {
    Pos((start.pos.x + end.pos.x) / 2.0, (start.pos.y + end.pos.y) / 2.0)
  }

  /** Index `j` of the shorter of two contours that differ by the vertex at `at`, seen in the
      longer one: the vertices before `at` keep their index, the others move up by one. */
  function Shifted(at: nat, j: nat): nat
  {
    if j < at then j else j + 1
  }

  /** Splits edge `edgeStart` in two: the edge loses its constraint, and an unconstrained
      vertex at the edge's midpoint is inserted at the old index of the edge's end. */
  function AddOnEdge(points: seq<Point>, edgeStart: nat): (r: seq<Point>)
    requires edgeStart < |points|
    ensures |r| == |points| + 1
    ensures var next := NextIndex(|points|, edgeStart);
      r[next] == NewPoint(GetMiddlePoint(points[edgeStart], points[next]))
    ensures var next := NextIndex(|points|, edgeStart);
      forall j :: 0 <= j < |points| && j != edgeStart ==> r[Shifted(next, j)] == points[j]
    ensures var next := NextIndex(|points|, edgeStart);
      r[Shifted(next, edgeStart)] == points[edgeStart].RemoveConstraint()
  {
    var cleared := points[edgeStart := points[edgeStart].RemoveConstraint()];
    var next := NextIndex(|cleared|, edgeStart);
    var mid := GetMiddlePoint(cleared[edgeStart], cleared[next]);
    cleared[..next] + [NewPoint(mid)] + cleared[next..]
  }

  /** Removes vertex `pointIndex`; its predecessor now starts the merged edge, which is
      unconstrained. */
  function RemoveAt(points: seq<Point>, pointIndex: nat): (r: seq<Point>)
    requires pointIndex < |points|
    ensures |r| == |points| - 1
    ensures forall j :: 0 <= j < |r| ==> r[j].pos == points[Shifted(pointIndex, j)].pos
    ensures var prev := PreviousIndex(|points|, pointIndex);
      forall j :: 0 <= j < |r| ==>
        r[j].constraint == if Shifted(pointIndex, j) == prev then None else points[Shifted(pointIndex, j)].constraint
  {
    var prev := PreviousIndex(|points|, pointIndex);
    var cleared := points[prev := points[prev].RemoveConstraint()];
    cleared[..pointIndex] + cleared[pointIndex + 1..]
  }

  /** The position of vertex `j` of the contour that is split at `edgeStart` and then merged
      back. */
  lemma RemoveUndoesAddPos(points: seq<Point>, edgeStart: nat, j: nat)
    requires edgeStart < |points| && j < |points|
    ensures RemoveAt(AddOnEdge(points, edgeStart), NextIndex(|points|, edgeStart))[j].pos == points[j].pos
  {
    var next := NextIndex(|points|, edgeStart);
    var added := AddOnEdge(points, edgeStart);
    if j == edgeStart {
      assert added[Shifted(next, j)] == points[edgeStart].RemoveConstraint();
    } else {
      assert added[Shifted(next, j)] == points[j];
    }
  }

  /** The constraint of vertex `j` of the contour that is split at `edgeStart` and then merged
      back: the split edge has lost its constraint, every other edge keeps its own. */
  lemma RemoveUndoesAddConstraint(points: seq<Point>, edgeStart: nat, j: nat)
    requires edgeStart < |points| && j < |points|
    ensures RemoveAt(AddOnEdge(points, edgeStart), NextIndex(|points|, edgeStart))[j].constraint
         == if j == edgeStart then None else points[j].constraint
  {
    var n := |points|;
    var next := NextIndex(n, edgeStart);
    var added := AddOnEdge(points, edgeStart);
    var prev := PreviousIndex(n + 1, next);
    assert prev == Shifted(next, edgeStart);
    if j != edgeStart {
      assert added[Shifted(next, j)] == points[j] && Shifted(next, j) != prev;
    }
  }

  /** Removing the vertex that splitting an edge inserted gives back the contour, except
      that the split edge has lost its constraint. */
  lemma RemoveUndoesAdd(points: seq<Point>, edgeStart: nat)
    requires edgeStart < |points|
    ensures RemoveAt(AddOnEdge(points, edgeStart), NextIndex(|points|, edgeStart))
         == points[edgeStart := points[edgeStart].RemoveConstraint()]
  {
    var back := RemoveAt(AddOnEdge(points, edgeStart), NextIndex(|points|, edgeStart));
    var want := points[edgeStart := points[edgeStart].RemoveConstraint()];
    forall j | 0 <= j < |points|
      ensures back[j] == want[j]
    {
      RemoveUndoesAddPos(points, edgeStart, j);
      RemoveUndoesAddConstraint(points, edgeStart, j);
    }
  }

  // ---------------------------------------------------------------------------
  // Rigid translation

  /** Displaces every vertex by `diff`; constraints are untouched. */
  function UpdatePositionAll(points: seq<Point>, diff: Vec2): (r: seq<Point>)
    ensures |r| == |points|
    ensures forall j :: 0 <= j < |r| ==> r[j].pos == Add(points[j].pos, diff)
    ensures forall j :: 0 <= j < |r| ==> r[j].constraint == points[j].constraint
  {
    if |points| == 0 then []
    else [points[0].(pos := Add(points[0].pos, diff))] + UpdatePositionAll(points[1..], diff)
  }

  /** A translation keeps the displacement between every two vertices, so no constraint
      can become violated by it. */
  lemma TranslationKeepsShape(points: seq<Point>, diff: Vec2, i: nat, j: nat)
    requires i < |points| && j < |points|
    ensures var r := UpdatePositionAll(points, diff);
      Sub(r[i].pos, r[j].pos) == Sub(points[i].pos, points[j].pos)
  {
    SubAddAdd(points[i].pos, points[j].pos, diff);
  }

  /** Translating back by the opposite displacement restores the contour. */
  lemma TranslationInverse(points: seq<Point>, diff: Vec2)
    ensures UpdatePositionAll(UpdatePositionAll(points, diff), Neg(diff)) == points
  {
    var r := UpdatePositionAll(UpdatePositionAll(points, diff), Neg(diff));
    forall j | 0 <= j < |points|
      ensures r[j] == points[j]
    {
      AddNeg(points[j].pos, diff);
    }
  }

  // ---------------------------------------------------------------------------
  // Neighbour-edge guards used before making an edge horizontal or vertical

  /** Whether the edge before or the edge after edge `edgeIndex` is vertical. */
  predicate NeighbourEdgesHaveVertical(points: seq<Point>, edgeIndex: nat)
    requires edgeIndex < |points|
  {
    points[PreviousIndex(|points|, edgeIndex)].HasVertical()
    || points[NextIndex(|points|, edgeIndex)].HasVertical()
  }

  /** Whether the edge before or the edge after edge `edgeIndex` is horizontal. */
  predicate NeighbourEdgesHaveHorizontal(points: seq<Point>, edgeIndex: nat)
    requires edgeIndex < |points|
  {
    points[PreviousIndex(|points|, edgeIndex)].HasHorizontal()
    || points[NextIndex(|points|, edgeIndex)].HasHorizontal()
  }

  /** No two consecutive edges are both vertical. */
  ghost predicate NoAdjacentVertical(points: seq<Point>)
    requires |points| >= 1
  {
    forall i :: 0 <= i < |points| ==>
      !(points[i].HasVertical() && points[NextIndex(|points|, i)].HasVertical())
  }

  /** No two consecutive edges are both horizontal. */
  ghost predicate NoAdjacentHorizontal(points: seq<Point>)
    requires |points| >= 1
  {
    forall i :: 0 <= i < |points| ==>
      !(points[i].HasHorizontal() && points[NextIndex(|points|, i)].HasHorizontal())
  }

  /** Making an edge vertical only when the guard is off keeps vertical edges apart. */
  lemma VerticalGuardKeepsEdgesApart(points: seq<Point>, edgeIndex: nat)
    requires |points| >= 2 && edgeIndex < |points|
    requires NoAdjacentVertical(points)
    ensures var r := points[edgeIndex := points[edgeIndex].ApplyVertical()];
      NoAdjacentVertical(r) <==> !NeighbourEdgesHaveVertical(points, edgeIndex)
  {
    var n := |points|;
    var r := points[edgeIndex := points[edgeIndex].ApplyVertical()];
    var prev := PreviousIndex(n, edgeIndex);
    var next := NextIndex(n, edgeIndex);
    IndexInverse(n, edgeIndex);
    if NeighbourEdgesHaveVertical(points, edgeIndex) {
      if points[prev].HasVertical() {
        assert r[prev].HasVertical() && r[NextIndex(n, prev)].HasVertical();
      } else {
        assert r[edgeIndex].HasVertical() && r[next].HasVertical();
      }
    } else {
      forall i | 0 <= i < n
        ensures !(r[i].HasVertical() && r[NextIndex(n, i)].HasVertical())
      {
        IndexInverse(n, i);
      }
    }
  }

  /** Making an edge horizontal only when the guard is off keeps horizontal edges apart. */
  lemma HorizontalGuardKeepsEdgesApart(points: seq<Point>, edgeIndex: nat)
    requires |points| >= 2 && edgeIndex < |points|
    requires NoAdjacentHorizontal(points)
    ensures var r := points[edgeIndex := points[edgeIndex].ApplyHorizontal()];
      NoAdjacentHorizontal(r) <==> !NeighbourEdgesHaveHorizontal(points, edgeIndex)
  {
    var n := |points|;
    var r := points[edgeIndex := points[edgeIndex].ApplyHorizontal()];
    var prev := PreviousIndex(n, edgeIndex);
    var next := NextIndex(n, edgeIndex);
    IndexInverse(n, edgeIndex);
    if NeighbourEdgesHaveHorizontal(points, edgeIndex) {
      if points[prev].HasHorizontal() {
        assert r[prev].HasHorizontal() && r[NextIndex(n, prev)].HasHorizontal();
      } else {
        assert r[edgeIndex].HasHorizontal() && r[next].HasHorizontal();
      }
    } else {
      forall i | 0 <= i < n
        ensures !(r[i].HasHorizontal() && r[NextIndex(n, i)].HasHorizontal())
      {
        IndexInverse(n, i);
      }
    }
  }
}
