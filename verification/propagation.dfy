/** Propagation of a vertex move along the contour. After the moved vertex is placed,
    two walks repair the constrained edges around it: the left walk goes backwards over
    the incoming edges, the right walk forwards over the outgoing ones. A walk goes on
    past a vertex only while both edges meeting there are constrained and one of them
    keeps a constant width; it never writes the moved vertex, so it makes at most
    n - 1 repairs. */
module Propagation {
  import opened Options
  import opened Geometry
  import opened Contour

  /** The walk may pass vertex `v`: the edges meeting at `v` are both constrained and at
      least one of them has a constant width. */
  predicate ContinuesAt(points: seq<Point>, v: nat)
    requires v < |points|
  {
    var a := points[PreviousIndex(|points|, v)];
    var b := points[v];
    (a.HasConstraint() && b.HasWidth()) || (a.HasWidth() && b.HasConstraint())
  }

  /** The continuation rule read as one condition: both edges at `v` are constrained, and at
      least one of them keeps a constant width. */
  lemma ContinuesAtMeansWidthJoint(points: seq<Point>, v: nat)
    requires v < |points|
    ensures var a := points[PreviousIndex(|points|, v)];
      ContinuesAt(points, v) <==> a.HasConstraint() && points[v].HasConstraint() && (a.HasWidth() || points[v].HasWidth())
  {
  }

  /** Edge `StepBack(p, k) -> StepBack(p, k - 1)` of the original contour was repaired by the
      left walk: its start now stands where the edge's constraint puts it. */
  predicate LeftEdgeRepaired(points: seq<Point>, r: seq<Point>, p: nat, k: nat, place: WidthRule)
    requires |r| == |points| && p < |points| && 1 <= k < |points|
  {
    var a := StepBack(|points|, p, k);
    var b := StepBack(|points|, p, k - 1);
    points[a].HasConstraint()
    && Repaired(points[a].constraint.value, r[b].pos, points[a].pos, r[a].pos, place)
  }

  /** Edge `StepForward(p, k - 1) -> StepForward(p, k)` of the original contour was repaired
      by the right walk: its end now stands where the edge's constraint puts it. */
  predicate RightEdgeRepaired(points: seq<Point>, r: seq<Point>, p: nat, k: nat, place: WidthRule)
    requires |r| == |points| && p < |points| && 1 <= k < |points|
  {
    var a := StepForward(|points|, p, k - 1);
    var b := StepForward(|points|, p, k);
    points[a].HasConstraint()
    && Repaired(points[a].constraint.value, r[a].pos, points[b].pos, r[b].pos, place)
  }

  /** Only the first `steps` vertices behind `p` differ between `points` and `r`. */
  ghost predicate LeftFrame(points: seq<Point>, r: seq<Point>, p: nat, steps: nat)
    requires |r| == |points| && p < |points|
  {
    forall j :: 0 <= j < |points| && !(1 <= DistBack(|points|, p, j) <= steps) ==> r[j] == points[j]
  }

  /** Only the first `steps` vertices ahead of `p` differ between `points` and `r`. */
  ghost predicate RightFrame(points: seq<Point>, r: seq<Point>, p: nat, steps: nat)
    requires |r| == |points| && p < |points|
  {
    forall j :: 0 <= j < |points| && !(1 <= DistForward(|points|, p, j) <= steps) ==> r[j] == points[j]
  }

  /** The first `steps` edges behind `p` are repaired. */
  ghost predicate LeftRepairs(points: seq<Point>, r: seq<Point>, p: nat, steps: nat, place: WidthRule)
    requires |r| == |points| && p < |points| && steps < |points|
  {
    forall k :: 1 <= k <= steps ==> LeftEdgeRepaired(points, r, p, k, place)
  }

  /** The first `steps` edges ahead of `p` are repaired. */
  ghost predicate RightRepairs(points: seq<Point>, r: seq<Point>, p: nat, steps: nat, place: WidthRule)
    requires |r| == |points| && p < |points| && steps < |points|
  {
    forall k :: 1 <= k <= steps ==> RightEdgeRepaired(points, r, p, k, place)
  }

  /** What holds of the left walk from `p` after `steps` repairs. */
  ghost predicate LeftWalked(points: seq<Point>, r: seq<Point>, p: nat, steps: nat, place: WidthRule)
  {
    p < |points| && steps < |points|
    && SameConstraints(points, r) && r[p] == points[p]
    && LeftFrame(points, r, p, steps) && LeftRepairs(points, r, p, steps, place)
    && (forall k :: 1 <= k < steps ==> ContinuesAt(points, StepBack(|points|, p, k)))
    && (steps > 0 ==> |points| > 1 && points[PreviousIndex(|points|, p)].HasConstraint())
  }

  /** What holds of the right walk from `p` after `steps` repairs. */
  ghost predicate RightWalked(points: seq<Point>, r: seq<Point>, p: nat, steps: nat, place: WidthRule)
  {
    p < |points| && steps < |points|
    && SameConstraints(points, r) && r[p] == points[p]
    && RightFrame(points, r, p, steps) && RightRepairs(points, r, p, steps, place)
    && (forall k :: 1 <= k < steps ==> ContinuesAt(points, StepForward(|points|, p, k)))
    && (steps > 0 ==> |points| > 1 && points[p].HasConstraint())
  }

  /** The walk's stop test reads only constraints, which the walk never changes. */
  lemma ContinuesAtSameConstraints(points: seq<Point>, r: seq<Point>, v: nat)
    requires SameConstraints(points, r) && v < |points|
    ensures ContinuesAt(r, v) == ContinuesAt(points, v)
  {
    assert r[v].constraint == points[v].constraint;
    var u := PreviousIndex(|points|, v);
    assert r[u].constraint == points[u].constraint;
  }

  /** A left-walk repair writes only the next vertex behind. */
  lemma LeftStepFrame(points: seq<Point>, r: seq<Point>, p: nat, steps: nat, place: WidthRule)
    requires p < |points| && steps + 1 < |points| && |r| == |points|
    requires LeftFrame(points, r, p, steps)
    ensures LeftFrame(points, AdjustMovedPointEdgeEnd(r, StepBack(|points|, p, steps), place), p, steps + 1)
  {
    var n := |points|;
    var r' := AdjustMovedPointEdgeEnd(r, StepBack(n, p, steps), place);
    StepBackFacts(n, p, steps);
    forall j | 0 <= j < n && !(1 <= DistBack(n, p, j) <= steps + 1)
      ensures r'[j] == points[j]
    {
      assert j != StepBack(n, p, steps + 1);
    }
  }

  /** A left-walk repair repairs the next edge behind and keeps the earlier ones. */
  lemma LeftStepRepairs(points: seq<Point>, r: seq<Point>, p: nat, steps: nat, place: WidthRule)
    requires p < |points| && steps + 1 < |points|
    requires SameConstraints(points, r) && LeftFrame(points, r, p, steps)
    requires LeftRepairs(points, r, p, steps, place)
    requires points[StepBack(|points|, p, steps + 1)].HasConstraint()
    ensures LeftRepairs(points, AdjustMovedPointEdgeEnd(r, StepBack(|points|, p, steps), place), p, steps + 1, place)
  {
    var n := |points|;
    var r' := AdjustMovedPointEdgeEnd(r, StepBack(n, p, steps), place);
    StepBackFacts(n, p, steps);
    StepBackFacts(n, p, steps + 1);
    var a := StepBack(n, p, steps + 1);
    assert r[a] == points[a];
    forall k | 1 <= k <= steps
      ensures LeftEdgeRepaired(points, r', p, k, place)
    {
      StepBackFacts(n, p, k);
      StepBackFacts(n, p, k - 1);
      assert LeftEdgeRepaired(points, r, p, k, place);
      assert r'[StepBack(n, p, k)] == r[StepBack(n, p, k)];
      assert r'[StepBack(n, p, k - 1)] == r[StepBack(n, p, k - 1)];
    }
    assert LeftEdgeRepaired(points, r', p, steps + 1, place);
  }

  /** One repair of the left walk, made from the vertex `steps` behind `p` when the walk may
      go on, writes the next vertex behind and keeps every earlier repair. */
  lemma LeftStep(points: seq<Point>, r: seq<Point>, p: nat, steps: nat, place: WidthRule)
    requires LeftWalked(points, r, p, steps, place) && steps + 1 < |points|
    requires steps == 0 ==> points[PreviousIndex(|points|, p)].HasConstraint()
    requires steps > 0 ==> ContinuesAt(points, StepBack(|points|, p, steps))
    ensures LeftWalked(points, AdjustMovedPointEdgeEnd(r, StepBack(|points|, p, steps), place), p, steps + 1, place)
  {
    var n := |points|;
    assert points[StepBack(n, p, steps + 1)].HasConstraint() by {
      StepBackFacts(n, p, 0);
      StepBackFacts(n, p, steps);
    }
    LeftStepFrame(points, r, p, steps, place);
    LeftStepRepairs(points, r, p, steps, place);
    var r' := AdjustMovedPointEdgeEnd(r, StepBack(n, p, steps), place);
    forall k | 1 <= k < steps + 1
      ensures ContinuesAt(points, StepBack(n, p, k))
    {
      if k == steps {
        assert steps > 0;
      }
    }
    assert r'[p] == points[p] by {
      StepBackFacts(n, p, steps);
    }
    assert n > 1 && points[PreviousIndex(n, p)].HasConstraint();
    assert SameConstraints(points, r');
  }

  /** A right-walk repair writes only the next vertex ahead. */
  lemma RightStepFrame(points: seq<Point>, r: seq<Point>, p: nat, steps: nat, place: WidthRule)
    requires p < |points| && steps + 1 < |points| && |r| == |points|
    requires RightFrame(points, r, p, steps)
    ensures RightFrame(points, AdjustMovedPointEdgeStart(r, StepForward(|points|, p, steps), place), p, steps + 1)
  {
    var n := |points|;
    var r' := AdjustMovedPointEdgeStart(r, StepForward(n, p, steps), place);
    StepForwardFacts(n, p, steps);
    forall j | 0 <= j < n && !(1 <= DistForward(n, p, j) <= steps + 1)
      ensures r'[j] == points[j]
    {
      assert j != StepForward(n, p, steps + 1);
    }
  }

  /** A right-walk repair repairs the next edge ahead and keeps the earlier ones. */
  lemma RightStepRepairs(points: seq<Point>, r: seq<Point>, p: nat, steps: nat, place: WidthRule)
    requires p < |points| && steps + 1 < |points|
    requires SameConstraints(points, r) && r[p] == points[p] && RightFrame(points, r, p, steps)
    requires RightRepairs(points, r, p, steps, place)
    requires points[StepForward(|points|, p, steps)].HasConstraint()
    ensures RightRepairs(points, AdjustMovedPointEdgeStart(r, StepForward(|points|, p, steps), place), p, steps + 1, place)
  {
    var n := |points|;
    var r' := AdjustMovedPointEdgeStart(r, StepForward(n, p, steps), place);
    StepForwardFacts(n, p, steps);
    StepForwardFacts(n, p, steps + 1);
    var a := StepForward(n, p, steps);
    var b := StepForward(n, p, steps + 1);
    assert r[b] == points[b];
    assert r[a].constraint == points[a].constraint;
    forall k | 1 <= k <= steps
      ensures RightEdgeRepaired(points, r', p, k, place)
    {
      StepForwardFacts(n, p, k);
      StepForwardFacts(n, p, k - 1);
      assert RightEdgeRepaired(points, r, p, k, place);
      assert r'[StepForward(n, p, k)] == r[StepForward(n, p, k)];
      assert r'[StepForward(n, p, k - 1)] == r[StepForward(n, p, k - 1)];
    }
    assert RightEdgeRepaired(points, r', p, steps + 1, place);
  }

  /** One repair of the right walk, made from the vertex `steps` ahead of `p` when the walk may
      go on, writes the next vertex ahead and keeps every earlier repair. */
  lemma RightStep(points: seq<Point>, r: seq<Point>, p: nat, steps: nat, place: WidthRule)
    requires RightWalked(points, r, p, steps, place) && steps + 1 < |points|
    requires steps == 0 ==> points[p].HasConstraint()
    requires steps > 0 ==> ContinuesAt(points, StepForward(|points|, p, steps))
    ensures RightWalked(points, AdjustMovedPointEdgeStart(r, StepForward(|points|, p, steps), place), p, steps + 1, place)
  {
    var n := |points|;
    assert points[StepForward(n, p, steps)].HasConstraint() by {
      StepForwardFacts(n, p, 0);
    }
    RightStepFrame(points, r, p, steps, place);
    RightStepRepairs(points, r, p, steps, place);
    var r' := AdjustMovedPointEdgeStart(r, StepForward(n, p, steps), place);
    forall k | 1 <= k < steps + 1
      ensures ContinuesAt(points, StepForward(n, p, k))
    {
      if k == steps {
        assert steps > 0;
      }
    }
    assert r'[p] == points[p] by {
      StepForwardFacts(n, p, steps);
      IndexInverse(n, StepForward(n, p, steps));
    }
    assert n > 1 && points[p].HasConstraint();
    assert SameConstraints(points, r');
  }

  /** The left walk from `p`, which has just been moved. Returns the contour and the
      number of repairs made; the repaired vertices are the `steps` ones behind `p`. */
  method AdjustLeft(points: seq<Point>, p: nat, place: WidthRule) returns (r: seq<Point>, steps: nat)
    requires p < |points|
    ensures SameConstraints(points, r)
    ensures steps <= |points| - 1
    ensures r[p] == points[p]
    ensures LeftFrame(points, r, p, steps)
    ensures steps == 0 <==> |points| == 1 || !points[PreviousIndex(|points|, p)].HasConstraint()
    ensures forall k :: 1 <= k < steps ==> ContinuesAt(points, StepBack(|points|, p, k))
    ensures 0 < steps < |points| - 1 ==> !ContinuesAt(points, StepBack(|points|, p, steps))
    ensures LeftRepairs(points, r, p, steps, place)
  {
    var n := |points|;
    r := points;
    steps := 0;
    var left := p;
    var stop := !points[PreviousIndex(n, left)].HasConstraint();
    while !stop
      invariant LeftWalked(points, r, p, steps, place)
      invariant left == StepBack(n, p, steps)
      invariant steps == 0 ==> (stop <==> !points[PreviousIndex(n, p)].HasConstraint())
      invariant steps > 0 ==> (stop <==> !ContinuesAt(points, left))
      decreases n - steps
    {
      StepBackFacts(n, p, steps);
      if PreviousIndex(n, left) == p {
        break;
      }
      LeftStep(points, r, p, steps, place);
      r := AdjustMovedPointEdgeEnd(r, left, place);
      left := PreviousIndex(n, left);
      steps := steps + 1;
      ContinuesAtSameConstraints(points, r, left);
      var nextEdgeStart := PreviousIndex(n, left);
      var constraintAndNextWidth := r[left].HasConstraint() && r[nextEdgeStart].HasWidth();
      var widthAndNextConstraint := r[left].HasWidth() && r[nextEdgeStart].HasConstraint();
      if !constraintAndNextWidth && !widthAndNextConstraint {
        stop := true;
      }
    }
    StepBackFacts(n, p, steps);
  }

  /** The right walk from `p`, which has just been moved. Returns the contour and the
      number of repairs made; the repaired vertices are the `steps` ones ahead of `p`. */
  method AdjustRight(points: seq<Point>, p: nat, place: WidthRule) returns (r: seq<Point>, steps: nat)
    requires p < |points|
    ensures SameConstraints(points, r)
    ensures steps <= |points| - 1
    ensures r[p] == points[p]
    ensures RightFrame(points, r, p, steps)
    ensures steps == 0 <==> |points| == 1 || !points[p].HasConstraint()
    ensures forall k :: 1 <= k < steps ==> ContinuesAt(points, StepForward(|points|, p, k))
    ensures 0 < steps < |points| - 1 ==> !ContinuesAt(points, StepForward(|points|, p, steps))
    ensures RightRepairs(points, r, p, steps, place)
  {
    var n := |points|;
    r := points;
    steps := 0;
    var right := p;
    var stop := !points[right].HasConstraint();
    while !stop
      invariant RightWalked(points, r, p, steps, place)
      invariant right == StepForward(n, p, steps)
      invariant steps == 0 ==> (stop <==> !points[p].HasConstraint())
      invariant steps > 0 ==> (stop <==> !ContinuesAt(points, right))
      decreases n - steps
    {
      StepForwardFacts(n, p, steps);
      if NextIndex(n, right) == p {
        break;
      }
      RightStep(points, r, p, steps, place);
      r := AdjustMovedPointEdgeStart(r, right, place);
      var currentEdgeIndex := right;
      right := NextIndex(n, right);
      steps := steps + 1;
      IndexInverse(n, currentEdgeIndex);
      ContinuesAtSameConstraints(points, r, right);
      var constraintAndNextWidth := r[currentEdgeIndex].HasConstraint() && r[right].HasWidth();
      var widthAndNextConstraint := r[currentEdgeIndex].HasWidth() && r[right].HasConstraint();
      if !constraintAndNextWidth && !widthAndNextConstraint {
        stop := true;
      }
    }
    StepForwardFacts(n, p, steps);
  }

  /** The edge `StepForward(p, k - 1) -> StepForward(p, k)` is constrained and, in `r`, its
      orientation constraint holds. */
  predicate RightEdgeAligned(points: seq<Point>, r: seq<Point>, p: nat, k: nat)
    requires |r| == |points| && p < |points| && 1 <= k < |points|
  {
    var a := StepForward(|points|, p, k - 1);
    var b := StepForward(|points|, p, k);
    points[a].HasConstraint() && Aligned(points[a].constraint.value, r[a].pos, r[b].pos)
  }

  /** The edge `StepBack(p, k) -> StepBack(p, k - 1)` is constrained and, in `r`, its
      orientation constraint holds. */
  predicate LeftEdgeAligned(points: seq<Point>, r: seq<Point>, p: nat, k: nat)
    requires |r| == |points| && p < |points| && 1 <= k < |points|
  {
    var a := StepBack(|points|, p, k);
    var b := StepBack(|points|, p, k - 1);
    points[a].HasConstraint() && Aligned(points[a].constraint.value, r[a].pos, r[b].pos)
  }

  /** Vertex `j` is one of the `leftSteps` vertices behind `p` or of the `rightSteps` ones
      ahead of it: the vertices a propagation may write. */
  predicate Reached(n: nat, p: nat, leftSteps: nat, rightSteps: nat, j: nat)
    requires p < n && j < n
  {
    1 <= DistBack(n, p, j) <= leftSteps || 1 <= DistForward(n, p, j) <= rightSteps
  }

  /** Contours with the same constraints have the same stop rule everywhere. */
  lemma SameStops(a: seq<Point>, b: seq<Point>)
    requires SameConstraints(a, b)
    ensures forall v :: 0 <= v < |a| ==> ContinuesAt(b, v) == ContinuesAt(a, v)
  {
    forall v | 0 <= v < |a|
      ensures ContinuesAt(b, v) == ContinuesAt(a, v)
    {
      ContinuesAtSameConstraints(a, b, v);
    }
  }

  /** What a move of vertex `p` followed by the left walk and the right walk leaves
      in place: the shared hypotheses of the lemmas below. */
  ghost predicate Propagated(points: seq<Point>, moved: seq<Point>, afterLeft: seq<Point>, r: seq<Point>,
                             p: nat, leftSteps: nat, rightSteps: nat)
  {
    p < |points| && |moved| == |points| && |afterLeft| == |points| && |r| == |points|
    && leftSteps < |points| && rightSteps < |points|
    && SameConstraints(points, moved) && (forall j :: 0 <= j < |points| && j != p ==> moved[j] == points[j])
    && SameConstraints(moved, afterLeft) && LeftFrame(moved, afterLeft, p, leftSteps)
    && SameConstraints(afterLeft, r) && RightFrame(afterLeft, r, p, rightSteps)
  }

  /** Only the walked vertices and the moved one differ from the original contour. */
  lemma PropagatedFrame(points: seq<Point>, moved: seq<Point>, afterLeft: seq<Point>, r: seq<Point>,
                        p: nat, leftSteps: nat, rightSteps: nat)
    requires Propagated(points, moved, afterLeft, r, p, leftSteps, rightSteps)
    ensures forall j :: 0 <= j < |points| && j != p && !Reached(|points|, p, leftSteps, rightSteps, j) ==>
      r[j] == points[j]
  {
    forall j | 0 <= j < |points| && j != p && !Reached(|points|, p, leftSteps, rightSteps, j)
      ensures r[j] == points[j]
    {
      assert afterLeft[j] == moved[j];
    }
  }

  /** The right walk's repairs, stated against the original contour. A repaired end that the
      left walk did not write stood at its original position before the repair. */
  lemma PropagatedRightRepairs(points: seq<Point>, moved: seq<Point>, afterLeft: seq<Point>, r: seq<Point>,
                               p: nat, leftSteps: nat, rightSteps: nat, place: WidthRule)
    requires Propagated(points, moved, afterLeft, r, p, leftSteps, rightSteps)
    requires RightRepairs(afterLeft, r, p, rightSteps, place)
    ensures forall k :: (1 <= k <= rightSteps && !Reached(|points|, p, leftSteps, 0, StepForward(|points|, p, k)))
                        ==> RightEdgeRepaired(points, r, p, k, place)
    ensures forall k :: 1 <= k <= rightSteps ==> RightEdgeAligned(points, r, p, k)
  {
    var n := |points|;
    forall k | 1 <= k <= rightSteps
      ensures !Reached(n, p, leftSteps, 0, StepForward(n, p, k)) ==> RightEdgeRepaired(points, r, p, k, place)
      ensures RightEdgeAligned(points, r, p, k)
    {
      assert RightEdgeRepaired(afterLeft, r, p, k, place);
      var a := StepForward(n, p, k - 1);
      var b := StepForward(n, p, k);
      StepForwardFacts(n, p, k);
      assert afterLeft[a].constraint == moved[a].constraint == points[a].constraint;
      if !Reached(n, p, leftSteps, 0, b) {
        assert afterLeft[b] == moved[b] == points[b];
      }
    }
  }

  /** The left walk's repairs, stated against the original contour, for the edges whose
      endpoints the right walk did not write afterwards. */
  lemma PropagatedLeftRepairs(points: seq<Point>, moved: seq<Point>, afterLeft: seq<Point>, r: seq<Point>,
                              p: nat, leftSteps: nat, rightSteps: nat, place: WidthRule)
    requires Propagated(points, moved, afterLeft, r, p, leftSteps, rightSteps)
    requires LeftRepairs(moved, afterLeft, p, leftSteps, place)
    ensures forall k :: (1 <= k <= leftSteps
                         && !Reached(|points|, p, 0, rightSteps, StepBack(|points|, p, k))
                         && !Reached(|points|, p, 0, rightSteps, StepBack(|points|, p, k - 1)))
                        ==> LeftEdgeRepaired(points, r, p, k, place) && LeftEdgeAligned(points, r, p, k)
  {
    var n := |points|;
    forall k | 1 <= k <= leftSteps
      && !Reached(n, p, 0, rightSteps, StepBack(n, p, k))
      && !Reached(n, p, 0, rightSteps, StepBack(n, p, k - 1))
      ensures LeftEdgeRepaired(points, r, p, k, place) && LeftEdgeAligned(points, r, p, k)
    {
      assert LeftEdgeRepaired(moved, afterLeft, p, k, place);
      var a := StepBack(n, p, k);
      var b := StepBack(n, p, k - 1);
      StepBackFacts(n, p, k);
      assert r[a] == afterLeft[a] && r[b] == afterLeft[b];
      assert moved[a] == points[a];
    }
  }

  /** Moves vertex `pointIndex` to `newPosition` and propagates the move, first backwards
      and then forwards. Returns the contour and the number of repairs each walk made. */
  method UpdatePosition(points: seq<Point>, pointIndex: nat, newPosition: Pos, place: WidthRule)
    returns (r: seq<Point>, leftSteps: nat, rightSteps: nat)
    requires pointIndex < |points|
    ensures SameConstraints(points, r)
    ensures r[pointIndex].pos == newPosition
    ensures leftSteps <= |points| - 1 && rightSteps <= |points| - 1
    ensures leftSteps == 0 <==> |points| == 1 || !points[PreviousIndex(|points|, pointIndex)].HasConstraint()
    ensures rightSteps == 0 <==> |points| == 1 || !points[pointIndex].HasConstraint()
    ensures forall j :: 0 <= j < |points| && j != pointIndex && !Reached(|points|, pointIndex, leftSteps, rightSteps, j) ==>
      r[j] == points[j]
    ensures !points[PreviousIndex(|points|, pointIndex)].HasConstraint() && !points[pointIndex].HasConstraint() ==>
      forall j :: 0 <= j < |points| && j != pointIndex ==> r[j] == points[j]
    ensures forall k :: 1 <= k < leftSteps ==> ContinuesAt(points, StepBack(|points|, pointIndex, k))
    ensures 0 < leftSteps < |points| - 1 ==> !ContinuesAt(points, StepBack(|points|, pointIndex, leftSteps))
    ensures forall k :: 1 <= k < rightSteps ==> ContinuesAt(points, StepForward(|points|, pointIndex, k))
    ensures 0 < rightSteps < |points| - 1 ==> !ContinuesAt(points, StepForward(|points|, pointIndex, rightSteps))
    ensures forall k :: (1 <= k <= rightSteps
                         && !Reached(|points|, pointIndex, leftSteps, 0, StepForward(|points|, pointIndex, k)))
                        ==> RightEdgeRepaired(points, r, pointIndex, k, place)
    ensures forall k :: (1 <= k <= leftSteps
                         && !Reached(|points|, pointIndex, 0, rightSteps, StepBack(|points|, pointIndex, k))
                         && !Reached(|points|, pointIndex, 0, rightSteps, StepBack(|points|, pointIndex, k - 1)))
                        ==> LeftEdgeRepaired(points, r, pointIndex, k, place)
    ensures forall k :: 1 <= k <= rightSteps ==> RightEdgeAligned(points, r, pointIndex, k)
    ensures forall k :: (1 <= k <= leftSteps
                         && !Reached(|points|, pointIndex, 0, rightSteps, StepBack(|points|, pointIndex, k))
                         && !Reached(|points|, pointIndex, 0, rightSteps, StepBack(|points|, pointIndex, k - 1)))
                        ==> LeftEdgeAligned(points, r, pointIndex, k)
  {
    var n := |points|;
    var moved := points[pointIndex := points[pointIndex].(pos := newPosition)];
    var afterLeft;
    afterLeft, leftSteps := AdjustLeft(moved, pointIndex, place);
    r, rightSteps := AdjustRight(afterLeft, pointIndex, place);
    assert SameConstraints(points, moved);
    assert Propagated(points, moved, afterLeft, r, pointIndex, leftSteps, rightSteps);
    PropagatedFrame(points, moved, afterLeft, r, pointIndex, leftSteps, rightSteps);
    SameStops(points, moved);
    SameStops(points, afterLeft);
    PropagatedRightRepairs(points, moved, afterLeft, r, pointIndex, leftSteps, rightSteps, place);
    PropagatedLeftRepairs(points, moved, afterLeft, r, pointIndex, leftSteps, rightSteps, place);
  }

  /** Dragging a vertex of a triangle whose first edge is vertical: vertex 0 of
      (0, 0), (10, 0), (5, 10) goes to (3, 3). The right walk moves vertex 1 under it, keeping
      its y, and stops there because edge 1 is unconstrained; the left walk does nothing. */
  method DragTriangleVertex() returns (r: seq<Point>, leftSteps: nat, rightSteps: nat)
    ensures leftSteps == 0 && rightSteps == 1
    ensures r == [Point(Pos(3.0, 3.0), Some(Vertical)), Point(Pos(3.0, 0.0), None), Point(Pos(5.0, 10.0), None)]
  {
    var points := [Point(Pos(0.0, 0.0), Some(Vertical)), Point(Pos(10.0, 0.0), None), Point(Pos(5.0, 10.0), None)];
    var keep: WidthRule := (fixed: Pos, before: Pos, width: int) => before;
    r, leftSteps, rightSteps := UpdatePosition(points, 0, Pos(3.0, 3.0), keep);
    assert !ContinuesAt(points, 1);
    assert rightSteps == 1;
    assert RightEdgeRepaired(points, r, 0, 1, keep);
    assert !Reached(3, 0, leftSteps, rightSteps, 2);
    assert r[0].constraint == Some(Vertical) && r[1].constraint == None && r[2].constraint == None;
  }
}
