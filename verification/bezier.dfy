/** The two inner control points (handles) of a cubic curve segment. */
module Bezier {
  import opened Geometry

  /** Exactly two handles: the one near the segment's start, then the one near its end. */
  type HandlePair = s: seq<Pos> | |s| == 2 witness [Pos(0.0, 0.0), Pos(0.0, 0.0)]

  datatype BezierData = BezierData(handles: HandlePair) {

    function InnerPoints(): (r: HandlePair)
    {
      handles
    }

    /** Moves handle `index` to `newPosition`. An index past the second handle is out of bounds. */
    function UpdateInnerPointPosition(index: nat, newPosition: Pos): (b: BezierData)
      requires index < 2
      ensures b.InnerPoints()[index] == newPosition
      ensures b.InnerPoints()[1 - index] == InnerPoints()[1 - index]
    {
      BezierData(handles[index := newPosition])
    }
  }

  /** Curve data holding the two given handles. */
  function NewBezierData(innerPoints: HandlePair): (b: BezierData)
    ensures b.InnerPoints() == innerPoints
  {
    BezierData(innerPoints)
  }

  /** Moving a handle to where it already is changes nothing, and of two moves of the same
      handle only the last one is kept. */
  lemma UpdateInnerPointLastWins(b: BezierData, index: nat, p: Pos, q: Pos)
    requires index < 2
    ensures b.UpdateInnerPointPosition(index, b.InnerPoints()[index]) == b
    ensures b.UpdateInnerPointPosition(index, p).UpdateInnerPointPosition(index, q)
         == b.UpdateInnerPointPosition(index, q)
  {
  }
}
