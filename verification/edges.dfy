/** The edge list of a polygon: edge `i` joins vertex `i` to vertex `(i + 1) mod n`, and may
    carry a restriction. */
module Edges {
  import opened Options
  import opened Geometry
  import Contour

  /** A restriction on an edge: fixed orientation or fixed (integer) length. */
  datatype EdgeRestriction = Horizontal | Vertical | Width(width: int)

  datatype Edge = Edge(startIndex: nat, endIndex: nat, restriction: Option<EdgeRestriction>) {

    /** The opposite vertex of the edge: the end for the start, and the start for anything else. */
    function TakeOtherPoint(pointIndex: nat): (r: nat)
      ensures pointIndex == startIndex ==> r == endIndex
      ensures pointIndex != startIndex ==> r == startIndex
    {
      if startIndex == pointIndex then endIndex else startIndex
    }

    predicate HasRestriction()
    {
      restriction.Some?
    }

    function RemoveRestriction(): (e: Edge)
      ensures !e.HasRestriction()
      ensures e.startIndex == startIndex && e.endIndex == endIndex
    {
      this.(restriction := None)
    }

    function ApplyHorizontalRestriction(): (e: Edge)
      ensures e.HasRestriction() && e.restriction.value.Horizontal?
      ensures e.startIndex == startIndex && e.endIndex == endIndex
    {
      this.(restriction := Some(Horizontal))
    }

    function ApplyVerticalRestriction(): (e: Edge)
      ensures e.HasRestriction() && e.restriction.value.Vertical?
      ensures e.startIndex == startIndex && e.endIndex == endIndex
    {
      this.(restriction := Some(Vertical))
    }

    function ApplyWidthRestriction(width: int): (e: Edge)
      ensures e.HasRestriction() && e.restriction.value.Width? && e.restriction.value.width == width
      ensures e.startIndex == startIndex && e.endIndex == endIndex
    {
      this.(restriction := Some(Width(width)))
    }
  }

  /** A new, unrestricted edge between the two given vertices. */
  function NewEdge(startIndex: nat, endIndex: nat): (e: Edge)
    ensures e.startIndex == startIndex && e.endIndex == endIndex
    ensures !e.HasRestriction()
  {
    Edge(startIndex, endIndex, None)
  }

  /** For a proper edge, asking twice for the other endpoint returns to where one started. */
  lemma TakeOtherPointInvolution(e: Edge, pointIndex: nat)
    requires e.startIndex != e.endIndex
    requires pointIndex == e.startIndex || pointIndex == e.endIndex
    ensures e.TakeOtherPoint(pointIndex) != pointIndex
    ensures e.TakeOtherPoint(e.TakeOtherPoint(pointIndex)) == pointIndex
  {
  }

  /** `edges` is the cyclic edge list of a polygon with `n` vertices. */
  ghost predicate CyclicEdges(edges: seq<Edge>, n: nat)
  {
    n >= 1 && |edges| == n
    && forall i :: 0 <= i < n ==> edges[i].startIndex == i && edges[i].endIndex == (i + 1) % n
  }

  /** The edges of the polygon through `points`, in vertex order, none restricted. */
  method FromPoints(points: seq<Pos>) returns (edges: seq<Edge>)
    ensures |edges| == |points|
    ensures forall i :: 0 <= i < |edges| ==> edges[i].startIndex == i
    ensures forall i :: 0 <= i < |edges| ==> edges[i].endIndex == (i + 1) % |points|
    ensures forall i :: 0 <= i < |edges| ==> !edges[i].HasRestriction()
    ensures |points| >= 1 ==> CyclicEdges(edges, |points|)
  {
    edges := [];
    var i := 0;
    while i < |points|
      invariant 0 <= i <= |points|
      invariant |edges| == i
      invariant forall j :: 0 <= j < i ==> edges[j] == NewEdge(j, (j + 1) % |points|)
    {
      var startIndex := i;
      var endIndex := (i + 1) % |points|;
      edges := edges + [NewEdge(startIndex, endIndex)];
      i := i + 1;
    }
  }

  /** In a cyclic edge list every vertex starts exactly one edge and ends exactly one edge:
      edge `v` starts at `v`, the edge before it ends at `v`, and no two edges share a start
      or an end. */
  lemma CyclicEdgesCoverVertices(edges: seq<Edge>, n: nat)
    requires CyclicEdges(edges, n)
    ensures forall v :: 0 <= v < n ==> edges[v].startIndex == v
    ensures forall v :: 0 <= v < n ==> edges[Contour.PreviousIndex(n, v)].endIndex == v
    ensures forall i, j :: 0 <= i < j < n ==> edges[i].startIndex != edges[j].startIndex
    ensures forall i, j :: 0 <= i < j < n ==> edges[i].endIndex != edges[j].endIndex
  {
    forall i | 0 <= i < n
      ensures edges[i].endIndex == Contour.NextIndex(n, i)
    {
    }
    forall v | 0 <= v < n
      ensures edges[Contour.PreviousIndex(n, v)].endIndex == v
    {
      Contour.IndexInverse(n, v);
    }
    forall i, j | 0 <= i < j < n
      ensures edges[i].endIndex != edges[j].endIndex
    {
      Contour.IndexInverse(n, i);
      Contour.IndexInverse(n, j);
    }
  }
}
