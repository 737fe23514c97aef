# Polygon editor core, modelled in Dafny

The polygon editor keeps a closed polygon as a circular list of vertices. Vertex `i` is at the
same time the start of edge `i -> (i + 1) mod n` and stores that edge's constraint: horizontal,
vertical or constant width. Dragging a vertex moves it and then propagates the move along the
contour so that the constrained edges next to it hold again. Edges are split at their midpoint,
vertices are removed, the whole polygon is translated, and the edges are rasterised with
Bresenham's integer line algorithm, the selected edge in a highlight colour.

The project models that core:

- `options.dfy`: `Option`, with `GetOr` for Rust's `unwrap_or`.
- `geometry.dfy`: positions and displacements as pairs of reals.
- `contour.dfy`: the vertex and its constraint, the setters and predicates, and the cyclic index
  arithmetic. It also holds the one-edge repair (`apply_constraint_diff` and the two
  `adjust_moved_point_edge_*` wrappers), edge splitting, vertex removal, rigid translation and the
  neighbour-edge guards.
- `propagation.dfy`: the two walks of `adjust_adjacent_edges_after_position_update` and
  `update_position`, as methods with loop invariants.
- `edges.dfy`: the edge list type, `Edge::new`, `from_points`, `take_other_point` and the
  restriction setters.
- `drawer.dfy`: `draw_line_bresenham`, which returns the pixels it would paint in painting order,
  and the per-edge colour choice of `draw_polygon_bresenham`.
- `bezier.dfy`: the two-handle container of a curve segment.

Mutating Rust methods on `&mut [Point]` become pure functions or methods that return the new
contour. A Rust index that would panic becomes a `requires` clause. The walk counters `i_left`
and `i_right` are returned as out-parameters so that the walk bound and the stop rule can be
stated.

## Model

| member | source | states |
|---|---|---|
| `Contour.Point.HasConstraint` | src/point.rs:38-40 | the outgoing edge carries some constraint; `Contour.ConstraintKinds` relates it to the three kind tests |
| `Contour.Point.HasHorizontal` | src/point.rs:42-47 | the outgoing edge is horizontal; false for an unconstrained edge |
| `Contour.Point.HasVertical` | src/point.rs:49-54 | the outgoing edge is vertical; false for an unconstrained edge |
| `Contour.Point.HasWidth` | src/point.rs:56-61 | the outgoing edge has a constant width, of any value; false for an unconstrained edge |
| `Contour.ConstraintKinds` | src/point.rs:38-61 | a vertex has a constraint exactly when one of the three kind tests holds, and no two kind tests hold at once |
| `Contour.NewPoint` | src/point.rs:19-24 | a new vertex stands at the given position and its outgoing edge is unconstrained |
| `Contour.Point.RemoveConstraint` | src/point.rs:63-65 | afterwards none of the four constraint predicates holds, and the position is kept |
| `Contour.Point.ApplyHorizontal` | src/point.rs:67-69 | afterwards the vertex reports a constraint that is horizontal and neither vertical nor width, and the position is kept |
| `Contour.Point.ApplyVertical` | src/point.rs:71-73 | afterwards the vertex reports a constraint that is vertical and neither horizontal nor width, and the position is kept |
| `Contour.Point.ApplyWidth` | src/point.rs:75-77 | afterwards the vertex reports a width constraint of the given width, neither horizontal nor vertical, and the position is kept |
| `Contour.NextIndex` | src/point.rs:203-205 | on a non-empty contour the successor is a valid index: the last vertex wraps to 0, every other vertex goes to `i + 1` |
| `Contour.PreviousIndex` | src/point.rs:207-213 | for a valid index the predecessor is a valid index: 0 wraps to `n - 1`, every other vertex goes to `i - 1` |
| `Contour.IndexInverse` | src/point.rs:203-213 | successor and predecessor undo each other on every valid index, in both orders |
| `Contour.StepBackFacts` | src/point.rs:99-103 | stepping back `k` times visits a new vertex at every step and is back at the start after `n` steps, so the left walk's guard fires after `n - 1` repairs |
| `Contour.StepForwardFacts` | src/point.rs:126-132 | the same for stepping forwards and the right walk |
| `Contour.ApplyConstraintDiff` | src/point.rs:173-197 | only the vertex being moved changes. A horizontal repair copies the other endpoint's y and keeps x; a vertical one copies x and keeps y. A width repair puts the vertex where the width rule says. The edge is then aligned, and no constraint changes |
| `Contour.AdjustMovedPointEdgeStart` | src/point.rs:147-158 | only the end of the edge may move, to where the edge's constraint puts it relative to the start; a horizontal or vertical edge then holds between its two endpoints. An unconstrained edge leaves the contour as it is, and no constraint changes |
| `Contour.AdjustMovedPointEdgeEnd` | src/point.rs:160-171 | only the start of the edge ending at the given vertex may move, to where that edge's constraint puts it; a horizontal or vertical edge then holds between its two endpoints. An unconstrained edge leaves the contour as it is, and no constraint changes |
| `Contour.GetMiddlePoint` | src/point.rs:199-201 | the result is the midpoint: the displacement from the start to it equals the displacement from it to the end |
| `Contour.AddOnEdge` | src/point.rs:215-224 | the contour grows by one. An unconstrained vertex at the edge's midpoint sits at the old successor index. The split edge's start keeps its position but loses its constraint, and every other vertex keeps its position, constraint and cyclic order |
| `Contour.RemoveAt` | src/point.rs:226-232 | the contour shrinks by one and the remaining vertices keep their order and positions. The removed vertex's predecessor loses its constraint, and every other vertex keeps its own |
| `Contour.RemoveUndoesAdd` | src/point.rs:215-232 | removing the vertex that splitting an edge inserted restores the contour, except that the split edge stays unconstrained |
| `Contour.UpdatePositionAll` | src/point.rs:234-238 | every vertex is displaced by `diff` and keeps its constraint; the length is kept |
| `Contour.TranslationKeepsShape` | src/point.rs:234-238 | a translation keeps the displacement between any two vertices, so no constraint can be broken by it |
| `Contour.TranslationInverse` | src/point.rs:234-238 | translating by `diff` and then by `-diff` gives back the contour |
| `Contour.NeighbourEdgesHaveVertical` | src/point.rs:286-291 | the edge before or the edge after the given edge is vertical; the guard the editor checks before making an edge vertical |
| `Contour.NeighbourEdgesHaveHorizontal` | src/point.rs:293-298 | the edge before or the edge after the given edge is horizontal; the guard the editor checks before making an edge horizontal |
| `Contour.VerticalGuardKeepsEdgesApart` | src/point.rs:286-291 | on a contour with no two consecutive vertical edges, making an edge vertical keeps that property exactly when the guard reports no vertical neighbour edge |
| `Contour.HorizontalGuardKeepsEdgesApart` | src/point.rs:293-298 | the same for horizontal edges and the horizontal guard |
| `Propagation.ContinuesAt` | src/point.rs:104-109 | the walk's continuation test at a vertex: the two edges meeting there are both constrained and one of them keeps a constant width. The right walk applies the same test at src/point.rs:133-136 |
| `Propagation.ContinuesAtMeansWidthJoint` | src/point.rs:105-109 | the two-case test at src/point.rs:105-108 is the same as "both edges constrained and at least one of them of constant width" |
| `Propagation.AdjustLeft` | src/point.rs:91-115 | the left walk keeps every constraint and never writes the moved vertex. It makes at most `n - 1` repairs, none when the incoming edge is unconstrained, and writes only the vertices it walked over. Each repaired start follows its edge's constraint. It goes past a vertex only when both edges there are constrained and one has constant width, and it stops at the first vertex where this fails |
| `Propagation.AdjustRight` | src/point.rs:117-144 | the same for the right walk over the outgoing edges; it makes no repair when the moved vertex's own edge is unconstrained |
| `Propagation.UpdatePosition` | src/point.rs:79-145 | the moved vertex ends exactly at the new position, and constraints and length are kept. Each walk makes at most `n - 1` repairs, and none exactly when its first edge is unconstrained. Each walk goes past a vertex only under the continuation rule and stops at the first vertex where it fails. Only walked vertices change, so with both adjacent edges unconstrained nothing else moves. Every right-walk repair whose end the left walk did not write puts that end where its constraint says (a vertical repair copies x and keeps y), and every right-walk edge ends aligned. Left-walk repairs whose endpoints the right walk did not write afterwards hold the same way |
| `Propagation.DragTriangleVertex` | src/point.rs:79-145 | dragging vertex 0 of the triangle (0,0), (10,0), (5,10) with a vertical first edge to (3,3) gives (3,3), (3,0), (5,10): one right-walk repair, no left-walk repair, derived from the contract of `UpdatePosition` alone |
| `Edges.Edge.HasRestriction` | src/edge.rs:46-48 | the edge carries some restriction; the restriction setters below state it after each change |
| `Edges.NewEdge` | src/edge.rs:19-25 | a new edge joins the given start and end and has no restriction |
| `Edges.FromPoints` | src/edge.rs:27-35 | one edge per point, edge `i` from `i` to `(i + 1) mod n`, none restricted, so the list is cyclic |
| `Edges.CyclicEdgesCoverVertices` | src/edge.rs:29-33 | in the list `from_points` builds, every vertex starts exactly one edge and ends exactly one edge: edge `v` starts at `v`, the edge before it ends at `v`, and no two edges share a start or an end |
| `Edges.Edge.TakeOtherPoint` | src/edge.rs:38-44 | given the start it returns the end; given anything else it returns the start |
| `Edges.TakeOtherPointInvolution` | src/edge.rs:37-44 | on an edge with distinct endpoints, the other endpoint of an endpoint differs from it, and asking twice returns to it |
| `Edges.Edge.RemoveRestriction` | src/edge.rs:54-56 | afterwards the edge has no restriction; its endpoints are kept |
| `Edges.Edge.ApplyHorizontalRestriction` | src/edge.rs:58-60 | afterwards the edge has a horizontal restriction; its endpoints are kept |
| `Edges.Edge.ApplyVerticalRestriction` | src/edge.rs:62-64 | afterwards the edge has a vertical restriction; its endpoints are kept |
| `Edges.Edge.ApplyWidthRestriction` | src/edge.rs:66-68 | afterwards the edge has a width restriction of the given width; its endpoints are kept |
| `Bezier.BezierData.InnerPoints` | src/bezier.rs:13-15 | the two handles, in order; `Bezier.NewBezierData` and `Bezier.BezierData.UpdateInnerPointPosition` state what it reads back |
| `Bezier.NewBezierData` | src/bezier.rs:9-15 | the handles read back after construction are exactly the given ones |
| `Bezier.BezierData.UpdateInnerPointPosition` | src/bezier.rs:17-19 | the chosen handle is moved to the new position and the other handle is untouched; an index past the second handle is out of bounds |
| `Bezier.UpdateInnerPointLastWins` | src/bezier.rs:17-19 | moving a handle to where it is changes nothing, and of two moves of the same handle only the last counts |
| `Drawer.DecisionStep` | src/drawer.rs:96-103 | whichever branch the decision variable selects, the new pixel stays within half a pixel of the ideal line, and the variable keeps its closed form and its bounds |
| `Drawer.NearLineAtEnd` | src/drawer.rs:95-135 | after the last major step, the only minor offset within half a pixel of the line is the full minor extent |
| `Drawer.StepsAlongX` | src/drawer.rs:95-114 | when x is the major axis: `abs_dx + 1` pixels starting at the start pixel and ending at the end pixel. Every step moves x by one towards the end and y by zero or one towards the end, and every pixel is within half a pixel of the ideal line |
| `Drawer.StepsAlongY` | src/drawer.rs:115-135 | the same with y as the major axis and `abs_dy + 1` pixels, including the single-pixel line |
| `Drawer.DrawLineBresenham` | src/drawer.rs:64-136 | the line has `max(abs_dx, abs_dy) + 1` pixels, the first is the start and the last is the end. Each step moves the major coordinate by one towards the end and the minor one by zero or one towards the end, and every pixel lies within half a pixel of the ideal line |
| `Drawer.Highlighted` | src/drawer.rs:49 | the colour test of the loop: the edge index equals the selection, with `usize::MAX` standing in for no selection |
| `Drawer.HighlightedIsSelected` | src/drawer.rs:49-53 | the `unwrap_or(usize::MAX)` comparison highlights an edge exactly when it is the selected one; with no selection it highlights nothing |
| `Drawer.DrawPolygonBresenham` | src/drawer.rs:39-62 | one stroke per edge, in edge order, from the edge's start vertex to its end vertex. The selected edge is drawn in the special colour and every other edge in the normal colour |

## Left out

- The constant-width repair (src/point.rs:186-195) computes the new position with `atan2`, `cos` and `sin` on `f32`. It is a parameter, `WidthRule`, that maps the fixed endpoint, the current position and the width to the new position. Nothing is proved about the distance it produces.
- Positions are pairs of reals. `f32` rounding, including in the midpoint and the translation, is not modelled.
- `contains_point` (src/point.rs:242-284) is left out. It is a floating-point hit test with a pixel tolerance, used only to pick the edge under the mouse cursor.
- The plain getters `pos`, `pos_mut`, `constraint` and `restriciton` are left out; they are the datatypes' fields.
- Drawer.DrawLineBresenham: takes integer endpoints. The truncating `f32` to `i32` casts (src/drawer.rs:71-74) are left out.
- Drawer.StepsAlongX: integers are unbounded. The `i32` overflow of `dx = x2 - x1` and `dy = y2 - y1` (src/drawer.rs:76-77), of `abs` at `i32::MIN`, of `2 * abs_dy` and of the updates of `d` is not modelled.
- Drawer.StepsAlongY: the same unbounded-integer simplification applies.
- Drawer.DrawPolygonBresenham: returns the strokes instead of calling the painter. It states that each stroke runs from the edge's start pixel to its end pixel, not that it is exactly the pixel list `DrawLineBresenham` yields, because a method's result cannot be named in another method's contract.
- `paint_pixel`, `draw_points` and `draw_polygon_builtin` are left out. They are rendering calls into the GUI library.
- Indices are unbounded naturals. The only `usize` constant that matters, `usize::MAX` as the "no selected edge" value, is modelled literally.
- `remove_at` is modelled for any non-empty contour. The editor only calls it on contours with more than three vertices (src/polygon_editor.rs:191-194); that guard belongs to the caller.
- Contour.PreviousIndex: the empty contour is a precondition. `get_previous_index` underflows there, on `points.len() - 1`.
- src/polygon_editor.rs, src/popups.rs and src/main.rs are left out: input handling, menus, popups and application start-up. The editor also calls curve-continuity functions that are not in the shown point type, so no continuity rule is modelled.
- The debug output under the `show_debug_info` feature is left out.
