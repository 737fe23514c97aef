/** Rasterisation of the polygon's edges with Bresenham's integer line algorithm. Instead of
    painting, the model returns the pixels that would be painted, in painting order. */
module Drawer {
  import opened Options
  import opened Edges

  /** A pixel of the canvas, at integer coordinates. */
  datatype Pixel = Pixel(x: int, y: int)

  function Abs(v: int): nat
  {
    if v < 0 then -v else v
  }

  /** One pixel towards the end along an axis whose total offset is `delta`: a step of -1 when
      `delta < 0`, and of +1 otherwise (also when `delta == 0`). */
  function Toward(c: int, delta: int): int
  {
    if delta < 0 then c - 1 else c + 1
  }

  /** A step along x, the major axis: x moves one pixel towards the end, y zero or one. */
  predicate StepAlongX(a: Pixel, b: Pixel, dx: int, dy: int)
  {
    b.x == Toward(a.x, dx) && (b.y == a.y || b.y == Toward(a.y, dy))
  }

  /** A step along y, the major axis: y moves one pixel towards the end, x zero or one. */
  predicate StepAlongY(a: Pixel, b: Pixel, dx: int, dy: int)
  {
    b.y == Toward(a.y, dy) && (b.x == a.x || b.x == Toward(a.x, dx))
  }

  /** After `major` major steps and `minor` minor steps along a line whose extents are `a`
      (major axis) and `b` (minor axis), the pixel is within half a pixel of the ideal line:
      `minor` differs from the ideal minor offset `b * major / a` by at most 1/2. */
  predicate NearLine(a: int, b: int, major: int, minor: int)
  {
    -a <= 2 * (b * major - a * minor) <= a
  }

  /** At the last major step, the only minor offset within half a pixel of the ideal line is
      the whole minor extent: the line ends on its end point. */
  lemma NearLineAtEnd(a: int, b: int, minor: int)
    requires a > 0 && NearLine(a, b, a, minor)
    ensures minor == b
  {
    var t := b - minor;
    assert 2 * (b * a - a * minor) == 2 * (a * t);
  }

  /** One step of the decision variable `d`, which tracks twice the distance between the
      ideal line and the midpoint between the two candidate pixels, scaled by `a`: whichever
      branch the algorithm takes, the new pixel is within half a pixel of the line and the
      bounds on `d` are kept. */
  lemma DecisionStep(a: int, b: int, major: int, minor: int, d: int)
    requires 0 <= b <= a && 0 < a
    requires d == 2 * b - a + 2 * (b * major - a * minor)
    requires 2 * b - 2 * a <= d < 2 * b
    ensures d < 0 ==> d + 2 * b == 2 * b - a + 2 * (b * (major + 1) - a * minor)
    ensures d < 0 ==> NearLine(a, b, major + 1, minor)
    ensures d >= 0 ==> d + 2 * b - 2 * a == 2 * b - a + 2 * (b * (major + 1) - a * (minor + 1))
    ensures d >= 0 ==> NearLine(a, b, major + 1, minor + 1)
    ensures d < 0 ==> 2 * b - 2 * a <= d + 2 * b < 2 * b
    ensures d >= 0 ==> 2 * b - 2 * a <= d + 2 * b - 2 * a < 2 * b
  {
    assert b * (major + 1) == b * major + b;
    assert a * (minor + 1) == a * minor + a;
  }

  /** `pixels` starts at `start`, moves one major step at a time along x, and keeps within
      half a pixel of the ideal line of extent `dx` by `dy`. */
  ghost predicate TracedAlongX(pixels: seq<Pixel>, start: Pixel, dx: int, dy: int)
  {
    |pixels| >= 1 && pixels[0] == start
    && (forall i :: 1 <= i < |pixels| ==> StepAlongX(pixels[i - 1], pixels[i], dx, dy))
    && (forall i :: 0 <= i < |pixels| ==>
          NearLine(Abs(dx), Abs(dy), Abs(pixels[i].x - start.x), Abs(pixels[i].y - start.y)))
  }

  /** The same along y. */
  ghost predicate TracedAlongY(pixels: seq<Pixel>, start: Pixel, dx: int, dy: int)
  {
    |pixels| >= 1 && pixels[0] == start
    && (forall i :: 1 <= i < |pixels| ==> StepAlongY(pixels[i - 1], pixels[i], dx, dy))
    && (forall i :: 0 <= i < |pixels| ==>
          NearLine(Abs(dy), Abs(dx), Abs(pixels[i].y - start.y), Abs(pixels[i].x - start.x)))
  }

  /** Extending a traced x-major line by one valid step that stays near the line. */
  lemma TracedAlongXAppend(pixels: seq<Pixel>, start: Pixel, dx: int, dy: int, p: Pixel)
    requires TracedAlongX(pixels, start, dx, dy)
    requires StepAlongX(pixels[|pixels| - 1], p, dx, dy)
    requires NearLine(Abs(dx), Abs(dy), Abs(p.x - start.x), Abs(p.y - start.y))
    ensures TracedAlongX(pixels + [p], start, dx, dy)
  {
  }

  /** Extending a traced y-major line by one valid step that stays near the line. */
  lemma TracedAlongYAppend(pixels: seq<Pixel>, start: Pixel, dx: int, dy: int, p: Pixel)
    requires TracedAlongY(pixels, start, dx, dy)
    requires StepAlongY(pixels[|pixels| - 1], p, dx, dy)
    requires NearLine(Abs(dy), Abs(dx), Abs(p.y - start.y), Abs(p.x - start.x))
    ensures TracedAlongY(pixels + [p], start, dx, dy)
  {
  }

  /** The state of the x-major loop after `i` steps, `minor` of which also moved y. */
  ghost predicate AlongXState(start: Pixel, dx: int, dy: int, pixels: seq<Pixel>,
                              i: int, minor: int, x: int, y: int, d: int)
  {
    var a := Abs(dx);
    var b := Abs(dy);
    0 <= minor <= i <= a && |pixels| == i + 1 && pixels[i] == Pixel(x, y)
    && x == (if dx < 0 then start.x - i else start.x + i)
    && y == (if dy < 0 then start.y - minor else start.y + minor)
    && d == 2 * b - a + 2 * (b * i - a * minor)
    && 2 * b - 2 * a <= d < 2 * b
    && TracedAlongX(pixels, start, dx, dy)
  }

  /** The state of the y-major loop after `i` steps, `minor` of which also moved x. */
  ghost predicate AlongYState(start: Pixel, dx: int, dy: int, pixels: seq<Pixel>,
                              i: int, minor: int, x: int, y: int, d: int)
  {
    var a := Abs(dy);
    var b := Abs(dx);
    0 <= minor <= i <= a && |pixels| == i + 1 && pixels[i] == Pixel(x, y)
    && y == (if dy < 0 then start.y - i else start.y + i)
    && x == (if dx < 0 then start.x - minor else start.x + minor)
    && d == 2 * b - a + 2 * (b * i - a * minor)
    && (a > 0 ==> 2 * b - 2 * a <= d < 2 * b)
    && TracedAlongY(pixels, start, dx, dy)
  }

  /** One iteration of the x-major loop keeps its state. */
  lemma AlongXStep(start: Pixel, dx: int, dy: int, pixels: seq<Pixel>,
                   i: int, minor: int, x: int, y: int, d: int)
    requires Abs(dx) > Abs(dy) && i < Abs(dx)
    requires AlongXState(start, dx, dy, pixels, i, minor, x, y, d)
    ensures var x' := Toward(x, dx);
      if d < 0 then
        AlongXState(start, dx, dy, pixels + [Pixel(x', y)], i + 1, minor, x', y, d + 2 * Abs(dy))
      else
        AlongXState(start, dx, dy, pixels + [Pixel(x', Toward(y, dy))], i + 1, minor + 1,
                    x', Toward(y, dy), d + 2 * Abs(dy) - 2 * Abs(dx))
  {
    DecisionStep(Abs(dx), Abs(dy), i, minor, d);
    var x' := Toward(x, dx);
    var y' := if d < 0 then y else Toward(y, dy);
    var minor' := if d < 0 then minor else minor + 1;
    assert Abs(x' - start.x) == i + 1 && Abs(y' - start.y) == minor';
    TracedAlongXAppend(pixels, start, dx, dy, Pixel(x', y'));
  }

  /** One iteration of the y-major loop keeps its state. */
  lemma AlongYStep(start: Pixel, dx: int, dy: int, pixels: seq<Pixel>,
                   i: int, minor: int, x: int, y: int, d: int)
    requires Abs(dx) <= Abs(dy) && i < Abs(dy)
    requires AlongYState(start, dx, dy, pixels, i, minor, x, y, d)
    ensures var y' := Toward(y, dy);
      if d < 0 then
        AlongYState(start, dx, dy, pixels + [Pixel(x, y')], i + 1, minor, x, y', d + 2 * Abs(dx))
      else
        AlongYState(start, dx, dy, pixels + [Pixel(Toward(x, dx), y')], i + 1, minor + 1,
                    Toward(x, dx), y', d + 2 * Abs(dx) - 2 * Abs(dy))
  {
    DecisionStep(Abs(dy), Abs(dx), i, minor, d);
    var y' := Toward(y, dy);
    var x' := if d < 0 then x else Toward(x, dx);
    var minor' := if d < 0 then minor else minor + 1;
    assert Abs(y' - start.y) == i + 1 && Abs(x' - start.x) == minor';
    TracedAlongYAppend(pixels, start, dx, dy, Pixel(x', y'));
  }

  /** The x-major loop starts in its state, on the start pixel. */
  lemma AlongXStart(start: Pixel, dx: int, dy: int)
    requires Abs(dx) > Abs(dy)
    ensures AlongXState(start, dx, dy, [start], 0, 0, start.x, start.y, 2 * Abs(dy) - Abs(dx))
  {
  }

  /** When the x-major loop stops, the line has reached its end pixel. */
  lemma AlongXDone(start: Pixel, dx: int, dy: int, pixels: seq<Pixel>,
                   minor: int, x: int, y: int, d: int)
    requires Abs(dx) > Abs(dy)
    requires AlongXState(start, dx, dy, pixels, Abs(dx), minor, x, y, d)
    ensures |pixels| == Abs(dx) + 1
    ensures pixels[|pixels| - 1] == Pixel(start.x + dx, start.y + dy)
    ensures TracedAlongX(pixels, start, dx, dy)
  {
    NearLineAtEnd(Abs(dx), Abs(dy), minor);
  }

  /** The y-major loop starts in its state, on the start pixel. */
  lemma AlongYStart(start: Pixel, dx: int, dy: int)
    requires Abs(dx) <= Abs(dy)
    ensures AlongYState(start, dx, dy, [start], 0, 0, start.x, start.y, 2 * Abs(dx) - Abs(dy))
  {
  }

  /** When the y-major loop stops, the line has reached its end pixel. */
  lemma AlongYDone(start: Pixel, dx: int, dy: int, pixels: seq<Pixel>,
                   minor: int, x: int, y: int, d: int)
    requires Abs(dx) <= Abs(dy)
    requires AlongYState(start, dx, dy, pixels, Abs(dy), minor, x, y, d)
    ensures |pixels| == Abs(dy) + 1
    ensures pixels[|pixels| - 1] == Pixel(start.x + dx, start.y + dy)
    ensures TracedAlongY(pixels, start, dx, dy)
  {
    if Abs(dy) > 0 {
      NearLineAtEnd(Abs(dy), Abs(dx), minor);
    }
  }

  /** The branch of the algorithm for lines closer to the x axis: `absDx` steps along x. */
  method StepsAlongX(start: Pixel, dx: int, dy: int) returns (pixels: seq<Pixel>)
    requires Abs(dx) > Abs(dy)
    ensures |pixels| == Abs(dx) + 1
    ensures pixels[|pixels| - 1] == Pixel(start.x + dx, start.y + dy)
    ensures TracedAlongX(pixels, start, dx, dy)
  {
    var absDx: int := Abs(dx);
    var absDy: int := Abs(dy);
    var x := start.x;
    var y := start.y;
    pixels := [Pixel(x, y)];
    var d: int := 2 * absDy - absDx;
    var i := 0;
    ghost var minor: nat := 0;
    AlongXStart(start, dx, dy);
    while i < absDx
      invariant AlongXState(start, dx, dy, pixels, i, minor, x, y, d)
    {
      AlongXStep(start, dx, dy, pixels, i, minor, x, y, d);
      x := Toward(x, dx);
      if d < 0 {
        d := d + 2 * absDy;
      } else {
        y := Toward(y, dy);
        minor := minor + 1;
        d := d + 2 * absDy - 2 * absDx;
      }
      pixels := pixels + [Pixel(x, y)];
      i := i + 1;
    }
    AlongXDone(start, dx, dy, pixels, minor, x, y, d);
  }

  /** The branch of the algorithm for lines closer to the y axis: `absDy` steps along y. */
  method StepsAlongY(start: Pixel, dx: int, dy: int) returns (pixels: seq<Pixel>)
    requires Abs(dx) <= Abs(dy)
    ensures |pixels| == Abs(dy) + 1
    ensures pixels[|pixels| - 1] == Pixel(start.x + dx, start.y + dy)
    ensures TracedAlongY(pixels, start, dx, dy)
  {
    var absDx: int := Abs(dx);
    var absDy: int := Abs(dy);
    var x := start.x;
    var y := start.y;
    pixels := [Pixel(x, y)];
    var d: int := 2 * absDx - absDy;
    var i := 0;
    ghost var minor: nat := 0;
    AlongYStart(start, dx, dy);
    while i < absDy
      invariant AlongYState(start, dx, dy, pixels, i, minor, x, y, d)
    {
      AlongYStep(start, dx, dy, pixels, i, minor, x, y, d);
      y := Toward(y, dy);
      if d < 0 {
        d := d + 2 * absDx;
      } else {
        x := Toward(x, dx);
        minor := minor + 1;
        d := d + 2 * absDx - 2 * absDy;
      }
      pixels := pixels + [Pixel(x, y)];
      i := i + 1;
    }
    AlongYDone(start, dx, dy, pixels, minor, x, y, d);
  }

  /** The pixels of the line from `start` to `end`, first to last. */
  method DrawLineBresenham(start: Pixel, end: Pixel) returns (pixels: seq<Pixel>)
    ensures |pixels| == (if Abs(end.x - start.x) > Abs(end.y - start.y)
                         then Abs(end.x - start.x) else Abs(end.y - start.y)) + 1
    ensures pixels[0] == start
    ensures pixels[|pixels| - 1] == end
    ensures Abs(end.x - start.x) > Abs(end.y - start.y) ==>
      forall i :: 1 <= i < |pixels| ==> StepAlongX(pixels[i - 1], pixels[i], end.x - start.x, end.y - start.y)
    ensures Abs(end.x - start.x) <= Abs(end.y - start.y) ==>
      forall i :: 1 <= i < |pixels| ==> StepAlongY(pixels[i - 1], pixels[i], end.x - start.x, end.y - start.y)
    ensures Abs(end.x - start.x) > Abs(end.y - start.y) ==>
      TracedAlongX(pixels, start, end.x - start.x, end.y - start.y)
    ensures Abs(end.x - start.x) <= Abs(end.y - start.y) ==>
      TracedAlongY(pixels, start, end.x - start.x, end.y - start.y)
  {
    var dx := end.x - start.x;
    var dy := end.y - start.y;
    if Abs(dx) > Abs(dy) {
      pixels := StepsAlongX(start, dx, dy);
    } else {
      pixels := StepsAlongY(start, dx, dy);
    }
  }

  /** The largest `usize`: the editor's "no edge" sentinel when nothing is selected. */
  const USIZE_MAX: nat := 0xFFFF_FFFF_FFFF_FFFF

  /** Edge `id` is drawn highlighted: it equals the selected edge, or `usize::MAX` when none is. */
  predicate Highlighted(id: nat, selectedEdge: Option<nat>)
  {
    id == selectedEdge.GetOr(USIZE_MAX)
  }

  /** No real edge list reaches `usize::MAX` entries, so an edge is highlighted exactly when it
      is the selected one, and nothing is highlighted when no edge is selected. */
  lemma HighlightedIsSelected(id: nat, selectedEdge: Option<nat>)
    requires id < USIZE_MAX
    ensures Highlighted(id, selectedEdge) <==> selectedEdge == Some(id)
  {
  }

  /** A drawn edge: its pixels and its colour. */
  datatype Stroke<C> = Stroke(pixels: seq<Pixel>, color: C)

  /** Draws every edge, in edge order, between the pixels of its two vertices; the selected
      edge in `specialColor`, all others in `color`. */
  method DrawPolygonBresenham<C>(points: seq<Pixel>, edges: seq<Edge>, selectedEdge: Option<nat>,
                                 color: C, specialColor: C) returns (strokes: seq<Stroke<C>>)
    requires forall i :: 0 <= i < |edges| ==> edges[i].startIndex < |points| && edges[i].endIndex < |points|
    ensures |strokes| == |edges|
    ensures forall id :: 0 <= id < |edges| && Highlighted(id, selectedEdge) ==> strokes[id].color == specialColor
    ensures forall id :: 0 <= id < |edges| && !Highlighted(id, selectedEdge) ==> strokes[id].color == color
    ensures forall id :: 0 <= id < |edges| && id < USIZE_MAX ==>
      strokes[id].color == if selectedEdge == Some(id) then specialColor else color
    ensures forall id :: 0 <= id < |edges| ==>
      |strokes[id].pixels| > 0
      && strokes[id].pixels[0] == points[edges[id].startIndex]
      && strokes[id].pixels[|strokes[id].pixels| - 1] == points[edges[id].endIndex]
  {
    strokes := [];
    var id := 0;
    while id < |edges|
      invariant 0 <= id <= |edges| && |strokes| == id
      invariant forall j :: 0 <= j < id && Highlighted(j, selectedEdge) ==> strokes[j].color == specialColor
      invariant forall j :: 0 <= j < id && !Highlighted(j, selectedEdge) ==> strokes[j].color == color
      invariant forall j :: 0 <= j < id ==>
        |strokes[j].pixels| > 0
        && strokes[j].pixels[0] == points[edges[j].startIndex]
        && strokes[j].pixels[|strokes[j].pixels| - 1] == points[edges[j].endIndex]
    {
      var edge := edges[id];
      var currentColor := if id == selectedEdge.GetOr(USIZE_MAX) then specialColor else color;
      var pixels := DrawLineBresenham(points[edge.startIndex], points[edge.endIndex]);
      strokes := strokes + [Stroke(pixels, currentColor)];
      id := id + 1;
    }
    forall id | 0 <= id < |edges| && id < USIZE_MAX
      ensures strokes[id].color == if selectedEdge == Some(id) then specialColor else color
    {
      HighlightedIsSelected(id, selectedEdge);
    }
  }
}
