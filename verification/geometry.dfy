/** Positions and displacement vectors of the drawing plane, with exact `real`
    coordinates in place of the GUI library's `f32` pairs. */
module Geometry {

  /** A position on the canvas. */
  datatype Pos = Pos(x: real, y: real)

  /** A displacement between two positions. */
  datatype Vec2 = Vec2(x: real, y: real)

  /** `p + v`: the position `p` displaced by `v`. */
  function Add(p: Pos, v: Vec2): Pos
  {
    Pos(p.x + v.x, p.y + v.y)
  }

  /** `p - q`: the displacement that leads from `q` to `p`. */
  function Sub(p: Pos, q: Pos): Vec2
  {
    Vec2(p.x - q.x, p.y - q.y)
  }

  /** The opposite displacement. */
  function Neg(v: Vec2): Vec2
  {
    Vec2(-v.x, -v.y)
  }

  /** Displacing by `v` and then by `-v` returns to the start. */
  lemma AddNeg(p: Pos, v: Vec2)
    ensures Add(Add(p, v), Neg(v)) == p
  {
  }

  /** The displacement between two positions does not change when both are displaced alike. */
  lemma SubAddAdd(p: Pos, q: Pos, v: Vec2)
    ensures Sub(Add(p, v), Add(q, v)) == Sub(p, q)
  {
  }
}
