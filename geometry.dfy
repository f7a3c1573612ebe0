/** The value types `fan.gfx.Point` and `fan.gfx.Size`, as immutable values. */
module Geometry {
  datatype Point = Point(x: int, y: int)
  datatype Size = Size(w: int, h: int)

  const Origin := Point(0, 0)
  const Empty := Size(0, 0)

  function Add(a: Point, b: Point): Point {
    Point(a.x + b.x, a.y + b.y)
  }
}
