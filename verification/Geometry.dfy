/** Points of the plane, and the helpers the rasterisers share. */
module Geometry {

  datatype Point = Point(x: int, y: int)

  function Abs(a: int): nat {
    if a < 0 then -a else a
  }

  function Max(a: int, b: int): int {
    if a < b then b else a
  }

  function Min(a: int, b: int): int {
    if a < b then a else b
  }
}
