/** Integer voxel coordinates and inclusive coordinate bounding boxes, the geometric value
    types that the dense grid and the converters are written against. */
module Coords {

  /** A signed voxel coordinate (x, y, z). */
  datatype Coord = Coord(x: int, y: int, z: int)
  {
    /** Adds `n` to every component. */
    function OffsetBy(n: int): Coord
    {
      Coord(x + n, y + n, z + n)
    }

    function Plus(o: Coord): Coord
    {
      Coord(x + o.x, y + o.y, z + o.z)
    }

    function Minus(o: Coord): Coord
    {
      Coord(x - o.x, y - o.y, z - o.z)
    }
  }

  function Min(a: int, b: int): int
  {
    if a <= b then a else b
  }

  /** Component-wise minimum of two coordinates. */
  function MinComponent(a: Coord, b: Coord): (r: Coord)
    ensures r.x <= a.x && r.y <= a.y && r.z <= a.z
    ensures r.x <= b.x && r.y <= b.y && r.z <= b.z
    ensures (r.x == a.x || r.x == b.x) && (r.y == a.y || r.y == b.y) && (r.z == a.z || r.z == b.z)
  {
    Coord(Min(a.x, b.x), Min(a.y, b.y), Min(a.z, b.z))
  }

  /** Lexicographic order with x most significant and z least significant. */
  predicate LexLess(a: Coord, b: Coord)
  {
    a.x < b.x || (a.x == b.x && (a.y < b.y || (a.y == b.y && a.z < b.z)))
  }

  /** An inclusive box [min, max] of voxel coordinates. */
  datatype CoordBBox = CoordBBox(min: Coord, max: Coord)
  {
    predicate IsEmpty()
    {
      min.x > max.x || min.y > max.y || min.z > max.z
    }

    /** The number of voxels along each axis. */
    function Dim(): Coord
    {
      max.Minus(min).OffsetBy(1)
    }

    function Volume(): int
    {
      Dim().x * Dim().y * Dim().z
    }

    predicate IsInside(c: Coord)
    {
      min.x <= c.x <= max.x && min.y <= c.y <= max.y && min.z <= c.z <= max.z
    }

    /** Every voxel of `b` is a voxel of this box. */
    predicate Contains(b: CoordBBox)
    {
      min.x <= b.min.x && b.max.x <= max.x &&
      min.y <= b.min.y && b.max.y <= max.y &&
      min.z <= b.min.z && b.max.z <= max.z
    }
  }
}
