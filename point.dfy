/** Points of the plane with exact coordinates.

    The source's `point<T>` is a template over the coordinate type; this model
    fixes the coordinates to `real`, which is exact like the rational type the
    orientation test falls back to. */
module Points {

  /** A coordinate pair; a plain value with no identity beyond (x, y). */
  datatype Point = Point(x: real, y: real) {

    /** Componentwise sum (`operator+`). Subtracting the same point again
        gives back the original one. */
    function Add(p: Point): (r: Point)
      ensures r.x - p.x == x && r.y - p.y == y
    {
      Point(x + p.x, y + p.y)
    }

    /** Componentwise difference (`operator-`). Adding the subtrahend back
        gives back the original point. */
    function Sub(p: Point): (r: Point)
      ensures r.x + p.x == x && r.y + p.y == y
    {
      Point(x - p.x, y - p.y)
    }
  }

  /** Adding then subtracting the same point is the identity. */
  lemma AddSubRoundTrip(a: Point, b: Point)
    ensures a.Add(b).Sub(b) == a
    ensures a.Sub(b).Add(b) == a
  {
  }

  /** Point addition is commutative and the difference of two points is the
      negation of the reverse difference. */
  lemma AddCommutesSubAnticommutes(a: Point, b: Point)
    ensures a.Add(b) == b.Add(a)
    ensures a.Sub(b) == Point(0.0, 0.0).Sub(b.Sub(a))
  {
  }
}
