/** Axis-aligned bounding boxes and their closed overlap test. */
module Boxes {
  import opened Points

  /** The source's `between(a, b, c)` macro: b lies in the closed interval [a, c]. */
  predicate Between(a: real, b: real, c: real)
  {
    a <= b && b <= c
  }

  function Min(a: real, b: real): (r: real)
    ensures r <= a && r <= b && (r == a || r == b)
  {
    if a <= b then a else b
  }

  function Max(a: real, b: real): (r: real)
    ensures r >= a && r >= b && (r == a || r == b)
  {
    if a >= b then a else b
  }

  /** A box [x1, x2] x [y1, y2]. The constructor does not check the corners;
      boxes built from a segment are `Valid`. */
  datatype BBox = BBox(x1: real, y1: real, x2: real, y2: real) {

    predicate Valid()
    {
      x1 <= x2 && y1 <= y2
    }

    /** The closed box holds p. */
    predicate Contains(p: Point)
    {
      Between(x1, p.x, x2) && Between(y1, p.y, y2)
    }

    /** `intersects_with`: on each axis, some end of one interval lies in the
        other (four-way `between` test). */
    predicate IntersectsWith(other: BBox)
    {
      (Between(x1, other.x1, x2) || Between(x1, other.x2, x2) ||
       Between(other.x1, x1, other.x2) || Between(other.x1, x2, other.x2))
      && (Between(y1, other.y1, y2) || Between(y1, other.y2, y2) ||
          Between(other.y1, y1, other.y2) || Between(other.y1, y2, other.y2))
    }
  }

  /** The overlap test does not depend on the order of the boxes. */
  lemma IntersectsWithSymmetric(a: BBox, b: BBox)
    ensures a.IntersectsWith(b) == b.IntersectsWith(a)
  {
  }

  /** For well-formed boxes the four-way test is the usual interval overlap on
      both axes, boundaries included. */
  lemma IntersectsWithIffOverlap(a: BBox, b: BBox)
    requires a.Valid() && b.Valid()
    ensures a.IntersectsWith(b) <==>
              Max(a.x1, b.x1) <= Min(a.x2, b.x2) && Max(a.y1, b.y1) <= Min(a.y2, b.y2)
  {
  }

  /** For well-formed boxes the four-way test holds exactly when the two
      closed boxes have a point in common. */
  lemma IntersectsWithIffCommonPoint(a: BBox, b: BBox)
    requires a.Valid() && b.Valid()
    ensures a.IntersectsWith(b) <==> exists p :: a.Contains(p) && b.Contains(p)
  {
    IntersectsWithIffOverlap(a, b);
    if a.IntersectsWith(b) {
      var p := Point(Max(a.x1, b.x1), Max(a.y1, b.y1));
      assert a.Contains(p) && b.Contains(p);
    }
  }

  /** A box degenerate to a point overlaps another valid box exactly when the
      other box holds that point. */
  lemma PointBoxIntersects(p: Point, b: BBox)
    requires b.Valid()
    ensures BBox(p.x, p.y, p.x, p.y).IntersectsWith(b) <==> b.Contains(p)
  {
  }
}
