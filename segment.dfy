/** Closed line segments: their bounding box and the intersection test built
    from a bounding-box filter and four orientation queries.

    The main result, `IntersectsWithIffSharedPoint`, is that the test answers
    exactly the geometric question: do the two closed segments have a point in
    common? */
module Segments {
  import opened Points
  import opened Orientation
  import opened Boxes

  /** An ordered pair of endpoints; `begin == end` (a single point) is allowed. */
  datatype Segment = Segment(begin: Point, end: Point) {

    /** The tightest axis-aligned box around both endpoints. */
    function BoundingBox(): (r: BBox)
      ensures r.Valid()
      ensures r.Contains(begin) && r.Contains(end)
    {
      BBox(Min(begin.x, end.x), Min(begin.y, end.y), Max(begin.x, end.x), Max(begin.y, end.y))
    }

    /** The point begin + t (end - begin) of the supporting line. */
    ghost function At(t: real): Point
    {
      Point(begin.x + t * (end.x - begin.x), begin.y + t * (end.y - begin.y))
    }

    /** p is a point of the closed segment. */
    ghost predicate HasPoint(p: Point)
    {
      exists t :: 0.0 <= t <= 1.0 && At(t) == p
    }

    /** `intersects_with`: reject when the boxes do not overlap; otherwise the
        segments meet when all four orientations are 0 (collinear case) or
        each segment's endpoints are not strictly on one side of the other. */
    predicate IntersectsWith(other: Segment)
    {
      if !BoundingBox().IntersectsWith(other.BoundingBox()) then
        false
      else
        var t1 := Turn(begin, end, other.begin);
        var t2 := Turn(begin, end, other.end);
        var t3 := Turn(other.begin, other.end, begin);
        var t4 := Turn(other.begin, other.end, end);
        (t1 == 0 && t2 == 0 && t3 == 0 && t4 == 0) || (t1 != t2 && t3 != t4)
    }

    /** The same test with the four orientations computed by `turn`'s
        floating path and decision rule; `f1`..`f4` are the floating values
        for t1..t4. */
    predicate FilteredIntersectsWith(other: Segment, f1: FloatCross, f2: FloatCross, f3: FloatCross, f4: FloatCross)
    {
      if !BoundingBox().IntersectsWith(other.BoundingBox()) then
        false
      else
        var t1 := FilteredTurn(begin, end, other.begin, f1);
        var t2 := FilteredTurn(begin, end, other.end, f2);
        var t3 := FilteredTurn(other.begin, other.end, begin, f3);
        var t4 := FilteredTurn(other.begin, other.end, end, f4);
        (t1 == 0 && t2 == 0 && t3 == 0 && t4 == 0) || (t1 != t2 && t3 != t4)
    }
  }

  /** The two closed segments have a point in common. */
  ghost predicate SharePoint(s1: Segment, s2: Segment)
  {
    exists p :: s1.HasPoint(p) && s2.HasPoint(p)
  }

  /* ---------------- Bounding box ---------------- */

  /** Any box holding both endpoints holds the bounding box. */
  lemma BoundingBoxIsTightest(s: Segment, b: BBox)
    requires b.Contains(s.begin) && b.Contains(s.end)
    ensures var r := s.BoundingBox();
      b.x1 <= r.x1 && r.x2 <= b.x2 && b.y1 <= r.y1 && r.y2 <= b.y2
  {
  }

  /** a + t (b - a) with 0 <= t <= 1 lies between a and b. */
  lemma ConvexInRange(a: real, b: real, t: real)
    requires 0.0 <= t <= 1.0
    ensures Min(a, b) <= a + t * (b - a) <= Max(a, b)
  {
    var d := b - a;
    ProductSign(t, d);
    ProductSign(1.0 - t, d);
    assert t * d == d - (1.0 - t) * d;
  }

  /** The sign of a product of a non-negative factor. */
  lemma ProductSign(x: real, y: real)
    requires x >= 0.0
    ensures y >= 0.0 ==> x * y >= 0.0
    ensures y <= 0.0 ==> x * y <= 0.0
  {
  }

  /** Every point of a segment lies in its bounding box, so the box filter of
      `IntersectsWith` never rejects segments that meet. */
  lemma HasPointInBoundingBox(s: Segment, p: Point)
    requires s.HasPoint(p)
    ensures s.BoundingBox().Contains(p)
  {
    var t :| 0.0 <= t <= 1.0 && s.At(t) == p;
    ConvexInRange(s.begin.x, s.end.x, t);
    ConvexInRange(s.begin.y, s.end.y, t);
  }

  /** Both endpoints are points of the segment (parameters 0 and 1). */
  lemma EndpointsOnSegment(s: Segment)
    ensures s.HasPoint(s.begin) && s.HasPoint(s.end)
  {
    assert s.At(0.0) == s.begin;
    assert s.At(1.0) == s.end;
  }

  /* ---------------- Points on a segment ---------------- */

  /** n / d lies in [0, 1] when n lies between 0 and d. */
  lemma QuotientInUnit(n: real, d: real)
    requires d != 0.0
    requires Between(0.0, n, d) || Between(d, n, 0.0)
    ensures 0.0 <= n / d <= 1.0
  {
    if d > 0.0 {
      assert n / d * d == n;
    } else {
      assert (-n) / (-d) == n / d;
    }
  }

  /** A point on the supporting line whose x lies between the endpoints' x
      (which differ) is a point of the segment. */
  lemma OnSegmentByX(s: Segment, p: Point)
    requires Cross(s.begin, s.end, p) == 0.0
    requires s.begin.x != s.end.x
    requires Between(Min(s.begin.x, s.end.x), p.x, Max(s.begin.x, s.end.x))
    ensures s.HasPoint(p)
  {
    var a, b := s.begin, s.end;
    var rx, ry := b.x - a.x, b.y - a.y;
    var t := (p.x - a.x) / rx;
    QuotientInUnit(p.x - a.x, rx);
    assert t * rx == p.x - a.x;
    assert rx * (p.y - a.y) == ry * (p.x - a.x);
    assert rx * (p.y - a.y) == rx * (t * ry);
    assert s.At(t) == p;
  }

  /** The same on the y axis. */
  lemma OnSegmentByY(s: Segment, p: Point)
    requires Cross(s.begin, s.end, p) == 0.0
    requires s.begin.y != s.end.y
    requires Between(Min(s.begin.y, s.end.y), p.y, Max(s.begin.y, s.end.y))
    ensures s.HasPoint(p)
  {
    var a, b := s.begin, s.end;
    var rx, ry := b.x - a.x, b.y - a.y;
    var t := (p.y - a.y) / ry;
    QuotientInUnit(p.y - a.y, ry);
    assert t * ry == p.y - a.y;
    assert ry * (p.x - a.x) == rx * (p.y - a.y);
    assert ry * (p.x - a.x) == ry * (t * rx);
    assert s.At(t) == p;
  }

  /** A point belongs to a closed segment exactly when it is collinear with
      the endpoints and lies in the segment's bounding box. */
  lemma HasPointIffCollinearInBox(s: Segment, p: Point)
    ensures s.HasPoint(p) <==> Cross(s.begin, s.end, p) == 0.0 && s.BoundingBox().Contains(p)
  {
    if s.HasPoint(p) {
      var t :| 0.0 <= t <= 1.0 && s.At(t) == p;
      CollinearAlong(s, t);
      HasPointInBoundingBox(s, p);
    } else if Cross(s.begin, s.end, p) == 0.0 && s.BoundingBox().Contains(p) {
      if s.begin.x != s.end.x {
        OnSegmentByX(s, p);
      } else if s.begin.y != s.end.y {
        OnSegmentByY(s, p);
      } else {
        assert p == s.begin;
        EndpointsOnSegment(s);
      }
    }
  }

  /* ---------------- Algebra of the four orientations ---------------- */

  /** With d1..d4 the cross products behind t1..t4, d2 - d1 and d3 - d4 are
      both the cross product of the two direction vectors. */
  lemma CrossDifferences(a: Point, b: Point, c: Point, d: Point)
    ensures Cross(a, b, d) - Cross(a, b, c) == Cross(c, d, a) - Cross(c, d, b)
  {
  }

  /** Along a segment the cross product against a fixed line is affine in
      the parameter. */
  lemma CrossAlong(a: Point, b: Point, s: Segment, u: real)
    ensures Cross(a, b, s.At(u)) == (1.0 - u) * Cross(a, b, s.begin) + u * Cross(a, b, s.end)
  {
    CrossAffine(a, b, s.begin, s.end, u);
  }

  /** Every point of the supporting line is collinear with the endpoints. */
  lemma CollinearAlong(s: Segment, t: real)
    ensures Cross(s.begin, s.end, s.At(t)) == 0.0
  {
    CrossAlong(s.begin, s.end, s, t);
    TurnDegenerate(s.begin, s.end, s.begin);
  }

  /** A convex combination of two values with the same sign has that sign. */
  lemma SameSignCombination(d1: real, d2: real, u: real)
    requires 0.0 <= u <= 1.0
    requires Sgn(d1) == Sgn(d2)
    ensures Sgn((1.0 - u) * d1 + u * d2) == Sgn(d1)
  {
    if d1 > 0.0 {
      assert (1.0 - u) * d1 >= 0.0 && u * d2 >= 0.0;
      if u == 0.0 { assert (1.0 - u) * d1 == d1; } else { assert u * d2 > 0.0; }
    } else if d1 < 0.0 {
      assert (1.0 - u) * d1 <= 0.0 && u * d2 <= 0.0;
      if u == 0.0 { assert (1.0 - u) * d1 == d1; } else { assert u * d2 < 0.0; }
    }
  }

  /** A vector whose cross products with two non-parallel vectors r and q
      both vanish is the zero vector. */
  lemma ParallelToBoth(rx: real, ry: real, qx: real, qy: real, vx: real, vy: real)
    requires rx * qy - ry * qx != 0.0
    requires rx * vy - ry * vx == 0.0 && qx * vy - qy * vx == 0.0
    ensures vx == 0.0 && vy == 0.0
  {
    var k := rx * qy - ry * qx;
    assert k * vx == qx * (rx * vy - ry * vx) - rx * (qx * vy - qy * vx);
    assert k * vy == qy * (rx * vy - ry * vx) - ry * (qx * vy - qy * vx);
  }

  /** The cross product is linear in its third point. */
  lemma CrossDifferenceThird(a: Point, b: Point, p: Point, q: Point)
    ensures Cross(a, b, p) - Cross(a, b, q) == (b.x - a.x) * (p.y - q.y) - (b.y - a.y) * (p.x - q.x)
  {
  }

  /** Two supporting lines that are not parallel (d1 != d2) have at most one
      point in common. */
  lemma LinesMeet(a: Point, b: Point, c: Point, d: Point, p: Point, q: Point)
    requires Cross(a, b, d) != Cross(a, b, c)
    requires Cross(a, b, p) == 0.0 && Cross(a, b, q) == 0.0
    requires Cross(c, d, p) == 0.0 && Cross(c, d, q) == 0.0
    ensures p == q
  {
    assert Cross(a, b, d) - Cross(a, b, c) == (b.x - a.x) * (d.y - c.y) - (b.y - a.y) * (d.x - c.x)
      by { CrossDifferenceThird(a, b, d, c); }
    CrossDifferenceThird(a, b, p, q);
    CrossDifferenceThird(c, d, p, q);
    ParallelToBoth(b.x - a.x, b.y - a.y, d.x - c.x, d.y - c.y, p.x - q.x, p.y - q.y);
  }

  /** (1 - u) d1 + u d2 vanishes at u = d1 / (d1 - d2). */
  lemma ZeroAtCrossing(d1: real, d2: real)
    requires d1 != d2
    ensures var u := d1 / (d1 - d2); (1.0 - u) * d1 + u * d2 == 0.0
  {
    var u := d1 / (d1 - d2);
    assert u * (d1 - d2) == d1;
  }

  /** The point of s at parameter d1 / (d1 - d2) lies on the line through a
      and b, where d1 and d2 are the cross products of s's endpoints. */
  lemma CrossingOnLine(a: Point, b: Point, s: Segment)
    requires Cross(a, b, s.begin) != Cross(a, b, s.end)
    ensures var d1, d2 := Cross(a, b, s.begin), Cross(a, b, s.end);
      Cross(a, b, s.At(d1 / (d1 - d2))) == 0.0
  {
    var d1, d2 := Cross(a, b, s.begin), Cross(a, b, s.end);
    CrossAlong(a, b, s, d1 / (d1 - d2));
    ZeroAtCrossing(d1, d2);
  }

  /** d1 / (d1 - d2) lies in [0, 1] when d1 and d2 have different signs. */
  lemma CrossingParameterInUnit(d1: real, d2: real)
    requires Sgn(d1) != Sgn(d2)
    ensures d1 != d2 && 0.0 <= d1 / (d1 - d2) <= 1.0
  {
    QuotientInUnit(d1, d1 - d2);
  }

  /* ---------------- The intersection test ---------------- */

  /** Collinear segments whose boxes overlap share a point. */
  lemma CollinearOverlapShares(s1: Segment, s2: Segment)
    requires Cross(s1.begin, s1.end, s2.begin) == 0.0 && Cross(s1.begin, s1.end, s2.end) == 0.0
    requires Cross(s2.begin, s2.end, s1.begin) == 0.0 && Cross(s2.begin, s2.end, s1.end) == 0.0
    requires s1.BoundingBox().IntersectsWith(s2.BoundingBox())
    ensures SharePoint(s1, s2)
  {
    var b1, b2 := s1.BoundingBox(), s2.BoundingBox();
    IntersectsWithIffOverlap(b1, b2);
    EndpointsOnSegment(s1);
    EndpointsOnSegment(s2);
    if s1.begin.x != s1.end.x {
      if b2.x1 >= b1.x1 {
        var e := if b2.x1 == s2.begin.x then s2.begin else s2.end;
        OnSegmentByX(s1, e);
      } else {
        var e := if b1.x1 == s1.begin.x then s1.begin else s1.end;
        OnSegmentByX(s2, e);
      }
    } else if s1.begin.y != s1.end.y {
      if b2.y1 >= b1.y1 {
        var e := if b2.y1 == s2.begin.y then s2.begin else s2.end;
        OnSegmentByY(s1, e);
      } else {
        var e := if b1.y1 == s1.begin.y then s1.begin else s1.end;
        OnSegmentByY(s2, e);
      }
    } else {
      assert b2.Contains(s1.begin);
      HasPointIffCollinearInBox(s2, s1.begin);
    }
  }

  /** When each segment's endpoints are not strictly on one side of the
      other's line, the segments share a point. */
  lemma ProperCrossingShares(s1: Segment, s2: Segment)
    requires Turn(s1.begin, s1.end, s2.begin) != Turn(s1.begin, s1.end, s2.end)
    requires Turn(s2.begin, s2.end, s1.begin) != Turn(s2.begin, s2.end, s1.end)
    ensures SharePoint(s1, s2)
  {
    var a, b, c, d := s1.begin, s1.end, s2.begin, s2.end;
    var d1, d2, d3, d4 := Cross(a, b, c), Cross(a, b, d), Cross(c, d, a), Cross(c, d, b);
    CrossingParameterInUnit(d1, d2);
    CrossingParameterInUnit(d3, d4);
    var u, t := d1 / (d1 - d2), d3 / (d3 - d4);
    var p, q := s2.At(u), s1.At(t);
    CrossingOnLine(a, b, s2);
    CrossingOnLine(c, d, s1);
    CollinearAlong(s2, u);
    CollinearAlong(s1, t);
    LinesMeet(a, b, c, d, p, q);
    assert s1.HasPoint(q) && s2.HasPoint(p);
  }

  /** Soundness: when the test says yes, the segments share a point. */
  lemma IntersectsWithSound(s1: Segment, s2: Segment)
    requires s1.IntersectsWith(s2)
    ensures SharePoint(s1, s2)
  {
    var a, b, c, d := s1.begin, s1.end, s2.begin, s2.end;
    if Turn(a, b, c) != Turn(a, b, d) && Turn(c, d, a) != Turn(c, d, b) {
      ProperCrossingShares(s1, s2);
    } else {
      CollinearOverlapShares(s1, s2);
    }
  }

  /** No false rejections by the box filter: segments that share a point have
      overlapping bounding boxes. */
  lemma SharePointBoxesOverlap(s1: Segment, s2: Segment)
    requires SharePoint(s1, s2)
    ensures s1.BoundingBox().IntersectsWith(s2.BoundingBox())
  {
    var p :| s1.HasPoint(p) && s2.HasPoint(p);
    HasPointInBoundingBox(s1, p);
    HasPointInBoundingBox(s2, p);
    IntersectsWithIffCommonPoint(s1.BoundingBox(), s2.BoundingBox());
  }

  /** If the point at parameter t of s1 is the point at parameter u of s2,
      the cross products of s2's endpoints against s1's line combine to 0. */
  lemma VanishesAt(s1: Segment, s2: Segment, t: real, u: real, p: Point)
    requires s1.At(t) == p && s2.At(u) == p
    ensures (1.0 - u) * Cross(s1.begin, s1.end, s2.begin) + u * Cross(s1.begin, s1.end, s2.end) == 0.0
  {
    assert Cross(s1.begin, s1.end, p) == 0.0 by {
      CollinearAlong(s1, t);
    }
    CrossAlong(s1.begin, s1.end, s2, u);
  }

  /** If s2 has a point on s1, s2's endpoints are not both strictly on one
      side of s1's line: equal orientations can only both be 0. */
  lemma NotStrictlyOneSide(s1: Segment, s2: Segment, t: real, u: real, p: Point)
    requires 0.0 <= u <= 1.0
    requires s1.At(t) == p && s2.At(u) == p
    ensures Turn(s1.begin, s1.end, s2.begin) == Turn(s1.begin, s1.end, s2.end)
            ==> Turn(s1.begin, s1.end, s2.begin) == 0
  {
    var d1, d2 := Cross(s1.begin, s1.end, s2.begin), Cross(s1.begin, s1.end, s2.end);
    if Sgn(d1) == Sgn(d2) {
      VanishesAt(s1, s2, t, u, p);
      SameSignCombination(d1, d2, u);
    }
  }

  /** Segments with a common point: for each segment, the other's endpoints
      are not both strictly on one side of its line. */
  lemma SharedPointSides(s1: Segment, s2: Segment)
    requires SharePoint(s1, s2)
    ensures Turn(s1.begin, s1.end, s2.begin) == Turn(s1.begin, s1.end, s2.end)
            ==> Turn(s1.begin, s1.end, s2.begin) == 0
    ensures Turn(s2.begin, s2.end, s1.begin) == Turn(s2.begin, s2.end, s1.end)
            ==> Turn(s2.begin, s2.end, s1.begin) == 0
  {
    var p :| s1.HasPoint(p) && s2.HasPoint(p);
    var t :| 0.0 <= t <= 1.0 && s1.At(t) == p;
    var u :| 0.0 <= u <= 1.0 && s2.At(u) == p;
    NotStrictlyOneSide(s1, s2, t, u, p);
    NotStrictlyOneSide(s2, s1, u, t, p);
  }

  /** Completeness: segments that share a point pass the test. */
  lemma IntersectsWithComplete(s1: Segment, s2: Segment)
    requires SharePoint(s1, s2)
    ensures s1.IntersectsWith(s2)
  {
    SharePointBoxesOverlap(s1, s2);
    SharedPointSides(s1, s2);
    CrossDifferences(s1.begin, s1.end, s2.begin, s2.end);
  }

  /** The intersection test decides exactly whether two closed segments have
      a point in common. */
  lemma IntersectsWithIffSharedPoint(s1: Segment, s2: Segment)
    ensures s1.IntersectsWith(s2) <==> SharePoint(s1, s2)
  {
    if s1.IntersectsWith(s2) {
      IntersectsWithSound(s1, s2);
    }
    if SharePoint(s1, s2) {
      IntersectsWithComplete(s1, s2);
    }
  }

  /** The test does not depend on the order of the segments: swapping them
      permutes (t1, t2, t3, t4) to (t3, t4, t1, t2). */
  lemma IntersectsWithSymmetric(s1: Segment, s2: Segment)
    ensures s1.IntersectsWith(s2) == s2.IntersectsWith(s1)
  {
    Boxes.IntersectsWithSymmetric(s1.BoundingBox(), s2.BoundingBox());
  }

  /** The test does not depend on the direction of the first segment:
      reversing it negates t1 and t2 and swaps t3 with t4. */
  lemma IntersectsWithReversed(s1: Segment, s2: Segment)
    ensures s1.IntersectsWith(s2) == Segment(s1.end, s1.begin).IntersectsWith(s2)
  {
    var a, b, c, d := s1.begin, s1.end, s2.begin, s2.end;
    TurnSwapFirst(a, b, c);
    TurnSwapFirst(a, b, d);
  }

  /** Not a property: an unfolding device. It restates `Cross` on the four
      triples behind t1..t4 so that the concrete cases below evaluate them on
      literal coordinates. */
  lemma CrossOfFour(a: Point, b: Point, c: Point, d: Point)
    ensures Cross(a, b, c) == (b.x - a.x) * (c.y - a.y) - (b.y - a.y) * (c.x - a.x)
    ensures Cross(a, b, d) == (b.x - a.x) * (d.y - a.y) - (b.y - a.y) * (d.x - a.x)
    ensures Cross(c, d, a) == (d.x - c.x) * (a.y - c.y) - (d.y - c.y) * (a.x - c.x)
    ensures Cross(c, d, b) == (d.x - c.x) * (b.y - c.y) - (d.y - c.y) * (b.x - c.x)
  {
  }

  /** Segments (0,0)-(2,2) and (0,2)-(2,0) cross properly at (1,1). */
  lemma ScenarioProperCrossing()
    ensures Segment(Point(0.0, 0.0), Point(2.0, 2.0)).IntersectsWith(Segment(Point(0.0, 2.0), Point(2.0, 0.0)))
  {
    var a, b, c, d := Point(0.0, 0.0), Point(2.0, 2.0), Point(0.0, 2.0), Point(2.0, 0.0);
    assert Segment(a, b).BoundingBox() == BBox(0.0, 0.0, 2.0, 2.0);
    assert Segment(c, d).BoundingBox() == BBox(0.0, 0.0, 2.0, 2.0);
    assert BBox(0.0, 0.0, 2.0, 2.0).IntersectsWith(BBox(0.0, 0.0, 2.0, 2.0));
    CrossOfFour(a, b, c, d);
  }

  /** Collinear segments (0,0)-(1,0) and (2,0)-(3,0) are disjoint: the box
      filter rejects them. */
  lemma ScenarioCollinearDisjoint()
    ensures !Segment(Point(0.0, 0.0), Point(1.0, 0.0)).IntersectsWith(Segment(Point(2.0, 0.0), Point(3.0, 0.0)))
  {
    assert Segment(Point(0.0, 0.0), Point(1.0, 0.0)).BoundingBox() == BBox(0.0, 0.0, 1.0, 0.0);
    assert Segment(Point(2.0, 0.0), Point(3.0, 0.0)).BoundingBox() == BBox(2.0, 0.0, 3.0, 0.0);
    assert !BBox(0.0, 0.0, 1.0, 0.0).IntersectsWith(BBox(2.0, 0.0, 3.0, 0.0));
  }

  /** Collinear segments (0,0)-(2,0) and (1,0)-(3,0) overlap; they share
      (1,0), so the test says yes. */
  lemma ScenarioCollinearOverlap()
    ensures Segment(Point(0.0, 0.0), Point(2.0, 0.0)).IntersectsWith(Segment(Point(1.0, 0.0), Point(3.0, 0.0)))
  {
    var s1 := Segment(Point(0.0, 0.0), Point(2.0, 0.0));
    var s2 := Segment(Point(1.0, 0.0), Point(3.0, 0.0));
    assert s1.At(0.5) == Point(1.0, 0.0) == s2.At(0.0);
    assert s1.HasPoint(Point(1.0, 0.0)) && s2.HasPoint(Point(1.0, 0.0));
    IntersectsWithComplete(s1, s2);
  }

  /** Segments (0,0)-(1,1) and (1,1)-(2,0) touch at the shared endpoint. */
  lemma ScenarioSharedEndpoint()
    ensures Segment(Point(0.0, 0.0), Point(1.0, 1.0)).IntersectsWith(Segment(Point(1.0, 1.0), Point(2.0, 0.0)))
  {
    var a, b, c, d := Point(0.0, 0.0), Point(1.0, 1.0), Point(1.0, 1.0), Point(2.0, 0.0);
    assert Segment(a, b).BoundingBox() == BBox(0.0, 0.0, 1.0, 1.0);
    assert Segment(c, d).BoundingBox() == BBox(1.0, 0.0, 2.0, 1.0);
    assert BBox(0.0, 0.0, 1.0, 1.0).IntersectsWith(BBox(1.0, 0.0, 2.0, 1.0));
    CrossOfFour(a, b, c, d);
  }

  /** When each of the four floating evaluations stays within `turn`'s error
      bound, the test built on `turn` answers exactly as the exact test, and
      so (by `IntersectsWithIffSharedPoint`) exactly when the closed segments
      share a point. */
  lemma FilteredIntersectsWithIsExact(s1: Segment, s2: Segment, f1: FloatCross, f2: FloatCross, f3: FloatCross, f4: FloatCross)
    requires WithinBound(s1.begin, s1.end, s2.begin, f1) && WithinBound(s1.begin, s1.end, s2.end, f2)
    requires WithinBound(s2.begin, s2.end, s1.begin, f3) && WithinBound(s2.begin, s2.end, s1.end, f4)
    ensures s1.FilteredIntersectsWith(s2, f1, f2, f3, f4) == s1.IntersectsWith(s2)
    ensures s1.FilteredIntersectsWith(s2, f1, f2, f3, f4) <==> SharePoint(s1, s2)
  {
    FilteredTurnIsExact(s1.begin, s1.end, s2.begin, f1);
    FilteredTurnIsExact(s1.begin, s1.end, s2.end, f2);
    FilteredTurnIsExact(s2.begin, s2.end, s1.begin, f3);
    FilteredTurnIsExact(s2.begin, s2.end, s1.end, f4);
    IntersectsWithIffSharedPoint(s1, s2);
  }
}
