/** The orientation ("turn") predicate of three points.

    The source computes the cross product of (B - A) and (C - A) twice: once
    exactly with rational numbers (`mpq_turn`) and once in `long double` with a
    forward error bound (`turn`), falling back to the exact value when the
    floating one is too close to zero. Coordinates here are `real`, so `Turn`
    is the exact sign, which is what `turn` means to return. The floating fast
    path is abstracted away: `FilteredTurn` keeps its decision rule but takes
    the floating values as a `FloatCross` parameter, and `FilteredTurnIsExact`
    shows the rule returns the exact sign whenever the floating error stays
    below the bound. */
module Orientation {
  import opened Points

  /** Three-valued sign, written like the source as the difference of two
      comparisons converted to 0 or 1. */
  function Sgn(v: real): (r: int)
    ensures r == 1 <==> v > 0.0
    ensures r == -1 <==> v < 0.0
    ensures r == 0 <==> v == 0.0
  {
    (if v > 0.0 then 1 else 0) - (if v < 0.0 then 1 else 0)
  }

  /** Cross product (B - A) x (C - A). */
  function Cross(a: Point, b: Point, c: Point): real
  {
    (b.x - a.x) * (c.y - a.y) - (b.y - a.y) * (c.x - a.x)
  }

  /** +1 when C lies left of the ray A->B, -1 when right, 0 when the three
      points are collinear (exact, as `mpq_turn` computes it). */
  function Turn(a: Point, b: Point, c: Point): int
  {
    Sgn(Cross(a, b, c))
  }

  /** The machine epsilon of `double`, 2^-52. */
  const DoubleEpsilon: real := 1.0 / 4503599627370496.0

  /** The source's error bound for a two-term difference of products. */
  function ErrorBound(a1: real, a2: real): (eps: real)
    ensures eps >= 0.0
    ensures eps == 0.0 <==> a1 + a2 == 0.0
  {
    8.0 * Abs(a1 + a2) * DoubleEpsilon
  }

  function Abs(v: real): (r: real)
    ensures r >= 0.0 && (r == v || r == -v)
  {
    if v < 0.0 then -v else v
  }

  /** The three values the floating path of `turn` computes: the two
      products `a1`, `a2` and their difference `val`. */
  datatype FloatCross = FloatCross(a1: real, a2: real, val: real)

  /** The floating difference is exact or its error is below the bound; this
      is the hypothesis of `FilteredTurnIsExact`. */
  predicate WithinBound(a: Point, b: Point, c: Point, f: FloatCross)
  {
    f.val == Cross(a, b, c) || Abs(f.val - Cross(a, b, c)) < ErrorBound(f.a1, f.a2)
  }

  /** The decision rule of `turn`, given the values `f` of its floating
      path. When `f.val` is within the error bound of zero the exact sign is
      used, otherwise the sign of `f.val`. */
  function FilteredTurn(a: Point, b: Point, c: Point, f: FloatCross): int
  {
    if Abs(f.val) < ErrorBound(f.a1, f.a2) then Turn(a, b, c) else Sgn(f.val)
  }

  /** The fast path is never wrong when it claims confidence: if the floating
      difference is exact or its error is below the bound, `FilteredTurn`
      returns the exact sign. */
  lemma FilteredTurnIsExact(a: Point, b: Point, c: Point, f: FloatCross)
    requires WithinBound(a, b, c, f)
    ensures FilteredTurn(a, b, c, f) == Turn(a, b, c)
  {
    var exact, val := Cross(a, b, c), f.val;
    if Abs(val) >= ErrorBound(f.a1, f.a2) && val != exact {
      if val > 0.0 {
        assert exact > val - ErrorBound(f.a1, f.a2) >= 0.0;
      } else {
        assert val < 0.0;
        assert exact < val + ErrorBound(f.a1, f.a2) <= 0.0;
      }
    }
  }

  /** 2^33, so that the triple below has coordinates a `double` holds exactly. */
  const TwoTo33: real := 8589934592.0

  /** A near-collinear triple of `double` coordinates A = (0, 0),
      B = (2^33 + 1, 2^33), C = (2^33, 2^33 - 1). The exact products are
      a1 = 2^66 - 1 and a2 = 2^66. With the 64-bit significand of x86
      `long double` the representable values near 2^66 - 1 are 4 apart, so a1
      rounds to 2^66 and the floating difference is 0. The exact cross product
      is -1. Since 0 is below the bound 2^18, the rule falls back to the exact
      sign and answers -1, not 0. */
  lemma NearCollinearFallsBack()
    ensures var a, b, c := Point(0.0, 0.0), Point(TwoTo33 + 1.0, TwoTo33), Point(TwoTo33, TwoTo33 - 1.0);
      (b.x - a.x) * (c.y - a.y) == TwoTo33 * TwoTo33 - 1.0
      && (b.y - a.y) * (c.x - a.x) == TwoTo33 * TwoTo33
      && Cross(a, b, c) == -1.0
      && ErrorBound(TwoTo33 * TwoTo33, TwoTo33 * TwoTo33) == 262144.0
      && FilteredTurn(a, b, c, FloatCross(TwoTo33 * TwoTo33, TwoTo33 * TwoTo33, 0.0)) == -1
  {
  }

  /** The four coordinate differences B.x - A.x, B.y - A.y, C.x - A.x and
      C.y - A.y as `turn` receives them: computed in the coordinate type `T`,
      before any conversion to `long double`. */
  datatype Differences = Differences(abx: real, aby: real, acx: real, acy: real)

  /** The differences computed exactly, as they are when `T` is exact or when
      each coordinate is converted to `long double` before subtracting. */
  function ExactDifferences(a: Point, b: Point, c: Point): (d: Differences)
    ensures d.abx * d.acy - d.aby * d.acx == Cross(a, b, c)
  {
    Differences(b.x - a.x, b.y - a.y, c.x - a.x, c.y - a.y)
  }

  /** `turn` as written, from the differences `d` it receives: the products
      and their difference are taken as exact (they are, in `long double`,
      for `float` inputs), the bound and the rule are those of `turn`. */
  function TurnAsWritten(a: Point, b: Point, c: Point, d: Differences): int
  {
    var a1 := d.abx * d.acy;
    var a2 := d.aby * d.acx;
    FilteredTurn(a, b, c, FloatCross(a1, a2, a1 - a2))
  }

  /** With `T = float` the differences are rounded in `float` before the
      error bound is applied, and the bound does not cover that error.
      A = (1, 1), B = (2^24 + 2, 2^24 + 4), C = (6291457, 6291458) are exact in
      `float`; B.x - A.x = 2^24 + 1 rounds to 2^24 and B.y - A.y = 2^24 + 3
      rounds to 2^24 + 4 (each within half a unit in the last place, 1 here).
      The floating difference is then -2^23, far outside the bound, so `turn`
      answers -1 while the exact orientation, `mpq_turn`'s answer, is +1. */
  lemma FloatDifferencesMisjudge()
    ensures var a, b, c := Point(1.0, 1.0), Point(16777218.0, 16777220.0), Point(6291457.0, 6291458.0);
      var rounded := Differences(16777216.0, 16777220.0, 6291456.0, 6291457.0);
      var exact := ExactDifferences(a, b, c);
      Abs(rounded.abx - exact.abx) <= 1.0 && Abs(rounded.aby - exact.aby) <= 1.0
      && rounded.acx == exact.acx && rounded.acy == exact.acy
      && Cross(a, b, c) == 4194305.0 && Turn(a, b, c) == 1
      && !WithinBound(a, b, c, FloatCross(16777216.0 * 6291457.0, 16777220.0 * 6291456.0, -8388608.0))
      && TurnAsWritten(a, b, c, rounded) == -1
  {
  }

  /** The corrected `turn`: from exact differences the floating value is
      the exact cross product, and the rule returns the exact orientation for
      every triple. */
  lemma TurnWithExactDifferences(a: Point, b: Point, c: Point)
    ensures TurnAsWritten(a, b, c, ExactDifferences(a, b, c)) == Turn(a, b, c)
  {
    var d := ExactDifferences(a, b, c);
    FilteredTurnIsExact(a, b, c, FloatCross(d.abx * d.acy, d.aby * d.acx, d.abx * d.acy - d.aby * d.acx));
  }

  /** The sign is an odd function. */
  lemma SgnNeg(v: real)
    ensures Sgn(-v) == -Sgn(v)
  {
  }

  /** Swapping the last two points flips the orientation. */
  lemma TurnSwapLast(a: Point, b: Point, c: Point)
    ensures Turn(a, c, b) == -Turn(a, b, c)
  {
    assert Cross(a, c, b) == -Cross(a, b, c);
  }

  /** Swapping the first two points flips the orientation. */
  lemma TurnSwapFirst(a: Point, b: Point, c: Point)
    ensures Turn(b, a, c) == -Turn(a, b, c)
  {
    assert Cross(b, a, c) == -Cross(a, b, c);
  }

  /** Rotating the three points keeps the orientation. */
  lemma TurnRotate(a: Point, b: Point, c: Point)
    ensures Turn(b, c, a) == Turn(a, b, c)
  {
    assert Cross(b, c, a) == Cross(a, b, c);
  }

  /** Repeated points are collinear: the orientation is 0. */
  lemma TurnDegenerate(a: Point, b: Point, c: Point)
    ensures Turn(a, a, c) == 0
    ensures Turn(a, b, a) == 0
    ensures Turn(a, b, b) == 0
  {
    assert Cross(a, b, b) == 0.0;
  }

  /** Translating all three points by the same vector keeps the orientation. */
  lemma TurnTranslation(a: Point, b: Point, c: Point, v: Point)
    ensures Turn(a.Add(v), b.Add(v), c.Add(v)) == Turn(a, b, c)
  {
  }

  /** The cross product is affine in its third point: at C + u(D - C) it is
      the same combination of its values at C and D. */
  lemma CrossAffine(a: Point, b: Point, c: Point, d: Point, u: real)
    ensures Cross(a, b, Point(c.x + u * (d.x - c.x), c.y + u * (d.y - c.y)))
            == (1.0 - u) * Cross(a, b, c) + u * Cross(a, b, d)
  {
  }
}
