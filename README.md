# Robust 2D segment intersection — a Dafny model

This project models the geometry kernel of `include/base.h`:

- points with componentwise `+` and `-`;
- the three-valued sign `sgn`;
- the orientation ("turn") predicate of three points;
- axis-aligned bounding boxes (`b_box`) and their closed overlap test;
- segments, with their bounding box and the intersection test. The test
  rejects segments whose bounding boxes do not overlap. Otherwise it combines
  four orientation values t1..t4.

Coordinates are Dafny `real`. This fixes the template parameter `T` to an
exact type, like the GMP rationals that the orientation test falls back to.

The source computes the orientation in two ways:

- `mpq_turn` computes it exactly.
- `turn` first tries a `long double` value guarded by an error bound. When
  the bound cannot certify the sign, it falls back to `mpq_turn`.

`Orientation.Turn` is the exact sign of the cross product. That is what both
functions mean to return. The floating arithmetic itself is abstracted away.
`Orientation.FilteredTurn` keeps the decision rule of `turn` (lines 51-54) and
takes the floating products and their difference as a parameter
(`Orientation.FloatCross`). The lemma
`FilteredTurnIsExact` proves that this rule returns the exact sign whenever
the floating difference is exact or its error is below the bound the source
computes. `Segments.FilteredIntersectsWithIsExact` carries this into the
segment test: built on `turn`, it answers as the exact test does.

The main result is `Segments.IntersectsWithIffSharedPoint`. It states that
`segment::intersects_with` answers true exactly when the two closed segments
have a point in common. Degenerate segments, shared endpoints and collinear
overlaps are all covered.

Files: `point.dfy` (module `Points`), `orientation.dfy` (`Orientation`),
`bbox.dfy` (`Boxes`), `segment.dfy` (`Segments`).

The code's error bound uses the machine epsilon of `double`
(`std::numeric_limits<double>::epsilon()`, 2^-52), even though the products
are computed in `long double`. The model follows the code, in
`Orientation.ErrorBound`.

## Model

| member | source | states |
|---|---|---|
| `Points.Point.Add` | include/base.h:18-23 | subtracting the added point from the sum gives back each original coordinate |
| `Points.Point.Sub` | include/base.h:25-30 | adding the subtrahend back to the difference gives back each original coordinate |
| `Points.AddSubRoundTrip` | include/base.h:18-30 | `(a + b) - b == a` and `(a - b) + b == a` |
| `Points.AddCommutesSubAnticommutes` | include/base.h:18-30 | `a + b == b + a`; `a - b` is the negation of `b - a` |
| `Orientation.Sgn` | include/base.h:33-36 | the result is 1 iff v > 0, -1 iff v < 0, 0 iff v == 0 (so it is always in {-1, 0, 1}) |
| `Orientation.SgnNeg` | include/base.h:33-36 | `sgn(-v) == -sgn(v)` |
| `Orientation.Cross` | include/base.h:38-42 | the exact cross product (B - A) x (C - A) that `mpq_turn` computes in rationals; it has no `ensures` of its own and is specified by `CrossAffine`, `TurnSwapFirst`, `TurnSwapLast`, `TurnRotate` and `HasPointIffCollinearInBox` (0 exactly, within the bounding box, for the points of the closed segment; 0 along the whole line by `CollinearAlong`) |
| `Orientation.Turn` | include/base.h:38-55 | the exact sign of the cross product, which is `mpq_turn`'s result and what `turn` is meant to return; specified by the orientation lemmas below and, for `turn`, by `FilteredTurnIsExact` (see "## Findings" for `T = float`) |
| `Orientation.Abs` | include/base.h:49-51 | `std::abs`: the result is non-negative and is v or -v |
| `Orientation.ErrorBound` | include/base.h:49 | the bound `8 * abs(a1 + a2) * DBL_EPSILON`, with `DoubleEpsilon` = 2^-52 (`std::numeric_limits<double>::epsilon()`), is never negative, and it is 0 exactly when a1 + a2 == 0 |
| `Orientation.FilteredTurn` | include/base.h:44-55 | `turn`'s decision rule: the exact sign when the floating difference is below the bound, else the sign of the floating difference; it has no `ensures` of its own and is specified by `FilteredTurnIsExact` and `NearCollinearFallsBack` |
| `Orientation.FilteredTurnIsExact` | include/base.h:44-55 | when the floating difference is exact or its error is below the bound, `turn`'s decision rule returns the exact sign of the cross product, which is `mpq_turn`'s result |
| `Orientation.NearCollinearFallsBack` | include/base.h:44-55 | for A = (0, 0), B = (2^33 + 1, 2^33), C = (2^33, 2^33 - 1), all exact in `double`, the products are 2^66 - 1 and 2^66; both round to 2^66 in x86 80-bit `long double` (with an IEEE quad `long double` a1 is exact and the difference is -1, which the rule also sends to the fallback), so the floating difference is 0 while the exact cross product is -1; the bound is 2^18, so the rule falls back and returns -1, not 0 |
| `Orientation.ExactDifferences` | include/base.h:46-47 | the coordinate differences B - A and C - A computed exactly; their cross combination is the exact cross product |
| `Orientation.TurnAsWritten` | include/base.h:44-55 | `turn` as written, from the differences as `T` computed them; specified by `FloatDifferencesMisjudge` and `TurnWithExactDifferences` |
| `Orientation.FloatDifferencesMisjudge` | include/base.h:46-47 | for `T = float`, A = (1, 1), B = (2^24 + 2, 2^24 + 4), C = (6291457, 6291458): the differences rounded in `float` (each off by at most 1) give a floating value outside the bound, so `turn` answers -1 while the exact orientation is +1 |
| `Orientation.TurnWithExactDifferences` | include/base.h:44-55 | from exact differences, `turn`'s rule returns the exact orientation for every triple |
| `Orientation.TurnSwapLast` | include/base.h:38-42 | swapping B and C negates the orientation |
| `Orientation.TurnSwapFirst` | include/base.h:38-42 | swapping A and B negates the orientation |
| `Orientation.TurnRotate` | include/base.h:38-42 | rotating (A, B, C) to (B, C, A) keeps the orientation |
| `Orientation.TurnDegenerate` | include/base.h:38-42 | `turn(A, A, C)`, `turn(A, B, A)` and `turn(A, B, B)` are 0 |
| `Orientation.TurnTranslation` | include/base.h:38-42 | translating all three points by the same vector keeps the orientation |
| `Orientation.CrossAffine` | include/base.h:41 | at C + u(D - C) the cross product is (1 - u) times its value at C plus u times its value at D |
| `Boxes.Between` | include/base.h:10 | the `between(a, b, c)` macro, a <= b <= c; a predicate with no `ensures` of its own, used by `Boxes.BBox.Contains` and `Boxes.BBox.IntersectsWith` |
| `Boxes.Min` | include/base.h:78-79 | `std::min`: the result is at most both arguments and is one of them |
| `Boxes.Max` | include/base.h:78-79 | `std::max`: the result is at least both arguments and is one of them |
| `Boxes.BBox.IntersectsWith` | include/base.h:63-68 | the four-way `between` test on both axes; it has no `ensures` of its own and is specified by `Boxes.IntersectsWithIffCommonPoint` (and `IntersectsWithIffOverlap`, `IntersectsWithSymmetric`) |
| `Boxes.IntersectsWithSymmetric` | include/base.h:63-68 | `a.intersects_with(b) == b.intersects_with(a)` for all boxes |
| `Boxes.IntersectsWithIffOverlap` | include/base.h:63-68 | for well-formed boxes the four-way `between` test equals `max(x1, x1') <= min(x2, x2') && max(y1, y1') <= min(y2, y2')` |
| `Boxes.IntersectsWithIffCommonPoint` | include/base.h:63-68 | for well-formed boxes the test holds iff the two closed boxes share a point (boundaries count) |
| `Boxes.PointBoxIntersects` | include/base.h:63-68 | a box shrunk to one point overlaps a well-formed box iff that box holds the point |
| `Segments.Segment.BoundingBox` | include/base.h:77-80 | the box is well formed (x1 <= x2, y1 <= y2) and holds both endpoints |
| `Segments.Segment.IntersectsWith` | include/base.h:82-94 | the box filter and then the t1..t4 test, with the exact orientation; it has no `ensures` of its own and is specified by `Segments.IntersectsWithIffSharedPoint` |
| `Segments.Segment.FilteredIntersectsWith` | include/base.h:82-94 | the same test with t1..t4 computed by `turn`'s decision rule from given floating values; specified by `Segments.FilteredIntersectsWithIsExact` |
| `Segments.BoundingBoxIsTightest` | include/base.h:77-80 | every box holding both endpoints holds the bounding box |
| `Segments.HasPointInBoundingBox` | include/base.h:77-80 | every point of the closed segment lies in its bounding box |
| `Segments.HasPointIffCollinearInBox` | include/base.h:77-80 | a point is on the closed segment iff its cross product with the endpoints is 0 and it lies in the bounding box |
| `Segments.SharePointBoxesOverlap` | include/base.h:83-85 | segments with a common point have overlapping bounding boxes, so the early rejection never rejects meeting segments |
| `Segments.CollinearOverlapShares` | include/base.h:92 | when all four cross products are 0 and the boxes overlap, the segments share a point |
| `Segments.LinesMeet` | include/base.h:87-93 | when d1 != d2 the two supporting lines are not parallel, so two points that lie on both lines are equal |
| `Segments.ProperCrossingShares` | include/base.h:93 | when t1 != t2 and t3 != t4 the segments share a point (the point of the second segment at parameter d1/(d1-d2)) |
| `Segments.SharedPointSides` | include/base.h:87-93 | when the segments share a point, t1 == t2 forces t1 == 0, and t3 == t4 forces t3 == 0 |
| `Segments.IntersectsWithSound` | include/base.h:82-94 | when `intersects_with` answers true, the closed segments share a point |
| `Segments.IntersectsWithComplete` | include/base.h:82-94 | when the closed segments share a point, `intersects_with` answers true |
| `Segments.IntersectsWithIffSharedPoint` | include/base.h:82-94 | `intersects_with` holds iff the two closed segments have a point in common |
| `Segments.FilteredIntersectsWithIsExact` | include/base.h:82-94 | when each of the four floating evaluations is within `turn`'s error bound, the test built on `turn` gives the same answer as the exact test, hence true exactly when the closed segments share a point |
| `Segments.IntersectsWithSymmetric` | include/base.h:82-94 | `s1.intersects_with(s2) == s2.intersects_with(s1)` |
| `Segments.IntersectsWithReversed` | include/base.h:82-94 | reversing the first segment does not change the answer |
| `Segments.ScenarioProperCrossing` | include/base.h:82-94 | (0,0)-(2,2) and (0,2)-(2,0) intersect |
| `Segments.ScenarioCollinearDisjoint` | include/base.h:82-94 | (0,0)-(1,0) and (2,0)-(3,0) do not intersect |
| `Segments.ScenarioCollinearOverlap` | include/base.h:82-94 | (0,0)-(2,0) and (1,0)-(3,0) intersect |
| `Segments.ScenarioSharedEndpoint` | include/base.h:82-94 | (0,0)-(1,1) and (1,1)-(2,0) intersect |

## Left out

- The `long double` arithmetic of `turn` (include/base.h:46-49). The model
  does not compute the rounded products, their difference or the rounded
  bound. `FilteredTurn` takes the floating values as parameters and computes
  the bound exactly. Rounding cannot be modelled faithfully in `real`.
- Whether the factor 8 is enough to bound the rounding error of the
  `long double` products is not proved. `FilteredTurnIsExact` takes that as
  its hypothesis. For `T = float` the bound is not sound at all: the
  differences at include/base.h:46-47 are rounded in `float` first, an error
  the bound does not cover (see "## Findings").
- GMP `mpq_class` (include/base.h:6, 40) is a foreign library. Dafny's exact
  `real` arithmetic replaces it.
- Template genericity over integer and floating `T`. With a fixed-width `T`,
  `B.x - A.x` and `point`'s `+`/`-` are computed in `T` and can overflow.
  With a floating `T` narrower than `double` these differences are rounded in
  `T`; for `T = float` that makes `turn` disagree with `mpq_turn`
  (`FloatDifferencesMisjudge`). The segment model uses the exact `Turn`.
  NaN and infinite coordinates are also outside the model. Coordinates are
  unbounded exact reals.
- C++ construction details. The constructors are the datatype constructors.
  `operator+`/`operator-` default-construct their result although `point` has
  no default constructor; they are modelled as plain componentwise functions.

## Findings

| source | as written | input that shows it | evidently intended | confidence | as-written member | corrected member |
|---|---|---|---|---|---|---|
| include/base.h:46-47 | `turn` subtracts coordinates in `T` before converting to `long double`; for `T = float` the rounded differences escape the error bound of line 49 | A = (1, 1), B = (16777218, 16777220), C = (6291457, 6291458) as `float`: `turn` gives -1, `mpq_turn` gives +1 | `turn` returns `mpq_turn`'s sign, e.g. by converting each coordinate to `long double` before subtracting | medium, not executed | `Orientation.FloatDifferencesMisjudge` | `Orientation.TurnWithExactDifferences` |
