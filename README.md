# Exact-arithmetic core of the sald 2D collision helpers

This project models the part of `sald/collide.js` that only adds, subtracts,
multiplies and compares coordinates. Coordinates are Dafny `real`s, an exact
stand-in for JavaScript numbers. The modelled parts are:

- **Vector helpers** (`vector2.dfy`, module `Vector2`). `neg2`, `add2`,
  `sub2` and `perp2` build a new `{x, y}` record from old ones. Here they are
  functions on `Vec2` with their algebraic laws proved as lemmas. The product
  `dot2` and the squared length built from it are modelled as written. The
  intended inner product is modelled next to them (see Findings).
- **Rectangle overlap** (`rectangle.dfy`, module `Rectangles`).
  `rectangleRectangle` makes four strict comparisons of the rectangles'
  extents, so rectangles that only touch report no intersection. It is proved
  equivalent to "some point lies strictly inside both" for rectangles with an
  interior. It is also proved symmetric, false on touching edges, invariant
  under translation and monotone under growth.
- **Support-vertex search** (`support.dfy`, module `Support`). `minDot2`
  walks a cyclic vertex list forward while the projection strictly drops,
  then backward while it strictly drops. The two do-while loops are methods
  with loop invariants. They are proved against recursive specification
  functions (`ForwardStop`, `BackwardStop`). Termination comes from a
  measure: the number of scores strictly below the current one. The results
  proved are these:
  - the reported index lies in `1..|p|` and names a vertex modulo `|p|`;
  - the returned score is that vertex's score and is no higher than the seed's;
  - the vertex is a cyclic local minimum;
  - the two loops run at most `|p| + 1` iterations together.

  The projection `dot(p[i], d)` calls a function the file never defines. The
  model therefore takes the score of each vertex as an input sequence
  `score`, with `score[k]` the projection of vertex `k`. The seed
  `initial || 0` is an `Option<nat>`.

## Model

| member | source | states |
|---|---|---|
| Vector2.SubAddCancel | sald/collide.js:17-23 | subtracting `v` from `add2(u, v)` gives back `u` |
| Vector2.AddSubCancel | sald/collide.js:17-23 | adding `v` to `sub2(u, v)` gives back `u` |
| Vector2.NegNeg | sald/collide.js:1-3 | negating twice gives back the vector |
| Vector2.PerpPerp | sald/collide.js:25-27 | two quarter turns equal the negation |
| Vector2.PerpFourTimes | sald/collide.js:25-27 | four quarter turns are the identity |
| Vector2.PerpNeg | sald/collide.js:25-27 | the quarter turn commutes with negation |
| Vector2.SubIsAddNeg | sald/collide.js:1-23 | `sub2(u, v)` is `add2(u, neg2(v))` |
| Vector2.SubAntiSymmetric | sald/collide.js:21-23 | swapping the operands of `sub2` negates the result |
| Vector2.AddGroup | sald/collide.js:17-19 | `add2` is commutative and associative, with the zero vector as unit and `neg2` as inverse |
| Vector2.PerpLinear | sald/collide.js:17-27 | the quarter turn distributes over `add2` and `sub2` |
| Vector2.AsWrittenLengthSquaredCanBeNegative | sald/collide.js:5-11 | the squared length as written is negative for some vector |
| Vector2.AsWrittenPerpNotOrthogonal | sald/collide.js:5-7 | the product as written of (1, 0) with its quarter turn is 1, not 0 |
| Vector2.LengthSquared2 | sald/collide.js:9-11 | the corrected squared length is never negative and is 0 for the zero vector |
| Vector2.Dot2Laws | sald/collide.js:5-7 | the corrected product is symmetric, additive and homogeneous in its first argument, and flips sign under `neg2` |
| Vector2.PerpOrthogonal | sald/collide.js:25-27 | under the corrected product a vector is orthogonal to its quarter turn, and the turn keeps its squared length |
| Rectangles.OverlapIffCommonInteriorPoint | sald/collide.js:75-80 | for rectangles with an interior, the test holds exactly when some point lies strictly inside both (the open extents overlap on both axes) |
| Rectangles.OverlapHasCommonPoint | sald/collide.js:75-80 | for rectangles with ordered corners, a positive answer means the closed rectangles share a point |
| Rectangles.RectangleRectangleSymmetric | sald/collide.js:76-79 | swapping the two rectangles does not change the answer |
| Rectangles.TouchingDoNotIntersect | sald/collide.js:76-79 | when one rectangle's maximum x or y equals the other's minimum, the answer is false in both argument orders |
| Rectangles.SelfOverlapIffProper | sald/collide.js:76-79 | a rectangle intersects itself exactly when it has positive width and height |
| Rectangles.TranslationInvariant | sald/collide.js:75-80 | moving both rectangles by the same `add2` displacement does not change the answer |
| Rectangles.MonotoneInContainment | sald/collide.js:75-80 | replacing a rectangle by one that contains it keeps a positive answer |
| Support.StepForward | sald/collide.js:40 | `(i + 1) % p.length` is the cyclic successor of vertex `i` |
| Support.StepBackward | sald/collide.js:48 | `(i - 1 + p.length) % p.length` is the cyclic predecessor of the vertex `i` stands for, including `i == -1` after the decrement |
| Support.ReportedIndex | sald/collide.js:51-53 | one past the predecessor of vertex `b` lies in `1..n` and names `b` modulo `n` |
| Support.CountBelowDrops | sald/collide.js:42 | a strictly lower score leaves strictly fewer scores below it, so every continued iteration lowers the loops' measure |
| Support.ForwardStop | sald/collide.js:38-43 | where the forward walk stops: a vertex scoring no higher than the start and no higher than its successor |
| Support.BackwardStop | sald/collide.js:45-51 | where the backward walk stops: a vertex scoring no higher than the start and no higher than its predecessor; unless it stops at once, its successor scores strictly higher |
| Support.ForwardIteration | sald/collide.js:38-42 | one forward iteration either continues to a vertex with the same stop and a lower measure, or stops on the current vertex |
| Support.BackwardIteration | sald/collide.js:46-50 | one backward iteration either continues to a vertex with the same stop and a lower measure, or stops on the current vertex |
| Support.SupportIndexLocalMinimum | sald/collide.js:34-53 | the vertex the search settles on scores no higher than the seed and no higher than either cyclic neighbour |
| Support.SupportIndexIdempotent | sald/collide.js:34-53 | seeding the search with the vertex it found finds that vertex again |
| Support.LocalMinimumIsFixedPoint | sald/collide.js:38-50 | a search seeded at a cyclic local minimum stays there |
| Support.ForwardWalk | sald/collide.js:37-42 | the first do-while ends one vertex past the forward stop, with `v` the stop's score, after at most `n - CountBelow(v)` iterations |
| Support.BackwardWalk | sald/collide.js:45-50 | the second do-while ends one vertex before the backward stop, with `v` the stop's score; every iteration but the last lowers the measure |
| Support.MinDot2AsWritten | sald/collide.js:34-54 | returns `i` in `1..n` naming the support vertex modulo `n`; `v` is its score, no higher than the seed's and no higher than either neighbour's; the two loops run at least once each and at most `n + 1` times together |
| Support.MinDot2 | sald/collide.js:34-54 | the corrected search returns an index in `0..n-1` with the same vertex, score and local minimality |
| Support.AsWrittenReportsLengthForVertexZero | sald/collide.js:34-54 | running the search as written on scores [0, 1] with no seed returns index 2, which is not a valid seed |
| Support.CorrectedResultReseeds | sald/collide.js:34-54 | the corrected result is always a valid seed, and reseeding with it finds the same vertex |

## Left out

- `rayCircle`, `rayRectangle`, `rayConvex` (sald/collide.js:146-229) are not modelled.
  - They depend on `Math.sqrt`, on division by direction components that can be zero, and on infinities. Exact reals have no counterpart for this.
  - `rayRectangle` reads the extents from the ray instead of the rectangle.
  - `rayConvex` is not valid JavaScript (`for(int i`).
- `convexConvex` (sald/collide.js:89-136) is not modelled, because its text has no stable behaviour.
  - It calls `neg2` with two arguments.
  - It never assigns `max1` and assigns `max2` twice.
  - It reads `.x`/`.y` from the `{i, v}` results of the search.
  - It caches the search seeds on the polygon objects (`lastMin`, `lastMax`). That aliasing is not modelled.
- `circleCircle` (sald/collide.js:63-66) is not modelled. It calls the undefined `dot` and never reads the second circle's centre.
- `length` and `norm2` (sald/collide.js:13-15, 29-32) are not modelled, because they use `Math.sqrt` and division.
- The `module.exports` table (sald/collide.js:232-239) is not modelled.
- The score `dot(p[i], d)` is an input sequence. The vertex coordinates and the direction do not appear in the search, because the product it calls is not defined in the file.
- Support.MinDot2AsWritten requires a seed inside `0..n-1`, so the vertex list is not empty. An out-of-range seed, or an empty list, makes the source read `undefined`. A single vertex is modelled: the source's `(-1 - 1 + 1) % 1` is negative zero, which indexes vertex 0 just as the Euclidean remainder's 0 does.
- Support.MinDot2AsWritten proves local minimality only, not that the vertex is the global minimum. Global minimality holds for convex polygons, but the scores abstract that geometry away.
- Support.MinDot2 proves local minimality only, not global minimality, for the same reason: convexity is lost once the vertices become scores.
- Floating-point rounding, NaN and infinities are not modelled. Coordinates are exact reals.

## Findings

| source | as written | input that shows it | evidently intended | confidence | as-written member | corrected member |
|---|---|---|---|---|---|---|
| sald/collide.js:51-53 | the final `i++` is not reduced modulo `p.length`, so vertex 0 is reported as index `p.length`. `convexConvex` (sald/collide.js:96-104) passes the reported index back as `initial`, and `p[p.length]` is not a vertex | scores [0, 1], no seed: the search settles on vertex 0 and returns `i = 2` | report `(i + 1) % p.length`, an index of `p` that can seed the next search | high (not executed) | Support.AsWrittenReportsLengthForVertexZero | Support.MinDot2 |
| sald/collide.js:5-7 | `dot2` computes `u.x*v.x + u.y+v.y`, adding the y components instead of multiplying them | `length_squared2({x: 0, y: -1})` is -2; `dot2` of (1, 0) with its quarter turn is 1 | `u.x*v.x + u.y*v.y` | high (not executed) | Vector2.AsWrittenLengthSquaredCanBeNegative | Vector2.LengthSquared2 |
