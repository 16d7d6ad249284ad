/** The axis-aligned rectangle against rectangle overlap test.  A rectangle
    is given by its minimum and maximum corners; the test compares the
    extents of both rectangles on both axes with strict comparisons, so
    rectangles that only touch along an edge or at a corner are reported
    as not intersecting.
 */
module Rectangles {
  import opened Vector2

  datatype Rect = Rect(min: Vec2, max: Vec2)

  /** The corners are in order (the shape of every rectangle callers build). */
  predicate WellFormed(r: Rect) {
    r.min.x <= r.max.x && r.min.y <= r.max.y
  }

  /** The rectangle has a non-empty interior. */
  predicate Proper(r: Rect) {
    r.min.x < r.max.x && r.min.y < r.max.y
  }

  /** `p` lies in the open interior of `r`. */
  predicate StrictlyInside(p: Vec2, r: Rect) {
    r.min.x < p.x < r.max.x && r.min.y < p.y < r.max.y
  }

  /** `p` lies in the closed rectangle `r`. */
  predicate InsideOrOn(p: Vec2, r: Rect) {
    r.min.x <= p.x <= r.max.x && r.min.y <= p.y <= r.max.y
  }

  /** The overlap test: no gap between the extents on either axis. */
  function RectangleRectangle(r1: Rect, r2: Rect): bool {
    r1.min.x < r2.max.x     // no gap from r2's right edge to r1's left edge
    && r2.min.x < r1.max.x  // no gap from r1's right edge to r2's left edge
    && r1.min.y < r2.max.y  // no gap from r2's top edge to r1's bottom edge
    && r2.min.y < r1.max.y  // no gap from r1's top edge to r2's bottom edge
  }

  ghost function Mid(a: real, b: real): real {
    (a + b) / 2.0
  }

  ghost function Max(a: real, b: real): real {
    if a < b then b else a
  }

  ghost function Min(a: real, b: real): real {
    if a < b then a else b
  }

  /** For rectangles with an interior, the test holds exactly when some
      point lies strictly inside both: the open extents overlap on both
      axes. */
  lemma OverlapIffCommonInteriorPoint(r1: Rect, r2: Rect)
    requires Proper(r1) && Proper(r2)
    ensures RectangleRectangle(r1, r2) <==>
            exists p: Vec2 :: StrictlyInside(p, r1) && StrictlyInside(p, r2)
  {
    if RectangleRectangle(r1, r2) {
      var p := Vec2(Mid(Max(r1.min.x, r2.min.x), Min(r1.max.x, r2.max.x)),
                    Mid(Max(r1.min.y, r2.min.y), Min(r1.max.y, r2.max.y)));
      assert StrictlyInside(p, r1) && StrictlyInside(p, r2);
    }
  }

  /** For any rectangles with ordered corners, a positive answer means the
      closed rectangles share a point. */
  lemma OverlapHasCommonPoint(r1: Rect, r2: Rect)
    requires WellFormed(r1) && WellFormed(r2)
    requires RectangleRectangle(r1, r2)
    ensures exists p: Vec2 :: InsideOrOn(p, r1) && InsideOrOn(p, r2)
  {
    var p := Vec2(Max(r1.min.x, r2.min.x), Max(r1.min.y, r2.min.y));
    assert InsideOrOn(p, r1) && InsideOrOn(p, r2);
  }

  /** The test does not depend on the order of its arguments. */
  lemma RectangleRectangleSymmetric(r1: Rect, r2: Rect)
    ensures RectangleRectangle(r1, r2) == RectangleRectangle(r2, r1)
  {
  }

  /** Rectangles that only touch along a vertical or a horizontal edge (or
      at a corner) do not intersect. */
  lemma TouchingDoNotIntersect(r1: Rect, r2: Rect)
    requires r1.max.x == r2.min.x || r1.max.y == r2.min.y
    ensures !RectangleRectangle(r1, r2) && !RectangleRectangle(r2, r1)
  {
  }

  /** A rectangle intersects itself exactly when it has an interior: a
      rectangle of zero width or height touches itself only at its
      boundary. */
  lemma SelfOverlapIffProper(r: Rect)
    ensures RectangleRectangle(r, r) <==> Proper(r)
  {
  }

  /** Moving both rectangles by the same displacement does not change the
      answer. */
  lemma TranslationInvariant(r1: Rect, r2: Rect, t: Vec2)
    ensures RectangleRectangle(Rect(Add2(r1.min, t), Add2(r1.max, t)),
                               Rect(Add2(r2.min, t), Add2(r2.max, t)))
            == RectangleRectangle(r1, r2)
  {
  }

  /** Growing a rectangle never turns an intersection into none. */
  lemma MonotoneInContainment(r1: Rect, big: Rect, r2: Rect)
    requires big.min.x <= r1.min.x && r1.max.x <= big.max.x
    requires big.min.y <= r1.min.y && r1.max.y <= big.max.y
    requires RectangleRectangle(r1, r2)
    ensures RectangleRectangle(big, r2)
  {
  }
}
