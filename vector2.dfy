/** Two-component vectors and the helpers that build new ones from old ones
    (negation, sum, difference, quarter turn) together with the product used
    to project a point on a direction.  Coordinates are reals: the helpers
    only add, subtract, multiply and compare, so an exact number stands in
    for the floating-point coordinates of the original.
 */
module Vector2 {

  /** A point or a displacement; nothing distinguishes the two. */
  datatype Vec2 = Vec2(x: real, y: real)

  const Zero: Vec2 := Vec2(0.0, 0.0)

  /** The vector pointing the other way. */
  function Neg2(v: Vec2): Vec2 {
    Vec2(-v.x, -v.y)
  }

  /** Component-wise sum. */
  function Add2(u: Vec2, v: Vec2): Vec2 {
    Vec2(u.x + v.x, u.y + v.y)
  }

  /** Component-wise difference `u - v`. */
  function Sub2(u: Vec2, v: Vec2): Vec2 {
    Vec2(u.x - v.x, u.y - v.y)
  }

  /** Rotation by a quarter turn counter-clockwise. */
  function Perp2(v: Vec2): Vec2 {
    Vec2(-v.y, v.x)
  }

  // ---------------------------------------------------------------------
  // Algebraic laws of the helpers

  /** Subtracting what was added gives back the original vector. */
  lemma SubAddCancel(u: Vec2, v: Vec2)
    ensures Sub2(Add2(u, v), v) == u
  {
  }

  /** Adding back what was subtracted gives back the original vector. */
  lemma AddSubCancel(u: Vec2, v: Vec2)
    ensures Add2(Sub2(u, v), v) == u
  {
  }

  /** Negation is an involution. */
  lemma NegNeg(v: Vec2)
    ensures Neg2(Neg2(v)) == v
  {
  }

  /** Two quarter turns make a half turn. */
  lemma PerpPerp(v: Vec2)
    ensures Perp2(Perp2(v)) == Neg2(v)
  {
  }

  /** Four quarter turns are the identity. */
  lemma PerpFourTimes(v: Vec2)
    ensures Perp2(Perp2(Perp2(Perp2(v)))) == v
  {
  }

  /** A quarter turn commutes with negation. */
  lemma PerpNeg(v: Vec2)
    ensures Perp2(Neg2(v)) == Neg2(Perp2(v))
  {
  }

  /** Subtraction is addition of the negation. */
  lemma SubIsAddNeg(u: Vec2, v: Vec2)
    ensures Sub2(u, v) == Add2(u, Neg2(v))
  {
  }

  /** Swapping the operands of a difference negates it. */
  lemma SubAntiSymmetric(u: Vec2, v: Vec2)
    ensures Sub2(v, u) == Neg2(Sub2(u, v))
  {
  }

  /** Addition is commutative and associative, with Zero as unit and
      the negation as inverse. */
  lemma AddGroup(u: Vec2, v: Vec2, w: Vec2)
    ensures Add2(u, v) == Add2(v, u)
    ensures Add2(Add2(u, v), w) == Add2(u, Add2(v, w))
    ensures Add2(u, Zero) == u
    ensures Add2(u, Neg2(u)) == Zero
  {
  }

  /** The quarter turn is linear. */
  lemma PerpLinear(u: Vec2, v: Vec2)
    ensures Perp2(Add2(u, v)) == Add2(Perp2(u), Perp2(v))
    ensures Perp2(Sub2(u, v)) == Sub2(Perp2(u), Perp2(v))
  {
  }

  // ---------------------------------------------------------------------
  // The product used for projections

  /** The product as the repository writes it: `u.x*v.x + u.y + v.y`.  The
      y components are added, not multiplied. */
  function Dot2AsWritten(u: Vec2, v: Vec2): real {
    u.x * v.x + u.y + v.y
  }

  /** The squared length as the repository writes it: the product of a
      vector with itself. */
  function LengthSquared2AsWritten(v: Vec2): real {
    Dot2AsWritten(v, v)
  }

  /** The product as written can make a squared length negative. */
  lemma AsWrittenLengthSquaredCanBeNegative()
    ensures exists v: Vec2 :: LengthSquared2AsWritten(v) < 0.0
  {
    var w := Vec2(0.0, -1.0);
    assert LengthSquared2AsWritten(w) == -2.0;
  }

  /** The product as written does not find the unit x vector orthogonal to
      its own quarter turn. */
  lemma AsWrittenPerpNotOrthogonal()
    ensures Dot2AsWritten(Vec2(1.0, 0.0), Perp2(Vec2(1.0, 0.0))) == 1.0
  {
  }

  /** The evident intent: the Euclidean inner product. */
  function Dot2(u: Vec2, v: Vec2): real {
    u.x * v.x + u.y * v.y
  }

  /** Squared length: the product of a vector with itself.  Unlike the
      squared length as written, it is never negative. */
  function LengthSquared2(v: Vec2): (r: real)
    ensures r >= 0.0
    ensures v == Zero ==> r == 0.0
  {
    SquareNonNegative(v.x);
    SquareNonNegative(v.y);
    Dot2(v, v)
  }

  lemma SquareNonNegative(a: real)
    ensures a * a >= 0.0
  {
    if a < 0.0 {
      assert a * a == (-a) * (-a);
    }
  }

  /** The inner product is symmetric and bilinear in its first argument. */
  lemma Dot2Laws(u: Vec2, v: Vec2, w: Vec2, k: real)
    ensures Dot2(u, v) == Dot2(v, u)
    ensures Dot2(Add2(u, w), v) == Dot2(u, v) + Dot2(w, v)
    ensures Dot2(Neg2(u), v) == -Dot2(u, v)
    ensures Dot2(Vec2(k * u.x, k * u.y), v) == k * Dot2(u, v)
  {
  }

  /** A quarter turn is orthogonal to the vector it turns, and keeps its
      length: what makes the turned edge of a polygon an axis. */
  lemma PerpOrthogonal(v: Vec2)
    ensures Dot2(v, Perp2(v)) == 0.0
    ensures LengthSquared2(Perp2(v)) == LengthSquared2(v)
  {
  }
}
