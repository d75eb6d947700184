/**
 Two-dimensional vector arithmetic over exact reals, as used by the
 mileage-projection engine (the `Vec2` operations of the drawing library).

 The Euclidean norm needs a square root, which the reals of Dafny do not
 provide. Every member that measures a length therefore takes the norm as a
 parameter `norm`; the lemmas that need it to be the Euclidean norm require
 `IsEuclidean(norm)`, which determines it uniquely: `norm(v)` is the
 non-negative real whose square is `Dot(v, v)`.

 Products that proofs reason about are named (`Sq`, `Mul`, `Dot`) so that the
 facts about them stay linear in those names.
 */
module Geometry {

  datatype Vec = Vec(x: real, y: real)

  /** Geometric tolerance used to detect degenerate segments and the "On" side. */
  const Tolerance: real := 0.000001

  function Add(a: Vec, b: Vec): Vec { Vec(a.x + b.x, a.y + b.y) }

  function Sub(a: Vec, b: Vec): Vec { Vec(a.x - b.x, a.y - b.y) }

  function Scale(v: Vec, c: real): Vec { Vec(v.x * c, v.y * c) }

  function Mul(a: real, b: real): real { a * b }

  function Sq(a: real): real { a * a }

  function Dot(a: Vec, b: Vec): real { a.x * b.x + a.y * b.y }

  /** The z component of the 3D cross product: positive when `v` turns left of `u`. */
  function Cross(u: Vec, v: Vec): real { u.x * v.y - u.y * v.x }

  /** The point `a + (b - a) * t` of the line through `a` and `b`. */
  function Lerp(a: Vec, b: Vec, t: real): Vec { Add(a, Scale(Sub(b, a), t)) }

  /** Squared Euclidean distance, needing no square root. */
  function SqDist(a: Vec, b: Vec): real { Dot(Sub(a, b), Sub(a, b)) }

  /** `norm` is the Euclidean norm: a non-negative square root of `Dot(v, v)`. */
  ghost predicate IsEuclidean(norm: Vec -> real) {
    forall v :: 0.0 <= norm(v) && Sq(norm(v)) == Dot(v, v)
  }

  /** Euclidean norm, `Vec2.magnitude`. */
  function Magnitude(norm: Vec -> real, v: Vec): real { norm(v) }

  /** Euclidean distance, `Vec2.distance`. */
  function Distance(norm: Vec -> real, a: Vec, b: Vec): real { Magnitude(norm, Sub(a, b)) }

  // ---------------------------------------------------------------------------
  // Facts about products and square roots

  lemma MulPositive(a: real, b: real)
    requires a > 0.0 && b > 0.0
    ensures Mul(a, b) > 0.0
  {
  }

  lemma MulNonNegative(a: real, b: real)
    requires a >= 0.0 && b >= 0.0
    ensures Mul(a, b) >= 0.0
  {
  }

  lemma SquarePositive(a: real)
    requires a != 0.0
    ensures Sq(a) > 0.0
  {
    if a < 0.0 {
      MulPositive(-a, -a);
      assert Sq(a) == Mul(-a, -a);
    } else {
      MulPositive(a, a);
      assert Sq(a) == Mul(a, a);
    }
  }

  lemma SquareNonNegative(a: real)
    ensures Sq(a) >= 0.0
  {
    if a != 0.0 {
      SquarePositive(a);
    }
  }

  lemma SquaresLess(r: real, q: real)
    requires 0.0 <= r < q
    ensures Sq(r) < Sq(q)
  {
    MulPositive(q - r, q + r);
    assert Mul(q - r, q + r) == Sq(q) - Sq(r);
  }

  /** On non-negative reals, comparing squares is comparing the numbers. */
  lemma RootMonotone(r: real, q: real)
    requires 0.0 <= r && 0.0 <= q
    ensures Sq(r) <= Sq(q) <==> r <= q
    ensures Sq(r) < Sq(q) <==> r < q
  {
    if r < q {
      SquaresLess(r, q);
    } else if q < r {
      SquaresLess(q, r);
    }
  }

  /** The norm of `v` is the one non-negative root of `Dot(v, v)`. */
  lemma NormIs(norm: Vec -> real, v: Vec, r: real)
    requires IsEuclidean(norm)
    requires 0.0 <= r && Sq(r) == Dot(v, v)
    ensures norm(v) == r
  {
    RootMonotone(norm(v), r);
  }

  lemma MagnitudeFacts(norm: Vec -> real, v: Vec)
    requires IsEuclidean(norm)
    ensures 0.0 <= Magnitude(norm, v)
    ensures Sq(Magnitude(norm, v)) == Dot(v, v)
  {
  }

  /** Scaling by a non-negative factor scales the length by that factor. */
  lemma MagnitudeScale(norm: Vec -> real, v: Vec, c: real)
    requires IsEuclidean(norm)
    requires 0.0 <= c
    ensures Magnitude(norm, Scale(v, c)) == Mul(c, Magnitude(norm, v))
  {
    MagnitudeFacts(norm, v);
    var m := Magnitude(norm, v);
    assert Dot(Scale(v, c), Scale(v, c)) == Mul(Sq(c), Dot(v, v));
    assert Sq(c * m) == Mul(Sq(c), Sq(m));
    MulNonNegative(c, m);
    NormIs(norm, Scale(v, c), Mul(c, m));
  }

  /** Comparing lengths is comparing squared lengths. */
  lemma MagnitudeMonotone(norm: Vec -> real, u: Vec, v: Vec)
    requires IsEuclidean(norm)
    ensures Magnitude(norm, u) <= Magnitude(norm, v) <==> Dot(u, u) <= Dot(v, v)
    ensures Magnitude(norm, u) < Magnitude(norm, v) <==> Dot(u, u) < Dot(v, v)
  {
    MagnitudeFacts(norm, u);
    MagnitudeFacts(norm, v);
    RootMonotone(Magnitude(norm, u), Magnitude(norm, v));
  }

  /** Opposite vectors have the same length. */
  lemma MagnitudeNegate(norm: Vec -> real, a: Vec, b: Vec)
    requires IsEuclidean(norm)
    ensures Magnitude(norm, Sub(a, b)) == Magnitude(norm, Sub(b, a))
  {
    assert Dot(Sub(a, b), Sub(a, b)) == Dot(Sub(b, a), Sub(b, a));
    NormIs(norm, Sub(a, b), norm(Sub(b, a)));
  }

  lemma LerpEnds(a: Vec, b: Vec)
    ensures Lerp(a, b, 0.0) == a
    ensures Lerp(a, b, 1.0) == b
  {
  }
}
