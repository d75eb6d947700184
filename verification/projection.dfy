/**
 Projection of a point onto one straight segment, clamped to the segment, with
 the signed cross product that tells on which side of the directed segment the
 point lies (`project_to_segment` and the side labelling of `nearest_on_rail`).
 */
module Projection {
  import opened Geometry

  /** Side of a point relative to the traversal direction of a line. */
  datatype Side = Left | Right | On

  /** `(proj_point, distance, side_sign)` of one segment. */
  datatype SegmentProjection = SegmentProjection(proj: Vec, dist: real, sign: real)

  function Opposite(s: Side): Side {
    match s
    case Left => Right
    case Right => Left
    case On => On
  }

  /** Label of a side sign: beyond the tolerance it is Left or Right, otherwise On. */
  function SideOf(sign: real): (s: Side)
    ensures s == Left <==> sign > Tolerance
    ensures s == Right <==> sign < -Tolerance
    ensures s == On <==> -Tolerance <= sign <= Tolerance
  {
    if sign > Tolerance then Left
    else if sign < -Tolerance then Right
    else On
  }

  /** A segment shorter than the tolerance is treated as its start point. */
  predicate Degenerate(norm: Vec -> real, a: Vec, b: Vec) {
    Magnitude(norm, Sub(b, a)) < Tolerance
  }

  /** The unclamped position `t` of the foot of the perpendicular from `pt`. */
  function Param(norm: Vec -> real, pt: Vec, a: Vec, b: Vec): real
    requires !Degenerate(norm, a, b)
  {
    var m := Magnitude(norm, Sub(b, a));
    SquarePositive(m);
    Dot(Sub(pt, a), Sub(b, a)) / Sq(m)
  }

  /** `t` clamped to [0, 1]. */
  function Clamp01(t: real): real {
    if t < 0.0 then 0.0 else if t > 1.0 then 1.0 else t
  }

  function ProjectToSegment(norm: Vec -> real, pt: Vec, a: Vec, b: Vec): (r: SegmentProjection)
    ensures r.dist == Distance(norm, pt, r.proj)
    ensures Degenerate(norm, a, b) ==> r.proj == a && r.sign == 0.0
    ensures !Degenerate(norm, a, b) ==>
              var t := Param(norm, pt, a, b);
              && (t < 0.0 ==> r.proj == a)
              && (t > 1.0 ==> r.proj == b)
              && (0.0 <= t <= 1.0 ==> r.proj == Lerp(a, b, t))
    // the sign is the orientation of `pt` against the directed line, whatever the clamping
    ensures !Degenerate(norm, a, b) ==> r.sign == Cross(Sub(b, a), Sub(pt, a))
  {
    var ab := Sub(b, a);
    if Magnitude(norm, ab) < Tolerance then
      SegmentProjection(a, Distance(norm, pt, a), 0.0)
    else
      var t := Param(norm, pt, a, b);
      var proj := if t < 0.0 then a else if t > 1.0 then b else Add(a, Scale(ab, t));
      SegmentProjection(proj, Distance(norm, pt, proj), Cross(ab, Sub(pt, proj)))
  }

  /** The projected point lies on the segment, at the clamped parameter. */
  lemma ProjectionOnSegment(norm: Vec -> real, pt: Vec, a: Vec, b: Vec) returns (s: real)
    ensures 0.0 <= s <= 1.0
    ensures ProjectToSegment(norm, pt, a, b).proj == Lerp(a, b, s)
    ensures !Degenerate(norm, a, b) ==> s == Clamp01(Param(norm, pt, a, b))
  {
    LerpEnds(a, b);
    if Degenerate(norm, a, b) {
      s := 0.0;
    } else {
      s := Clamp01(Param(norm, pt, a, b));
    }
  }

  /** `pt - Lerp(a, b, s)` squared, expanded as a quadratic in `s`. */
  lemma ExpandAlongLine(pt: Vec, a: Vec, b: Vec, s: real)
    ensures SqDist(pt, Lerp(a, b, s))
         == Dot(Sub(pt, a), Sub(pt, a)) - 2.0 * Mul(s, Dot(Sub(pt, a), Sub(b, a)))
            + Mul(Sq(s), Dot(Sub(b, a), Sub(b, a)))
  {
  }

  /** The quadratic `d * s^2 - 2 * s * (t * d)` is smallest over [0, 1] at `Clamp01(t)`. */
  lemma ClampMinimises(d: real, t: real, s: real)
    requires d > 0.0
    requires 0.0 <= s <= 1.0
    ensures Mul(Sq(Clamp01(t)), d) - 2.0 * Mul(Clamp01(t), Mul(t, d))
         <= Mul(Sq(s), d) - 2.0 * Mul(s, Mul(t, d))
  {
    var c := Clamp01(t);
    assert Mul(Sq(s), d) - 2.0 * Mul(s, Mul(t, d)) - (Mul(Sq(c), d) - 2.0 * Mul(c, Mul(t, d)))
        == Mul(d, Mul(s - c, s + c - 2.0 * t));
    if t < 0.0 {
      MulNonNegative(s - c, s + c - 2.0 * t);
    } else if t > 1.0 {
      MulNonNegative(1.0 - s, 2.0 * t - s - 1.0);
      assert Mul(s - c, s + c - 2.0 * t) == Mul(1.0 - s, 2.0 * t - s - 1.0);
    } else {
      SquareNonNegative(s - t);
      assert Mul(s - c, s + c - 2.0 * t) == Sq(s - t);
    }
    MulNonNegative(d, Mul(s - c, s + c - 2.0 * t));
  }

  /**
   On a proper segment the projected point is the nearest point of the whole
   segment to `pt`: no point `Lerp(a, b, s)` with `s` in [0, 1] is closer.
   */
  lemma ProjectionIsNearest(norm: Vec -> real, pt: Vec, a: Vec, b: Vec, s: real)
    requires IsEuclidean(norm)
    requires !Degenerate(norm, a, b)
    requires 0.0 <= s <= 1.0
    ensures SqDist(pt, ProjectToSegment(norm, pt, a, b).proj) <= SqDist(pt, Lerp(a, b, s))
    ensures ProjectToSegment(norm, pt, a, b).dist <= Distance(norm, pt, Lerp(a, b, s))
  {
    var r := ProjectToSegment(norm, pt, a, b);
    var c := ProjectionOnSegment(norm, pt, a, b);
    var m := Magnitude(norm, Sub(b, a));
    var d := Dot(Sub(b, a), Sub(b, a));
    var t := Param(norm, pt, a, b);
    MagnitudeFacts(norm, Sub(b, a));
    assert Sq(m) == d;
    assert d > 0.0 by {
      SquarePositive(m);
    }
    assert Mul(t, d) == Dot(Sub(pt, a), Sub(b, a)) by {
      DivMul(d, Dot(Sub(pt, a), Sub(b, a)));
    }
    ExpandAlongLine(pt, a, b, s);
    ExpandAlongLine(pt, a, b, c);
    ClampMinimises(d, t, s);
    MagnitudeMonotone(norm, Sub(pt, r.proj), Sub(pt, Lerp(a, b, s)));
  }

  lemma DivMul(d: real, p: real)
    requires d != 0.0
    ensures Mul(p / d, d) == p
  {
  }

  /** Hence it is no farther than either end point; a degenerate segment projects onto `a`. */
  lemma ProjectionNoFartherThanEnds(norm: Vec -> real, pt: Vec, a: Vec, b: Vec)
    requires IsEuclidean(norm)
    ensures ProjectToSegment(norm, pt, a, b).dist <= Distance(norm, pt, a)
    ensures !Degenerate(norm, a, b) ==> ProjectToSegment(norm, pt, a, b).dist <= Distance(norm, pt, b)
    ensures 0.0 <= ProjectToSegment(norm, pt, a, b).dist
  {
    LerpEnds(a, b);
    MagnitudeFacts(norm, Sub(pt, ProjectToSegment(norm, pt, a, b).proj));
    if !Degenerate(norm, a, b) {
      ProjectionIsNearest(norm, pt, a, b, 0.0);
      ProjectionIsNearest(norm, pt, a, b, 1.0);
    }
  }

  lemma DivComplement(d: real, p: real)
    requires d != 0.0
    ensures (d - p) / d == 1.0 - p / d
  {
    assert (d - p) / d == d / d - p / d;
  }

  /**
   Reversing a segment negates its side sign, and on a proper segment keeps the
   projected point and the distance: `t` becomes `1 - t` and clamping is symmetric.
   */
  lemma ProjectionReversed(norm: Vec -> real, pt: Vec, a: Vec, b: Vec)
    requires IsEuclidean(norm)
    ensures Degenerate(norm, a, b) <==> Degenerate(norm, b, a)
    ensures ProjectToSegment(norm, pt, b, a).sign == -ProjectToSegment(norm, pt, a, b).sign
    ensures !Degenerate(norm, a, b) ==>
              && ProjectToSegment(norm, pt, b, a).proj == ProjectToSegment(norm, pt, a, b).proj
              && ProjectToSegment(norm, pt, b, a).dist == ProjectToSegment(norm, pt, a, b).dist
  {
    MagnitudeNegate(norm, b, a);
    if !Degenerate(norm, a, b) {
      var m := Magnitude(norm, Sub(b, a));
      var d := Dot(Sub(b, a), Sub(b, a));
      MagnitudeFacts(norm, Sub(b, a));
      SquarePositive(m);
      assert Dot(Sub(pt, b), Sub(a, b)) == d - Dot(Sub(pt, a), Sub(b, a));
      DivComplement(Sq(m), Dot(Sub(pt, a), Sub(b, a)));
      assert Param(norm, pt, b, a) == 1.0 - Param(norm, pt, a, b);
      var t := Param(norm, pt, a, b);
      if 0.0 <= t <= 1.0 {
        assert Lerp(b, a, 1.0 - t) == Lerp(a, b, t);
      }
      assert Cross(Sub(a, b), Sub(pt, b)) == -Cross(Sub(b, a), Sub(pt, a));
    }
  }

  lemma SideOfNegated(sign: real)
    ensures SideOf(-sign) == Opposite(SideOf(sign))
  {
  }

  /** Reversing a segment swaps Left and Right and keeps On. */
  lemma SideReversed(norm: Vec -> real, pt: Vec, a: Vec, b: Vec)
    requires IsEuclidean(norm)
    ensures SideOf(ProjectToSegment(norm, pt, b, a).sign) == Opposite(SideOf(ProjectToSegment(norm, pt, a, b).sign))
  {
    ProjectionReversed(norm, pt, a, b);
    SideOfNegated(ProjectToSegment(norm, pt, a, b).sign);
  }

  lemma EastwardUnitLength()
    ensures Dot(Vec(1.0, 0.0), Vec(1.0, 0.0)) == 1.0
  {
  }

  lemma SquareOfOne()
    ensures Sq(1.0) == 1.0
  {
  }

  lemma EastwardCross(x: real, y: real)
    ensures Cross(Vec(1.0, 0.0), Sub(Vec(x, y), Vec(0.0, 0.0))) == y
  {
  }

  lemma UnitNorm(norm: Vec -> real)
    requires IsEuclidean(norm)
    ensures norm(Vec(1.0, 0.0)) == 1.0
  {
    EastwardUnitLength();
    SquareOfOne();
    NormIs(norm, Vec(1.0, 0.0), 1.0);
  }

  lemma EastwardProper(norm: Vec -> real)
    requires norm(Vec(1.0, 0.0)) == 1.0
    ensures !Degenerate(norm, Vec(0.0, 0.0), Vec(1.0, 0.0))
  {
    assert Sub(Vec(1.0, 0.0), Vec(0.0, 0.0)) == Vec(1.0, 0.0);
  }

  /** Worked example fixing the convention: a point above an eastward segment is on its left. */
  lemma LeftOfEastwardSegment(norm: Vec -> real, x: real, y: real)
    requires IsEuclidean(norm)
    ensures ProjectToSegment(norm, Vec(x, y), Vec(0.0, 0.0), Vec(1.0, 0.0)).sign == y
    ensures y > Tolerance ==> SideOf(ProjectToSegment(norm, Vec(x, y), Vec(0.0, 0.0), Vec(1.0, 0.0)).sign) == Left
  {
    UnitNorm(norm);
    EastwardProper(norm);
    EastwardCross(x, y);
  }
}
