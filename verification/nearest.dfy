/**
 Nearest point of one rail to a query point (`nearest_on_rail`): the segment
 whose clamped projection is closest wins, the first one on a tie, and the
 result reports the arc length to the projected point, the distance and the side.
 */
module NearestRail {
  import opened Geometry
  import opened Projection
  import opened CumulativeLength
  import opened Sorting

  /**
   `(length_along, distance, side)` of the nearest point. `NoSegment` is the
   `(None, inf, 'On')` returned for a rail without any segment.
   */
  datatype RailHit = NoSegment | Hit(length: real, dist: real, side: Side)

  /** Distance from `pt` to segment `i`, from `vecs[i]` to `vecs[i + 1]`. */
  function SegmentDist(norm: Vec -> real, pt: Vec, vecs: seq<Vec>, i: nat): real
    requires i + 1 < |vecs|
  {
    ProjectToSegment(norm, pt, vecs[i], vecs[i + 1]).dist
  }

  /** Segment `k` is at least as near as every segment and strictly nearer than every earlier one. */
  ghost predicate IsFirstNearest(norm: Vec -> real, pt: Vec, vecs: seq<Vec>, k: nat)
    requires k + 1 < |vecs|
  {
    && (forall j :: 0 <= j < |vecs| - 1 ==> SegmentDist(norm, pt, vecs, k) <= SegmentDist(norm, pt, vecs, j))
    && (forall j :: 0 <= j < k ==> SegmentDist(norm, pt, vecs, k) < SegmentDist(norm, pt, vecs, j))
  }

  /** The segments' distances as sort keys, segment `i` at index `i`. */
  function SegmentKeys(norm: Vec -> real, pt: Vec, vecs: seq<Vec>): (keys: seq<Key>)
    requires |vecs| >= 2
    ensures |keys| == |vecs| - 1
    ensures forall i :: 0 <= i < |keys| ==> keys[i] == Finite(SegmentDist(norm, pt, vecs, i))
  {
    seq(|vecs| - 1, i requires 0 <= i < |vecs| - 1 => Finite(SegmentDist(norm, pt, vecs, i)))
  }

  /** Being the first least key among the segment keys is being the first nearest segment. */
  lemma FirstLeastIsFirstNearest(norm: Vec -> real, pt: Vec, vecs: seq<Vec>, k: nat)
    requires k + 1 < |vecs|
    ensures IsFirstLeast(SegmentKeys(norm, pt, vecs), k) <==> IsFirstNearest(norm, pt, vecs, k)
  {
  }

  /**
   The segment the scan of lines 105-109 ends with. It starts from an infinite
   best distance, so segment 0 is taken first, and a later segment replaces the
   best only when it is strictly nearer: the scan of the first least key.
   */
  function FirstNearest(norm: Vec -> real, pt: Vec, vecs: seq<Vec>): (k: nat)
    requires |vecs| >= 2
    ensures k + 1 < |vecs|
    ensures IsFirstNearest(norm, pt, vecs, k)
  {
    var k := FirstLeastFrom(SegmentKeys(norm, pt, vecs), 1, 0);
    FirstLeastIsFirstNearest(norm, pt, vecs, k);
    k
  }

  /**
   What the scan records when segment `k` becomes the best one: the segment's
   distance; the length along the rail to the projected point, which for the
   rail's own cumulative table is the path length up to the segment start plus
   the distance from that start to the projection; and the side of the point
   against the directed segment, `On` for a degenerate one.
   */
  function HitAt(norm: Vec -> real, pt: Vec, vecs: seq<Vec>, cum: seq<real>, k: nat): (r: RailHit)
    requires k + 1 < |vecs|
    requires k < |cum|
    ensures r.Hit?
    ensures r.dist == SegmentDist(norm, pt, vecs, k)
    ensures IsCumTable(norm, vecs, cum) ==>
              r.length == PathLength(norm, vecs[..k + 1]) + Distance(norm, ProjectToSegment(norm, pt, vecs[k], vecs[k + 1]).proj, vecs[k])
    ensures Degenerate(norm, vecs[k], vecs[k + 1]) ==> r.side == On
    ensures !Degenerate(norm, vecs[k], vecs[k + 1]) ==> r.side == SideOf(Cross(Sub(vecs[k + 1], vecs[k]), Sub(pt, vecs[k])))
  {
    var p := ProjectToSegment(norm, pt, vecs[k], vecs[k + 1]);
    var length := cum[k] + Magnitude(norm, Sub(p.proj, vecs[k]));
    assert IsCumTable(norm, vecs, cum) ==> cum[k] == PathLength(norm, vecs[..k + 1]) by {
      if IsCumTable(norm, vecs, cum) {
        CumTableIsPrefixLength(norm, vecs, cum, k);
      }
    }
    Hit(length, p.dist, SideOf(p.sign))
  }

  function NearestOnRail(norm: Vec -> real, pt: Vec, vecs: seq<Vec>, cum: seq<real>): (r: RailHit)
    requires |vecs| <= |cum| + 1
    ensures r.NoSegment? <==> |vecs| < 2
    ensures r.Hit? ==> forall j :: 0 <= j < |vecs| - 1 ==> r.dist <= SegmentDist(norm, pt, vecs, j)
    ensures r.Hit? ==>
              exists k :: 0 <= k < |vecs| - 1 && IsFirstNearest(norm, pt, vecs, k) && r == HitAt(norm, pt, vecs, cum, k)
  {
    if |vecs| < 2 then NoSegment
    else HitAt(norm, pt, vecs, cum, FirstNearest(norm, pt, vecs))
  }

  /** At most one segment is the first nearest, so the result above is determined. */
  lemma FirstNearestUnique(norm: Vec -> real, pt: Vec, vecs: seq<Vec>, k1: nat, k2: nat)
    requires k1 + 1 < |vecs| && k2 + 1 < |vecs|
    requires IsFirstNearest(norm, pt, vecs, k1)
    requires IsFirstNearest(norm, pt, vecs, k2)
    ensures k1 == k2
  {
    FirstLeastIsFirstNearest(norm, pt, vecs, k1);
    FirstLeastIsFirstNearest(norm, pt, vecs, k2);
    FirstLeastUnique(SegmentKeys(norm, pt, vecs), k1, k2);
  }

  /**
   The reported length lies within the chosen segment's stretch of the
   cumulative table: `cum[k] <= length <= cum[k + 1]`.
   */
  lemma HitLengthWithinSegment(norm: Vec -> real, pt: Vec, vecs: seq<Vec>, cum: seq<real>, k: nat)
    requires IsEuclidean(norm)
    requires IsCumTable(norm, vecs, cum)
    requires k + 1 < |vecs|
    ensures cum[k] <= HitAt(norm, pt, vecs, cum, k).length <= cum[k + 1]
  {
    var a, b := vecs[k], vecs[k + 1];
    var p := ProjectToSegment(norm, pt, a, b);
    var s := ProjectionOnSegment(norm, pt, a, b);
    assert Sub(p.proj, a) == Scale(Sub(b, a), s);
    MagnitudeScale(norm, Sub(b, a), s);
    var m := Magnitude(norm, Sub(b, a));
    MagnitudeFacts(norm, Sub(b, a));
    MulNonNegative(s, m);
    MulNonNegative(1.0 - s, m);
    assert Mul(1.0 - s, m) == m - Mul(s, m);
    MagnitudeNegate(norm, a, b);
  }

  /**
   The side label is that of the query point against the directed chosen
   segment: Left beyond the tolerance, Right below minus the tolerance, else On;
   a degenerate segment always gives On.
   */
  lemma HitSide(norm: Vec -> real, pt: Vec, vecs: seq<Vec>, cum: seq<real>, k: nat)
    requires k + 1 < |vecs|
    requires k < |cum|
    ensures Degenerate(norm, vecs[k], vecs[k + 1]) ==> HitAt(norm, pt, vecs, cum, k).side == On
    ensures !Degenerate(norm, vecs[k], vecs[k + 1]) ==>
              var c := Cross(Sub(vecs[k + 1], vecs[k]), Sub(pt, vecs[k]));
              && (HitAt(norm, pt, vecs, cum, k).side == Left <==> c > Tolerance)
              && (HitAt(norm, pt, vecs, cum, k).side == Right <==> c < -Tolerance)
  {
    var p := ProjectToSegment(norm, pt, vecs[k], vecs[k + 1]);
    assert HitAt(norm, pt, vecs, cum, k).side == SideOf(p.sign);
  }

  /**
   The reported distance is that of the nearest point of the whole rail: no
   point of any proper segment is nearer to the query point.
   */
  lemma NearestOnRailIsNearestPoint(norm: Vec -> real, pt: Vec, vecs: seq<Vec>, cum: seq<real>, j: nat, s: real)
    requires IsEuclidean(norm)
    requires |vecs| <= |cum| + 1
    requires j + 1 < |vecs|
    requires !Degenerate(norm, vecs[j], vecs[j + 1])
    requires 0.0 <= s <= 1.0
    ensures NearestOnRail(norm, pt, vecs, cum).dist <= Distance(norm, pt, Lerp(vecs[j], vecs[j + 1], s))
  {
    var r := NearestOnRail(norm, pt, vecs, cum);
    assert r.dist <= SegmentDist(norm, pt, vecs, j);
    ProjectionIsNearest(norm, pt, vecs[j], vecs[j + 1], s);
  }
}
