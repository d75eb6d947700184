/**
 Polyline densification (`densify`): every segment longer than the maximum
 length gets `floor(length / maxLen)` evenly spaced interior points, which cut it
 into that many plus one equal pieces. Original vertices are kept, in order.
 */
module Densification {
  import opened Geometry

  /** `MAX_SEG_LEN`, the maximum segment length used when rails are loaded. */
  const MaxSegLen: real := 5.0

  /** Number of interior points inserted into the segment `a`-`b`. */
  function SegmentSteps(norm: Vec -> real, a: Vec, b: Vec, maxLen: real): (steps: nat)
    requires maxLen > 0.0
    ensures steps > 0 <==> Distance(norm, a, b) > maxLen
    ensures steps > 0 ==> steps as real <= Distance(norm, a, b) / maxLen < steps as real + 1.0
  {
    var dist := Distance(norm, a, b);
    if dist > maxLen then
      QuotientAboveOne(dist, maxLen);
      (dist / maxLen).Floor
    else 0
  }

  lemma QuotientAboveOne(dist: real, maxLen: real)
    requires 0.0 < maxLen < dist
    ensures dist / maxLen > 1.0
  {
  }

  /** The points `a + (b - a) * k / (steps + 1)` for `k` = 1 .. `steps`. */
  function Interior(a: Vec, b: Vec, steps: nat): seq<Vec> {
    seq(steps, k requires 0 <= k < steps => Lerp(a, b, (k + 1) as real / (steps + 1) as real))
  }

  function Densify(norm: Vec -> real, pts: seq<Vec>, maxLen: real): (d: seq<Vec>)
    requires |pts| > 0
    requires maxLen > 0.0
    ensures |d| >= |pts|
    ensures d[0] == pts[0]
    ensures d[|d| - 1] == pts[|pts| - 1]
    ensures |pts| == 1 ==> d == pts
    decreases |pts|
  {
    if |pts| == 1 then pts
    else [pts[0]] + Interior(pts[0], pts[1], SegmentSteps(norm, pts[0], pts[1], maxLen))
         + Densify(norm, pts[1..], maxLen)
  }

  /** Interior points inserted before vertex `i`. */
  function StepsBefore(norm: Vec -> real, pts: seq<Vec>, maxLen: real, i: nat): nat
    requires i < |pts|
    requires maxLen > 0.0
    decreases i
  {
    if i == 0 then 0
    else SegmentSteps(norm, pts[0], pts[1], maxLen) + StepsBefore(norm, pts[1..], maxLen, i - 1)
  }

  /** Index of original vertex `i` in the densified polyline. */
  function VertexPosition(norm: Vec -> real, pts: seq<Vec>, maxLen: real, i: nat): nat
    requires i < |pts|
    requires maxLen > 0.0
  {
    i + StepsBefore(norm, pts, maxLen, i)
  }

  /** Every segment of `s` is at most `maxLen` long. */
  ghost predicate AllShort(norm: Vec -> real, s: seq<Vec>, maxLen: real) {
    forall i :: 0 <= i < |s| - 1 ==> Distance(norm, s[i], s[i + 1]) <= maxLen
  }

  /** Consecutive vertices are `1 + SegmentSteps` apart: exactly that many points go between them. */
  lemma {:induction false} VertexPositionNext(norm: Vec -> real, pts: seq<Vec>, maxLen: real, i: nat)
    requires i + 1 < |pts|
    requires maxLen > 0.0
    ensures VertexPosition(norm, pts, maxLen, i + 1)
         == VertexPosition(norm, pts, maxLen, i) + 1 + SegmentSteps(norm, pts[i], pts[i + 1], maxLen)
    decreases i
  {
    if i > 0 {
      VertexPositionNext(norm, pts[1..], maxLen, i - 1);
    }
  }

  /** The densified polyline ends at the position of the last vertex. */
  lemma {:induction false} DensifyLength(norm: Vec -> real, pts: seq<Vec>, maxLen: real)
    requires |pts| > 0
    requires maxLen > 0.0
    ensures |Densify(norm, pts, maxLen)| == VertexPosition(norm, pts, maxLen, |pts| - 1) + 1
    decreases |pts|
  {
    if |pts| > 1 {
      DensifyLength(norm, pts[1..], maxLen);
    }
  }

  /** Every original vertex appears, at its position, so the vertices keep their order. */
  lemma {:induction false} DensifyKeepsVertex(norm: Vec -> real, pts: seq<Vec>, maxLen: real, i: nat)
    requires i < |pts|
    requires maxLen > 0.0
    ensures VertexPosition(norm, pts, maxLen, i) < |Densify(norm, pts, maxLen)|
    ensures Densify(norm, pts, maxLen)[VertexPosition(norm, pts, maxLen, i)] == pts[i]
    decreases i
  {
    if i > 0 {
      var tail := pts[1..];
      DensifyKeepsVertex(norm, tail, maxLen, i - 1);
      assert tail[i - 1] == pts[i];
      DensifyTailAt(norm, pts, maxLen, VertexPosition(norm, tail, maxLen, i - 1));
      VertexPositionTail(norm, pts, maxLen, i);
    }
  }

  /** The densified first segment is its first vertex followed by its interior points. */
  lemma DensifyHeadAt(norm: Vec -> real, pts: seq<Vec>, maxLen: real, k: nat)
    requires |pts| > 1
    requires maxLen > 0.0
    requires 1 <= k <= SegmentSteps(norm, pts[0], pts[1], maxLen)
    ensures k < |Densify(norm, pts, maxLen)|
    ensures Densify(norm, pts, maxLen)[k] == Interior(pts[0], pts[1], SegmentSteps(norm, pts[0], pts[1], maxLen))[k - 1]
  {
  }

  /** Past the first segment's points, the densified polyline is the densified rest. */
  lemma DensifyTailAt(norm: Vec -> real, pts: seq<Vec>, maxLen: real, j: nat)
    requires |pts| > 1
    requires maxLen > 0.0
    requires j < |Densify(norm, pts[1..], maxLen)|
    ensures 1 + SegmentSteps(norm, pts[0], pts[1], maxLen) + j < |Densify(norm, pts, maxLen)|
    ensures Densify(norm, pts, maxLen)[1 + SegmentSteps(norm, pts[0], pts[1], maxLen) + j] == Densify(norm, pts[1..], maxLen)[j]
  {
  }

  /** Vertex `i > 0` sits past the first vertex and the first segment's points. */
  lemma VertexPositionTail(norm: Vec -> real, pts: seq<Vec>, maxLen: real, i: nat)
    requires 0 < i < |pts|
    requires maxLen > 0.0
    ensures VertexPosition(norm, pts, maxLen, i)
         == 1 + SegmentSteps(norm, pts[0], pts[1], maxLen) + VertexPosition(norm, pts[1..], maxLen, i - 1)
  {
  }

  /** Point `k` of the interior of a segment cut into `steps + 1` pieces. */
  lemma InteriorAt(a: Vec, b: Vec, steps: nat, k: nat)
    requires 1 <= k <= steps
    ensures Interior(a, b, steps)[k - 1] == Lerp(a, b, k as real / (steps + 1) as real)
  {
    assert (k - 1 + 1) as real == k as real;
  }

  /** Between vertices `i` and `i + 1` of the densified polyline lie the interior points of that segment. */
  lemma {:induction false} DensifyInteriorAt(norm: Vec -> real, pts: seq<Vec>, maxLen: real, i: nat, k: nat)
    requires i + 1 < |pts|
    requires maxLen > 0.0
    requires 1 <= k <= SegmentSteps(norm, pts[i], pts[i + 1], maxLen)
    ensures VertexPosition(norm, pts, maxLen, i) + k < |Densify(norm, pts, maxLen)|
    ensures Densify(norm, pts, maxLen)[VertexPosition(norm, pts, maxLen, i) + k]
         == Interior(pts[i], pts[i + 1], SegmentSteps(norm, pts[i], pts[i + 1], maxLen))[k - 1]
    decreases i
  {
    if i == 0 {
      DensifyHeadAt(norm, pts, maxLen, k);
    } else {
      DensifyInteriorAt(norm, pts[1..], maxLen, i - 1, k);
      InteriorShift(norm, pts, maxLen, i, k);
    }
  }

  /** The step of the induction above: the position found in the rest, moved past the first segment. */
  lemma InteriorShift(norm: Vec -> real, pts: seq<Vec>, maxLen: real, i: nat, k: nat)
    requires 0 < i && i + 1 < |pts|
    requires maxLen > 0.0
    requires 1 <= k <= SegmentSteps(norm, pts[i], pts[i + 1], maxLen)
    requires VertexPosition(norm, pts[1..], maxLen, i - 1) + k < |Densify(norm, pts[1..], maxLen)|
    requires Densify(norm, pts[1..], maxLen)[VertexPosition(norm, pts[1..], maxLen, i - 1) + k]
          == Interior(pts[1..][i - 1], pts[1..][i], SegmentSteps(norm, pts[1..][i - 1], pts[1..][i], maxLen))[k - 1]
    ensures VertexPosition(norm, pts, maxLen, i) + k < |Densify(norm, pts, maxLen)|
    ensures Densify(norm, pts, maxLen)[VertexPosition(norm, pts, maxLen, i) + k]
         == Interior(pts[i], pts[i + 1], SegmentSteps(norm, pts[i], pts[i + 1], maxLen))[k - 1]
  {
    var tail := pts[1..];
    var j := VertexPosition(norm, tail, maxLen, i - 1) + k;
    assert tail[i - 1] == pts[i] && tail[i] == pts[i + 1];
    var point := Densify(norm, tail, maxLen)[j];
    assert point == Interior(pts[i], pts[i + 1], SegmentSteps(norm, pts[i], pts[i + 1], maxLen))[k - 1];
    DensifyTailAt(norm, pts, maxLen, j);
    VertexPositionTail(norm, pts, maxLen, i);
    assert Densify(norm, pts, maxLen)[VertexPosition(norm, pts, maxLen, i) + k] == point;
  }

  /** Between vertices `i` and `i + 1` lie the points `k / (steps + 1)` of the way along. */
  lemma DensifyInteriorPoint(norm: Vec -> real, pts: seq<Vec>, maxLen: real, i: nat, k: nat)
    requires i + 1 < |pts|
    requires maxLen > 0.0
    requires 1 <= k <= SegmentSteps(norm, pts[i], pts[i + 1], maxLen)
    ensures VertexPosition(norm, pts, maxLen, i) + k < |Densify(norm, pts, maxLen)|
    ensures Densify(norm, pts, maxLen)[VertexPosition(norm, pts, maxLen, i) + k]
         == Lerp(pts[i], pts[i + 1], k as real / (SegmentSteps(norm, pts[i], pts[i + 1], maxLen) + 1) as real)
  {
    DensifyInteriorAt(norm, pts, maxLen, i, k);
    InteriorAt(pts[i], pts[i + 1], SegmentSteps(norm, pts[i], pts[i + 1], maxLen), k);
  }

  /** When the first segment is short enough and the rest is left alone, so is the whole polyline. */
  lemma DensifyShortStep(norm: Vec -> real, pts: seq<Vec>, maxLen: real)
    requires |pts| > 1
    requires maxLen > 0.0
    requires Distance(norm, pts[0], pts[1]) <= maxLen
    requires Densify(norm, pts[1..], maxLen) == pts[1..]
    ensures Densify(norm, pts, maxLen) == pts
  {
    assert Interior(pts[0], pts[1], 0) == [];
    assert Densify(norm, pts, maxLen) == [pts[0]] + pts[1..];
    assert [pts[0]] + pts[1..] == pts;
  }

  /** A polyline whose segments are all short enough is returned unchanged. */
  lemma {:induction false} DensifyShortUnchanged(norm: Vec -> real, pts: seq<Vec>, maxLen: real)
    requires |pts| > 0
    requires maxLen > 0.0
    requires AllShort(norm, pts, maxLen)
    ensures Densify(norm, pts, maxLen) == pts
    decreases |pts|
  {
    if |pts| > 1 {
      AllShortTail(norm, pts, maxLen);
      DensifyShortUnchanged(norm, pts[1..], maxLen);
      DensifyShortStep(norm, pts, maxLen);
    }
  }

  lemma AllShortTail(norm: Vec -> real, pts: seq<Vec>, maxLen: real)
    requires |pts| > 0
    requires AllShort(norm, pts, maxLen)
    ensures AllShort(norm, pts[1..], maxLen)
  {
    forall i | 0 <= i < |pts[1..]| - 1
      ensures Distance(norm, pts[1..][i], pts[1..][i + 1]) <= maxLen
    {
      assert pts[1..][i] == pts[i + 1] && pts[1..][i + 1] == pts[i + 2];
    }
  }

  // ---------------------------------------------------------------------------
  // After densification no segment is longer than the maximum length.

  lemma FractionStep(k: nat, n: nat)
    requires n > 0
    ensures (k + 1) as real / n as real - k as real / n as real == 1.0 / n as real
  {
  }

  /** Two points of the line a fraction `1/n` apart differ by `(p - q) / n`. */
  lemma LerpDifference(p: Vec, q: Vec, t1: real, t2: real)
    ensures Sub(Lerp(p, q, t1), Lerp(p, q, t2)) == Scale(Sub(p, q), t2 - t1)
  {
  }

  lemma MulLessRight(x: real, y: real, c: real)
    requires x < y && c > 0.0
    ensures Mul(x, c) < Mul(y, c)
  {
  }

  lemma ReciprocalCancels(n: real, m: real)
    requires n > 0.0
    ensures Mul(1.0 / n, Mul(n, m)) == m
  {
  }

  lemma QuotientTimesDivisor(dist: real, maxLen: real)
    requires maxLen > 0.0
    ensures Mul(dist / maxLen, maxLen) == dist
  {
  }

  /** A segment cut into `steps + 1` equal pieces has pieces no longer than `maxLen`. */
  lemma PieceShort(norm: Vec -> real, p: Vec, q: Vec, maxLen: real)
    requires IsEuclidean(norm)
    requires maxLen > 0.0
    ensures Mul(1.0 / (SegmentSteps(norm, p, q, maxLen) + 1) as real, Distance(norm, p, q)) <= maxLen
  {
    var dist := Distance(norm, p, q);
    var s := SegmentSteps(norm, p, q, maxLen);
    var n := (s + 1) as real;
    if dist > maxLen {
      var x := dist / maxLen;
      assert x < n;
      QuotientTimesDivisor(dist, maxLen);
      MulLessRight(x, n, maxLen);
      assert dist < Mul(n, maxLen);
      MulLessRight(dist, Mul(n, maxLen), 1.0 / n);
      assert Mul(dist, 1.0 / n) == Mul(1.0 / n, dist);
      assert Mul(Mul(n, maxLen), 1.0 / n) == Mul(1.0 / n, Mul(n, maxLen));
      ReciprocalCancels(n, maxLen);
    } else {
      assert n == 1.0;
      assert Mul(1.0 / n, dist) == dist;
    }
  }

  /** The `k`-th piece of the cut segment has length `Distance(p, q) / (steps + 1)`. */
  lemma PieceLength(norm: Vec -> real, p: Vec, q: Vec, n: nat, k: nat)
    requires IsEuclidean(norm)
    requires n > 0
    ensures Distance(norm, Lerp(p, q, k as real / n as real), Lerp(p, q, (k + 1) as real / n as real))
         == Mul(1.0 / n as real, Distance(norm, p, q))
  {
    LerpDifference(p, q, k as real / n as real, (k + 1) as real / n as real);
    FractionStep(k, n);
    MagnitudeScale(norm, Sub(p, q), 1.0 / n as real);
  }

  /** The vertex, the interior points and the next vertex form a chain of short pieces. */
  lemma SegmentChainShort(norm: Vec -> real, p: Vec, q: Vec, maxLen: real)
    requires IsEuclidean(norm)
    requires maxLen > 0.0
    ensures AllShort(norm, [p] + Interior(p, q, SegmentSteps(norm, p, q, maxLen)) + [q], maxLen)
  {
    var s := SegmentSteps(norm, p, q, maxLen);
    var chain := [p] + Interior(p, q, s) + [q];
    assert |chain| == s + 2;
    forall k | 0 <= k < s + 2
      ensures chain[k] == Lerp(p, q, k as real / (s + 1) as real)
    {
      LerpEnds(p, q);
      if k == 0 {
        assert 0 as real / (s + 1) as real == 0.0;
      } else if k == s + 1 {
        assert (s + 1) as real / (s + 1) as real == 1.0;
      } else {
        assert chain[k] == Interior(p, q, s)[k - 1];
      }
    }
    forall k | 0 <= k < |chain| - 1
      ensures Distance(norm, chain[k], chain[k + 1]) <= maxLen
    {
      PieceLength(norm, p, q, s + 1, k);
      PieceShort(norm, p, q, maxLen);
    }
  }

  /** Joining two short chains at a shared point gives a short chain. */
  lemma ChainJoin(norm: Vec -> real, x: seq<Vec>, y: seq<Vec>, maxLen: real)
    requires |x| > 0 && |y| > 0
    requires x[|x| - 1] == y[0]
    requires AllShort(norm, x, maxLen)
    requires AllShort(norm, y, maxLen)
    ensures AllShort(norm, x[..|x| - 1] + y, maxLen)
  {
    var z := x[..|x| - 1] + y;
    forall i | 0 <= i < |z| - 1
      ensures Distance(norm, z[i], z[i + 1]) <= maxLen
    {
      if i + 1 < |x| - 1 {
        assert z[i] == x[i] && z[i + 1] == x[i + 1];
      } else if i + 1 == |x| - 1 {
        assert z[i] == x[i] && z[i + 1] == y[0];
      } else {
        var j := i - (|x| - 1);
        assert z[i] == y[j] && z[i + 1] == y[j + 1];
      }
    }
  }

  /** After densification every segment is at most `maxLen` long. */
  lemma {:induction false} DensifiedIsShort(norm: Vec -> real, pts: seq<Vec>, maxLen: real)
    requires IsEuclidean(norm)
    requires |pts| > 0
    requires maxLen > 0.0
    ensures AllShort(norm, Densify(norm, pts, maxLen), maxLen)
    decreases |pts|
  {
    if |pts| > 1 {
      var p, q := pts[0], pts[1];
      var inner := Interior(p, q, SegmentSteps(norm, p, q, maxLen));
      var rest := Densify(norm, pts[1..], maxLen);
      DensifiedIsShort(norm, pts[1..], maxLen);
      SegmentChainShort(norm, p, q, maxLen);
      var chain := [p] + inner + [q];
      ChainJoin(norm, chain, rest, maxLen);
      assert chain[..|chain| - 1] == [p] + inner;
    }
  }

  /** Densifying twice with the same maximum length changes nothing more. */
  lemma DensifyIdempotent(norm: Vec -> real, pts: seq<Vec>, maxLen: real)
    requires IsEuclidean(norm)
    requires |pts| > 0
    requires maxLen > 0.0
    ensures Densify(norm, Densify(norm, pts, maxLen), maxLen) == Densify(norm, pts, maxLen)
  {
    DensifiedIsShort(norm, pts, maxLen);
    DensifyShortUnchanged(norm, Densify(norm, pts, maxLen), maxLen);
  }
}
