/**
 Cumulative arc length of a polyline (`calc_cum_len`): entry `i` is the length
 of the polyline from its first vertex up to vertex `i`.
 */
module CumulativeLength {
  import opened Geometry

  /** Total length of a polyline: the sum of its segment lengths, first segment first. */
  function PathLength(norm: Vec -> real, v: seq<Vec>): real
    decreases |v|
  {
    if |v| < 2 then 0.0 else Distance(norm, v[0], v[1]) + PathLength(norm, v[1..])
  }

  /**
   `cum` is a cumulative length table of `v`: one entry per vertex (one entry for
   an empty polyline), starting at 0 and growing by each segment's length.
   */
  predicate IsCumTable(norm: Vec -> real, v: seq<Vec>, cum: seq<real>) {
    && |cum| == (if |v| == 0 then 1 else |v|)
    && cum[0] == 0.0
    && forall i :: 0 <= i < |v| - 1 ==> cum[i + 1] == cum[i] + Distance(norm, v[i], v[i + 1])
  }

  /** Appending a vertex adds the length of the new last segment. */
  lemma {:induction false} PathLengthSnoc(norm: Vec -> real, v: seq<Vec>, q: Vec)
    requires |v| > 0
    ensures PathLength(norm, v + [q]) == PathLength(norm, v) + Distance(norm, v[|v| - 1], q)
    decreases |v|
  {
    if |v| == 1 {
      assert v + [q] == [v[0], q];
      assert (v + [q])[1..] == [q];
    } else {
      assert (v + [q])[1..] == v[1..] + [q];
      PathLengthSnoc(norm, v[1..], q);
    }
  }

  method CalcCumLen(norm: Vec -> real, vecs: seq<Vec>) returns (cum: seq<real>)
    ensures IsCumTable(norm, vecs, cum)
    ensures forall i :: 0 <= i < |vecs| ==> cum[i] == PathLength(norm, vecs[..i + 1])
    ensures cum[|cum| - 1] == PathLength(norm, vecs)
  {
    cum := [0.0];
    var i := 0;
    while i < |vecs| - 1
      invariant 0 <= i <= if |vecs| == 0 then 0 else |vecs| - 1
      invariant |cum| == i + 1
      invariant cum[0] == 0.0
      invariant forall j :: 0 <= j < i ==> cum[j + 1] == cum[j] + Distance(norm, vecs[j], vecs[j + 1])
    {
      cum := cum + [cum[i] + Distance(norm, vecs[i], vecs[i + 1])];
      i := i + 1;
    }
    forall j | 0 <= j < |vecs|
      ensures cum[j] == PathLength(norm, vecs[..j + 1])
    {
      CumTableIsPrefixLength(norm, vecs, cum, j);
    }
    CumTableTotal(norm, vecs, cum);
  }

  /** With real distances the table never decreases. */
  lemma CumTableMonotone(norm: Vec -> real, v: seq<Vec>, cum: seq<real>)
    requires IsEuclidean(norm)
    requires IsCumTable(norm, v, cum)
    ensures forall i, j :: 0 <= i <= j < |cum| ==> cum[i] <= cum[j]
  {
    forall i, j | 0 <= i <= j < |cum|
      ensures cum[i] <= cum[j]
    {
      CumTableStep(norm, v, cum, i, j);
    }
  }

  lemma {:induction false} CumTableStep(norm: Vec -> real, v: seq<Vec>, cum: seq<real>, i: nat, j: nat)
    requires IsEuclidean(norm)
    requires IsCumTable(norm, v, cum)
    requires i <= j < |cum|
    ensures cum[i] <= cum[j]
    decreases j - i
  {
    if i < j {
      MagnitudeFacts(norm, Sub(v[i], v[i + 1]));
      CumTableStep(norm, v, cum, i + 1, j);
    }
  }

  /** A cumulative table is determined by its polyline: entry `i` is the length up to vertex `i`. */
  lemma {:induction false} CumTableIsPrefixLength(norm: Vec -> real, v: seq<Vec>, cum: seq<real>, i: nat)
    requires IsCumTable(norm, v, cum)
    requires i < |v|
    ensures cum[i] == PathLength(norm, v[..i + 1])
  {
    if i > 0 {
      CumTableIsPrefixLength(norm, v, cum, i - 1);
      PathLengthSnoc(norm, v[..i], v[i]);
      assert v[..i] + [v[i]] == v[..i + 1];
    }
  }

  /** The last entry is the total length of the polyline. */
  lemma CumTableTotal(norm: Vec -> real, v: seq<Vec>, cum: seq<real>)
    requires IsCumTable(norm, v, cum)
    ensures cum[|cum| - 1] == PathLength(norm, v)
  {
    if |v| > 0 {
      CumTableIsPrefixLength(norm, v, cum, |v| - 1);
      assert v[..|v|] == v;
    }
  }
}
