/**
 Room labels inside closed polylines (`extract_closed_polyline_text.py`): every
 text whose insertion point lies inside a polygon gives one row, carrying the
 smallest mileage any rail reports for that point (or none), and the rows are
 sorted by mileage with the rows without one last.

 The rails, the mileage of a point on one rail (`calc_mileage`) and the
 containment test of a polygon (`shapely`'s `Polygon.contains`) are parameters.
 */
module ClosedPolylineText {
  import opened Geometry
  import opened Options
  import opened Sorting
  import opened Drawing

  /** One output row: `Mileage`, `Text` and the polygon's vertices (`Points`). */
  datatype PolyRow = PolyRow(mileage: Option<real>, text: string, points: seq<Vec>)

  // ---------------------------------------------------------------------------
  // mileage_from_point: the smallest mileage over the rails that report one.

  /**
   The rail loop from rail `i` on, with the best mileage so far in `best`: a
   rail's mileage replaces it when there is none yet or when it is smaller.
   */
  function MileageFrom<R>(mileageOf: (R, Vec) -> Option<real>, pt: Vec, rails: seq<R>, i: nat, best: Option<real>): (r: Option<real>)
    requires i <= |rails|
    ensures r.None? <==> best.None? && forall j :: i <= j < |rails| ==> mileageOf(rails[j], pt).None?
    ensures r.Some? ==> r == best || exists j :: i <= j < |rails| && mileageOf(rails[j], pt) == r
    ensures r.Some? && best.Some? ==> r.value <= best.value
    ensures r.Some? ==> forall j :: i <= j < |rails| && mileageOf(rails[j], pt).Some? ==> r.value <= mileageOf(rails[j], pt).value
    decreases |rails| - i
  {
    if i == |rails| then best
    else
      var m := mileageOf(rails[i], pt);
      if m.Some? && (best.None? || m.value < best.value) then MileageFrom(mileageOf, pt, rails, i + 1, m)
      else MileageFrom(mileageOf, pt, rails, i + 1, best)
  }

  /**
   `mileage_from_point`: none exactly when no rail reports a mileage; otherwise
   one of the reported mileages, and no reported mileage is smaller.
   */
  function MileageFromPoint<R>(mileageOf: (R, Vec) -> Option<real>, pt: Vec, rails: seq<R>): (r: Option<real>)
    ensures r.None? <==> forall j :: 0 <= j < |rails| ==> mileageOf(rails[j], pt).None?
    ensures r.Some? ==> exists j :: 0 <= j < |rails| && mileageOf(rails[j], pt) == r
    ensures r.Some? ==> forall j :: 0 <= j < |rails| && mileageOf(rails[j], pt).Some? ==> r.value <= mileageOf(rails[j], pt).value
  {
    MileageFrom(mileageOf, pt, rails, 0, None)
  }

  /** Without rails there is no mileage. */
  lemma NoRailsNoMileage<R>(mileageOf: (R, Vec) -> Option<real>, pt: Vec)
    ensures MileageFromPoint(mileageOf, pt, []) == None
  {
  }

  /** The result is the least reported mileage, whichever rail reports it. */
  lemma MileageIsLeast<R>(mileageOf: (R, Vec) -> Option<real>, pt: Vec, rails: seq<R>, k: nat)
    requires k < |rails|
    requires mileageOf(rails[k], pt).Some?
    requires forall j :: 0 <= j < |rails| && mileageOf(rails[j], pt).Some? ==> mileageOf(rails[k], pt).value <= mileageOf(rails[j], pt).value
    ensures MileageFromPoint(mileageOf, pt, rails) == mileageOf(rails[k], pt)
  {
    var r := MileageFromPoint(mileageOf, pt, rails);
    var j :| 0 <= j < |rails| && mileageOf(rails[j], pt) == r;
    assert r.value <= mileageOf(rails[k], pt).value;
  }

  // ---------------------------------------------------------------------------
  // The rows: one per (polygon, text) pair whose containment test holds.

  /** `(a, b)` comes before `(c, d)` in polygon-major, then text order. */
  predicate PairBefore(p: (nat, nat), q: (nat, nat)) {
    p.0 < q.0 || (p.0 == q.0 && p.1 < q.1)
  }

  /** The pairs `(i, j)` with `j >= from` whose text `j` lies in polygon `i`, in text order. */
  function PairsIn(contains: (seq<Vec>, Vec) -> bool, polys: seq<seq<Vec>>, texts: seq<Text>, i: nat, from: nat): (ps: seq<(nat, nat)>)
    requires i < |polys|
    requires from <= |texts|
    ensures forall k :: 0 <= k < |ps| ==>
              ps[k].0 == i && from <= ps[k].1 < |texts| && contains(polys[i], texts[ps[k].1].insert)
    ensures forall j :: from <= j < |texts| && contains(polys[i], texts[j].insert) ==> (i, j) in ps
    ensures forall k, l :: 0 <= k < l < |ps| ==> ps[k].1 < ps[l].1
    decreases |texts| - from
  {
    if from == |texts| then []
    else
      var rest := PairsIn(contains, polys, texts, i, from + 1);
      if contains(polys[i], texts[from].insert) then [(i, from)] + rest else rest
  }

  /** The contained pairs of polygons `i`, `i + 1`, ..., polygon-major. */
  function PairsFrom(contains: (seq<Vec>, Vec) -> bool, polys: seq<seq<Vec>>, texts: seq<Text>, i: nat): (ps: seq<(nat, nat)>)
    requires i <= |polys|
    ensures forall k :: 0 <= k < |ps| ==>
              i <= ps[k].0 < |polys| && ps[k].1 < |texts| && contains(polys[ps[k].0], texts[ps[k].1].insert)
    ensures forall a, j :: i <= a < |polys| && 0 <= j < |texts| && contains(polys[a], texts[j].insert) ==> (a, j) in ps
    ensures forall k, l :: 0 <= k < l < |ps| ==> PairBefore(ps[k], ps[l])
    decreases |polys| - i
  {
    if i == |polys| then []
    else
      var here := PairsIn(contains, polys, texts, i, 0);
      var rest := PairsFrom(contains, polys, texts, i + 1);
      JoinOrdered(here, rest, i);
      here + rest
  }

  /** Pairs of polygon `i` in text order, followed by polygon-major pairs of later polygons, stay ordered. */
  lemma JoinOrdered(here: seq<(nat, nat)>, rest: seq<(nat, nat)>, i: nat)
    requires forall k :: 0 <= k < |here| ==> here[k].0 == i
    requires forall k, l :: 0 <= k < l < |here| ==> here[k].1 < here[l].1
    requires forall k :: 0 <= k < |rest| ==> i < rest[k].0
    requires forall k, l :: 0 <= k < l < |rest| ==> PairBefore(rest[k], rest[l])
    ensures forall k, l :: 0 <= k < l < |here + rest| ==> PairBefore((here + rest)[k], (here + rest)[l])
  {
    var all := here + rest;
    forall k, l | 0 <= k < l < |all|
      ensures PairBefore(all[k], all[l])
    {
      if l < |here| {
        assert all[k] == here[k] && all[l] == here[l];
      } else if k < |here| {
        assert all[k] == here[k] && all[l] == rest[l - |here|];
      } else {
        assert all[k] == rest[k - |here|] && all[l] == rest[l - |here|];
      }
    }
  }

  /**
   All contained pairs, each once, polygon-major then text order: the pairs are
   exactly those whose containment test holds, and they strictly increase.
   */
  function ContainedPairs(contains: (seq<Vec>, Vec) -> bool, polys: seq<seq<Vec>>, texts: seq<Text>): (ps: seq<(nat, nat)>)
    ensures forall k :: 0 <= k < |ps| ==>
              ps[k].0 < |polys| && ps[k].1 < |texts| && contains(polys[ps[k].0], texts[ps[k].1].insert)
    ensures forall a, j :: 0 <= a < |polys| && 0 <= j < |texts| && contains(polys[a], texts[j].insert) ==> (a, j) in ps
    ensures forall k, l :: 0 <= k < l < |ps| ==> PairBefore(ps[k], ps[l])
  {
    PairsFrom(contains, polys, texts, 0)
  }

  /** The row of a contained pair: the mileage of the text's insertion point, its string and the polygon. */
  function MakeRow<R>(mileageOf: (R, Vec) -> Option<real>, rails: seq<R>, poly: seq<Vec>, txt: Text): PolyRow {
    PolyRow(MileageFromPoint(mileageOf, txt.insert, rails), txt.content, poly)
  }

  /** The inner loop over texts `from`, `from + 1`, ... for polygon `i` (lines 50-58). */
  function RowsIn<R>(mileageOf: (R, Vec) -> Option<real>, contains: (seq<Vec>, Vec) -> bool, rails: seq<R>,
                     polys: seq<seq<Vec>>, texts: seq<Text>, i: nat, from: nat): (rows: seq<PolyRow>)
    requires i < |polys|
    requires from <= |texts|
    ensures |rows| == |PairsIn(contains, polys, texts, i, from)|
    ensures forall k :: 0 <= k < |rows| ==>
              rows[k] == MakeRow(mileageOf, rails, polys[i], texts[PairsIn(contains, polys, texts, i, from)[k].1])
    decreases |texts| - from
  {
    if from == |texts| then []
    else
      var rest := RowsIn(mileageOf, contains, rails, polys, texts, i, from + 1);
      if contains(polys[i], texts[from].insert) then [MakeRow(mileageOf, rails, polys[i], texts[from])] + rest else rest
  }

  /** The outer loop over polygons `i`, `i + 1`, ... (lines 48-58). */
  function RowsFrom<R>(mileageOf: (R, Vec) -> Option<real>, contains: (seq<Vec>, Vec) -> bool, rails: seq<R>,
                       polys: seq<seq<Vec>>, texts: seq<Text>, i: nat): (rows: seq<PolyRow>)
    requires i <= |polys|
    ensures |rows| == |PairsFrom(contains, polys, texts, i)|
    ensures forall k :: 0 <= k < |rows| ==>
              var p := PairsFrom(contains, polys, texts, i)[k];
              rows[k] == MakeRow(mileageOf, rails, polys[p.0], texts[p.1])
    decreases |polys| - i
  {
    if i == |polys| then []
    else RowsIn(mileageOf, contains, rails, polys, texts, i, 0) + RowsFrom(mileageOf, contains, rails, polys, texts, i + 1)
  }

  /** The rows before sorting: row `k` belongs to the `k`-th contained pair. */
  function BuildRows<R>(mileageOf: (R, Vec) -> Option<real>, contains: (seq<Vec>, Vec) -> bool, rails: seq<R>,
                        polys: seq<seq<Vec>>, texts: seq<Text>): (rows: seq<PolyRow>)
    ensures |rows| == |ContainedPairs(contains, polys, texts)|
    ensures forall k :: 0 <= k < |rows| ==>
              var p := ContainedPairs(contains, polys, texts)[k];
              rows[k] == MakeRow(mileageOf, rails, polys[p.0], texts[p.1])
  {
    RowsFrom(mileageOf, contains, rails, polys, texts, 0)
  }

  // ---------------------------------------------------------------------------
  // Sorting with `None` as `float('inf')`.

  /** The sort key of line 61: the mileage, or infinity when there is none. */
  function NoneLastKey(row: PolyRow): (k: Key)
    ensures k.Infinite? <==> row.mileage.None?
    ensures row.mileage.Some? ==> k == Finite(row.mileage.value)
  {
    match row.mileage
    case None => Infinite
    case Some(m) => Finite(m)
  }

  /**
   The whole run: the rows of all contained pairs (`BuildRows`, one per pair),
   reordered by mileage with the rows without one last.
   */
  function ExtractRoomRows<R>(mileageOf: (R, Vec) -> Option<real>, contains: (seq<Vec>, Vec) -> bool, rails: seq<R>,
                              polys: seq<seq<Vec>>, texts: seq<Text>): (rows: seq<PolyRow>)
    ensures multiset(rows) == multiset(BuildRows(mileageOf, contains, rails, polys, texts))
    ensures SortedBy(rows, NoneLastKey)
    ensures |rows| == |BuildRows(mileageOf, contains, rails, polys, texts)|
  {
    SortByKey(BuildRows(mileageOf, contains, rails, polys, texts), NoneLastKey)
  }

  /** After sorting every row without a mileage follows every row with one, and mileages ascend. */
  lemma NoneRowsLast<R>(mileageOf: (R, Vec) -> Option<real>, contains: (seq<Vec>, Vec) -> bool, rails: seq<R>,
                        polys: seq<seq<Vec>>, texts: seq<Text>, a: nat, b: nat)
    requires a < b < |ExtractRoomRows(mileageOf, contains, rails, polys, texts)|
    ensures var rows := ExtractRoomRows(mileageOf, contains, rails, polys, texts);
            && (rows[a].mileage.None? ==> rows[b].mileage.None?)
            && (rows[a].mileage.Some? && rows[b].mileage.Some? ==> rows[a].mileage.value <= rows[b].mileage.value)
  {
    var rows := ExtractRoomRows(mileageOf, contains, rails, polys, texts);
    assert KeyLe(NoneLastKey(rows[a]), NoneLastKey(rows[b]));
  }

  /** Rows with equal sort keys keep their build order: the rows of each key come out as they went in. */
  lemma RoomRowsStable<R>(mileageOf: (R, Vec) -> Option<real>, contains: (seq<Vec>, Vec) -> bool, rails: seq<R>,
                          polys: seq<seq<Vec>>, texts: seq<Text>, k: Key)
    ensures WithKey(ExtractRoomRows(mileageOf, contains, rails, polys, texts), NoneLastKey, k)
         == WithKey(BuildRows(mileageOf, contains, rails, polys, texts), NoneLastKey, k)
  {
    SortStable(BuildRows(mileageOf, contains, rails, polys, texts), NoneLastKey, k);
  }
}
