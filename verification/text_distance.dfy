/**
 Mileage of text labels (`extract_text_distance.py`, the loop of `main`): every
 text is meant to take the nearest point over all rails, the first rail
 winning a tie, and to report that rail's arc length plus its mileage offset,
 the distance and the side; the rows are then sorted by mileage.

 As written, the comparison with the best rail so far (line 151) reads the key
 `dist`, which the stored row does not have (it holds `Distance_m`), so a
 second rail always raises `KeyError`. Both loops are here: `SelectNearest`
 compares `Distance_m` as intended and is what `ExtractTextDistances` uses;
 `SelectNearestAsWritten` and `ExtractTextDistancesAsWritten` are the code as
 it stands.

 The rail loop is stated over the results of `nearest_on_rail` for each rail,
 and the text loop over the outcome of the rail loop for each text
 (`CollectRows`); `SelectRail` and the run functions put the geometry in.
 */
module TextDistance {
  import opened Geometry
  import opened Projection
  import opened CumulativeLength
  import opened NearestRail
  import opened Densification
  import opened Sorting
  import opened Drawing
  import opened Options

  /** A loaded rail: densified vertices, their cumulative lengths and the mileage offset of the layer. */
  datatype Rail = Rail(pts: seq<Vec>, cum: seq<real>, offset: real)

  /** One output row: `Mileage_m`, `Distance_m`, `Side`, `Text`. */
  datatype DistRow = DistRow(mileage: real, dist: real, side: Side, text: string)

  /**
   What the rail loop leaves for one text: no rail at all (`best is None`),
   the `TypeError` of `None + offset` when the first rail has no segment, the
   `KeyError` of reading `best['dist']`, or the chosen row.
   */
  datatype Selection = NoRail | MissingLength | MissingKey | Selected(row: DistRow)
  {
    /** The rail loop raised, which ends the whole run. */
    predicate Raises() {
      MissingLength? || MissingKey?
    }
  }

  /** The outcome of the whole run: aborted by that `TypeError`, or the sorted rows. */
  datatype Outcome = Aborted | Report(rows: seq<DistRow>)

  /** Every cumulative table has an entry for each segment start, as `calc_cum_len` guarantees. */
  predicate RailsWellFormed(rails: seq<Rail>) {
    forall i :: 0 <= i < |rails| ==> |rails[i].pts| <= |rails[i].cum| + 1
  }

  /**
   Loading one rail layer (lines 141-143): densify the polyline with the
   maximum segment length and tabulate its cumulative lengths.
   */
  method LoadRail(norm: Vec -> real, polyline: seq<Vec>, offset: real) returns (rail: Rail)
    requires |polyline| > 0
    ensures rail.pts == Densify(norm, polyline, MaxSegLen)
    ensures IsCumTable(norm, rail.pts, rail.cum)
    ensures rail.cum[|rail.cum| - 1] == PathLength(norm, rail.pts)
    ensures rail.offset == offset
    ensures RailsWellFormed([rail])
  {
    var pts := Densify(norm, polyline, MaxSegLen);
    var cum := CalcCumLen(norm, pts);
    rail := Rail(pts, cum, offset);
  }

  // ---------------------------------------------------------------------------
  // The rail loop of one text, over the per-rail results.

  /** The distance of a rail result as a key: `float('inf')` for a rail without segments. */
  function HitKey(h: RailHit): Key {
    match h
    case NoSegment => Infinite
    case Hit(_, dist, _) => Finite(dist)
  }

  /**
   The keys of all rail results, in rail order: a rail with a segment is keyed
   below every rail without one, and rails with segments compare by distance.
   */
  function HitKeys(hits: seq<RailHit>): (keys: seq<Key>)
    ensures |keys| == |hits|
    ensures forall i, j :: 0 <= i < |hits| && 0 <= j < |hits| && hits[i].Hit? && hits[j].NoSegment? ==> KeyLt(keys[i], keys[j])
    ensures forall i, j :: 0 <= i < |hits| && 0 <= j < |hits| && hits[i].Hit? && hits[j].Hit? ==>
              (KeyLe(keys[i], keys[j]) <==> hits[i].dist <= hits[j].dist)
  {
    seq(|hits|, j requires 0 <= j < |hits| => HitKey(hits[j]))
  }

  /** The row a text gets from a rail result: the mileage is the arc length plus the rail's offset. */
  function RowOf(h: RailHit, offset: real, content: string): DistRow
    requires h.Hit?
  {
    DistRow(h.length + offset, h.dist, h.side, content)
  }

  /**
   The rail loop of one text as written (lines 148-157), from rail `i` on with
   the stored row `best`: the first rail's row is stored (failing when the rail
   has no length), and every later rail is compared through `best['dist']`,
   a key the stored row does not have.
   */
  function RailLoopAsWritten(hits: seq<RailHit>, offsets: seq<real>, content: string, i: nat, best: Option<DistRow>): (s: Selection)
    requires |offsets| == |hits|
    requires i <= |hits|
    ensures best.Some? ==> s == if i == |hits| then Selected(best.value) else MissingKey
    ensures best.None? ==>
              && (s.NoRail? <==> i == |hits|)
              && (s.MissingLength? <==> i < |hits| && hits[i].NoSegment?)
              && (s.MissingKey? <==> i + 1 < |hits| && hits[i].Hit?)
              && (s.Selected? ==> i + 1 == |hits| && hits[i].Hit? && s.row == RowOf(hits[i], offsets[i], content))
    decreases |hits| - i
  {
    if i == |hits| then
      match best
      case None => NoRail
      case Some(row) => Selected(row)
    else if best.Some? then MissingKey
    else if hits[i].NoSegment? then MissingLength
    else RailLoopAsWritten(hits, offsets, content, i + 1, Some(RowOf(hits[i], offsets[i], content)))
  }

  /**
   The rail loop as written, from the start: it chooses a row only when there
   is exactly one rail and that rail has a segment; a second rail raises
   `KeyError` unless the first has already raised `TypeError`.
   */
  function SelectNearestAsWritten(hits: seq<RailHit>, offsets: seq<real>, content: string): (s: Selection)
    requires |offsets| == |hits|
    ensures s.NoRail? <==> |hits| == 0
    ensures s.MissingLength? <==> |hits| > 0 && hits[0].NoSegment?
    ensures s.MissingKey? <==> |hits| >= 2 && hits[0].Hit?
    ensures s.Selected? <==> |hits| == 1 && hits[0].Hit?
    ensures s.Selected? ==> s.row == RowOf(hits[0], offsets[0], content)
  {
    RailLoopAsWritten(hits, offsets, content, 0, None)
  }

  /**
   The rail loop of one text with the comparison reading `Distance_m`, the key
   the row is stored under: the first rail's result is taken (failing when it
   has no length), and a later rail replaces the best only when it is strictly
   nearer. So the chosen rail is the first one of least distance, and it has a
   segment.
   */
  function SelectNearest(hits: seq<RailHit>, offsets: seq<real>, content: string): (s: Selection)
    requires |offsets| == |hits|
    ensures s.NoRail? <==> |hits| == 0
    ensures s.MissingLength? <==> |hits| > 0 && hits[0].NoSegment?
    ensures !s.MissingKey?
    ensures s.Selected? ==>
              exists k :: 0 <= k < |hits| && IsFirstLeast(HitKeys(hits), k) && hits[k].Hit?
                          && s.row == RowOf(hits[k], offsets[k], content)
  {
    if |hits| == 0 then NoRail
    else if hits[0].NoSegment? then MissingLength
    else
      var keys := HitKeys(hits);
      var k := FirstLeastFrom(keys, 1, 0);
      assert KeyLe(keys[k], keys[0]);
      Selected(RowOf(hits[k], offsets[k], content))
  }

  /** The chosen distance is no larger than the distance of any rail that has a segment. */
  lemma SelectedIsLeast(hits: seq<RailHit>, offsets: seq<real>, content: string, j: nat)
    requires |offsets| == |hits|
    requires |hits| > 0 && hits[0].Hit?
    requires j < |hits| && hits[j].Hit?
    ensures SelectNearest(hits, offsets, content).Selected?
    ensures SelectNearest(hits, offsets, content).row.dist <= hits[j].dist
  {
    var s := SelectNearest(hits, offsets, content);
    var keys := HitKeys(hits);
    var k :| 0 <= k < |hits| && IsFirstLeast(keys, k) && hits[k].Hit? && s.row == RowOf(hits[k], offsets[k], content);
    assert KeyLe(keys[k], keys[j]);
  }

  /**
   The discrepancy at line 151: with two rails or more, the first having a
   segment, the loop as written raises while the intended loop chooses a row.
   */
  lemma SecondRailRaises(hits: seq<RailHit>, offsets: seq<real>, content: string)
    requires |offsets| == |hits|
    requires |hits| >= 2 && hits[0].Hit?
    ensures SelectNearestAsWritten(hits, offsets, content) == MissingKey
    ensures SelectNearest(hits, offsets, content).Selected?
  {
  }

  /** With at most one rail the key is never read, and the two loops agree. */
  lemma OneRailAgrees(hits: seq<RailHit>, offsets: seq<real>, content: string)
    requires |offsets| == |hits|
    requires |hits| <= 1
    ensures SelectNearestAsWritten(hits, offsets, content) == SelectNearest(hits, offsets, content)
  {
    if |hits| == 1 && hits[0].Hit? {
      var keys := HitKeys(hits);
      assert FirstLeastFrom(keys, 1, 0) == 0;
    }
  }

  /** Every offset moved by `c`. */
  function Shift(offsets: seq<real>, c: real): (shifted: seq<real>)
    ensures |shifted| == |offsets|
  {
    seq(|offsets|, i requires 0 <= i < |offsets| => offsets[i] + c)
  }

  /**
   The offsets play no part in choosing the rail: moving every offset by `c`
   selects the same rail and moves the mileage by exactly `c`.
   */
  lemma OffsetsOnlyMoveMileage(hits: seq<RailHit>, offsets: seq<real>, content: string, c: real)
    requires |offsets| == |hits|
    ensures SelectNearest(hits, Shift(offsets, c), content) == MoveMileage(SelectNearest(hits, offsets, content), c)
  {
  }

  /** The same holds of the loop as written: the offsets move the mileage and change nothing else. */
  lemma OffsetsOnlyMoveMileageAsWritten(hits: seq<RailHit>, offsets: seq<real>, content: string, c: real)
    requires |offsets| == |hits|
    ensures SelectNearestAsWritten(hits, Shift(offsets, c), content) == MoveMileage(SelectNearestAsWritten(hits, offsets, content), c)
  {
  }

  /** A chosen row with its mileage moved by `c`; no row stays no row. */
  function MoveMileage(s: Selection, c: real): Selection {
    match s
    case Selected(row) => Selected(row.(mileage := row.mileage + c))
    case other => other
  }

  // ---------------------------------------------------------------------------
  // The rail loop with the geometry put in.

  /** `nearest_on_rail` of the text's insertion point against every rail, in rail order. */
  function RailHits(norm: Vec -> real, pt: Vec, rails: seq<Rail>): (hits: seq<RailHit>)
    requires RailsWellFormed(rails)
    ensures |hits| == |rails|
    ensures forall j :: 0 <= j < |rails| ==> (hits[j].NoSegment? <==> |rails[j].pts| < 2)
    ensures forall j, i :: 0 <= j < |rails| && 0 <= i < |rails[j].pts| - 1 && hits[j].Hit? ==>
              hits[j].dist <= SegmentDist(norm, pt, rails[j].pts, i)
  {
    seq(|rails|, j requires 0 <= j < |rails| => NearestOnRail(norm, pt, rails[j].pts, rails[j].cum))
  }

  /** The mileage offsets of the rails, in rail order. */
  function Offsets(rails: seq<Rail>): (offsets: seq<real>)
    ensures |offsets| == |rails|
  {
    seq(|rails|, j requires 0 <= j < |rails| => rails[j].offset)
  }

  /**
   The rail loop of one text (lines 147-157) with the intended comparison: no
   rail gives nothing, a first rail without segments fails, and otherwise a
   row is chosen.
   */
  function SelectRail(norm: Vec -> real, txt: Text, rails: seq<Rail>): (s: Selection)
    requires RailsWellFormed(rails)
    ensures s.NoRail? <==> |rails| == 0
    ensures s.MissingLength? <==> |rails| > 0 && |rails[0].pts| < 2
    ensures !s.MissingKey?
  {
    SelectNearest(RailHits(norm, txt.insert, rails), Offsets(rails), txt.content)
  }

  /**
   The rail loop of one text as written (lines 147-157): no rail gives
   nothing, a first rail without segments raises `TypeError`, any second rail
   raises `KeyError`, and only a single rail with a segment gives a row.
   */
  function SelectRailAsWritten(norm: Vec -> real, txt: Text, rails: seq<Rail>): (s: Selection)
    requires RailsWellFormed(rails)
    ensures s.NoRail? <==> |rails| == 0
    ensures s.MissingLength? <==> |rails| > 0 && |rails[0].pts| < 2
    ensures s.MissingKey? <==> |rails| >= 2 && |rails[0].pts| >= 2
    ensures s.Selected? ==> |rails| == 1 && s == SelectRail(norm, txt, rails)
  {
    var hits, offsets := RailHits(norm, txt.insert, rails), Offsets(rails);
    assert |rails| <= 1 ==> SelectNearestAsWritten(hits, offsets, txt.content) == SelectNearest(hits, offsets, txt.content) by {
      if |rails| <= 1 {
        OneRailAgrees(hits, offsets, txt.content);
      }
    }
    SelectNearestAsWritten(hits, offsets, txt.content)
  }

  /**
   When the first rail has a segment a row is selected, and it is at least as
   near as every segment of every rail: no segment of any rail is nearer than
   the reported distance.
   */
  lemma SelectedIsNearest(norm: Vec -> real, txt: Text, rails: seq<Rail>, j: nat, i: nat)
    requires RailsWellFormed(rails)
    requires j < |rails|
    requires |rails[0].pts| >= 2
    requires i + 1 < |rails[j].pts|
    ensures SelectRail(norm, txt, rails).row.dist <= SegmentDist(norm, txt.insert, rails[j].pts, i)
  {
    var hits := RailHits(norm, txt.insert, rails);
    assert hits[j] == NearestOnRail(norm, txt.insert, rails[j].pts, rails[j].cum);
    SelectedIsLeast(hits, Offsets(rails), txt.content, j);
  }

  /**
   When the first rail has a segment a row is selected, and it comes from one
   rail's nearest point: its mileage is that rail's arc length plus that rail's
   offset, and that rail is the first of least distance.
   */
  lemma SelectedRail(norm: Vec -> real, txt: Text, rails: seq<Rail>) returns (k: nat)
    requires RailsWellFormed(rails)
    requires |rails| > 0 && |rails[0].pts| >= 2
    ensures SelectRail(norm, txt, rails).Selected?
    ensures k < |rails|
    ensures NearestOnRail(norm, txt.insert, rails[k].pts, rails[k].cum).Hit?
    ensures IsFirstLeast(HitKeys(RailHits(norm, txt.insert, rails)), k)
    ensures SelectRail(norm, txt, rails).row
         == RowOf(NearestOnRail(norm, txt.insert, rails[k].pts, rails[k].cum), rails[k].offset, txt.content)
  {
    var hits := RailHits(norm, txt.insert, rails);
    var offsets := Offsets(rails);
    var s := SelectNearest(hits, offsets, txt.content);
    k :| 0 <= k < |hits| && IsFirstLeast(HitKeys(hits), k) && hits[k].Hit? && s.row == RowOf(hits[k], offsets[k], txt.content);
  }

  /**
   Every rail's mileage offset moved by `c`: the offsets move by `c`, and the
   rails stay as well-formed as before, with the same results for every point.
   */
  function ShiftOffsets(rails: seq<Rail>, c: real): (shifted: seq<Rail>)
    ensures |shifted| == |rails|
    ensures RailsWellFormed(shifted) <==> RailsWellFormed(rails)
    ensures Offsets(shifted) == Shift(Offsets(rails), c)
    ensures RailsWellFormed(rails) ==> forall norm, pt :: RailHits(norm, pt, shifted) == RailHits(norm, pt, rails)
  {
    var shifted := seq(|rails|, i requires 0 <= i < |rails| => rails[i].(offset := rails[i].offset + c));
    assert forall i :: 0 <= i < |rails| ==> shifted[i].pts == rails[i].pts && shifted[i].cum == rails[i].cum;
    shifted
  }

  /**
   Moving every rail's offset by `c` selects the same rail for every text and
   moves its mileage by exactly `c`.
   */
  lemma SelectionIgnoresOffsets(norm: Vec -> real, txt: Text, rails: seq<Rail>, c: real)
    requires RailsWellFormed(rails)
    ensures RailsWellFormed(ShiftOffsets(rails, c))
    ensures SelectRail(norm, txt, ShiftOffsets(rails, c)) == MoveMileage(SelectRail(norm, txt, rails), c)
  {
    var hits, offsets := RailHits(norm, txt.insert, rails), Offsets(rails);
    calc {
      SelectRail(norm, txt, ShiftOffsets(rails, c));
      { ShiftedRailLoop(norm, txt, rails, c); }
      SelectNearest(hits, Shift(offsets, c), txt.content);
      { OffsetsOnlyMoveMileage(hits, offsets, txt.content, c); }
      MoveMileage(SelectNearest(hits, offsets, txt.content), c);
      MoveMileage(SelectRail(norm, txt, rails), c);
    }
  }

  /** With shifted offsets the rail loop sees the same rail results and the shifted offsets. */
  lemma ShiftedRailLoop(norm: Vec -> real, txt: Text, rails: seq<Rail>, c: real)
    requires RailsWellFormed(rails)
    ensures RailsWellFormed(ShiftOffsets(rails, c))
    ensures SelectRail(norm, txt, ShiftOffsets(rails, c))
         == SelectNearest(RailHits(norm, txt.insert, rails), Shift(Offsets(rails), c), txt.content)
  {
    var shifted := ShiftOffsets(rails, c);
    assert RailHits(norm, txt.insert, shifted) == RailHits(norm, txt.insert, rails);
    assert Offsets(shifted) == Shift(Offsets(rails), c);
  }

  // ---------------------------------------------------------------------------
  // The text loop.

  /**
   The text loop (lines 146-159) over the outcome of the rail loop for each
   text: a text without a rail adds nothing, a failing rail loop aborts the
   run, and a chosen row is appended.
   */
  function CollectRows(sels: seq<Selection>): (o: Outcome)
    ensures o.Aborted? <==> exists j :: 0 <= j < |sels| && sels[j].Raises()
    ensures (forall j :: 0 <= j < |sels| ==> sels[j].NoRail?) ==> o == Report([])
    ensures o.Report? && (forall j :: 0 <= j < |sels| ==> sels[j].Selected?) ==>
              |o.rows| == |sels| && forall j :: 0 <= j < |sels| ==> sels[j] == Selected(o.rows[j])
    ensures o.Report? ==> |o.rows| <= |sels|
    decreases |sels|
  {
    if |sels| == 0 then Report([])
    else
      var rest := CollectRows(sels[1..]);
      assert forall j :: 1 <= j < |sels| ==> sels[j] == sels[1..][j - 1];
      match sels[0]
      case MissingLength => Aborted
      case MissingKey => Aborted
      case NoRail => rest
      case Selected(row) =>
        match rest
        case Aborted => Aborted
        case Report(rows) => Report([row] + rows)
  }

  /** The key of a row in the final sort: its mileage. */
  function MileageKey(row: DistRow): Key {
    Finite(row.mileage)
  }

  /** The rail loop of every text, in text order. */
  function Selections(norm: Vec -> real, texts: seq<Text>, rails: seq<Rail>): (sels: seq<Selection>)
    requires RailsWellFormed(rails)
    ensures |sels| == |texts|
    ensures forall j :: 0 <= j < |texts| ==> (sels[j].NoRail? <==> |rails| == 0)
    ensures forall j :: 0 <= j < |texts| ==> (sels[j].Raises() <==> |rails| > 0 && |rails[0].pts| < 2)
  {
    seq(|texts|, j requires 0 <= j < |texts| => SelectRail(norm, texts[j], rails))
  }

  /** The rail loop as written of every text, in text order. */
  function SelectionsAsWritten(norm: Vec -> real, texts: seq<Text>, rails: seq<Rail>): (sels: seq<Selection>)
    requires RailsWellFormed(rails)
    ensures |sels| == |texts|
    ensures forall j :: 0 <= j < |texts| ==> (sels[j].NoRail? <==> |rails| == 0)
    ensures (exists j :: 0 <= j < |texts| && sels[j].Raises()) <==>
              |texts| > 0 && |rails| > 0 && (|rails| >= 2 || |rails[0].pts| < 2)
  {
    var sels := seq(|texts|, j requires 0 <= j < |texts| => SelectRailAsWritten(norm, texts[j], rails));
    assert |texts| > 0 && |rails| > 0 && (|rails| >= 2 || |rails[0].pts| < 2) ==> sels[0].Raises();
    sels
  }

  /**
   The whole run as written (lines 146-161): it aborts exactly when there is a
   text and either the first rail has no segment or there is a second rail;
   otherwise the rows are those of the intended run.
   */
  function ExtractTextDistancesAsWritten(norm: Vec -> real, texts: seq<Text>, rails: seq<Rail>): (o: Outcome)
    requires RailsWellFormed(rails)
    ensures o.Aborted? <==> |texts| > 0 && |rails| > 0 && (|rails| >= 2 || |rails[0].pts| < 2)
    ensures o.Report? ==> ExtractTextDistances(norm, texts, rails).Report? && o.rows == ExtractTextDistances(norm, texts, rails).rows
  {
    var sels := SelectionsAsWritten(norm, texts, rails);
    AsWrittenSelections(norm, texts, rails);
    match CollectRows(sels)
    case Aborted => Aborted
    case Report(rows) => Report(SortByKey(rows, MileageKey))
  }

  /**
   Where the run as written aborts, the rail loop of the first text raises;
   everywhere else every text's rail loop is the intended one.
   */
  lemma AsWrittenSelections(norm: Vec -> real, texts: seq<Text>, rails: seq<Rail>)
    requires RailsWellFormed(rails)
    ensures |texts| > 0 && |rails| > 0 && (|rails| >= 2 || |rails[0].pts| < 2) ==>
              SelectionsAsWritten(norm, texts, rails)[0].Raises()
    ensures !(|texts| > 0 && |rails| > 0 && (|rails| >= 2 || |rails[0].pts| < 2)) ==>
              SelectionsAsWritten(norm, texts, rails) == Selections(norm, texts, rails)
  {
    var written, intended := SelectionsAsWritten(norm, texts, rails), Selections(norm, texts, rails);
    if !(|texts| > 0 && |rails| > 0 && (|rails| >= 2 || |rails[0].pts| < 2)) {
      forall j | 0 <= j < |texts|
        ensures written[j] == intended[j]
      {
        var s := SelectRailAsWritten(norm, texts[j], rails);
        if |rails| == 0 {
          assert s == NoRail;
        } else {
          assert s.Selected?;
        }
      }
    }
  }

  /**
   A run with a text and a second rail after a first rail with a segment: as
   written it aborts, with the intended comparison it reports one row per text.
   */
  lemma SecondRailAbortsRun(norm: Vec -> real, texts: seq<Text>, rails: seq<Rail>)
    requires RailsWellFormed(rails)
    requires |texts| > 0 && |rails| >= 2 && |rails[0].pts| >= 2
    ensures ExtractTextDistancesAsWritten(norm, texts, rails) == Aborted
    ensures ExtractTextDistances(norm, texts, rails).Report?
    ensures |ExtractTextDistances(norm, texts, rails).rows| == |texts|
  {
  }

  /**
   The run of one text against two parallel rails, each with one proper
   segment: as written it raises, with the intended comparison it reports a row.
   */
  lemma TwoRailRunAborts(norm: Vec -> real, t: Text)
    ensures var rails := [Rail([Vec(0.0, 0.0), Vec(1.0, 0.0)], [0.0, 1.0], 0.0),
                          Rail([Vec(0.0, 5.0), Vec(1.0, 5.0)], [0.0, 1.0], 100.0)];
            && RailsWellFormed(rails)
            && ExtractTextDistancesAsWritten(norm, [t], rails) == Aborted
            && ExtractTextDistances(norm, [t], rails).Report?
            && |ExtractTextDistances(norm, [t], rails).rows| == 1
  {
    var lower := Rail([Vec(0.0, 0.0), Vec(1.0, 0.0)], [0.0, 1.0], 0.0);
    var upper := Rail([Vec(0.0, 5.0), Vec(1.0, 5.0)], [0.0, 1.0], 100.0);
    var rails := [lower, upper];
    assert |rails| == 2 && |rails[0].pts| == 2;
    assert RailsWellFormed(rails);
    SecondRailAbortsRun(norm, [t], rails);
  }

  /**
   The whole run (lines 146-161) with the intended comparison: one row per
   text, sorted by mileage, when there are rails; no rows without rails; the
   run aborts exactly when there is a text and the first rail has no segment.
   */
  function ExtractTextDistances(norm: Vec -> real, texts: seq<Text>, rails: seq<Rail>): (o: Outcome)
    requires RailsWellFormed(rails)
    ensures o.Aborted? <==> |texts| > 0 && |rails| > 0 && |rails[0].pts| < 2
    ensures o.Report? && |rails| == 0 ==> o.rows == []
    ensures o.Report? ==> SortedBy(o.rows, MileageKey)
    ensures o.Report? ==> o.rows == SortByKey(CollectRows(Selections(norm, texts, rails)).rows, MileageKey)
    ensures o.Report? && |rails| > 0 ==>
              && |o.rows| == |texts|
              && forall j :: 0 <= j < |texts| ==>
                   SelectRail(norm, texts[j], rails).Selected? && SelectRail(norm, texts[j], rails).row in o.rows
  {
    RunAbortsWhen(norm, texts, rails);
    match CollectRows(Selections(norm, texts, rails))
    case Aborted => Aborted
    case Report(rows) =>
      ReportedRows(norm, texts, rails);
      Report(SortByKey(rows, MileageKey))
  }

  /** What the sorted rows of a run that does not abort hold. */
  lemma ReportedRows(norm: Vec -> real, texts: seq<Text>, rails: seq<Rail>)
    requires RailsWellFormed(rails)
    requires !(|texts| > 0 && |rails| > 0 && |rails[0].pts| < 2)
    ensures CollectRows(Selections(norm, texts, rails)).Report?
    ensures var sorted := SortByKey(CollectRows(Selections(norm, texts, rails)).rows, MileageKey);
            && (|rails| == 0 ==> sorted == [])
            && (|rails| > 0 ==>
                  && |sorted| == |texts|
                  && forall j :: 0 <= j < |texts| ==>
                       SelectRail(norm, texts[j], rails).Selected? && SelectRail(norm, texts[j], rails).row in sorted)
  {
    RunAbortsWhen(norm, texts, rails);
    var rows := CollectRows(Selections(norm, texts, rails)).rows;
    var sorted := SortByKey(rows, MileageKey);
    if |rails| > 0 {
      RowsFollowTexts(norm, texts, rails);
      SortedKeepsRows(norm, texts, rails, rows, sorted);
    }
  }

  /** The intended text loop aborts exactly when there is a text and the first rail has no segment. */
  lemma RunAbortsWhen(norm: Vec -> real, texts: seq<Text>, rails: seq<Rail>)
    requires RailsWellFormed(rails)
    ensures CollectRows(Selections(norm, texts, rails)).Aborted? <==> |texts| > 0 && |rails| > 0 && |rails[0].pts| < 2
  {
    var sels := Selections(norm, texts, rails);
    if |texts| > 0 && |rails| > 0 && |rails[0].pts| < 2 {
      assert sels[0].Raises();
    }
  }

  /** Every row of a text is still there after the sort. */
  lemma SortedKeepsRows(norm: Vec -> real, texts: seq<Text>, rails: seq<Rail>, rows: seq<DistRow>, sorted: seq<DistRow>)
    requires RailsWellFormed(rails)
    requires |rows| == |texts|
    requires forall j :: 0 <= j < |texts| ==> SelectRail(norm, texts[j], rails) == Selected(rows[j])
    requires multiset(sorted) == multiset(rows)
    ensures forall j :: 0 <= j < |texts| ==>
              SelectRail(norm, texts[j], rails).Selected? && SelectRail(norm, texts[j], rails).row in sorted
  {
    forall j | 0 <= j < |texts|
      ensures SelectRail(norm, texts[j], rails).Selected? && SelectRail(norm, texts[j], rails).row in sorted
    {
      assert rows[j] in multiset(rows);
    }
  }

  /** The rows before sorting are the rows of the texts, in text order. */
  lemma RowsFollowTexts(norm: Vec -> real, texts: seq<Text>, rails: seq<Rail>)
    requires RailsWellFormed(rails)
    requires |rails| > 0 && (|texts| == 0 || |rails[0].pts| >= 2)
    ensures CollectRows(Selections(norm, texts, rails)).Report?
    ensures |CollectRows(Selections(norm, texts, rails)).rows| == |texts|
    ensures forall j :: 0 <= j < |texts| ==>
              SelectRail(norm, texts[j], rails) == Selected(CollectRows(Selections(norm, texts, rails)).rows[j])
  {
    var sels := Selections(norm, texts, rails);
    assert forall j :: 0 <= j < |sels| ==> sels[j].Selected?;
  }
}
