# Rail mileage of drawing labels

This is a Dafny model of the geometric core of two scripts. Both give TEXT labels of a DXF drawing a railway mileage, using reference polylines ("rails").

`extract_text_distance.py` loads each rail layer as follows:

- It densifies the first polyline of the layer: any segment longer than 5 m gets evenly spaced interior points.
- It tabulates the cumulative arc length of the result.

For every text it then:

- Projects the insertion point onto every segment of every rail.
- Keeps the nearest point of a rail. The first segment wins ties, because the segment loop replaces its best only on a strictly smaller distance.
- Is meant to keep the nearest rail the same way, so that the first rail wins ties. As written, the rail loop compares against a key its rows do not have; see "Findings".
- Reports the arc length of that point plus the rail's mileage offset, the distance, and the side of the rail (left, right or on).

Finally the rows are sorted by mileage.

`extract_closed_polyline_text.py` pairs every polygon with each text whose insertion point it contains, polygon by polygon. Each such pair gets the smallest mileage any rail reports for the point, or none. The rows are sorted by mileage, with rows without a mileage placed last.

The modules follow the source:

- `Geometry`: 2-D vectors over `real`, and the norm as a parameter.
- `Projection`: `project_to_segment`.
- `CumulativeLength`: `calc_cum_len`.
- `Densification`: `densify`.
- `NearestRail`: `nearest_on_rail`.
- `Sorting`: the stable sort by an extended-real key, where `Infinite` plays `float('inf')`, and the first-least scan.
- `TextDistance`: rail loading and the text/rail loops of `extract_text_distance.py`.
- `ClosedPolylineText`: `mileage_from_point`, the row loop and the `None`-last sort.
- `Options` and `Drawing`: `Option`, and a text entity with its insertion point and string.

### Distances

Every member that measures a length takes the vector norm as a parameter `norm: Vec -> real`. The model contains no square root. Where a property needs the real Euclidean length, the lemma requires `IsEuclidean(norm)`: the norm is non-negative and its square is the dot product. That determines the norm uniquely. Facts about the nearest point are also stated on squared distances (`SqDist`).

### Where the code and its documentation differ

The model follows the code. There is one exception: the rail comparison of `extract_text_distance.py` line 151 reads `best['dist']`, a key its rows do not have (see "Findings"). That code is modelled as written by the `...AsWritten` members of `TextDistance`. The other members model the comparison as evidently intended, against `Distance_m`.

- **A text and no rails.** It produces no row; the run is not aborted.
- **The first rail has fewer than two vertices.**
  - `nearest_on_rail` returns `None` as the length for that rail.
  - The rail loop then adds the offset to `None`, and the run stops with a `TypeError`.
  - This is modelled as `Selection.MissingLength` and `Outcome.Aborted`.
- **The first rail has a segment and a second rail follows.**
  - As written, the second rail raises `KeyError` at line 151, with or without segments, and the run stops.
  - This is modelled as `Selection.MissingKey` and `Outcome.Aborted`.
  - With the intended comparison a later rail without segments is harmless: its infinite distance never wins.
- **`mileage_from_point`.** It takes the smallest reported mileage, not the mileage of the nearest rail.
- **`densify`.** A segment whose length is `d > max_len` gets `floor(d / max_len)` interior points. They cut it into that many plus one equal pieces. A one-point polyline comes back unchanged. An empty one is an error in the code (`points[-1]`).

## Model

| member | source | states |
|---|---|---|
| Densification.Densify | extract_text_distance.py:54-67 | the densified polyline is at least as long as the input, starts with the first vertex, ends with the last, and a one-vertex polyline comes back unchanged |
| Densification.SegmentSteps | extract_text_distance.py:60-62 | a segment gets interior points exactly when it is longer than `max_len`, and then their number is the floor of its length over `max_len` |
| Densification.DensifyKeepsVertex | extract_text_distance.py:57-59 | every original vertex `i` appears in the result at position `VertexPosition(i)`, so the vertices are kept in order |
| Densification.VertexPositionNext | extract_text_distance.py:57-65 | consecutive vertices `i` and `i + 1` end up exactly `1 + floor(d / max_len)` positions apart when their distance `d` exceeds the maximum, and adjacent otherwise |
| Densification.DensifyLength | extract_text_distance.py:54-67 | the result ends right at the position of the last vertex: nothing except the original vertices and the interior points of each segment is emitted |
| Densification.DensifyInteriorPoint | extract_text_distance.py:61-65 | the `k`-th inserted point after vertex `i` (`1 <= k <= steps`) is `a + (b - a) * k / (steps + 1)` |
| Densification.DensifyShortUnchanged | extract_text_distance.py:57-66 | a polyline whose segments are all at most `max_len` long is returned unchanged |
| Densification.DensifiedIsShort | extract_text_distance.py:54-67 | with the Euclidean norm, no segment of the densified polyline is longer than `max_len` |
| Densification.DensifyIdempotent | extract_text_distance.py:54-67 | densifying a densified polyline again changes nothing |
| CumulativeLength.CalcCumLen | extract_text_distance.py:70-75 | the table has one entry per vertex (one for an empty polyline), starts at 0 and grows by each segment's length; entry `i` is the path length up to vertex `i` and the last entry is the total length |
| CumulativeLength.PathLengthSnoc | extract_text_distance.py:73-74 | appending a vertex adds exactly the length of the new last segment to the path length |
| CumulativeLength.CumTableMonotone | extract_text_distance.py:70-75 | with a real norm the cumulative lengths never decrease |
| CumulativeLength.CumTableIsPrefixLength | extract_text_distance.py:70-75 | any table built by the recurrence is determined by its polyline: entry `i` is the length of the prefix ending at vertex `i` |
| CumulativeLength.CumTableTotal | extract_text_distance.py:70-75 | the last entry of the table is the total length of the polyline |
| Projection.ProjectToSegment | extract_text_distance.py:78-96 | a degenerate segment (`b - a` shorter than 1e-6) projects to `a` with sign 0; otherwise the projection is `a` when `t < 0`, `b` when `t > 1`, `a + (b - a) t` between; the distance is the distance to the projection; the sign is the cross product of `b - a` with `pt - a` |
| Projection.ProjectionOnSegment | extract_text_distance.py:84-93 | the projection always lies on the segment, at the parameter `t` clamped to `[0, 1]` |
| Projection.ProjectionIsNearest | extract_text_distance.py:78-94 | on a proper segment the projection is a nearest point: its squared distance and its distance to `pt` are at most those of any point of the segment |
| Projection.ProjectionNoFartherThanEnds | extract_text_distance.py:78-94 | the reported distance is non-negative and at most the distance to `a`, and to `b` on a proper segment |
| Projection.ProjectionReversed | extract_text_distance.py:81-95 | swapping the ends keeps degeneracy and negates the sign; on a proper segment it keeps the projected point and the distance |
| Projection.SideReversed | extract_text_distance.py:81-82 | swapping the ends swaps `Left` and `Right` and keeps `On` |
| Projection.LeftOfEastwardSegment | extract_text_distance.py:81-95 | for the segment (0,0)-(1,0) the sign of `(x, y)` is `y`, so a point above it by more than the tolerance is on the left |
| NearestRail.FirstNearest | extract_text_distance.py:101-109 | the scan from an infinite best distance that replaces its best segment only on a strictly smaller distance ends at a segment no farther than any other and strictly nearer than every earlier one |
| NearestRail.FirstLeastIsFirstNearest | extract_text_distance.py:105-109 | the first least key among the segments' distance keys is exactly the first nearest segment, so the segment scan is the first-least scan of the rail loop |
| NearestRail.NearestOnRail | extract_text_distance.py:99-118 | a rail with fewer than two vertices gives no segment; otherwise the result's distance is at most every segment's, and the result is that of the first nearest segment |
| NearestRail.HitAt | extract_text_distance.py:107-117 | the values recorded when segment `k` becomes the best: that segment's projection distance; for the rail's cumulative table, the path length up to the segment start plus the distance from that start to the projection; the side of the point against the directed segment, `On` when it is degenerate |
| NearestRail.FirstNearestUnique | extract_text_distance.py:105-109 | at most one segment is the first nearest, so ties are broken by the lowest index; proved through the uniqueness of the first least key |
| NearestRail.HitLengthWithinSegment | extract_text_distance.py:110-111 | the reported arc length lies between the cumulative lengths of the segment's two ends |
| NearestRail.HitSide | extract_text_distance.py:112-117 | the side is `Left` above the tolerance, `Right` below minus the tolerance and `On` otherwise; a degenerate segment is always `On` |
| NearestRail.NearestOnRailIsNearestPoint | extract_text_distance.py:99-118 | the reported distance is at most the distance from the point to any point of any proper segment of the rail |
| TextDistance.LoadRail | extract_text_distance.py:141-143 | a loaded rail holds the densified polyline, a cumulative table of it whose last entry is its total length, and the layer's offset |
| Sorting.FirstLeastFrom | extract_text_distance.py:148-157 | the scan that replaces its best only on a strictly smaller key ends at a least key that is strictly below every earlier key |
| Sorting.FirstLeastUnique | extract_text_distance.py:148-157 | at most one index holds the first least key, so the first rail wins a tie |
| TextDistance.RailLoopAsWritten | extract_text_distance.py:149-157 | the rail loop as written, from rail `i` on: once a row is held, a further rail raises `KeyError`; with none held, a rail without segments raises `TypeError`, and a rail with one gives its row if it is the last rail and raises otherwise |
| TextDistance.SelectNearestAsWritten | extract_text_distance.py:148-157 | the rail loop as written: no rails gives no row; a first rail without segments raises `TypeError`; a first rail with a segment followed by any other rail raises `KeyError`; only a single rail with a segment gives a row, built from that rail |
| TextDistance.SelectNearest | extract_text_distance.py:148-157 | the rail loop with the comparison reading `Distance_m`: no rails gives no row; a first rail without segments raises; otherwise the row comes from the first rail of least distance, with mileage = arc length + that rail's offset; the `KeyError` never arises |
| TextDistance.SelectedIsLeast | extract_text_distance.py:150-157 | with the comparison reading `Distance_m`, when the first rail has a segment a row is chosen, and its distance is at most the distance reported by every rail with a segment |
| TextDistance.SecondRailRaises | extract_text_distance.py:150-151 | whenever the first rail has a segment and there is a second rail, the loop as written raises `KeyError` while the intended loop chooses a row |
| TextDistance.OneRailAgrees | extract_text_distance.py:148-157 | with at most one rail the loop as written and the intended loop give the same result |
| TextDistance.OffsetsOnlyMoveMileage | extract_text_distance.py:150-157 | with the comparison reading `Distance_m`, adding a constant to every offset changes only the reported mileage, by that constant: the same rail is chosen |
| TextDistance.OffsetsOnlyMoveMileageAsWritten | extract_text_distance.py:150-157 | for the loop as written too, adding a constant to every offset changes only the reported mileage, by that constant; where it raises, it still raises the same error |
| TextDistance.SelectRail | extract_text_distance.py:146-157 | for one text, with the comparison reading `Distance_m`: no row exactly when there are no rails, and failure exactly when the first rail has fewer than two vertices |
| TextDistance.SelectRailAsWritten | extract_text_distance.py:146-157 | for one text, as written: no row exactly when there are no rails, `TypeError` exactly when the first rail has fewer than two vertices, `KeyError` exactly when it has a segment and a second rail follows; a row is chosen only with a single rail, and it is the intended loop's row |
| TextDistance.SelectedIsNearest | extract_text_distance.py:146-157 | with the comparison reading `Distance_m`, when the first rail has a segment, the chosen row's distance is at most the projection distance onto any segment of any rail |
| TextDistance.SelectedRail | extract_text_distance.py:146-157 | with the comparison reading `Distance_m`, when the first rail has a segment a row is chosen; it comes from the first rail with the least distance, that rail has a segment, and the mileage is that rail's arc length plus its offset |
| TextDistance.SelectionIgnoresOffsets | extract_text_distance.py:150-154 | with the comparison reading `Distance_m`, shifting all rail offsets by a constant shifts each reported mileage by the constant and changes nothing else |
| TextDistance.CollectRows | extract_text_distance.py:146-159 | the text loop aborts exactly when some text's rail loop raises (`TypeError` or `KeyError`); it yields no rows when no text has a rail; when every text has a row they appear in text order, one per text |
| TextDistance.SelectionsAsWritten | extract_text_distance.py:146-157 | one rail-loop result as written per text; no text gets a row-less result unless there are no rails, and some text's loop raises exactly when there is a text and either the first rail has no segment or a second rail exists |
| TextDistance.RowsFollowTexts | extract_text_distance.py:146-159 | with the comparison reading `Distance_m`, with rails and no failure, row `j` before sorting is the row chosen for text `j` |
| TextDistance.ExtractTextDistances | extract_text_distance.py:146-161 | with the comparison reading `Distance_m`: the run fails exactly when there is a text and the first rail has fewer than two vertices; without rails there are no rows; otherwise there is one row per text, every text's chosen row is among them, and the rows are the collected rows put through `SortByKey` on the mileage (a stable sort, see `SortStable`), so sorted by mileage |
| TextDistance.RunAbortsWhen | extract_text_distance.py:146-159 | with the comparison reading `Distance_m`, the text loop aborts exactly when there is a text and the first rail has fewer than two vertices |
| TextDistance.ReportedRows | extract_text_distance.py:146-161 | with the comparison reading `Distance_m`, when the run does not abort (no text, or no rail, or a first rail with a segment) the text loop reports, and its sorted rows are empty without rails, and otherwise hold exactly one row per text, every text's chosen row among them |
| TextDistance.ExtractTextDistancesAsWritten | extract_text_distance.py:146-161 | the run as written aborts exactly when there is a text and either the first rail has no segment or a second rail exists; when it does not abort its rows are those of the intended run |
| TextDistance.AsWrittenSelections | extract_text_distance.py:146-157 | where the run as written aborts, the first text's rail loop raises; everywhere else each text's loop as written equals the intended one |
| TextDistance.SecondRailAbortsRun | extract_text_distance.py:146-161 | for any texts, when the first rail has a segment and a second rail follows, the run as written aborts while the intended run reports one row per text |
| TextDistance.TwoRailRunAborts | extract_text_distance.py:150-157 | one text and two parallel rails with a segment each: the run as written aborts, the intended run reports one row |
| Sorting.SortByKey | extract_text_distance.py:161 | the sorted rows are a permutation of the input, of the same length, in non-decreasing key order |
| Sorting.SortStable | extract_text_distance.py:161 | the sort is stable: the rows with any one key keep their relative order |
| Sorting.SortSorted | extract_text_distance.py:161 | an already sorted sequence is left as it is |
| ClosedPolylineText.MileageFrom | extract_closed_polyline_text.py:19-24 | the fold over rails from `i` ends with no mileage exactly when none was held and no remaining rail reports one; otherwise it ends with a held or reported mileage that is no larger than either |
| ClosedPolylineText.MileageFromPoint | extract_closed_polyline_text.py:18-24 | no mileage exactly when no rail reports one; otherwise it is one of the reported mileages and no reported mileage is smaller |
| ClosedPolylineText.NoRailsNoMileage | extract_closed_polyline_text.py:18-24 | without rails a point has no mileage |
| ClosedPolylineText.MileageIsLeast | extract_closed_polyline_text.py:21-23 | whichever rail reports the least mileage, that mileage is the result |
| ClosedPolylineText.PairsIn | extract_closed_polyline_text.py:50-52 | for one polygon: exactly the texts whose insertion point it contains, each once, in text order |
| ClosedPolylineText.PairsFrom | extract_closed_polyline_text.py:48-52 | over the polygons from `i` on: exactly the contained (polygon, text) pairs, strictly increasing in polygon-major then text order |
| ClosedPolylineText.ContainedPairs | extract_closed_polyline_text.py:47-52 | all pairs whose containment test holds, each exactly once, polygon-major then text order |
| ClosedPolylineText.RowsIn | extract_closed_polyline_text.py:50-58 | the inner loop builds one row per contained text, in the order of its pairs |
| ClosedPolylineText.RowsFrom | extract_closed_polyline_text.py:48-58 | the outer loop builds one row per contained pair, in the order of the pairs |
| ClosedPolylineText.BuildRows | extract_closed_polyline_text.py:47-58 | before sorting there is exactly one row per contained pair, in pair order, holding the point's mileage, the text and the polygon |
| ClosedPolylineText.ExtractRoomRows | extract_closed_polyline_text.py:61 | the sorted rows are a permutation of the built rows, as many as there are, ordered by mileage with none as infinity |
| ClosedPolylineText.NoneRowsLast | extract_closed_polyline_text.py:61 | after sorting every row without a mileage follows every row with one, and the mileages ascend |
| ClosedPolylineText.RoomRowsStable | extract_closed_polyline_text.py:61 | rows with equal mileage, and the rows without one, keep their build order |

## Left out

- Reading DXF files (`ezdxf`: `readfile`, `modelspace`, `query`, `poly2d` and its entity-type check) is out: it is file I/O through a foreign library. Rails, texts and polygons are given as sequences of points.
- Both `main` functions check for missing files, print diagnostics and write CSV; these are I/O and are left out. The `round(..., 3)` and `%.3f` formatting is left out too, so a row holds its values and its polygon's vertices, not strings.
- The iteration over `RAIL_LAYERS` (lines 135-140 of `extract_text_distance.py`) is left out. So is the skipping of layers without polylines. `LoadRail` models loading one layer, and the rails are a sequence in layer order.
- Floating-point rounding is left out. Coordinates and lengths are exact reals, and `int(dist // max_len)` is the floor of the exact quotient.
- The square root behind `distance` and `magnitude` is the parameter `norm`. Euclidean facts are assumed only through `IsEuclidean`.
- `calc_mileage`, `load_rails` and `polys` are not defined in `extract_closed_polyline_text.py`, and shapely's `Polygon.contains` is a foreign library. The mileage function, the rails and the polygons become parameters, and containment becomes a predicate parameter.
- `extract_closed_polyline_text.py` opens a docstring at line 4 and never closes it, so as a file it does not parse and lines 6-76 are inside that string. The model reads lines 6-76 as the code they were evidently meant to be.
- Densification.Densify: requires a non-empty polyline and a positive maximum length. The code fails with an `IndexError` on an empty list and is only called with `MAX_SEG_LEN = 5.0`.
- NearestRail.NearestOnRail: requires a cumulative table with an entry for every segment start, which `calc_cum_len` always provides. The code reads `cum[i]` only when segment `i` becomes the best (line 111). So with a shorter table it fails only if such a segment wins, and the model does not describe that failure.
- NearestRail.NearestOnRail, TextDistance.SelectNearest: the loops are modelled as a scan that keeps the index of the best segment or rail, with the result recomputed from it. The source keeps the values themselves; the two agree because the values are a function of the index.
- TextDistance.SelectNearest: states line 151 comparing against `Distance_m`; as written a second rail raises `KeyError`, which `SelectNearestAsWritten`, `SelectRailAsWritten` and `ExtractTextDistancesAsWritten` state (see "Findings").
- TextDistance.SelectedIsLeast: states line 151 comparing against `Distance_m`; as written a second rail raises `KeyError`, which `SelectNearestAsWritten`, `SelectRailAsWritten` and `ExtractTextDistancesAsWritten` state (see "Findings").
- TextDistance.OffsetsOnlyMoveMileage: states line 151 comparing against `Distance_m`; as written a second rail raises `KeyError`, which `SelectNearestAsWritten`, `SelectRailAsWritten` and `ExtractTextDistancesAsWritten` state (see "Findings").
- TextDistance.SelectRail: states line 151 comparing against `Distance_m`; as written a second rail raises `KeyError`, which `SelectNearestAsWritten`, `SelectRailAsWritten` and `ExtractTextDistancesAsWritten` state (see "Findings").
- TextDistance.SelectedIsNearest: states line 151 comparing against `Distance_m`; as written a second rail raises `KeyError`, which `SelectNearestAsWritten`, `SelectRailAsWritten` and `ExtractTextDistancesAsWritten` state (see "Findings").
- TextDistance.SelectedRail: states line 151 comparing against `Distance_m`; as written a second rail raises `KeyError`, which `SelectNearestAsWritten`, `SelectRailAsWritten` and `ExtractTextDistancesAsWritten` state (see "Findings").
- TextDistance.SelectionIgnoresOffsets: states line 151 comparing against `Distance_m`; as written a second rail raises `KeyError`, which `SelectNearestAsWritten`, `SelectRailAsWritten` and `ExtractTextDistancesAsWritten` state (see "Findings").
- TextDistance.RowsFollowTexts: states line 151 comparing against `Distance_m`; as written a second rail raises `KeyError`, which `SelectNearestAsWritten`, `SelectRailAsWritten` and `ExtractTextDistancesAsWritten` state (see "Findings").
- TextDistance.RunAbortsWhen: states line 151 comparing against `Distance_m`; as written a second rail raises `KeyError`, which `SelectNearestAsWritten`, `SelectRailAsWritten` and `ExtractTextDistancesAsWritten` state (see "Findings").
- TextDistance.ReportedRows: states line 151 comparing against `Distance_m`; as written a second rail raises `KeyError`, which `SelectNearestAsWritten`, `SelectRailAsWritten` and `ExtractTextDistancesAsWritten` state (see "Findings").
- TextDistance.ExtractTextDistances: states line 151 comparing against `Distance_m`; as written a second rail raises `KeyError`, which `SelectNearestAsWritten`, `SelectRailAsWritten` and `ExtractTextDistancesAsWritten` state (see "Findings").

## Findings

| source | as written | input that shows it | evidently intended | confidence | as-written member | corrected member |
|---|---|---|---|---|---|---|
| extract_text_distance.py:151 | `dist < best['dist']`, but the rows built at lines 152-157 have only the keys `Mileage_m`, `Distance_m`, `Side`, `Text` | one text and two rails each with a segment, e.g. (0,0)-(1,0) and (0,5)-(1,5): the second rail reads `best['dist']` and raises `KeyError`, ending the run | `dist < best['Distance_m']`: keep the nearest rail, the first on ties | high; not executed | TextDistance.SelectNearestAsWritten | TextDistance.SelectNearest |

The discrepancy is exhibited by `SecondRailRaises` for every such input and by `TwoRailRunAborts` for the concrete pair of rails above. `ExtractTextDistancesAsWritten` carries it to the whole run. The rest of the model uses the corrected loop, whose least-distance property is `SelectedIsLeast`.
