# SourceAFIS core in Dafny

A Dafny model of the fingerprint-matching core of SourceAFIS (C#), with proofs of what
its code promises. It covers three parts:

- **Byte angles and geometry.** `Angle`, `RectangleC` with its row-major enumerator,
  and `Neighborhood`.
- **Image filters on blocks.** `LocalHistogram`, `BlockFiller` and `ThresholdBinarizer`.
- **Minutia matching.**
  - `MinutiaPairing` is the two-way map between probe and candidate minutiae.
  - `EdgeTable` is each minutia's nearest-neighbour edges.
  - `MinutiaMatcher` grows a pairing from each root pair along matching edges.
  - `MatchScoring` scores the grown pairing.

One module per source file:

| file | module | form |
|---|---|---|
| `angle.dfy` | `Angle` | functions and lemmas; `ToPolar` is a method |
| `geometry.dfy` | `Geometry` | `RectangleC` is a datatype, because the C# struct is copied on assignment; `RectEnumerator` is a class |
| `neighborhood.dfy` | `Neighborhood` | the two offset tables and lemmas about them |
| `block_map.dfy` | `BlockGrid` | the block layout that the filters read (`BlockMap`) |
| `local_histogram.dfy` | `LocalHistogram` | methods over `array3<int>` |
| `block_filler.dfy` | `BlockFiller` | generic methods over `array2<T>` |
| `threshold_binarizer.dfy` | `ThresholdBinarizer` | a method over `array2<bool>` |
| `sorting.dfy` | `Sorting` | sorted insertion, shared by the edge table and the pair queue |
| `edge_table.dfy` | `Edges` | class `EdgeTable` with field `Table` |
| `minutia_pairing.dfy` | `MinutiaPairing` | class over the three C# arrays and `PairCount` |
| `match_scoring.dfy` | `MatchScoring` | datatypes and lemmas over reals |
| `minutia_matcher.dfy` | `MinutiaMatcher` | class `MinutiaMatcher` |

Conventions:

- C# `byte` is the subset type `Byte` (0..255). A `(byte)` cast is `% 256`.
- C# integer `/` and `%` truncate toward zero. They are `TruncDiv` and `TruncMod`
  wherever an operand can be negative.
- `float` values are `real`.
- `Threader.Split` runs the block or corner loop in parallel. Here it is a sequential
  row-major loop. Every iteration writes only its own block's or corner's cells, or
  only sets bits.

Collaborators that are not part of this model are parameters:

| collaborator | stands in for |
|---|---|
| `construct` | `EdgeConstructor.Construct` |
| `lookup` | `EdgeLookup.FindMatchingPairs` |
| `analyze` | `MatchAnalysis.Analyze`, seen through the statistics that `MatchScoring.Compute` reads |
| `roots` | the root selector's output |

`PairSelector` is not part of this model either. Its role is played by `Queue`, a
sequence of pairs kept sorted by key. It supports `Enqueue`, `SkipPaired` and dequeue
from the front.

Two behaviours of the source that its callers may not expect are stated as lemmas:

- The rectangle enumerator assumes a non-empty rectangle. On a rectangle with no points but a positive width, or with a height above 1, `MoveNext` still returns true with points outside it (`EmptyRectangleStillYields`, `EmptyRowExample`).
- `RectangleC.Center` halves with truncation toward zero. With a negative origin, the centre can fall on the excluded right edge (`CenterOutsideNegativeRectangle`).

## Model

| member | source | states |
|---|---|---|
| Angle.Add | SourceAFIS/General/Angle.cs:181-184 | the byte sum of the two angles, less 256 when it reaches a full turn |
| Angle.Difference | SourceAFIS/General/Angle.cs:186-189 | the byte difference of the two angles, plus 256 when it is negative |
| Angle.Complementary | SourceAFIS/General/Angle.cs:200-203 | 0 for angle 0, otherwise 256 minus the angle |
| Angle.Opposite | SourceAFIS/General/Angle.cs:205-208 | the angle plus half a turn, wrapped past a full turn |
| Angle.ToOrientation | SourceAFIS/General/Angle.cs:58-61 | twice the direction, once the direction is taken modulo half a turn (the byte cast wraps the product) |
| Angle.ToDirection | SourceAFIS/General/Angle.cs:63-66 | below half a turn, and doubling it gives the orientation back up to its lowest bit |
| Angle.FromDegreesB | SourceAFIS/General/Angle.cs:68-71 | for whole degrees in [0, 360), the byte nearest to `degrees * 256 / 360`, within half a byte step |
| Angle.ToDegrees | SourceAFIS/General/Angle.cs:73-76 | a whole degree in [0, 360), the nearest to `angle * 360 / 256`, within half a degree |
| Angle.Quantize | SourceAFIS/General/Angle.cs:167-170 | with a non-negative resolution, the bucket `r` such that `r * 256 <= angle * resolution < (r + 1) * 256` |
| Angle.Distance | SourceAFIS/General/Angle.cs:191-198 | the distance is at most half a turn (128), is 0 exactly when the angles are equal, and is one of the two differences |
| Angle.DistanceSymmetric | SourceAFIS/General/Angle.cs:191-198 | distance does not depend on argument order |
| Angle.AddUndoesDifference | SourceAFIS/General/Angle.cs:181-189 | adding `b` after subtracting `b` gives the angle back, and so does the reverse, with byte wrap-around |
| Angle.ComplementaryIsInverse | SourceAFIS/General/Angle.cs:200-203 | the complement is the additive inverse mod 256, is its own inverse, and equals `0 - a` |
| Angle.OppositeIsHalfTurn | SourceAFIS/General/Angle.cs:205-208 | the opposite of the opposite is the angle, lies exactly half a turn away, and always differs from it |
| Angle.OrientationRoundTrip | SourceAFIS/General/Angle.cs:58-66 | orientations are even, and halving one gives the direction modulo half a turn |
| Angle.DegreesRoundTrip | SourceAFIS/General/Angle.cs:68-76 | every byte converts to whole degrees in [0, 360) and back to the same byte |
| Angle.DegreesNearlyRoundTrip | SourceAFIS/General/Angle.cs:68-76 | whole degrees in [0, 360) survive the trip through a byte to within one degree |
| Angle.QuantizeInRange | SourceAFIS/General/Angle.cs:167-170 | with a positive resolution, the bucket lies in [0, resolution) |
| Angle.QuantizeMonotone | SourceAFIS/General/Angle.cs:167-170 | a larger angle never falls in a smaller bucket |
| Angle.FoldingUnique | SourceAFIS/General/Angle.cs:242-259 | each point folds into the first quadrant in exactly one way (point, quadrant) |
| Angle.CacheShiftFits | SourceAFIS/General/Angle.cs:261-263 | after the shift, both coordinates index inside the 256x256 polar table |
| Angle.ToPolar | SourceAFIS/General/Angle.cs:237-265 | the point is folded into the first quadrant (the quadrant turned back gives the point), both shifted coordinates index inside the table, and the result is the table entry with its length scaled back and the quadrant added to its byte angle |
| Geometry.RectangleC.Contains | SourceAFIS/General/RectangleC.cs:79-82 | half-open bounds: left and bottom edges inside, right and top outside, so only a rectangle of positive width, height and `Count` contains a point |
| Geometry.RectangleC.Center | SourceAFIS/General/RectangleC.cs:28 | each coordinate lies between its two edges; for a non-empty rectangle with a non-negative origin the centre is inside |
| Geometry.CenterOutsideNegativeRectangle | SourceAFIS/General/RectangleC.cs:28 | with a negative origin the truncating halving can land on the excluded right edge: the centre (-2, 0) of the one-pixel rectangle at (-3, 0) is not inside it |
| Geometry.RectangleC.TotalArea | SourceAFIS/General/RectangleC.cs:29 | non-negative for non-negative sizes, and 0 exactly when the width or the height is 0 |
| Geometry.RectangleC.Count | SourceAFIS/General/RectangleC.cs:188 | for a non-empty rectangle, one more than the row-major index of the last pixel `(Right - 1, Top - 1)` |
| Geometry.RectangleC.ItemAt | SourceAFIS/General/RectangleC.cs:189 | for a positive width and an index `at >= 0`, a column in [0, Width) and a row `y >= 0` with `y * Width + column == at` |
| Geometry.RectangleC.WithLeft | SourceAFIS/General/RectangleC.cs:17 | setting `Left` moves the left edge and keeps the other three |
| Geometry.RectangleC.WithBottom | SourceAFIS/General/RectangleC.cs:18 | setting `Bottom` moves the bottom edge and keeps the other three |
| Geometry.RectangleC.WithRight | SourceAFIS/General/RectangleC.cs:19 | setting `Right` moves the right edge and keeps the other three |
| Geometry.RectangleC.WithTop | SourceAFIS/General/RectangleC.cs:20 | setting `Top` moves the top edge and keeps the other three |
| Geometry.RectangleC.GetRelative | SourceAFIS/General/RectangleC.cs:79-87 | a point is inside the rectangle exactly when its relative coordinates lie in [0, Width) x [0, Height) |
| Geometry.GetRelativeInverse | SourceAFIS/General/RectangleC.cs:84-87 | adding the origin back to relative coordinates gives the absolute point, and relative coordinates commute with translation |
| Geometry.RectangleC.Shift | SourceAFIS/General/RectangleC.cs:95-98 | the origin moves by the offset, the size is kept, and the shifted rectangle contains exactly the shifted points |
| Geometry.RectangleC.GetShifted | SourceAFIS/General/RectangleC.cs:100-105 | a copy with the origin moved by the offset and the same size |
| Geometry.RectangleC.Clip | SourceAFIS/General/RectangleC.cs:107-117 | the result contains exactly the points in both rectangles; each edge is the inner one of the two |
| Geometry.RectangleC.Include | SourceAFIS/General/RectangleC.cs:119-129 | each edge moves out just far enough: Left becomes the point's X when that lies left of it, Right becomes X + 1 when X is at or past it, and likewise Bottom and Top with Y, every other edge is kept; so the result contains the point and everything the rectangle contained, and equals it when the point was already inside |
| Geometry.RowMajorCoversRect | SourceAFIS/General/RectangleC.cs:188-189 | position `at` of the row-major walk lies inside the rectangle and has index `at`; the `IList` indexer returns it relative to the origin |
| Geometry.RowMajorIndexInverse | SourceAFIS/General/RectangleC.cs:131-168 | every point of the rectangle is visited, at an index below `Count` |
| Geometry.RowMajorNext | SourceAFIS/General/RectangleC.cs:146-157 | the next point of the walk is one to the right, or the left end of the next row |
| Geometry.RowMajorLast | SourceAFIS/General/RectangleC.cs:131-168 | the walk ends at the top-right pixel `(Right - 1, Top - 1)` |
| Geometry.RectEnumerator.constructor | SourceAFIS/General/RectangleC.cs:136-141 | the enumerator starts one pixel left of the origin, before any point |
| Geometry.RectEnumerator.MoveNext | SourceAFIS/General/RectangleC.cs:146-157 | on every rectangle, the current point and the answer follow the C# step (`EnumeratorStep`): one to the right, else the next row's left end, else past the top with false; for a non-empty rectangle it returns true exactly while fewer than `Count` points were yielded, the current point being the next one of the row-major walk |
| Geometry.StepAlongWalk | SourceAFIS/General/RectangleC.cs:146-157 | on a non-empty rectangle one step yields the next point of the row-major walk exactly while points are left, and keeps the enumerator's position consistent with the count yielded |
| Geometry.EmptyRectangleStillYields | SourceAFIS/General/RectangleC.cs:146-157 | on a rectangle with `Count` at most 0 but a positive width, or a height above 1, the first `MoveNext` still returns true, with a point the rectangle does not contain |
| Geometry.EmptyRowExample | SourceAFIS/General/RectangleC.cs:146-157 | the rectangle of width 3 and height 0 yields (0, 0), (1, 0) and (2, 0) and only then returns false, although its `Count` is 0 |
| Geometry.RectEnumerator.Reset | SourceAFIS/General/RectangleC.cs:159-163 | on any rectangle, back to the starting position one pixel left of the origin, with nothing yielded |
| Neighborhood.CornerNeighborsAreTheRing | SourceAFIS/General/Neighborhood.cs:17-26 | the eight corner neighbours are distinct and are exactly the non-zero offsets with both coordinates in [-1, 1] |
| Neighborhood.EdgeNeighborsAreTheCross | SourceAFIS/General/Neighborhood.cs:10-15 | the four edge neighbours are distinct and are exactly the offsets at Manhattan distance 1 |
| Neighborhood.EdgeNeighborsAreCornerNeighbors | SourceAFIS/General/Neighborhood.cs:10-26 | every edge neighbour is a corner neighbour |
| Neighborhood.NeighborhoodsAreSymmetric | SourceAFIS/General/Neighborhood.cs:10-26 | both tables are closed under negation |
| LocalHistogram.Analyze | SourceAFIS/Extraction/LocalHistogram.cs:11-22 | in a fresh array, bin `v` of every block is the number of that block's pixels with intensity `v`, and lies in [0, 32767] |
| LocalHistogram.AnalyzeBlock | SourceAFIS/Extraction/LocalHistogram.cs:14-20 | one block's bins, starting from zero, end as its pixel counts; no other block's bins change |
| LocalHistogram.AnalyzeRow | SourceAFIS/Extraction/LocalHistogram.cs:18-19 | one pixel row adds its per-value counts to the block's bins; nothing else changes |
| LocalHistogram.HistogramTotal | SourceAFIS/Extraction/LocalHistogram.cs:11-22 | the 256 bins of a block add up to the block's area |
| LocalHistogram.BinAtMostArea | SourceAFIS/Extraction/LocalHistogram.cs:11-22 | no bin exceeds the block's area |
| LocalHistogram.AddBins | SourceAFIS/Extraction/LocalHistogram.cs:55-56 | the target cell's 256 bins grow by the source cell's bins; no other cell changes |
| LocalHistogram.CopyBins | SourceAFIS/Extraction/LocalHistogram.cs:48-49 | the target cell's 256 bins become the source cell's; no other cell changes |
| LocalHistogram.SmoothCorner | SourceAFIS/Extraction/LocalHistogram.cs:30-38 | one corner's bins sum the bins of the in-grid blocks around it; no other corner changes |
| LocalHistogram.AroundNext | SourceAFIS/Extraction/LocalHistogram.cs:33-37 | one more block around the corner: its bins are added when it lies in the block grid; no other corner changes |
| LocalHistogram.SmoothAroundCorners | SourceAFIS/Extraction/LocalHistogram.cs:24-41 | in a fresh array, each corner's bin `i` is the sum of bin `i` over the blocks at offsets (0,0), (-1,0), (0,-1) and (-1,-1) that lie in the block grid |
| LocalHistogram.AroundInteriorCorner | SourceAFIS/Extraction/LocalHistogram.cs:26-38 | an interior corner sums exactly its four surrounding blocks |
| LocalHistogram.AroundOrigin | SourceAFIS/Extraction/LocalHistogram.cs:26-38 | corner (0,0) gets exactly block (0,0)'s histogram |
| LocalHistogram.AroundLeftEdge | SourceAFIS/Extraction/LocalHistogram.cs:26-38 | a corner on the left edge (not at the top or bottom) sums exactly the two first-column blocks beside it |
| LocalHistogram.SmoothOne | SourceAFIS/Extraction/LocalHistogram.cs:48-58 | one corner gets its own bins plus those of its in-grid corner neighbours; no other corner changes |
| LocalHistogram.Smooth | SourceAFIS/Extraction/LocalHistogram.cs:43-61 | in a fresh array, every corner's bin is its own bin plus that bin of each of its eight neighbours that lies in the corner grid |
| LocalHistogram.SmoothInteriorCorner | SourceAFIS/Extraction/LocalHistogram.cs:50-58 | an interior corner gets the sum over its full 3x3 square |
| BlockFiller.FillArea | SourceAFIS/Visualization/BlockFiller.cs:18-20 | every pixel of the area takes the fill value; every other pixel keeps its value |
| BlockFiller.FillGrid | SourceAFIS/Visualization/BlockFiller.cs:13-22 | in a fresh image, each pixel of a cell's area holds that cell's input value, and each pixel outside all areas holds the default |
| BlockFiller.FillBlocks | SourceAFIS/Visualization/BlockFiller.cs:11-23 | in a fresh image, each pixel of a block's area holds the block's input value; uncovered pixels hold the default |
| BlockFiller.FillCornerAreas | SourceAFIS/Visualization/BlockFiller.cs:25-37 | in a fresh image, each pixel of a corner area holds the corner's input value; uncovered pixels hold the default |
| ThresholdBinarizer.BinarizeBlock | SourceAFIS/Extraction/Filters/ThresholdBinarizer.cs:19-23 | bits of the area's pixels above the baseline are set; every other bit is kept |
| ThresholdBinarizer.BinarizeNext | SourceAFIS/Extraction/Filters/ThresholdBinarizer.cs:15-24 | after one more block, every bit is set exactly when its pixel is above the baseline and lies in a masked block visited so far |
| ThresholdBinarizer.Binarize | SourceAFIS/Extraction/Filters/ThresholdBinarizer.cs:11-27 | in a fresh bit map, a pixel's bit is one exactly when it lies in a block whose mask bit is set and the image exceeds the baseline there; both directions |
| Sorting.InsertBy | SourceAFIS/Matching/EdgeTable.cs:45 | inserting into a sorted list keeps it sorted, and the result is the list plus the element as a multiset |
| Sorting.HeadIsSmallest | SourceAFIS/Matching/EdgeTable.cs:45 | the first element of a sorted list has the smallest key |
| Edges.EdgeTable.constructor | SourceAFIS/Matching/EdgeTable.cs:18-20 | the defaults `MaxDistance = 226` and `MaxNeighbors = 9`, with an empty table |
| Edges.EdgeTable.Reset | SourceAFIS/Matching/EdgeTable.cs:24-51 | one row per minutia, each row being that minutia's `MaxNeighbors` shortest eligible edges (all of them if fewer), shortest first |
| Edges.BuildRow | SourceAFIS/Matching/EdgeTable.cs:30-49 | one row built by collecting, sorting and truncating is a correct row |
| Edges.Eligible | SourceAFIS/Matching/EdgeTable.cs:33-43 | the edges collected for a reference minutia are exactly those to the other minutiae within `MaxDistance`, each neighbour once, in index order, with the constructed shape |
| Edges.IsRow | SourceAFIS/Matching/EdgeTable.cs:45-48 | a row has at most as many entries as the eligible list, all drawn from it |
| Edges.IsTable | SourceAFIS/Matching/EdgeTable.cs:24-51 | a table has one row per minutia, and every entry names another minutia of the template within `MaxDistance` |
| Edges.EligibleUpTo | SourceAFIS/Matching/EdgeTable.cs:33-43 | every collected edge leads to another minutia within `MaxDistance`, with the constructed shape; neighbours come in increasing order |
| Edges.EligibleComplete | SourceAFIS/Matching/EdgeTable.cs:33-43 | every minutia within range, other than the reference, is collected |
| Edges.SortByLength | SourceAFIS/Matching/EdgeTable.cs:45 | the edges sorted by length are a permutation of the input |
| Edges.TruncateKeepsShortest | SourceAFIS/Matching/EdgeTable.cs:45-47 | the first `MaxNeighbors` edges of a sorted permutation of the eligible edges form a row: sorted, of the right length, drawn from the eligible edges, and none longer than an edge dropped |
| Edges.DroppedNotShorter | SourceAFIS/Matching/EdgeTable.cs:46-47 | in a sorted list, no edge removed from the tail is shorter than one kept |
| Edges.RowEntriesEligible | SourceAFIS/Matching/EdgeTable.cs:35-41 | every row entry is another minutia of the template, within `MaxDistance`, with the constructed shape |
| Edges.RowNeighborsDistinct | SourceAFIS/Matching/EdgeTable.cs:33-48 | no neighbour appears twice in a row |
| Edges.ShortRowKeepsAll | SourceAFIS/Matching/EdgeTable.cs:46-47 | with at most `MaxNeighbors` eligible edges, the row keeps all of them |
| Edges.TableNeighborsInRange | SourceAFIS/Matching/EdgeTable.cs:24-51 | every neighbour named in the table is a minutia of the template |
| MinutiaPairing.MinutiaPairing.Count | SourceAFIS/Matching/MinutiaPairing.cs:15 | the count is the number of listed pairs, 0 on a pairing with no pair list yet |
| MinutiaPairing.MinutiaPairing.LastAdded | SourceAFIS/Matching/MinutiaPairing.cs:16 | the last listed pair |
| MinutiaPairing.MinutiaPairing.constructor | SourceAFIS/Matching/MinutiaPairing.cs:10-13 | no arrays yet and no pairs |
| MinutiaPairing.MinutiaPairing.SelectProbe | SourceAFIS/Matching/MinutiaPairing.cs:18-25 | a fresh probe-side map, all -1, and a fresh pair list with room for one pair per probe minutia, every slot the default pair (0, 0), and no pairs counted; the candidate side is kept, and if it is all -1 the pairing is consistent |
| MinutiaPairing.MinutiaPairing.SelectCandidate | SourceAFIS/Matching/MinutiaPairing.cs:27-33 | the candidate-side map is reused if long enough and replaced otherwise; either way every entry is -1; nothing else changes |
| MinutiaPairing.MinutiaPairing.Reset | SourceAFIS/Matching/MinutiaPairing.cs:35-43 | exactly the map entries of the listed pairs go back to -1, and the list is emptied; with no pairs listed both maps are left as they were; a tracked pairing becomes empty and consistent |
| MinutiaPairing.FillUnpaired | SourceAFIS/Matching/MinutiaPairing.cs:21-22 | every entry of the array becomes -1 |
| MinutiaPairing.ClearListed | SourceAFIS/Matching/MinutiaPairing.cs:37-41 | the reset loop clears the entries keyed by the listed pairs and keeps every other entry |
| MinutiaPairing.ClearLeavesNothingPaired | SourceAFIS/Matching/MinutiaPairing.cs:35-43 | when only listed minutiae were paired, clearing the listed keys leaves every entry at -1 |
| MinutiaPairing.MinutiaPairing.Add | SourceAFIS/Matching/MinutiaPairing.cs:45-51 | both maps record the pair, the pair is written to slot `PairCount` of the list and every other slot keeps its value, and the count grows by one; adding a pair of two unpaired minutiae keeps the pairing consistent |
| MinutiaPairing.AddKeepsConsistent | SourceAFIS/Matching/MinutiaPairing.cs:45-51 | adding a pair whose two minutiae are unpaired keeps the invariant: maps and list agree, and no minutia is paired twice |
| MinutiaPairing.RoomForAnotherPair | SourceAFIS/Matching/MinutiaPairing.cs:18-25 | while some probe minutia is unpaired, fewer pairs than probe minutiae are listed, so the write at `PairCount` stays in bounds |
| MinutiaPairing.PairCountBound | SourceAFIS/Matching/MinutiaPairing.cs:45-51 | a pairing that uses no probe minutia and no candidate minutia twice, over minutiae of both templates, has at most as many pairs as either template has minutiae |
| MinutiaPairing.ConsistentInverse | SourceAFIS/Matching/MinutiaPairing.cs:53-71 | under the invariant the two maps are mutual inverses, and a minutia is paired exactly when it occurs in the list |
| MinutiaPairing.MinutiaPairing.GetProbeByCandidate | SourceAFIS/Matching/MinutiaPairing.cs:53-56 | in a consistent pairing, a non-negative answer names a listed pair |
| MinutiaPairing.MinutiaPairing.GetCandidateByProbe | SourceAFIS/Matching/MinutiaPairing.cs:58-61 | in a consistent pairing, a non-negative answer names a listed pair |
| MinutiaPairing.MinutiaPairing.IsProbePaired | SourceAFIS/Matching/MinutiaPairing.cs:63-66 | in a consistent pairing, true exactly when the probe minutia occurs in the list |
| MinutiaPairing.MinutiaPairing.IsCandidatePaired | SourceAFIS/Matching/MinutiaPairing.cs:68-71 | in a consistent pairing, true exactly when the candidate minutia occurs in the list |
| MinutiaPairing.MinutiaPairing.GetPair | SourceAFIS/Matching/MinutiaPairing.cs:73-76 | below the count, the indexed listed pair |
| MinutiaPairing.MinutiaPairing.Clone | SourceAFIS/Matching/MinutiaPairing.cs:78-86 | fresh arrays with equal contents and the same count, so the same pairs; consistency carries over |
| MinutiaPairing.CopyInts | SourceAFIS/Matching/MinutiaPairing.cs:81-82 | a fresh array with the same entries |
| MinutiaPairing.CopyPairs | SourceAFIS/Matching/MinutiaPairing.cs:83 | a fresh array with the same pairs |
| MatchScoring.MatchScoring.Compute | SourceAFIS/Matching/MatchScoring.cs:21-30 | with non-negative factors and statistics the score is non-negative; no statistics give score 0 |
| MatchScoring.DefaultsNonNegative | SourceAFIS/Matching/MatchScoring.cs:10-19 | the default factors are non-negative |
| MatchScoring.ComputeAdditive | SourceAFIS/Matching/MatchScoring.cs:21-30 | the score is additive in the statistics |
| MatchScoring.ComputeMonotone | SourceAFIS/Matching/MatchScoring.cs:21-30 | with non-negative factors, no statistic increase lowers the score |
| MatchScoring.NoEdgesNoEdgeTerm | SourceAFIS/Matching/MatchScoring.cs:21-30 | without edges the edge factor does not affect the score |
| MinutiaMatcher.MinutiaMatcher.constructor | SourceAFIS/Matching/Minutia/MinutiaMatcher.cs:29-33 | `MaxTriedRoots = 10000`, default scoring, fresh pairing and candidate edge table |
| MinutiaMatcher.MinutiaMatcher.CreateIndex | SourceAFIS/Matching/Minutia/MinutiaMatcher.cs:35-42 | the index holds the probe and a correct edge table for it (default table parameters), whose neighbours are probe minutiae |
| MinutiaMatcher.MinutiaMatcher.SelectProbe | SourceAFIS/Matching/Minutia/MinutiaMatcher.cs:44-48 | the probe is stored and the pairing's probe side is reset to fit it, with no pairs; the candidate side (`ProbeByCandidate`, array and contents) is untouched |
| MinutiaMatcher.MinutiaMatcher.PrepareCandidate | SourceAFIS/Matching/Minutia/MinutiaMatcher.cs:75-80 | the candidate side is all unpaired, the queue is empty, and the candidate edge table is correct for the candidate |
| MinutiaMatcher.MinutiaMatcher.Match | SourceAFIS/Matching/Minutia/MinutiaMatcher.cs:50-73 | the first `TriedCount` roots are tried in order, each yielding a pairing grown from it that is scored; the result is the best score, 0 if none is positive; afterwards, once a root was tried, `Pairing` holds the last tried root's pairing, recorded consistently in both maps, and the support counters hold its support (`LeftBy`) |
| MinutiaMatcher.MinutiaMatcher.TryRoots | SourceAFIS/Matching/Minutia/MinutiaMatcher.cs:54-69 | the loop over the roots stops after `TriedCount` of them and returns `BestOf` of their scores, leaving the last tried root's pairing, consistent in both maps, and its support in place |
| MinutiaMatcher.MinutiaMatcher.TryNext | SourceAFIS/Matching/Minutia/MinutiaMatcher.cs:57-60 | one more root is tried, and its pairing, support and score join those before it; that pairing, consistent in both maps, and that support are the ones left in `Pairing` and `Support` |
| MinutiaMatcher.BestOfIsFirstMaximum | SourceAFIS/Matching/Minutia/MinutiaMatcher.cs:54-69 | the best score is the maximum of 0 and all scores; the best index is the first root reaching it, or -1 when no score exceeds 0 |
| MinutiaMatcher.BestOfSnoc | SourceAFIS/Matching/Minutia/MinutiaMatcher.cs:61-65 | a new score replaces the best only when strictly greater |
| MinutiaMatcher.TriedCount | SourceAFIS/Matching/Minutia/MinutiaMatcher.cs:57-69 | no roots means none tried; otherwise at least one and at most all of them, and at most `MaxTriedRoots` (when positive); stopping early means the cap was reached |
| MinutiaMatcher.TriedCountOnExit | SourceAFIS/Matching/Minutia/MinutiaMatcher.cs:66-68 | the loop's exit conditions, roots used up or the cap reached after the increment, mean exactly `TriedCount` roots were tried |
| MinutiaMatcher.MinutiaMatcher.TryRoot | SourceAFIS/Matching/Minutia/MinutiaMatcher.cs:82-90 | the pairing restarts from the root alone and is grown until closed: it starts with the root, pairs no minutia twice, and every pair the lookup matches around one of its pairs shares a minutia with one of its pairs; when the queue is empty on entry, as `Match` leaves it, every pair after the root was matched around an earlier one; the pairing has at most as many pairs as either template has minutiae; the score is `Compute` of the analysed statistics |
| MinutiaMatcher.MinutiaMatcher.StartFrom | SourceAFIS/Matching/Minutia/MinutiaMatcher.cs:84-85 | after reset and add, the pairing is exactly `[root]`, with all support counters at 0 |
| MinutiaMatcher.MinutiaMatcher.ClearPairing | SourceAFIS/Matching/Minutia/MinutiaMatcher.cs:84 | after reset both maps are all -1 and the pairing is empty and consistent |
| MinutiaMatcher.MinutiaMatcher.ResetPairing | SourceAFIS/Matching/Minutia/MinutiaMatcher.cs:84 | the pairing's reset leaves both maps all -1 and no pairs, keeping the arrays |
| MinutiaMatcher.MinutiaMatcher.AddRoot | SourceAFIS/Matching/Minutia/MinutiaMatcher.cs:85 | adding the root to an empty pairing gives a consistent pairing of one pair |
| MinutiaMatcher.MinutiaMatcher.BuildPairing | SourceAFIS/Matching/Minutia/MinutiaMatcher.cs:92-103 | the loop ends with an empty queue, the pairing consistent and only grown, and no support counter lower; every pair the lookup matches around a pair from the last one given on shares a minutia with the pairing; with an empty queue on entry, every pair added was matched around an earlier one; the pair count is at most the probe's and the candidate's minutia counts |
| MinutiaMatcher.MinutiaMatcher.GrowOnce | SourceAFIS/Matching/Minutia/MinutiaMatcher.cs:96-100 | the queue becomes `NextQueue`: the old queue with the unpaired matched pairs inserted by key and the paired ones skipped from the front; the round reports exhaustion exactly when that is empty, and the pairs are then unchanged; otherwise its head is appended to the pairing and its tail is the new queue; support grows as `CollectEdges` computes |
| MinutiaMatcher.PairedIffTouches | SourceAFIS/Matching/MinutiaPairing.cs:63-71 | under the pairing invariant, a pair counts as paired in the two maps exactly when it shares a minutia with a listed pair |
| MinutiaMatcher.UpcomingInRange | SourceAFIS/Matching/Minutia/MinutiaMatcher.cs:96-97 | the queue a round leaves is sorted by key and names minutiae of both templates only |
| MinutiaMatcher.InUpcoming | SourceAFIS/Matching/Minutia/MinutiaMatcher.cs:96-97 | an unpaired pair that was queued, or that was matched around the last added pair, is in the queue the round leaves |
| MinutiaMatcher.CollectSkipCovers | SourceAFIS/Matching/Minutia/MinutiaMatcher.cs:96-97 | after collecting around the last added pair and skipping, every pair matched around a pair from a given position on, the last one included, shares a minutia with the pairing or is still queued |
| MinutiaMatcher.DequeueCovers | SourceAFIS/Matching/Minutia/MinutiaMatcher.cs:98-100 | moving the queue's head into the pairing keeps that: each such matched pair shares a minutia with the longer pairing or is in the rest of the queue |
| MinutiaMatcher.CollectSkipQueuedFrom | SourceAFIS/Matching/Minutia/MinutiaMatcher.cs:96-97 | every pair queued after a round was matched around a pair of the pairing, when that held before |
| MinutiaMatcher.FromUpcoming | SourceAFIS/Matching/Minutia/MinutiaMatcher.cs:96-97 | an entry of the queue a round leaves was queued before, or was matched around the last added pair |
| MinutiaMatcher.InSkipPaired | SourceAFIS/Matching/Minutia/MinutiaMatcher.cs:97 | `SkipPaired` leaves only entries that were queued |
| MinutiaMatcher.InEnqueueAll | SourceAFIS/Matching/Minutia/MinutiaMatcher.cs:111-116 | after enqueuing, each entry was queued before or is one of the enqueued entries |
| MinutiaMatcher.DequeueReached | SourceAFIS/Matching/Minutia/MinutiaMatcher.cs:98-100 | the dequeued head was matched around an earlier pair, and what stays queued still was matched around a pair of the longer pairing |
| MinutiaMatcher.MinutiaMatcher.RoundKeepsCovered | SourceAFIS/Matching/Minutia/MinutiaMatcher.cs:94-101 | one round of the loop: when the queue it leaves is empty the pairing is closed around the pairs from the given position on; otherwise the head joins the pairing and the rest of the queue holds what is still uncovered |
| MinutiaMatcher.MinutiaMatcher.RoundKeepsClosing | SourceAFIS/Matching/Minutia/MinutiaMatcher.cs:94-101 | one round keeps the loop invariant of `BuildPairing`; when the queue it leaves is empty, the pairing is closed around every pair from the given position on |
| MinutiaMatcher.MinutiaMatcher.Round | SourceAFIS/Matching/Minutia/MinutiaMatcher.cs:94-101 | one round of the loop, stated by its invariant: on exhaustion the pairs are unchanged and closed around every pair from the given position on; otherwise exactly one pair is appended and the invariant holds again |
| MinutiaMatcher.UnpairedSurvivesSkip | SourceAFIS/Matching/Minutia/MinutiaMatcher.cs:97 | skipping paired pairs from the front of the queue never drops an unpaired one |
| MinutiaMatcher.MinutiaMatcher.RoundKeepsReached | SourceAFIS/Matching/Minutia/MinutiaMatcher.cs:94-101 | one round keeps every queued pair, and every pair from the given position on, traceable to a pair it was matched around |
| MinutiaMatcher.MinutiaMatcher.SkipPairedInQueue | SourceAFIS/Matching/Minutia/MinutiaMatcher.cs:97 | the queue loses its leading paired entries; its new head, if any, has both minutiae unpaired |
| MinutiaMatcher.SkipPaired | SourceAFIS/Matching/Minutia/MinutiaMatcher.cs:97 | the result is a suffix; every dropped entry is paired, and the new head is not |
| MinutiaMatcher.MinutiaMatcher.AddFirstQueued | SourceAFIS/Matching/Minutia/MinutiaMatcher.cs:100 | the head, whose key is the smallest in the queue, leaves the queue and is appended to the pairing, which stays consistent |
| MinutiaMatcher.MinutiaMatcher.AddUnpaired | SourceAFIS/Matching/Minutia/MinutiaMatcher.cs:100 | adding a pair of two unpaired minutiae grows the pairing by that pair and keeps it consistent |
| MinutiaMatcher.MinutiaMatcher.CollectEdges | SourceAFIS/Matching/Minutia/MinutiaMatcher.cs:105-118 | the queue gains exactly the matched neighbour pairs with both minutiae unpaired; each matched pair that agrees with an existing pairing adds one support to its probe minutia; no counter drops |
| MinutiaMatcher.CollectPass | SourceAFIS/Matching/Minutia/MinutiaMatcher.cs:109-117 | the loop over the edge pairs yields the queue and counters that `ToEnqueue` and `SupportAfter` define |
| MinutiaMatcher.CollectNext | SourceAFIS/Matching/Minutia/MinutiaMatcher.cs:111-116 | one more edge pair keeps the loop's relation to `ToEnqueue` and `SupportAfter` |
| MinutiaMatcher.CollectPair | SourceAFIS/Matching/Minutia/MinutiaMatcher.cs:113-116 | one edge pair: enqueue when both minutiae are unpaired; else, if the probe minutia is paired with this candidate, add support |
| MinutiaMatcher.ToEnqueueExactly | SourceAFIS/Matching/Minutia/MinutiaMatcher.cs:113-114 | a pair is enqueued exactly when it was matched and both its minutiae are unpaired |
| MinutiaMatcher.SupportOnlyAgreeing | SourceAFIS/Matching/Minutia/MinutiaMatcher.cs:115-116 | support never drops, and grows for a probe minutia only when a matched pair agrees with its current pairing |
| MinutiaMatcher.EnqueueAll | SourceAFIS/Matching/Minutia/MinutiaMatcher.cs:113-114 | enqueuing keeps the queue sorted by edge length and adds exactly the entries, as a multiset |
| MinutiaMatcher.MatchedAt | SourceAFIS/Matching/Minutia/MinutiaMatcher.cs:111-114 | matched pair `k` joins the two rows' neighbours at the edge pair's positions, keyed by the candidate edge's length |
| MinutiaMatcher.MatchedInRange | SourceAFIS/Matching/Minutia/MinutiaMatcher.cs:107-112 | matched neighbour pairs name minutiae of the two templates only |
| MinutiaMatcher.EnqueuedInRange | SourceAFIS/Matching/Minutia/MinutiaMatcher.cs:113-114 | enqueuing keeps the queue inside both templates |
| MinutiaMatcher.CollectKeepsBounds | SourceAFIS/Matching/Minutia/MinutiaMatcher.cs:105-118 | collection keeps the queue inside both templates and drops no support counter |

## Left out

- Floating point. `float` and `double` are reals. Rounding in `MatchScoring.Compute` is not modelled. The `double` overloads of `Angle` (vectors, `Atan`, `ToByte(double)`, `ByBucketCenter`) are not part of this model.
- Angle.ToPolar: the polar table is built with square roots and arc tangents. Here it is any 256x256 table (`IsPolarCache`). Its lazy static initialisation is not modelled. `Calc.HighestBit` is the recursive `CacheShift` on the larger coordinate, and `Calc` is not part of this model.
- Angle.FromDegreesB: the nearest-byte bound is stated for whole degrees in [0, 360) only. Outside that range the result is still the byte cast of the truncated quotient, but the contract says no more than that it is a byte.
- Angle.Quantize: the bucket bounds are stated for a non-negative resolution only. A negative resolution gives a truncated negative bucket that the contract does not describe.
- 32-bit overflow. Every `int` is unbounded. Products such as `angle * resolution` in `Quantize` and `degrees * 256` in `FromDegreesB`, and the edge-length and distance arithmetic, are assumed not to overflow.
- LocalHistogram.Analyze: requires every block area to be at most 32767 pixels, so that the C# `short` bin cannot wrap. The source has no such check.
- LocalHistogram.SmoothAroundCorners: the `short` sums in this method and in `Smooth` are unbounded integers. The 16-bit wrap of a very large sum is not modelled.
- `Threader.Split` / `SplitY`. Parallelism is a sequential loop. This is sound because iterations write disjoint cells, or only set bits.
- `Logger.Log`. Logging is left out.
- `BinaryMap` is a `bool` array indexed `[y, x]`.
- ThresholdBinarizer.Binarize: requires nothing of the mask. The output is a fresh array, so it cannot alias the mask.
- `BlockMap` is a datatype holding the block and corner grids and their pixel areas. Its construction is not part of this model.
- Inputs on which the C# code throws are excluded by a precondition rather than modelled as an error. This applies to the members below.
- Geometry.RectangleC.ItemAt: requires a non-zero width. In C# a zero width throws `DivideByZeroException`.
- Edges.EdgeTable.Reset: requires `MaxNeighbors >= 0`. In C# a negative value makes `List.RemoveRange` throw.
- MinutiaPairing.MinutiaPairing.LastAdded: requires a selected probe and at least one pair. In C# these cases throw `NullReferenceException` or `IndexOutOfRangeException`.
- MinutiaPairing.MinutiaPairing.GetPair: requires a selected probe and an index inside the list. In C# these cases throw `NullReferenceException` or `IndexOutOfRangeException`.
- MinutiaPairing.MinutiaPairing.Clone: requires both sides to be selected. In C# a missing side throws `NullReferenceException`.
- MinutiaPairing.MinutiaPairing.Add: requires both sides to be selected, room in the list and the pair's minutiae inside both maps. In C# these cases throw `NullReferenceException` or `IndexOutOfRangeException`.
- Edges.EdgeTable.Reset: `List.Sort` is unstable, and its tie order is not modelled. The row is stated up to ties: any sorted choice of shortest edges. `EdgeConstructor.Construct` is the parameter `construct`.
- MinutiaMatcher.MinutiaMatcher.CreateIndex: the fresh table uses the default parameters (226, 9). `ParameterSet.ClonePrototype` of a tuned prototype is not part of this model.
- `PairSelector` is the sorted sequence `Queue`. Entries with equal keys are inserted before later ones of the same key. The C# priority queue's tie order is not modelled.
- Support counters.
  - The matcher calls `Pairing.AddSupportByProbe`, which the `MinutiaPairing` source does not define.
  - The counters are the matcher's sequence `Support`, one per probe minutia, set to zero whenever a root is tried.
- `MatchAnalysis.Analyze` is the parameter `analyze`. `MatchScoring.Compute` sees only the statistics it returns.
- The root selector (`ExhaustiveRootSelector`) is the sequence parameter `roots`.
- `EdgeLookup.FindMatchingPairs` is the parameter `lookup`. It is only assumed to name positions inside the two rows.
- MinutiaMatcher.MinutiaMatcher.Match: does not return `bestRootIndex`, which the source only logs. `BestOf(scores).RootIndex` is that value, and `BestOfIsFirstMaximum` describes it.
