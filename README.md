# Camera coverage checks of six-crickets, modelled in Dafny

The repository answers one question in two ways. Can a set of hardware cameras
serve a piece of software? Each camera senses a range of subject distances and a
range of light levels, so it covers a rectangle in (distance, light) space. The
software requires one such rectangle, the target.

* **Exact subtraction solver** (`src/app/phase2/feature/problem2.component.ts`,
  module `Subtraction`). The list of uncovered fragments starts as the target.
  Each camera is cut out of every fragment in turn, and each cut leaves at most
  four strips: left, right, bottom and top. The cameras cover the target when no
  fragment is left. The check exits early once that happens, and no cameras
  means no coverage.
* **Gap-diagnostic solver** (`test.ts`, modules `GapAlgebra` and
  `GapDiagnostics`).
  * The cameras' distance ranges are sorted by lower bound and merged into
    disjoint ranges, and so are their light ranges.
  * A sweep over each merged list reports the gaps in the required range.
  * A grid of candidate cells reports every valid cell that meets no camera.
    The cell bounds are taken from the cameras in input order.
  * The check succeeds when all three lists are empty. Otherwise it returns
    them as diagnostics.

Coordinates are mathematical reals. Both files compare with `Number.EPSILON`.
Here it is the tolerance parameter `eps`, and `Geometry.NumberEpsilon` (2^-52)
is its concrete value. Some definitions are simple enough to state by their body
and have no row in the table:

* `Geometry.IsValidRange` is `min <= max`, with no tolerance, as in `isValidRange`
  (test.ts:25-27).
* `GapDiagnostics.Cell` gives the grid cell bounds (test.ts:142-162).
* `GapDiagnostics.Kept` is the reporting test (test.ts:165-188).
* `GapDiagnostics.Diagnosis` is the whole verdict (test.ts:94-207).

Each loop of the source is a method. The method is proved equal to a
specification function that follows the same steps, and the properties are
proved about that function as lemmas:

| method | specification function |
|---|---|
| `Subtraction.CanCamerasMeetRequirements` | `Remaining` |
| `GapAlgebra.MergeRanges` | `Merged` |
| `GapAlgebra.FindGaps` | `Gaps` |
| `GapDiagnostics.UncoveredAreas` | `UncoveredGrid` |

The geometric guarantees of the subtraction solver are proved with no
tolerance. With `eps = 0` the solver's comparison `isLessOrEqual` becomes a
strict `<`. So a target with zero width on either axis is never reported as
covered (`ImproperNeverCovered`). The exactness theorem therefore needs a target
with positive width on both axes (`IsProper`).

A positive tolerance does more than make the verdict more generous. A camera
that misses a fragment by less than eps still cuts it, and the pieces left then
reach past the fragment. So at `Number.EPSILON`, three cameras, one of them equal
to the target, are accepted in one order and rejected in another
(`Subtraction.ToleranceOrderMatters`).

Two configurations show the gap-diagnostic solver and the geometry disagreeing:

* `GapDiagnostics.HoleGoesUnreported`: two L-shaped cameras leave the corner
  point (1.5, 1.5) of the square [0, 2] x [0, 2] uncovered. Neither axis has a
  gap, and every valid grid cell meets a camera, so the check succeeds anyway.
  The exact solver rejects the same cameras.
* `GapDiagnostics.OuterGapRejectsCover`: one camera covers the required square
  by itself. A second camera far away on the distance axis makes the sweep
  report the stretch between the two as a distance gap. The sweep does not clip
  to the required range, so the check fails anyway. The exact solver accepts
  the same cameras.

## Model

| member | source | states |
|---|---|---|
| Subtraction.IsEqual | src/app/phase2/feature/problem2.component.ts:75-77 | two numbers are equal exactly when each is below the other plus the tolerance, a relation symmetric in its arguments |
| Subtraction.IsLessOrEqual | src/app/phase2/feature/problem2.component.ts:80-82 | `a <= b` up to tolerance holds exactly when `a < b + eps`; with no tolerance it is the strict `a < b` |
| Subtraction.IntersectRanges | src/app/phase2/feature/problem2.component.ts:85-89 | an intersection exists exactly when the larger lower bound is below the smaller upper bound plus eps; it is then exactly the range from the larger lower bound to the smaller upper bound, which is inverted for a tolerated near miss; with no tolerance it exists exactly when the open intervals overlap |
| Subtraction.IntersectRangesPoints | src/app/phase2/feature/problem2.component.ts:85-89 | a point is in the intersection exactly when it is in both ranges |
| Subtraction.IntersectRangesSymmetric | src/app/phase2/feature/problem2.component.ts:85-89 | swapping the arguments gives the same intersection |
| Subtraction.IntersectRectangles | src/app/phase2/feature/problem2.component.ts:92-107 | no intersection exactly when either axis has none; otherwise it is the pair of axis intersections; with no tolerance it exists exactly when the open rectangles overlap |
| Subtraction.IntersectRectanglesPoints | src/app/phase2/feature/problem2.component.ts:92-107 | a point is in the intersection exactly when it is in both rectangles |
| Subtraction.SubtractRectangles | src/app/phase2/feature/problem2.component.ts:110-170 | at most four pieces; `[base]` unchanged when nothing intersects; otherwise each piece is a left or right strip spanning base's light range, or a bottom or top strip spanning the intersection's distance range |
| Subtraction.SubtractionCoversBase | src/app/phase2/feature/problem2.component.ts:117-169 | with no tolerance, every point of base lies in the intersection or in some piece |
| Subtraction.SubtractionInsideBase | src/app/phase2/feature/problem2.component.ts:117-169 | with no tolerance, every point of a piece is a point of base |
| Subtraction.SubtractionRebuildsBase | src/app/phase2/feature/problem2.component.ts:114-169 | with no tolerance, the pieces plus the intersection are exactly the points of base |
| Subtraction.StripInsideBase | src/app/phase2/feature/problem2.component.ts:117-169 | with no tolerance, a strip lies inside base, has positive width, and does not overlap the intersection's interior |
| Subtraction.SubtractionPiecesInside | src/app/phase2/feature/problem2.component.ts:117-169 | with no tolerance and a proper base, every piece is a proper rectangle inside base that does not overlap the cut's interior |
| Subtraction.SubtractionPiecesApart | src/app/phase2/feature/problem2.component.ts:117-169 | with no tolerance, the interiors of any two pieces are disjoint |
| Subtraction.SubtractContainedIsEmpty | src/app/phase2/feature/problem2.component.ts:114-169 | subtracting a rectangle that contains base leaves nothing |
| Subtraction.SubtractFromAll | src/app/phase2/feature/problem2.component.ts:191-199 | computes the pieces of each area minus one camera, concatenated in area order |
| Subtraction.SubtractFromAllSound | src/app/phase2/feature/problem2.component.ts:191-199 | every new fragment is a piece of one of the old fragments |
| Subtraction.SubtractFromAllComplete | src/app/phase2/feature/problem2.component.ts:191-199 | every piece of every old fragment is among the new fragments |
| Subtraction.RemainingStaysEmpty | src/app/phase2/feature/problem2.component.ts:203-206 | once no fragment is left, later cameras leave none, so the early exit gives the same answer as running to the end |
| Subtraction.StripKeepsInvariant | src/app/phase2/feature/problem2.component.ts:191-201 | a piece of a fragment is again a fragment: it lies inside the target, is proper, and misses the interiors of all cameras processed so far |
| Subtraction.RemainingFragments | src/app/phase2/feature/problem2.component.ts:182-207 | loop invariant: every fragment lies inside the target, is proper, and misses the interior of every processed camera |
| Subtraction.RemainingComplete | src/app/phase2/feature/problem2.component.ts:182-207 | loop invariant: every target point outside all processed cameras lies in some fragment |
| Subtraction.EmptyRemainingCovers | src/app/phase2/feature/problem2.component.ts:182-209 | with no tolerance, an empty fragment list means the cameras cover the target |
| Subtraction.NonEmptyRemainingUncovered | src/app/phase2/feature/problem2.component.ts:182-209 | with no tolerance and a proper target, a fragment left over means some target point is covered by no camera |
| Subtraction.RemainingEmptyIffCovered | src/app/phase2/feature/problem2.component.ts:182-209 | with no tolerance and a proper target, no fragment left holds exactly when the cameras cover the target |
| Subtraction.CanCamerasMeetRequirements | src/app/phase2/feature/problem2.component.ts:173-210 | true exactly when there are cameras and no fragment is left; with no tolerance, true means the cameras cover the target, and for a proper target true holds exactly when they cover it |
| Subtraction.SubtractFromEach | src/app/phase2/feature/problem2.component.ts:191-199 | the inner loop returns the pieces of each fragment minus the camera, in fragment order |
| Subtraction.ContainingCameraCovers | src/app/phase2/feature/problem2.component.ts:177-209 | with no tolerance, any camera containing a proper target makes the verdict true |
| Subtraction.SelfCover | src/app/phase2/feature/problem2.component.ts:177-209 | a camera equal to a valid target covers it whenever the tolerance is positive or the target is proper |
| Subtraction.SourceToleranceSelfCover | src/app/phase2/feature/problem2.component.ts:173-210 | with Number.EPSILON as tolerance, a camera equal to the target covers it |
| Subtraction.OrderIndependent | src/app/phase2/feature/problem2.component.ts:185-209 | with no tolerance, for every target, reordering the cameras does not change the verdict |
| Subtraction.Monotone | src/app/phase2/feature/problem2.component.ts:185-209 | with no tolerance, for every target, adding cameras never turns a true verdict false |
| Subtraction.ImproperStaysWhole | src/app/phase2/feature/problem2.component.ts:182-209 | with no tolerance, a target of zero width on an axis meets no camera and stays the single fragment |
| Subtraction.ImproperNeverCovered | src/app/phase2/feature/problem2.component.ts:177-209 | with no tolerance, a target of zero width on an axis is never reported as covered |
| Subtraction.NearMissLeaks | src/app/phase2/feature/problem2.component.ts:85-131 | with a positive tolerance, a camera starting beyond base's right edge by less than eps leaves one left strip that reaches past base |
| Subtraction.NearMissWidensFragment | src/app/phase2/feature/problem2.component.ts:185-201 | proof step: when one fragment is left, such a near miss widens it past its right edge |
| Subtraction.NearMissesWiden | src/app/phase2/feature/problem2.component.ts:185-201 | two near misses in turn widen the target's single fragment past the target |
| Subtraction.WidenedFragmentSurvives | src/app/phase2/feature/problem2.component.ts:110-169 | a fragment widened past the target, minus the target, keeps the part beyond the target's edge |
| Subtraction.NearMissesFirstLeave | src/app/phase2/feature/problem2.component.ts:182-209 | after two near misses, the target itself as third camera leaves a fragment |
| Subtraction.TargetFirstCovers | src/app/phase2/feature/problem2.component.ts:185-206 | with a positive tolerance, the target as first camera covers it whatever cameras follow |
| Subtraction.ToleranceOrderMatters | src/app/phase2/feature/problem2.component.ts:173-210 | for every tolerance between 0 and 20 (exclusive), the same three cameras, one equal to the target, are accepted in one order and rejected in another |
| Subtraction.SourceToleranceOrderMatters | src/app/phase2/feature/problem2.component.ts:173-210 | at Number.EPSILON, the verdict depends on the cameras' order |
| Subtraction.RemainingSnoc | src/app/phase2/feature/problem2.component.ts:185-201 | proof step: one more camera cuts every fragment left by the earlier ones |
| Subtraction.SubtractFromSingle | src/app/phase2/feature/problem2.component.ts:193-199 | proof step: the inner loop over a single fragment gives that fragment's pieces |
| GapAlgebra.IntersectRanges | test.ts:30-34 | an intersection, when it exists, is a valid range inside both inputs |
| GapAlgebra.IntersectRangesPoints | test.ts:30-34 | a point is in both ranges exactly when the intersection exists and holds it |
| GapAlgebra.IntersectRangesNonEmpty | test.ts:30-34 | the intersection exists exactly when the two ranges share a point |
| GapAlgebra.IntersectRangesSymmetric | test.ts:30-34 | swapping the arguments gives the same intersection |
| GapAlgebra.IntersectCoverage | test.ts:37-46 | no intersection exactly when either axis has none; a result is a valid rectangle inside both inputs |
| GapAlgebra.IntersectCoveragePoints | test.ts:37-46 | a point is in both rectangles exactly when the intersection exists and holds it |
| GapAlgebra.IntersectCoverageNonEmpty | test.ts:37-46 | the intersection exists exactly when the two rectangles share a point |
| GapAlgebra.InsertByMin | test.ts:53 | computes the list with `x` placed after every range whose lower bound is not above its own, so ties keep their order |
| GapAlgebra.SortByMin | test.ts:53 | computes the stable sort by lower bound, one insertion at a time |
| GapAlgebra.InsertByMinPermutes | test.ts:53 | inserting adds exactly the new range |
| GapAlgebra.InsertByMinSorted | test.ts:53 | inserting into a list sorted by lower bound keeps it sorted |
| GapAlgebra.SortByMinPermutes | test.ts:53 | the sort returns a permutation of its input |
| GapAlgebra.SortByMinSorted | test.ts:53 | the sort returns a list sorted by lower bound |
| GapAlgebra.SortByMinSpec | test.ts:53 | the sort returns a permutation of its input sorted by lower bound |
| GapAlgebra.MergeStep | test.ts:58-65 | computes one loop iteration: widen the last merged range when the current range starts within eps of its end, else append the current range |
| GapAlgebra.Coalesce | test.ts:54-66 | the merge loop returns between one range and as many ranges as it was given |
| GapAlgebra.CoalescePrefixStep | test.ts:56-66 | proof step: one more loop iteration is one more merge step |
| GapAlgebra.CoalesceMinsBelow | test.ts:56-66 | over sorted input, no merged range starts after the last input range |
| GapAlgebra.CoalesceSorted | test.ts:56-66 | over sorted input, the merged ranges are sorted by lower bound |
| GapAlgebra.CoalesceSeparated | test.ts:56-66 | each merged range starts more than eps after the previous one ends |
| GapAlgebra.CoalesceContains | test.ts:56-66 | every input range lies inside some merged range |
| GapAlgebra.CoalesceWithinSlack | test.ts:56-66 | every point of a merged range lies in an input range or at most eps below one |
| GapAlgebra.CoalesceKeepsFar | test.ts:56-66 | a point farther than eps from all inputs is farther than eps from all merged ranges |
| GapAlgebra.CoalesceValid | test.ts:56-66 | merging valid ranges gives valid ranges |
| GapAlgebra.MergedOrdered | test.ts:49-69 | empty input exactly when empty output; the output is no longer than the input, sorted by lower bound, and each lower bound exceeds the previous upper bound plus eps |
| GapAlgebra.MergedContainsInputs | test.ts:49-69 | no coverage is lost: every input range lies inside some merged range |
| GapAlgebra.MergedWithinSlack | test.ts:49-69 | nothing is invented: every merged point lies in an input range or at most eps below one |
| GapAlgebra.MergedValid | test.ts:49-69 | merging valid ranges gives valid ranges |
| GapAlgebra.FarFromMerged | test.ts:49-69 | a point farther than eps from all inputs is farther than eps from all merged ranges |
| GapAlgebra.MergeRanges | test.ts:49-69 | the loop computes the merge of the ranges sorted by lower bound (the lemmas above give its properties) |
| GapAlgebra.Position | test.ts:75-82 | computes the sweep position: the upper bound of the last range visited, or the start |
| GapAlgebra.GapsBefore | test.ts:77-83 | computes the gaps recorded inside the sweep: one before each range that starts more than eps after the position |
| GapAlgebra.GapsWide | test.ts:72-91 | every gap is wider than eps, so its lower bound is below its upper bound |
| GapAlgebra.GapsBeforeWide | test.ts:77-83 | every gap found inside the sweep is wider than eps |
| GapAlgebra.GapsBeforeFindFarPoints | test.ts:75-83 | a point at or after the start and far from every range lies in a recorded gap or after the final sweep position |
| GapAlgebra.GapsFindFarPoints | test.ts:72-91 | with some coverage, every required point far from all merged ranges lies in a gap |
| GapAlgebra.GapsBeforeOfChain | test.ts:77-83 | over separated valid ranges, the inner gaps ascend and their interiors meet no range |
| GapAlgebra.GapsOfChain | test.ts:72-91 | over separated valid ranges, all gaps ascend and their interiors meet no range |
| GapAlgebra.GapsMissCovered | test.ts:72-91 | for valid covered ranges, the gaps ascend and their interiors meet no covered range |
| GapAlgebra.GapsHoldFarPoints | test.ts:72-91 | with some coverage, every required point farther than eps from all covered ranges lies in a gap |
| GapAlgebra.GapsFacts | test.ts:72-91 | the gap properties above, gathered for the sweep |
| GapAlgebra.FindGaps | test.ts:72-91 | the sweep over the merged ranges: every gap is wider than eps; with no coverage, the whole required range when it is wider than eps and nothing otherwise; for valid covered ranges, the gaps ascend and avoid the covered ranges; every required point far from all coverage lies in a gap |
| GapDiagnostics.DistanceRanges | test.ts:122 | the cameras' distance ranges, in camera order |
| GapDiagnostics.LightRanges | test.ts:123 | the cameras' light ranges, in camera order |
| GapDiagnostics.Coverages | test.ts:175-178 | the cameras' coverage rectangles, in camera order |
| GapDiagnostics.MeetsSomeCamera | test.ts:172-184 | computes the camera search: some camera in order has an intersection with the area |
| GapDiagnostics.MeetsSomeCameraIff | test.ts:174-184 | the camera search succeeds exactly when the area intersects some camera's coverage |
| GapDiagnostics.IsAreaCovered | test.ts:172-184 | the loop that stops at the first intersecting camera computes that search |
| GapDiagnostics.UncoveredRow | test.ts:141-189 | computes the cells of one row, columns 0 .. j - 1, that pass the test, in column order |
| GapDiagnostics.UncoveredRowSound | test.ts:141-189 | each area reported in a row is a cell of that row that passes the test |
| GapDiagnostics.UncoveredRowComplete | test.ts:141-189 | each cell of a row that passes the test is reported |
| GapDiagnostics.UncoveredRowSize | test.ts:141-189 | a row reports at most one area per column |
| GapDiagnostics.UncoveredGridSound | test.ts:140-190 | each reported area is a grid cell that passes the test |
| GapDiagnostics.UncoveredGridComplete | test.ts:140-190 | each grid cell that passes the test is reported |
| GapDiagnostics.UncoveredGridSize | test.ts:140-190 | the first i rows report at most i * (n + 1) areas |
| GapDiagnostics.NothingKeptIffNothingReported | test.ts:140-195 | the grid reports nothing exactly when no cell passes the test |
| GapDiagnostics.KeptMissesCameras | test.ts:165-188 | a reported cell shares no point with any camera's coverage |
| GapDiagnostics.MeetingCellNotKept | test.ts:165-188 | a cell that intersects some camera is not reported |
| GapDiagnostics.ReportedAreasUncovered | test.ts:140-190 | every reported area is a valid grid cell that shares no point with any camera |
| GapDiagnostics.ReportedAreasComplete | test.ts:140-190 | every valid cell that meets no camera is reported, and at most (n + 1)^2 areas are reported |
| GapDiagnostics.UncoveredInRow | test.ts:141-189 | the column loop of row i reports that row's kept cells in column order |
| GapDiagnostics.UncoveredAreas | test.ts:140-190 | the row loop reports the kept cells of the whole grid in row order |
| GapDiagnostics.CanCamerasMeetRequirements | test.ts:94-207 | the result is the verdict built from the two gap sweeps and the grid; gaps are absent exactly on success; no cameras means failure |
| GapDiagnostics.SuccessNearlyCoversAxes | test.ts:126-195 | on success there are cameras, and every required distance and light level is within eps of some camera's range |
| GapDiagnostics.SuccessMeetsEveryCell | test.ts:140-195 | on success, every valid grid cell intersects some camera |
| GapDiagnostics.MergedPair | test.ts:53-66 | proof step: two ranges already in order merge in a single step |
| GapDiagnostics.GapsSingle | test.ts:72-91 | proof step: the gaps around a single merged range |
| GapDiagnostics.GapsBeforePair | test.ts:77-83 | proof step: the gap the sweep records before the second of two ranges |
| GapDiagnostics.HoleAxesHaveNoGaps | test.ts:126-133 | for the L-shaped cameras, neither axis has a gap |
| GapDiagnostics.HoleGridReportsNothing | test.ts:140-190 | for the L-shaped cameras, no grid cell is reported |
| GapDiagnostics.HoleLeftOpen | src/app/phase2/feature/problem2.component.ts:173-210 | the L-shaped cameras leave a point of the square uncovered, and the exact solver says false |
| GapDiagnostics.HoleGoesUnreported | test.ts:94-207 | the check succeeds for cameras that leave a point of the target uncovered |
| GapDiagnostics.OuterGapRejectsCover | test.ts:72-91 | the check fails with the distance gap [1, 5] outside the required range, although the cameras cover the target and the exact solver says true |

## Left out

- IEEE-754 rounding: numbers are reals and `Number.EPSILON` is an exact constant.
- Subtraction.SubtractionCoversBase and the other point-set lemmas of module `Subtraction` hold with no tolerance only. With a positive tolerance the pieces are not confined to base. A camera that misses base by less than eps still counts as intersecting it, and the intersection's bounds are then inverted. The left or right strip then runs past base's edge (`NearMissLeaks`), so fragments grow past the target. Two of the eps = 0 theorems fail at the source's own tolerance:
  - a camera that contains the target does not guarantee a true verdict;
  - the verdict depends on the cameras' order (`ToleranceOrderMatters`, `SourceToleranceOrderMatters`).
  Strips narrower than eps are also dropped, so thin slivers of the target can go unreported.
- GapAlgebra.MergeRanges uses value semantics. In the source, the sorted array is a shallow copy, so widening `last.max` writes into the caller's range objects. Those objects are the cameras' own ranges, so the merge can change the camera ranges that the grid pass reads afterwards. The model does not capture this aliasing. Its grid uses the ranges as the caller passed them.
- GapDiagnostics.UncoveredInRow reads the camera ranges from the camera list. The source reads them from the mapped arrays; `DistanceRanges` and `LightRanges` show that the two agree.
- The nested loops of both checks are split into one method per loop: `SubtractFromEach`, `IsAreaCovered`, `UncoveredInRow` and `UncoveredAreas`. The `break` of the camera search is a loop exit.
- The camera `id` is carried in `HardwareCamera` but nothing reads it, as in the source.
- `Array.prototype.sort` is modelled by a stable insertion sort on the lower bound, which is the order a stable sort with comparator `a.min - b.min` produces.
- The `@Component` decorator, the template and the sample camera fixtures of problem2.component.ts: user-interface code and data.
- `demonstrateUsage` and its `console.log` in test.ts: demonstration output.
- src/app/phase2/feature/problem1.component.ts (an HTTP fetch and a countdown timer), src/app/phase2/ui/count-down.component.ts, src/app/app.component.ts and src/app/app.routes.ts: I/O, timing and presentation. None of them is part of this model.
