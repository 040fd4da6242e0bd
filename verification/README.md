# autodelin floodplain delineation, modelled in Dafny

autodelin draws floodplain boundaries. It works from three inputs:

- a river's base flood elevation lines (BFEs);
- hydraulic cross sections with left and right extents;
- elevation contours.

BFEs and cross sections are merged into one list ordered by station and put in rising-elevation order. Each side (left, right) of the river is walked marker by marker. For every pair of consecutive markers:

- the floor contour of the earlier marker and the ceiling contour of the later one are fetched;
- both are clipped to the stretch between the pair;
- both are oriented from the earlier pair's points;
- a boundary line is interpolated between the two contours.

The interpolation runs a set of crossing lines, joining one contour's vertices to the other contour. It filters out crossing lines that cut either contour or one another, and sorts what is left. Positions are spread along the lines in proportion to distance, refined three times, and one point is taken on each crossing line.

The project models:

- the contour store with its age-based cache (`autodelin/interface.py`);
- the list trimming and merging;
- the per-side walk of `delineate` and its helpers (`autodelin/logic.py`);
- the polyline combinatorics of `autodelin/geo_tools.py`: clipping, the crossing-line filter, nearest intersections, point equality, the interpolation;
- the older single-file copy of the walk (`autodelin.py`).

Shapely's geometry is a parameter `Geo`: distances, projections, interpolation, intersections, crossing tests and lengths are uninterpreted functions. Results that hold only for a sensible geometry assume one of two things, and say so in their contracts:

- distances are non-negative (`NonNegativeDistances`);
- crossing is symmetric (`SymmetricCrossing`).

Exceptions are values of `Errors.Exc` inside `Errors.Result`. `Traversal` runs both copies of the walk through one definition parameterised by a `Flavour`:

- how contours are fetched;
- how a contour is clipped;
- whether boundaries get a status tag;
- what a BFE passed to `_calc_extent_position` raises;
- whether the walk takes the corrected route when a pair's reset would read a local that was never assigned.

Facts about the code that the model keeps:

- A cross-section extent position is -2 when a contour misses the cross section, -1 when the extent lies outside the two contour points, and otherwise a ratio between 0 and 1. There is no other sentinel value.
- The closest contour part is the first part at minimal distance. There is no fallback to the closest point.
- A contour with more than one part is not split further. It is rejected with ComplexContourError when the two clip points fall on different parts.
- `nearest_intersection` tests `type(...) is None`, which is never true. An empty intersection therefore raises UnknownIntersection from the "unknown return type" branch, and the model gives that exception for it.

## Model

| member | source | states |
|---|---|---|
| Geometry.Round5 | autodelin/geo_tools.py:341-342 | rounding to 5 decimals gives an integer within half a unit of the scaled value, ties away from zero |
| Geometry.PointSameAs | autodelin/geo_tools.py:336-349 | equal points are the same, and points that are the same differ by at most one unit of the fifth decimal in each coordinate |
| Geometry.PolylineSameAs | autodelin/geo_tools.py:97-105 | a line is the same as any line that extends it or that it extends, and lines that are the same start at the same point |
| Geometry.PointSameAsEquivalence | autodelin/geo_tools.py:336-349 | point equality after rounding is reflexive, symmetric and transitive |
| Geometry.PointSameAsNear | autodelin/geo_tools.py:336-349 | a point within half a rounding unit of a grid point is the same as that grid point |
| Geometry.PolylineSameAsNotTransitive | autodelin/geo_tools.py:97-105 | polyline equality compares only the common prefix of vertices, so it is not transitive: a concrete counterexample |
| Geometry.SegmentSameAs | autodelin/geo_tools.py:97-105 | two two-point lines are the same exactly when both end points are the same |
| Geometry.Reverse | autodelin/geo_tools.py:295-297 | reversal keeps the length and puts vertex i at position n-1-i |
| Geometry.Flip | autodelin/geo_tools.py:295-297 | flipping a line reverses its vertices and swaps its first and last points |
| Geometry.FlipFlip | autodelin/geo_tools.py:295-297 | flipping twice gives the original line back |
| Geometry.NumIntersects | autodelin/geo_tools.py:158-173 | 0 for no intersection, 1 for a single point, the number of points for a multipoint |
| Geometry.NearestIntersection | autodelin/geo_tools.py:132-156 | a single point is returned as is; no point raises UnknownIntersection; an empty list raises IndexError; otherwise the first point with the least distance along the line from the test point |
| Geometry.MakeLine | autodelin/geo_tools.py:28-77 | no vertices raise IndexError, one vertex raises ValueError, two or more make a line with exactly those vertices |
| StableSort.SortBy | autodelin/geo_tools.py:668-669 | Python's list sort by key gives a sorted permutation of its input |
| StableSort.SortByStable | autodelin/geo_tools.py:668-669 | the sort is stable: items with equal keys keep their input order |
| StableSort.SortByUnique | autodelin/geo_tools.py:668-669 | a stable sorted arrangement is unique: any sorted sequence keeping equal-key order equals the sort |
| StableSort.SortBySorted | autodelin/geo_tools.py:668-669 | sorting an already sorted list leaves it unchanged |
| StableSort.SortedHeadIsFirstMin | autodelin/geo_tools.py:154-156 | the head of the sorted list is the first item of least key in the input |
| StableSort.SortedLastIsLatestMax | autodelin/geo_tools.py:432-460 | the last item of the sorted list is the latest item of greatest key in the input |
| StableSort.SortedLastIsMax | autodelin/geo_tools.py:432-460 | no item of the input has a greater key than the last item of the sorted list |
| StableSort.SortTwiceLexicographic | autodelin/geo_tools.py:668-669 | sorting by one key and then by another orders by the second key, ties broken by the first |
| StableSort.ArgMin | autodelin/geo_tools.py:152-156 | the index of the first least value |
| StableSort.Filter | autodelin/geo_tools.py:686-690 | keeps exactly the items that satisfy the predicate, drawn from the input |
| StableSort.FilterSorted | autodelin/geo_tools.py:665-669 | filtering a sorted list keeps it sorted |
| StableSort.StableSortKeepsSortedSubsequence | autodelin/geo_tools.py:665-669 | a subsequence already in key order stays in that order after a stable sort |
| Clip.Tags | autodelin/geo_tools.py:225-242 | the vertices untagged in order, stationed at 0 for the first and then by the distance from the previous vertex, then the two clip points tagged with their projected stations |
| Clip.Stations | autodelin/geo_tools.py:232-241 | vertex stations start at 0 and add the distance from the previous vertex |
| Clip.StationsAscend | autodelin/geo_tools.py:232-241 | with non-negative distances, vertex stations never decrease |
| Clip.Step | autodelin/geo_tools.py:254-268 | one step of the state machine puts the point at the end of exactly one run and keeps the runs' shape: no clip point before the middle run, which opens with one and closes with the next |
| Clip.IsLoop | autodelin/geo_tools.py:218-222 | a line whose last vertex equals its first is a loop, and a loop's ends differ by at most one unit of the fifth decimal |
| Clip.Inside | autodelin/geo_tools.py:249-268 | the inside part runs from one clip point to the other with only the line's own vertices in between |
| Clip.Outside | autodelin/geo_tools.py:270-271 | the outside part holds only the line's own vertices, never a clip point |
| Clip.Partition | autodelin/geo_tools.py:250-268 | the state machine splits the sorted tags into before, between and after the clip points, losing and adding nothing |
| Clip.SortedTagsPartition | autodelin/geo_tools.py:244-268 | after sorting, the between part starts and ends at the two clip points and holds only vertices in the middle |
| Clip.TagsCountFlagged | autodelin/geo_tools.py:225-229 | exactly two tags are clip points |
| Clip.SortedTagsCountFlagged | autodelin/geo_tools.py:244 | sorting keeps exactly two clip-point tags |
| Clip.ClipLine | autodelin/geo_tools.py:204-293 | an open line clips to the inside part; a closed loop clips to the shorter of inside and outside, or fails as building the outside line fails |
| Clip.ClipKeepsVertexOrder | autodelin/geo_tools.py:225-244 | with non-negative distances, the sort keeps the line's own vertices in their original order |
| CrossingFilter.Init | autodelin/geo_tools.py:395-411 | every line starts alive, with its crossing neighbours listed in index order and its crossing count equal to their number |
| CrossingFilter.NbrsMembers | autodelin/geo_tools.py:395-411 | a line's neighbour list holds exactly the other alive lines it crosses |
| CrossingFilter.Round | autodelin/geo_tools.py:432-460 | one removal round drops the last line of the stable sort by crossing count and keeps the state well formed |
| CrossingFilter.RoundRemovesLatestMax | autodelin/geo_tools.py:432-460 | the removed line is the latest one with the greatest crossing count |
| CrossingFilter.Unlink | autodelin/geo_tools.py:445-460 | unlinking the removed line fails only with AssertionFailed or ShouldNeverGetHere, and changes no alive set |
| CrossingFilter.UnlinkCorrect | autodelin/geo_tools.py:445-460 | on a consistent state, unlinking succeeds and leaves every alive line's count and neighbour list up to date |
| CrossingFilter.RoundCorrect | autodelin/geo_tools.py:432-460 | with symmetric crossing, a round on a state with a crossing succeeds, keeps the invariant, and strictly shrinks the alive set without emptying it |
| CrossingFilter.FilterLoop | autodelin/geo_tools.py:383-393 | when the loop ends, no alive line has a crossing left |
| CrossingFilter.FilterLoopCorrect | autodelin/geo_tools.py:383-393 | with symmetric crossing, the loop always ends without error, with a non-empty alive set inside the starting one in which no two lines cross |
| CrossingFilter.Filter | autodelin/geo_tools.py:383-393 | the result names at least one line, and only lines of the input |
| CrossingFilter.FilterCorrect | autodelin/geo_tools.py:383-411 | no lines raise AssertionFailed; otherwise the filter succeeds with distinct indices of pairwise non-crossing lines |
| CrossingFilter.FilterLines | autodelin/geo_tools.py:383-393 | the kept lines are the input lines at the kept indices, in that order |
| CrossingFilter.FilterLinesCorrect | autodelin/geo_tools.py:665-666 | the kept lines are a non-empty selection from the input in which no two different lines cross |
| CrossingFilter.NoCrossingsUnchanged | autodelin/geo_tools.py:383-393 | when no two lines cross, the filter keeps every line in its order |
| ContourCache.NewContour | autodelin/interface.py:90-103 | a contour is multipart exactly when it does not have exactly one line |
| ContourCache.Empty | autodelin/interface.py:29-34 | a new store has no contours and no trackers, with the given cache age |
| ContourCache.EmptyValid | autodelin/interface.py:29-34 | a new store is well formed and coherent |
| ContourCache.PartsToLines | autodelin/interface.py:63-66 | all parts convert exactly when each has two or more coordinates; the lines keep the parts' order and vertices |
| ContourCache.Parse | autodelin/interface.py:54-60 | a geometry that is not a line raises ShapefileError; a single line becomes a one-line list; a multiline keeps its parts |
| ContourCache.AgeCache | autodelin/interface.py:81-87 | trackers at age 0 are dropped and their contours revert to the raw feature; every other tracker ages by one and keeps its contour |
| ContourCache.AgeCacheValid | autodelin/interface.py:81-87 | aging keeps the store well formed and leaves every tracker younger than the cache age |
| ContourCache.Get | autodelin/interface.py:36-73 | a missing elevation raises KeyError with nothing changed; a cached contour is returned with nothing changed; a raw one is tracked at full age, parsed, converted and cached, or its parse error raised |
| ContourCache.GetValid | autodelin/interface.py:36-73 | a lookup keeps the store well formed |
| ContourCache.Add | autodelin/interface.py:75-76 | adding stores the raw feature at its elevation and changes nothing else |
| ContourCache.Length | autodelin/interface.py:78-79 | the length is the number of elevations held |
| ContourCache.AgeCacheTransparent | autodelin/interface.py:81-87 | aging changes no elevation's contour as seen by a lookup |
| ContourCache.GetTransparent | autodelin/interface.py:36-73 | on a coherent store, a lookup answers what the elevation's feature stands for and changes nothing any later lookup sees |
| ContourCache.AddCoherent | autodelin/interface.py:75-76 | adding an untracked elevation keeps the store coherent |
| ContourCache.AddWhileTrackedIsUndone | autodelin/interface.py:75-87 | a feature added over a tracked elevation at age 0 is overwritten with the old feature at the next miss |
| ContourCache.MaterializedBound | autodelin/interface.py:45-87 | a well-formed store never holds more than cache age plus one converted contours |
| ContourCache.MissEvicts | autodelin/interface.py:49-51 | a miss evicts every other tracked elevation at age 0, restoring its feature, and ages the rest by one |
| ContourCache.ShapefileErrorAfterAging | autodelin/interface.py:48-60 | a non-line feature raises ShapefileError only after the cache has been aged and the feature tracked |
| ContourCache.GetTwice | autodelin/interface.py:44-46 | a second lookup of an elevation just fetched is a cache hit that changes nothing |
| ContourCache.ZeroAgeEvictsAtNextMiss | autodelin/interface.py:81-87 | with cache age 0, fetching a second elevation evicts the first |
| ContourCache.TrackedEntryLifetime | autodelin/interface.py:45-87 | a contour tracked at age k survives k misses on other elevations unchanged, one age younger at each, and the next miss restores the raw feature |
| ContourCache.UntrackedStays | autodelin/interface.py:45-87 | misses on other elevations never touch an untracked elevation |
| ContourCache.LengthAdd | autodelin/interface.py:75-79 | adding a new elevation adds one to the length; re-adding one leaves it unchanged |
| ContourCache.LengthGet | autodelin/interface.py:36-79 | lookups never change the length |
| Markers.Merge | autodelin/interface.py:457-466 | the merged list is a permutation of both lists, sorted by station |
| Markers.MergeStable | autodelin/interface.py:457-466 | at each station, BFEs come before cross sections and each keeps its own order |
| Markers.MergeSorted | autodelin/interface.py:457-466 | lists already in station order are merged by concatenation |
| Markers.Orient | autodelin/logic.py:63-65 | an empty list raises IndexError; otherwise the list or its reverse, whichever runs from low to high elevation, and the list itself when it already does |
| Markers.OrientTwice | autodelin/logic.py:63-65 | orienting an oriented list changes nothing |
| Markers.Trim | autodelin/interface.py:202-227 | an empty list raises IndexError; otherwise the oriented list cut to the run from the start marker to the end marker |
| Markers.Scan | autodelin/interface.py:215-227 | the kept markers are at most the input; outside, the first kept one is named start or end; the last kept one is named end or is the input's last marker; once inside, a non-empty input keeps something |
| Markers.ScanOutside | autodelin/interface.py:215-227 | the loop keeps the first marker named start or end, then either nothing more or every marker up to and including the next start or end |
| Markers.ScanInside | autodelin/interface.py:217-225 | once inside, the loop keeps markers up to and including the first one named end |
| Markers.TrimSpecSkipsUnnamed | autodelin/interface.py:217-225 | leading markers named neither start nor end are dropped |
| Markers.TrimIsRun | autodelin/interface.py:202-227 | the trimmed list is one contiguous run of the oriented list |
| Markers.TrimNeither | autodelin/interface.py:202-227 | when no marker is named start or end, trimming gives the empty list |
| Markers.Find | autodelin/interface.py:217-225 | the index of the first marker satisfying the test, or the length |
| Logic.Floor | autodelin/logic.py:94 | the greatest integer not above the elevation |
| Logic.Ceil | autodelin/logic.py:95 | the least integer not below the elevation |
| Logic.ClosestSegmentByIndex | autodelin/logic.py:298-313 | no parts raise IndexError, an absent point AttributeError; otherwise the first part at least distance from the point |
| Logic.ClosestContourSegment | autodelin/logic.py:316-324 | IndexError exactly for a contour without parts, AttributeError exactly for an absent point; otherwise the first part at least distance from the point, the part `ClosestSegmentByIndex` picks |
| Logic.Simplify | autodelin/logic.py:336-344 | no intersection gives nothing, a single point itself, an empty list IndexError, and a list its first member nearest to the extent, the head of the stable sort by distance |
| Logic.Classify | autodelin/logic.py:353-367 | -2 when a contour misses the cross section; -1 when the extent lies outside the two contour points; ZeroDivisionError when both points and the extent coincide; otherwise the ratio of the low-point distance to the contour gap, with both points |
| Logic.ClassifyRange | autodelin/logic.py:353-367 | a position is -2 or -1 without points, or lies between 0 and 1 with both points |
| Logic.ClassifyZeroDivision | autodelin/logic.py:367 | division by zero happens exactly when both contour points and the extent coincide |
| Logic.ExtentPoints | autodelin/logic.py:349-352 | the ceiling contour is fetched before the floor contour, and an exception from the first fetch ends the work |
| Logic.CutPoints | autodelin/logic.py:349-354 | a floor contour without parts raises IndexError; the high point is the simplified intersection of the given high part with the cross section, and the low point that of the nearest floor part |
| Logic.ExtentPosition | autodelin/logic.py:327-367 | a BFE raises the copy's BFE exception with the store untouched; otherwise the contour points are classified |
| Logic.ExtentPositionRange | autodelin/logic.py:327-367 | every resolved position is -2, -1 or between 0 and 1 |
| Logic.CalcExtentPosition | autodelin/logic.py:327-367 | a BFE raises ValueError; a missing ceiling contour raises KeyError; success needs a cross section whose ceiling contour is present |
| Logic.SnapAndClip | autodelin/logic.py:290-295 | both points are moved onto the line and the line is clipped between them; an absent point raises AttributeError |
| Logic.ClipToBfe | autodelin/logic.py:271-295 | a single-part contour raises TypeError; a multipart one raises ComplexContourError exactly when the two points are nearest different parts, and otherwise clips the shared nearest part |
| Logic.ClipLineNeverComplex | autodelin/logic.py:290-295 | clipping one part never raises ComplexContourError |
| Logic.ClipLineNeverAttributeError | autodelin/geo_tools.py:204-293 | clipping a line between two present points never raises AttributeError |
| Logic.OrientContours | autodelin/logic.py:388-402 | the line or its flip, whichever begins nearer the point, and the line itself on a tie |
| Logic.OrientContoursTwice | autodelin/logic.py:388-402 | orienting twice from the same point changes nothing more |
| Logic.ContourCrossesBoundary | autodelin/logic.py:370-385 | true exactly when some part of either contour meets the boundary more than once |
| Interpolator.LowToHigh | autodelin/geo_tools.py:491-495 | one crossing line per low-contour vertex, running to the closest point of the high contour |
| Interpolator.HighToLow | autodelin/geo_tools.py:509-513 | one crossing line per high-contour vertex, running from the closest point of the low contour |
| Interpolator.RemoveIntersectingLines | autodelin/geo_tools.py:679-690 | keeps exactly the crossing lines that do not cross the contour, in order |
| Interpolator.SortLines | autodelin/geo_tools.py:648-676 | the filtered lines are sorted by station along the high contour, ties by station along the low contour; filter errors pass through |
| Interpolator.AddEndConnectors | autodelin/geo_tools.py:529-537 | an empty list raises IndexError; otherwise the end connectors are added where they are not already present, so the list starts and ends at the contour ends |
| Interpolator.ConnectorsBothAdded | autodelin/geo_tools.py:529-537 | when neither end line is already there, both connectors are added: first at the front, last at the back |
| Interpolator.Heights | autodelin/geo_tools.py:566-577 | a zero total distance raises ZeroDivisionError; otherwise heights scale linearly with distance and the ends are pinned to the last and current positions |
| Interpolator.HeightsMonotone | autodelin/geo_tools.py:566-577 | with distances rising within the total, heights run monotonically from the last position to the current one |
| Interpolator.Cumulative | autodelin/geo_tools.py:587-593 | the running sum of distances between consecutive test points, starting at 0 |
| Interpolator.CumulativeAscends | autodelin/geo_tools.py:587-593 | with non-negative distances, the running sums are non-negative and never decrease |
| Interpolator.TestPoints | autodelin/geo_tools.py:583-584 | each crossing line's test point is at its height, normalised along the line |
| Interpolator.Refine | autodelin/geo_tools.py:583-600 | one refinement: distances are recomputed from the test points, heights are renormalised, and a single line or a zero total raises ZeroDivisionError |
| Interpolator.RefinedHeightsMonotone | autodelin/geo_tools.py:583-600 | a successful refinement gives heights monotone from the last position to the current one |
| Interpolator.Refinements | autodelin/geo_tools.py:581-600 | repeated refinement fails only with ZeroDivisionError, and always fails for a single line |
| Interpolator.RefinementsMonotone | autodelin/geo_tools.py:581-600 | after the refinement rounds the heights are monotone between the two positions |
| Interpolator.KeptLines | autodelin/geo_tools.py:496-497 | when either set of crossing lines is emptied by the contour test, AssertionFailed is raised; otherwise the result is the two filtered sets sorted together |
| Interpolator.KeptLinesNonEmpty | autodelin/geo_tools.py:491-527 | when both sets keep a line, filtering and sorting succeed with at least one line |
| Interpolator.CrossingLines | autodelin/geo_tools.py:491-537 | the final crossing lines start and end at the contour ends |
| Interpolator.Distances | autodelin/geo_tools.py:553-559 | each line's distance is its start's projection onto the low contour |
| Interpolator.FinalAttrs | autodelin/geo_tools.py:553-600 | heights exist for all lines only when there are two or more lines; otherwise ZeroDivisionError |
| Interpolator.DrawLineBetweenContours | autodelin/geo_tools.py:463-614 | the boundary has one vertex per crossing line, at that line's final height; crossing-line errors pass through |
| Interpolator.DrawLineHeights | autodelin/geo_tools.py:576-614 | the boundary begins at the last position on the first line, ends at the current position on the last line, and heights are monotone in between |
| Interpolator.DrawLineErrors | autodelin/geo_tools.py:463-614 | with symmetric crossing, drawing fails only with AssertionFailed or ZeroDivisionError |
| Traversal.Draw | autodelin/logic.py:114-138 | a failing clip of the floor contour is caught; a boundary is drawn exactly when both clips succeed, both last points exist and interpolating between the clipped, oriented contours succeeds, and it is that interpolated line, tagged exactly when the copy tags and tagged Crosses exactly when a contour part meets it twice; an interpolation error is caught |
| Traversal.Try | autodelin/logic.py:93-149 | a failing floor or ceiling lookup is caught and leaves the locals as they were; with both lookups done, a BFE pair sets position 1 and the BFE's end as the high point, and a cross-section pair sets the locals from its extent position, which is caught when it raises, and is skipped exactly when the position is negative |
| Traversal.Step | autodelin/logic.py:96-110 | a BFE sets position 1 and its end as the high point without touching the store; a cross section resolves its extent, sets the locals from it and is skipped exactly when the position is negative |
| Traversal.BfeStep | autodelin/logic.py:97-103 | a BFE sets position 1 and its end as the high point before the low point is searched, and never touches the store |
| Traversal.XsStep | autodelin/logic.py:104-110 | a cross section sets all three locals from its extent position, is skipped exactly when that position is negative, otherwise draws between the contours from it, and on an error keeps the locals and catches the error |
| Traversal.Reset | autodelin/logic.py:152-166 | the reset hands on the current marker, the current position with 1 mapped to 0, the current high point, and as low point the current high point for a BFE and the current low point for a cross section; it raises UnboundLocalError exactly when a needed local is unassigned |
| Traversal.Pairs | autodelin/logic.py:91-166 | the walk draws at most one boundary per pair, tags as the copy does, and can abort only with UnboundLocalError |
| Traversal.FindAnchor | autodelin/logic.py:71-88 | the anchor is a BFE at position 0 with both points at its end, or a cross section at a non-negative position, preceded only by cross sections; at the end of the list a bare raise is raised, and, when lookups never raise one themselves, a bare raise means no BFE was left |
| Traversal.ExtentPositionNeverBare | autodelin/logic.py:327-367 | resolving an extent position raises a bare raise only when a contour lookup does |
| Traversal.CacheLookupsNeverBare | autodelin/interface.py:36-73 | the contour store's lookups never raise a bare raise |
| Legacy.ListLookupsNeverBare | autodelin.py:551-561 | the contour-list lookup never raises a bare raise |
| Traversal.DoSide | autodelin/logic.py:67-166 | one side draws fewer boundaries than there are markers; an empty list has no anchor |
| Traversal.Delineate | autodelin/logic.py:47-268 | an empty list raises IndexError; each side draws fewer boundaries than there are markers, all tagged as the copy does |
| Traversal.BfePairResets | autodelin/logic.py:97-103 | a BFE pair whose lookups succeed hands on its end as both last points at position 0, whether or not drawing succeeds |
| Traversal.XsPairResets | autodelin/logic.py:104-166 | a cross-section pair at a non-negative position hands on its own points and position, 1 becoming 0 |
| Traversal.NegativeExtentSkipped | autodelin/logic.py:107-110 | a cross section whose lookups succeed and whose extent position is negative is skipped: it draws nothing and never becomes the last marker |
| Traversal.FailedLookupLeavesLocals | autodelin/logic.py:93-95 | a failing floor or ceiling lookup leaves the current locals as they were and is caught |
| Traversal.FirstPairFailureAborts | autodelin/logic.py:93-166 | as written, a failing lookup on the very first pair ends the walk with UnboundLocalError |
| Traversal.RecoveringPairsSucceed | autodelin/logic.py:91-166 | the corrected walk never aborts |
| Traversal.RecoveringPairsAgree | autodelin/logic.py:91-166 | wherever the walk as written does not abort, the corrected walk gives exactly the same result |
| Traversal.RecoveringSideNeedsOnlyAnchor | autodelin/logic.py:67-166 | in the corrected walk a side succeeds exactly when its anchor search does |
| Traversal.IntendedFailsOnlyWithoutAnchor | autodelin/logic.py:47-268 | `delineate` with both corrections fails on a non-empty list only when the left or the right side finds no anchor |
| Traversal.DrawnOnlyForMultipart | autodelin/logic.py:114-115 | with the clip as written, a boundary is drawn only when both contours are multipart |
| Traversal.AnchorIsFirstUsable | autodelin/logic.py:71-88 | the anchor is the first marker that is a BFE or a cross section at a non-negative position; every earlier one is passed over; a list of passed-over markers raises a bare raise |
| Traversal.DelineateIgnoresCache | autodelin/interface.py:36-87 | the cache changes nothing that `delineate` draws or raises, compared with looking every elevation up in the store's contents |
| Traversal.DelineateAlike | autodelin/logic.py:47-268 | two stores holding the same contours, with the same clip, draw the same lines on both sides and succeed or fail together |
| Legacy.GetContour | autodelin.py:551-561 | the first contour of the list at the elevation; ContourNotFound exactly when there is none |
| Legacy.CalcExtentPosition | autodelin.py:620-660 | a BFE is a bare raise; a missing ceiling contour raises ContourNotFound; success needs both contours |
| Legacy.Delineate | autodelin.py:359-548 | an empty list raises IndexError; each side draws fewer lines than there are markers |
| Legacy.NoContoursNoBoundaries | autodelin.py:373-393 | with no contours, a list of cross sections ends the anchor search with ContourNotFound |
| Legacy.LegacyAgreesWithLogic | autodelin.py:359-548 | the two copies of `delineate` agree: given a contour list and a well-formed cache holding the same contours, both succeed or fail together and draw the same left and right lines |
| Logic.ClipToBfeSinglePartFails | autodelin/logic.py:286-288 | as written, every single-part contour raises TypeError when clipped |
| Logic.ClipToBfeFixed | autodelin/logic.py:271-295 | a multipart contour is clipped as before; a single-part contour has its only line snapped and clipped |
| Logic.ClipToBfeFixedSinglePart | autodelin/logic.py:286-295 | corrected, a single-part contour is clipped like its line, never raising TypeError, and an open line yields its inside part |

## Left out

- Reading shapefiles (fiona), building shapely geometry, plotting, writing results and `print` output are I/O. The geometry is the `Geo` parameter.
- Floating-point arithmetic is modelled as exact reals. Shapely's numerics (projection, interpolation, intersection) are uninterpreted.
- Station calculation for BFEs and cross sections is input preparation, outside the core. Markers carry their station.
- `_fix_zig_zags` is commented out at its call site (autodelin/geo_tools.py:545-547), so it never runs.
- `_distance_always_increases` is called only from a commented-out assert.
- `angle_line.py` and the scripts under `scratch/` and `test/` are not part of this model.
- `segment.py` holds a `Segment` record of the four arguments of `draw_line_between_contours`, for use with multiprocessing. Its `run` and `run_seg` only make that call, which is Interpolator.DrawLineBetweenContours, so the record is not modelled separately.
- A bare `raise` re-raises the exception being handled. In Python 2 that is the last exception caught in the frame, even after its handler has finished. In the walk that is usually a caught KeyError or the TypeError of a single-part clip, and TypeError when nothing has been handled. The model gives every bare `raise` one value, Errors.BareRaise, and does not track which exception it re-raises.
- Geometry.Snap: it has no contract of its own, because it only composes the uninterpreted projection and interpolation. Its uses are stated in Interpolator.LowToHigh, Interpolator.HighToLow and Logic.SnapAndClip.
- Legacy.Delineate: its own contract states only the empty-list error and the bounds. What it draws is stated by Legacy.LegacyAgreesWithLogic, which equates it with the walk of `logic.py`, and by the lemmas about Traversal.Delineate.
- Debug flags and their plotting branches are always off in the model.
- Contour elevations are integers. Python compares `math.floor`'s float with an int key, which the model treats as the same integer.
- Marker names are never None. A start or end of None is `Option.None`, which matches no marker.
- Legacy `_contour_crosses_boundary` (autodelin.py:663-678) is unused and tests `crosses`. The older copy draws no status tag, so it is not modelled.
- `_orient_contours` flips the line in place. The model returns the oriented line instead, and the caller uses it.
- Traversal.Delineate: its own contract states only bounds, the error for an empty list and the tagging. What the walk draws is stated by the lemmas about it (AnchorIsFirstUsable, XsPairResets, BfePairResets, DelineateIgnoresCache, DelineateAlike).
- Interpolator.FinalAttrs: its contract states only the length and the error case. The values are stated by Interpolator.DrawLineHeights and Interpolator.RefinementsMonotone.
- Interpolator.CrossingLines: its contract states the end framing and the assertion failure for the low contour. The count of crossing lines is not bounded.
- CrossingFilter.Filter: its contract states only membership and non-emptiness. Correctness (no two kept lines cross) needs symmetric crossing and is stated by CrossingFilter.FilterCorrect.

## Findings

| source | as written | input that shows it | evidently intended | confidence | as-written member | corrected member |
|---|---|---|---|---|---|---|
| autodelin/logic.py:288 | a single-part contour is indexed as `contour[0]`, but `Contour` is not subscriptable, so TypeError is raised (the older copy, autodelin.py:581, does the same) | any contour with exactly one line; every pair on such a contour is lost to the catch-all handler | `contour.line_list[0]` | high, not executed | Logic.ClipToBfeSinglePartFails | Logic.ClipToBfeFixedSinglePart |
| autodelin/logic.py:93-166 | when the first pair's `try` raises before assigning `current_high_pt`, the reset after it reads the unassigned local, and UnboundLocalError escapes `delineate` | a first pair whose floor-contour lookup raises KeyError | skip the pair and carry on, as the catch-all handler suggests | medium, not executed | Traversal.FirstPairFailureAborts | Traversal.RecoveringPairsSucceed |
