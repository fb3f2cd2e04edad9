# Verified model of the geometry library

The library answers questions about series of points in the plane: which segments meet a
rectangle, which segment is nearest, is a point in a ring, does a segment cross a ring. It
answers them fast by compressing a quadtree of segment numbers into one byte array. This
project models that index and the exact planar predicates behind the answers, and proves that
every fast path gives the answer of the plain loop over all segments.

The chain of results for the index:

1. `QNodes.QNode` is the pointer tree, updated in place. Each method is proved to do to the
   heap what a function of `QuadTree` does to a value.
2. `QuadTree` proves what every insertion sequence keeps, and that the result does not depend
   on the order of insertion once the items of each node are sorted.
3. `Varint` and `Codec` prove that the bytes written by compression decode to the same tree
   wherever they stand, that the size prefixes lead from quad to quad, and how long the bytes
   can get.
4. `Searching`, `NearestSegments` and `Queues` prove that the walks over the bytes make the
   calls of the linear scan, and find the segment the linear scan finds.
5. `SeriesModel` puts this together in the series object; `Rings`, `RingSegments` and `Lines`
   use nothing but its search, and prove their answers in terms of all segments.

The chain for the predicates: `Raycasting` (one ray, one segment), `Intersecting` (two
segments), `Winding` (bounds, winding and convexity), `Rings` (the even-odd rule, and the
ways of writing the same ring).

## How the model reads the source

- Coordinates are real numbers. The middle of an interval is an arbitrary function (`mid`), so
  the results about the index hold for any way of rounding it; only `QuadTree.QuadsTile` asks
  that it lies in the interval.
- The nudge of the ray to the next number is a step of any positive size `eps`. The `on`
  answer never depends on it. `NudgeBound` gives, for a segment and a point, how small it has
  to be for the `inside` answer to be exact.
- A division by zero in the slope test never compares equal: in the cases that reach it, it is
  an infinity or a NaN against a finite number.
- The query rectangle of point-in-ring, infinite in x, is `Level(y)`. `Query.Holds` says which
  points a query asks for.
- A segment can be reached at a level (`Reach`) if neither its distance nor that of a rectangle
  on the way down to it is above the level. This is what best-first search minimises when the
  two distance functions have nothing to do with each other.
- A callback is a pure function from the values it captures to their new values and whether to
  go on. `Feed` makes calls until one answers false.
- 64-bit conversions are `U64`, the remainder modulo 2^64. `|` is `Varint.Or`, bit by bit.
- A `nil` result distance (NaN) is `None`. The queue of a search is new; the source reuses
  one after emptying it.
- `hide` statements in proofs keep definitions out of the verifier's sight where they are not
  needed. They assume nothing.

## Where the code is not what one would expect

- `IntersectsSegment` is not symmetric. It misses exactly the pairs where the second segment
  covers the first and they have no end in common (`IntersectsIsExact`), so the order of the
  two matters exactly when one covers the other in that way (`SymmetricExactly`;
  `IntersectsIsNotSymmetric` is such a pair).
- `IntersectsLine` inherits this between lines with as many points: swapping them changes the
  answer exactly when some of their segments share a point, and all that do are missed in one
  of the two orders (`LinesMeetSymmetricExactly`; `LinesMeetIsNotSymmetric` is such a pair).
- `DistanceToSeries` returns the number of the segment with an index only. The linear loop
  leaves it at zero, which is right exactly when no segment is nearer than the first
  (`ZeroIsNearest`; `ZeroIsNotNearest` is a case where it is wrong). An empty series gives 0
  or -1.
- `makeSeries` builds an index whenever there are enough points, also for the kind `None`.
- The header of the index keeps the low 32 bits of its length. It is the length exactly when
  the array is shorter than 2^32 bytes (`HeaderIsLength`), which `IndexFits` proves for up to
  27.8 million segments. A longer array is cut short by its own header, and its tree cannot
  be read to the end (`IndexIsReadable`). Searching asks for the shorter one.

## Model

| member | source | states |
|---|---|---|
| Planar.BoxIsTightest | segment.go:20-32 | the box of a segment is well formed, and a rectangle contains it exactly when it contains both ends |
| Planar.IntersectsIsSharedPoint | rect.go:143-151 | two well-formed rectangles intersect exactly when some point is in both |
| Planar.MeetsIsCommonPoint | rect.go:143-151 | a query meets a rectangle exactly when it asks for one of its points: a point of the window, or one at the height |
| Planar.MeetsByAxis | rect.go:143-151 | a window is compared on both axes, also when it is not well formed |
| Planar.ContainsIsAllPoints | rect.go:133-141 | a rectangle contains a well-formed one exactly when it contains all of its points |
| Planar.MeetsIsMonotone | qtree.go:206-211 | if a rectangle within larger bounds meets the query, so do the bounds |
| QuadTree.ChosenQuadHolds | qtree.go:66-108 | the quad chosen for a rectangle within the bounds contains it, for any midpoint function |
| QuadTree.OverflowIsCrossing | qtree.go:66-88 | a rectangle goes to no quad exactly when it crosses a middle line |
| QuadTree.QuadPlaces | qtree.go:66-108 | odd quads are the right half and quads 2 and 3 the lower half, both for the bounds and for the choice |
| QuadTree.QuadsTile | qtree.go:90-108 | the four quads cover the bounds and nothing else, and meet on the middle lines only |
| QuadTree.Insert | qtree.go:23-64 | insertion ends, and stores what was stored plus the item, with multiplicity |
| QuadTree.Redistribute | qtree.go:41-60 | splitting loses and duplicates nothing |
| QuadTree.InsertKeepsShape | qtree.go:23-64 | insertion keeps the invariant at any place: unsplit nodes have no children and at most 12 items above depth 64, split nodes hold at least 13 in all, and every item is in the quad it belongs to |
| QuadTree.ShapedIsWithinLimits | qtree.go:14-15 | the numbers 12 and 64 hold at every node of the tree |
| QuadTree.ShapedIsBounded | qtree.go:29-39 | under the invariant every item lies in the bounds of all nodes on its path |
| QuadTree.GrowKeepsInvariant | qtree.go:23-64 | after any sequence of insertions the tree stores exactly the sequence as a multiset, with the invariant and with every item in bounds |
| QuadTree.ShapeIsUnique | qtree.go:23-64 | the invariant and the stored multiset determine the tree, up to the order of items in a node |
| QuadTree.GrowInAnyOrder | qtree.go:143-144 | inserting the same segments in any two orders gives the same tree once items are sorted, hence the same index |
| QNodes.QNode.constructor | qtree.go:17-21 | a new node owns only itself and is the empty tree |
| QNodes.QNode.Insert | qtree.go:23-64 | the update in place equals the functional insertion, allocates only new nodes and keeps the children apart on the heap; it ends although it calls itself at the same depth |
| QNodes.QNode.Split | qtree.go:41-59 | the splitting loop in place equals the functional redistribution |
| QNodes.QNode.InsertQuad | qtree.go:34-39 | inserting into a quad changes that child only, allocating it when missing |
| QNodes.QNode.Compress | qtree.go:143-169 | appends exactly the encoding of the tree with sorted items to the destination, and leaves the heap as that tree |
| QNodes.QNode.AppendItems | qtree.go:146-151 | the loop writes the differences of the items |
| Varint.AppendUvarint | qtree.go:110-117 | both ways of appending write the same LEB128 bytes after the destination |
| Varint.UvarintDigits | qtree.go:110-117 | byte i is the seven bits from 7i on, with the high bit set on all bytes but the last |
| Varint.UvarintIsShortest | qtree.go:110-117 | a positive number takes n bytes exactly when it is at least 2^(7(n-1)) and below 2^(7n) |
| Varint.ReadUvarint | qtree.go:120-140 | the loop reads the number the bytes denote, modulo 2^64, and the address after it, or (0, -1) |
| Varint.LebDenotes | qtree.go:120-140 | for any bytes, the number read has their low seven bits as its digits, and only the last byte lacks the high bit |
| Varint.OrIsPlus | qtree.go:129-134 | a number below 2^s combined by bitwise or with a multiple of 2^s is their sum: the reading loop's next seven bits fall above those it has |
| Varint.UvarintLength | qtree.go:110-117 | a 64-bit number takes at most ten bytes |
| Varint.UvarintRoundTrip | qtree.go:110-140 | between any bytes before and after, the encoding of a 64-bit number is read back with the address just past it |
| Varint.OverlongRefused | qtree.go:136-138 | ten continuation bytes are answered with (0, -1) |
| Codec.NodeRoundTrip | qtree.go:143-216 | wherever the bytes of a storable tree stand, they decode to that tree and consume exactly their own length |
| Codec.NodeFormat | qtree.go:143-168 | a node is its count, its differences, and a flag, 1 before the four quads in turn or 0 |
| Codec.ChildFormat | qtree.go:158-166 | a quad is its length and its bytes, or one zero byte |
| Codec.ItemFormat | qtree.go:146-151 | every item is written as the difference to the one before it |
| Codec.EncodingIsUnambiguous | qtree.go:143-169 | no two different trees can be read at one address |
| Codec.QuadHead | qtree.go:160-162 | the size in front of a quad is positive, leads to the quad's own bytes, and past them to the next quad |
| Codec.NoQuadHead | qtree.go:163-165 | a missing quad is a zero size, after which the next quad follows |
| Codec.LengthBound | qtree.go:143-169 | every item of a subtree costs at most 31 bytes and a thirteenth of 25 bytes for every level left below, as a split node holds at least 13 items; an empty tree takes at most 11 bytes |
| Codec.CutIsRefused | qtree.go:172-216 | the prefixes of an array from which a tree can be read are exactly those that hold all of its bytes |
| Codec.TidyIsStorable | qtree.go:143-151 | a well-shaped tree of 64-bit numbers meets what the encoding asks |
| Searching.CompressSearch | qtree.go:172-216 | for any callback, the walk over the bytes equals feeding it the calls of the tree traversal up to the first false |
| Searching.EarlyStop | qtree.go:185-195 | the calls made are a prefix of the full traversal that ends at the first false, and false is returned exactly when a call answered it |
| Searching.VisitsCount | qtree.go:180-215 | a subtree calls back for a segment once for every time it is stored and only if its rectangle meets the query: pruning loses none |
| Searching.WalkEqualsScan | series.go:165-185 | over a tree that stores every segment once, the calls are those of the linear scan as a multiset, each with its own segment |
| Searching.ScanMakesAsked | series.go:169-178 | the linear scan makes a call exactly once for every segment whose box has a point that the query asks for, with its number, and no other |
| Searching.ScanRises | series.go:169-178 | its calls are in the order of the segments |
| Queues.CmpIsOrder | queue.go:24-42 | the comparison is lexicographic by distance, kind and position, antisymmetric and transitive |
| Queues.RootIsLeast | queue.go:46-55 | in a heap no entry is less than the first |
| Queues.Queue.Push | queue.go:46-55 | sifting up keeps the heap and adds exactly the node |
| Queues.Queue.Pop | queue.go:57-84 | pop answers a least entry, removes exactly it and keeps the heap; on an empty queue it fails |
| Queues.Queue.SiftDown | queue.go:66-82 | sifting down, which swaps on ties, restores the heap and permutes the entries |
| Queues.Queue.Drain | queue_test.go:31-53 | popping until empty yields all entries in ascending order |
| NearestSegments.ScanItems | qtree.go:235-260 | among a node's own items the loop finds the first of least distance |
| NearestSegments.PushQuads | qtree.go:261-284 | every quad present is pushed once, with its bounds, its address and its distance |
| NearestSegments.OpenNode | qtree.go:234-284 | after opening a node every segment is beaten by an entry of the queue or hidden below one |
| NearestSegments.FirstSegmentIsNearest | qtree.go:285-298 | the first segment popped is the lowest-numbered segment of least distance, by the order of ties |
| NearestSegments.FirstSegmentIsReached | qtree.go:285-298 | whatever the distances, at every level at which some segment can be reached, through rectangles no farther than that level, the segment popped can be reached |
| NearestSegments.ReachIsDistance | qtree.go:225-300 | when rectangles bound segment distances from below, the least level of a segment is its own distance |
| NearestSegments.WeightDrops | qtree.go:233-299 | opening a node leaves fewer unopened nodes |
| NearestSegments.NearbySegment | qtree.go:225-300 | the search ends for any distance functions and returns a segment, with its number and distance, that can be reached at the least level; the lowest-numbered nearest one when rectangles bound segment distances from below; nothing when there are no segments |
| NearestSegments.NearestIsUnique | series.go:201-210 | there is one first segment of least distance, so the two paths agree |
| SeriesModel.SegmentsJoin | series.go:223-248 | segments start at the points in turn and join up; a closed series returns to its first point, and there are none exactly when the series is empty |
| SeriesModel.SegmentsMean | series.go:223-248 | which segments there are: from each point to the next, and for a closed series back to the first, unless the last point already is the first |
| SeriesModel.SegmentsOfCycle | series.go:223-248 | a closed series has the edges of the cycle of its points, with or without a repeated closing vertex |
| SeriesModel.SegmentsInRect | series.go:250-278 | the rectangle of the series contains the rectangle of every segment |
| SeriesModel.Uint32RoundTrip | series.go:326-326 | the header keeps the low 32 bits of a length |
| SeriesModel.LittleEndian | series.go:326-326 | byte i of the length is its eight bits from 8i on |
| SeriesModel.HeaderIsLength | series.go:325-330 | the length in the header is the length of the array exactly when that is below 2^32 |
| SeriesModel.HeaderReadsTree | series.go:180-182 | the part of the array that the header names holds the whole tree exactly when the length is below 2^32 |
| SeriesModel.BuiltTreeIsGood | series.go:332-346 | the built tree stores every segment number once and meets what the searches and the encoding ask |
| SeriesModel.IndexIsShort | series.go:332-346 | thirteen arrays take at most 2003 bytes for every segment and 208 more: about 154 bytes a segment |
| SeriesModel.BaseSeries.constructor | series.go:83-103 | the derived fields are right; without options the index is there from 64 points on, with kind 1; with options, from their least number of points on unless that is 0, with their kind |
| SeriesModel.BaseSeries.BuildIndex | series.go:332-346 | the index becomes the array of the built tree, or stays as it was |
| SeriesModel.BaseSeries.SetCompressed | series.go:325-330 | only the four length bytes change |
| SeriesModel.BaseSeries.Search | series.go:165-185 | indexed or not, any callback gets the calls of the linear scan up to its first false: one for every segment whose box has a point that the query asks for, and no other; in order without an index |
| SeriesModel.BaseSeries.DistanceToSeries | series.go:193-221 | without an index, the segment and distance of the first nearest segment, and number 0; with one, whatever the distances, a segment that can be reached at the least level, with its number and distance, and the first nearest one if rectangle distances never exceed those of segments inside |
| SeriesModel.BaseSeries.IndexFits | series.go:325-330 | up to 27.8 million segments the index is shorter than 2^32 bytes |
| SeriesModel.BaseSeries.IndexIsReadable | series.go:180-183 | the tree can be read from the part of the index that its header names exactly when the index is shorter than 2^32 bytes |
| SeriesModel.BaseSeries.Move | series.go:117-129 | a new valid series with dx and dy added to the coordinates of every point, the rectangle moved, and the same winding and convexity |
| SeriesModel.Scan | series.go:169-178 | the linear search feeds the callback the wanted segments in order |
| SeriesModel.ScanNearest | series.go:201-210 | the linear loop finds the first segment of least distance |
| SeriesModel.ZeroIsNearest | series.go:201-210 | the number that the linear loop leaves is right exactly when no segment is nearer than the first |
| SeriesModel.ZeroIsNotNearest | series.go:201-210 | a series of two segments where it is wrong |
| Planar.MovedHolds | series.go:117-129 | the moved query asks for the moved points |
| SeriesModel.MovedScan | series.go:165-185 | searching the moved points for the moved query finds the same segment numbers, with the segments moved |
| Winding.ProcessPoints | series.go:252-319 | the rectangle is the tightest, clockwise holds exactly for negative shoelace area, and convex exactly when no two cyclic turns have opposite signs |
| Winding.ProcessedMeans | series.go:252-319 | convex exactly when no corner of the cycle is strictly to the left and another strictly to the right; clockwise exactly when the fan of triangles from the first point has negative area; the rectangle is the least that holds the points; all zero for too few points |
| Winding.TurningIsSide | series.go:301-301 | the turn at three points is the side of the line that the third is on, and the area of their triangle |
| Winding.AreaIsFan | series.go:293-294 | the shoelace sum is the signed area of the fan of triangles from the first point |
| Winding.TrapezoidsAreArea | series.go:293-294 | the sum the loop takes is minus twice the enclosed area: the other terms telescope |
| Winding.BoundsAreTightest | series.go:263-278 | a rectangle contains the bounds exactly when it contains all points |
| Winding.MovedProcessed | series.go:117-129 | moving the points moves the bounds and keeps winding and convexity |
| Raycasting.OnSegmentIsBoxAndLine | segment.go:41-43 | being a point between the ends is being on the line and in the box |
| Raycasting.OnIsExact | raycast.go:18-64 | the on answer is membership in the closed segment, for every nudge |
| Raycasting.RaycastIsExact | raycast.go:16-103 | off the segment the inside answer is: not below the lower end, below the upper end, strictly left of the line; the same for every nudge under the bound |
| Raycasting.CrossesIsRay | raycast.go:66-103 | crossing means: lower end included, upper end not, the ray to the right meets the segment beyond the point |
| Intersecting.ContainsPoint | segment.go:41-43 | membership in the closed segment |
| Intersecting.IntersectsIsTouchOrCross | segment.go:46-119 | the answer is: an end of the other is on the segment, or the directions differ and the segments meet |
| Intersecting.IntersectsIsExact | segment.go:46-119 | the answer is that a point is shared, except when the other segment covers this one and no end is shared |
| Intersecting.SharePointIsCommonPoint | segment.go:46-119 | sharing a point is that some point is on both closed segments |
| Intersecting.ContainsSegmentIsAllPoints | segment.go:121-124 | a segment contains another exactly when it contains all of its points |
| Intersecting.SwallowsMeans | segment.go:100-107 | the missed pairs: all points covered, and no end in common |
| Intersecting.SymmetricExactly | segment.go:46-119 | both orders get the same answer exactly when neither segment covers the other without a shared end |
| Intersecting.IntersectsIsSymmetric | segment.go:46-119 | segments that are not parallel get the same answer in both orders |
| Intersecting.IntersectsIsNotSymmetric | segment.go:100-107 | a parallel pair that does not |
| Intersecting.IntersectsImpliesBoxes | segment.go:46-90 | intersecting segments have intersecting boxes |
| Rings.FeedSearcher | ring.go:37-49 | whatever the order of the calls, the callback ends with the caller's choice if any segment is on, and else with the parity of the crossings |
| Rings.CountVisited | ring.go:60-66 | counting over the calls of a search is counting over all segments |
| Rings.CountIsNumber | ring.go:37-49 | the count is the number of segments that pass the test |
| Rings.VerdictOfVisits | ring.go:25-79 | for any order of visits, the answer and the edge number are right for all segments with no filter |
| Rings.VerdictIsEvenOdd | ring.go:25-49 | with a small nudge the answer is the even-odd rule of exact geometry |
| Rings.SmallNudgeExists | raycast.go:66-68 | every ring and point have nudges small enough |
| Rings.RingContainsPoint | ring.go:25-67 | point in ring equals the rule over all segments, with or without an index; the edge number is -1 exactly when the point is on no edge |
| Rings.ClosingVertex | series.go:223-237 | repeating the first point at the end changes no answer |
| Rings.RotatedRing | series.go:239-248 | starting at another point changes no answer |
| Rings.ReversedRing | raycast.go:16-103 | running through the points backwards changes no answer |
| Rings.RectSearch | rect.go:98-110 | the search of a rectangle is the linear scan of its four sides |
| Rings.SidesRunAround | rect.go:69-96 | the sides run from the lower left corner counter-clockwise and come back to it |
| Rings.RectContainsPoint | ring.go:69-79 | point in ring for a rectangle equals direct comparison, strict when edges are not allowed |
| Rings.RectIsItsRing | rect.go:124-127 | the even-odd rule over the sides of any well-formed rectangle, flat or not, is containment or strict containment |
| RingSegments.NotAtBothEnds | ring.go:247-259 | no ring segment that counts has both ends of the segment among its own |
| RingSegments.SetAsideShareAnEnd | ring.go:247-259 | what is set aside are ring segments that matter and share an end with the segment |
| RingSegments.FeedTally | ring.go:242-267 | reaching a count of two depends neither on the order of visits nor on stopping early |
| RingSegments.ScoreOfVisits | ring.go:242-268 | the count reaches two exactly when, over all ring segments, those that intersect and are not collinear, less one at each end, are at least two |
| RingSegments.ScoreMeans | ring.go:242-268 | the score is the number of ring segments that share a point with the segment without swallowing it; with edges not allowed, without those on its line, and less one for either end that some of them have |
| RingSegments.ScoreOfFlipped | ring.go:242-268 | the score does not depend on which way ring segments run |
| RingSegments.RingIntersectsSegment | ring.go:228-269 | for every nudge, the answer is an end in the ring by the nudged rays, or that score, whatever the index; for small nudges an end in the ring by the even-odd rule |
| Lines.LineContainsPoint | line.go:28-41 | a line contains exactly the points of its segments |
| Lines.IntersectsLine | line.go:107-133 | the answer is that some segment of the shorter line (of the first, if they have as many points) intersects one of the other, in that order; rectangles apart rule it out |
| Lines.LinesMeetMeans | line.go:107-133 | in geometry: some segment of the line with fewer points, or of the first, shares a point with one of the other that does not swallow it |
| Lines.AnyPairMeans | line.go:118-131 | in geometry: some two segments share a point without the second swallowing the first |
| Lines.AnyPairSymmetricExactly | segment.go:46-119 | testing the pairs the other way round differs exactly when some share a point and all that do are swallowed one way |
| Lines.LinesMeetSymmetricExactly | line.go:107-133 | the order of two lines matters exactly when they have as many points and their segments are such |
| Lines.LinesMeetIsNotSymmetric | line.go:107-133 | two lines of one segment each whose answer depends on the order |

## Left out

- Searching.CompressSearch: does not model reading a damaged array, where the source would panic.
- NearestSegments.NearbySegment: without the lower bound, which of several segments at the least level is found is not promised.
- SeriesModel.BaseSeries.constructor: does not model sharing the caller's point slice, because points are a value here.
- SeriesModel.BaseSeries.Search: is stated for indexes below 2^32 bytes; above that the source cuts the array short, and a walk that reaches the cut would panic (`IndexIsReadable`).
- Rings.RingContainsPoint: with a nudge that is not small the answer is tied to the parity of the nudged rays only, and so is RingSegments.RingIntersectsSegment.
- RingSegments.RingIntersectsSegment: is stated for series; the generic search of a rectangle is modelled for points only.
- Rounding, NaN and overflow of floating-point coordinates.
- The queue pool and slices that share memory.
- `ringContainsSegment`, `ringContainsRing`, `ringIntersectsRing`: case analyses around the first edge found, with no specification to prove.
- `Line.ContainsLine`, `Line.ContainsPoly`: a walk back and forth with no measure.
- Polygons, points as geometries and the remaining methods of rectangles: compositions of the above.
- Geometric convexity: the flag compares signs of turns, and that is what is proved.
- Nil receivers.
