# Verification of a5R's index and geometry algorithms

a5R puts the A5 geospatial index into R. Cells are 64-bit ids; the upstream
`a5` crate supplies the projection and the curve, and this package adds the
algorithms around it. This project models those algorithms in Dafny and proves
what the package promises of them.

Run `dafny verify dfyconfig.toml` to check everything.

## What is modelled

**The curve and the crate.** Every cell is an aligned block of consecutive
leaf slots on one space-filling curve of 60 * 4^29 slots. `Slots` holds the
arithmetic of those blocks. `Upstream` states the functions the package calls
in the crate as fields of a `Crate` value (and its union as a parameter), and the contracts relied on as
predicates, so each theorem names the contracts it uses and holds of any crate
meeting them. `UpstreamWitness` builds a crate that meets all of them at once.

**The covering engine.** A covering is a list of disjoint cells in curve order
and a marker with the resolution of the cells meant. `Descendants` and
`IdRanges` are the stride arithmetic, `Coverings` the one-pass validity check
and the canonical form, `Supercells` the search for the coarse cells that hold
a covering's fine cells: a budgeted listing or a frontier search with a binary
search over slot runs. Both are proved to give exactly the set they replace.

**Geometry.** `Vectors`, `ArcGeometry` and `RingCheck` are the sweep that tells
whether a ring crosses itself; `EdgeHeights`, `Longitudes`, `RingBounds` and
`UnionArcs` are a ring's bounds and the union of longitude arcs. Numbers are
exact reals and points are unit vectors. A square root is a parameter `root`
with `root(x) * root(x) == x` and `root(x) >= 0` for `x >= 0`; half-angle
cosines are `root((1 + a.b) / 2)`, and latitude is the height `z`.
`EdgeLongitudes` relates directions to longitudes by a cosine and a sine given
as parameters, with the subtraction formula, their period, the sine's signs and
an angle for every point of the unit circle (`BoxCanMiss` also takes that they
lie on it). A ring's arc holds its edges (`EdgeLongitudes`) and is no wider than
they are (`LongitudesReached`). `FeatureBoxes` puts the bounds of a feature's
parts together, and `BoxExactness` says when that box holds them.

**Formats.** `CellBytes` is the stored byte layout and the C functions,
`ChunkedFill` the parallel fill; `HexIds` hex text; `ArrowBuffers`,
`ArrowConversions` and `ArrowOwnership` the Arrow C data interface: bitmaps, offsets, slicing, and who
releases what. `Flattening` and `Regions` are polygon features through flat
vectors and back, `FeatureResults` their per-feature results and `BoxOrder` the
order of mixed boxes.

**Threads.** `Threading` is the thread count, the pool and the process that
built it, over every interleaving of forks, changes of the count and parallel
calls.

`Sorting`, `Sequences` and `Results` are shared vocabulary.

## Where the code and its documentation differ

`union_arcs` documents "the smallest arc covering every arc". That holds if and
only if the gap it leaves out is free of the last arc (`UnionArcs.LastArcFits`),
which is sure when the last merged arc ends at most 360 past the end of the
first (`UnionArcs.EnoughRoom`). An arc may cross the antimeridian and wrap over
the next turn: [170, 300] with [-175, -160] gives [170, 200], which misses part
of the first arc (`UnionArcs.GuardIsNeeded`).

A multi-part feature's bounding box inherits this. Its heights always hold every
part; its longitudes hold every point of every edge if and only if that same
condition holds (`BoxExactness.BoxHoldsPartsExactly`). Two triangles on the
equator show it fail: 170 by 250 to 300 and -175 by -170 to -160 give a box from
170 to 200, and the first one's vertex at 250 is not in it
(`BoxExactness.BoxCanMiss`).

A reported thread count above one implies a pool, except exactly within a
`set_num_threads(1)` that has taken the pool away and not yet stored the count
(`Threading.CountBackedExactly`); a run reaches that state
(`Threading.CountLagsDuringChange`), and a parallel call then runs directly.

## Model

| member | source | states |
|---|---|---|
| Slots.SizeIsPowerOfFour | src/rust/src/hierarchy.rs:28-53 | a cell at resolution r >= 1 holds 4^(30-r) leaf slots |
| Slots.QuintantFaceAndTotal | src/rust/src/hierarchy.rs:43-44 | a quintant is 4^29 slots, a face five, the world sixty, and no slot number overflows 64 bits |
| Slots.TimesIsProduct | src/rust/src/hierarchy.rs:61 | the repeated addition strides are written with is multiplication |
| Slots.StridesIsQuotient | src/rust/src/hierarchy.rs:50 | the repeated subtraction counts are written with is integer division |
| Slots.NestedOrDisjoint | src/rust/src/hierarchy.rs:13-20 | two aligned blocks are nested or disjoint |
| Slots.StrideOf | src/rust/src/hierarchy.rs:13-20 | a finer block inside a cell starts a whole number of strides in, within the count |
| UpstreamWitness.ContractsAreConsistent | src/rust/src/hierarchy.rs:282-295 | some crate and union meet every contract any module assumes, the location ones at every pair of resolutions below 30, and that union does not simply fail |
| Descendants.NewOutcome | src/rust/src/hierarchy.rs:29-53 | fails exactly for a coarser target or one past 30; else the strides exactly fill the cell's block |
| Descendants.NthSlot | src/rust/src/hierarchy.rs:59-61 | the k-th stride is a block boundary whose block stays inside the cell, without 64-bit overflow |
| Descendants.NthCell | src/rust/src/hierarchy.rs:60-68 | the k-th descendant is the cell at that stride, or at resolution 30 in a quintant without ids the resolution-29 cell around it |
| Descendants.IdsRunOut | src/rust/src/hierarchy.rs:60-66 | a quintant is a block of resolution 1, and at resolution 30 the aligned slots with ids are those of the first 42 |
| Descendants.FallsBackFrom | src/rust/src/hierarchy.rs:60-68 | at resolution 30 a descendant before the end of the 42nd quintant is the cell at its slot, and one past it the resolution-29 cell at the slot's multiple of four |
| Descendants.NthReaches | src/rust/src/hierarchy.rs:60-68 | every encodable fine cell inside a cell is its k-th descendant for some k below the count |
| Descendants.NthFollows | src/rust/src/hierarchy.rs:13-20 | consecutive descendants are adjacent on the curve |
| Descendants.IdsFollowSlots | src/rust/src/hierarchy.rs:70-71 | below resolution 30 ids are ordered as their slots |
| Descendants.RangeIsExact | R/hierarchy.R:138-147 | a fine id lies between the two ends exactly when the cell is a descendant, that is, an Nth of it |
| IdRanges.CellChild | src/rust/src/hierarchy.rs:203-231 | each element is the i-th child, NA where the cell or position is NA, and an error exactly when some position is out of range or a target not allowed |
| IdRanges.ChildrenAscend | src/rust/src/hierarchy.rs:13-20 | descendants are listed in strictly ascending id order |
| IdRanges.FineCellsFillIdRanges | R/hierarchy.R:138-147 | a valid covering's fine cells are exactly the cells in some stored cell's id range |
| IdRanges.IdRangesAscend | R/hierarchy.R:138-147 | those ranges ascend and are pairwise disjoint, so the union is disjoint |
| Coverings.CheckNotFiner | src/rust/src/covering.rs:96-110 | succeeds exactly when no value that is not a marker is finer than the resolution |
| Coverings.CellsToCovering | src/rust/src/covering.rs:83-94 | compacts the cells with the resolution's marker appended, or as they are without one; fails when a cell is finer |
| Coverings.IsValidCovering | src/rust/src/covering.rs:116-137 | one pass accepts exactly the lists of valid cells, none finer than the covering, blocks pairwise disjoint and ascending, but for one trailing marker |
| Coverings.SplitHasGroup | src/rust/src/covering.rs:112-137 | a block covered only by finer cells contains a complete sibling group |
| Coverings.CanonicalForm | R/covering.R:25-27 | two ordered lists without complete sibling groups that cover the same slots are the same list |
| Coverings.StoredValuesDecideEquality | R/covering.R:25-27 | two coverings in stored form have equal values exactly when they have the same resolution and slots |
| Supercells.PartitionPointSplits | src/rust/src/hierarchy.rs:345 | the binary search separates runs ending at or before lo from those ending after |
| Supercells.OverlapsIsMeets | src/rust/src/hierarchy.rs:344-347 | the test is true exactly when some run intersects the range |
| Supercells.CollectRuns | src/rust/src/hierarchy.rs:338-342 | one run per stored cell, its block; an error exactly when a block is not known |
| Supercells.RunsAscend | src/rust/src/hierarchy.rs:337-343 | a valid covering's runs are non-empty, disjoint, ascending and already sorted |
| Supercells.Holds | src/rust/src/hierarchy.rs:349-356 | true only when a subcell reaches a run, false only when none does, errors passed on |
| Supercells.MeetsIffSupercell | src/rust/src/hierarchy.rs:348-356 | a coarse cell's subcells meet the covering exactly when it is the supercell of some fine cell |
| Supercells.HoldsIffSupercell | src/rust/src/hierarchy.rs:348-356 | on a valid covering the test succeeds and is true exactly for supercells of its fine cells |
| Supercells.BudgetFits | src/rust/src/hierarchy.rs:315-316 | the budget stays below the saturated total, so saturating addition never hides an excess; it is 256 up to a gap of 3, 32 * 2^gap up to 40 and no more beyond |
| Supercells.ListFine | src/rust/src/hierarchy.rs:317-326 | the listing completes exactly when the number of fine cells is within the budget |
| Supercells.SupercellsOfFine | src/rust/src/hierarchy.rs:327-334 | collects exactly the supercells of every listed descendant |
| Supercells.ListingIsExact | src/rust/src/hierarchy.rs:311-335 | those are exactly the supercells of the covering's fine cells |
| Supercells.Seeds | src/rust/src/hierarchy.rs:358-365 | the first fine cell of each stored cell puts its supercell into the frontier once |
| Supercells.Expand | src/rust/src/hierarchy.rs:378-383 | a kept cell's neighbours not seen before join the next frontier, each once |
| Supercells.Round | src/rust/src/hierarchy.rs:376-386 | one round keeps the search state: everything seen is found, pending or not wanted, nothing twice |
| Supercells.StretchIsFound | src/rust/src/hierarchy.rs:289-295 | along one stored cell every fine cell's supercell is found once the first is seen and the frontier is empty |
| Supercells.SearchIsExact | src/rust/src/hierarchy.rs:282-295 | a finished search lists exactly the supercells, each once |
| Supercells.Search | src/rust/src/hierarchy.rs:358-388 | the frontier search terminates and lists exactly the supercells, each once |
| Supercells.FindSupercells | src/rust/src/hierarchy.rs:311-388 | whichever of the two paths runs, the list is exactly the supercells, each once |
| Supercells.CoveringSupercells | src/rust/src/hierarchy.rs:296-389 | an empty covering stays empty, a finer target fails, an equal one compacts, and a coarser one gives the covering whose cells are exactly the supercells |
| ArcGeometry.CrossingIsSymmetric | src/rust/src/ring_check.rs:55-69 | swapping the arcs or reversing either leaves the verdict |
| ArcGeometry.CrossingDirection | src/rust/src/ring_check.rs:52-69 | arcs that cross share a non-zero direction strictly inside both |
| ArcGeometry.SignsMeanCrossing | src/rust/src/ring_check.rs:41-69 | the four side signs alternate if and only if the arcs' planes differ and a direction lies strictly inside both |
| ArcGeometry.ArcsCrossMeaning | src/rust/src/ring_check.rs:55-69 | the test is true exactly when no ends coincide, no end is within tolerance of the other's plane, and a direction lies strictly inside both arcs |
| ArcGeometry.SameMeaning | src/rust/src/ring_check.rs:31-39 | two points are one exactly when no coordinate differs by more than 10^-12, in squares; then their squared distance is at most 3 * 10^-24, and a squared distance of at most 10^-24 makes them one |
| ArcGeometry.ClearOfMeaning | src/rust/src/ring_check.rs:41-50 | a point is on neither side exactly when it is within 10^-12 of the great circle's plane, in squares |
| ArcGeometry.CrossingByDistance | src/rust/src/ring_check.rs:52-70 | with all ends apart arcs cross exactly when every end is clear of the other's plane and a direction lies strictly inside both; with two ends within 10^-12 they never do |
| ArcGeometry.ArcBoxHoldsArc | src/rust/src/ring_check.rs:71-83 | every point of the arc lies in its box |
| ArcGeometry.CrossingArcsHaveMeetingBoxes | src/rust/src/ring_check.rs:71-83 | arcs that cross have overlapping boxes |
| RingCheck.Clean | src/rust/src/ring_check.rs:89-98 | the loop computes the cleaned ring, whose meaning is in the next three rows |
| RingCheck.DeduplicatedKeeps | src/rust/src/ring_check.rs:89-95 | a point is dropped exactly when it repeats the vertex kept before it; every other point is kept, in order, the first included |
| RingCheck.CleanedKeeps | src/rust/src/ring_check.rs:96-98 | the last vertex kept is dropped exactly when it repeats the first of several, and nothing else is |
| RingCheck.ApartRingKept | src/rust/src/ring_check.rs:88-98 | a ring whose consecutive points are apart loses no vertex but a closing one: none with its ends apart, exactly the last with its ends within 10^-12 |
| RingCheck.DeduplicatedFacts | src/rust/src/ring_check.rs:89-95 | kept points are input points and no two in a row are the same |
| RingCheck.SmallRingsDoNotCross | src/rust/src/ring_check.rs:100-102 | with fewer than four points no two edges cross, so the early exit loses nothing |
| RingCheck.OrderByLeft | src/rust/src/ring_check.rs:109-110 | every edge once, by ascending left end of its box |
| RingCheck.Probe | src/rust/src/ring_check.rs:116-128 | the box filter and the neighbour skip miss no crossing with an active edge |
| RingCheck.Sweep | src/rust/src/ring_check.rs:112-132 | the sweep reports a crossing exactly when some pair of all edges crosses |
| RingCheck.RingCrossesItself | src/rust/src/ring_check.rs:88-133 | true exactly when some two edges of the cleaned ring cross, over all pairs |
| RingCheck.FirstCrossing | src/rust/src/ring_check.rs:142-157 | the 1-based first ring that crosses itself, or 0 when none does |
| RingCheck.BowTieCrosses | src/rust/src/ring_check.rs:168-174 | the four points at longitudes 0 and 90, as far south as north, joined crosswise are a ring that crosses itself |
| RingCheck.SquareDoesNotCross | src/rust/src/ring_check.rs:168-174 | and joined in turn one that does not |
| EdgeHeights.EndsAreHighest | src/rust/src/bbox.rs:72-86 | an edge whose top is outside it is nowhere higher than its ends |
| EdgeHeights.EdgeWithinHeights | src/rust/src/bbox.rs:72-86 | after widening by an edge the heights hold every point of it, its own extreme point included |
| EdgeHeights.EdgeHeightsReached | src/rust/src/bbox.rs:72-86 | widening goes no further than a height some point of the edge has |
| Longitudes.WrapFacts | src/rust/src/bbox.rs:42-46 | the wrapped difference lies in (-180, 180] and is the only value there congruent to the difference |
| RingBounds.UnwrappedIsLongitude | src/rust/src/bbox.rs:63-71 | the longitude followed along the ring is each vertex's own up to whole turns |
| RingBounds.WindingIsWhole | src/rust/src/bbox.rs:89-99 | the winding is a whole number of turns, so testing beyond half a turn tests for any turn |
| RingBounds.EdgeHeld | src/rust/src/bbox.rs:61-87 | every point of every edge is within the heights accumulated over the ring |
| RingBounds.HeightsReached | src/rust/src/bbox.rs:61-87 | both heights are reached by a point of some edge |
| RingBounds.SpanArcSpans | src/rust/src/bbox.rs:100-103 | the arc starts in [-180, 180), both its ends are vertices, and one shift by whole turns puts every vertex inside |
| RingBounds.VertexInSpan | src/rust/src/bbox.rs:100-103 | so every vertex longitude lies in the arc up to whole turns |
| RingBounds.Follow | src/rust/src/bbox.rs:61-87 | one pass gives the followed longitudes, the winding and the heights |
| RingBounds.FindRingBounds | src/rust/src/bbox.rs:49-104 | None exactly for an empty ring; heights are exactly the range reached, or the pole on the centroid's side for a ring around one; all longitudes exactly when the winding is not zero, else an arc spanning the vertices |
| RingBounds.PoleOfHemisphere | src/rust/src/bbox.rs:89-98 | a ring around a pole with no vertex in the south extends to the north pole and only as far south as its edges reach; one wholly in the south the other way round |
| RingBounds.SumOfHeights | src/rust/src/bbox.rs:92 | what picks the pole is the sum of the vertices' heights: one vertex's is its own and two lists' sums add |
| EdgeLongitudes.EdgeWithinTurn | src/rust/src/bbox.rs:29-46 | every point of an edge, off the axis, has a longitude within the edge's wrapped turn from its start, for every turn in (-180, 180] and with ends at a pole |
| EdgeLongitudes.EdgesInSpan | src/rust/src/bbox.rs:89-103 | the arc of a ring that does not go round a pole holds a longitude of every point of every edge, not of the vertices alone |
| LongitudesReached.LongitudeUnique | src/rust/src/bbox.rs:29-46 | two longitudes of one point off the axis differ by whole turns |
| LongitudesReached.WestwardEdge | src/rust/src/bbox.rs:29-46 | an edge that turns westwards, by less than half a turn, has a point at every longitude strictly between its ends |
| LongitudesReached.ComesDown | src/rust/src/bbox.rs:67-86 | longitudes followed round a ring that closes up come down past every value between their least and their greatest |
| LongitudesReached.SpanReached | src/rust/src/bbox.rs:89-103 | that arc is no wider than the edges: every longitude in it is some edge point's, no vertex being at a pole |
| LongitudesReached.PoleNotReached | src/rust/src/bbox.rs:67-103 | with a vertex at a pole it can be wider: the pole called 90, then 0 and 10 on the equator, have the arc [0, 90] and no edge point at 50 |
| FeatureBoxes.GatherBounds | src/rust/src/bbox.rs:163-170 | each feature gets the bounds of its parts with an outer ring, in order |
| FeatureBoxes.FoldHeights | src/rust/src/bbox.rs:180-181 | the folded heights hold all the bounds' and are reached by some of them |
| FeatureBoxes.FeatureBoxes | src/rust/src/bbox.rs:144-198 | every feature's box is none without parts, and else the folded heights with the union of the arcs, or all longitudes when a part has them or no gap is left |
| FeatureBoxes.BoxWherePart | src/rust/src/bbox.rs:176-179 | a feature has a box exactly when it has a part with an outer ring |
| FeatureBoxes.BoxHoldsHeights | src/rust/src/bbox.rs:1-8 | every point of every edge of every part is within its feature's box in height |
| FeatureBoxes.BoxHoldsLongitudes | src/rust/src/bbox.rs:1-8 | and has a longitude in it, poles aside, when the last arc leaves the largest gap free |
| FeatureBoxes.BoxCoversArcs | src/rust/src/bbox.rs:182-192 | that condition is exact: the box's arc holds every part's if and only if it holds |
| BoxExactness.BoxHoldsPartsExactly | src/rust/src/bbox.rs:144-198 | a box with an arc holds a longitude of every point of every edge of every part, poles aside, if and only if the last arc leaves the largest gap free, no vertex being at a pole |
| BoxExactness.EastwardsBounds | src/rust/src/bbox.rs:67-103 | bounds of a triangle on the equator, its longitudes ascending within half a turn, run from its first longitude to its last |
| BoxExactness.BoxCanMiss | src/rust/src/bbox.rs:106-142 | two such triangles, 170 by 250 to 300 and -175 by -170 to -160, are good rings whose box is [170, 200], and the vertex at 250, a point of an edge, has no longitude in it |
| UnionArcs.MergedFacts | src/rust/src/bbox.rs:112-119 | merging keeps the longitudes covered and leaves separated, ascending arcs |
| UnionArcs.BestGapIsLargest | src/rust/src/bbox.rs:121-131 | the gap chosen is the largest, the first of several as large |
| UnionArcs.NoShorterCover | src/rust/src/bbox.rs:106-142 | any arc covering the merged arcs is at least a turn less the largest gap |
| UnionArcs.AcrossGapCovers | src/rust/src/bbox.rs:135-141 | the arc round the other way covers every arc when the gap is free |
| UnionArcs.NoGapOnlyAlone | src/rust/src/bbox.rs:132-134 | two or more merged arcs always leave a gap |
| UnionArcs.UnionIsSmallest | src/rust/src/bbox.rs:106-142 | the result is a smallest cover, or None when there is none short of a turn, if and only if the last arc leaves the chosen gap free |
| UnionArcs.UnionCoversExactly | src/rust/src/bbox.rs:106-142 | an arc returned covers every arc if and only if the last one leaves the chosen gap free |
| UnionArcs.EnoughRoom | src/rust/src/bbox.rs:106-142 | which holds when the last merged arc ends at most 360 past the end of the first |
| UnionArcs.GuardIsNeeded | src/rust/src/bbox.rs:106-142 | [170, 300] with [-175, -160] gives [170, 200], which is not a cover |
| UnionArcs.FindUnion | src/rust/src/bbox.rs:106-142 | the loops compute that result, and it is a smallest cover exactly under that condition |
| Threading.Process.SetNumThreads | src/rust/src/threading.rs:31-51 | a failed build changes nothing; else count, pool and builder are the new ones, and only a pool built by this process is dropped |
| Threading.NextKeepsInv | src/rust/src/threading.rs:5-64 | every fork, write of a setting and parallel call keeps the invariant in every process |
| Threading.EveryRunIsSafe | src/rust/src/threading.rs:5-64 | over every run work is installed only on, and only drops, pools built by the same process |
| Threading.CallInstallsOnce | src/rust/src/threading.rs:53-64 | a call made in the pool's process is installed exactly once, on the pool it had if any, whatever other processes and calls do in between; made elsewhere it never reads a pool |
| Threading.CallAfterChange | src/rust/src/threading.rs:31-64 | once a change to n > 1 threads is done each call is installed on a pool of n threads of the process's own, and for one thread on none |
| Threading.EveryPoolAccounted | src/rust/src/threading.rs:31-51 | over every run a process drops exactly the pools its changes built, each once and oldest first, but for the one it still holds |
| Threading.CountBackedExactly | src/rust/src/threading.rs:5-64 | in every run and process a reported count above one comes with a pool to run on, except exactly while a change to one thread has taken the pool away and not yet stored the count |
| Threading.CountExactly | src/rust/src/threading.rs:5-64 | and with a pool of exactly that many threads, except exactly while a change to another count has not yet stored it; so always outside a change |
| Threading.ForkedChildRunsAlone | src/rust/src/threading.rs:7-23 | a forked child reports one thread and uses no pool however the world goes on, until it sets a count itself |
| Threading.ForkedChildKeepsCopy | src/rust/src/threading.rs:7-47 | until it sets a count a forked child keeps its parent's statics as they stood, pool and all, and setting it drops nothing |
| Threading.ChangeTakesEffect | src/rust/src/threading.rs:31-51 | whatever happens in between, unless the process ends or starts another change, its next write is always possible, and once done the count reported and the pool used are as asked |
| Threading.CountLagsDuringChange | src/rust/src/threading.rs:41-50 | from the start, four threads set and then a change to one begun is a run that reports four with no pool |
| Threading.ForkDuringCall | src/rust/src/threading.rs:31-64 | one run in full: a fork during a call leaves the call to be installed on the pool of four and nothing dropped when the child changes its count |
| CellBytes.StoredReadsBack | src/rust/src/cell_raw.rs:12-26 | every cell but the sentinel's own id reads back as stored, NA as eight zero bytes |
| CellBytes.EveryBytesAreStored | src/rust/src/cell_raw.rs:12-26 | every eight bytes are the stored form of what they decode to |
| CellBytes.BytesDecideCells | src/rust/src/cell_raw.rs:329-342 | bytes are equal exactly when the cells are, and only a zero last byte can be NA |
| CellBytes.LittleEndianNumber | src/rust/src/cell_raw.rs:21-26 | eight bytes read as the number in which byte j counts for 256^j |
| CellBytes.EncodedNumber | src/rust/src/cell_raw.rs:21-26 | an id's stored bytes spell it that way, once 0xFC is flipped in the last |
| CellBytes.DecodedNumber | src/rust/src/cell_raw.rs:68-78 | stored bytes decode to the id they spell that way, and to NA exactly when all eight are zero |
| CellBytes.Get | src/rust/src/cell_raw.rs:68-78 | decodes the eight planes' bytes at the index |
| ChunkedFill.ChunkPlanes | src/rust/src/cell_raw.rs:93-110 | eight iterators advanced in step: none runs out before the first, each plane's parts are all its own iterator gives, and chunk by chunk all eight are the same stretch, starting at the start recorded |
| ChunkedFill.ExactlyOneChunk | src/rust/src/cell_raw.rs:93-110 | every element lies in exactly one chunk |
| ChunkedFill.FillChunks | src/rust/src/cell_raw.rs:123-138 | in any interleaving of threads, each advancing its chunk an element at a time, every element is written exactly once and with its own cell |
| ChunkedFill.CellsFromFn | src/rust/src/cell_raw.rs:112-142 | the planes hold the same cells for every thread count, length and interleaving, each spelt by its planes' bytes or all zero for NA |
| CellBytes.CellsFromU64 | src/api.c:21-44 | stores each id as `encode` does, NA where flagged: plane j holds the byte that counts for 256^j, and eight zeros for NA |
| CellBytes.CellsToU64 | src/api.c:46-70 | gives the id and NA flag `get` gives, with id 0 for NA: NA exactly where all planes are zero, and else the number they spell |
| CellBytes.CRoundTrip | src/api.c:21-70 | a stored cell reported through C is the cell, or NA with id 0 |
| HexIds.ParseHexId | src/rust/src/cell_raw.rs:390-409 | accepts exactly one to sixteen hex digits after an optional prefix, and gives their value |
| HexIds.DigitsListed | src/rust/src/cell_raw.rs:400-405 | the 22 digit characters have their numbers, one by one |
| HexIds.DigitsRead | src/rust/src/cell_raw.rs:386-410 | one to sixteen such digits, alone or after 0x or 0X, read as their hexadecimal number, each digit counting for 16 times the next |
| HexIds.OnlyDigitsRead | src/rust/src/cell_raw.rs:386-410 | and nothing else is accepted |
| HexIds.FormatThenParse | src/rust/src/cell_raw.rs:316-327 | every id survives being written and read |
| HexIds.ParseThenFormat | src/rust/src/cell_raw.rs:386-409 | every accepted spelling is written back as its zero-padded lower-case form, which reads as the same id |
| HexIds.HexToCells | src/rust/src/cell_raw.rs:411-433 | NA for NA and the sentinel, else the id; or the first position that is not hex |
| HexIds.HexRoundTrip | src/rust/src/cell_raw.rs:312-433 | writing and reading gives the same vector exactly when none is the sentinel's id |
| HexIds.SentinelIsOneId | src/rust/src/cell_raw.rs:12-19 | the sentinel hex text is read against is the one of the byte layout |
| ArrowBuffers.ValidityBitmap | src/rust/src/arrow_ffi.rs:194-207 | a bit per valid element and none beyond, with the null count; None exactly when all are valid; each byte's number is the sum of 2^(i % 8) over its valid elements |
| ArrowBuffers.SetBitAt | src/rust/src/arrow_ffi.rs:201 | setting one element's bit changes no other |
| ArrowBuffers.BitIsDigit | src/rust/src/arrow_ffi.rs:105 | bit k of a byte is set exactly when 2^k is in its binary expansion |
| ArrowBuffers.Header.ValidByNumbers | src/rust/src/arrow_ffi.rs:98-106 | an element is valid exactly without a bitmap, with no nulls counted, or with its bit's digit set, counted from the offset |
| ArrowBuffers.Cells.ElementInBuffers | src/rust/src/arrow_ffi.rs:108-115 | a cell is the value at the offset and its index, unless null |
| ArrowBuffers.Lists.ElementInBuffers | src/rust/src/arrow_ffi.rs:409-443 | a covering is the child's values from its offset to the next, the child's own offset added |
| ArrowBuffers.Header.SliceValid | src/rust/src/arrow_ffi.rs:98-106 | in a slice each element is valid exactly when it was in the whole |
| ArrowBuffers.Cells.SliceElements | src/rust/src/arrow_ffi.rs:98-115 | a slice's cells are the whole's at that range |
| ArrowBuffers.Lists.SliceElements | src/rust/src/arrow_ffi.rs:409-443 | a slice's coverings are the whole's at that range, and none gains a null cell |
| ArrowBuffers.Lists.ChildSliceElements | src/rust/src/arrow_ffi.rs:434-438 | offsets lowered over a sliced child give the same coverings, and no null cell appears |
| ArrowConversions.CellsToArrow | src/rust/src/arrow_ffi.rs:329-346 | the exported array stands for exactly the cells, with their null count and a bitmap only when there is a null; the values are the ids with 0 for NA, and the bitmap's bytes are those of the cells present |
| ArrowConversions.CellsFromArrow | src/rust/src/arrow_ffi.rs:352-369 | the planes hold every slot's cells in order; an error names the first slot not exported or of another format |
| ArrowConversions.CoveringsToArrow | src/rust/src/arrow_ffi.rs:377-402 | the list array stands for exactly the coverings; an error exactly when their cells outnumber a 32-bit offset; the child's values are all the coverings' cells in a row and the offsets where each starts |
| ArrowConversions.CoveringsFromArrow | src/rust/src/arrow_ffi.rs:409-447 | every slot's coverings in order as stored bytes; or the first bad slot, or the first covering with a null cell by position over all slots |
| ArrowConversions.RawRoundTrip | src/rust/src/covering.rs:18-39 | a covering's bytes read back as its values |
| ArrowConversions.RawNumber | src/rust/src/covering.rs:31-39 | eight bytes a value, byte j counting for 256^j, unmasked |
| ArrowConversions.CellSlicesRead | src/rust/src/arrow_ffi.rs:98-115 | reading any slices gives the elements at those ranges |
| ArrowConversions.CellRoundTrip | src/rust/src/arrow_ffi.rs:329-369 | a cell vector exported, cut into any chunks and read back has its own bytes |
| ArrowConversions.ListSlicesRead | src/rust/src/arrow_ffi.rs:409-447 | reading any list slices, their child whole or sliced in turn, gives the coverings at those ranges, without error |
| ArrowConversions.PlainSlice | src/rust/src/arrow_ffi.rs:409-447 | a slice over the unchanged child is one of those slices |
| ArrowConversions.CoveringRoundTrip | src/rust/src/arrow_ffi.rs:377-447 | coverings exported, cut into any chunks, over a sliced child or not, are all readable and the same |
| ArrowConversions.ReadChunks | src/rust/src/arrow_ffi.rs:409-447 | reading those chunks back succeeds, and the bytes returned are the values of the coverings started with |
| ArrowOwnership.ReleaseCallsOwned | src/rust/src/arrow_ffi.rs:131-143 | a release calls back once for everything the struct owns, its child unless moved out |
| ArrowOwnership.Release | src/rust/src/arrow_ffi.rs:131-143 | calls back for the struct and then for a child not moved out, and leaves it empty; schemas alike (217-229) |
| ArrowOwnership.FfiSlots.Drop | src/rust/src/arrow_ffi.rs:269-282 | every array and then every schema still filled is released once, and all end empty |
| ArrowOwnership.FfiSlots.ReplaceByNone | src/rust/src/arrow_ffi.rs:367-369 | after a successful read the holder has no slots and what they held is released, so its own drop finds nothing |
| ArrowOwnership.MoveChildConserves | src/rust/src/arrow_ffi.rs:131-143 | moving a child out of its parent changes what is owned in all by nothing |
| ArrowOwnership.NextConserves | src/rust/src/arrow_ffi.rs:131-282 | every export, move, release, read and collection keeps each export either held or released, never both or twice |
| ArrowOwnership.ReleasedAtMostOnce | src/rust/src/arrow_ffi.rs:131-282 | in every run nothing is released twice or while held |
| ArrowOwnership.ReleasedExactlyOnce | src/rust/src/arrow_ffi.rs:131-282 | once nothing is held every export has been released exactly once |
| ArrowOwnership.EveryRunCanEnd | src/rust/src/arrow_ffi.rs:131-282 | from wherever a run has got to, a collection and the consumers' releases leave nothing held and every export released exactly once |
| ArrowOwnership.ConsumedList | src/rust/src/arrow_ffi.rs:131-143 | one run in full: an exported list taken, its child moved out and both released calls back for the parent and then the child |
| ArrowOwnership.GivenBackAndRead | src/rust/src/arrow_ffi.rs:367-369 | a struct given back is released by the read that succeeds, not by one that fails |
| ArrowOwnership.DroppedAndCollected | src/rust/src/arrow_ffi.rs:269-282 | a filled slot is released when its holder is dropped or collected |
| Regions.SplitRings | src/rust/src/regions.rs:29-43 | ring i is the points between offsets i and i + 1 |
| Regions.GroupParts | src/rust/src/regions.rs:45-75 | each part is its outer ring and then its holes, in input order |
| Regions.OffsetsFound | R/regions.R:441-463 | the run lengths found are the rings' point counts |
| Regions.PartIdsFound | R/regions.R:441-463 | each ring is labelled with its part's number, in input order |
| Regions.FeaturesFound | R/regions.R:441-463 | each part is labelled with its own feature |
| Regions.PartsRegrouped | src/rust/src/regions.rs:45-75 | grouping by the labels gives back each part's rings, outer first |
| Regions.RoundTrip | src/rust/src/regions.rs:29-75 | flattening any list of parts and regrouping gives each part's rings in order under its own feature |
| Regions.CoordinatesKept | R/regions.R:441-463 | the flat longitudes and latitudes are the rows' own, in order |
| Regions.PointsTaken | src/rust/src/regions.rs:29-43 | and a ring's points are its own stretch of them |
| FeatureResults.GatherLines | src/rust/src/regions.rs:182-195 | each feature's path holds its lines' cells, each once, in the order they first occur; an error exactly when a line fails |
| FeatureResults.GatherParts | src/rust/src/regions.rs:126-143 | each feature's result is a well-formed covering of exactly its parts' slots, and none without parts (the source then asks the crate for an empty covering); a failure is a part's, or the union's of what that feature had and its next part |
| BoxOrder.OrderInverts | R/regions.R:195-196 | sorting the positions results came from undoes them |
| BoxOrder.EachBoxInPlace | R/regions.R:190-196 | however globe boxes and others are mixed, each box gets its own covering |

## Left out

- The upstream crate's projection, curve layout, `compact`, `union`, `uncompact`, polygon and line filling: only contracts on them are used.
- Supercells.CoveringSupercells: for a coarser target the covering's resolution is at most 29; at 30 the descendants of some quintants are their resolution-29 parents, on which the crate's location contracts say nothing.
- Descendants.RangeIsExact: up to resolution 29, as the package documents; ids of different faces overlap numerically at 30.
- Floating point: rounding, NaN and tolerance effects are outside exact reals. `orient`'s tolerance is kept, as a comparison of squares.
- The values of the trigonometric functions, and the projection between geodetic and authalic latitudes; heights stand for latitudes.
- That a ring with all longitudes encloses the pole its heights are extended to: the choice of pole follows the centroid as in the source, and points at a pole have no longitude.
- LongitudesReached.SpanReached: no vertex is at a pole; such a vertex has a longitude that the arc is made to hold and no point of an edge need have (`LongitudesReached.PoleNotReached`).
- BoxExactness.BoxHoldsPartsExactly: the same; that the condition is enough holds with vertices at a pole too (`FeatureBoxes.BoxHoldsLongitudes`).
- Rings with an edge between opposite points, whose great circle is not determined.
- RingBounds.Follow: gives the values of recursive definitions; what they mean is in the lemmas on `Unwrapped` and `HeightsAfter`.
- Parallel maps over a frontier, parts, lines or coverings: modelled as their sequential result. In the chunked fill an element's eight bytes are written together.
- Process ids used again after a process ends: a fork gets an id not used before.
- Raw pointers and memory layout of the Arrow structs: a struct is filled or empty, and buffers are sequences. Validity of what a consumer exports, such as offsets in range, is required as the interface requires it.
- ArrowOwnership.Release: gives the cleared struct as its result; structs at addresses, which a consumer could alias, are not modelled.
- `rct_to_cells` before its last lines: refusing wide boxes and adding midpoints to polar ones.
- Thin forwards to the crate, distances, coordinate conversions, WKT and WKB, R allocation, printing and condition handling.
