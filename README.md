# Decoherence map core in Dafny

This models the map-side core of the *decoherence* browser game in Dafny:

- The reusable containers: a growable array and a priority queue built on it.
- The static bounding-box trees that hold the map's polygons, edges and navigation rectangles, together with their box query.
- Collision resolution of a moving circle against the map's edges.
- The navigation graph: building it, a multi-source Dijkstra path query versioned by a query counter, and the waypoint query.
- The exact 3×3 matrix and angle helpers.

Each file follows the structure of its source:

- `containers.dfy` holds the classes `PermanentArray` and `PermanentPriorityQueue` over arrays. They are proved against sequence functions (`InsertedAt`, `RemovedAt`, `SearchBoundary`).
- `spatial_tree.dfy` holds the tree as a datatype. Its query `Traverse` is a function returning the visited leaves in order. The map code's `forEach`, which pushes into a `PermanentArray`, is a recursive method proved against `Traverse`. The loader `NodeFromJson` and `getPolygons` are also here.
- `collision.dfy` holds `checkCollision`, `tryResolveCollision`, `tryResolveCollisionFallback` and `resolveCollision`. These are loops proved against selection functions (`Colliding`, `BestSlide`, `DeepestLine`, `Steps`), and lemmas state what the selections pick.
- `navigation.dfy` holds the class `PathMap`. The per-cell fields of the source are arrays there, indexed by cell id, and the build, path and waypoint operations are methods. Their invariants are:
  - `NeighborLists` / `Graph`: the neighbour lists.
  - `Labelled`: the Dijkstra labels.
  - `Seeded` / `OnlySeeds`: the start cells.
- `math3.dfy` holds `Matrix3` and the angle helpers.
- `geometry.dfy` holds vectors and boxes. Its `Geometry` record carries the vector helpers whose code is not part of this model.

`src/game.js` and `src/renderer.js` contain earlier variants of the same tree walk and collision code. They are modelled by the same members as the `src/systems.js` versions, and the table cites whichever copy a member's contract is closest to:

- The `game.js` collision code uses plain arrays where systems.js uses pooled `PermanentArray`s; otherwise the logic is line for line the same.
- `traverseBranch`/`traverseLeaf` is `branchForEach`/`leafForEach` with a visitor function in place of a visitor name.

Behaviours worth knowing:

- The map's `path_id` and every cell's `path_id` both start at 0 (`src/systems.js:441`, `src/systems.js:469`). A waypoint query made before the first path query therefore treats every cell around the start as tagged by the current query. In the source such a cell's `path_length` and `path_overlap` are still `undefined` (`src/systems.js:438-442` sets only `path_id`). The model starts them at `0.0` and `None` instead. The outcome is the same:
  - The first popped cell wins, because `undefined > undefined` is false in JavaScript, just as `0.0 > 0.0` is false.
  - The answer is `path_end`, the origin at that point, because `!undefined` is true, just as a missing overlap gives `path_end` in the model.
  
  The constructor's contract states this starting state.
- `resolveCollision` does not simply return the move when its destination is free. It takes two half steps, each checked at its own destination, and returns the sum of the steps it applied. `UnobstructedMoveIsKept` states when the whole move comes back.
- A cell counts as containing a point only when its box strictly overlaps the zero-size box at that point, that is, when the point lies in the cell's interior (`src/systems.js:236`, `Navigation.QueryIsOverlappingCells`). A path query therefore never starts from a cell whose border passes through the goal. A waypoint query from a point on a cell border does not find that cell.
- The priority queue writes the key onto the node. Re-pushing a node that is still queued therefore rewrites the key of its earlier entry, which can break the order. Dijkstra's loop does this, so sortedness is promised only for a node not yet queued.

## Model

| member | source | states |
|---|---|---|
| Containers.InsertedAt | src/systems.js:62-74 | the contents grow by one; the new object sits at the clamped index, earlier elements are unchanged, later ones are shifted right by one |
| Containers.RemovedAt | src/systems.js:75-87 | an out-of-range index changes nothing; otherwise the element at the index is gone and the later ones shift left by one |
| Containers.RemoveUndoesInsert | src/systems.js:62-87 | removing at the index an insertion used returns the inserted object and restores the old contents |
| Containers.PopUndoesPush | src/systems.js:88-93 | push then pop returns the pushed object and restores the contents |
| Containers.ShiftRight | src/systems.js:68-71 | the shifting loop moves slots k..n-1 up by one and leaves every other slot, including slot k, as it was |
| Containers.PermanentArray.constructor | src/systems.js:58-60 | a new array is empty with capacity 32 |
| Containers.PermanentArray.Grow | src/systems.js:64-67 | doubling the capacity keeps the contents and count |
| Containers.PermanentArray.InsertAt | src/systems.js:62-74 | the new contents are the old ones with obj inserted at the clamped index; capacity doubles exactly when the array was full and otherwise stays |
| Containers.PermanentArray.InsertWithRoom | src/systems.js:68-73 | with a free slot, shifting and storing gives the contents with obj inserted at the index, in the same array |
| Containers.PermanentArray.RemoveAt | src/systems.js:75-87 | returns the removed element, or nothing out of range, and leaves the contents with it removed; capacity never shrinks |
| Containers.PermanentArray.Push | src/systems.js:88-90 | the object is appended at the end; capacity never shrinks |
| Containers.PermanentArray.Pop | src/systems.js:91-93 | an empty array gives nothing and stays empty; otherwise the last element is returned and removed |
| Containers.PermanentArray.Clear | src/systems.js:94-99 | the contents become empty and capacity is kept |
| Containers.BoundaryPartitions | src/systems.js:110-122 | on a sorted queue the search slot splits it: all entries before it have key at least p, all after it a smaller key, so a newcomer goes behind its equals |
| Containers.InsertKeepsSorted | src/systems.js:122 | inserting at the search slot keeps a descending queue descending |
| Containers.RekeyKeepsSorted | src/systems.js:109 | rewriting the key of a node that is not queued keeps the queue's order |
| Containers.PushKeepsSorted | src/systems.js:108-123 | rekeying a not-yet-queued node and inserting it at the search slot keeps a sorted queue sorted |
| Containers.SortedBackIsMinimum | src/systems.js:124-126 | the back of a sorted queue holds a minimum key, so pop returns a minimum-priority node |
| Containers.PermanentPriorityQueue.constructor | src/systems.js:105-106 | a new queue is empty |
| Containers.PermanentPriorityQueue.FindSlot | src/systems.js:112-121 | the binary search ends at a slot whose predecessor's key is at least p and whose own key is below p |
| Containers.PermanentPriorityQueue.Push | src/systems.js:108-123 | the node's key becomes the priority and nothing else's; the node is inserted at the search slot; a sorted queue that did not hold the node stays sorted |
| Containers.PermanentPriorityQueue.Pop | src/systems.js:124-126 | an empty queue gives nothing; otherwise the back node is returned and removed, and no key changes |
| Containers.PermanentPriorityQueue.Empty | src/systems.js:127-129 | true exactly when nothing is queued |
| Geometry.BoxAround | src/game.js:92-97 | the square of half-side d around p contains p when d is non-negative |
| Geometry.OverlapsSymmetric | src/systems.js:236 | the strict box overlap test is symmetric |
| Geometry.OverlapsGrows | src/systems.js:236-237 | a box that contains a box overlapping q also overlaps q |
| Geometry.ContainedProperOverlaps | src/systems.js:236-237 | a box of positive extent inside the query box overlaps it, so the containment test implies the overlap test |
| Math3.MultiplyEntries | src/math.js:30-36 | entry (column j, row i) of the product is the sum over k of m1[3k+i]·m2[3j+k], the column-major matrix product |
| Math3.MultiplyComposes | src/math.js:2-5 | applying the product to a vector is applying m2 then m1 |
| Math3.TranslationMovesPoint | src/math.js:23-29 | the translation matrix moves a point by (x, y) |
| Math3.ScaleStretchesPoint | src/math.js:16-22 | the scale matrix stretches a point by x and y |
| Math3.TranslationsCompose | src/math.js:23-36 | the product of two translations is the translation by the summed offsets |
| Math3.ScalesCompose | src/math.js:16-36 | scale(a,b)·scale(c,d) is scale(a·c, b·d) |
| Math3.UnitScaleIsIdentity | src/math.js:16-36 | scale(1,1) is a left and a right identity of multiply |
| Math3.AngleDifference | src/math.js:52-58 | for angles in (−π, π] the difference lies in [0, π] and is 0 exactly for equal angles |
| Math3.AngleDifferenceSymmetric | src/math.js:52-58 | the difference does not depend on argument order |
| Math3.AngleAverage | src/math.js:60-71 | for angles in (−π, π] the average is again in (−π, π] |
| Math3.AngleAverageSymmetric | src/math.js:60-71 | the average does not depend on argument order |
| Math3.AngleAverageBisects | src/math.js:60-71 | the average is half the angle difference away from each of the two angles |
| Math3.LineFromTwoPointsRoundTrip | src/math.js:126-128 | the line packs [x1, y1, x2, y2]: its two points read back as the given points, and every line is the line through its own points |
| SpatialTree.LeafVisitedOnce | src/renderer.js:585-587 | a leaf is handed to the visitor exactly once, whatever the box |
| SpatialTree.TraverseAllIsLeaves | src/renderer.js:579-582 | with no box the walk visits every leaf, sub1's before sub2's |
| SpatialTree.TraverseVisitsLeaves | src/renderer.js:561-583 | whatever the box, the walk visits only leaves of the tree |
| SpatialTree.OverlappingLeaves | src/renderer.js:565 | the reference filter keeps exactly the leaves whose boxes strictly overlap the query box |
| SpatialTree.ClipInsideKeepsAll | src/renderer.js:566-567 | below a node inside the query box, clipping by overlap keeps every leaf |
| SpatialTree.ShortcutMatchesClip | src/renderer.js:564-578 | on a well-formed tree the containment shortcut visits the same leaves in the same order as clipping all the way down |
| SpatialTree.ShortcutMatchesClipChild | src/renderer.js:565-571 | the per-child step with the shortcut equals the per-child step of plain clipping |
| SpatialTree.ClipChildIsOverlapping | src/renderer.js:565-571 | clipping a child keeps exactly its leaves that overlap the box, in order |
| SpatialTree.QueryIsOverlappingLeaves | src/systems.js:232-254 | a box query on a well-formed tree returns exactly the leaves whose boxes strictly overlap the box, in tree order |
| SpatialTree.CollectedMembers | src/systems.js:286-301 | a visitor collects exactly the leaves of its kind: polygons for collect, edges for colliders and shadow casters, rectangles for path nodes |
| SpatialTree.ForEach | src/systems.js:232-258 | the walk appends to the array the leaves the visitor collects among those the query visits, in visiting order |
| SpatialTree.ForEachAll | src/systems.js:250-253 | with no box both children are walked, sub1's leaves appended first |
| SpatialTree.ForEachBranch | src/systems.js:235-249 | under a box each child goes through the per-child step, sub1 first |
| SpatialTree.ForEachChild | src/systems.js:236-242 | the per-child step appends what the overlap/containment rule visits below the child |
| SpatialTree.EdgeSegments | src/systems.js:292-298 | every edge leaf contributes its two vertices as a segment, and every segment comes from an edge leaf |
| SpatialTree.Uint16s | src/systems.js:283 | each index is reduced into [0, 65536) with the same residue, and values already in range are unchanged |
| SpatialTree.LeafFromJson | src/systems.js:280-301 | building a leaf fails exactly for an edge whose indices do not name vertices; a rectangle takes the next cell id, other kinds none |
| SpatialTree.NodeFromJsonKeepsBox | src/systems.js:269-272 | the built node's box is bbox[0..3] as left, right, bottom, top |
| SpatialTree.BranchFromJson | src/systems.js:274-279 | a built branch is the branch of its two built children, the second numbered after the first |
| SpatialTree.CellIdsConsecutive | src/systems.js:268-302 | the built tree's rectangles carry consecutive ids in tree order, from the first free id to the one returned |
| SpatialTree.GetPolygons | src/renderer.js:627-636 | when it succeeds, the result has one array per polygon node of the tree, and an array occurs in it exactly when some polygon node carries it |
| SpatialTree.GetPolygonsMatchesTree | src/renderer.js:627-636 | on a polygon tree the arrays come out as the built tree's polygon leaves in left-to-right order, one per leaf |
| Collision.CollidingMembers | src/game.js:107-116 | the colliders are exactly the candidates that hit the circle at the destination, never more than the candidates |
| Collision.CollidingConcat | src/game.js:110-114 | the filter keeps candidate order: it distributes over concatenation |
| Collision.FreeMeansNoHit | src/systems.js:368 | a destination is collision-free exactly when no candidate hits it |
| Collision.CheckCollision | src/systems.js:344-354 | the loop returns the filtered candidates at start + delta, in order |
| Collision.BestSlideMaximal | src/systems.js:361-375 | the saved length bounds every collision-free slide, is 0 while nothing is saved and positive once something is |
| Collision.BestSlideWitness | src/systems.js:361-375 | a saved slide is one collider's collision-free slide with that length, strictly longer than every earlier free slide |
| Collision.BestSlideChoice | src/game.js:121-137 | the selection keeps the longest collision-free slide, the earliest of equally long ones, never one of length 0; none exactly when no free slide has positive length |
| Collision.TryResolveCollision | src/systems.js:356-380 | returns the move when nothing collides at its destination, otherwise the selected slide or nothing |
| Collision.DeepestLineChoice | src/systems.js:391-399 | the fallback keeps the nearest point on the farthest collider line strictly within radius, the earliest among equals; none exactly when no line is within radius |
| Collision.TryResolveCollisionFallback | src/systems.js:382-411 | returns the push of length abs(delta) away from the selected line when it ends collision-free, otherwise nothing |
| Collision.ResolveCollision | src/systems.js:413-431 | collects candidates once, takes two half steps each from where the previous applied one ended, uses the fallback only when the slide step gives nothing, and returns the sum of applied steps |
| Collision.StepIsFree | src/systems.js:420-427 | every applied sub-step ends at a collision-free position |
| Collision.PositionIsStartPlusTotal | src/systems.js:424-427 | the position stays start plus the accumulated move |
| Collision.StepsStayFree | src/systems.js:419-428 | from a collision-free start every position the steps stop at is collision-free |
| Collision.UnobstructedMoveIsKept | src/game.js:173-190 | when both half-step destinations of the straight move are free, the whole move is returned |
| Collision.PotentialCollidersAreNearbyEdges | src/systems.js:336-342 | the candidates are exactly the edge leaves whose boxes overlap the square of half-side radius + abs(delta) around the start |
| Collision.SlideNoLonger | src/game.js:125-127 | with a normalize of norm at most one, a slide is never longer than the move |
| Collision.PushNoLonger | src/systems.js:403-404 | the fallback push is never longer than the move |
| Collision.StepNoLonger | src/systems.js:420-423 | no sub-step moves farther than the sub-step asked for |
| Collision.StepsNoLonger | src/systems.js:419-428 | after k sub-steps the accumulated move is at most k sub-step lengths |
| Collision.ResolveNoLonger | src/systems.js:413-431 | resolveCollision never moves the entity farther than the requested move |
| Navigation.MakeOverlapSymmetric | src/systems.js:451-464 | the overlap is the same whichever cell builds it, so both ends share it |
| Navigation.InsideOverlapIff | src/systems.js:451-456 | a point is in the overlap region exactly when it is in both cells |
| Navigation.OverlapIsProper | src/systems.js:451-460 | two overlapping proper cells have a proper overlap whose centre lies in both |
| Navigation.AxisTargetWithin | src/systems.js:541-549 | the per-axis target stays within the overlap, keeps the margin when it clamps and is the start coordinate when already inside the margins |
| Navigation.WaypointInsideBoth | src/systems.js:538-550 | for a non-negative radius the waypoint lies in the overlap and in both cells |
| Navigation.BuiltTreeIsNumbered | src/systems.js:268-302 | a tree built from id 0 numbers its cells 0, 1, … in walk order, as many as ids used |
| Navigation.Query | src/systems.js:477-479 | a path-node query returns only rectangle leaves |
| Navigation.QueriedCell | src/systems.js:446 | every cell a query returns is the cell its id names |
| Navigation.QueryIsOverlappingCells | src/systems.js:446 | on a well-formed tree a cell is returned exactly when its box strictly overlaps the query box |
| Navigation.NeighborListsStart | src/systems.js:438-442 | empty lists before any cell is processed satisfy the build invariant |
| Navigation.NeighborListsNext | src/systems.js:444-447 | finishing one cell's query results moves the invariant on to the next cell |
| Navigation.ConnectStep | src/systems.js:447-466 | meeting a new distinct cell appends each to the other's lists with the shared overlap; otherwise nothing changes, and the invariant holds either way |
| Navigation.CollectCells | src/systems.js:437 | the collected cells are the walk's path nodes in order |
| Navigation.InitializePathNodes | src/systems.js:435-467 | on exit the lists hold each cell's neighbours, duplicate-free, index-aligned with their overlaps |
| Navigation.ConnectCell | src/systems.js:445-466 | processing one cell handles all of its query results |
| Navigation.ConnectPair | src/systems.js:447-466 | handling one query result keeps the build invariant |
| Navigation.Connect | src/systems.js:461-464 | each of the two cells gets the other and the shared overlap appended, and nothing else changes |
| Navigation.NeighborRelation | src/systems.js:435-467 | the built neighbour relation is irreflexive and symmetric, and is exactly "either cell's query returned the other" |
| Navigation.NeighborsOverlap | src/systems.js:435-467 | on a well-formed tree two cells are neighbours exactly when they are distinct and overlap |
| Navigation.NeighborEntry | src/systems.js:493-495 | entry k of a cell's lists is another cell and the overlap of their boxes |
| Navigation.BuiltGraph | src/systems.js:435-467 | the built lists have the graph shape Dijkstra's loop relies on |
| Navigation.CandidateLength | src/systems.js:496-502 | a route's new length is never below the current cell's length, given non-negative distances |
| Navigation.LabelledAtStart | src/systems.js:441 | every cell at id 0, length 0 and no overlap is a consistent labelling for id 0 |
| Navigation.LabelledNewQuery | src/systems.js:474 | a fresh query id keeps the labels consistent and leaves every cell untagged |
| Navigation.SeedKeepsLabels | src/systems.js:484-486 | labelling a start cell with length 0 and no overlap keeps the labels consistent |
| Navigation.RelaxKeepsLabels | src/systems.js:506-511 | relabelling an untagged or strictly longer neighbour with a length at least the current cell's keeps the labels consistent |
| Navigation.SeedStep | src/systems.js:482-488 | seeding one more start cell extends the start labels by exactly that cell |
| Navigation.RelaxKeepsSeeds | src/systems.js:506-511 | relaxation never touches a start cell's label |
| Navigation.RelabelStep | src/systems.js:506-511 | one relaxation on the arena keeps label consistency and the start labels |
| Navigation.InsertKeepsLabelled | src/systems.js:510 | queueing a tagged cell keeps every queued cell tagged with the current id |
| Navigation.RelabelKeepsQueued | src/systems.js:507-509 | relabelling with the current id keeps every queued cell tagged |
| Navigation.PickCell | src/systems.js:522-530 | the chosen cell, if any, indexes the label columns |
| Navigation.PickCellChoice | src/systems.js:522-530 | no choice exactly when no cell whose interior contains the start carries the current id; otherwise a tagged cell of least length, with every earlier popped tagged cell strictly longer |
| Navigation.WaypointLeadsToNeighbour | src/systems.js:531-551 | the waypoint a reached cell gives lies inside that cell and inside a tagged, no longer neighbour it was reached from |
| Navigation.AllocateLabels | src/systems.js:317-318 | fresh untagged labels of length 0, and an empty reusable array and queue |
| Navigation.PathMap.constructor | src/systems.js:306-320 | builds the neighbour lists, starts with path_id 0 on the map and every cell, path_end at the origin, empty containers |
| Navigation.PathMap.ValidAtStart | src/systems.js:469-470 | the constructed state satisfies the map invariant |
| Navigation.PathMap.ConstructPathEndingAt | src/systems.js:473-514 | path_id grows by one, path_end is the goal, the cells whose interior contains it are exactly the start cells with length 0 and no overlap, labels stay consistent, the reusable array ends empty and the frontier is empty when the loop completes |
| Navigation.PathMap.SeedFrontier | src/systems.js:476-488 | all cells whose interior contains the goal are labelled as start cells and queued, and the reusable array ends empty |
| Navigation.PathMap.SeedNext | src/systems.js:482-488 | one more collected cell is popped, labelled as a start cell and queued |
| Navigation.PathMap.CollectInto | src/systems.js:479 | the reusable array gets the query's cells appended |
| Navigation.PathMap.TakeCollected | src/systems.js:483 | pops the last collected cell |
| Navigation.PathMap.Seed | src/systems.js:484-487 | only that cell's label changes, to the start label, and it is queued |
| Navigation.PathMap.Enqueue | src/systems.js:487 | the cell is inserted into the frontier, and every queued cell stays tagged |
| Navigation.PathMap.RunFrontier | src/systems.js:489-513 | Dijkstra's loop keeps the labels and start labels consistent; it completes exactly when the frontier is empty |
| Navigation.PathMap.Step | src/systems.js:490-512 | one pop and relaxation keeps every invariant |
| Navigation.PathMap.PopFront | src/systems.js:492 | pops the back cell, which carries the current id |
| Navigation.PathMap.Expand | src/systems.js:493-512 | relaxing all neighbours keeps every invariant |
| Navigation.PathMap.Relax | src/systems.js:494-511 | a neighbour is relabelled with the candidate length and the shared overlap, and queued, exactly when untagged or strictly longer; otherwise nothing changes |
| Navigation.PathMap.Relabel | src/systems.js:507-509 | only the neighbour's label changes, to the current id, the length and the shared overlap |
| Navigation.PathMap.GetMoveTargetFromPath | src/systems.js:516-554 | the target is the one the chosen cell gives: none when no tagged cell's interior contains the start, path_end for a start cell, else the waypoint in its overlap; the reusable array ends empty |
| Navigation.PathMap.PickNext | src/systems.js:522-530 | one more popped cell is folded into the least-length choice |

## Left out

- Drawing (`Map.draw`, `drawShadowMap`, `MapRenderer` and the WebGL code in `src/renderer.js`) is not modelled, because it is GPU I/O. Only the tree queries those functions make are modelled.
- `castShadow`, `projectPoint`, `sharpenShadow`, `linearizeImage`, `calculateTangent(s)`, `Matrix3.rotation` and the angle-based line helpers are not modelled. They rely on trigonometry and floating-point tolerances.
- `ResourceLoader`, `MovingEntity`, `Model` and `src/main.js` are not part of this model: asynchronous loading, physics integration, input and the frame loop.
- `Vector2`, `Vector4`, `BoundingBox`, `ObjectPool`, `lineSegmentCircleCollide`, `nearestPointAtLine` and `distanceBetweenTwoPoints` are not part of this model. The helpers are fields of the `Geometry` record:
  - the collision test;
  - `normalize`, `length` and the nearest point;
  - the distance, which is `length` of the difference.
  
  Their only assumed properties are in `Sound` and `NonNegativeLength`: length is non-negative and squares to the dot product, and normalize has norm at most one. `BoundingBox.fromPointAndDistance` is taken from the inline box in `src/game.js:92-97`.
- The array pool (`array_pool.get`, `releaseAll`) is left out. The collision code's pooled arrays are sequences.
- Numbers are reals. NaN, infinities and rounding are not modelled, and π is the constant 3.141592653589793.
- Navigation.PathMap.ConstructPathEndingAt: Dijkstra's loop runs for at most `fuel` pops, in place of the unbounded `while`. `completed` says whether the frontier ran empty. Shortest-path optimality of the labels is not stated; the labels are only proved consistent (`Labelled`).
- Navigation.PathMap.ConstructPathEndingAt: it requires the reusable array and the frontier to be empty on entry. The source's callers always leave them empty, but the source does not check it.
- Navigation.PathMap.GetMoveTargetFromPath: it requires an empty reusable array on entry, for the same reason.
- Containers.PermanentPriorityQueue.Push: sortedness is promised only when the node is not already queued, because of the key rewrite described above.
- Containers.PermanentPriorityQueue.FindSlot: `(start + end) >> 1` is written as division by 2. The two agree on the non-negative indices the search uses.
- Containers.PermanentArray.InsertAt: the index is an integer. A fractional index in JavaScript would not be clamped to a slot.
- The priority key column `priority_in_queue` is an array of the queue shared with the arena. It is not a field of the node.
- The per-cell fields `path_id`, `path_length` and `path_overlap` are one `Label` record per cell.
- SpatialTree.NodeFromJson: the source keeps object identity for rectangle leaves; the model gives each rectangle a cell id from a counter threaded through construction. The model also returns `None` where the source would fail or produce `undefined`:
  - a missing child;
  - a box with fewer than four entries;
  - an edge whose indices do not name vertices.
- SpatialTree.NodeFromJson: the `src/game.js` and `src/renderer.js` constructors are modelled by the `src/systems.js` one. The differences:
  - `game.js` keeps polygon values unwrapped and collects no path nodes.
  - `renderer.js` splits `EntityNode` and `PolygonNode`.
- SpatialTree.GetPolygons: the function returns `None` where the source would fail on a missing child. Its main contract is stated for trees shaped as the map compiler writes them (`PolygonTreeJson`).
- SpatialTree.ForEach: it requires every leaf to have the visitor method named. Calling a missing method is a run-time error in the source.
- Collision.StepsNoLonger: the bound is stated as `Repeated(k, l)`, the sum of k copies of l, not as `k * l`.
- Aliasing of JavaScript objects is not modelled. The overlap object shared by two cells is a value that is equal at both ends, and nodes are immutable values.
