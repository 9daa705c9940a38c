# CAD perimeter product, modelled in Dafny

CAD_perimeter_product takes a set of line segments in the plane. It splits
the segments at their crossings until no new crossing appears. It then picks
the "unique" cycles of the resulting planar graph and multiplies their
perimeters. This project models and proves the core of that pipeline:

- `geometry.dfy`, module `Geometry`: `edge_intersect` on exact reals. It
  computes the crossing of the two lines with the determinant formula,
  returns nothing for parallel lines, and keeps the crossing only if it lies
  in both bounding boxes.
- `make_graph.dfy`, module `MakeGraph`: `create_graph`, one refinement pass.
  The pass adds the input edges and lists each undirected edge once. It
  tests every pair `i < j` and records the point hit, the sub-edges to add
  and the edges to remove. A point that is not yet a node is added at once,
  and the flag is set to 3. All additions happen before all removals. The
  networkx graph is a value `Graph(nodes, edges)` with each undirected edge
  stored with its endpoints in ascending order. The intersection test is a
  parameter `meet`; `Geometry.EdgeIntersect` is the one the program uses.
  The pass is specified by a fold over the pairs (`PassSchedule`), and the
  nested loops are proved against it.
- `perimeter_cycles.dfy`, module `PerimeterCycles`:
  - `approximate_subset`, a consume-once match of `list1` against a copy of
    `list2`;
  - the filter loop of `find_unique_cycles`: a stable sort, longest first,
    followed by passes that append to a persistent `remove_cycles` list,
    until a pass removes nothing;
  - `calculate_perimeters`, with an abstract distance `dist`.
- `pipeline.dfy`, module `Pipeline`: the driver `perimeter_product`. Passes
  run while the flag `last_intersection` is not 0, and the edge list is
  re-canonicalised between passes. Then come the unique cycles of the final
  graph, their perimeters and the product.

## Model

| member | source | states |
|---|---|---|
| Geometry.Crossing | make_graph.py:29-31 | when the denominator is not 0, the point given by the determinant formula lies on both lines |
| Geometry.LinesMeetOnce | make_graph.py:24-31 | two non-parallel lines share at most one point, so the formula's point is the only candidate |
| Geometry.EdgeIntersect | make_graph.py:12-39 | returns None when the denominator is 0 (parallel edges); a returned point lies on both segments (on both lines and in both bounding boxes) |
| Geometry.EdgeIntersectFinds | make_graph.py:24-39 | completeness: a point that lies on both segments of a non-parallel pair is exactly what is returned |
| Geometry.EdgeIntersectSymmetric | make_graph.py:19-39 | swapping the two edges changes neither whether nor where they meet |
| Geometry.EdgeIntersectReversed | make_graph.py:19-39 | reversing the direction of an edge changes nothing, so the orientation networkx gives an edge does not matter |
| MakeGraph.Canon | main.py:58 | the stored form is canonical and is the edge itself or its reversal |
| MakeGraph.CanonUndirected | main.py:58 | two ordered edges have the same stored form if and only if they are the same undirected edge |
| MakeGraph.OriginalEdgesShape | make_graph.py:57-65 | the scanned edge list has no repeats, holds only canonical edges joining input endpoints, and as a set equals the canonical forms of the input edges |
| MakeGraph.CanonicalListScannedAsIs | make_graph.py:57-65 | a list that is already canonical and free of repeats is scanned in its own order (this is what the driver feeds back) |
| MakeGraph.AddInputEdges | make_graph.py:53-65 | after the first loop, the nodes are the input endpoints, the edges are the scanned list as a set, and the list is the canonical deduplicated input |
| MakeGraph.ScanPair | make_graph.py:69-96 | one pair (i, j) advances the state by that pair's schedule: the point joins the nodes, sub-edges and removals are recorded, and the set of intersections and the flag change only when the point is not yet a node |
| MakeGraph.AdvancesTwice | make_graph.py:67-96 | two successive steps of the scan compose into one step with the merged schedule |
| MakeGraph.ScanRow | make_graph.py:68-96 | the inner loop advances the state by the schedule of the pairs (i, j), j > i |
| MakeGraph.ScanPairs | make_graph.py:67-96 | the nested loops advance the state by the schedule of all pairs i < j |
| MakeGraph.SplitsEndpoints | make_graph.py:74-81 | every scheduled sub-edge joins a hit point to an endpoint of a scanned edge that is scheduled for removal, the point not being an endpoint of that edge |
| MakeGraph.AddEdges | make_graph.py:100-101 | adding the sub-edges leaves the nodes alone and adds exactly their canonical forms |
| MakeGraph.RemoveEdges | make_graph.py:105-106 | every removal finds its edge, and exactly the scheduled edges disappear |
| MakeGraph.CreateGraph | make_graph.py:45-108 | the graph is valid; its nodes are the input endpoints plus every hit point; its edges are the input edges plus the sub-edges minus the removed edges; the intersections grow by exactly the points that were not input endpoints; the flag is 3 exactly when there is such a point, and otherwise unchanged |
| MakeGraph.HitsExactly | make_graph.py:67-71 | a point is hit if and only if some pair i < j of scanned edges meets there |
| MakeGraph.CutsExactly | make_graph.py:74-81 | an edge is removed if and only if it belongs to a pair that meets at a point other than its own endpoints |
| MakeGraph.QuietExactly | make_graph.py:71-81 | the pass schedules no sub-edge, and likewise no removal, if and only if every meeting point of a pair is an endpoint of both edges |
| MakeGraph.NewPointSplitsBoth | make_graph.py:74-96 | a newly found node lies strictly inside both edges of its pair: both are removed and all four sub-edges are added |
| MakeGraph.QuietPassKeepsGraph | make_graph.py:45-108 | when no pair meets off the shared endpoints, the pass finds no new node and keeps exactly the canonical input edges |
| MakeGraph.HitsOnSegments | make_graph.py:67-71 | with the program's own intersection test, every hit point lies on two scanned segments |
| PerimeterCycles.FirstIndex | perimeter_cycles.py:26 | the position `list.remove` acts on holds the item, and no earlier position does |
| PerimeterCycles.RemoveFirst | perimeter_cycles.py:26 | dropping the first occurrence shortens the list by one and takes exactly one copy of the item out of its multiset |
| PerimeterCycles.MatchStep | perimeter_cycles.py:24-26 | one more item adds one match if and only if an unmatched occurrence is left |
| PerimeterCycles.MatchOne | perimeter_cycles.py:23-26 | the loop body keeps the count equal to the matches so far and the copy equal to list2 minus the items seen |
| PerimeterCycles.ApproximateSubset | perimeter_cycles.py:13-30 | needs a non-empty list1; the proportion is the size of the multiset intersection over the length of list1, lies in [0, 1], and the result holds if and only if the proportion reaches the threshold; list2 is a value and is left unchanged |
| PerimeterCycles.FullMatchExactly | perimeter_cycles.py:23-30 | the proportion is 1 if and only if list1 is a sub-multiset of list2, so a sub-multiset gives (True, 1.0) |
| PerimeterCycles.SameSizeSubMultiset | perimeter_cycles.py:23-29 | a sub-multiset of the same size is the whole multiset (the converse direction of the full match) |
| PerimeterCycles.InsertByLength | perimeter_cycles.py:41 | inserting adds exactly that cycle |
| PerimeterCycles.InsertSorted | perimeter_cycles.py:41 | inserting into a list ordered longest first keeps it ordered |
| PerimeterCycles.SortByLength | perimeter_cycles.py:41 | the sorted list is a permutation of the input, longest first |
| PerimeterCycles.InsertKeepsOrder | perimeter_cycles.py:41 | an inserted cycle goes in front of the cycles of its own length |
| PerimeterCycles.SortIsStable | perimeter_cycles.py:41 | the sort is stable: for every length, the cycles of that length keep their input order |
| PerimeterCycles.FindCovered | perimeter_cycles.py:50-58 | the inner loop finds a partner exactly when some not-yet-removed cycle j, different from i, is matched in i at 80% or has its node set inside that of i |
| PerimeterCycles.RemovalPass | perimeter_cycles.py:47-58 | one pass appends cycle after cycle as specified by `PassRemovals`, so a removal is seen by the later tests of the same pass; stop_flag becomes the list length unless the list is empty |
| PerimeterCycles.WithoutMembers | perimeter_cycles.py:61 | the filter keeps exactly the cycles not in remove_cycles |
| PerimeterCycles.WithoutLength | perimeter_cycles.py:61-64 | the filter never lengthens the list; it shortens it if and only if some cycle of it is in remove_cycles, and otherwise returns it unchanged |
| PerimeterCycles.WithoutTwice | perimeter_cycles.py:61 | filtering the filtered list by the grown remove_cycles is filtering the sorted list once |
| PerimeterCycles.WithoutKeepsOrder | perimeter_cycles.py:61 | the filter keeps the longest-first order |
| PerimeterCycles.PassGrows | perimeter_cycles.py:43-55 | remove_cycles only grows, by appending cycles of the list |
| PerimeterCycles.PassWitness | perimeter_cycles.py:51-55 | after any step, either nothing was appended or some cycle of the list is still not removed |
| PerimeterCycles.PassKeepsSurvivor | perimeter_cycles.py:47-61 | a pass over a non-empty list never removes every cycle |
| PerimeterCycles.QuietPrefix | perimeter_cycles.py:47-58 | if nothing was appended in the first k steps, none of those cycles had a partner |
| PerimeterCycles.QuietPassNoCover | perimeter_cycles.py:46-58 | after a pass that removes nothing, no two cycles of the list stand in the removal relation |
| PerimeterCycles.PassShrinks | perimeter_cycles.py:55-64 | a pass that removes something strictly shortens the list |
| PerimeterCycles.MutualPairKeepsSecond | perimeter_cycles.py:50-55 | in a pass over a list of just two cycles that each qualify against the other, the first one tested is removed and the second is kept |
| PerimeterCycles.PassStep | perimeter_cycles.py:46-64 | one pass plus the filter keeps the list equal to the sorted input minus remove_cycles, never empties a non-empty list, and, when the length is unchanged, removed nothing and leaves the list as it was and free of removable pairs |
| PerimeterCycles.RefineSettles | perimeter_cycles.py:46-65 | the list the passes settle on is the sorted list minus some removed cycles, is empty only if the list it started from was, and has no cycle that may be dropped in favour of another |
| PerimeterCycles.FindUniqueCycles | perimeter_cycles.py:41-67 | the loop terminates; the result is exactly `Refine` of the stably sorted input: passes, each appending to remove_cycles what it drops, repeated until a pass drops nothing; it is ordered longest first, drawn from the input, empty exactly when the input is, and no two of its cycles stand in the removal relation |
| PerimeterCycles.CyclePerimeter | perimeter_cycles.py:108-112 | the running sum is the sum of dist over the wrap-around sides of the cycle |
| PerimeterCycles.SumStep | perimeter_cycles.py:112 | adding the next side to the running sum gives the sum of one more side |
| PerimeterCycles.CalculatePerimeters | perimeter_cycles.py:99-118 | one perimeter per cycle, in order; the product is the product of the perimeters, and 1 for no cycles |
| PerimeterCycles.Sides | perimeter_cycles.py:109-112 | a cycle of n nodes has n sides |
| PerimeterCycles.SideAt | perimeter_cycles.py:110-111 | side k runs from node k to the next node, and the last side runs back to the first node |
| PerimeterCycles.WrapAround | perimeter_cycles.py:111 | the modular index wraps the last node to the first |
| PerimeterCycles.RotatedSides | perimeter_cycles.py:109-112 | starting the cycle one node later moves its first side to the end |
| PerimeterCycles.SumFront | perimeter_cycles.py:108-112 | summing from the front gives the same result as the running sum |
| PerimeterCycles.PerimeterRotation | perimeter_cycles.py:107-113 | the perimeter does not depend on the node a cycle starts from |
| PerimeterCycles.SumBackwards | perimeter_cycles.py:108-112 | summing the sides in the opposite order gives the same total |
| PerimeterCycles.BackwardsSideAt | perimeter_cycles.py:109-111 | in the reversed cycle, side k runs from node n-1-k to the node before it, and the last side from the first node to the last |
| PerimeterCycles.ReversedSides | perimeter_cycles.py:109-112 | with a symmetric distance, the reversed cycle has the same sides, all but the last in reverse order |
| PerimeterCycles.PerimeterReversal | perimeter_cycles.py:107-113 | with a symmetric distance, the perimeter does not depend on the direction in which the cycle is listed |
| PerimeterCycles.SumNonNegative | perimeter_cycles.py:108-112 | a sum of non-negative sides is non-negative |
| PerimeterCycles.PerimeterNonNegative | perimeter_cycles.py:107-113 | a non-negative distance gives non-negative perimeters |
| PerimeterCycles.ProductRemove | perimeter_cycles.py:116 | the product is any one item times the product of the others |
| PerimeterCycles.PermutationRest | perimeter_cycles.py:116 | taking matching items out of two lists with the same items leaves two lists with the same items |
| PerimeterCycles.ProductOfPermutation | perimeter_cycles.py:116 | the product does not depend on the order in which the cycles come |
| Pipeline.RunningPrefix | main.py:54 | a run that kept going after every pass also kept going on each of its prefixes |
| Pipeline.CounterRange | main.py:52-59 | at the head of the loop last_intersection is 0, 1 or 2, and it is 2 exactly after a pass that found a new node |
| Pipeline.ExitExactly | main.py:54-59 | the loop stops after a pass if and only if that pass is the first and found nothing, or it is the second quiet pass after a discovery |
| Pipeline.QuietFirstPass | main.py:51-59 | if the first pass finds no new node, exactly one pass runs |
| Pipeline.TwoMorePasses | main.py:54-59 | after a pass that finds a new node, at least two more passes run |
| Pipeline.LastPassQuiet | main.py:54-59 | the last pass of a run that stopped found no new node |
| Pipeline.EdgeListOf | main.py:58 | the edge list for the next pass has no repeats, holds only canonical edges, and as a set is the canonical forms of the graph's edges |
| Pipeline.FedBackScannedAsIs | main.py:56-58 | every pass after the first scans its list in that list's own order, and scans exactly the edges the previous pass left |
| Pipeline.CanonicalEdgesKept | main.py:58 | the graph's edges are already canonical, so the next list holds exactly the graph's edges |
| Pipeline.AccumulatedGrows | main.py:53-56 | the intersection set is never reset: the points of earlier passes remain after later ones |
| Pipeline.NextPass | main.py:54-60 | one more pass keeps the record of passes consistent, updates the flag as the loop does, and adds that pass's new points to the intersections |
| Pipeline.QuietInputOnePass | main.py:51-59 | an input whose edges meet only at shared endpoints is refined in a single pass |
| Pipeline.PerimeterProduct | main.py:42-75 | each pass runs create_graph on the current list; the first pass scans the input, and every later pass scans a canonical, repeat-free list holding exactly the edges of the graph the previous pass built; the loop stops exactly when the flag reaches 0; the result holds the last pass's graph, its edge list, every intersection found, the unique cycles of that graph as `FindUniqueCycles` computes them, their perimeters and their product |

## Left out

- Geometry.EdgeIntersect: the source rounds the denominator and the coordinates to six digits and turns whole numbers into integers (make_graph.py:25, 30-33). The model computes with exact reals, so results that depend on rounding are not captured.
- PerimeterCycles.CalculatePerimeters: the Euclidean distance (`math.sqrt`) and the rounding of each side, each perimeter and the product (perimeter_cycles.py:112-116) are replaced by a parameter `dist`. `PerimeterNonNegative` assumes that `dist` is non-negative, and `PerimeterReversal` that it is symmetric, as the Euclidean distance is.
- MakeGraph.CreateGraph: networkx lists the graph's edges node by node, in the order the nodes were added, each edge once and starting from whichever of its endpoints was added first. The model scans the distinct canonical edges in order of first occurrence. For the program's own test the pass schedules the same sets either way (`EdgeIntersectSymmetric`, `EdgeIntersectReversed`), but the order in which points join the node set is not modelled.
- networkx itself (`nx.Graph`, `add_edge`, `add_node`, `remove_edge`) is a node set and a set of undirected edges. `nx.simple_cycles` (perimeter_cycles.py:40) is a parameter `simpleCycles` of the driver, and `FindUniqueCycles` takes the list of cycles as its input.
- PerimeterCycles.FindUniqueCycles: cycles are compared exactly as lists, as the source does. No deduplication of rotated or mirrored copies takes place before the filter.
- PerimeterCycles.ApproximateSubset: the threshold 0.8 is an exact real, so the floating-point comparison of `count / len(list1)` with 0.8 is not modelled.
- Pipeline.PerimeterProduct: termination of the refinement loop depends on geometry and is not proved. A `fuel` bound limits the number of passes, and `None` means the bound was reached.
- The printing (main.py:55, 61-73) is left out. The sorted node list of main.py:57 is never returned and is left out. The `iteration` counter is kept; it equals one more than the number of passes.
- The command line, the preset edge catalogue and the input parsing (main.py:18-39, 78-103) are left out; the driver takes the edge list as a value.
- The unreachable code after the `return` in `find_unique_cycles` (perimeter_cycles.py:71-94) is not modelled.
- The numeric results documented for the presets depend on floating point and on the cycle enumeration order, and are not stated.
- PerimeterCycles.MutualPairKeepsSecond: stated only for a pass over the two cycles alone. A cycle already in `remove_cycles` can no longer cause a removal (perimeter_cycles.py:51), so the first cycle of a mutual pair cannot remove the second. A third cycle still can, so in a longer list both cycles of a mutual pair may be removed in the same pass, and the lemma does not cover that case.
