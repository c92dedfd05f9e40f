# Verified models of the RDK's stateful core

This project models five parts of the robot development kit that keep non-trivial state over
unbounded runs, and proves what each of them relies on.

- **The resource dependency graph.** Two mirrored adjacency maps and a "transitive closure matrix"
  whose entries are path counts, changed in place by adding and subtracting products while the maps
  are iterated in arbitrary order. `DependencyPaths.dfy` defines paths and what it means that there
  are exactly `n` of them, independently of any matrix; `ResourceGraph.dfy` is the mutable graph, for
  entries of any width; `GraphRuns.dfy` covers whole runs; `Words.dfy` and `IntegerWidth.dfy` cover
  the 64-bit entries.
- **The RRT\*-Connect and Dubins-RRT trees, and the path smoother.** `Forest.dfy` holds what parent
  maps have in common; `RrtStar.dfy` and `RrtConnect.dfy` are the bidirectional planner, whose
  recorded costs go stale when a node is rewired, and `RrtRuns.dfy` its runs; `DubinsRrt.dfy` is the
  planner that propagates every change, and `DubinsRuns.dfy` its runs; `Smoothing.dfy` is the random
  shortcut loop; `PlanCost.dfy` and `EuclideanDistance.dfy` are the cost of a plan and the default
  metric; `Selection.dfy` picks the nearest neighbours.
- **The octree point cloud.** `OctreeModel.dfy` is the tree as a value; `OctreeRuns.dfy` compares it
  with a plain map from points to data; `OctreeIteration.dfy` is batched iteration; `Octree.dfy` is
  the tree of mutable objects, proved to act as the value does.
- **The frame system and the solver frame.** `Poses.dfy` takes a pose as an element of any group;
  `FrameTree.dfy` is the tree as a value; `FrameSystem.dfy` the mutable system; `FramePoses.dfy` says
  what merging and dividing do to poses; `SolverFrame.dfy` is the frame that inverse kinematics
  solves for.
- **The segmentation of a binary image.** `Segmentation.dfy`.

Map iteration, sampling, unstable sorting and cancellation are arbitrary: they are `:|` choices or
parameters, so each contract holds for every order and every choice. `checkPath`, `checkInputs`, the
distance and the Dubins path lengths are arbitrary functions; the distance must be non-negative and
symmetric, and for smoothing a metric that is additive along an interpolated segment.
`EuclideanDistance.EuclideanFits` proves that the default distance has all of these properties.

## What does not hold

Four promises fail in the code as it stands. Each is kept as the code has it, with a witness or the
exact condition under which the promise holds.

- The matrix entries are 64-bit integers. The check for cycles is right if and only if the number of
  paths it reads is not a positive multiple of 2^64 (`IntegerWidth.CheckIsRight`); up to the first
  edge for which it is not, a 64-bit graph does what an exact one does (`IntegerWidth.Run64`). A chain
  of 64 diamonds has 2^64 paths: built call by call, it makes the graph accept an edge that closes a
  cycle (`IntegerWidth.CycleAccepted`).
- Unlinking two nodes that are not linked corrupts the counts. They stay exact if and only if the edge
  is there or one of the two names is not a node (`ResourceGraph.Graph.RemoveChildren`). Linking a
  child that is not a node loses the invariant as well (`ResourceGraph.Graph.AddChildren`).
- Overwriting a stored point below an inner octree node counts it again. Sizes stay exact if and only
  if that does not happen (`OctreeModel.SetSizes`). Batched iteration is right all the same, except
  that a single filled leaf is visited by every batch (`OctreeIteration.BatchesCoverOnce`).
- The segmentation scans coordinates from zero up to the size of the image, whatever its bounds are.
  It finds exactly the components that meet this window, which is all of them when the bounds start
  at the origin (`Segmentation.SegmentBinaryImage`); `Segmentation.OffsetImageMisses` is an image
  where it finds none.

Where the code and its comments disagree the model follows the code: `TopologicalSort` is described
as listing the nodes with the fewest edges first but lists dependents before what they depend on; the
comment on the default distance speaks of a square but the code returns the norm itself. The goal
half of an RRT plan is travelled against the direction in which its links were checked, so
`RrtRuns.GoodPlanReaches` claims each step in one direction only.

## Model

| member | source | states |
|---|---|---|
| DependencyPaths.CountsUnique | resource/resource_graph.go:13 | the number of paths is a function of the edges and the two ends, so a matrix entry can have only one right value |
| DependencyPaths.CountsPositive | resource/resource_graph.go:468-476 | the count is non-zero exactly when one name depends on the other, directly or not |
| DependencyPaths.UsesOnce | resource/resource_graph.go:305-311 | when the parent does not depend on the child, no path takes the new edge twice: it splits into a path to the child and a path from the parent |
| DependencyPaths.JoinsSize | resource/resource_graph.go:305-311 | pairs of paths joined across an edge are as many as the product of the two numbers, since each joined path splits in one way |
| DependencyPaths.PathsThroughEdge | resource/resource_graph.go:305-319 | the paths with an edge are the paths without it plus the joined pairs, each exactly once |
| DependencyPaths.CountsAddEdge | resource/resource_graph.go:305-311 | linking adds, between any two names, the product of the path counts to the child and from the parent |
| DependencyPaths.CountsRemoveEdge | resource/resource_graph.go:313-319 | unlinking takes away the same product although it is computed with counts that still include the edge |
| DependencyPaths.AcyclicAddEdge | resource/resource_graph.go:278-296 | a new edge keeps the graph acyclic if and only if the parent does not already depend on the child |
| DependencyPaths.SomeLeaf | resource/resource_graph.go:95-105 | every non-empty finite acyclic graph has a node on which nothing depends |
| DependencyPaths.CountsRenamed | resource/resource_graph.go:237-262 | giving a node a fresh name keeps the number of paths between any two nodes |
| ResourceGraph.EntryCounts | resource/resource_graph.go:214-228 | an entry that is read, present or missing, stale column or not, is the exact number of paths |
| ResourceGraph.ShiftedAddsEdge | resource/resource_graph.go:305-311 | adding the products turns the exact matrix into the exact matrix of the graph with the edge |
| ResourceGraph.ShiftedRemovesEdge | resource/resource_graph.go:313-319 | subtracting them turns it into the exact matrix of the graph without the edge |
| ResourceGraph.RemovingAbsentEdge | resource/resource_graph.go:298-303 | whatever the in-place loop does, in any order and also when the names are equal or the parent depends on the child: taking away an edge that is not there leaves the matrix exact if and only if one of the names is not a node |
| ResourceGraph.WithNodeFits | resource/resource_graph.go:214-228 | a new node gets exact entries, including those it takes over from the stale column of a deleted node of the same name |
| ResourceGraph.WithoutRowFits | resource/resource_graph.go:321-342 | dropping the row of a name without edges leaves its column behind holding only zeros |
| ResourceGraph.CycleCheck | resource/resource_graph.go:278-296 | the one matrix entry that is read decides whether the edge would close a cycle |
| ResourceGraph.Graph.constructor | resource/resource_graph.go:25-32 | the empty graph satisfies the invariant: exact counts, mirrored maps, no empty sets, no cycle |
| ResourceGraph.Graph.ShiftClosure | resource/resource_graph.go:305-319 | the in-place double loop, over any iteration order and for entries of any width: when the parent does not depend on the child it gives what the update computed from the old matrix would give, and in every case the entry between the two is computed from itself |
| ResourceGraph.Graph.AddTransitiveClosure | resource/resource_graph.go:305-311 | the same of the sum for a new edge |
| ResourceGraph.Graph.RemoveTransitiveClosure | resource/resource_graph.go:313-319 | the same of the difference for an edge |
| ResourceGraph.ImageShifts | resource/resource_graph.go:305-319 | the update in the arithmetic of the entries is the exact update reduced to their width |
| ResourceGraph.ImageWithNode | resource/resource_graph.go:214-228 | adding a row to the reduced matrix is adding it to the exact matrix and reducing |
| ResourceGraph.Graph.FillRows | resource/resource_graph.go:220-226 | the double loop of `addNode` gives every row a column for every row, keeping the entries there are |
| ResourceGraph.Graph.AddNode | resource/resource_graph.go:214-228 | adds or revalues one node, keeps every edge, and keeps exact counts exact |
| ResourceGraph.Graph.AddChildren | resource/resource_graph.go:278-296 | accepts an edge exactly when the graph stays acyclic, says which of the two errors otherwise and then changes nothing, creates a missing parent without a value, and keeps the counts exact unless the child is not a node, when the invariant is lost |
| ResourceGraph.Graph.Link | resource/resource_graph.go:278-296 | the same for entries of any width: refuses an edge exactly when the reduced count is not zero, and after an accepted edge that keeps the graph acyclic the matrix is the exact one reduced |
| ResourceGraph.Graph.RemoveChildren | resource/resource_graph.go:298-303 | takes exactly this edge away; the counts stay exact if and only if the edge was there or one of the names is not a node |
| ResourceGraph.Graph.Unlink | resource/resource_graph.go:298-303 | the same for entries of any width |
| ResourceGraph.Graph.Remove | resource/resource_graph.go:321-342 | removes the node and exactly the edges that touch it, keeps the counts exact, and does nothing for a name that is not there |
| ResourceGraph.Graph.Erase | resource/resource_graph.go:321-342 | the same for entries of any width |
| ResourceGraph.Graph.RemoveClosureOf | resource/resource_graph.go:322-327 | the two loops leave the exact counts of the graph without the node, reduced to the width of the entries, although the adjacency maps still hold its edges |
| ResourceGraph.Graph.StripAll | resource/resource_graph.go:328-337 | a node leaves every set of an adjacency map and no emptied set stays behind |
| ResourceGraph.Graph.GetAllChildrenOf | resource/resource_graph.go:34-45 | exactly the direct dependents of a node |
| ResourceGraph.Graph.GetAllParentOf | resource/resource_graph.go:47-58 | exactly what a node directly depends on |
| ResourceGraph.Graph.Clone | resource/resource_graph.go:60-121 | a new graph with the same nodes and edges that satisfies the invariant on its own |
| ResourceGraph.Graph.IsNodeDependingOn | resource/resource_graph.go:468-476 | answers whether both names are nodes and one is, or depends directly or transitively on, the other |
| ResourceGraph.Graph.Leaves | resource/resource_graph.go:95-105 | each node on which nothing depends, once; none only if the graph is empty |
| ResourceGraph.Graph.TopologicalSort | resource/resource_graph.go:433-447 | terminates; lists every node once, dependents before what they depend on; the graph is unchanged |
| ResourceGraph.SortedByReach | resource/resource_graph.go:433-447 | in such an order every node comes after everything that depends on it, however indirectly |
| ResourceGraph.Graph.ReverseTopologicalSort | resource/resource_graph.go:450-456 | the same order backwards |
| ResourceGraph.DismantleStep | resource/resource_graph.go:479-493 | a membership test against the partly dismantled copy gives the answer of the original graph |
| ResourceGraph.Graph.SubGraphFrom | resource/resource_graph.go:479-493 | exactly the induced sub-graph on the nodes that depend, directly, transitively or trivially, on the given one; an error exactly when that is no node |
| ResourceGraph.Graph.RenameNode | resource/resource_graph.go:237-262 | past the two checks it cannot fail; the edges are the old ones renamed, and every path count carries over |
| ResourceGraph.RenamedMatrix | resource/resource_graph.go:237-262 | two exact matrices of graphs that differ by a renaming agree entry by entry |
| ResourceGraph.Graph.MergeRemove | resource/resource_graph.go:352-361 | removes exactly the common nodes and the edges that touch them |
| ResourceGraph.MergeStepEdges | resource/resource_graph.go:364-383 | since nodes arrive after their dependents, replacing one loses no edge that an earlier step added |
| ResourceGraph.Graph.MergeAdd | resource/resource_graph.go:364-383 | on success every added node with its value and every added edge is there, a replaced node lost only its own old edges, and the counts are exact; with replaced nodes or without, it succeeds exactly when the edges after each step, in the topological order used, are acyclic, and always when every added node replaces an old one; a failure means that the union of the edges is cyclic, and leaves only old and added nodes and edges |
| ResourceGraph.AllReplaced | resource/resource_graph.go:364-383 | while every merged node replaces an old one the merged edges stay acyclic |
| ResourceGraph.ApartAcyclic | resource/resource_graph.go:364-383 | two acyclic graphs on different names are acyclic together |
| GraphRuns.Run | resource/resource_graph.go:214-383 | up to the first call outside the domain of the invariant, every sequence of calls, merges and renamings included, takes the graph through a run of a plain graph of nodes and edges, with exact path counts in the end |
| GraphRuns.Step | resource/resource_graph.go:214-383 | one call does to the graph what it does to the plain graph; only a merge can stop halfway, and only one that meets a cycle at some step of a topological order |
| Words.UpdateWraps | resource/resource_graph.go:305-319 | a 64-bit update of wrapped entries is the wrapped unbounded update, for both signs |
| IntegerWidth.EntryTestRight | resource/resource_graph.go:468-476 | the test of a wrapped entry against zero is right if and only if the count is zero or no multiple of 2^64 |
| IntegerWidth.CheckIsRight | resource/resource_graph.go:279-287 | the 64-bit check accepts exactly the edges that keep the graph acyclic if and only if the count it reads is not a positive multiple of 2^64 |
| IntegerWidth.Step64 | resource/resource_graph.go:214-342 | one call on a 64-bit graph does what it does to the plain graph, and the matrix stays the exact one reduced |
| IntegerWidth.Run64 | resource/resource_graph.go:214-342 | in every run that links no two nodes with a positive multiple of 2^64 paths back, a 64-bit graph does what the plain graph does |
| IntegerWidth.DiamondsCount | resource/resource_graph.go:305-311 | a chain of k diamonds has exactly 2^k paths |
| IntegerWidth.DiamondsAcyclic | resource/resource_graph.go:278-296 | a chain of diamonds has no cycle |
| IntegerWidth.BuildDiamonds | resource/resource_graph.go:214-296 | a 64-bit graph reaches the chain of k diamonds call by call |
| IntegerWidth.CycleAccepted | resource/resource_graph.go:278-296 | after 64 diamonds it accepts an edge that closes a cycle |
| Forest.Relink | motionplan/rrtStarConnect.go:224-234 | moving a node below another closes no cycle when some quantity that never falls from parent to child is larger at the node |
| Forest.Climb | motionplan/rrt.go:161-191 | following parents terminates and gives the one chain from a node to its root |
| PlanCost.EvaluatePlan | motionplan/utils.go:43-52 | the loop gives the length of the plan, and infinity for fewer than two steps |
| PlanCost.LengthConcat | motionplan/utils.go:43-52 | the length of two joined plans is the sum of both and the step between them |
| PlanCost.LengthReversed | motionplan/rrt.go:161-191 | turning a chain around keeps its length under a symmetric distance |
| Selection.Smallest | motionplan/nearestNeighbor.go:31-54 | the k items of smallest key, or all, sorted and each once, with no item left out that has a smaller key |
| RrtStar.KNearestNeighbors | motionplan/nearestNeighbor.go:31-54 | the neighbours through which the target is reached most cheaply by recorded cost, whatever the iteration order |
| RrtStar.NearestByCost | motionplan/nearestNeighbor.go:31-54 | no node that is not chosen has a smaller sum of distance to the target and recorded cost |
| RrtStar.AttachKeeps | motionplan/rrtStarConnect.go:209-215 | attaching a target keeps the tree invariant: a forest, roots at cost 0, each recorded cost at least the parent's plus the distance, each link accepted from parent to child |
| RrtStar.RewireKeeps | motionplan/rrtStarConnect.go:224-234 | rewiring keeps that invariant although the costs below the node go stale, and never moves a root |
| RrtStar.ChainLength | motionplan/rrtStarConnect.go:185-237 | the real way from a node to its root is no longer than its recorded cost |
| RrtStar.RewiredStep | motionplan/rrtStarConnect.go:217-235 | one round of the rewiring loop changes one neighbour, and only if that is cheaper and accepted |
| RrtStar.RewiredKeeps | motionplan/rrtStarConnect.go:217-235 | moving all improving neighbours keeps the invariant and the roots |
| RrtStar.ExtendsKeeps | motionplan/rrtStarConnect.go:185-237 | every way to extend a tree keeps the invariant and the roots and adds at most the target |
| RrtStar.ChooseParent | motionplan/rrtStarConnect.go:196-213 | the first acceptable neighbour is the cheapest acceptable one; none exactly when none is acceptable |
| RrtStar.RewireAll | motionplan/rrtStarConnect.go:217-235 | exactly the neighbours that are better off below the new node are rewired, the chosen parent excepted; roots and nodes stay |
| RrtStar.Extend | motionplan/rrtStarConnect.go:185-237 | keeps the invariant and the roots; fails, changing nothing, exactly when the target is invalid or no neighbour reaches it; otherwise adds one node below the cheapest such neighbour and rewires the rest |
| RrtStar.ExtendsCost | motionplan/rrtStarConnect.go:205-215 | an added target hangs below a neighbour that reaches it, at the recorded cost of the neighbour plus the distance |
| RrtConnect.ExtractPath | motionplan/rrt.go:161-191 | terminates with the chain from a root of the first tree through the pair to a root of the second, whichever way round the pair is |
| RrtConnect.PathLength | motionplan/rrt.go:149-159 | the real length of a path through a pair is at most the sum of the two recorded costs |
| RrtConnect.PathIsGood | motionplan/rrt.go:161-191 | every step of the path is a tree link accepted by the path check |
| RrtConnect.ShortestPath | motionplan/rrt.go:107-120 | the plan goes through the first of the pairs with the least sum of recorded costs; its real length is at most the recorded sum of every pair; fails exactly when there is no pair |
| RrtConnect.InitRRTSolutions | motionplan/rrt.go:65-105 | the seed and the solutions are the only roots; planning ends at once exactly when a near-optimal solution can be reached directly, with the first such |
| RrtRuns.GoodPlanReaches | motionplan/rrt.go:161-191 | a good plan leads from the seed to a solution, each step accepted in one direction |
| RrtRuns.RunInvariant | motionplan/rrtStarConnect.go:135-181 | in every state of every run both trees satisfy the invariant, with the seed and the solutions as the only roots |
| RrtRuns.SharedStay | motionplan/rrtStarConnect.go:150-163 | every pair of a run is in both trees of every later state, below a root, with one configuration |
| RrtRuns.HalfwayMet | motionplan/rrtStarConnect.go:121-163 | when the seed and every solution reach the first target, the first iteration finds a pair |
| RrtRuns.PlanIsUnique | motionplan/rrt.go:107-120 | the two trees and the pairs determine the plan |
| RrtRuns.NotYetClose | motionplan/rrtStarConnect.go:164-173 | a checked plan that is not close to the optimum does not end the run |
| RrtRuns.Iterate | motionplan/rrtStarConnect.go:150-163 | one iteration extends a run by a step, and finds a pair exactly if both trees were extended to the target |
| RrtRuns.Run | motionplan/rrtStarConnect.go:100-183 | for all samples and any cancellation: it fails without solutions; the first near-optimal solution in direct reach, all before it being near-optimal and out of reach, is the plan; otherwise the trees go through a run, and the answer belongs to it: the plan through the first cheapest pair, from seed to solution, no longer than the recorded sum of any pair of the run; it stops at the first checked iteration whose plan is close to the optimum, and before the last iteration nowhere else unless cancelled; no plan only if the whole run, or the run up to the cancellation, found no pair; when seed and solutions reach the first target there is a plan |
| Smoothing.Detour | motionplan/motionPlanner.go:282-321 | going directly is no longer than going through any steps in between |
| Smoothing.ShortcutLength | motionplan/motionPlanner.go:302-318 | cutting between two interpolated points never lengthens the plan |
| Smoothing.ShortcutSafe | motionplan/motionPlanner.go:311-318 | what holds of accepted segments and of every part of a segment still holds of every step |
| Smoothing.SmoothPath | motionplan/motionPlanner.go:282-321 | for all random choices, iteration counts and cancellations: ends kept, never two steps or fewer, never longer, still safe; the result comes from the plan by that many steps, each of which changes nothing or replaces what lies between two interpolated points by an accepted segment |
| EuclideanDistance.Cauchy | motionplan/plannerOptions.go:66-74 | the Cauchy-Schwarz inequality for joint configurations of any dimension |
| EuclideanDistance.TriangleAt | motionplan/plannerOptions.go:66-74 | the default distance satisfies the triangle inequality |
| EuclideanDistance.AdditiveAt | referenceframe/primitives.go:68-74 | the default distance is additive along an interpolated segment |
| EuclideanDistance.EuclideanFits | motionplan/plannerOptions.go:66-74 | the default distance has every property that planner and smoother ask for |
| DubinsRrt.RecordedIsExact | motionplan/dubinsRRT.go:131-187 | the recorded length of a node is exactly the sum of the links on its way to the seed |
| DubinsRrt.BelowSplits | motionplan/dubinsRRT.go:215-225 | the child lists lead to exactly the nodes below a node |
| DubinsRrt.BelowApart | motionplan/dubinsRRT.go:215-225 | the recursion over child lists meets no node twice |
| DubinsRrt.ConnectKeeps | motionplan/dubinsRRT.go:131-149 | connecting keeps the invariant: a tree on the seed, child lists the inverse of the parents, exact lengths |
| DubinsRrt.RerouteForest | motionplan/dubinsRRT.go:151-187 | with non-negative lengths a reroute that shortens the way closes no cycle and never moves the seed |
| DubinsRrt.LoweredIsExact | motionplan/dubinsRRT.go:181-184 | taking the gain off everything below the node makes all lengths exact again |
| DubinsRrt.RerouteKeeps | motionplan/dubinsRRT.go:151-187 | a whole reroute, child lists included, keeps the invariant |
| DubinsRrt.ReroutesAllKeeps | motionplan/dubinsRRT.go:154-186 | rerouting any neighbours one after the other keeps the invariant and the nodes |
| DubinsRrt.Tree.constructor | motionplan/dubinsRRT.go:95-102 | the tree of the seed alone satisfies the invariant |
| DubinsRrt.Tree.UpdateChildren | motionplan/dubinsRRT.go:215-225 | terminates, and lowers exactly the node and everything below it, each once |
| DubinsRrt.Tree.Connect | motionplan/dubinsRRT.go:131-149 | connects exactly when some option passes the path check, through one that does, moving no other node |
| DubinsRrt.Tree.Reroute | motionplan/dubinsRRT.go:151-187 | moves the node below the target, lowering everything below it, exactly when that is shorter; afterwards the way to it is no longer than before nor than through the target |
| DubinsRrt.Tree.SelectOptions | motionplan/dubinsRRT.go:299-335 | the ten nodes with the shortest finite path to the target |
| DubinsRrt.OptionsAreShortest | motionplan/dubinsRRT.go:299-335 | no node that is not chosen has a shorter finite path to the target |
| DubinsRrt.Tree.FindNearNeighbors | motionplan/dubinsRRT.go:438-458 | the ten nearest nodes, the target itself excepted |
| DubinsRrt.NeighborsAreNearest | motionplan/dubinsRRT.go:438-458 | no node that is not chosen, other than the target, is nearer to it |
| DubinsRrt.Tree.RerouteNeighbors | motionplan/dubinsRRT.go:151-187 | reroutes the ten nearest nodes one after the other; keeps the invariant and the nodes; every node keeps its parent or moves below the target |
| DubinsRrt.RemoveChild | motionplan/dubinsRRT.go:165-173 | overwriting the entry with the last and cutting takes exactly one occurrence of the node out of the list |
| DubinsRrt.PlanIsExact | motionplan/dubinsRRT.go:189-209 | the extracted plan leads from seed to goal and its length is the recorded one |
| DubinsRuns.StepKeeps | motionplan/dubinsRRT.go:131-187 | one iteration keeps the invariant and adds at most the target |
| DubinsRuns.RunInvariant | motionplan/dubinsRRT.go:112-210 | in every state of every run: a tree on the seed, child lists the inverse of the parents, exact lengths |
| DubinsRuns.PlanRunner | motionplan/dubinsRRT.go:81-213 | for all samples, choices and cancellations the tree goes through a run, and the answer belongs to it: a plan exactly if the goal was connected, namely the chain above it, as long as the length recorded for it in the last tree, with an accepted last step; a goal that the seed reaches is found |
| OctreeModel.OctantsCover | pointcloud/basic_octree_utils.go:42-91 | every point of a cube lies in one of its octants |
| OctreeModel.FirstOctantIs | pointcloud/basic_octree_utils.go:50-91 | of the octants that hold a point the first is the upper one in exactly the coordinates in which the point lies strictly above the middle |
| OctreeModel.SomeOctantHolds | pointcloud/basic_octree_utils.go:109-121 | the invalid-internal-node error cannot occur |
| OctreeModel.AtIsStored | pointcloud/basic_octree.go:71-95 | a lookup finds exactly what is stored, on its first-octant path, with one value per point |
| OctreeModel.SplitCorrect | pointcloud/basic_octree_utils.go:42-84 | a split cannot fail and stores exactly what the leaf stored |
| OctreeModel.SetDecided | pointcloud/basic_octree_utils.go:96-143 | whether a call succeeds, and which error it gives, follows from the tree before it: the depth error occurs exactly if the leaf of the point is too deep, or a different point is in it that shares too many further octants, each costing two steps |
| OctreeModel.SetCorrect | pointcloud/basic_octree_utils.go:96-143 | for every tree, point and depth: the outcome is the one the tree decides; success stores the point with its data and keeps the rest; a failed or ignored call keeps all stored points even if a leaf was split |
| OctreeModel.SetThenAt | pointcloud/basic_octree.go:65-95 | after a successful set the point is found with its data and every other lookup is as before |
| OctreeModel.SetSizes | pointcloud/basic_octree_utils.go:96-143 | sizes stay exact if and only if the point is not one stored below an inner node and within reach; by how much they are off otherwise, and how many points there are |
| OctreeModel.SetCovers | pointcloud/basic_octree_utils.go:96-143 | after every call, overwriting and failing ones included, the size of an inner node is at least the sum over its children and that of a leaf is exact |
| OctreeRuns.RunAgrees | pointcloud/basic_octree.go:65-95 | after every sequence of sets the tree answers as a plain map does in which each call counts that the tree has in reach; sizes cover, and without overwriting are exact |
| OctreeRuns.SharedIsNear | pointcloud/basic_octree_utils.go:42-143 | points that share n levels of octants differ by at most the side halved n times |
| OctreeRuns.FarIsInReach | pointcloud/basic_octree_utils.go:96-143 | a point far enough from the one found in its leaf is in reach |
| OctreeRuns.ClearSet | pointcloud/basic_octree_utils.go:96-143 | in a tree with inner nodes on the first n levels only, a point further from all others than the side halved n times is accepted, and the tree stays that shallow |
| OctreeRuns.FreshRunAgrees | pointcloud/basic_octree.go:65-95 | when the points lie in the cube and differ by more than its side halved 499 times, every call succeeds and the tree answers as the plain map of the calls |
| OctreeIteration.BatchIsClip | pointcloud/basic_octree_utils.go:149-171 | with exact sizes, skipping subtrees by size visits exactly the range of positions asked for |
| OctreeIteration.BatchHolds | pointcloud/basic_octree.go:101-119 | with exact sizes the ith of n batches holds the stored points from position i times b up to i + 1 times b, where b is the least number such that n times b reaches the size |
| OctreeIteration.BatchSizeIs | pointcloud/basic_octree.go:105-111 | the size of a batch is that least number |
| OctreeIteration.BatchIsSmall | pointcloud/basic_octree.go:101-119 | after overwriting, too, no batch holds more points than its size |
| OctreeIteration.RangesJoin | pointcloud/basic_octree_utils.go:149-171 | two adjacent ranges of positions take together what the whole range takes, in the same order |
| OctreeIteration.BatchesCoverOnce | pointcloud/basic_octree.go:101-119 | whenever sizes cover, overwritten points included: the batches together visit every point exactly once and in traversal order if and only if the root is not a single filled leaf or there is one batch |
| OctreeIteration.UnbatchedVisitsAll | pointcloud/basic_octree.go:101-119 | whenever sizes cover, every point is visited without batching |
| OctreeIteration.RunCoveredOnce | pointcloud/basic_octree.go:101-119 | after any sequence of sets on an empty tree the batches cover what it stores exactly once, with the same exception |
| OctreeIteration.WalkStep | pointcloud/basic_octree_utils.go:149-171 | stopping early in one subtree is stopping early in the whole walk |
| OctreeIteration.UpToIsPrefix | pointcloud/basic_octree_utils.go:149-171 | a walk visits a prefix: all points, or up to and including the first at which the callback says stop |
| OctreeIteration.PointsSplit | pointcloud/basic_octree_utils.go:149-171 | the points are met octant by octant, in the order of the octants |
| PointCloud.BasicOctree.NewBasicOctree | pointcloud/basic_octree.go:42-56 | refuses exactly the sides that are not positive; otherwise an empty well-formed tree with exact sizes |
| PointCloud.BasicOctree.At | pointcloud/basic_octree.go:71-95 | the search over objects gives the lookup of the value |
| PointCloud.BasicOctree.MakeOctants | pointcloud/basic_octree_utils.go:50-73 | the three nested loops build the eight distinct empty octants |
| PointCloud.BasicOctree.HelperSet | pointcloud/basic_octree_utils.go:96-143 | the in-place update of the objects is the update of the value, outcome included |
| PointCloud.BasicOctree.SetInChild | pointcloud/basic_octree_utils.go:109-121 | updating one octant in place leaves the other seven alone |
| PointCloud.BasicOctree.SplitIntoOctants | pointcloud/basic_octree_utils.go:42-84 | the in-place split of the object is the split of the value |
| PointCloud.BasicOctree.Set | pointcloud/basic_octree.go:65-67 | the in-place set is the set of the value |
| PointCloud.BasicOctree.HelperIterate | pointcloud/basic_octree_utils.go:149-171 | visits the points of the batch in order up to the first at which the callback says stop |
| PointCloud.BasicOctree.Iterate | pointcloud/basic_octree.go:101-119 | visits the batch, and nothing for batch numbers out of range |
| Segmentation.GetValidNeighbors | rimage/depth_processing.go:348-365 | exactly the adjacent white pixels not visited before, which are visited from here on |
| Segmentation.SegmentIsComponent | rimage/depth_processing.go:327-338 | when the queue is empty the search has found the whole component and marked all of it, the seed perhaps excepted |
| Segmentation.Flood | rimage/depth_processing.go:327-338 | terminates and returns exactly the connected component of the seed |
| Segmentation.FreshSeed | rimage/depth_processing.go:321-327 | a white pixel that the scan meets unvisited is in no region yet, although seeds are not marked |
| Segmentation.SegmentBinaryImage | rimage/depth_processing.go:314-344 | the regions are pairwise disjoint components; a white pixel is in one exactly when it is connected to the scanned window, hence always when the bounds start at the origin |
| Segmentation.OffsetImageMisses | rimage/depth_processing.go:319-324 | an image with other bounds whose white pixel is in no region |
| Poses.RelativeChains | referenceframe/transformable.go:80-82 | relative poses compose: from a to b and on to c is from a to c |
| Poses.RelativeCancels | referenceframe/frame_system.go:405-418 | a move common to both ends changes nothing between them |
| FrameTree.PathPoseSplits | referenceframe/frame_system.go:421-435 | the pose along a path is that of its second part after that of its first |
| FrameTree.PathPoseSame | referenceframe/primitives.go:77-87 | frames that get the same inputs give the same pose |
| FrameTree.WorldPoseStep | referenceframe/frame_system.go:421-435 | a frame stands where its parent stands, moved by its own pose |
| FrameTree.BelowChildren | referenceframe/frame_system.go:117-127 | what is below a frame is below exactly one child of it, and the frame is not below its child |
| FrameTree.TransformFunctorial | referenceframe/frame_system.go:189-218 | transforming to a second frame and on to a third is transforming to the third, and back again is the identity |
| FrameTree.TransformToWorld | referenceframe/frame_system.go:189-218 | what stands at a pose in a frame stands, in the world, at that pose moved by where the frame is |
| FrameTree.TransformToParent | referenceframe/frame_system.go:405-435 | a frame stands in its parent at its own pose |
| FrameTree.TransformFromWorld | referenceframe/frame_system.go:405-418 | seen from a frame, a pose of the world is the one that the frame's own place moves back to it |
| FrameSystems.FrameSystem.constructor | referenceframe/frame_system.go:84-87 | the empty system is a tree rooted at the world |
| FrameSystems.FrameSystem.FrameNamed | referenceframe/frame_system.go:130-138 | a registered name gives its frame, the world included, and no other name does |
| FrameSystems.FrameSystem.Parent | referenceframe/frame_system.go:95-103 | every registered frame has its parent in the system; only the world and strangers give an error |
| FrameSystems.FrameSystem.AddFrame | referenceframe/frame_system.go:166-185 | keeps the tree and the registry; which of three errors occurs and when, with nothing changed then |
| FrameSystems.FrameSystem.TracebackFrame | referenceframe/frame_system.go:142-154 | terminates at the world with the one chain of parents; an error exactly for unknown names |
| FrameSystems.FrameSystem.ComposeTransforms | referenceframe/frame_system.go:421-435 | the loop gives the pose of the frame in the world, or none exactly when some frame on the way has none |
| FrameSystems.FrameSystem.Transform | referenceframe/frame_system.go:189-218 | the pose moved to the world and back down to the destination; the errors for unknown names; the identity for equal names |
| FrameSystems.RemoveEnd | referenceframe/frame_system.go:117-127 | when the loop has met every entry, exactly the descendants are gone, for any iteration order and although recursive calls delete entries meanwhile |
| FrameSystems.RemoveKeepsTree | referenceframe/frame_system.go:117-127 | what is left still hangs from the world |
| FrameSystems.FrameSystem.RemoveFrame | referenceframe/frame_system.go:117-127 | terminates and removes exactly the frame and its descendants |
| FrameSystems.SubsetEnd | referenceframe/frame_system.go:276-314 | the part is a tree rooted at its new world |
| FrameSystems.FrameSystem.TraceParent | referenceframe/frame_system.go:287-297 | the search upwards, cut short at frames already taken, decides whether a frame is below the root |
| FrameSystems.FrameSystem.FrameSystemSubset | referenceframe/frame_system.go:276-314 | a new system with exactly the root and its descendants; this system is unchanged; an error exactly for unknown names |
| FrameSystems.FrameSystem.DivideFrameSystem | referenceframe/frame_system.go:378-385 | splits the frames into two disjoint systems that together have all of them |
| FrameSystems.FrameSystem.ChildrenMap | referenceframe/frame_system.go:236-248 | lists exactly the children of each frame, each once, in any order |
| FrameSystems.MergePop | referenceframe/frame_system.go:250-270 | one round of the queue keeps what is added, what waits and what is done apart and complete |
| FrameSystems.MergeEnd | referenceframe/frame_system.go:250-272 | when the queue is empty every frame of the other system has been added |
| FrameSystems.FrameSystem.MergeFrameSystem | referenceframe/frame_system.go:230-272 | terminates, also for a system merged into itself; succeeds exactly when the attach frame exists and no name is taken; then every frame of the other system hangs as it did, those below its world from the attach frame; a taken name is reported as one that both systems have, and what was added by then hangs as it should |
| FramePoses.RestUnmoved | referenceframe/frame_system.go:378-385 | every transform within what is left after a division is as before |
| FramePoses.PartPose | referenceframe/frame_system.go:276-314 | in the whole a frame of the part stands where it stands in the part, moved by where the part hangs |
| FramePoses.PartUnmoved | referenceframe/frame_system.go:378-385 | every transform within the part is as before |
| FramePoses.MergedIsTree | referenceframe/frame_system.go:230-272 | the merged system is a tree rooted at the world |
| FramePoses.MergedPose | referenceframe/frame_system.go:230-272 | each merged frame stands at the attach frame's pose composed with its pose in its old world |
| FramePoses.MergeMovesNothing | referenceframe/frame_system.go:230-272 | a merge moves none of the frames that were there |
| SolverFrames.FindPivotFrame | motionplan/solverFrame.go:303-325 | the first frame of the longer list whose name is in the shorter; none exactly when they share no name |
| SolverFrames.PivotIsLowest | motionplan/solverFrame.go:303-325 | for two tracebacks that is their lowest common ancestor, whichever list is searched |
| SolverFrames.TracesMeet | motionplan/solverFrame.go:74-78 | two tracebacks of one system always share a frame, so the error cannot occur |
| SolverFrames.MapToSlice | motionplan/solverFrame.go:251-261 | joins the inputs in the order of the frames, or fails exactly when one frame has none |
| SolverFrames.SliceToMap | motionplan/solverFrame.go:263-275 | cuts a slice of the right length into the inputs of the frames over the seed of the others |
| SolverFrames.SlicePart | motionplan/solverFrame.go:263-275 | each frame gets the part of the slice after those of the frames before it, as long as its degrees of freedom |
| SolverFrames.SeedIsEnough | motionplan/solverFrame.go:135-142 | the inputs dropped from the seed are exactly those that a slice overrides |
| SolverFrames.SliceRoundTrip | motionplan/solverFrame.go:251-275 | cutting a slice and joining the parts gives the slice |
| SolverFrames.MapRoundTrip | motionplan/solverFrame.go:251-275 | joining the inputs of a map and cutting them gives every frame its inputs back |
| SolverFrames.UniqInPlaceSlice | motionplan/solverFrame.go:288-300 | the in-place compaction keeps each frame exactly once, where it occurs first |
| SolverFrames.FirstOnlyInOrder | motionplan/solverFrame.go:288-300 | the frames kept are those of the slice, all different, in the order in which they occur first |
| SolverFrames.WaysToWorld | motionplan/solverFrame.go:79-80 | two tracebacks that meet at the world only become, without repetition, the first and the second up to the world |
| SolverFrames.NewSolverFrame | motionplan/solverFrame.go:29-154 | which error occurs and when; otherwise the pivot is the lowest common ancestor, the solved frames are those the three cases call for, in their order, their names differ, and cutting a slice over the kept seed gives what cutting it over the whole seed gives |
| SolverFrames.SolvedNamesDiffer | motionplan/solverFrame.go:79-133 | in each of the three cases the solved frames have different names, so both round trips apply |
| SolverFrames.Transform | motionplan/solverFrame.go:162-176 | the pose of the solve frame seen from the goal frame or the world; an error exactly for a slice of the wrong length or missing inputs |
| SolverFrames.PoseFromTheWay | motionplan/solverFrame.go:162-176 | the frames below the pivot are enough for the pose between the two ends |
| SolverFrames.TransformIgnoresOthers | motionplan/solverFrame.go:162-176 | in all three cases the pose does not depend on the inputs of any frame that is not solved for; below a pivot, wherever it can be computed |

## Left out

- ResourceGraph.Graph.MergeAdd: does not say which of the topological orders is used, which when nodes are replaced can decide whether the merge meets a cycle; the code iterates over maps.
- ResourceGraph.Graph.Clone: the maps are values here, so that a copy shares nothing with the original holds by construction.
- GraphRuns.Run: ends before the first call that loses the invariant, and does not say what later calls do then.
- IntegerWidth.Run64: renaming and merging on a 64-bit graph are not modelled; they are made of the calls that are.
- DubinsRrt.Tree.Reroute: does not claim that a rerouted link passes the path check, because the code does not check it again.
- DubinsRuns.PlanRunner: path lengths are non-negative or infinite; the guards against negative lengths are not modelled.
- FrameSystems.FrameSystem.AddFrame: a parent that merely shares the name of a registered frame is not modelled.
- FrameSystems.FrameSystem.TracebackFrame: a frame that merely shares the name of a registered one is not modelled.
- FrameSystems.FrameSystem.RemoveFrame: asks that the frame belong to the system.
- FrameSystems.FrameSystem.FrameSystemSubset: asks that the new root be not the world, nor a frame that merely shares a registered name.
- FrameSystems.FrameSystem.DivideFrameSystem: asks the same.
- PointCloud.BasicOctree.Iterate: asks that the size be non-negative, as it is in every tree that can be built.
- SolverFrames.NewSolverFrame: asks that the list given be the traceback of its first frame, as its callers arrange; the names of moving geometries and the sharing of storage between appended slices are not modelled.
- `ReplaceNodesParents`, which does not keep the graph invariant; `CopyNodeAndChildren`, `FindNodesByShortName` and the other name queries, which would only add easy members.
- Mutexes, contexts, channels, goroutines, timeouts and logging around the modelled code; the parallel nearest-neighbour and option searches.
- cBiRRT, inverse kinematics, the geometry of Dubins paths and constraints, `spatialmath`.
- The geometry branch of the frame system's transform, and errors for inputs out of bounds.
- Floating-point rounding: coordinates, costs and distances are real numbers and approximate equality of points is equality.
- The octree's metadata and PCD/LAS files.
- The nodes of a planner are pointers in the code; here they are values with an identifying number. Ties in a sort are broken arbitrarily.
- The remaining packages: command line, configuration, RPC, modules, registry, robot, control, colour and image conversion other than the segmentation.
