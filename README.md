# Graphs: traversals, path searches and the earliest ancestor, in Dafny

This project models two small Python exercises and proves what they compute.

- `projects/graph/graph.py`: a directed graph kept as a dictionary from each
  vertex to the set of its out-neighbours. It supports:
  - `add_vertex`, `add_edge` and `get_neighbors`;
  - the breadth-first and depth-first traversals `bft`, `dft` and `dft_recursive`;
  - the path searches `bfs`, `dfs` and `dfs_recursive`.
- `projects/ancestor/ancestor.py`: `earliest_ancestor`. It takes a list of
  (parent, child) pairs and a starting node. It climbs one generation at a
  time and answers the smallest node of the last non-empty generation, or
  -1 when the node has no recorded parent.

Both files change state step by step, so the model is imperative.

`Graphs.Graph` is a class. Its field `vertices: map<V, set<V>>` is
reassigned by `AddVertex` and `AddEdge`. Each traversal and search is a
method that keeps the loops of the source:
- a queue or stack held in a `seq`;
- a visited set;
- an inner loop over the neighbour set, picking its members in no
  particular order, as Python iterates a set.

What is printed becomes a returned sequence. Each method is proved against
reachability in the adjacency map. Reachability is defined once, in
`paths.dfy`, as the existence of a walk. The loop invariants live in their
own modules, each with small transition lemmas:
- `frontier.dfy`: `bft` and `dft`;
- `dft_order.dfy`: the depth-first order of `dft` and `dft_recursive`, and for `dft` the vertex that pushed each stack entry;
- `breadth_first.dfy`: `bfs`, and for `bft` the same level bookkeeping beside the shared traversal invariant;
- `depth_first.dfy`: `dfs`;
- `recursion.dfy`: `dft_recursive` and `dfs_recursive`.

`Ancestor.EarliestAncestor` keeps the two loops of the source:
- a `for` loop that builds the child -> parents map;
- a `while` loop that replaces the current generation by the union of its
  parents until that union is empty.

The generations are specified by the function `Level`. The loop stops for
every input whose parent relation has no cycle above the start, and only
for those (`WalkEndsIffAcyclic`), so that is the method's precondition.

`graph_demo.dfy` and `ancestor_demo.dfy` replay the worked examples:
- the seven-vertex graph of the `__main__` block of `graph.py`;
- the family `[(1,3),(2,3),(3,5),(5,8),(5,9)]`.

They also exhibit the two defects listed under Findings.

## Model

| member | source | states |
|---|---|---|
| Graphs.Graph.constructor | projects/graph/graph.py:9-10 | a new graph has no vertices and satisfies the invariant that every neighbour is a vertex |
| Graphs.Graph.AddVertex | projects/graph/graph.py:12-17 | the vertex set gains id. An absent id gets an empty neighbour set. An existing id leaves the whole map unchanged, so a second call is a no-op. The invariant is kept |
| Graphs.Graph.AddEdge | projects/graph/graph.py:19-24 | when both ends are vertices, v2 joins v1's neighbour set and nothing else changes. Otherwise the map is unchanged. Re-adding an existing edge changes nothing. The vertex set never changes and the invariant is kept |
| Graphs.Graph.GetNeighbors | projects/graph/graph.py:26-30 | the result holds exactly the out-neighbours of id, and each is itself a vertex. An unknown id raises KeyError in the source; here it is excluded by the precondition |
| Graphs.Graph.Bft | projects/graph/graph.py:32-49 | the printed sequence starts at start. It holds each vertex at most once and contains exactly the vertices reachable from start. Each printed vertex after the first is an out-neighbour of an earlier one. The vertices come in breadth-first order: every vertex printed before another is no farther from start, that is, for every walk from start to the later vertex there is a walk to the earlier one with no more vertices |
| Graphs.Graph.Dft | projects/graph/graph.py:51-68 | the printed sequence starts at start. It holds each vertex at most once and contains exactly the vertices reachable from start. Each printed vertex after the first is an out-neighbour of an earlier one. The vertices come in depth-first order: each vertex after the first is an out-neighbour of an earlier printed vertex j such that every vertex printed after j has all its out-neighbours printed by then, that is, it is printed from the latest printed vertex that still had an unprinted out-neighbour |
| Graphs.Graph.DftRecursive | projects/graph/graph.py:70-85 | the call prints start first and each vertex once. It prints exactly the vertices reachable from start by a walk that never re-enters the visited set passed in. The visited set afterwards is the one passed in plus what was printed. Every out-neighbour of start and of each newly printed vertex lies in that set. The vertices come in depth-first order: each vertex after the first is an out-neighbour of an earlier printed vertex j such that every out-neighbour of every vertex printed after j is, by then, printed or in the set passed in. Called with an empty set, it prints exactly the vertices reachable from start |
| Graphs.Graph.Bfs | projects/graph/graph.py:87-111 | the result is Some exactly when dest is reachable. It is then a walk from start to dest that is no longer than any other such walk. When start == dest the result is [start] and nothing is printed. Printed vertices are distinct, reachable, and never dest |
| Graphs.Graph.Dfs | projects/graph/graph.py:113-134 | the search as written, cut off after `fuel` pops. A returned walk goes from start to dest. A finished search returns Some exactly when dest is reachable. A finished search that found nothing has seen every walk from start, and none is longer than the fuel. When start == dest and fuel > 0, the result is [start] |
| Graphs.Graph.DfsWithVisited | projects/graph/graph.py:113-134 | the corrected dfs, which marks each popped vertex visited. It always terminates. It returns Some exactly when dest is reachable, and the walk goes from start to dest and repeats no vertex. When start == dest the result is [start] |
| Graphs.Graph.DfsRecursive | projects/graph/graph.py:136-155 | the result is Some exactly when dest is reachable from start without re-entering the visited set passed in. The result is then path followed by such a walk, which repeats no vertex, and the walk's vertices before dest are now visited. When start == dest the result is path + [start] and the visited set is unchanged. Every newly visited vertex is reachable from start without re-entering the set passed in. On None, dest is not newly visited, and start together with the newly visited vertices is exactly what start reaches without re-entering that set; their out-neighbours are all visited |
| Graphs.Graph.DfsRecursiveDefault | projects/graph/graph.py:136-155 | a top-level call that passes no visited set, as written. It searches while avoiding whatever the shared default set already holds. It returns Some exactly when such a walk exists; the walk then goes from start to dest, repeats no vertex, and every vertex of it before dest is left in the shared set. Whatever the call adds to the shared set is reachable from start without entering what the set held before. On None it leaves start and everything start reaches that way in the shared set, which is what makes later calls miss |
| Graphs.Graph.DfsRecursiveFresh | projects/graph/graph.py:136-155 | the corrected top-level call with a fresh empty set. It returns Some exactly when dest is reachable, and the walk goes from start to dest and repeats no vertex. When start == dest the result is [start] |
| Paths.PathExtend | projects/graph/graph.py:108-111 | a walk from s extended by an out-neighbour of its end is a walk from s to that neighbour |
| Paths.ReachableStep | projects/graph/graph.py:108-111 | what is reachable stays reachable one edge further |
| Paths.PrependAvoiding | projects/graph/graph.py:149-153 | an edge s -> q[0] put in front of a walk q is a walk from s. If q starts outside a set and then avoids it, the combined walk avoids every subset of that set |
| Paths.ReachableAvoidingPrepend | projects/graph/graph.py:149-153 | reaching dest from an unvisited neighbour without entering the visited set means reaching it from the current vertex |
| Paths.ReachableAvoidingNothing | projects/graph/graph.py:77-78 | reachability that avoids the empty set is plain reachability |
| Paths.ClosedWalk | projects/graph/graph.py:80-85 | a walk that starts in an edge-closed region, and then avoids a set, ends in the region outside that set or back at its start |
| Paths.ClosedContainsReachableAvoiding | projects/graph/graph.py:80-85 | such a region contains everything reachable from its start that avoids the set |
| Paths.ClosedContainsReachable | projects/graph/graph.py:41-49 | a set that contains s and is closed under edges contains everything reachable from s |
| Paths.ReachableIsVertex | projects/graph/graph.py:19-24 | under the graph invariant, everything reachable from a vertex is a vertex |
| Paths.DistinctConcat | projects/graph/graph.py:83-85 | joining two duplicate-free sequences with no common element gives a duplicate-free sequence |
| Frontier.Start | projects/graph/graph.py:37-39 | the initial frontier [start], with nothing visited or printed, satisfies the traversal invariant |
| Frontier.DropVisited | projects/graph/graph.py:44 | taking an already visited vertex off the frontier keeps the invariant |
| Frontier.VisitNew | projects/graph/graph.py:44-46 | taking an unvisited vertex off the frontier, marking it and printing it keeps the invariant. Its neighbours become pending |
| Frontier.PushPending | projects/graph/graph.py:48-49 | pushing one pending neighbour onto the frontier keeps the invariant |
| Frontier.Finish | projects/graph/graph.py:41-49 | once the frontier is empty, the printed vertices are exactly those reachable from start, start first |
| Frontier.EarlierParentsConcat | projects/graph/graph.py:83-85 | appending what a recursive call on a neighbour printed keeps every printed vertex after one of its in-neighbours |
| BreadthFirst.Start | projects/graph/graph.py:93-95 | the initial queue [[start]] satisfies the search invariant, for a search that stops at dest (bfs) or at nothing (bft) |
| BreadthFirst.Crossing | projects/graph/graph.py:97-111 | a walk from inside a set to outside it has a step that leaves the set |
| BreadthFirst.HeadIsShortest | projects/graph/graph.py:97-103 | the walk at the head of the queue, when it ends at an unvisited vertex, is no longer than any walk from start to that vertex |
| BreadthFirst.DropVisited | projects/graph/graph.py:98-101 | dequeuing a walk that ends at a visited vertex keeps the invariant |
| BreadthFirst.Visit | projects/graph/graph.py:101-106 | dequeuing a walk to a new vertex other than a stop vertex visits that vertex at a shortest distance. Its neighbours become pending |
| BreadthFirst.Push | projects/graph/graph.py:108-111 | enqueuing the extension of the current walk by one pending neighbour keeps the invariant, including the length ordering of the queue |
| BreadthFirst.Exhausted | projects/graph/graph.py:97-111 | an empty queue means dest is unreachable |
| BreadthFirst.TraversalStart | projects/graph/graph.py:37-39 | the initial queue [start], with its walk [start] and nothing printed, satisfies the state of bft |
| BreadthFirst.TraversalDrop | projects/graph/graph.py:42-44 | dequeuing an already printed vertex, with its walk, keeps the state of bft |
| BreadthFirst.TraversalVisit | projects/graph/graph.py:42-46 | dequeuing an unprinted vertex prints it at the length of its walk, which is a shortest one, and keeps the state of bft. Every walk still queued is at most one vertex longer |
| BreadthFirst.TraversalPush | projects/graph/graph.py:48-49 | enqueuing one pending neighbour with its walk keeps the state of bft |
| BreadthFirst.TraversalFinish | projects/graph/graph.py:41-49 | with the queue empty, the printed vertices are exactly the reachable ones, each once, start first, and in non-decreasing distance from start |
| BreadthFirst.LevelDrop | projects/graph/graph.py:42 | dequeuing a vertex and its walk keeps the two queues in step and the printed vertices in level order |
| BreadthFirst.LevelVisit | projects/graph/graph.py:44-46 | printing the end of the head walk at that walk's length keeps the printed vertices in non-decreasing level |
| BreadthFirst.LevelPush | projects/graph/graph.py:48-49 | enqueuing a neighbour with the current walk extended by it keeps the two queues in step and the level order |
| BreadthFirst.LevelOrderIsDistanceOrder | projects/graph/graph.py:32-49 | vertices printed in non-decreasing level, where each level is a shortest walk length, come in non-decreasing distance from start |
| DepthFirst.ExploreStart | projects/graph/graph.py:119-121 | the initial stack [[start]] satisfies the invariant of the search as written |
| DepthFirst.ScheduledAfterPop | projects/graph/graph.py:124-134 | after a pop, every walk still to be explored has a prefix on the stack or extends the popped walk by a neighbour |
| DepthFirst.ExplorePop | projects/graph/graph.py:124-131 | popping a walk that does not end at dest explores it. The neighbours of its end become pending |
| DepthFirst.ExplorePush | projects/graph/graph.py:131-134 | pushing the extension by one pending neighbour keeps the invariant |
| DepthFirst.ExploreDone | projects/graph/graph.py:123-134 | an empty stack means dest is unreachable and every walk from start has been explored |
| DepthFirst.MarkedStart | projects/graph/graph.py:119-121 | the initial state of the corrected search satisfies its invariant |
| DepthFirst.MarkedDrop | projects/graph/graph.py:124-127 | popping a walk to a visited vertex keeps the invariant |
| DepthFirst.MarkedVisit | projects/graph/graph.py:124-131 | popping a walk to a new vertex other than dest, and marking it, keeps the invariant |
| DepthFirst.SettledDistinct | projects/graph/graph.py:124-127 | a stacked walk whose earlier vertices are all visited and distinct, and whose end is not visited, repeats no vertex |
| DepthFirst.MarkedPush | projects/graph/graph.py:131-134 | pushing the extension of a duplicate-free, fully visited walk by one pending neighbour keeps the invariant |
| DepthFirst.MarkedDone | projects/graph/graph.py:123-134 | an empty stack means dest is unreachable |
| Recursion.DftStart | projects/graph/graph.py:80-81 | marking and printing start establishes the loop state of dft_recursive |
| Recursion.DftSkip | projects/graph/graph.py:83-84 | a neighbour that is already visited is skipped without breaking the state |
| Recursion.DftDescend | projects/graph/graph.py:84-85 | the outcome of the recursive call on an unvisited neighbour extends the state, the depth-first order included |
| Recursion.DftDone | projects/graph/graph.py:83-85 | after the last neighbour, the call's outcome is complete: exactly the vertices reachable while avoiding the incoming visited set are printed, each once, in depth-first order |
| DftOrder.DepthFirstAppend | projects/graph/graph.py:61-65 | printing a vertex from the earlier printed vertex j, when every vertex printed after j has all its out-neighbours printed, keeps the order depth-first |
| DftOrder.DepthFirstConcat | projects/graph/graph.py:83-85 | appending what the recursive call on an out-neighbour of start printed, with the set visited so far, keeps the order depth-first, given that every vertex printed after start has all its out-neighbours visited |
| DftOrder.StackStart | projects/graph/graph.py:56-58 | the initial stack [start], pushed by no vertex, satisfies the stack-order invariant |
| DftOrder.StackDrop | projects/graph/graph.py:61-62 | popping an already printed vertex keeps the stack-order invariant |
| DftOrder.StackVisit | projects/graph/graph.py:61-65 | popping an unprinted vertex prints it from the vertex that pushed it, in depth-first order, and its out-neighbours become pending |
| DftOrder.TopSettled | projects/graph/graph.py:61-65 | every vertex printed since the top entry was pushed has all its out-neighbours printed |
| DftOrder.StackAfterVisit | projects/graph/graph.py:61-65 | after that visit, every out-neighbour of a vertex printed since an entry was pushed is printed, stacked above the entry, or pending |
| DftOrder.StackPush | projects/graph/graph.py:66-68 | pushing a pending out-neighbour of the last printed vertex, recorded as pushed by it, keeps the stack-order invariant |
| DftOrder.DepthStart | projects/graph/graph.py:56-58 | the initial stack satisfies the whole dft state |
| DftOrder.DepthDrop | projects/graph/graph.py:61-62 | popping an already visited vertex keeps the whole dft state |
| DftOrder.DepthVisit | projects/graph/graph.py:61-65 | popping an unvisited vertex, marking and printing it keeps the whole dft state; its out-neighbours become pending |
| DftOrder.DepthPush | projects/graph/graph.py:66-68 | pushing one pending neighbour keeps the whole dft state |
| DftOrder.DepthFinish | projects/graph/graph.py:60-68 | with the stack empty, exactly the reachable vertices are printed, each once, start first, in depth-first order |
| Recursion.DfsStart | projects/graph/graph.py:147-149 | marking start establishes the loop state of dfs_recursive |
| Recursion.DfsMiss | projects/graph/graph.py:149-153 | a recursive call that found nothing keeps the search state |
| Recursion.MarksReachedVia | projects/graph/graph.py:149-151 | what a recursive call on an unvisited neighbour marks is reachable from the current vertex without re-entering the incoming visited set |
| Recursion.DfsFoundVia | projects/graph/graph.py:151-153 | the walk found by the call on a neighbour, with the current vertex in front, is a walk from the current vertex that repeats no vertex |
| Recursion.DfsDone | projects/graph/graph.py:149-155 | after the last neighbour with nothing found, dest is unreachable while avoiding the incoming visited set, and start with the newly marked vertices is exactly what start reaches that way |
| GraphDemo.BuildExample | projects/graph/graph.py:158-182 | the example's vertex and edge calls build exactly {1: {2}, 2: {3, 4}, 3: {5}, 4: {6, 7}, 5: {3}, 6: {3}, 7: {1, 6}} |
| GraphDemo.AddVertices | projects/graph/graph.py:160-166 | adding vertices 1 to 7 gives seven empty neighbour sets |
| GraphDemo.AddVertices2 | projects/graph/graph.py:164-166 | adding vertices 5 to 7 after 1 to 4 gives seven empty neighbour sets |
| GraphDemo.AddEdges1 | projects/graph/graph.py:167-169 | the first three edges give the map stated in the contract |
| GraphDemo.AddEdges2 | projects/graph/graph.py:170-172 | the next three edges give the map stated in the contract |
| GraphDemo.AddEdges3 | projects/graph/graph.py:173-174 | the next two edges give the map stated in the contract |
| GraphDemo.AddEdges4 | projects/graph/graph.py:175-176 | the last two edges give the example map |
| GraphDemo.ExampleReach | projects/graph/graph.py:184-198 | from 1 exactly the vertices 1 to 7 are reachable in the example |
| GraphDemo.ShortWalkToSix | projects/graph/graph.py:211-215 | the only walk from 1 to 6 with at most four vertices is [1, 2, 4, 6] |
| GraphDemo.ExampleOrder | projects/graph/graph.py:184-209 | every order a traversal from 1 may print has 2 second and holds exactly 1 to 7 |
| GraphDemo.ExampleBft | projects/graph/graph.py:184-199 | bft(1) prints each of 1 to 7 once: 1, then 2, then 3 and 4 in either order, then 5, 6 and 7, as in every order listed |
| GraphDemo.ShortWalksFromOne | projects/graph/graph.py:184-198 | a walk from 1 with at most three vertices ends at 1, 2, 3 or 4 |
| GraphDemo.NoFartherThanThreeOrFour | projects/graph/graph.py:184-198 | a vertex no farther from 1 than 3 or 4 is one of 1 to 4 |
| GraphDemo.NearComeFirst | projects/graph/graph.py:184-198 | in an order by non-decreasing distance from 1, whatever comes before 3 or 4 is one of 1 to 4 |
| GraphDemo.ExampleLayers | projects/graph/graph.py:184-198 | such an order starting 1, 2 has 3 and 4 third and fourth and 5, 6, 7 after them |
| GraphDemo.ExampleDft | projects/graph/graph.py:201-208 | dft(1) prints one of the four listed orders 1, 2, 3, 5, 4, 6, 7 / 1, 2, 3, 5, 4, 7, 6 / 1, 2, 4, 7, 6, 3, 5 / 1, 2, 4, 6, 3, 5, 7 |
| GraphDemo.ExampleDftRecursive | projects/graph/graph.py:201-209 | dft_recursive(1) prints one of the same four listed orders |
| GraphDemo.ExampleDepthFirst | projects/graph/graph.py:201-206 | a depth-first order of the example from 1 that starts 1, 2 and holds 1 to 7 once each is one of the four listed orders |
| GraphDemo.AfterThree | projects/graph/graph.py:201-204 | such an order that starts 1, 2, 3 is 1, 2, 3, 5, 4 followed by 6, 7 or 7, 6 |
| GraphDemo.AfterFour | projects/graph/graph.py:201-206 | such an order that starts 1, 2, 4 is 1, 2, 4, 7, 6, 3, 5 or 1, 2, 4, 6, 3, 5, 7 |
| GraphDemo.AfterFourSix | projects/graph/graph.py:201-206 | such an order that starts 1, 2, 4, 6 is 1, 2, 4, 6, 3, 5, 7 |
| GraphDemo.PrintedAt | projects/graph/graph.py:201-206 | in a depth-first order of the example, the vertex at i is an out-neighbour of an earlier one after which every printed vertex has all its out-neighbours printed before i |
| GraphDemo.Beyond | projects/graph/graph.py:201-206 | a vertex of the order that is not among its first i entries makes the order longer than i |
| GraphDemo.Remaining | projects/graph/graph.py:201-206 | in an order of 1 to 7 without repeats, the entry after a prefix holding all vertices but v is v |
| GraphDemo.OnlySeven | projects/graph/graph.py:201-206 | an order of 1 to 7 without repeats that begins with seven given vertices is exactly those seven |
| GraphDemo.LoneVertexBft | projects/graph/graph.py:32-49 | in a graph without edges, bft from a vertex prints that vertex, once, and nothing else |
| GraphDemo.ExampleBfs | projects/graph/graph.py:211-215 | bfs(1, 6) returns [1, 2, 4, 6] |
| GraphDemo.ExampleDfs | projects/graph/graph.py:217-222 | dfs(1, 6), when it finishes, returns a walk from 1 to 6 |
| GraphDemo.ExampleDfsRecursive | projects/graph/graph.py:217-223 | the first dfs_recursive(1, 6) returns [1, 2, 4, 6] or [1, 2, 4, 7, 6], the two walks listed |
| GraphDemo.ThreeNeverReachesSix | projects/graph/graph.py:217-221 | a walk through 3 never ends at 6 |
| GraphDemo.DistinctWalksToSix | projects/graph/graph.py:217-221 | the walks from 1 to 6 that repeat no vertex are exactly [1, 2, 4, 6] and [1, 2, 4, 7, 6] |
| GraphDemo.DfsDivergesOnSelfLoop | projects/graph/graph.py:123-134 | on the graph 1 -> 1 with an isolated vertex 2, dfs(1, 2) never finishes, whatever the fuel |
| GraphDemo.DefaultVisitedLeaks | projects/graph/graph.py:136-155 | on 1 -> 2 -> 3, a first dfs_recursive(1, 3) finds the walk, and a second identical call returns None |
| GraphDemo.BuildChain | projects/graph/graph.py:12-24 | three vertex calls and two edge calls build the chain 1 -> 2 -> 3 |
| Ancestor.ParentsOf | projects/ancestor/ancestor.py:5-12 | the parents recorded for c are exactly the x with (x, c) among the pairs. The list is non-empty exactly when c is a recorded child |
| Ancestor.BuildAncestorTree | projects/ancestor/ancestor.py:3-12 | the keys are exactly the recorded children. Each maps to a non-empty list of its parents, in input order, with repeats kept |
| Ancestor.PairsStep | projects/ancestor/ancestor.py:6-12 | one more pair adds its child to the recorded children and appends its parent to that child's parents, leaving every other child's parents unchanged |
| Ancestor.ParentsAdd | projects/ancestor/ancestor.py:22-25 | the parents of a set plus one more child are the parents of the set together with that child's recorded parents |
| Ancestor.CollectParents | projects/ancestor/ancestor.py:22-25 | reading the tree, the loop collects exactly the recorded parents of the current generation |
| Ancestor.Min | projects/ancestor/ancestor.py:34 | the result is a member of the non-empty set and no member is smaller |
| Ancestor.StartHasParent | projects/ancestor/ancestor.py:14-25 | a recorded child has a non-empty first generation above it |
| Ancestor.EmptyStaysEmpty | projects/ancestor/ancestor.py:21-32 | once a generation is empty, every later one is empty |
| Ancestor.LevelHasChain | projects/ancestor/ancestor.py:21-32 | every member of generation k ends a chain of k child -> parent steps from start |
| Ancestor.ChainInLevel | projects/ancestor/ancestor.py:21-32 | the end of every chain of k steps from start lies in generation k |
| Ancestor.DistinctBound | projects/ancestor/ancestor.py:21-32 | a duplicate-free sequence drawn from a finite set is no longer than the set |
| Ancestor.AcyclicWalkEnds | projects/ancestor/ancestor.py:21-32 | without a cycle above start, the generation numbered by the count of start and all recorded parents is empty |
| Ancestor.CycleLevel | projects/ancestor/ancestor.py:21-32 | on a chain that returns to a node, every generation from that node's position on contains a node of the loop |
| Ancestor.CycleWalkNeverEnds | projects/ancestor/ancestor.py:21-32 | with a cycle above start, no generation is ever empty, so the while loop never stops |
| Ancestor.WalkEndsIffAcyclic | projects/ancestor/ancestor.py:21-32 | some generation is empty exactly when there is no cycle above start |
| Ancestor.FinalLevelIsDeepest | projects/ancestor/ancestor.py:27-34 | if generation k is non-empty and k + 1 is empty, then generation j is non-empty exactly when j <= k |
| Ancestor.LastLevelIsRoots | projects/ancestor/ancestor.py:27-34 | every member of the last non-empty generation (k >= 1) is a recorded parent and is never a recorded child |
| Ancestor.RankedIsAcyclic | projects/ancestor/ancestor.py:21-32 | when every parent is smaller than its child, there is no cycle above any start |
| Ancestor.ChainDecreases | projects/ancestor/ancestor.py:21-32 | under that ranking, every chain of parents is strictly decreasing |
| Ancestor.EarliestAncestor | projects/ancestor/ancestor.py:2-34 | -1 when start is never a recorded child. Otherwise there is a k >= 1 such that generation k is the last non-empty one, and the result is its minimum. The result is a recorded parent, is never a recorded child, and ends a chain of at least one child -> parent step from start |
| AncestorDemo.FamilyLevels | projects/ancestor/ancestor.py:17-32 | climbing from 8 in the family gives {5}, {3}, {1, 2}, then nothing |
| AncestorDemo.EarliestOfEight | projects/ancestor/ancestor.py:17-34 | the earliest ancestor of 8 in the family is 1 |
| AncestorDemo.EarliestOfOne | projects/ancestor/ancestor.py:14-15 | node 1 is never a child in the family, so the answer is -1 |
| AncestorDemo.MutualParentsNeverEnd | projects/ancestor/ancestor.py:21-32 | with 1 and 2 recorded as each other's parent, no generation above 1 is ever empty, so the loop would run forever |

## Left out

- `print` in bft, dft, dft_recursive and bfs is I/O. The printed vertices are returned as a sequence instead.
- The `Stack` and `Queue` classes of `util` are not part of this model. A stack or queue is a `seq` whose last or first element is taken.
- The order in which Python iterates a set is not modelled. Each loop over a neighbour set takes its members in an arbitrary order, so every contract holds for every order.
- Aliasing is not modelled. `get_neighbors` returns the graph's own set object, but no caller mutates it, so the model returns its value.
- The default visited set of `dfs_recursive` is created once per function definition and shared by every graph instance. The model keeps it as the field `defaultVisited` of one graph. The leak between calls on the same graph is the same.
- Graphs.Graph.DftRecursive, Graphs.Graph.DfsRecursive, Graphs.Graph.DfsRecursiveDefault, Graphs.Graph.DfsRecursiveFresh: the interpreter's recursion limit is not modelled. The source makes one nested call per newly visited vertex on the current walk, so on a chain of more than about 1000 vertices CPython raises RecursionError; the model bounds no recursion depth and promises the full result at any depth.
- Graphs.Graph.Dfs: takes a `fuel` bound on its pops and reports whether it finished, because the search as written need not terminate (see Findings). Its contract therefore speaks only of runs that finish within the fuel.
- Graphs.Graph.GetNeighbors: the KeyError on an unknown vertex is not modelled as an error value. It is a precondition, as in every traversal and search that looks the start up.
- The return value of `earliest_ancestor` is an `int`. The -1 sentinel cannot be told apart from a real node -1; the model keeps that behaviour.
- Ancestor.EarliestAncestor: requires that no chain of parents above the start repeats a node. On other inputs the source loops forever (`WalkEndsIffAcyclic`, `AncestorDemo.MutualParentsNeverEnd`).
- Node and vertex identifiers in the demos are integers. `Graphs.Graph` is generic in its vertex type; `earliest_ancestor` is modelled on integers, which is what `min` compares.
- GraphDemo.ExampleDfs: says nothing about whether dfs(1, 6) finishes on the example. That depends on the order in which Python iterates a set.
- GraphDemo.LoneVertexBft: states that the printed sequence holds vertex 1, once, and nothing else, rather than writing the sequence out as [1].
- earliest_ancestor answers from the last non-empty generation only, so a parentless ancestor in an earlier generation is never a candidate; the model keeps that (`Ancestor.LastLevelIsRoots`, `Ancestor.FinalLevelIsDeepest`).
- The docstring of dfs (projects/graph/graph.py:114-118) promises a path from start to dest. The code can instead loop forever; the model follows the code and records this under Findings.

## Findings

| source | as written | input that shows it | evidently intended | confidence | as-written member | corrected member |
|---|---|---|---|---|---|---|
| projects/graph/graph.py:121-134 | dfs creates `visited_verts` but never adds to it, so it re-explores vertices and follows cycles | vertices {1, 2}, edge 1 -> 1, dfs(1, 2): the stack always holds a longer walk 1, 1, ..., 1 and is never empty | mark cur_vertex visited when it is first popped, as bfs does, so the search ends and returns a walk exactly when one exists | not executed | GraphDemo.DfsDivergesOnSelfLoop | Graphs.Graph.DfsWithVisited |
| projects/graph/graph.py:136 | dfs_recursive uses `visited_verts=set()` as a default argument, so calls without a set share one set and keep every vertex an earlier call marked | chain 1 -> 2 -> 3: the first dfs_recursive(1, 3) returns [1, 2, 3], and a second identical call returns None because 1 and 2 are still marked | each top-level call starts from a fresh empty set and returns a walk exactly when dest is reachable | not executed | GraphDemo.DefaultVisitedLeaks | Graphs.Graph.DfsRecursiveFresh |
