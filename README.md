# Kruskal's minimum spanning tree with union-find, in Dafny

This project models the algorithmic core of `gui_mst.py`. That core is Kruskal's
minimum-spanning-tree computation over a list of weighted edges `(u, v, w)` on
the vertices `0 .. v-1`. It has three parts:

- `findParent`: a union-find lookup with path compression, on a mutable
  `parent` list.
- `unionSets`: union by rank over the same `parent` list and a `rank` list. On a
  tie, `rootV` goes under `rootU` and `rank[rootU]` grows by one.
- The loop of `KruskalMST`:
  - it sorts the edge list in place, stably, by weight;
  - it starts every vertex as its own singleton set;
  - it accepts an edge exactly when its endpoints have different roots, appending
    the edge to `mst`, adding its weight to `mstWeight` and calling `unionSets`;
  - it rejects any other edge, because that edge would close a cycle.

The model takes the source's imperative form:

- `FindParent` is a recursive method that updates an `array<nat>` in place.
- `UnionSets` updates two arrays.
- `SortEdges` sorts an `array<Edge>` in place.
- `KruskalMST` sorts the array and then runs the loop in `ScanEdges`, with
  invariants. It returns the tree and its weight, where the source prints them. It
  also returns, as a ghost, one decision per edge.

Each method is proved against a specification function:

- **Union-find state.** `UnionFind.Forest` is the value of the two arrays.
  - `Root` is the lookup without compression.
  - `Compress` is the state after `findParent(v)`.
  - `FindBoth` is the state after two lookups.
  - `Union` is the state after `unionSets(u, v)`.
  - `Valid` is the invariant that keeps the parent pointers acyclic:
    pointers stay in range and every non-root has a smaller rank than its parent.
    The same rank gap is the termination measure of `FindParent`.
- **Sort.** `EdgeSort.SortByWeight` is a functional insertion sort.
  `SortUnique` proves that every sorted list that keeps the input order within
  each weight is that same list. So the result does not depend on which stable
  sort is used; Python's Timsort gives it too.
- **Loop.** `Kruskal.Process` is a reference run of the loop that decides with
  naive connectivity (`Graph.Components`, a quick-find relabelling) instead of
  union-find.
  - `ScanEdges` is proved to make exactly the decisions of `Process`. The
    invariant `Tracks` says that the union-find sets are the components of the
    tree built so far.
  - The lemmas about `Process` prove the properties: the weight is the sum of
    the tree, the tree is the accepted subsequence, and an edge is accepted
    iff its endpoints were not yet connected. The tree is also a forest, it
    connects exactly what the input connects, and it has `n - k` edges for
    `k` components.

Files:

- `graph.dfy`: edges, connectivity and component counting.
- `union_find.dfy`: `findParent` and `unionSets`.
- `edge_sort.dfy`: the sort.
- `kruskal.dfy`: the loop.
- `examples.dfy`: two worked runs. One is a triangle whose last edge closes a
  cycle. The other is two equal-weight edges kept in input order.

## Model

| member | source | states |
|---|---|---|
| UnionFind.Singletons | gui_mst.py:25-26 | the initial arrays are valid, and every vertex is its own parent with rank 0 |
| UnionFind.Root | gui_mst.py:6-9 | following parent pointers ends at a root (its own parent), whose rank is at least the start's; the result is the start iff the start is a root |
| UnionFind.Compress | gui_mst.py:6-9 | the state findParent(v) leaves: same length and ranks, and v now points straight at its root (the rest of the rewrite is in CompressRewritesPath) |
| UnionFind.FindParent | gui_mst.py:6-9 | returns the root `Root` gives for the old array, which is a root of the new one; the new array is `Compress` of the old one and still valid; on a root it returns v and writes nothing |
| UnionFind.CompressKeepsSets | gui_mst.py:7-8 | path compression keeps the invariant and the root of every vertex, so the partition is unchanged |
| UnionFind.CompressRewritesPath | gui_mst.py:7-8 | compression changes only entries on v's path, and each changed entry becomes that vertex's own root |
| UnionFind.CompressValid | gui_mst.py:7-8 | compression keeps "every non-root has a smaller rank than its parent" |
| UnionFind.CompressRoot | gui_mst.py:7-8 | after compression, each vertex has the root it had before |
| UnionFind.CompressStep | gui_mst.py:7-8 | compressing v's path is compressing its parent's path and then pointing v at the root, as the recursion does |
| UnionFind.CompressAtRoot | gui_mst.py:7 | looking up a root returns it and leaves the array as it was |
| UnionFind.CompressKeepsRoot | gui_mst.py:8 | a root stays a root under compression |
| UnionFind.OnPathRoot | gui_mst.py:7-8 | every vertex on v's path has v's root and at least v's rank |
| UnionFind.PathReachesRoot | gui_mst.py:7-8 | v's root lies on v's path |
| UnionFind.CompressFlat | gui_mst.py:6-9 | a lookup of a vertex whose parent is a root writes nothing new |
| UnionFind.FindBoth | gui_mst.py:12-13 | the two lookups keep the invariant and the ranks |
| UnionFind.FindBothAgain | gui_mst.py:12-13 | repeating the two lookups changes nothing |
| UnionFind.UnionAfterFinds | gui_mst.py:44-48 | `unionSets` after the loop's own two lookups gives the same arrays as `unionSets` alone |
| UnionFind.UnionFacts | gui_mst.py:12-13 | after the two lookups, every vertex has its old root, both old roots are still roots, and the union links those two roots |
| UnionFind.Link | gui_mst.py:14-21 | equal roots change nothing; otherwise exactly one root gets the other as parent, the lower-ranked goes under the higher, and on a tie rootV goes under rootU; only rank[rootU] can change, by +1 on a tie |
| UnionFind.Union | gui_mst.py:11-21 | the state unionSets(u, v) leaves: only the rank of u's root can change, by at most one (exact ranks in UnionRank, validity in UnionValid, the merge in UnionMerges) |
| UnionFind.UnionSets | gui_mst.py:11-21 | the new arrays are `Union` of the old ones: two lookups, then linking the two roots by rank |
| UnionFind.AttachRoot | gui_mst.py:16 | pointing root c at root t moves exactly c's set under t |
| UnionFind.LinkValid | gui_mst.py:15-21 | linking two roots by rank keeps the invariant |
| UnionFind.LinkRoots | gui_mst.py:15-21 | after linking, the two sets share one root (one of the two old roots), and every other vertex keeps its root |
| UnionFind.UnionValid | gui_mst.py:11-21 | `unionSets` keeps the invariant |
| UnionFind.UnionMerges | gui_mst.py:11-21 | afterwards u and v share a root; two vertices share a root iff they did before or both were in u's or v's set; vertices outside those sets keep their roots |
| UnionFind.UnionSameSet | gui_mst.py:14 | when u and v already share a root, no link is made and the ranks are unchanged; only the lookups happen |
| UnionFind.UnionRank | gui_mst.py:15-21 | ranks never decrease; exactly one rank, u's root's, grows by exactly 1, and only when two different roots of equal rank are merged |
| EdgeSort.Insert | gui_mst.py:24 | the insertion step of the sorting reference: one element longer (order, contents and stability in InsertSorted, InsertMultiset, InsertWithWeight) |
| EdgeSort.SortByWeight | gui_mst.py:24 | the reference the in-place sort is proved equal to: same length (sorted, a permutation and stable by SortSorted, SortPermutation, SortStable; equal to any stable sort by SortUnique) |
| EdgeSort.SortEdges | gui_mst.py:24 | sorts the array in place to `SortByWeight` of its old contents |
| EdgeSort.InsertAt | gui_mst.py:24 | one step of the in-place sort inserts a[i] into the sorted prefix and leaves the rest of the array alone |
| EdgeSort.ShiftHeavier | gui_mst.py:24 | shifts the heavier prefix edges one place right, keeps the others, and stops at the insertion point |
| EdgeSort.InsertPastHeavier | gui_mst.py:24 | an edge inserted into a list passes over exactly the trailing run of heavier edges |
| EdgeSort.SortSorted | gui_mst.py:24 | the result is in non-decreasing weight order |
| EdgeSort.SortPermutation | gui_mst.py:24 | the result is a permutation (same multiset) of the input |
| EdgeSort.SortStable | gui_mst.py:24 | for every weight, the edges of that weight appear in their input order |
| EdgeSort.SortUnique | gui_mst.py:24 | any sorted list that is stable with respect to the input equals `SortByWeight` of it, so any stable sort gives the modelled order |
| EdgeSort.SortedDetermined | gui_mst.py:24 | two sorted lists with the same per-weight subsequences are equal |
| EdgeSort.LastWeightsAgree | gui_mst.py:24 | two such lists end in an edge of the same weight |
| EdgeSort.LastsAgree | gui_mst.py:24 | two such lists end in the same edge, and their remainders again have the same per-weight subsequences |
| EdgeSort.SortInRange | gui_mst.py:24 | sorting keeps every endpoint a valid vertex |
| EdgeSort.InsertSorted | gui_mst.py:24 | inserting into a sorted list keeps it sorted and adds only the new edge |
| EdgeSort.InsertMultiset | gui_mst.py:24 | inserting adds exactly one copy of the edge |
| EdgeSort.InsertWithWeight | gui_mst.py:24 | inserting puts the edge after every edge of its weight and keeps the others in order |
| Graph.ConnectedAppend | gui_mst.py:46 | adding an edge connects exactly the pairs already connected and the pairs that each touch one of its endpoints' components |
| Graph.EndpointsConnected | gui_mst.py:42-43 | every edge connects its own endpoints |
| Graph.ForestCount | gui_mst.py:44-46 | an acyclic list of edges on n vertices leaves n minus its length components |
| Graph.ForestSize | gui_mst.py:44-46 | with n >= 1, an acyclic edge list has at most n - 1 edges |
| Graph.SamePartitionCount | gui_mst.py:42-48 | two labellings of the same partition have the same number of classes |
| Graph.RelabelMerges | gui_mst.py:46 | merging two labels merges exactly those two classes |
| Graph.RelabelLabelSet | gui_mst.py:46 | merging two different classes removes exactly one class |
| Kruskal.Process | gui_mst.py:42-48 | the reference run takes one decision per edge, keeps at most as many edges as it sees, and keeps only valid vertices |
| Kruskal.ProcessStep | gui_mst.py:44-48 | the next edge is rejected, with tree and weight unchanged, iff its endpoints are connected by the tree so far; otherwise it is appended and its weight added |
| Kruskal.ProcessWeight | gui_mst.py:46-47 | `mstWeight` equals the sum of the weights of the edges in `mst` |
| Kruskal.ProcessSelect | gui_mst.py:42-47 | `mst` is the subsequence of the sorted edges whose decision is Accepted, in processing order |
| Kruskal.ProcessPrefix | gui_mst.py:42-48 | the decisions on a prefix of the edges are the prefix of the decisions, so no decision is revised later |
| Kruskal.ProcessTraceStep | gui_mst.py:42-48 | one more edge adds one decision and keeps the earlier ones |
| Kruskal.ProcessDecision | gui_mst.py:44 | edge k is accepted iff its endpoints are not connected by the edges accepted before it |
| Kruskal.ProcessDecisionEffect | gui_mst.py:44-48 | an accepted edge is appended and its weight added; a rejected edge leaves both `mst` and `mstWeight` unchanged |
| Kruskal.ProcessForest | gui_mst.py:44-46 | the accepted edges are acyclic: each one joins two different components |
| Kruskal.ProcessSpans | gui_mst.py:42-48 | two vertices are connected by `mst` iff they are connected by the whole edge list, so the result is a spanning forest |
| Kruskal.ProcessSize | gui_mst.py:42-48 | with k components in the input graph, exactly n - k edges are accepted; with n >= 1, at most n - 1 |
| Kruskal.MirrorsInit | gui_mst.py:25-26 | the singleton sets are the components of the empty tree |
| Kruskal.AfterEdge | gui_mst.py:44-48 | the arrays after one pass of the loop body are valid |
| Kruskal.AfterEdgeIsUnion | gui_mst.py:44-48 | whether the edge is accepted or rejected, one pass of the loop body leaves the arrays exactly as `unionSets(u, v)` alone would |
| Kruskal.JoinIfApart | gui_mst.py:44-48 | returns true iff u and v had different roots; the arrays become the two lookups, followed by `unionSets` exactly when they differed, which equals `Union` of the old arrays |
| Kruskal.AfterEdgeMirrors | gui_mst.py:44-48 | the union-find test agrees with connectivity in the tree so far; afterwards the sets are the components of the tree with the edge added iff it was accepted |
| Kruskal.MirrorsKept | gui_mst.py:58 | for a rejected edge, the sets stay the components of the unchanged tree |
| Kruskal.MirrorsJoined | gui_mst.py:46-48 | for an accepted edge, the merged sets are the components of the tree with the edge appended |
| Kruskal.TracksInit | gui_mst.py:25-28 | before the loop: singleton arrays, an empty tree, weight 0 and no decisions agree with the reference run on no edges |
| Kruskal.TracksStep | gui_mst.py:42-48 | one pass of the loop body keeps the loop invariant, taking the reference run's decision |
| Kruskal.TracksDone | gui_mst.py:42 | after the last edge, the run is the reference run over all edges |
| Kruskal.ScanEdges | gui_mst.py:25-48 | from singleton arrays, the loop returns exactly the reference run's tree, weight and decisions, and the weight is the sum of the tree |
| Kruskal.KruskalMST | gui_mst.py:23-48 | sorts the edges in place (sorted, a stable permutation), then returns the reference run's tree, weight and decisions on the sorted order; the weight is the tree's sum, the tree is the accepted subsequence, it is acyclic, and it has n minus the number of components edges |
| KruskalExamples.TriangleRun | gui_mst.py:42-48 | on the unit-weight triangle 0-1-2, the first two edges are accepted, the third closes a cycle, and the weight is 2 |
| KruskalExamples.TieSort | gui_mst.py:24 | two edges of equal weight keep their input order |
| KruskalExamples.TieRun | gui_mst.py:42-48 | two disjoint edges of weight 5 are both accepted, in input order, for a weight of 10 |

## Left out

- Drawing with networkx and matplotlib (gui_mst.py:30-40, 50-57, 59-67, 69-77). It is user interface work in foreign libraries, and it does not affect `mst` or `mstWeight`.
- Printing the result (gui_mst.py:79-82). It is I/O. `KruskalMST` returns `mst` and `mstWeight` instead.
- The decision trace. The source only chooses a drawing branch (line 44 or 58). The model returns that choice as a ghost sequence, one `Accepted` or `RejectedCycle` per edge.
  - The cumulative weight after edge k is not stored in the trace. It is `Process(n, edges[..k+1]).weight`.
- `generate_random_edges` (gui_mst.py:84-115). It depends on `random`.
  - The vertex count `v` is rebound to a vertex at line 108. That is not analysed here.
- `main` (gui_mst.py:117-146). Its wall-clock timing and module entry point are I/O.
  - Its 15-edge example is not replayed as a lemma.
- Out-of-range and negative vertex indices. Python would raise `IndexError`, or would silently index from the end for a negative index. The model requires every endpoint to be in `[0, n)` instead (`InRange`).
  - No error result is modelled: the code reports none for a bad vertex count or an out-of-range vertex.
  - The code accepts a vertex count of 0, and so does the model.
- UnionFind.FindParent: requires the invariant `Valid` of its arrays. On an arbitrary cyclic `parent` list, the Python function would recurse without end. The arrays that `KruskalMST` builds always satisfy `Valid`.
  - Python's recursion depth limit is not modelled.
- UnionFind.UnionSets: requires `parent` and `rank` to be different arrays, as the two Python lists are.
- EdgeSort.SortEdges: Python's Timsort is modelled as an insertion sort. `SortUnique` shows that the result is the same for every stable sort. Timsort's own steps, and its `O(E log E)` cost, are not modelled.
- Non-integer weights. The source accepts any numbers that can be compared and added. The model uses unbounded integers (`int`), which match Python's `int`. Floating-point weights are not modelled.
- Global minimality of the tree's weight among all spanning trees. The code does not state it. The model proves the spanning-forest properties above instead.
