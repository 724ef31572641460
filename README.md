# algo-playground-rs, modelled in Dafny

This project models the algorithm core of algo-playground-rs, a Rust learning
playground that re-implements a few classical algorithms several times:

- **Disjoint sets** (union-find with path compression and union by rank). There
  are two stand-alone structures (`union_find/second.rs`, `union_find/first.rs`).
  The same `find`/`union` pair is also written out inside every Kruskal builder
  and the Borůvka builder.
- **Minimum spanning forests.** Six Kruskal builders, one Borůvka builder and
  three Prim builders.
- **Sorting.** Insertion, bubble, merge and quick sort, two files each.
- **Binary search**, in two versions.
- **Hamiltonian path enumeration** by backtracking over an adjacency map.

The model follows the form of the source:

- Code that updates arrays or fields in place becomes methods over Dafny
  `array`s or `class` fields, with `modifies` clauses and loop invariants.
- Pure recursion becomes functions and lemmas.

Shared specifications:

- **`ParentForest`** describes a parent array. Each vertex carries a ghost
  height that strictly grows from child to parent. That height proves that
  `find` terminates and gives each vertex's `Root`. The module also states
  path compression (`Compressed`), linking (`Linked`) and union by rank
  (`UnionedByRank`).
- **`SpanningForest`** holds the reference Kruskal (`Kruskal`). It is stated
  with quick-find labels. Every Kruskal builder is proved to return exactly
  `Kruskal(n, sorted)`, and the lemmas about `Kruskal` give acyclicity,
  spanning and the n-1 bound.
- **`PrimTree`** describes a growing Prim tree and what happens when some
  vertex cannot be reached.
- **`Sorting`** holds the sorting specifications:
  - `Sorted` (ascending by an integer key);
  - `SameOrder`, for stability: elements with equal keys keep their relative order;
  - `Merging`, the reference stable merge;
  - `Rearranged`, a permutation of a range with the rest of the array unchanged.

Element comparisons in the sorts go through an integer key `key: T -> int`.
Equal keys count as equal, so stability is meaningful.

## Model

| member | source | states |
|---|---|---|
| ParentForest.CompressedRoots | src/union_find/second.rs:18-25 | path compression leaves the root of every vertex unchanged |
| ParentForest.CompressedAt | src/min_spanning_tree/kruskals/edge_list_iterative.rs:10-21 | after compression the vertices on the walked path point straight at the root and every other entry is unchanged |
| ParentForest.CompressedIsForest | src/union_find/second.rs:18-25 | a compressed parent array is still a forest under the same heights |
| ParentForest.Link | src/union_find/second.rs:42 | making one root the child of another merges exactly those two trees and keeps every other vertex's root |
| ParentForest.LinkByRank | src/union_find/second.rs:36-43 | the rank rule (the lower rank goes under, a tie raises the survivor's rank) yields a forest in which the two trees are merged |
| ParentForest.AgreesUnioned | src/union_find/second.rs:59-65 | after union the roots agree with the quick-find labels merged at the two endpoints |
| SpanningForest.KruskalAcyclic | src/union_find/second.rs:59-65 | the reference Kruskal never adds an edge between two vertices already connected, so its forest is acyclic |
| SpanningForest.KruskalSubset | src/union_find/second.rs:59-65 | every edge of the forest is an edge of the input |
| SpanningForest.KruskalSpans | src/union_find/second.rs:59-65 | the endpoints of every input edge are connected in the forest |
| SpanningForest.KruskalBound | src/union_find/second.rs:55-66 | the forest has at most n-1 edges, and none when n = 0 |
| SpanningForest.AcyclicSize | src/union_find/second.rs:59-65 | an acyclic edge list on n vertices has n minus its component count edges |
| UnionFindSecond.UnionFind.constructor | src/union_find/second.rs:11-16 | parents is 0..n-1 and every rank is 0, so every vertex is its own root |
| UnionFindSecond.UnionFind.Find | src/union_find/second.rs:18-25 | None exactly for an index out of range, with nothing changed; otherwise the root, with the path compressed and every root unchanged |
| UnionFindSecond.UnionFind.Union | src/union_find/second.rs:27-44 | an out-of-range `a` is an error with nothing changed; an out-of-range `b` is an error after `a`'s path was compressed; otherwise Ok and a union by rank |
| UnionFindSecond.BuildMst | src/union_find/second.rs:54-67 | for any ordering of the edges sorted by weight, the result is the reference Kruskal forest of that order |
| UnionFindFirst.DisjointSet.constructor | src/union_find/first.rs:15-20 | empty parents, ranks and key map |
| UnionFindFirst.DisjointSet.GetIdx | src/union_find/first.rs:22-27 | Some(i) exactly when the value is a key mapped to i, None otherwise |
| UnionFindFirst.DisjointSet.Find | src/union_find/first.rs:29-35 | for an index in range: the root, with the path compressed and every root unchanged |
| UnionFindFirst.DisjointSet.MakeSet | src/union_find/first.rs:37-44 | a known value changes nothing; a new value gets index len with parent itself and rank 0, and no existing root changes |
| UnionFindFirst.DisjointSet.Union | src/union_find/first.rs:46-67 | an unmapped `a` is an error, checked first; an unmapped `b` is an error; otherwise a union by rank of the two indices |
| UnionFindFirst.DisjointSet.LinkSets | src/union_find/first.rs:58-65 | same roots change nothing; otherwise the lower-rank root goes under and a tie raises root_a's rank |
| UnionFindFirst.MakeSets | src/union_find/first.rs:80-82 | after make_set on the vertices 0..n-1, each vertex is mapped to itself and is its own root |
| UnionFindFirst.BuildMst | src/union_find/first.rs:77-94 | the result is the reference Kruskal forest of the sorted edge order |
| UnionFindFirst.AddEdge | src/union_find/first.rs:85-92 | one turn of the edge loop extends the forest exactly as the reference Kruskal does |
| KruskalIterative.FindSet | src/min_spanning_tree/kruskals/edge_list_iterative.rs:10-21 | returns the root, compresses the walked path and changes no vertex's root |
| KruskalIterative.Climb | src/min_spanning_tree/kruskals/edge_list_iterative.rs:11-14 | the first loop stops at the root of the vertex |
| KruskalIterative.PointAtRoot | src/min_spanning_tree/kruskals/edge_list_iterative.rs:15-19 | the second loop points exactly the vertices on the path at the root |
| KruskalIterative.Union | src/min_spanning_tree/kruskals/edge_list_iterative.rs:24-35 | a union by rank of the roots of the two vertices |
| KruskalIterative.BuildMst | src/min_spanning_tree/kruskals/edge_list_iterative.rs:38-56 | starting from singleton sets with rank 1, the result is the reference Kruskal forest |
| KruskalIterative.AddEdge | src/min_spanning_tree/kruskals/edge_list_iterative.rs:47-54 | one turn of the edge loop extends the forest exactly as the reference Kruskal does |
| KruskalRecursive.Find | src/min_spanning_tree/kruskals/revisit_elist_recurse.rs:11-16 | Some(root), with the path compressed, ranks untouched and every root unchanged |
| KruskalRecursive.Union | src/min_spanning_tree/kruskals/revisit_elist_recurse.rs:19-33 | Some(()) and a union by rank; on a tie root1's rank rises and root2 goes under it |
| KruskalRecursive.BuildMst | src/min_spanning_tree/kruskals/revisit_elist_recurse.rs:44-60 | with the vertex list 0..n-1 as the initial parents, the result is the reference Kruskal forest |
| KruskalRecursive.AddEdge | src/min_spanning_tree/kruskals/revisit_elist_recurse.rs:50-58 | one turn of the edge loop extends the forest exactly as the reference Kruskal does |
| KruskalAdjacency.FindSet | src/min_spanning_tree/kruskals/adjacency_list.rs:24-30 | returns the root, compresses the path and changes no root |
| KruskalAdjacency.FindSetShort | src/min_spanning_tree/kruskals/adjacency_list.rs:16-21 | the same root and the same effect on parents as find_set |
| KruskalAdjacency.Union | src/min_spanning_tree/kruskals/adjacency_list.rs:33-51 | as written: equal roots merge nothing, and otherwise root2 always goes under root1, whatever the ranks |
| KruskalAdjacency.UnionIgnoresRank | src/min_spanning_tree/kruskals/adjacency_list.rs:44-47 | with parents [0, 0, 2] and ranks [1, 0, 0], union(2, 0) puts the rank-1 root under the rank-0 root, so the parent array is no longer a forest under those ranks |
| KruskalAdjacency.UnionSwappingRoots | src/min_spanning_tree/kruskals/adjacency_list.rs:33-51 | with the roots swapped instead of u and v, union is a union by rank and ranks stay heights |
| KruskalAdjacency.BuildMst | src/min_spanning_tree/kruskals/adjacency_list.rs:54-71 | despite the swap quirk, the result is the reference Kruskal forest |
| KruskalAdjacency.AddEdge | src/min_spanning_tree/kruskals/adjacency_list.rs:62-69 | one turn of the edge loop extends the forest exactly as the reference Kruskal does |
| KruskalLinked.Vertex.constructor | src/min_spanning_tree/kruskals/linked_nodes.rs:45-51 | a vertex with its id, no parent and rank 0 |
| KruskalLinked.MakeSet | src/min_spanning_tree/kruskals/linked_nodes.rs:55-60 | the parent becomes the vertex itself only when it had none |
| KruskalLinked.FindSet | src/min_spanning_tree/kruskals/linked_nodes.rs:67-83 | returns the root vertex, compresses the path and changes no root |
| KruskalLinked.Union | src/min_spanning_tree/kruskals/linked_nodes.rs:86-101 | as written: with root1's rank not below root2's, root1 goes under root2 and on a tie root1 (the child) is raised; otherwise the guard swap points root2 at itself and nothing merges |
| KruskalLinked.LinkRoots | src/min_spanning_tree/kruskals/linked_nodes.rs:92-100 | the field writes of union after both roots are found, in both branches of the rank test |
| KruskalLinked.UnionSkipsLowerRank | src/min_spanning_tree/kruskals/linked_nodes.rs:94-97 | when root1 has the lower rank, the two sets stay apart after union |
| KruskalLinked.UnionByRank | src/min_spanning_tree/kruskals/linked_nodes.rs:86-101 | corrected: union by rank that merges the two sets in either rank order |
| KruskalLinked.LinkRootsByRank | src/min_spanning_tree/kruskals/linked_nodes.rs:92-100 | corrected link step: the lower-rank root goes under and the surviving root is raised on a tie |
| KruskalLinked.MakeSets | src/min_spanning_tree/kruskals/linked_nodes.rs:106-108 | every vertex becomes a singleton root of rank 0 |
| KruskalLinked.BuildMst | src/min_spanning_tree/kruskals/linked_nodes.rs:104-120 | the edge list is replaced by its sorted order and the result is the reference Kruskal forest of the vertex ids |
| KruskalLinked.AddEdges | src/min_spanning_tree/kruskals/linked_nodes.rs:111-118 | starting from singleton roots of rank 0, the edge loop returns the reference Kruskal forest of the vertex ids |
| KruskalLinked.AddEdge | src/min_spanning_tree/kruskals/linked_nodes.rs:111-118 | one turn of the edge loop extends the forest exactly as the reference Kruskal does, and every root keeps rank 0 |
| Boruvka.FindSetRecursive | src/min_spanning_tree/boruvkas/edge_list.rs:9-14 | returns the root, compresses the path and changes no root |
| Boruvka.FindSetsAgree | src/min_spanning_tree/boruvkas/edge_list.rs:9-28 | the recursive and the iterative find return the same root and leave the same array |
| Boruvka.UnionComponents | src/min_spanning_tree/boruvkas/edge_list.rs:31-44 | a union by rank of two distinct roots, which removes exactly one root |
| Boruvka.Nominate | src/min_spanning_tree/boruvkas/edge_list.rs:53-76 | min_edges[x] is the earliest of the lightest edges at x whose endpoints have different direct parents, or None |
| Boruvka.JoinEdge | src/min_spanning_tree/boruvkas/edge_list.rs:83-93 | a nominated edge is pushed exactly when its endpoints' roots differ, and those roots are then united |
| Boruvka.JoinRound | src/min_spanning_tree/boruvkas/edge_list.rs:80-95 | the forest stays acyclic and made of input edges, and the pair (roots, vertices not pointing at a root) decreases |
| Boruvka.JoinAll | src/min_spanning_tree/boruvkas/edge_list.rs:80-95 | walking the nominations in vertex order keeps the forest acyclic and made of input edges, and either removes a root or keeps the roots, loosens no vertex and leaves the first nomination's endpoints under one root, each pointing straight at it |
| Boruvka.NoNominationSpans | src/min_spanning_tree/boruvkas/edge_list.rs:77-79 | when no vertex nominates an edge, the endpoints of every edge are already connected |
| Boruvka.Round | src/min_spanning_tree/boruvkas/edge_list.rs:51-96 | a round either ends the loop with every edge spanned or makes the termination measure decrease |
| Boruvka.BuildMst | src/min_spanning_tree/boruvkas/edge_list.rs:47-98 | an acyclic forest of input edges that connects the endpoints of every edge, with at most n-1 edges |
| PrimTree.Start | src/min_spanning_tree/prims/revisit.rs:17-19 | only vertex 0 is visited, with a count of 1 and no edge |
| PrimTree.Grow | src/min_spanning_tree/prims/revisit.rs:35-39 | pushing a listed edge from a visited to an unvisited vertex keeps the tree acyclic and the count at one plus the number of edges |
| PrimTree.StuckAt | src/min_spanning_tree/prims/revisit.rs:20-41 | a full pass that adds nothing with vertices still unvisited shows that some vertex cannot be reached from 0 |
| PrimTree.Spans | src/min_spanning_tree/prims/revisit.rs:20-42 | once every vertex is visited the tree spans the graph with n-1 listed edges |
| PrimAdjacency.StandardScan | src/min_spanning_tree/prims/adjacency_list.rs:15-23 | `right` stays `left` when every neighbour is visited; otherwise it is the earliest unvisited neighbour of least weight |
| PrimAdjacency.StandardPass | src/min_spanning_tree/prims/adjacency_list.rs:13-29 | a pass keeps the growing-tree invariant, and a pass that adds nothing leaves the visited set closed |
| PrimAdjacency.BuildMstStandard | src/min_spanning_tree/prims/adjacency_list.rs:6-32 | returns (Some) exactly when every vertex can be reached from 0 through listed entries, and then the result is a spanning tree |
| PrimAdjacency.GetLowestCostEdge | src/min_spanning_tree/prims/adjacency_list.rs:68-87 | None when every neighbour is visited; otherwise (left, r) with r the earliest unvisited neighbour of least weight |
| PrimAdjacency.NextActive | src/min_spanning_tree/prims/adjacency_list.rs:52-61 | finds a visited, non-depleted vertex other than last_visited, or shows that there is none |
| PrimAdjacency.BuildMstFreestyle | src/min_spanning_tree/prims/adjacency_list.rs:37-65 | returns Some exactly when every vertex can be reached from 0, and then the result is a spanning tree |
| PrimRevisit.MinNeighbour | src/min_spanning_tree/prims/revisit.rs:26-34 | the earliest unvisited neighbour of least weight, or None when all are visited |
| PrimRevisit.Pass | src/min_spanning_tree/prims/revisit.rs:21-40 | a pass keeps n_visited equal to the visited count and to 1 + the number of edges; a pass that adds nothing leaves the visited set closed |
| PrimRevisit.BuildMst | src/min_spanning_tree/prims/revisit.rs:10-43 | returns Some exactly when every vertex can be reached from 0, and then the result is a spanning tree |
| Sorting.SwappedPermutes | src/sorting/insertion.rs:11 | an exchange keeps the multiset and undoes itself |
| Sorting.SwapSameOrder | src/sorting/insertion.rs:10-11 | exchanging a strictly out-of-order adjacent pair keeps equal keys in order |
| Sorting.SortedStableUnique | src/sorting/insertion.rs:66-118 | two sorted, stable rearrangements of the same input are equal, so every stable sort gives the same output |
| Sorting.SortedPermutationUnique | src/sorting/quick.rs:69-91 | two sorted permutations of the same integers are equal, with no stability needed |
| Sorting.RearrangedSortedUnique | src/sorting/quick/second.rs:52-75 | two sorted rearrangements of the same range of an integer sequence are equal, so the quicksort result does not depend on the pivots drawn |
| Sorting.MergingSorts | src/sorting/merge/second.rs:6-32 | merging sorted sequences gives a sorted, stable permutation of their concatenation |
| Sorting.MergingAppend | src/sorting/merge/second.rs:9-12 | when the last key of a is below the first key of b, the merge is a ++ b |
| Sorting.MergingPrepend | src/sorting/merge/second.rs:13-16 | when the last key of b is below the first key of a, the merge is b ++ a |
| Sorting.MergeFastAgrees | src/sorting/merge/first.rs:42-50 | the early-return checks of merge give the same result as merging element by element |
| Sorting.Reassemble | src/sorting/quick.rs:64-65 | a partitioned range whose two sides are sorted is sorted |
| Insertion.Sort | src/sorting/insertion.rs:3-15 | sorted, stable and a permutation of the input |
| InsertionSecond.SortInplace | src/sorting/insertion/second.rs:4-12 | sorted, stable and a permutation of the input |
| InsertionSecond.SortInplace2 | src/sorting/insertion/second.rs:15-21 | sorted, stable and a permutation of the input, so by uniqueness equal to sort_inplace |
| Bubble.BubbleSwap | src/sorting/bubble.rs:13-16 | an exchange carries the smaller element down and keeps the settled prefix |
| Bubble.BubbleStep | src/sorting/bubble.rs:12-17 | one comparison of the inner pass keeps the settled prefix and stability, and moves the suffix minimum down to j - 1 |
| Bubble.Sort | src/sorting/bubble.rs:4-23 | on a non-empty slice: sorted, stable and a permutation of the input |
| BubbleSecond.Pass | src/sorting/bubble/second.rs:7-13 | a pass is stable, reports a swap exactly when the input was unsorted, changes nothing otherwise, and settles the largest element at the end |
| BubbleSecond.Sort | src/sorting/bubble/second.rs:4-15 | on a non-empty slice: sorted, stable and a permutation of the input |
| BubbleSecond.SwapElements | src/sorting/bubble/second.rs:18-24 | exchanges exactly positions i and j |
| BubbleSecond.SwapElementsOffset | src/sorting/bubble/second.rs:27-37 | for i and j in range, exchanges exactly positions i and j |
| BubbleSecond.PassPtr | src/sorting/bubble/second.rs:43-49 | the same pass through swap_elements_offset, with the same contract |
| BubbleSecond.SortPtr | src/sorting/bubble/second.rs:40-51 | on a non-empty slice: sorted, stable and a permutation of the input |
| MergeFirst.SortMutate | src/sorting/merge/first.rs:7-32 | the range ends sorted, stable and a permutation of its old contents; the rest of the array is unchanged |
| MergeFirst.MergeHalves | src/sorting/merge/first.rs:15-31 | the range becomes the stable merge of its two old halves |
| MergeFirst.WriteMerged | src/sorting/merge/first.rs:16-26 | the merged prefix written so far, followed by the untaken rests, is the stable merge of the halves |
| MergeFirst.WriteStep | src/sorting/merge/first.rs:18-25 | writes the smaller head of the two halves, the left one on equal keys, at position current, advances past it and changes nothing else |
| MergeFirst.WritingStep | src/sorting/merge/first.rs:17-26 | appending that head keeps the written prefix a prefix of the stable merge of the halves |
| MergeFirst.CopyRest | src/sorting/merge/first.rs:27-31 | the untaken rest of either half is copied into the tail of the range |
| MergeFirst.Merge | src/sorting/merge/first.rs:36-71 | equals the early-return merge; on sorted inputs the output is sorted, stable and a permutation of a ++ b |
| MergeFirst.Interleave | src/sorting/merge/first.rs:51-70 | the nested loops compute the stable merge; an element of b goes before an element x of a only if its key is strictly smaller |
| MergeFirst.SortClone | src/sorting/merge/first.rs:74-87 | on non-empty input: sorted and stable |
| MergeFirst.SortClonePermutes | src/sorting/merge/first.rs:74-87 | the output of sort_clone is a permutation of its input |
| MergeFirst.SortCloneAgrees | src/sorting/merge/first.rs:74-87 | sort_clone returns exactly what the second merge sort returns |
| MergeSecond.Merge | src/sorting/merge/second.rs:6-32 | equals the early-return merge; on sorted inputs the output is sorted, stable and a permutation of left ++ right |
| MergeSecond.Interleave | src/sorting/merge/second.rs:18-31 | the loop and the two tail copies compute the stable merge, taking left on equal keys |
| MergeSecond.Sort | src/sorting/merge/second.rs:35-45 | sorted and stable |
| MergeSecond.SortPermutes | src/sorting/merge/second.rs:35-45 | the output of sort is a permutation of its input |
| Quick.SelectPivot | src/sorting/quick.rs:9-19 | an in-range index and its element; index 1 for a two-element slice |
| Quick.Sort | src/sorting/quick.rs:22-66 | for every pivot draw, the range ends sorted and rearranged, with the rest of the array unchanged |
| Quick.Partition | src/sorting/quick.rs:31-63 | an element with the pivot's key ends at idx, with no larger key before it and no smaller key after it, and the range is rearranged |
| Quick.Place | src/sorting/quick.rs:32-61 | one visit of the loop keeps the partition invariant and rearranges only the range |
| Quick.Rotate | src/sorting/quick.rs:51-58 | the exchanges carry values[i] down to idx and shift values[idx..i] one place right |
| Quick.RotationRearranges | src/sorting/quick.rs:51-58 | the rotation only rearranges the range it spans |
| QuickSecond.GetPivotIdx | src/sorting/quick/second.rs:8-11 | an index in [0, n) |
| QuickSecond.SortInplace | src/sorting/quick/second.rs:14-49 | for every pivot draw, the range ends sorted and rearranged, with the rest unchanged |
| QuickSecond.Partition | src/sorting/quick/second.rs:16-46 | an element with the pivot's key ends at the returned index, with no larger key before it and no smaller key after it |
| QuickSecond.Step | src/sorting/quick/second.rs:19-44 | one turn keeps the partition invariant and either advances i or moves the pivot towards i |
| QuickSecond.StepBefore | src/sorting/quick/second.rs:21-31 | a larger element before the pivot is exchanged past it and the pivot moves left; otherwise i advances |
| QuickSecond.MoveLarger | src/sorting/quick/second.rs:22-27 | the two exchanges move the pivot one place left, put the larger element right after it, keep the partition invariant and only rearrange the range |
| QuickSecond.StepAfter | src/sorting/quick/second.rs:32-43 | a smaller element after the pivot is exchanged past it and the pivot moves right; otherwise i advances |
| BinarySearchFirst.BinarySearch | src/binary_search/first.rs:4-37 | equals the search function: a match at the first probe, then at most ten refinements, or an abort at the index past the end |
| BinarySearchFirst.Refinements | src/binary_search/first.rs:15-36 | the loop computes the refinements from a probe: a found index, None after the tenth miss, or the out-of-range index |
| BinarySearchFirst.Refine | src/binary_search/first.rs:15-36 | a reported index holds the value |
| BinarySearchFirst.Search | src/binary_search/first.rs:4-37 | a reported index holds the value; a slice of at most one element aborts at data[len] |
| BinarySearchFirst.Narrow | src/binary_search/first.rs:18-30 | a probe too high becomes max_idx and the next probe is at or below it (1 goes to 0); a probe too low becomes min_idx and the next probe is at or above it |
| BinarySearchFirst.Aborts | src/binary_search/first.rs:10-31 | the only out-of-range index is len, reached on a slice of at most one element or after a last element below the value |
| BinarySearchFirst.PresentDoesNotAbort | src/binary_search/first.rs:16-31 | on ascending data of two or more elements that holds the value, the search does not abort |
| BinarySearchFirst.AboveAll | src/binary_search/first.rs:15-31 | a value above every element aborts on fewer than 2048 elements and is reported absent on more |
| BinarySearchFirst.Stalled | src/binary_search/first.rs:18-30 | a probe above the value whose refinement lands on itself stays there, and the search gives up after the tenth refinement |
| BinarySearchFirst.Examples | src/binary_search/first.rs:43-56 | 1, 3 and 15 are found at 0, 1 and 6 in [1, 3, 4, 5, 7, 10, 15, 19] |
| BinarySearchFirst.ExampleAbsent | src/binary_search/first.rs:43-56 | 13 is reported absent from [1, 3, 4, 5, 7, 10, 15, 19], because the probe stalls at index 6 |
| BinarySearchSecond.PartialCmp | src/binary_search/second.rs:15 | integers always compare: Equal exactly on equality, Less exactly below |
| BinarySearchSecond.BinaryRecurse | src/binary_search/second.rs:7-21 | as written: never an error on integers, and a reported index means the value is present |
| BinarySearchSecond.BinarySearch | src/binary_search/second.rs:26-31 | as written: never an error, and a reported index means the value is present |
| BinarySearchSecond.AsWrittenFindsPresent | src/binary_search/second.rs:15-19 | on ascending values Ok(None) is returned exactly when x is absent |
| BinarySearchSecond.SameVerdict | src/binary_search/second.rs:17-18 | whatever offsets are passed, the search finds x on the same inputs |
| BinarySearchSecond.LostOffset | src/binary_search/second.rs:17-18 | finding 8 in [1..8] reports index 2, which holds 3 |
| BinarySearchSecond.BinaryRecurseFixed | src/binary_search/second.rs:7-21 | corrected: a reported index lies in the current subslice and holds x |
| BinarySearchSecond.BinarySearchFixed | src/binary_search/second.rs:26-31 | corrected: a reported index holds x |
| BinarySearchSecond.FixedSearchCorrect | src/binary_search/second.rs:24-31 | corrected, on ascending values: Ok(None) exactly when x is absent, otherwise an index holding x, and on strictly ascending values that index is the first occurrence |
| BinarySearchSecond.DuplicateNotFirst | src/binary_search/second.rs:24-25 | on the ascending values [1, 1, 1] both searches report index 1 for 1, not the first occurrence 0 |
| BinarySearchSecond.Examples | src/binary_search/second.rs:38-50 | on [1, 3, 4, 5, 7, 1, 15, 19]: 1, 3 and 15 are found at 0, 1 and 6, and 13 is absent |
| Hamiltonian.CompletionsSound | src/path_search/hamiltonian/basic.rs:7-24 | every path recorded from p extends p and is Hamiltonian: n distinct vertices, each the neighbour of the previous one |
| Hamiltonian.CompletionsComplete | src/path_search/hamiltonian/basic.rs:7-24 | every Hamiltonian extension of p is recorded |
| Hamiltonian.CompletionsOnce | src/path_search/hamiltonian/basic.rs:17-23 | on adjacency lists without repeats, no path is recorded twice |
| Hamiltonian.FromStartsExact | src/path_search/hamiltonian/basic.rs:27-34 | a path is found exactly when it is Hamiltonian and starts at one of the start keys |
| Hamiltonian.FromStartsOnce | src/path_search/hamiltonian/basic.rs:27-34 | with distinct start keys and adjacency lists without repeats, no path is found twice |
| Hamiltonian.AnyKeyOrder | src/path_search/hamiltonian/basic.rs:29 | any two orders of the keys give the same multiset of paths |
| Hamiltonian.Backtracker.constructor | src/path_search/hamiltonian/basic.rs:28-30 | the graph, an empty path and no recorded paths |
| Hamiltonian.Backtracker.Backtrack | src/path_search/hamiltonian/basic.rs:7-24 | appends exactly the completions of the current path to paths and restores path |
| Hamiltonian.FindHamiltonians | src/path_search/hamiltonian/basic.rs:27-34 | the result lists exactly the Hamiltonian paths of the graph, each once when adjacency lists have no repeats |

## Left out

- Floating point. Edge weights are `int`, so `partial_cmp(..).unwrap()` never panics on NaN. "No minimum yet", which the Prim scans write as `f32::INFINITY`, is an `Option`, so an edge whose weight is itself infinite is not modelled.
- The library sort in the Kruskal builders. Each builder takes the sorted edge list as a parameter `sorted`: some permutation of the edges that ascends by weight. Tie order is unspecified, so the results are stated for every such order.
- Minimality of total weight is not proved for any builder.
  - The six Kruskal builders (UnionFindSecond, UnionFindFirst, KruskalIterative, KruskalRecursive, KruskalAdjacency and KruskalLinked `BuildMst`) are proved equal to the reference Kruskal forest of the given weight order. That forest is acyclic, made of input edges, spanning, and has at most n-1 edges.
- Boruvka.BuildMst, PrimAdjacency.BuildMstStandard, PrimAdjacency.BuildMstFreestyle, PrimRevisit.BuildMst: these are proved only to return an acyclic, spanning forest or tree of input (listed) edges with at most n-1 edges. Their contracts do not say which such forest is returned, and they state no weight property.
  - These four source builders do not always return a minimum spanning tree; the cases below were reasoned from the code, not run.
  - The Prim builders add the lightest edge of one visited vertex at a time, not the lightest edge leaving the whole visited set. The two sweeps take each visited vertex in index order; the freestyle builder takes the vertex visited last. On the adjacency lists `[[(1, 1), (2, 2)], [(0, 1), (2, 100)], [(0, 2), (1, 100)]]` they all pick (0, 1) and then (1, 2), of weight 101, where (0, 1) and (0, 2) weigh 3.
  - Borůvka nominates the lightest edge per vertex, not per component, and joins the nominations in vertex order. On vertices 0..3 with edges (0, 1, 1), (2, 3, 1), (0, 2, 10), (1, 3, 5), the second round joins vertex 0's (0, 2) before vertex 1's (1, 3). The result weighs 12, where (0, 1), (2, 3), (1, 3) weigh 7.
- The expected forests in the tests are handled as follows.
  - The Kruskal tests are not evaluated; the equality with the reference Kruskal forest, which fixes the result for a given order, stands in for them.
  - The Borůvka and Prim tests are not evaluated either. Their contracts do not determine which forest is returned, so these expected outputs are not covered.
- The expected outputs in the sorting tests are not evaluated.
  - The insertion, bubble and merge sorts are proved sorted, stable and a permutation, and `Sorting.SortedStableUnique` shows that this fixes the output.
  - The two quicksorts are not stable and are proved only sorted and rearranged within their range. Their tests sort `i64` values by themselves, and for integer keys `Sorting.SortedPermutationUnique` and `Sorting.RearrangedSortedUnique` show that this also fixes the output, whatever pivots are drawn.
- The expected path lists of the Hamiltonian tests are not evaluated. `Hamiltonian.FindHamiltonians` shows that the result is exactly the Hamiltonian paths, once each; the test helper `build_graph` is not part of this model.
- Randomness. The pivot draw of both quicksorts is a parameter `draw(lo, hi)`, and the sorts are proved for every draw.
- `HashMap` key order in `find_hamiltonians`. The key enumeration is a parameter, and `Hamiltonian.AnyKeyOrder` shows that the order does not change the multiset of paths.
- Rust slices of a slice (`&mut values[..mid]`) are modelled as ranges `[lo, hi)` of one array, with the rest of the array proved unchanged.
- `unsafe` raw-pointer swaps, `Rc`/`RefCell` sharing and borrow-flag panics. These are plain element swaps and plain field writes. `insertion.rs` `sort_ptrs` and `sort_ptrs_manual` make exactly the exchanges of `sort`, so `Insertion.Sort` models all three.
- Generic element types. The sorts compare elements through an integer key. The binary searches work on integers, so the `Err("unable to compare values")` arm of `binary_search/second.rs` cannot be reached.
- Panics are preconditions. Examples: an index out of range in `DisjointSet::find`, an endpoint that is not a vertex, an empty slice in both bubble sorts and in `sort_clone` (whose `(0 + 1) / 2` split recurses forever), an empty graph in the Prim builders, and an adjacency list naming a vertex that is not a key of the Hamiltonian graph. `Hamiltonian.Closed` excludes such graphs because `basic.rs` is stated for undirected graphs, where every neighbour is itself a key. The source reaches the failing lookup only for a path that is not yet complete: `{1: [2], 3: [1]}` returns `[[1, 2], [3, 1]]` without a panic, and the model does not cover that graph.
- PrimAdjacency.BuildMstStandard, PrimAdjacency.BuildMstFreestyle, PrimRevisit.BuildMst: where the source loops forever (some vertex cannot be reached from vertex 0 through the listed entries), the model returns `None`. It proves that this happens exactly in that case.
- UnionFindFirst.BuildMst: it requires the vertex list to be 0..n-1 in order, as every caller builds it. The source registers each vertex value with `make_set` but then passes edge endpoints to `find` as indices and the roots to `union` as values. With another list, such as [1, 0, 2], indices and values disagree and the selection need not be Kruskal's; the model does not cover that case.
- KruskalAdjacency.BuildMst: it requires the vertex list to be 0..n-1 in order, because the source copies that list as the initial parent array. With another list, such as [1, 0], the array is not a forest and `find_set` recurses forever.
- Boruvka.BuildMst: it requires the vertex list to be 0..n-1 in order, because the source copies that list as the initial parent array. With another list the array need not be a forest and `find_set` can recurse forever.
- KruskalLinked.BuildMst: it requires vertex i to have id i, rank 0 and either no parent or itself as parent, as `Vertex::new` leaves it. `make_set` keeps a parent that is already set, so on other vertices the sets need not start as singletons; the model does not cover that case.
- BinarySearchFixed, FixedSearchCorrect: the first occurrence that the doc comment of `binary_search` promises is proved only for strictly ascending values. With equal neighbours the search can report a later occurrence, as `BinarySearchSecond.DuplicateNotFirst` shows; the search as written behaves the same way.
- KruskalRecursive.BuildMst: it requires the vertex list to be 0..n-1 in order, because the source uses that list as the initial parent array. With any other list the array need not be a forest, and `find` can loop or index out of range.
- BinarySearchFirst.Search: the out-of-range read `data[len]` is modelled as the outcome `Err(len)`. The model does not prove that the search finds every value present in ascending data: the ten-refinement cap and the probe arithmetic make that depend on the length.
- Borůvka `find_set_iterative` has the same loop shape as `edge_list_iterative.rs`'s `find_set`. It is modelled by `KruskalIterative.FindSet`, and `Boruvka.FindSetsAgree` relates it to the recursive find.
- `src/main.rs` only declares modules; it is not part of this model.

## Findings

| source | as written | input that shows it | evidently intended | confidence | as-written member | corrected member |
|---|---|---|---|---|---|---|
| src/min_spanning_tree/kruskals/adjacency_list.rs:44-47 | when root1 has the lower rank, `u` and `v` are swapped, not the roots, so root2 always goes under root1 | parents [0, 0, 2] and ranks [1, 0, 0]: union(2, 0) puts root 0 (rank 1) under root 2 (rank 0) | swap the roots so that the lower-rank root goes under | not executed | KruskalAdjacency.UnionIgnoresRank | KruskalAdjacency.UnionSwappingRoots |
| src/min_spanning_tree/kruskals/linked_nodes.rs:94-97 | swapping the two borrow guards leaves `root2` naming the old second vertex, so when root1 has the lower rank, root2's parent is set to root2 and nothing merges | two singletons where vertex 0 has rank 0 and vertex 1 has rank 1: union(0, 1) leaves them in different sets | attach the lower-rank root under the other and raise the survivor on a tie | not executed | KruskalLinked.UnionSkipsLowerRank | KruskalLinked.UnionByRank |
| src/binary_search/second.rs:17-18 | the recursive calls pass offset 0 (left) and mid+1 (right), dropping the caller's offset | searching 8 in [1, 2, 3, 4, 5, 6, 7, 8] returns Some(2), and index 2 holds 3 | pass `offset` to the left half and `offset + mid + 1` to the right half | not executed | BinarySearchSecond.LostOffset | BinarySearchSecond.FixedSearchCorrect |

The Kruskal builders keep the code as written. In `adjacency_list.rs` the
direction of a link never changes which vertices are connected.
`KruskalAdjacency.BuildMst` uses the as-written `KruskalAdjacency.Union` and is
still proved to return the reference Kruskal forest. In `linked_nodes.rs` every
root keeps rank 0 during `build_mst`, so the skipped branch is never taken
there. `KruskalLinked.BuildMst` uses the as-written `KruskalLinked.Union`, and
its proof carries that rank-0 invariant.
