# ADS assignments, modelled in Dafny

This project models the core of a set of Java course assignments on algorithms
and data structures, and proves what that code promises.

- **Wagons and trains**: a doubly linked list.
  - A `Wagon` holds a successor and a predecessor reference.
  - A `Train` holds a locomotive and the first wagon of its chain.
  - The wagon classes are `Wagons.Wagon` (`wagon.dfy`) and `Trains.Train`
    (`train.dfy`). Both update their links in place.
  - A ghost sequence describes each chain from head to tail. Every operation
    states the new chain in terms of the old one and keeps the chain well formed:
    links in both directions and no repeated wagon.
- **Sorting**:
  - selection-insertion sort, proved stable (`insertion_sort.dfy`);
  - quick sort with the last item as pivot (`quick_sort.dfy`);
  - tops heap sort, which sorts the numTops best items to the front
    (`heap_sort.dfy`).
  - All three work in place on an array. They are proved sorted and a
    permutation against the definitions in `sort_spec.dfy`.
  - A `Comparator` is modelled as a key function to `int`.
- **OrderedArrayList**: a list whose first `nSorted` items are ordered by a
  comparator (`ordered_list.dfy`). It has a recursive and an iterative binary
  search over that ordered front, a linear search fallback, and `merge`.
- **Archer**: the scores of one archer in a fixed board of arrows, the id
  counter, and the three-level comparator (`archer.dfy`).
- **DirectedGraph**: vertices and edge maps keyed by vertex id (`graph.dfy`),
  with:
  - edge insertion and counting;
  - removal of unconnected vertices;
  - depth-first search, proved to find a repeat-free path exactly when the
    target is reachable;
  - breadth-first search, proved to find a shortest path exactly when the
    target is reachable;
  - Dijkstra's search as the source writes it.

  Paths and reachability are defined in `graph_paths.dfy`. The invariants of
  breadth-first search are in `bfs_facts.dfy`.

Where the source throws or dereferences null, a method either returns a
refusal value (`ok == false`, `None`) or requires that the case does not
arise. The requirement is stated in the member's contract and listed under
"Left out", one line per member.
Defects of the source are modelled as written and exhibited by lemmas or
methods that construct the failing input.

## Model

| member | source | states |
|---|---|---|
| Archery.Misses | Assignment3/src/main/java/nl/hva/ict/ads/Archer.java:107-117 | the miss count is at most the number of arrows; it is zero exactly when no arrow scored 0 and full exactly when every arrow scored 0 |
| Archery.SumUpdate | Assignment3/src/main/java/nl/hva/ict/ads/Archer.java:51-53 | overwriting one arrow changes the total score by the new minus the old points |
| Archery.SumSigns | Assignment3/src/main/java/nl/hva/ict/ads/Archer.java:51-53 | a board of misses sums to 0, and one without negative points sums to at least 0 |
| Archery.SumConcat | Assignment3/src/main/java/nl/hva/ict/ads/Archer.java:51-53 | the total score of two boards laid end to end is the sum of their totals |
| Archery.RegisterRoundTotal | Assignment3/src/main/java/nl/hva/ict/ads/Archer.java:39-53 | after registering a round, the total score loses the overwritten slots and gains the new points |
| Archery.IntCompare | Assignment3/src/main/java/nl/hva/ict/ads/Archer.java:65-67 | Integer.compare: the result is -1, 0 or 1 and its sign is the order of the two ints |
| Archery.CompareStandings | Assignment3/src/main/java/nl/hva/ict/ads/Archer.java:62-69 | negative exactly when the first archer ranks before the second (higher score, then fewer misses, then lower id); positive exactly for the converse; zero only for equal standings |
| Archery.RanksBeforeTransitive | Assignment3/src/main/java/nl/hva/ict/ads/Archer.java:62-69 | the comparator's ranking is transitive |
| Archery.IdCounter.constructor | Assignment3/src/main/java/nl/hva/ict/ads/Archer.java:12 | the counter starts at 135787, so the first id issued is 135788, and has issued no id |
| Archery.IdCounter.IncrementAndGet | Assignment3/src/main/java/nl/hva/ict/ads/Archer.java:12 | returns the counter plus one and records it as issued |
| Archery.IssuedIdsIncrease | Assignment3/src/main/java/nl/hva/ict/ads/Archer.java:12 | ids issued later are strictly larger, and all exceed the counter's start |
| Archery.Archer.constructor | Assignment3/src/main/java/nl/hva/ict/ads/Archer.java:16-31 | a new archer takes the counter's next id and keeps its names; its board holds 30 arrows, all 0 |
| Archery.Archer.RegisterScoreForRound | Assignment3/src/main/java/nl/hva/ict/ads/Archer.java:39-45 | the round's slots (round - 1) * 3 onwards hold the points; every other slot is unchanged |
| Archery.Archer.TotalMisses | Assignment3/src/main/java/nl/hva/ict/ads/Archer.java:107-117 | the loop counts the arrows that scored 0, as Misses defines, between 0 and the board size |
| Archery.Archer.TotalScore | Assignment3/src/main/java/nl/hva/ict/ads/Archer.java:51-53 | a board of misses totals 0, and one without negative points totals at least 0; SumUpdate, SumConcat and RegisterRoundTotal give how the total changes when a slot is overwritten, boards are joined or a round is registered |
| Archery.Archer.CompareByHighestTotalScoreWithLeastMissesAndLowestId | Assignment3/src/main/java/nl/hva/ict/ads/Archer.java:62-69 | negative exactly when this archer ranks before the other; zero against itself; never zero between archers with different ids |
| SortSpec.WithKeyConcat | Assignment3/src/main/java/nl/hva/ict/ads/SorterImpl.java:17-45 | the items with a given key in a concatenation are those of each part, in order |
| SortSpec.WithKeyAbsent | Assignment3/src/main/java/nl/hva/ict/ads/SorterImpl.java:17-45 | a list without the key has no items with that key |
| SortSpec.PermutationKeepsBounds | Assignment3/src/main/java/nl/hva/ict/ads/SorterImpl.java:104-125 | a bound on every key survives any permutation |
| SortSpec.SwapInRange | Assignment3/src/main/java/nl/hva/ict/ads/SorterImpl.java:104-125 | a swap inside [low, high] keeps the rest of the list and the multisets of the range and of the whole |
| SortSpec.Swap | Assignment3/src/main/java/nl/hva/ict/ads/SorterImpl.java:121-122 | Collections.swap: exchanges two positions and keeps the multiset |
| InsertionSort.InsertKeepsSorted | Assignment3/src/main/java/nl/hva/ict/ads/SorterImpl.java:22-41 | dropping an item between a sorted part with keys at most its own and one with larger keys gives a sorted list |
| InsertionSort.InsertKeepsOrderPerKey | Assignment3/src/main/java/nl/hva/ict/ads/SorterImpl.java:33-40 | moving an item in front of items of strictly larger keys keeps the relative order of equal keys |
| InsertionSort.InsertionPass | Assignment3/src/main/java/nl/hva/ict/ads/SorterImpl.java:22-41 | one outer pass extends the stably sorted prefix by one item, keeps the untouched suffix and permutes the list |
| InsertionSort.PassShape | Assignment3/src/main/java/nl/hva/ict/ads/SorterImpl.java:22-41 | the list after a pass splits into its new prefix and the untouched suffix |
| InsertionSort.PassPermutes | Assignment3/src/main/java/nl/hva/ict/ads/SorterImpl.java:22-41 | a pass permutes the list |
| InsertionSort.HoleFilled | Assignment3/src/main/java/nl/hva/ict/ads/SorterImpl.java:33-40 | the shifted items plus the item dropped into the hole are the item moved to position j |
| InsertionSort.PassKeepsOrderPerKey | Assignment3/src/main/java/nl/hva/ict/ads/SorterImpl.java:22-41 | appending the same item to two lists keeps their per-key order equal |
| InsertionSort.DropIn | Assignment3/src/main/java/nl/hva/ict/ads/SorterImpl.java:26-40 | the inner loop shifts exactly the preceding items with a larger key and drops the item in behind the last one with a key at most its own |
| InsertionSort.PassKeepsSortedUpTo | Assignment3/src/main/java/nl/hva/ict/ads/SorterImpl.java:22-41 | a pass preserves the outer loop's invariant with the bound raised by one |
| InsertionSort.SortedUpToEnd | Assignment3/src/main/java/nl/hva/ict/ads/SorterImpl.java:22-44 | when the invariant covers the whole list, it is sorted, a permutation and stable |
| InsertionSort.SortedUpToStart | Assignment3/src/main/java/nl/hva/ict/ads/SorterImpl.java:22 | the invariant holds before the first pass |
| InsertionSort.SelInsSort | Assignment3/src/main/java/nl/hva/ict/ads/SorterImpl.java:17-45 | selInsSort sorts the list stably and only permutes it |
| QuickSort.JoinAroundPivot | Assignment3/src/main/java/nl/hva/ict/ads/SorterImpl.java:75-93 | a sorted run below the pivot, the pivot, and a sorted run of keys at least the pivot's form a sorted run |
| QuickSort.Partition | Assignment3/src/main/java/nl/hva/ict/ads/SorterImpl.java:104-125 | the pivot (the old last item) lands at p; keys before p are below it and keys after it are at least its own; the range is permuted and nothing outside it moves |
| QuickSort.PartitionScan | Assignment3/src/main/java/nl/hva/ict/ads/SorterImpl.java:108-119 | the loop gathers the items ranking below the pivot at the front of the range, and the rest follow up to the pivot |
| QuickSort.PartitionRound | Assignment3/src/main/java/nl/hva/ict/ads/SorterImpl.java:114-118 | one round keeps the partition loop's invariant |
| QuickSort.PartitionSwap | Assignment3/src/main/java/nl/hva/ict/ads/SorterImpl.java:115-118 | a round that swaps a smaller item forward keeps the invariant |
| QuickSort.PartitionKeep | Assignment3/src/main/java/nl/hva/ict/ads/SorterImpl.java:115 | a round that leaves the item in place keeps the invariant |
| QuickSort.PivotPlaced | Assignment3/src/main/java/nl/hva/ict/ads/SorterImpl.java:121-124 | the final swap puts the pivot between the two runs |
| QuickSort.QuickSortPart | Assignment3/src/main/java/nl/hva/ict/ads/SorterImpl.java:75-93 | quickSortPart sorts [low, high] and permutes it, and leaves the rest alone |
| QuickSort.SortedAfterBothHalves | Assignment3/src/main/java/nl/hva/ict/ads/SorterImpl.java:75-93 | partition, then sorting both sides, sorts and permutes the range |
| QuickSort.QuickSort | Assignment3/src/main/java/nl/hva/ict/ads/SorterImpl.java:56-64 | quickSort sorts the list and only permutes it |
| TopsHeapSort.Parent | Assignment3/src/main/java/nl/hva/ict/ads/SorterImpl.java:274-294 | the parent index lies before the child, and the child is its left or right child |
| TopsHeapSort.LeftChild | Assignment3/src/main/java/nl/hva/ict/ads/SorterImpl.java:283-285 | the left child lies after its parent, and getParentIndex leads back to the parent |
| TopsHeapSort.RightChild | Assignment3/src/main/java/nl/hva/ict/ads/SorterImpl.java:292-294 | the right child is the slot after the left child and has the same parent |
| TopsHeapSort.AncestorBound | Assignment3/src/main/java/nl/hva/ict/ads/SorterImpl.java:145-150 | in a heap under the reversed comparator, no item has a higher key than the root |
| TopsHeapSort.RootIsMax | Assignment3/src/main/java/nl/hva/ict/ads/SorterImpl.java:145-150 | the root holds the worst item of the lead collection |
| TopsHeapSort.SwimStep | Assignment3/src/main/java/nl/hva/ict/ads/SorterImpl.java:210-220 | one swap of heapSwim moves the only violation one level up |
| TopsHeapSort.SwimDone | Assignment3/src/main/java/nl/hva/ict/ads/SorterImpl.java:210 | when heapSwim stops, the heap condition holds everywhere |
| TopsHeapSort.HeapSwim | Assignment3/src/main/java/nl/hva/ict/ads/SorterImpl.java:201-222 | turns a heap of heapSize - 1 items plus one new item into a heap of heapSize items; it only permutes that prefix |
| TopsHeapSort.SwapInHeap | Assignment3/src/main/java/nl/hva/ict/ads/SorterImpl.java:201-267 | a swap inside the heap keeps its multiset and everything after it |
| TopsHeapSort.SinkChild | Assignment3/src/main/java/nl/hva/ict/ads/SorterImpl.java:240-254 | the child heapSink compares against is a child of x and has the highest key among x's children |
| TopsHeapSort.SinkStep | Assignment3/src/main/java/nl/hva/ict/ads/SorterImpl.java:256-263 | one swap of heapSink moves the only violation one level down |
| TopsHeapSort.SinkDone | Assignment3/src/main/java/nl/hva/ict/ads/SorterImpl.java:240-265 | when heapSink stops, the heap condition holds everywhere |
| TopsHeapSort.HeapSink | Assignment3/src/main/java/nl/hva/ict/ads/SorterImpl.java:234-267 | repairs a heap whose root may be out of place; it only permutes that prefix |
| TopsHeapSort.BuildLeadHeap | Assignment3/src/main/java/nl/hva/ict/ads/SorterImpl.java:152-155 | the first numTops items become a heap under the reversed comparator; the list is permuted |
| TopsHeapSort.PrefixChangeKeepsMultiset | Assignment3/src/main/java/nl/hva/ict/ads/SorterImpl.java:152-155 | permuting a prefix permutes the whole list |
| TopsHeapSort.ReplaceRoot | Assignment3/src/main/java/nl/hva/ict/ads/SorterImpl.java:164-168 | demoting the worst lead item to position i leaves a heap whose only violation is at the root; every lead key is at most the demoted one |
| TopsHeapSort.SelectLead | Assignment3/src/main/java/nl/hva/ict/ads/SorterImpl.java:158-171 | after the second loop, no item outside the lead has a lower key than the heap root; the lead is still a heap and the list is permuted |
| TopsHeapSort.SelectPass | Assignment3/src/main/java/nl/hva/ict/ads/SorterImpl.java:162-170 | one pass extends "no key below the root" to position i and keeps the heap |
| TopsHeapSort.SelectStep | Assignment3/src/main/java/nl/hva/ict/ads/SorterImpl.java:164-169 | after a demotion and heapSink, the tail up to i still has no key below the new root |
| TopsHeapSort.SortLead | Assignment3/src/main/java/nl/hva/ict/ads/SorterImpl.java:177-183 | the heap sort of the third loop sorts the lead and only permutes it; the tail is unchanged |
| TopsHeapSort.RootToBack | Assignment3/src/main/java/nl/hva/ict/ads/SorterImpl.java:181 | swapping the root to position i extends the sorted back part |
| TopsHeapSort.SortStep | Assignment3/src/main/java/nl/hva/ict/ads/SorterImpl.java:182 | heapSink over the first i items keeps the sorted back part and its bound |
| TopsHeapSort.SortedFront | Assignment3/src/main/java/nl/hva/ict/ads/SorterImpl.java:177-183 | when only the root is left, the whole lead is sorted |
| TopsHeapSort.TopsHeapSort | Assignment3/src/main/java/nl/hva/ict/ads/SorterImpl.java:139-189 | for a non-positive numTops nothing changes; above the size the whole list is sorted; otherwise the first numTops items are sorted and no later key is below any of them; always a permutation |
| TopsHeapSort.LeadBeforeTail | Assignment3/src/main/java/nl/hva/ict/ads/SorterImpl.java:177-183 | sorting the lead keeps every lead key at most every tail key |
| OrderedLists.FirstMatchFrom | Assignment2/src/main/java/models/OrderedArrayList.java:222-230 | the first position from `from` on whose key matches, or -1 when there is none |
| OrderedLists.LinearSearchIn | Assignment2/src/main/java/models/OrderedArrayList.java:211-231 | -1 on an empty ordered front; otherwise a matching position from nSorted - 1 on, or -1 when none matches there |
| OrderedLists.BinarySearchIn | Assignment2/src/main/java/models/OrderedArrayList.java:173-203 | the helper returns -1 or a position whose key matches |
| OrderedLists.BinarySearchFindsInRange | Assignment2/src/main/java/models/OrderedArrayList.java:173-203 | on an ordered front, a match inside [left, right] is found within that range |
| OrderedLists.BinarySearchFallsBack | Assignment2/src/main/java/models/OrderedArrayList.java:177-178 | with no match in the range, the search ends in the linear search |
| OrderedLists.SearchComplete | Assignment2/src/main/java/models/OrderedArrayList.java:155-231 | with a non-empty ordered front, the search finds an item exactly when an item with its key is in the list |
| OrderedLists.EmptyFrontFindsNothing | Assignment2/src/main/java/models/OrderedArrayList.java:211-216 | with nSorted 0, an item that is in the list is not found |
| OrderedLists.RemoveFirst | Assignment2/src/main/java/models/OrderedArrayList.java:59-61 | removes exactly one occurrence when the item is present, and nothing otherwise |
| OrderedLists.OrderedArrayList.constructor | Assignment2/src/main/java/models/OrderedArrayList.java:22-26 | an empty list with the given ordening and nothing ordered |
| OrderedLists.OrderedArrayList.Clear | Assignment2/src/main/java/models/OrderedArrayList.java:33-36 | empties the list and resets nSorted |
| OrderedLists.OrderedArrayList.SortWith | Assignment2/src/main/java/models/OrderedArrayList.java:39-43 | sorts stably by c, permutes, adopts c and marks the whole list as ordered |
| OrderedLists.OrderedArrayList.Sort | Assignment2/src/main/java/models/OrderedArrayList.java:64-68 | re-sorts with the current ordening unless the whole list is already marked as ordered |
| OrderedLists.OrderedArrayList.Add | Assignment2/src/main/java/models/OrderedArrayList.java:47-50 | inserts at index and sets nSorted to index |
| OrderedLists.OrderedArrayList.RemoveAt | Assignment2/src/main/java/models/OrderedArrayList.java:53-56 | removes and returns the item at index and sets nSorted to index |
| OrderedLists.OrderedArrayList.Remove | Assignment2/src/main/java/models/OrderedArrayList.java:59-61 | removes the first equal item, reports whether there was one, and leaves nSorted alone |
| OrderedLists.OrderedArrayList.IndexOfByRecursiveBinarySearch | Assignment2/src/main/java/models/OrderedArrayList.java:155-162 | -1 or a position with the item's key; with a valid, non-empty ordered front, a position exactly when the key is present; -1 when nothing is ordered |
| OrderedLists.OrderedArrayList.LinearSearch | Assignment2/src/main/java/models/OrderedArrayList.java:211-231 | the loop returns what LinearSearchIn specifies |
| OrderedLists.OrderedArrayList.IndexOfByIterativeBinarySearch | Assignment2/src/main/java/models/OrderedArrayList.java:99-144 | the iterative search gives the same answer as the recursive one |
| OrderedLists.OrderedArrayList.IndexOf | Assignment2/src/main/java/models/OrderedArrayList.java:71-88 | -1 for null; otherwise -1 or a position carrying the item's key |
| OrderedLists.OrderedArrayList.Merge | Assignment2/src/main/java/models/OrderedArrayList.java:245-268 | false for null; otherwise true, appending the item exactly when the search finds no match and leaving the list as it was otherwise |
| OrderedLists.AddWithinFrontKeepsOrder | Assignment2/src/main/java/models/OrderedArrayList.java:47-50 | add(index) within the ordered front keeps the invariant |
| OrderedLists.AddBeyondFrontBreaksOrder | Assignment2/src/main/java/models/OrderedArrayList.java:47-50 | add(index) past the ordered front can mark unordered items as ordered |
| OrderedLists.RemoveWithinFrontKeepsOrder | Assignment2/src/main/java/models/OrderedArrayList.java:53-56 | remove(index) within the ordered front keeps the invariant |
| OrderedLists.RemoveObjectBreaksOrder | Assignment2/src/main/java/models/OrderedArrayList.java:59-61 | remove(Object) keeps nSorted, so it can break the invariant or leave nSorted beyond the size |
| OrderedLists.AppendKeepsOrder | Assignment2/src/main/java/models/OrderedArrayList.java:249-251 | appending past the ordered front keeps the invariant |
| OrderedLists.MergeAppendsOnlyNewKeys | Assignment2/src/main/java/models/OrderedArrayList.java:245-252 | with an ordered front, merge appends exactly when the key is absent; with none it always appends |
| DirectedPaths.Successors | Assignment5/src/main/java/graphs/DirectedGraph.java:44-56 | exactly the ids that an edge from a leads to |
| DirectedPaths.EdgeIds | Assignment5/src/main/java/graphs/DirectedGraph.java:12-19 | every id an edge mentions |
| DirectedPaths.PathStaysInClosed | Assignment5/src/main/java/graphs/DirectedGraph.java:278-312 | a path starting in an edge-closed set stays in it |
| DirectedPaths.ClosedSetBlocksReach | Assignment5/src/main/java/graphs/DirectedGraph.java:278-375 | an edge-closed set containing the start but not the target proves the target unreachable |
| DirectedPaths.PrependEdge | Assignment5/src/main/java/graphs/DirectedGraph.java:300-306 | an edge followed by a path is a path |
| DirectedPaths.PrependStep | Assignment5/src/main/java/graphs/DirectedGraph.java:295-310 | prepending the current vertex to a path found from its neighbour gives a repeat-free path of newly visited vertices |
| DirectedPaths.PrependNoRepeats | Assignment5/src/main/java/graphs/DirectedGraph.java:300-306 | prepending a new vertex keeps a path repeat-free |
| DirectedPaths.TailIsPath | Assignment5/src/main/java/graphs/DirectedGraph.java:445-456 | a path without its first vertex is still a path |
| BreadthFirst.ShortPathsDiscovered | Assignment5/src/main/java/graphs/DirectedGraph.java:324-375 | once every level up to d has been explored, every vertex at path length at most d has been discovered no deeper |
| BreadthFirst.NoPathWithin | Assignment5/src/main/java/graphs/DirectedGraph.java:324-375 | an undiscovered target has no path of d + 1 vertices or fewer |
| BreadthFirst.PollKeepsOrder | Assignment5/src/main/java/graphs/DirectedGraph.java:340-346 | polling the queue keeps the queue ordered by depth and the explored levels |
| BreadthFirst.DiscoverKeepsTree | Assignment5/src/main/java/graphs/DirectedGraph.java:363-367 | recording a new vertex one level below its discoverer keeps the predecessor tree |
| BreadthFirst.EnqueueKeepsOrder | Assignment5/src/main/java/graphs/DirectedGraph.java:363-367 | enqueuing a vertex one level deeper keeps the queue ordered |
| BreadthFirst.DiscoverKeepsFrontier | Assignment5/src/main/java/graphs/DirectedGraph.java:363-367 | discovering a neighbour keeps the frontier invariant |
| BreadthFirst.Advance | Assignment5/src/main/java/graphs/DirectedGraph.java:340-372 | after a vertex's neighbours are seen, the next polled vertex has the frontier; with an empty queue the processed set is edge-closed |
| BreadthFirst.DiscoverStep | Assignment5/src/main/java/graphs/DirectedGraph.java:348-369 | discovering an unvisited neighbour keeps the neighbour loop's invariant |
| BreadthFirst.DiscoverCovers | Assignment5/src/main/java/graphs/DirectedGraph.java:348-369 | a discovered neighbour is covered at depth d + 1 |
| BreadthFirst.SkipStep | Assignment5/src/main/java/graphs/DirectedGraph.java:362 | skipping a visited neighbour keeps the invariant |
| Graphs.NonEmptyEdges | Assignment5/src/main/java/graphs/DirectedGraph.java:220-223 | exactly the vertices with a non-empty neighbour map keep their map |
| Graphs.VerticesWithEdges | Assignment5/src/main/java/graphs/DirectedGraph.java:220-223 | exactly the stored vertices that keep an edge map remain |
| Graphs.WithEdge | Assignment5/src/main/java/graphs/DirectedGraph.java:115-124 | the edge relation gains exactly (f, t), carrying e; every other edge and its information is kept |
| Graphs.WithEdgeCount | Assignment5/src/main/java/graphs/DirectedGraph.java:106-126 | adding a new edge raises the edge count by one |
| Graphs.TaggedCount | Assignment5/src/main/java/graphs/DirectedGraph.java:207-215 | tagging the neighbours of one vertex keeps their number |
| Graphs.EdgePairsSplit | Assignment5/src/main/java/graphs/DirectedGraph.java:207-215 | the edges of done + {x} are those of done and those of x |
| Graphs.EdgePairsDisjoint | Assignment5/src/main/java/graphs/DirectedGraph.java:207-215 | the edges of a new vertex share none with those counted so far |
| Graphs.EdgePairsAddOne | Assignment5/src/main/java/graphs/DirectedGraph.java:207-215 | counting a new vertex adds its number of neighbours |
| Graphs.DirectedGraph.constructor | Assignment5/src/main/java/graphs/DirectedGraph.java:12-19 | an empty graph satisfying the representation invariants |
| Graphs.DirectedGraph.GetVertexById | Assignment5/src/main/java/graphs/DirectedGraph.java:33-35 | the stored vertex with the id, or null exactly when there is none |
| Graphs.DirectedGraph.GetNeighbours | Assignment5/src/main/java/graphs/DirectedGraph.java:44-56 | null exactly for a null vertex; otherwise exactly the ids its edges lead to |
| Graphs.DirectedGraph.GetEdges | Assignment5/src/main/java/graphs/DirectedGraph.java:66-78 | null exactly for a null vertex; otherwise its outgoing edges, keyed by the neighbours, with their stored information |
| Graphs.DirectedGraph.GetNumVertices | Assignment5/src/main/java/graphs/DirectedGraph.java:199-201 | the number of stored ids |
| Graphs.DirectedGraph.AddOrGetVertex | Assignment5/src/main/java/graphs/DirectedGraph.java:88-95 | returns the stored vertex with the id, or stores and returns v; edges are unchanged and the invariants are kept |
| Graphs.DirectedGraph.AddEdge | Assignment5/src/main/java/graphs/DirectedGraph.java:106-126 | added exactly when both vertices are non-null and the edge is new; then both are stored, the edge set gains exactly that edge and the count rises by one; otherwise nothing changes |
| Graphs.DirectedGraph.AddEdgeById | Assignment5/src/main/java/graphs/DirectedGraph.java:137-153 | added exactly when both ids are stored and the edge is new; then the edge set gains exactly that edge; vertices never change |
| Graphs.DirectedGraph.AddConnection | Assignment5/src/main/java/graphs/DirectedGraph.java:163-165 | true exactly when the ids differ and neither direction had an edge; the edge map is then the old one with the forward and then the backward edge put in; a new forward edge is put in alone when the backward one is refused; both vertices are stored whenever the forward edge is new; nothing changes when the forward edge exists or a vertex is null |
| Graphs.DirectedGraph.AddConnectionById | Assignment5/src/main/java/graphs/DirectedGraph.java:175-177 | true exactly when both ids are stored, differ and neither direction had an edge; the edge map is then the old one with both edges put in; a new forward edge is put in alone when the backward one is refused; otherwise the edge map is unchanged; vertices never change |
| Graphs.DirectedGraph.GetEdge | Assignment5/src/main/java/graphs/DirectedGraph.java:186-190 | the edge information exactly when both vertices are non-null and the edge exists |
| Graphs.DirectedGraph.GetEdgeById | Assignment5/src/main/java/graphs/DirectedGraph.java:192-194 | the edge information exactly when both ids are stored and the edge exists |
| Graphs.DirectedGraph.GetNumEdges | Assignment5/src/main/java/graphs/DirectedGraph.java:207-215 | the loop returns the number of edges leaving stored vertices |
| Graphs.DirectedGraph.RemoveUnconnectedVertices | Assignment5/src/main/java/graphs/DirectedGraph.java:220-223 | a stored vertex remains exactly when it has an outgoing edge; the remaining edges are unchanged |
| Graphs.DirectedGraph.Known | Assignment5/src/main/java/graphs/DirectedGraph.java:12-19 | covers every stored vertex and every edge target |
| Graphs.DirectedGraph.DepthFirstSearch | Assignment5/src/main/java/graphs/DirectedGraph.java:278-285 | null for an unknown id; a repeat-free path from start to target, visiting exactly its vertices, found exactly when the target is reachable |
| Graphs.DirectedGraph.DepthFirstSearchRecursion | Assignment5/src/main/java/graphs/DirectedGraph.java:287-312 | a path is new since `visited`; a failure leaves every newly visited vertex with all its successors visited |
| Graphs.DirectedGraph.BreadthFirstSearch | Assignment5/src/main/java/graphs/DirectedGraph.java:324-375 | null for an unknown id; a path no longer than any path from start to target, found exactly when the target is reachable; the target is never marked visited |
| Graphs.DirectedGraph.VisitNeighbours | Assignment5/src/main/java/graphs/DirectedGraph.java:348-369 | reports a shortest path when the target is a neighbour; otherwise all neighbours are discovered at most one level deeper and the invariants hold |
| Graphs.DirectedGraph.ReportPath | Assignment5/src/main/java/graphs/DirectedGraph.java:349-361 | the path walked back from the target's discoverer is a shortest path |
| Graphs.DirectedGraph.BackWalk | Assignment5/src/main/java/graphs/DirectedGraph.java:350-361 | following the recorded predecessors gives a path from start to target of dist + 2 vertices through visited ones |
| Graphs.DirectedGraph.MarkKeepsTree | Assignment5/src/main/java/graphs/DirectedGraph.java:475-496 | marking a node keeps the tree of recorded weights |
| Graphs.DirectedGraph.AllMarkedBlocksReach | Assignment5/src/main/java/graphs/DirectedGraph.java:414-503 | when every node is marked but the target is not, the target is unreachable |
| Graphs.DirectedGraph.DijkstraShortestPath | Assignment5/src/main/java/graphs/DirectedGraph.java:414-503 | null for an unknown id; a found path leads from start to target, every vertex on it was visited, and its edge weights sum to at most its reported weight; null with known ids means unreachable |
| Graphs.DirectedGraph.Relax | Assignment5/src/main/java/graphs/DirectedGraph.java:459-473 | relaxing the neighbours of the marked node keeps the tree and records them all |
| Graphs.DirectedGraph.RelaxStep | Assignment5/src/main/java/graphs/DirectedGraph.java:462-472 | replacing a node by one at most as heavy, or keeping it, preserves the relaxation invariant |
| Graphs.DirectedGraph.ReplaceKeepsTree | Assignment5/src/main/java/graphs/DirectedGraph.java:469-471 | storing a node reached by an edge, at most as heavy as before, keeps the tree |
| Graphs.DirectedGraph.DspBackWalk | Assignment5/src/main/java/graphs/DirectedGraph.java:445-456 | walking the recorded predecessors gives a path from start to target, reported with the target's recorded weight, which bounds the sum of its edge weights |
| Graphs.RemovalLeavesDanglingEdges | Assignment5/src/main/java/graphs/DirectedGraph.java:220-223 | removal keeps edges to vertices it drops, breaking the invariant that every edge ends at a stored vertex |
| Wagons.Wagon.constructor | Assignment1/src/main/java/models/Wagon.java:16-18 | a wagon with its id and kind, unlinked |
| Wagons.Wagon.GetLastWagonAttached | Assignment1/src/main/java/models/Wagon.java:52-60 | the last wagon of the chain |
| Wagons.Wagon.GetFirstWagonAttached | Assignment1/src/main/java/models/Wagon.java:63-73 | the head of the chain |
| Wagons.Wagon.GetTailLength | Assignment1/src/main/java/models/Wagon.java:79-89 | the number of wagons behind this one |
| Wagons.Wagon.AttachTail | Assignment1/src/main/java/models/Wagon.java:103-117 | refused exactly when a link is taken; otherwise links tail behind this wagon both ways |
| Wagons.Wagon.AttachFront | Assignment1/src/main/java/models/Wagon.java:120-132 | refused exactly when this wagon has a predecessor; otherwise links the last wagon of front's sequence before it |
| Wagons.Wagon.AttachInMiddle | Assignment1/src/main/java/models/Wagon.java:135-153 | splices the sequence between the two wagons, with each link set as the source orders the writes |
| Wagons.Wagon.DetachTail | Assignment1/src/main/java/models/Wagon.java:161-176 | returns the old successor and unlinks it both ways |
| Wagons.Wagon.DetachFront | Assignment1/src/main/java/models/Wagon.java:185-197 | returns the old predecessor and unlinks it both ways |
| Wagons.Wagon.ReAttachTo | Assignment1/src/main/java/models/Wagon.java:207-220 | links this wagon behind front and keeps its own successor; clears only one of the old links, as written |
| Wagons.Wagon.RemoveFromSequence | Assignment1/src/main/java/models/Wagon.java:226-243 | joins the neighbours to each other and isolates this wagon |
| Wagons.Wagon.ReverseSequence | Assignment1/src/main/java/models/Wagon.java:252-297 | the sequence becomes its reverse, headed by the old last wagon, behind the old predecessor |
| Wagons.Reversed | Assignment1/src/main/java/models/Wagon.java:252-297 | the reverse: position i holds the element at |s| - 1 - i |
| Wagons.ReversedKeepsWagons | Assignment1/src/main/java/models/Wagon.java:252-297 | reversing keeps every wagon |
| Wagons.ReversedUnfolds | Assignment1/src/main/java/models/Wagon.java:273-287 | reversing the tail and appending the head reverses the whole |
| Wagons.ReversedSuffixGrows | Assignment1/src/main/java/models/Wagon.java:273-287 | reversing a suffix one longer appends its first element |
| Wagons.ReverseStep | Assignment1/src/main/java/models/Wagon.java:276-284 | one step moves the last unreversed wagon behind the reversed part and keeps the chain |
| Wagons.MoveLastShape | Assignment1/src/main/java/models/Wagon.java:273-287 | the sequence after a step equals the reversed part, the moved wagon and the rest |
| Wagons.MoveLastKeepsChain | Assignment1/src/main/java/models/Wagon.java:276-284 | the links a step leaves form a chain |
| Wagons.DistinctMoveLast | Assignment1/src/main/java/models/Wagon.java:276-284 | a step keeps the wagons free of repeats |
| Wagons.PointsAtHeadNotInChain | Assignment1/src/main/java/models/Wagon.java:12-14 | a wagon pointing at a chain's head is not in the chain |
| Wagons.ChainSuffix | Assignment1/src/main/java/models/Wagon.java:12-14 | every non-empty suffix of a chain is a chain |
| Wagons.ReverseStart | Assignment1/src/main/java/models/Wagon.java:258-270 | the first moves place the last wagon, unlinked from behind, in front of the head |
| Wagons.ReverseBegin | Assignment1/src/main/java/models/Wagon.java:258-272 | the first moves and the walk to the new last unreversed wagon |
| Wagons.ReverseFinish | Assignment1/src/main/java/models/Wagon.java:289-294 | the reversed chain is relinked behind the former predecessor |
| Wagons.ReverseLoop | Assignment1/src/main/java/models/Wagon.java:273-287 | the loop leaves the chain fully reversed and ending at the former head |
| Wagons.ReversePass | Assignment1/src/main/java/models/Wagon.java:273-287 | one pass extends the reversed part by one wagon |
| Wagons.UnreversedPart | Assignment1/src/main/java/models/Wagon.java:273-287 | the wagons from the moved one to the end of the chain form a chain |
| Wagons.ReversedJoinEnds | Assignment1/src/main/java/models/Wagon.java:273-287 | where the moved wagon and the last wagon sit after a step |
| Wagons.ChainJoin | Assignment1/src/main/java/models/Wagon.java:103-117 | two disjoint chains linked at their junction form one chain |
| Wagons.ChainsDisjoint | Assignment1/src/main/java/models/Wagon.java:12-14 | a chain whose head lies outside a headed chain shares no wagon with it at a given position |
| Wagons.ChainsDisjointAll | Assignment1/src/main/java/models/Wagon.java:12-14 | such chains share no wagon at all |
| Wagons.PointsOutsideNotInChain | Assignment1/src/main/java/models/Wagon.java:12-14 | a wagon whose successor lies outside a chain is not in it |
| Wagons.ReAttachToLeavesStaleLinks | Assignment1/src/main/java/models/Wagon.java:207-220 | reAttachTo on two linked pairs leaves stale links on both sides |
| Wagons.LetGoOfPredecessor | Assignment1/src/main/java/models/Train.java:226-228 | the predecessor's detachTail cuts the sequence loose and keeps it a chain |
| Wagons.DetachFromPredecessor | Assignment1/src/main/java/models/Wagon.java:185-197 | the head's detachFront cuts the sequence loose and keeps it a chain |
| Trains.IdIndex | Assignment1/src/main/java/models/Train.java:174-189 | the first position carrying the id, or the length when none does |
| Trains.IdIndexFirst | Assignment1/src/main/java/models/Train.java:174-189 | the first position with the id is the one IdIndex names |
| Trains.DistinctSplice | Assignment1/src/main/java/models/Train.java:326-331 | splicing disjoint wagons into a train keeps it free of repeats |
| Trains.HeadOutside | Assignment1/src/main/java/models/Train.java:200-210 | a sequence whose head id is absent from the train shares no wagon with it |
| Trains.PassOthers | Assignment1/src/main/java/models/Train.java:453-457 | when the moved wagon has the first wagon's kind and an id no other wagon carries, the head of the train has its kind and no wagon left in the train carries its id |
| Trains.LastPassRefused | Assignment1/src/main/java/models/Train.java:297-300 | a second wagon that is not reinsertable differs in kind from the head of the train or shares its id with a wagon still in it |
| Trains.LastPassLoses | Assignment1/src/main/java/models/Train.java:445-460 | the train a refused last pass leaves holds every wagon but the second |
| Trains.SameIdPair | Assignment1/src/main/java/models/Train.java:297-300 | of two wagons with one id, the second is not reinsertable, and the refused pass leaves the first alone |
| Trains.IdIndexNone | Assignment1/src/main/java/models/Train.java:174-189 | when no wagon carries the id, the lookup reaches the end |
| Trains.ReverseLosesWagon | Assignment1/src/main/java/models/Train.java:445-460 | reverse on two wagons with one id returns normally with one wagon left in the train and the other detached |
| Trains.PassResult | Assignment1/src/main/java/models/Train.java:453-457 | inserting the moved wagon at position i + 1 extends the reversed part |
| Trains.DropLastShape | Assignment1/src/main/java/models/Train.java:454 | detaching the last wagon leaves the expected sequence |
| Trains.ReversedSuffixStart | Assignment1/src/main/java/models/Train.java:456 | the last wagon after a pass is the next to move |
| Trains.Train.constructor | Assignment1/src/main/java/models/Train.java:9-17 | an empty train with the given locomotive |
| Trains.Train.GetNumberOfWagons | Assignment1/src/main/java/models/Train.java:58-73 | the number of wagons |
| Trains.Train.GetLastWagonAttached | Assignment1/src/main/java/models/Train.java:78-90 | the last wagon, or null for an empty train |
| Trains.Train.FindWagonAtPosition | Assignment1/src/main/java/models/Train.java:143-166 | the wagon at a 1-based position, null outside 1..n |
| Trains.Train.FindWagonById | Assignment1/src/main/java/models/Train.java:174-189 | the first wagon with the id, null when none has it |
| Trains.Train.CanAttach | Assignment1/src/main/java/models/Train.java:200-210 | an empty train accepts anything; otherwise the kind matches, the locomotive can pull all wagons and the head's id is absent |
| Trains.Train.AttachToRear | Assignment1/src/main/java/models/Train.java:220-242 | succeeds exactly when canAttach accepts; the train becomes the old wagons followed by the sequence; otherwise nothing changes |
| Trains.Train.LinkBehind | Assignment1/src/main/java/models/Train.java:238 | the sequence follows the last wagon |
| Trains.Train.InsertAtFront | Assignment1/src/main/java/models/Train.java:253-276 | succeeds exactly when canAttach accepts; the train becomes the sequence followed by the old wagons |
| Trains.Train.LinkBefore | Assignment1/src/main/java/models/Train.java:270-271 | the sequence precedes the old first wagon |
| Trains.Train.InsertAtPosition | Assignment1/src/main/java/models/Train.java:292-334 | succeeds exactly when canAttach accepts and the position is in 1..n+1 (any position from 1 in an empty train); the sequence is spliced in before the wagon at the position |
| Trains.Train.InsertDetached | Assignment1/src/main/java/models/Train.java:308-331 | the sequence is spliced in at the position |
| Trains.Train.LinkBetween | Assignment1/src/main/java/models/Train.java:326-331 | attachInMiddle splices the sequence between the two wagons |
| Trains.Train.Append | Assignment1/src/main/java/models/Train.java:362-366 | the sequence becomes the train or follows its last wagon |
| Trains.Train.TakeOut | Assignment1/src/main/java/models/Train.java:359-360 | removeFromSequence drops exactly that wagon |
| Trains.Train.TakeOutFirst | Assignment1/src/main/java/models/Train.java:372-374 | the first wagon leaves and its successor becomes the first |
| Trains.Train.MoveOneWagon | Assignment1/src/main/java/models/Train.java:347-399 | succeeds exactly when the id is present, the kinds agree and toTrain's locomotive can pull one more; the first wagon with the id moves to the rear of toTrain; the total number of wagons is kept |
| Trains.Train.Transfer | Assignment1/src/main/java/models/Train.java:358-396 | the wagon leaves this train and joins the rear of toTrain |
| Trains.Train.Handover | Assignment1/src/main/java/models/Train.java:362-366 | the loose wagon joins the rear of toTrain; this train is unchanged |
| Trains.Train.CutBefore | Assignment1/src/main/java/models/Train.java:422-426 | the train keeps the wagons before the position; the rest form a loose chain |
| Trains.Train.SplitAtPosition | Assignment1/src/main/java/models/Train.java:412-436 | succeeds exactly when the position is in 1..n, the kinds agree and toTrain can pull the wagons from there on; those wagons move to the rear of toTrain |
| Trains.Train.SplitOff | Assignment1/src/main/java/models/Train.java:422-434 | the wagons from the position on move to the rear of toTrain |
| Trains.Train.Reverse | Assignment1/src/main/java/models/Train.java:445-460 | when the last pass is accepted, the wagons end in reverse order and none is lost; when insertAtPosition refuses the second wagon, the train holds the others, reversed except for the first wagon at the end, and the second is left detached |
| Trains.Train.ReverseLoop | Assignment1/src/main/java/models/Train.java:453-457 | after the passes, the train is reversed when the last pass is accepted and otherwise holds every wagon but the second |
| Trains.Train.ReversePass | Assignment1/src/main/java/models/Train.java:454-456 | one pass moves the last wagon to position i + 1; only the last pass can be refused, exactly when the second wagon does not fit, and that wagon then stays detached |
| Trains.Train.Reinsert | Assignment1/src/main/java/models/Train.java:455 | insertAtPosition places the detached wagon at i + 1 exactly when this is not the last pass or the second wagon fits; a refusal changes nothing |
| Trains.Train.PassDecision | Assignment1/src/main/java/models/Train.java:297-300 | insertAtPosition's checks accept the detached wagon exactly when this is not the last pass or the second wagon fits |
| Trains.Train.DetachLast | Assignment1/src/main/java/models/Train.java:454 | the last wagon is cut loose |

## Left out

- Java `int` overflow is not modelled. Integers, scores, counters and ids are unbounded.
- Printing and `toString` in every class are not modelled. This covers `Train.toString`, `Wagon.toString`, `Archer.toString` and `DirectedGraph.toString`.
- Exceptions thrown for invalid use are not modelled as exceptions.
  - An operation the source refuses returns `ok == false` and changes nothing.
  - Where the source dereferences null, the case is a `requires`. These are listed below by member.
- Wagons.Wagon.RemoveFromSequence: requires a neighbour. For a lone wagon, Wagon.java:236 dereferences a null predecessor.
- Wagons.Wagon.ReverseSequence: requires at least two wagons. For a lone wagon, Wagon.java:267 dereferences a null predecessor.
- Wagons.Wagon.ReAttachTo: modelled as written. It clears only one old link on each side, so the invariant of Wagon.java:12-14 can break. ReAttachToLeavesStaleLinks shows this.
- Trains.Train.MoveOneWagon: requires that moving the only wagon of a train is not attempted unless a check refuses it first. In that case Train.java:360 dereferences null inside removeFromSequence.
- Trains.Train.Reverse: requires, for three or more wagons, that the locomotive pulls them all and that every wagon from the third on has the first wagon's kind and an id no other wagon carries. Otherwise a pass before the last is refused at Train.java:455, and the next pass dereferences the refused wagon's null predecessor at Train.java:454. A refused last pass is modelled: the second wagon drops out of the train without an exception, as ReverseLosesWagon shows.
- The locomotive is modelled only by its wagon capacity.
- Not modelled:
  - origin and destination;
  - `getTotalNumberOfSeats` and `getTotalMaxWeight`;
  - `hasWagons`, `isPassengerTrain` and `isFreightTrain`. These are folded into KindsClash and Accepts.
- Wagon kinds are the two subclasses PassengerWagon and FreightWagon, as an enumeration. Seats and maximum weight are not modelled.
- Sorting compares by a key function to `int`, not by an arbitrary `Comparator`. Ties in the key are ties in the comparator.
- OrderedLists.OrderedArrayList.SortWith: `ArrayList.sort` is modelled by the proved stable insertion sort. The library's merge sort is not reproduced.
- `OrderedArrayList.nSorted` is modelled as written.
  - `add(index, e)` past the ordered front can break the invariant of OrderedArrayList.java:13-16, and so can `remove(Object)`.
  - These methods keep the source's behaviour.
  - AddBeyondFrontBreaksOrder and RemoveObjectBreaksOrder exhibit the breakage.
- OrderedLists.OrderedArrayList.Add: requires an index from 0 to the size. Otherwise OrderedArrayList.java:47 sets nSorted to the index before `ArrayList.add` throws IndexOutOfBoundsException; that half-done state is not modelled.
- OrderedLists.OrderedArrayList.RemoveAt: requires an index below the size. Otherwise OrderedArrayList.java:53 sets nSorted to the index before `ArrayList.remove` throws; that state is not modelled.
- OrderedLists.OrderedArrayList.IndexOfByRecursiveBinarySearch: requires 0 <= nSorted <= size. `remove(Object)` does not lower nSorted, so nSorted can pass the size, and the search's `get` can then throw IndexOutOfBoundsException.
- OrderedLists.OrderedArrayList.IndexOfByIterativeBinarySearch: requires 0 <= nSorted <= size, for the same reason.
- OrderedLists.OrderedArrayList.IndexOf: requires 0 <= nSorted <= size, because it runs the binary search.
- OrderedLists.OrderedArrayList.Merge: requires 0 <= nSorted <= size, because it runs indexOf.
- OrderedLists.OrderedArrayList.LinearSearch: requires 0 <= nSorted. A negative nSorted is left only by an `add` or `remove` that threw, and the scan would then `get` a negative index.
- The merger of `OrderedArrayList.merge` is not modelled. It is a foreign call whose result the source discards, so merge leaves the list as it is.
- Archer's `AtomicInteger` is modelled as a single-threaded counter object.
- Archery.Archer.TotalScore: the stream sum is stated as the sum of the board, without Java's overflow.
- Archery.Archer.RegisterScoreForRound: requires the round's slots to lie on the board. Otherwise the source throws ArrayIndexOutOfBoundsException.
- Graph vertices are modelled by their id. Each vertex's edge map is a `map` rather than a `HashMap`, so iteration order is unspecified. A search proved for every order covers the order `HashMap` uses.
- Not modelled as separate members:
  - `getVertices`;
  - the id overloads of `getNeighbours` and `getEdges`, which compose GetVertexById with the vertex versions.
- Graphs.DirectedGraph.GetEdge: requires that the from-vertex has an edge map whenever both vertices are given. Otherwise DirectedGraph.java:189 dereferences null.
- Graphs.DirectedGraph.DijkstraShortestPath: does not claim a shortest path.
  - The selection loop at DirectedGraph.java:475-496 never lowers its bound, so it does not pick the lightest unmarked node.
  - Relaxation at DirectedGraph.java:469 replaces a node on `>=`.
  - A `fuel` bound limits the number of nodes marked and the length of the walk back. This is needed because zero-weight cycles need not terminate. An exhausted budget is reported as `OutOfFuel`.
  - It requires that every edge ends at a stored vertex. For an edge to a vertex that is not stored, the getEdge lookup at DirectedGraph.java:465-466 yields null, and the source passes that null to the weight mapper, which the model cannot represent.
  - The reported weight is stated as an upper bound on the sum of the path's edge weights, not as equal to it. The relaxation at DirectedGraph.java:468-470 can give an already reached node a new predecessor, and the walk back at DirectedGraph.java:447-452 follows the new one. Example: edges s-a 5, s-b 1, b-a 1, a-t 1, with a marked before b. Then t is reached through a with weight 6, a is then re-reached through b, and the path s, b, a, t is reported with weight 6 while its edges sum to 3.
- Edge weights come from the weight mapper as natural numbers. Floating-point weights are not modelled.
- DSPNode is modelled as a value in a map, not as objects in a priority queue.
- Graphs.DirectedGraph.RemoveUnconnectedVertices: modelled as written. Vertices that only have incoming edges are dropped. RemovalLeavesDanglingEdges shows that this breaks the edge-target invariant.
