# CSCI-311 (Spring 2016) data structures, modelled in Dafny

This project models the six data-structure cores of the course repository
and proves what each one promises:

- **`RBTree`** (`Project4/rbtree.cpp`). A red-black multimap from string keys to string values. Repeated keys are kept, and on insertion ties go right.
  - Insertion and deletion are the textbook algorithms with their fixups. Deletion with two children moves in the in-order **predecessor**.
  - `rbFind` and `rbDelete(key, value)` gather the nodes holding a key by walking successors, then predecessors.
  - The nodes live in an arena, a sequence of records indexed by integers. Index 0 is the black sentinel `nil`, whose `parent` field is written and read as in the C++.
  - A ghost `tree` is the tree the pointers spell out, so every method is proved against an abstract tree: in-order entries, black-height, no red-red, black root.
- **`MinPriorityQ`** (`Project5/minpriority.cpp`). A vector-backed min-priority queue, modelled as written.
  - `parent(i)` is `i/2` while the children of `i` are `2i+1` and `2i+2`. The sift-up of `decreaseKey` therefore compares even indices with the wrong slot.
  - A concrete heap shows that `decreaseKey` can break heap order (`SiftUpBreaksHeap`).
  - Nothing here claims that `extractMin` returns the global minimum.
- **`Graph`** (`Project5/graph.cpp`). Dijkstra's single-source shortest paths on top of that queue, with the last source's tree cached.
  - Because of the queue defect, the proofs cover the structure of the algorithm, not optimality: initialisation, caching, relax monotonicity, termination of the extraction loop, and the shape of the printed path.
- **`CensusData` sorts** (`Project2/CensusDataSorts.cpp`). Insertion sort, top-down merge sort and randomized quicksort with the Lomuto partition, on an array of record pointers.
  - The comparator is the non-strict `isSmaller`.
  - Each sort is proved to leave a sorted permutation.
- **`DoublyLinkedList`** (`Project1/doublylinkedlist.h`). A doubly linked list with a cursor, its nodes in an arena.
  - It is proved against a sequence-plus-cursor view, including its quirk: removing the last node moves the cursor backwards.
- **`Hash`** (`Project3/hash.cpp`, `Project3/hash_function.cpp`). A chained string hash table and its multiplicative hash `hf`.
  - `hf` is modelled with C++ remainder semantics and proved equal to the positional polynomial modulo the table size.

`HASH_TABLE_SIZE` is defined in a header that is not part of this model. It is a parameter here, required to be positive.
C++ strings are sequences of `char`. String `<` is the lexicographic order on code points (`Common.StrLess`), which is proved to be a strict total order.

## Model

| member | source | states |
|---|---|---|
| Common.StrLessEqTotalOrder | Project2/CensusDataSorts.cpp:262 | string `<=` is reflexive, total, transitive and antisymmetric |
| Common.StrLessTrichotomy | Project4/rbtree.cpp:168 | for any two keys, exactly one of equal, smaller or larger holds, which makes the search's three-way branch exhaustive |
| Common.IntToString | Project5/graph.cpp:39 | the decimal text of an `int` is non-empty and starts with `-` exactly when the number is negative |
| HashFunction.CppRem | Project3/hash_function.cpp:31 | C++ `%` with a positive divisor: the result lies in `[0, b)` for a non-negative dividend and in `(-b, 0]` for a negative one |
| HashFunction.Horner | Project3/hash_function.cpp:27-34 | the hash of any string lies in `[0, HASH_TABLE_SIZE)` |
| HashFunction.Hf | Project3/hash_function.cpp:27-34 | the loop of `hf` returns the Horner value of the word, a valid bucket index |
| HashFunction.HornerEmpty | Project3/hash_function.cpp:28-33 | `hf("") == 0` |
| HashFunction.HornerSnoc | Project3/hash_function.cpp:29-31 | appending a character is one Horner step: `hf(w + [c]) == (33 * hf(w) + c) % HASH_TABLE_SIZE` |
| HashFunction.HornerStepBound | Project3/hash_function.cpp:30-31 | for 7-bit characters every intermediate `33 * hashVal + c` lies in `[0, 33 * HASH_TABLE_SIZE + 128)`, so there is no overflow when that bound fits in an `int` |
| HashFunction.PositionalSumSnoc | Project3/hash_function.cpp:30 | the positional sum `Σ w[i]·33^(n-1-i)` grows by one Horner step per appended character |
| HashFunction.PolyIsPositionalSum | Project3/hash_function.cpp:29-32 | the unreduced Horner polynomial equals the positional sum |
| HashFunction.ModStep | Project3/hash_function.cpp:30-31 | reducing before a Horner step gives the same residue as reducing after it |
| HashFunction.HornerIsSumMod | Project3/hash_function.cpp:29-32 | `hf(w)` is the positional sum reduced modulo `HASH_TABLE_SIZE`: reducing at every step equals reducing once |
| HashFunction.HornerIsPolyMod | Project3/hash_function.cpp:29-32 | `hf(w)` is the Horner polynomial reduced once modulo `HASH_TABLE_SIZE` |
| HashTable.RemoveAllMembers | Project3/hash.cpp:24 | `list::remove(w)` keeps exactly the elements different from `w` |
| HashTable.RemoveAllCounts | Project3/hash.cpp:24 | `list::remove(w)` keeps every other element as often as it occurred |
| HashTable.RemoveAllAbsent | Project3/hash.cpp:21-28 | removing an absent word leaves a bucket unchanged |
| HashTable.Hash.constructor | Project3/hash.cpp:13-17 | `collisions` and `longestList` start at 0, and every bucket starts empty |
| HashTable.Hash.Search | Project3/hash.cpp:64-73 | `search(w)` is true iff `w` occurs in bucket `hf(w)` |
| HashTable.Hash.Remove | Project3/hash.cpp:19-29 | bucket `hf(w)` loses every occurrence of `w` and the other buckets are unchanged. Afterwards `w` is not found, and an absent `w` leaves the table unchanged |
| HashTable.Hash.InsertLine | Project3/hash.cpp:48-58 | the line is appended to bucket `hf(line)` and the other buckets are unchanged. `collisions` grows by one exactly when that bucket was non-empty. `longestList` never decreases and still bounds every bucket |
| CensusSorts.IsSmallerTotalPreorder | Project2/CensusDataSorts.cpp:258-264 | `isSmaller` is a total preorder for both sort types |
| CensusSorts.InsertionStep | Project2/CensusDataSorts.cpp:40-46 | placing the key after the records not greater than it extends the sorted prefix by one |
| CensusSorts.ShiftDownMoves | Project2/CensusDataSorts.cpp:42-45 | the inner loop shifts up by one exactly the records it passes and leaves the rest in place |
| CensusSorts.ShiftDownStops | Project2/CensusDataSorts.cpp:42 | the inner loop stops below a record that `isSmaller` the key, and every record it passed is not `isSmaller` the key, which is what makes the sort stable |
| CensusSorts.ShiftDownPermutes | Project2/CensusDataSorts.cpp:42-46 | shifting, then storing the key, permutes the array |
| CensusSorts.InsertPassSorts | Project2/CensusDataSorts.cpp:39-47 | one outer pass extends the sorted prefix to `j + 1` |
| CensusSorts.InsertPassPermutes | Project2/CensusDataSorts.cpp:39-47 | one outer pass permutes the array |
| CensusSorts.InsertionPassesSort | Project2/CensusDataSorts.cpp:39-47 | after `n` passes the first `n` records are sorted and the array is a permutation of its input |
| CensusSorts.InsertionSortedSorts | Project2/CensusDataSorts.cpp:35-48 | the result of insertion sort is sorted and a permutation of the input |
| CensusSorts.InsertionSort | Project2/CensusDataSorts.cpp:35-48 | the in-place loops leave exactly the insertion-sorted array |
| CensusSorts.MergeFromPermutes | Project2/CensusDataSorts.cpp:123-146 | merging the rests of two runs yields exactly their records |
| CensusSorts.MergeFromSorted | Project2/CensusDataSorts.cpp:123-146 | merging two sorted runs yields a sorted run |
| CensusSorts.MergedPermutes | Project2/CensusDataSorts.cpp:101-147 | the merge of two runs is a permutation of their concatenation |
| CensusSorts.MergedSorted | Project2/CensusDataSorts.cpp:101-147 | the merge of two sorted runs is sorted |
| CensusSorts.MergeFromLeftRest | Project2/CensusDataSorts.cpp:135-139 | once the right run is used up, the rest of the left run is copied in order |
| CensusSorts.MergeFromRightRest | Project2/CensusDataSorts.cpp:142-146 | once the left run is used up, the rest of the right run is copied in order |
| CensusSorts.MergeLoopStep | Project2/CensusDataSorts.cpp:123-132 | one round of the main merge loop takes the left record on a tie (`isSmaller` is `<=`) |
| CensusSorts.MergeLoopWrites | Project2/CensusDataSorts.cpp:123-132 | the merge loop writes the merged records into consecutive positions from `k` |
| CensusSorts.MergeStepPermutes | Project2/CensusDataSorts.cpp:101-147 | `merge(p, q, r)` permutes the array and leaves everything outside `[p, r]` untouched |
| CensusSorts.MergeStepSorts | Project2/CensusDataSorts.cpp:101-147 | if `data[p..q]` and `data[q+1..r]` are sorted, `merge(p, q, r)` leaves `data[p..r]` sorted |
| CensusSorts.CopyRun | Project2/CensusDataSorts.cpp:110-116 | the temporary vector holds exactly the run of `data` it copies |
| CensusSorts.CopyRest | Project2/CensusDataSorts.cpp:135-146 | a tail loop writes the remaining records of a run consecutively and changes nothing else |
| CensusSorts.Merge | Project2/CensusDataSorts.cpp:101-147 | the in-place merge with temporary vectors produces exactly the specified merge step |
| CensusSorts.MergeHalves | Project2/CensusDataSorts.cpp:78-85 | two sorted halves followed by a merge give a sorted permutation of the range, untouched outside it |
| CensusSorts.MergeSortRange | Project2/CensusDataSorts.cpp:78-85 | `merge_sort(p, r)` sorts `data[p..r]` in place as a permutation and leaves the rest alone |
| CensusSorts.MergeSort | Project2/CensusDataSorts.cpp:59-63 | `mergeSort` leaves the whole vector, including an empty one (`r = -1`), a sorted permutation of its input |
| CensusSorts.PivotPlaced | Project2/CensusDataSorts.cpp:239-242 | the final exchange puts the pivot at `q`, the smaller records before it and the others after it |
| CensusSorts.PartitionScanOrders | Project2/CensusDataSorts.cpp:231-238 | the scan keeps the records that are `isSmaller` than the pivot before `i + 1` and the others from `i + 1` on |
| CensusSorts.PartitionScanPermutes | Project2/CensusDataSorts.cpp:231-238 | the scan only exchanges records inside `[p, j)` |
| CensusSorts.PartitionResultSplits | Project2/CensusDataSorts.cpp:228-243 | `partition` returns `q` in `[p, r]` holding the old `data[r]`. Everything before it in the range `isSmaller` the pivot and nothing after it does. The array is a permutation, untouched outside `[p, r]` |
| CensusSorts.Partition | Project2/CensusDataSorts.cpp:228-243 | the in-place Lomuto loop computes exactly that partition |
| CensusSorts.DrawnPartitionSplits | Project2/CensusDataSorts.cpp:207-211 | exchanging any drawn index of `[p, r]` with `r` and then partitioning splits the range around the drawn record |
| CensusSorts.RandomizedPartition | Project2/CensusDataSorts.cpp:200-212 | for any drawn index, the range is partitioned around `q`, the multiset is preserved and the outside is untouched |
| CensusSorts.SortedAroundPivot | Project2/CensusDataSorts.cpp:180-184 | two sorted sides around a pivot form a sorted range |
| CensusSorts.RandomizedQuickSort | Project2/CensusDataSorts.cpp:179-185 | `randomized_quickSort(p, r)` sorts `data[p..r]` as a permutation, whatever pivots are drawn, and leaves the rest alone |
| CensusSorts.QuickSort | Project2/CensusDataSorts.cpp:159-164 | `quickSort` leaves the vector a sorted permutation of its input |
| DoublyLinkedLists.RemoveAtDrops | Project1/doublylinkedlist.h:164-202 | `remove` takes out exactly the record under the cursor. With a null cursor it changes nothing |
| DoublyLinkedLists.RemoveAtKeepsOrder | Project1/doublylinkedlist.h:173-201 | `remove` keeps the other records in their order |
| DoublyLinkedLists.RemoveAtCursor | Project1/doublylinkedlist.h:173-201 | after `remove` the cursor is null exactly when the list is empty. Data is returned exactly when the removed record had a follower, and then it is that follower, now under the cursor |
| DoublyLinkedLists.RemoveLastStepsBack | Project1/doublylinkedlist.h:186-192 | removing the last record of a longer list moves the cursor to the previous record and returns null, contrary to the doc-comment at 154-162 |
| DoublyLinkedLists.RemoveUndoesAppend | Project1/doublylinkedlist.h:88-109 | removing the record just appended restores the list |
| DoublyLinkedLists.LinkedAppend | Project1/doublylinkedlist.h:105-107 | linking a fresh node after the last one gives the list with its data appended |
| DoublyLinkedLists.LinkedRemoveFirst | Project1/doublylinkedlist.h:175-177 | unlinking the head leaves the rest of the list linked |
| DoublyLinkedLists.LinkedRemoveLast | Project1/doublylinkedlist.h:187-191 | unlinking the last node leaves the prefix linked |
| DoublyLinkedLists.LinkedRemoveMiddle | Project1/doublylinkedlist.h:194-198 | bypassing an inner node links its neighbours to each other and removes exactly its data |
| DoublyLinkedLists.DoublyLinkedList.constructor | Project1/doublylinkedlist.h:65 | an empty list with `head`, `tail` and `current` null |
| DoublyLinkedLists.DoublyLinkedList.Empty | Project1/doublylinkedlist.h:21 | `empty()` holds iff the list has no records |
| DoublyLinkedLists.DoublyLinkedList.Append | Project1/doublylinkedlist.h:87-109 | `append(d)` adds `d` at the end, keeps the earlier records in order and puts the cursor on the new record |
| DoublyLinkedLists.DoublyLinkedList.FindTail | Project1/doublylinkedlist.h:99-103 | the walk from `head` stops at the last node |
| DoublyLinkedLists.DoublyLinkedList.First | Project1/doublylinkedlist.h:119-130 | `first()` puts the cursor on the head and returns its data, or null for an empty list; the list is unchanged |
| DoublyLinkedLists.DoublyLinkedList.Next | Project1/doublylinkedlist.h:141-152 | with a follower, `next()` advances and returns its data; without one it returns null and leaves the cursor in place |
| DoublyLinkedLists.DoublyLinkedList.Remove | Project1/doublylinkedlist.h:163-202 | `remove()` changes the records, the cursor and the result exactly as `RemoveAt` says. With `head` or `current` null it changes nothing |
| DoublyLinkedLists.DoublyLinkedList.RemoveHead | Project1/doublylinkedlist.h:173-179 | removing the head of a longer list makes its follower head and current and returns that follower's data |
| DoublyLinkedLists.DoublyLinkedList.RemoveLast | Project1/doublylinkedlist.h:186-192 | removing a non-head last node moves the cursor back and returns null |
| DoublyLinkedLists.DoublyLinkedList.RemoveInner | Project1/doublylinkedlist.h:193-201 | removing an inner node moves the cursor to its follower and returns that data |
| MinPriority.Parent | Project5/minpriority.cpp:177-180 | `parent(i)` is `i/2`: it lies below `i` and satisfies `2p <= i <= 2p + 1` |
| MinPriority.Left | Project5/minpriority.cpp:190-193 | `left(i) = 2i + 1`, whose heap parent `(l - 1)/2` is `i` |
| MinPriority.Right | Project5/minpriority.cpp:203-206 | `right(i) = 2i + 2 = left(i) + 1`, whose heap parent `(r - 1)/2` is `i` |
| MinPriority.ParentOfChildren | Project5/minpriority.cpp:170-206 | `parent(left(i)) == i`, but `parent(right(i)) == i + 1`, not `i`, contrary to the doc-comment "index of the parent" |
| MinPriority.FirstIndex | Project5/minpriority.cpp:62-70 | the scan of `decreaseKey` stops at the first element with the id, or at the size exactly when the id is absent |
| MinPriority.SiftUpPermutes | Project5/minpriority.cpp:71-76 | the sift-up only permutes the vector |
| MinPriority.DecreaseKeyChangesOne | Project5/minpriority.cpp:61-77 | `decreaseKey` changes exactly one element: the first with the id now has the new key |
| MinPriority.InsertChangesOne | Project5/minpriority.cpp:39-45 | `insert` grows the queue by one `(id, INT_MAX)` element and then re-keys the first element with that id |
| MinPriority.InsertMakesMember | Project5/minpriority.cpp:39-45 | after `insert(id, k)`, `isMember(id)` holds |
| MinPriority.InsertNew | Project5/minpriority.cpp:39-45 | inserting a new id adds exactly `(id, k)` |
| MinPriority.InsertDuplicate | Project5/minpriority.cpp:39-45 | inserting a present id re-keys its earlier element to `k` and adds a new one keyed `INT_MAX` |
| MinPriority.SiftUpBreaksHeap | Project5/minpriority.cpp:71-76 | a concrete heap in which lowering the key of the element at index 2 swaps it with index 1, leaving the heap out of order |
| MinPriority.NamesPermuted | Project5/minpriority.cpp:71-76 | reordering the elements only reorders their identifiers |
| MinPriority.DecreaseKeepsNames | Project5/minpriority.cpp:61-77 | `decreaseKey` keeps the multiset of queued identifiers |
| MinPriority.InsertAddsName | Project5/minpriority.cpp:39-45 | `insert(id, key)` queues `id` once more, whether or not it was queued already |
| MinPriority.ExtractRemovesName | Project5/minpriority.cpp:92-96 | `extractMin` on a non-empty queue removes one occurrence of the root's identifier and no other |
| MinPriority.HeapRootMin | Project5/minpriority.cpp:149-167 | in a heap-ordered subtree no key is below the subtree's root |
| MinPriority.Smallest | Project5/minpriority.cpp:150-160 | `smallest` is `i` or an existing child. A child is chosen only when it is strictly smaller than `i`, and the chosen one is the smaller child |
| MinPriority.HeapifyPermutes | Project5/minpriority.cpp:149-167 | `minHeapify` only permutes the vector |
| MinPriority.HeapifyOutside | Project5/minpriority.cpp:149-167 | `minHeapify(i)` changes nothing outside the subtree at `i` |
| MinPriority.HeapifyKeepsBound | Project5/minpriority.cpp:149-167 | a lower bound on the keys of the subtree at `i` survives `minHeapify(i)` |
| MinPriority.HeapifyOrders | Project5/minpriority.cpp:149-167 | if the subtrees at `left(i)` and `right(i)` are heap-ordered, `minHeapify(i)` makes the subtree at `i` heap-ordered |
| MinPriority.ExtractRemovesRoot | Project5/minpriority.cpp:92-96 | `extractMin` removes exactly the element at index 0, and the size drops by one |
| MinPriority.ExtractFromHeap | Project5/minpriority.cpp:92-96 | on a heap-ordered vector, the extracted root has the smallest key and the rest is heap-ordered again |
| MinPriority.MinPriorityQ.constructor | Project5/minpriority.h:16 | the queue starts empty |
| MinPriority.MinPriorityQ.Insert | Project5/minpriority.cpp:39-45 | `insert` pushes `(id, INT_MAX)` and then runs `decreaseKey(id, key)` |
| MinPriority.MinPriorityQ.DecreaseKey | Project5/minpriority.cpp:61-77 | the scan and the sift-up loop compute the specified result: the first matching element is re-keyed, then sifted up through `parent` as written |
| MinPriority.MinPriorityQ.ExtractMin | Project5/minpriority.cpp:88-97 | an empty queue returns `"empty"` and is unchanged. Otherwise the id at index 0 is returned, the last element is moved to the root and sifted down |
| MinPriority.MinPriorityQ.IsMember | Project5/minpriority.cpp:110-118 | `isMember(id)` is true iff some element has that id |
| MinPriority.MinPriorityQ.MinHeapify | Project5/minpriority.cpp:149-167 | the recursive sift-down computes the specified result |
| Graphs.RelaxNeverRaises | Project5/graph.cpp:66-72 | `relax` never raises a key and leaves `key[v] <= key[u] + w`. When it changes anything, only `v` changes: it takes key `key[u] + w` and predecessor `u` |
| Graphs.InitializedBounded | Project5/graph.cpp:46-54 | after initialisation every other vertex has key `INT_MAX` and `pi` `"NIL"`. The source has key 0 and keeps its `pi` |
| Graphs.InitializedOneMore | Project5/graph.cpp:46-54 | resetting vertices one by one in any order reaches the same initialised map |
| Graphs.RelaxedAllNeverRaises | Project5/graph.cpp:60-62 | relaxing all out-edges of `u` keeps the vertex set and raises no key, and every record it changes belongs to the target of one of those edges and now has predecessor `u` |
| Graphs.RelaxKeepsBounded | Project5/graph.cpp:66-72 | `relax` preserves the search invariant: no key above its starting value, and every reached vertex has a vertex as its predecessor |
| Graphs.IdsKnownExtract | Project5/graph.cpp:55-59 | extraction only ever returns names of vertices |
| Graphs.WalkLinks | Project5/graph.cpp:24-28 | the predecessor walk from `pi[to]` follows `pi` links and ends at a vertex whose `pi` is `from` |
| Graphs.WalkDistinct | Project5/graph.cpp:24-28 | a finished walk visits no vertex twice |
| Graphs.WalkBoundExact | Project5/graph.cpp:24-28 | a walk that finishes at all finishes within `|vertices|` steps |
| Graphs.PathFollowsPredecessors | Project5/graph.cpp:22-29 | the path list starts with `from` and ends with `to`, and each entry's `pi` is the entry before it |
| Graphs.WalkAvoidsTarget | Project5/graph.cpp:24-28 | `to` does not occur among the walked predecessors |
| Graphs.RenderJoins | Project5/graph.cpp:32-37 | the printing loop joins the names with `->`, with no arrow after the final `to` |
| Graphs.ShortestPathJoined | Project5/graph.cpp:22-41 | when the walk finishes and `from != to`, the result is `from`, the predecessors and `to` joined by `->`, then `" with length "` and `key[to]` |
| Graphs.Graph.constructor | Project5/graph.h:36-39 | empty maps, an empty source name and an empty queue |
| Graphs.Graph.AddVertex | Project5/graph.cpp:5-8 | `vertices[name]` becomes a default record, replacing any earlier one; nothing else changes |
| Graphs.Graph.AddEdge | Project5/graph.cpp:10-15 | `(to, w)` is appended to the end of `adjList[from]` and every other list is unchanged |
| Graphs.Graph.Relax | Project5/graph.cpp:66-72 | the records change as `Relaxed` says, and the queue gets `decreaseKey(v, key[v])` exactly when the key is lowered |
| Graphs.Graph.RelaxNeighbors | Project5/graph.cpp:60-62 | when no step stops, the records become those of `relax` applied along each out-edge of `u` in order (`RelaxedAll`). The vertex set, the queue's size and its multiset of names are kept, and so is the search invariant |
| Graphs.Graph.RelaxEdge | Project5/graph.cpp:61 | one round: both names are vertices and the records change exactly as `relax` says; the queue's names and the search invariant are kept |
| Graphs.Graph.InitializeOne | Project5/graph.cpp:47-53 | one step of that loop: the record of `name` is reset and `insert(name, key)` runs with its new key |
| Graphs.Graph.InitializeSingleSource | Project5/graph.cpp:46-54 | the first loop leaves exactly the initialised records. It visits every vertex once, in ascending name order, and queues each visited name once more. When no vertex was queued beforehand, it adds exactly one element per vertex, holding that vertex's new key |
| Graphs.Graph.BuildSSPTree | Project5/graph.cpp:44-64 | `buildSSPTree(s)` sets `currentSource` to `s` and keeps the vertex set and the edges. The extraction loop terminates. When it finishes normally, the search invariant holds and the names taken out of the queue plus those left in it are those queued before plus every vertex once. From an empty queue, with no vertex named `"empty"`, every vertex is extracted exactly once and the queue ends empty |
| Graphs.Graph.ExtractAll | Project5/graph.cpp:55-63 | the second loop only moves names out of the queue: those extracted plus those left are the names queued at the start |
| Graphs.Graph.GetShortestPath | Project5/graph.cpp:17-42 | afterwards `from` is the cached source; the tree is rebuilt only when `from` differed from it. A cached source leaves the queue unchanged and the records too, except that a `to` that is not a vertex is added with a default record. Any result is the path text of the current tree |
| Graphs.Graph.Touch | Project5/graph.cpp:24 | reading `vertices[to]` adds a default record for a missing name and otherwise changes nothing |
| Graphs.Graph.PathNames | Project5/graph.cpp:22-29 | the list built by `push_front` is `from`, the reversed walk, then `to` |
| Graphs.PrintPath | Project5/graph.cpp:31-37 | the printing loop produces the specified rendering |
| Graphs.WalkBack | Project5/graph.cpp:23-28 | the walk loop finishes exactly when the bounded walk does, and then its list is the walk reversed, followed by `to` |
| RedBlack.EntriesOfIds | Project4/rbtree.cpp:175-182 | the in-order walk lists exactly the tree's nodes, and it is empty only for the empty tree |
| RedBlack.EntriesDistinct | Project4/rbtree.cpp:175-182 | no node occurs twice in the tree iff no node occurs twice in the in-order walk |
| RedBlack.SortedSplit | Project4/rbtree.cpp:335-344 | in a sorted tree, keys in the left subtree are at most the node's key and keys in the right subtree at least it |
| RedBlack.SearchFinds | Project4/rbtree.cpp:164-173 | `rbTreeSearch` returns `nil` iff no node has the key, and otherwise a node holding the key |
| RedBlack.ExtremesAreEnds | Project4/rbtree.cpp:120-132 | the node `rbTreeMinimum` reaches is first in order, and the one `rbTreeMaximum` reaches is last |
| RedBlack.PaintBlackRedBlack | Project4/rbtree.cpp:257 | painting the root black turns a tree with no red-red and equal black-heights into a red-black tree with the same entries |
| RedBlack.BalancedIffEqualBlackPaths | Project4/rbtree.cpp:220-258 | equal black-heights at every node is the same as every root-to-`nil` path having the same black count |
| RedBlackZipper.RotateLeftKeepsOrder | Project4/rbtree.cpp:184-200 | a left rotation keeps the in-order sequence and the node set |
| RedBlackZipper.RotateRightKeepsOrder | Project4/rbtree.cpp:202-218 | a right rotation keeps the in-order sequence and the node set |
| RedBlackZipper.RotationsInverse | Project4/rbtree.cpp:184-218 | left and right rotation undo each other |
| RedBlackArena.TransplantShape | Project4/rbtree.cpp:316-325 | after `rbTransplant(u, v)` the pointers spell the tree with `v`'s subtree in `u`'s place |
| RedBlackArena.RotateLeftShape | Project4/rbtree.cpp:184-200 | the six pointer writes of `leftRotate` spell the rotated subtree in the same place. When the pivot was the root, `root` moves |
| RedBlackArena.RotateRightShape | Project4/rbtree.cpp:202-218 | the same for `rightRotate` |
| RedBlackInsert.InsertTEntries | Project4/rbtree.cpp:335-355 | inserting puts the new entry into the in-order sequence at `InsertPos` and keeps all others |
| RedBlackInsert.InsertPosSplits | Project4/rbtree.cpp:339-343 | ties go right: every entry before the insertion point has a key not greater than the new key, and every entry after it a strictly greater one |
| RedBlackInsert.InsertKeepsSorted | Project4/rbtree.cpp:335-355 | insertion keeps the in-order keys non-decreasing |
| RedBlackInsert.InsertInvStart | Project4/rbtree.cpp:353-355 | a new red leaf in a red-black tree satisfies the fixup's loop invariant |
| RedBlackInsert.InsertCase1 | Project4/rbtree.cpp:225-229 | recolouring for a red uncle keeps the invariant two levels up |
| RedBlackInsert.InsertCase2Left | Project4/rbtree.cpp:231-234 | turning an inner `z` outward keeps the invariant |
| RedBlackInsert.InsertCase3 | Project4/rbtree.cpp:235-237 | recolouring and rotating at the grandparent ends the loop with the invariant |
| RedBlackInsert.InsertInvDone | Project4/rbtree.cpp:220-258 | when the loop stops, the tree has no red-red and equal black-heights, so painting the root black makes it red-black |
| RedBlackDelete.WithoutSorted | Project4/rbtree.cpp:370-415 | removing one entry keeps the in-order keys sorted |
| RedBlackDelete.DeleteOneChildEntries | Project4/rbtree.cpp:373-378 | replacing a node that has at most one child by that child removes exactly that node from the in-order sequence |
| RedBlackDelete.DeleteOneChildStart | Project4/rbtree.cpp:372-414 | when the removed node was black, the fixup's invariant holds at its child; when it was red, the tree is already red-black |
| RedBlackDelete.MaximumLast | Project4/rbtree.cpp:398 | the predecessor `rbTreeMaximum(z->left)` is the last entry of the left subtree |
| RedBlackDelete.DeleteTwoEntries | Project4/rbtree.cpp:398-411 | splicing the predecessor into `z`'s place with `z`'s colour removes exactly `z` from the in-order sequence |
| RedBlackDelete.DeleteTwoStart | Project4/rbtree.cpp:398-414 | when the predecessor was black the fixup's invariant holds at its left child; when it was red the tree is red-black |
| RedBlackDelete.DeleteCase1Left | Project4/rbtree.cpp:265-270 | case 1: a red sibling is recoloured and rotated away, keeping the invariant, with a red parent and a black sibling |
| RedBlackDelete.DeleteCase2 | Project4/rbtree.cpp:271-273 | case 2: a black sibling with black children turns red, and the extra black moves up to the parent |
| RedBlackDelete.DeleteCase3Left | Project4/rbtree.cpp:275-280 | case 3: a near red nephew is rotated to the far side |
| RedBlackDelete.DeleteCase4Left | Project4/rbtree.cpp:281-285 | case 4: a far red nephew absorbs the extra black, and the loop ends at the root |
| RedBlackDelete.DeleteCase1Right | Project4/rbtree.cpp:289-294 | the mirror of case 1 |
| RedBlackDelete.DeleteCase3Right | Project4/rbtree.cpp:299-304 | the mirror of case 3 |
| RedBlackDelete.DeleteCase4Right | Project4/rbtree.cpp:305-309 | the mirror of case 4 |
| RedBlackDelete.DeleteDone | Project4/rbtree.cpp:260-314 | when the loop stops at the root or at a red `x`, painting `x` black gives a red-black tree |
| RedBlackOrder.NeighboursAt | Project4/rbtree.cpp:134-162 | the in-order successor of the `i`-th entry is the entry at `i + 1` (or `nil` at the end), and the predecessor the entry at `i - 1` (or `nil`) |
| RedBlackOrder.SuccessorBelow | Project4/rbtree.cpp:138-140 | with a right subtree, the successor is its minimum |
| RedBlackOrder.SuccessorAbove | Project4/rbtree.cpp:141-146 | without one, it is the first ancestor reached from a left child, or `nil` |
| RedBlackOrder.PredecessorBelow | Project4/rbtree.cpp:153-155 | with a left subtree, the predecessor is its maximum |
| RedBlackOrder.PredecessorAbove | Project4/rbtree.cpp:156-161 | without one, it is the first ancestor reached from a right child, or `nil` |
| RedBlackOrder.CollectedIsKeyRun | Project4/rbtree.cpp:72-86 | the successors-then-predecessors walk from the searched node collects exactly the entries with the key, each once |
| RedBlackOrder.DeletedAreMatches | Project4/rbtree.cpp:60-67 | deleting the collected nodes whose value matches leaves exactly the entries without both the key and the value |
| RedBlackOrder.Drop | Project4/rbtree.cpp:42-68 | an entry survives `rbDelete(key, value)` iff it was there and does not hold both the key and the value |
| RedBlackTree.RBTree.constructor | Project4/rbtree.cpp:14-22 | a black sentinel and an empty tree |
| RedBlackTree.RBTree.LeftRotate | Project4/rbtree.cpp:184-200 | `leftRotate(x)` leaves the pointers spelling the rotated subtree in `x`'s place, with `root` reset when `x` was the root |
| RedBlackTree.RBTree.RightRotate | Project4/rbtree.cpp:202-218 | the same for `rightRotate(x)` |
| RedBlackTree.RBTree.InsertRecolor | Project4/rbtree.cpp:225-229 | the red-uncle case recolours, climbs two levels and keeps the entries and the invariant |
| RedBlackTree.RBTree.InsertRotateLeft | Project4/rbtree.cpp:230-238 | the black-uncle case with a left parent ends the loop and keeps the entries and the invariant |
| RedBlackTree.RBTree.InsertRotateRight | Project4/rbtree.cpp:246-254 | the mirror case |
| RedBlackTree.RBTree.InsertFixup | Project4/rbtree.cpp:220-258 | after `rbInsertFixup` the tree is red-black with a black root and has the same entries |
| RedBlackTree.RBTree.InsertNode | Project4/rbtree.cpp:327-358 | `rbInsert(z)` adds `z`'s entry where the descent falls off the tree, and the result is a valid red-black search tree |
| RedBlackTree.RBTree.Insert | Project4/rbtree.cpp:37-40 | `rbInsert(key, value)` adds exactly the new pair to the in-order sequence, after every entry whose key is not greater, and keeps the tree valid |
| RedBlackTree.RBTree.Transplant | Project4/rbtree.cpp:316-325 | `rbTransplant(u, v)` redirects `u`'s parent (or `root`) to `v` and writes `v`'s parent, even when `v` is `nil` |
| RedBlackTree.RBTree.DeleteRedSiblingLeft | Project4/rbtree.cpp:265-270 | case 1 on the pointers: same entries, invariant kept, sibling now black |
| RedBlackTree.RBTree.DeleteRedSiblingRight | Project4/rbtree.cpp:289-294 | the mirror of case 1 |
| RedBlackTree.RBTree.DeletePushUp | Project4/rbtree.cpp:271-273 | case 2 on the pointers: `x` moves to its parent, entries kept |
| RedBlackTree.RBTree.DeleteNearLeft | Project4/rbtree.cpp:275-280 | case 3 on the pointers: the far nephew becomes red, entries kept |
| RedBlackTree.RBTree.DeleteFarLeft | Project4/rbtree.cpp:281-285 | case 4 on the pointers: the loop ends at the root, entries kept |
| RedBlackTree.RBTree.DeleteRotateLeft | Project4/rbtree.cpp:274-286 | cases 3 and 4 together end the loop |
| RedBlackTree.RBTree.DeleteNearRight | Project4/rbtree.cpp:299-304 | the mirror of case 3 |
| RedBlackTree.RBTree.DeleteFarRight | Project4/rbtree.cpp:305-309 | the mirror of case 4 |
| RedBlackTree.RBTree.DeleteRotateRight | Project4/rbtree.cpp:298-310 | the mirror of cases 3 and 4 |
| RedBlackTree.RBTree.DeleteStepLeft | Project4/rbtree.cpp:263-286 | one round with `x` a left child keeps the entries and the invariant and makes progress |
| RedBlackTree.RBTree.DeleteStepRight | Project4/rbtree.cpp:287-311 | the same with `x` a right child |
| RedBlackTree.RBTree.DeleteFixup | Project4/rbtree.cpp:260-314 | `rbDeleteFixup` terminates with a red-black tree holding the same entries |
| RedBlackTree.RBTree.DeleteNode | Project4/rbtree.cpp:360-416 | `rbDelete(z)` removes exactly `z`'s entry, keeps the rest in order and leaves a valid red-black tree |
| RedBlackTree.RBTree.RemoveTwo | Project4/rbtree.cpp:398-411 | the two-children branch removes exactly `z`, and it sets up the fixup invariant when the predecessor was black |
| RedBlackTree.RBTree.SpliceLift | Project4/rbtree.cpp:401-411 | when the predecessor is `z`'s left child, the pointer writes lift it into `z`'s place, with `x`'s parent (even `nil`'s) set to it |
| RedBlackTree.RBTree.SpliceDeep | Project4/rbtree.cpp:404-411 | a deeper predecessor is cut out, and then it takes `z`'s place, children and colour |
| RedBlackTree.RBTree.CutOut | Project4/rbtree.cpp:404 | transplanting the predecessor's left child into its place leaves it out of the tree |
| RedBlackTree.RBTree.SubstituteWrites | Project4/rbtree.cpp:405-411 | the pointer writes that put the predecessor in `z`'s place, with `z`'s children and colour, and change nothing else |
| RedBlackTree.RBTree.LiftWrites | Project4/rbtree.cpp:402-411 | the same writes when the predecessor is `z`'s own child |
| RedBlackTree.RBTree.TreeSearch | Project4/rbtree.cpp:164-173 | the recursive search returns the first node on the search path holding the key, or `nil` |
| RedBlackTree.RBTree.Minimum | Project4/rbtree.cpp:120-125 | `rbTreeMinimum(x)` returns the leftmost node of `x`'s subtree |
| RedBlackTree.RBTree.Maximum | Project4/rbtree.cpp:127-132 | `rbTreeMaximum(x)` returns the rightmost node of `x`'s subtree |
| RedBlackTree.RBTree.Successor | Project4/rbtree.cpp:134-147 | `rbTreeSuccessor(x)` returns the next node in order, or `nil` after the last. The source's search-miss branch, which returns `x`, is modelled but cannot be taken for a node of a valid tree |
| RedBlackTree.RBTree.Predecessor | Project4/rbtree.cpp:149-162 | `rbTreePredecessor(x)` returns the previous node in order, or `nil` before the first |
| RedBlackTree.RBTree.ForwardRun | Project4/rbtree.cpp:74-79 | the successor loop collects the run of equal keys from the searched node forwards, in order |
| RedBlackTree.RBTree.BackwardRun | Project4/rbtree.cpp:80-85 | the predecessor loop collects the run of equal keys before the searched node, backwards |
| RedBlackTree.RBTree.WalkDown | Project4/rbtree.cpp:81-85 | the backward loop itself, from any position of the run |
| RedBlackTree.RBTree.KeyRun | Project4/rbtree.cpp:44-58 | the collected nodes are exactly the entries with the key, each once; none when the key is absent |
| RedBlackTree.RBTree.Find | Project4/rbtree.cpp:70-88 | `rbFind(k)` returns the flat key/value list of exactly the entries with key `k`, each once, in the walk's order: the searched node and its successors, then its predecessors walking backwards (`Collected`) |
| RedBlackTree.RBTree.DeleteIfValue | Project4/rbtree.cpp:63-66 | one round of the deletion loop deletes the node exactly when its value matches |
| RedBlackTree.RBTree.Delete | Project4/rbtree.cpp:42-68 | `rbDelete(k, v)` removes every entry holding both `k` and `v`, keeps all others in order, and leaves a valid tree; with no match nothing changes |

## Left out

- Console and file I/O are not modelled: `rbPrintTree`/`reverseInOrderPrint`, `Hash::print`, `output`, `printStats`, and the file reading of `processFile` (only its per-line step is modelled). The drivers `rbapp.cpp`, `sspapp.cpp`, `restaurant.cc` and `table.cc` are not part of this model either.
- `Hash::averageItOut` and `runningAvgListLength` compute `double` running averages, so they are not modelled. `averageItOut` would also divide by zero when every bucket is empty.
- HashTable.Hash.constructor: does not state that `runningAvgListLength` is zeroed, because that `double` field is not modelled.
- HashFunction.Hf: does not model the `int` overflow of `33 * hashVal + word[i]`, which happens when `HASH_TABLE_SIZE` exceeds about `INT_MAX / 33`. The model computes with unbounded integers, and `HornerStepBound` states the range of the intermediate values, so the loop is exact whenever that range fits in an `int`.
- Destructors are not modelled (`RBTree::~RBTree`, `MinPriorityQ::~MinPriorityQ`, `DoublyLinkedList::~DoublyLinkedList`): teardown only. Leaked and never-freed nodes are not modelled either: an unlinked node stays unreachable in its arena.
- Lines 57-63 of the `DoublyLinkedList` constructor are not modelled: they read an uninitialised `head`. The constructor is modelled as line 65.
- `MinPriorityQ::buildMinHeap` is not modelled: nobody calls it.
- The random engine of `randomized_partition` is seeded with the clock, so it is not modelled. The pivot is any index in `[p, r]` (`:|`), and every property holds for every choice.
- CensusSorts.InsertionSort: does not state stability as a separate property. `ShiftDownStops` states the condition it rests on, that the inner loop passes only records not `isSmaller` than the key.
- Undefined behaviour is excluded by preconditions or error results, not reproduced:
  - MinPriority.MinPriorityQ.DecreaseKey: requires the id to be present (or the queue empty), because otherwise the sift-up reads past the end of the vector.
  - Graphs.Graph.Relax: requires `key[u] + weight` to fit in an `int`. `RelaxNeighbors` stops with `false` instead of overflowing, reading a name that is not a vertex, or re-keying a vertex that is no longer queued.
  - Graphs.Graph.GetShortestPath: returns `None` where the C++ walk would never end (an unreachable `to`, or a `to` that was not a vertex and now has `pi == ""` while `from` is not empty) or where it would insert a further missing name through `map::operator[]`. The `to` record that line 24 inserts is modelled (`Touch`). The walk is bounded by `|vertices|` steps, which is exact for every walk that finishes (`WalkBoundExact`).
- Graphs.Graph.BuildSSPTree: does not state Dijkstra optimality. The queue's `parent(i) = i/2` defect (`SiftUpBreaksHeap`) makes it false as written, so only the structural properties are proved.
- MinPriority.MinPriorityQ.ExtractMin: does not state that the result is the global minimum, for the same reason. `ExtractFromHeap` states it for a heap-ordered vector.
- The dead checks of `rbDelete(Node*)` at `Project4/rbtree.cpp:361-368` are not modelled as branches. `root` is never null after the constructor, and `DeleteNode` requires `z` to be in the tree, so the search never misses. `rbInsert`'s `root == nullptr` branch (`:328-333`) is dead for the same reason.
- RedBlackTree.RBTree.InsertNode: the writes of `z`'s `left`, `right` and `color` are merged into one record update. Nothing reads them in between.
- Pointers are arena indices, with C++ `nullptr` and the sentinel `nil` as reserved indices. Aliasing between different trees or lists is therefore not modelled.
- `Graph`'s `map` iteration order is modelled as ascending `StrLess` order on the names, which is `std::map`'s order for `std::string` keys compared by code point.
- `char` is a Dafny `char`, a code point. Values where C++ `char` would be negative are not modelled, so `hf` sees non-negative characters only.
