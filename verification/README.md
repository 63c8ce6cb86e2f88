# CS-284 data structures in Dafny

This project models the core classes of a data-structures course
repository and proves properties of them:

- `treaps.Treap`: a binary search tree that is also a max-heap on
  per-node priorities. It keeps a registry of the priorities in use. Nodes
  are rotated in place.
- `huffman.HuffmanTree`: counts character frequencies, builds the code tree
  with a priority queue, and encodes and decodes bit strings.
- `notes.heaps.Heap`: a min-heap kept in an `ArrayList`.
- `notes.sorts.HeapSort`, `notes.sorts.QuickSort` and
  `notes.sorts.InsertionSort`: in-place sorts of an `int[]`.
- `notes.trees.BTree`: an immutable binary tree. It has constructors,
  height, mirror, isomorphism, the three depth-first traversals,
  `sumTree`, two breadth-first listings and `ancestors`.
- `notes.tables.HashtableOpen`: open addressing with linear probing and a
  shared `DELETED` entry.
- `notes.tables.HashtableBST`: an `ArrayList` of binary-search-tree buckets.

## How the code is modelled

Each Java class keeps its own form in Dafny:

- Classes whose fields the Java code updates in place become Dafny
  `class`es:
  - the treap and its nodes
  - the heap
  - both hash tables and their entries or nodes
- In-place array algorithms keep their `array<int>` and their loops.
- Value-like code becomes datatypes and functions:
  - the binary tree
  - the Huffman nodes
  - the specification functions of the hash tables

Exceptions are values of `Java.Outcome<T>`, which is either `Ok(value)` or
`Thrown(error)`, so every error path of the source is a result the contracts
talk about. Java's truncating `/` and `%` are `Java.Div` and `Java.Rem`.
32-bit `int` addition is `Java.AddInt`.

Several Java methods do not do what their comments say. The model follows
the code as written, and where a corrected version is evident it models
that too and proves the intended property of it (see "## Findings"). The
main cases:

- The treap's `add(key, priority)` dereferences a missing node on an empty
  tree.
- The treap's `add(key)` registers its priority and then rejects it.
- The treap's `reheap` loop never advances. Its `swapRight` and `swapLeft`
  rotate the wrong node.
- The heap's list constructor sets `free` to 0. Its `heapify` skips the
  root. Its `remove` fails on a single entry.
- `BTree.isomorphic` is always true.
- In `HashtableOpen`, the probe of `find` skips exactly the slots that hold
  the key it looks for. `rehash` dereferences the first null slot it meets.
- `HashtableBST` starts with an empty list, so `find` divides by zero.

The hash tables are modelled as written only: the model proves the
consequences of their code (for example `OpenHashing.NewTablePutThenGet` and
`BstHashing.NewTableThrows`), but has no corrected table.

## Model

| member | source | states |
|---|---|---|
| Java.Div | notes/heaps/Heap.java:52 | Java's `/` on `int`: the quotient truncated toward zero, bounded by the operands' magnitudes, with the sign of the operands' product |
| Java.Rem | notes/tables/HashtableOpen.java:58 | Java's `%`: the dividend is divisor times `Div` plus the remainder, which takes the sign of the dividend and is smaller than the divisor in magnitude |
| Java.AddInt | notes/trees/BTree.java:132 | Java `int` addition: a 32-bit value congruent to the sum modulo 2^32, equal to it when the sum fits |
| Hashing.Home | notes/tables/HashtableOpen.java:58-60 | the remainder of the hash code, moved up by the size when it is negative, is a valid slot and equals the floored modulus of the hash code |
| Hashing.OverloadedIff | notes/tables/HashtableOpen.java:78 | the load check with an integer quotient fires exactly when the count has reached the table size (a threshold below 1) |
| Treap.Node.constructor | treaps/Treap.java:14-21 | a node with the given key and priority and no children |
| Treap.Node.RotateRight | treaps/Treap.java:30-37 | without a left child it throws IllegalStateException and changes nothing; otherwise it returns the left child, whose right link is now this node, and this node's left link takes the child's old right subtree; no other link changes |
| Treap.Node.RotateLeft | treaps/Treap.java:46-53 | the mirror image of `RotateRight` |
| Treap.RotRPreserves | treaps/Treap.java:30-37 | a right rotation keeps the in-order key sequence, the node set, the keys and the priorities |
| Treap.RotRBst | treaps/Treap.java:30-37 | a right rotation of a search tree is a search tree |
| Treap.RotRDistinct | treaps/Treap.java:30-37 | a right rotation of a tree without shared nodes has no shared nodes |
| Treap.RotRUnique | treaps/Treap.java:30-37 | a right rotation keeps the priorities pairwise distinct |
| Treap.RotLPreserves | treaps/Treap.java:46-53 | a left rotation keeps the in-order key sequence, the node set, the keys and the priorities |
| Treap.RotLBst | treaps/Treap.java:46-53 | a left rotation of a search tree is a search tree |
| Treap.RotLDistinct | treaps/Treap.java:46-53 | a left rotation of a tree without shared nodes has no shared nodes |
| Treap.RotLUnique | treaps/Treap.java:46-53 | a left rotation keeps the priorities pairwise distinct |
| Treap.BstIffSorted | treaps/Treap.java:118-127 | the search-tree order the descent relies on holds exactly when the in-order traversal is strictly increasing |
| Treap.InOrderKeys | treaps/Treap.java:118-127 | the in-order traversal lists exactly the keys of the tree |
| Treap.Treap.constructor | treaps/Treap.java:71-75 | an empty, well-formed treap with an empty priority registry |
| Treap.Treap.WithSeed | treaps/Treap.java:81-85 | the same as the plain constructor; the seed only feeds the random generator |
| Treap.Treap.Find | treaps/Treap.java:207-222 | the search returns true exactly when the key is in the treap |
| Treap.Treap.Descend | treaps/Treap.java:115-127 | the descent meets the key exactly when it is present; otherwise the recorded path is the chain of ancestors below which a node with the key belongs |
| Treap.Treap.Add | treaps/Treap.java:111-142 | as written up to hanging the new leaf, with heap order then restored by the intended reheap (`Reheap`): a registered priority throws IllegalArgumentException and a present key gives false, both with nothing changed; on an empty treap the priority is registered and NullPointerException is thrown; otherwise true, the key and the priority are added and the treap stays a search tree and a heap with unique priorities (where the new leaf outranks its parent the source's own reheap fails instead; see Left out) |
| Treap.Treap.AttachLeaf | treaps/Treap.java:129-141 | on a non-empty treap, hanging the new node below the last node of the descent and restoring heap order gives a well-formed treap with the key and priority added |
| Treap.Treap.Graft | treaps/Treap.java:129-137 | the new node is fresh, childless and registered, and becomes the right child of the last node when that node's key is smaller and its left child otherwise |
| Treap.Treap.Reheap | treaps/Treap.java:148-162 | as intended: rotating the new node up while it outranks its parent ends in a well-formed treap over the same nodes, keys and priorities |
| Treap.Treap.Climb | treaps/Treap.java:152-161 | the reheap loop keeps the pointer structure mirroring a tree whose frames are heap-ordered, and stops when the new node no longer outranks its parent |
| Treap.Treap.Step | treaps/Treap.java:154-160 | one loop iteration lifts the new node above its parent and keeps the reheap invariant, the keys and the priorities |
| Treap.Treap.Settle | treaps/Treap.java:154 | when the loop stops, the links mirror a search tree that is a heap with unique priorities |
| Treap.Treap.RotateUp | treaps/Treap.java:155-160 | a rotation at the parent, relinked into the grandparent (or the root), makes the links mirror the lifted shape |
| Treap.Treap.RotateUpRight | treaps/Treap.java:156-157 | the same when the new node is the parent's left child |
| Treap.Treap.RotateUpLeft | treaps/Treap.java:158-159 | the same when the new node is the parent's right child |
| Treap.Treap.SwapRight | treaps/Treap.java:169-181 | as intended: throws IllegalStateException exactly when `child` has no left child or is not a child of `parent`; otherwise `child`'s left child takes its place below `parent` (or at the root) with `child` as its right child, and no other link changes |
| Treap.Treap.SwapLeft | treaps/Treap.java:188-200 | the mirror image of `SwapRight` |
| Treap.Treap.SwapRightAsWritten | treaps/Treap.java:169-181 | as written: without a parent it rotates `child` to the root; with one it rotates `parent` itself, leaving `parent` and its old left child in a two-node cycle, and a null link that `equals` is called on throws NullPointerException |
| Treap.Treap.SwapLeftAsWritten | treaps/Treap.java:188-200 | the mirror image of `SwapRightAsWritten` |
| Treap.Treap.AddRandom | treaps/Treap.java:92-102 | as written: with all 100 priorities in use it throws IllegalStateException; otherwise it registers one new priority in `[0, 100)` before calling `add(key, priority)`, which then always throws IllegalArgumentException and leaves the tree alone |
| Treap.Treap.AddIntended | treaps/Treap.java:111-142 | as intended: as `Add`, except that on an empty treap the new node becomes the root and the result is true |
| Treap.Treap.Plant | treaps/Treap.java:129-136 | the first node of an empty treap becomes its root, with its priority registered |
| Treap.Treap.AddRandomIntended | treaps/Treap.java:92-102 | as intended: IllegalStateException when full, false for a present key, and otherwise true with the key added under one new priority in `[0, 100)`, which is also the one priority the tree gains |
| Treap.Treap.Delete | treaps/Treap.java:202-205 | the unfinished `delete` reports success |
| Treap.NewTreapAddAsWritten | treaps/Treap.java:129-133 | as written, adding to a new treap throws NullPointerException and the key is not found afterwards |
| Treap.NewTreapAddIntended | treaps/Treap.java:111-142 | with the intended `add`, a key added to a new treap is found |
| Treap.Treap.ReheapPassAsWritten | treaps/Treap.java:155-160 | as written, one pass of the reheap loop: NullPointerException when the parent has no left link; with no grandparent, a left child is rotated above the parent to the root, and for a right child the parent is rotated left (IllegalStateException without a right child); with a grandparent lacking a left link, NullPointerException |
| Treap.ReheapAsWrittenTwoNodes | treaps/Treap.java:148-181 | as written, two passes of the reheap loop on a two-node treap: the first rotates the new node to the root, the second throws NullPointerException, because the loop never advances |
| Huffman.Merge | huffman/HuffmanTree.java:69-73 | the internal node over two trees holds them as children, its frequency is the sum of theirs when it fits an `int`, and it is consistently weighted exactly when both children are |
| Huffman.Frequency | huffman/HuffmanTree.java:98-104 | IndexOutOfBoundsException exactly when some character is 256 or above; otherwise 256 counts, each the number of occurrences of its character |
| Huffman.TotalBounds | huffman/HuffmanTree.java:141-149 | a forest of positive frequencies has a positive total |
| Huffman.Build | huffman/HuffmanTree.java:112-150 | NullPointerException on the empty string, IndexOutOfBoundsException on a character of 256 or above; otherwise a consistently weighted tree whose frequency is the string's length and whose leaves hold exactly the string's characters |
| Huffman.Leaves | huffman/HuffmanTree.java:123-129 | one positive-frequency leaf per character that occurs, with total frequency the string's length |
| Huffman.MergeAll | huffman/HuffmanTree.java:141-149 | merging the queue down to one tree keeps the total frequency and the set of characters |
| Huffman.MergeLeast | huffman/HuffmanTree.java:142-145 | one round replaces two trees by their merge: one tree fewer, the same total and the same characters |
| Huffman.PollMin | huffman/HuffmanTree.java:142 | the queue yields a tree of least frequency |
| Huffman.BitsToString | huffman/HuffmanTree.java:160-165 | one character per bit, `'1'` for true and `'0'` for false |
| Huffman.CodeExists | huffman/HuffmanTree.java:243-256 | a character has a code word exactly when some leaf holds it |
| Huffman.Dfs | huffman/HuffmanTree.java:243-256 | the search succeeds exactly when a leaf holds the character, and then prepends the character's code word (the leftmost leaf's path) to the path |
| Huffman.EncodedOk | huffman/HuffmanTree.java:264-274 | encoding succeeds exactly when every character has a leaf, and otherwise throws IllegalArgumentException |
| Huffman.EncodedSnoc | huffman/HuffmanTree.java:267-272 | encoding one more character appends that character's code word |
| Huffman.Encode | huffman/HuffmanTree.java:264-274 | the result is the concatenation of each character's code word, or IllegalArgumentException |
| Huffman.EfficientEncode | huffman/HuffmanTree.java:282-298 | caching the code words in a map gives exactly the result of `encode` |
| Huffman.Decode | huffman/HuffmanTree.java:212-234 | the loop computes the walk over the bits, throwing IllegalArgumentException when it ends inside the tree; no bits decode to the empty string |
| Huffman.WalkCode | huffman/HuffmanTree.java:217-227 | following a character's code word from an internal node emits that character and restarts at the root |
| Huffman.WalkEncoded | huffman/HuffmanTree.java:212-234 | decoding an encoding followed by more bits emits the encoded string first |
| Huffman.DecodeEncode | huffman/HuffmanTree.java:212-274 | with an internal node at the root, decoding the encoding of a string gives back the string |
| Huffman.PartialCodeThrows | huffman/HuffmanTree.java:230-231 | bits that stop part-way through a code word make `decode` throw IllegalArgumentException |
| Huffman.SingleLeafForgets | huffman/HuffmanTree.java:212-274 | with a single leaf every character's code word is empty, so the encoding of `cc` decodes to the empty string |
| Heaps.Heap.constructor | notes/heaps/Heap.java:10-13 | an empty heap |
| Heaps.Heap.FromListAsWritten | notes/heaps/Heap.java:15-19 | as written: the list's entries with `free` at 0, the root unmoved, and heap order below the root only |
| Heaps.Heap.FromList | notes/heaps/Heap.java:15-19 | as intended: a valid heap holding exactly the list's entries |
| Heaps.Heap.HeapifyAsWritten | notes/heaps/Heap.java:21-24 | as written: the same entries with the root unmoved, heap-ordered from index 1 on |
| Heaps.Heap.Heapify | notes/heaps/Heap.java:21-24 | as intended (down to index 0): the same entries, in min-heap order |
| Heaps.Heap.PercolateDown | notes/heaps/Heap.java:26-45 | given heap order below `i`, sinking the entry at `i` gives heap order from `i` on, with the same entries and nothing before `i` moved |
| Heaps.Heap.Add | notes/heaps/Heap.java:47-59 | from any state whose first `free` entries are in min-heap order (including the one the as-written list constructor leaves): the item joins those entries, which stay in min-heap order and grow by one, and the entries after them are unchanged; from a valid heap, the heap stays valid and holds its entries plus the new item |
| Heaps.Heap.RemoveAsWritten | notes/heaps/Heap.java:61-72 | as written: IllegalStateException whenever `free` is 0, whatever the list holds (so also after the as-written list constructor); on a valid heap, IndexOutOfBoundsException on a single entry, otherwise the least entry is returned and removed and the heap stays valid |
| Heaps.Heap.Remove | notes/heaps/Heap.java:61-72 | as intended: IllegalStateException on an empty heap, otherwise the least entry is returned, one copy of it leaves the heap, and the heap stays valid |
| Heaps.Heap.Top | notes/heaps/Heap.java:74-78 | IllegalStateException on an empty heap, otherwise the root, which is no greater than any entry |
| Heaps.Heap.Swap | notes/heaps/Heap.java:80-84 | the two entries trade places and nothing else changes |
| Heaps.RootIsMin | notes/heaps/Heap.java:74-78 | the root of a min-heap is its least entry |
| Heaps.Shrunk | notes/heaps/Heap.java:65-66 | moving the last entry of a heap to the root loses one copy of the root and leaves heap order below the root |
| Heaps.FromListUnordered | notes/heaps/Heap.java:15-24 | as written, the list constructor leaves `[3, 1, 2]` out of heap order |
| Heaps.FromListLooksEmpty | notes/heaps/Heap.java:15-19 | as written, a heap built from a non-empty list throws IllegalStateException on `top` |
| Heaps.FromListThenAdd | notes/heaps/Heap.java:15-63 | as written, after `new Heap([5])`, `remove` throws IllegalStateException and `add(7)` puts 7 in front of 5 with `free` at 1 |
| Heaps.LastRemoveThrows | notes/heaps/Heap.java:61-72 | as written, `remove` on a heap with one entry throws IndexOutOfBoundsException |
| Sorting.Swap | notes/sorts/InsertionSort.java:24-28 | the two entries trade places and nothing else changes |
| Sorting.SwapWithin | notes/sorts/QuickSort.java:38-42 | a swap inside a range keeps the array a rearrangement of the original that differs from it only inside the range |
| Sorting.SameMiddle | notes/sorts/QuickSort.java:12-19 | two arrays with the same entries that agree outside a range have the same entries inside it |
| InsertionSort.Sort | notes/sorts/InsertionSort.java:7-22 | the array ends sorted and a permutation of its old contents; arrays of at most one entry are unchanged |
| HeapSort.PercolateDown | notes/sorts/HeapSort.java:18-35 | given max-heap order below `i` within `end`, sinking the entry at `i` gives max-heap order from `i` on, moving entries only within `i..end-1` |
| HeapSort.RootIsMax | notes/sorts/HeapSort.java:44-47 | the root of a max-heap is its largest entry |
| HeapSort.SwapTop | notes/sorts/HeapSort.java:44-47 | moving the root to the end of the heap extends the sorted tail, all of whose entries stay at least the heap's |
| HeapSort.Sort | notes/sorts/HeapSort.java:37-48 | the array ends sorted and a permutation of its old contents |
| QuickSort.Sort | notes/sorts/QuickSort.java:8-10 | the array ends sorted and a permutation of its old contents |
| QuickSort.SortRange | notes/sorts/QuickSort.java:12-19 | `a[lo..hi]` ends sorted and a permutation of its old contents, and nothing outside it changes |
| QuickSort.Combine | notes/sorts/QuickSort.java:14-18 | partitioning and then sorting both sides of the pivot sorts the range and keeps its entries |
| QuickSort.SortedAround | notes/sorts/QuickSort.java:14-18 | sorted entries at most the pivot, then the pivot, then sorted entries above it form a sorted permutation of the partitioned range |
| QuickSort.Partition | notes/sorts/QuickSort.java:21-36 | the returned index holds the old first entry, everything before it in the range is at most it and everything after is greater, and entries moved only within the range |
| QuickSort.PivotPlaced | notes/sorts/QuickSort.java:34-35 | swapping the pivot into the crossing point leaves it between the two sides |
| QuickSort.Round | notes/sorts/QuickSort.java:24-32 | one pass of the do-while keeps the partition invariant, and the gap between the scans shrinks while they have not crossed |
| QuickSort.ScanRight | notes/sorts/QuickSort.java:24-25 | skips exactly the entries not greater than the pivot, possibly up to the array's end |
| QuickSort.ScanLeft | notes/sorts/QuickSort.java:26-27 | skips exactly the entries greater than the pivot and stops at one not greater, never below the pivot |
| BTrees.Empty | notes/trees/BTree.java:30-33 | an empty tree whose size field counts its nodes |
| BTrees.Single | notes/trees/BTree.java:35-38 | a one-node tree whose size field counts its nodes |
| BTrees.Join | notes/trees/BTree.java:40-43 | a new root over the two trees' roots; the size field counts the nodes when the sum fits an `int` |
| BTrees.HeightBounds | notes/trees/BTree.java:45-55 | the height is at most the number of nodes, and is 0 exactly for the empty tree |
| BTrees.MirrorInvolutive | notes/trees/BTree.java:57-63 | mirroring twice gives back the tree |
| BTrees.MirrorKeepsShape | notes/trees/BTree.java:57-63 | mirroring keeps the height and the number of nodes |
| BTrees.MirrorDiscarded | notes/trees/BTree.java:65-67 | the public `mirror()` leaves the tree as it was |
| BTrees.AsWrittenAlwaysTrue | notes/trees/BTree.java:69-74 | as written, `isomorphic` returns true for any two trees |
| BTrees.IsomorphicSameSize | notes/trees/BTree.java:69-74 | with the test corrected, isomorphic trees have the same number of nodes |
| BTrees.IsomorphicToMirror | notes/trees/BTree.java:69-74 | with the test corrected, every tree is isomorphic to its mirror image |
| BTrees.IsomorphicCounterexample | notes/trees/BTree.java:69-74 | an empty tree and a one-node tree: as written `isomorphic` says yes, corrected it says no |
| BTrees.TraversalsAgree | notes/trees/BTree.java:80-126 | pre-order lists as many entries as there are nodes, and the three traversals list the same entries |
| BTrees.MirrorInorder | notes/trees/BTree.java:96-110 | the in-order listing of the mirror image is the reversed in-order listing |
| BTrees.MirrorPreorder | notes/trees/BTree.java:80-126 | the pre-order listing of the mirror image is the reversed post-order listing |
| BTrees.SumWithEmpty | notes/trees/BTree.java:128-144 | summing with an empty tree copies the other tree |
| BTrees.SumTreeShape | notes/trees/BTree.java:128-144 | the sum is symmetric, as tall as the taller argument, and holds the `int` sum (with 32-bit wrap-around) at nodes both trees have |
| BTrees.QueueLevelOrder | notes/trees/BTree.java:148-157 | the FIFO queue yields the entries level by level, left to right |
| BTrees.QueueYieldsAll | notes/trees/BTree.java:148-157 | the FIFO queue yields every entry of its trees exactly once |
| BTrees.LevelsOfTree | notes/trees/BTree.java:161-180 | a non-empty tree has one level per unit of height, level `k` being the entries at depth `k` from left to right |
| BTrees.Bfs | notes/trees/BTree.java:146-159 | NullPointerException on an empty tree; otherwise the entries in level order, each exactly as often as it occurs |
| BTrees.Bfs2 | notes/trees/BTree.java:161-180 | one list per level of the tree, the `k`-th holding the entries at depth `k` from left to right |
| BTrees.ScanLevel | notes/trees/BTree.java:167-176 | the inner loop records the roots of one level and leaves their children in the queue |
| BTrees.AncestorsFrom | notes/trees/BTree.java:182-194 | true exactly when the item is in the subtree; then the path gains, in front, the entries from the subtree's root down to the first node holding the item in pre-order, and otherwise it is unchanged |
| BTrees.Ancestors | notes/trees/BTree.java:196-201 | IllegalArgumentException exactly when the item is not in the tree; otherwise the entries above the first node holding it in pre-order, root first |
| OpenHashing.Entry.SetValue | notes/tables/HashtableOpen.java:35-39 | the entry takes the new value and the old one is returned |
| OpenHashing.Next | notes/tables/HashtableOpen.java:64 | the next slot, wrapping round from the last to 0 |
| OpenHashing.ProbeStops | notes/tables/HashtableOpen.java:63-64 | with a null slot in the table, the probe loop ends within one round |
| OpenHashing.Located | notes/tables/HashtableOpen.java:57-61 | `find` returns a slot that is null or holds a different key, or throws NullPointerException, which needs a `DELETED` slot |
| OpenHashing.LocatedPath | notes/tables/HashtableOpen.java:57-66 | as written, from the home slot the probe passes exactly the slots holding the key and returns the first slot after them |
| OpenHashing.Lookup | notes/tables/HashtableOpen.java:69-72 | `get` throws only NullPointerException, and a non-null result is the value of a live entry holding a different key |
| OpenHashing.Stored | notes/tables/HashtableOpen.java:80-89 | a null slot gets a new entry and `numKeys` goes up, returning the new value; a live slot takes the new value, returning the old one; the table invariant holds |
| OpenHashing.AfterPut | notes/tables/HashtableOpen.java:74-91 | `put` keeps the table invariant: fewer taken slots than `numKeys + numDeletes`, which stays below the length |
| OpenHashing.PutAt | notes/tables/HashtableOpen.java:76-90 | `put` at the probed slot keeps the table invariant |
| OpenHashing.PutIntoNull | notes/tables/HashtableOpen.java:76-83 | for a new key, `put` throws exactly when the count with the key has reached the table size, leaving `2·length + 1` slots; otherwise it returns the value it was given |
| OpenHashing.AfterRehash | notes/tables/HashtableOpen.java:93-102 | `rehash` leaves `2·length + 1` slots and no deletions, and succeeds exactly when every old slot is live; otherwise it throws NullPointerException |
| OpenHashing.Refill | notes/tables/HashtableOpen.java:98-100 | putting the remaining old slots back succeeds exactly when all of them are live |
| OpenHashing.PutWhileFilling | notes/tables/HashtableOpen.java:98-100 | inside `rehash`, each `put` finds a slot without firing the load check and is the plain store there |
| OpenHashing.NewTablePutThenGet | notes/tables/HashtableOpen.java:69-91 | as written, on a new table `get(key)` right after `put(key, value)` returns null |
| OpenHashing.AfterRemove | notes/tables/HashtableOpen.java:110-117 | `remove` keeps the table invariant and the sum of the two counters |
| OpenHashing.RemoveAt | notes/tables/HashtableOpen.java:112-116 | the probed slot becomes `DELETED` when its value is non-null and null otherwise, no other slot changes, `numKeys` goes down and `numDeletes` up whatever was found, and the value found (or null) is returned |
| OpenHashing.HashtableOpen.constructor | notes/tables/HashtableOpen.java:47-49 | a valid table of 101 null slots with both counters at 0 |
| OpenHashing.HashtableOpen.Find | notes/tables/HashtableOpen.java:57-67 | the probe loop computes `Located` |
| OpenHashing.HashtableOpen.Get | notes/tables/HashtableOpen.java:69-72 | the method computes `Lookup` |
| OpenHashing.HashtableOpen.Write | notes/tables/HashtableOpen.java:82 | storing an entry in a slot changes that slot of the table's state alone |
| OpenHashing.HashtableOpen.Put | notes/tables/HashtableOpen.java:74-91 | the new state and the result are those of `AfterPut`, and the table stays valid |
| OpenHashing.HashtableOpen.Place | notes/tables/HashtableOpen.java:76-90 | the new state and the result are those of `PutAt` |
| OpenHashing.HashtableOpen.Grow | notes/tables/HashtableOpen.java:77-79 | the count goes up, the load check fires and `rehash` runs; the outcome is that of `PutAt` |
| OpenHashing.HashtableOpen.AddEntry | notes/tables/HashtableOpen.java:77-83 | a new entry in the null slot gives the state and result of `Stored` |
| OpenHashing.HashtableOpen.Overwrite | notes/tables/HashtableOpen.java:88-90 | the live entry takes the value; the state and result are those of `Stored` |
| OpenHashing.HashtableOpen.Rehash | notes/tables/HashtableOpen.java:93-102 | the new state and the result are those of `AfterRehash` |
| OpenHashing.HashtableOpen.Renew | notes/tables/HashtableOpen.java:94-97 | the old array is kept aside and a fresh one of `2·length + 1` null slots replaces it, with both counters at 0 |
| OpenHashing.HashtableOpen.Refilling | notes/tables/HashtableOpen.java:98-101 | the loop over the old array computes `Refill` |
| OpenHashing.HashtableOpen.Reinsert | notes/tables/HashtableOpen.java:98-100 | one slot of the old array is put back, or the test throws, as `Refill` says |
| OpenHashing.HashtableOpen.Remove | notes/tables/HashtableOpen.java:110-117 | the new state and the result are those of `AfterRemove` |
| OpenHashing.HashtableOpen.Vacate | notes/tables/HashtableOpen.java:112-116 | the probed slot is emptied as `RemoveAt` says |
| BstHashing.LookupMapping | notes/tables/HashtableBST.java:43-52 | in an ordered bucket, the descent of `get` finds the key's value, and null for a key the bucket does not hold |
| BstHashing.Insert | notes/tables/HashtableBST.java:54-68 | `chain` adds the key to the bucket's keys, keeps an ordered bucket ordered, and grows it by one node exactly when the key is new |
| BstHashing.InsertLookup | notes/tables/HashtableBST.java:54-68 | after `chain`, looking up the key gives the new value and looking up any other key gives what it gave before |
| BstHashing.ChainThenLookup | notes/tables/HashtableBST.java:54-68 | after `chain`, a lookup sees the bucket's old contents with the key mapped to the new value |
| BstHashing.Index | notes/tables/HashtableBST.java:38-41 | ArithmeticException exactly on an empty list; otherwise a valid index equal to the floored modulus of the hash code |
| BstHashing.ListAdd | notes/tables/HashtableBST.java:78 | `ArrayList.add(index, x)`: `x` goes in at `index`, earlier entries stay and later ones move up by one |
| BstHashing.ListAddMembers | notes/tables/HashtableBST.java:78-81 | after `add` the list holds its old entries and the new one, and nothing else |
| BstHashing.Node.constructor | notes/tables/HashtableBST.java:23-26 | a one-node bucket holding the key and the value |
| BstHashing.Chain | notes/tables/HashtableBST.java:54-68 | the returned root's bucket is the old bucket after `Insert`; the root is the old one unless the bucket was empty |
| BstHashing.ChainRight | notes/tables/HashtableBST.java:62-63 | the key goes into the right subtree, and the bucket becomes the old one after `Insert` |
| BstHashing.ChainLeft | notes/tables/HashtableBST.java:64-65 | the key goes into the left subtree, and the bucket becomes the old one after `Insert` |
| BstHashing.HashtableBST.constructor | notes/tables/HashtableBST.java:34-36 | a valid table with an empty list and both counters at 0 |
| BstHashing.HashtableBST.Find | notes/tables/HashtableBST.java:38-41 | the index that `Index` gives for the key's hash code |
| BstHashing.HashtableBST.Get | notes/tables/HashtableBST.java:43-52 | ArithmeticException on an empty list; otherwise the lookup of the key in its bucket |
| BstHashing.HashtableBST.Put | notes/tables/HashtableBST.java:70-84 | on an empty list it throws ArithmeticException and changes nothing; when the slot is empty and the load check fires it throws ArithmeticException, leaving an empty list and zero counters; when the slot is empty otherwise it returns the value after inserting a fresh one-entry bucket there and counting the key; when the slot holds a bucket it returns the value after inserting the key into that bucket and adding the bucket again at the slot; every other bucket keeps its contents and the table stays valid |
| BstHashing.HashtableBST.Grow | notes/tables/HashtableBST.java:73-76 | when the load check fires, `rehash` or the second `find` throws ArithmeticException, leaving an empty list and zero counters |
| BstHashing.HashtableBST.AddBucket | notes/tables/HashtableBST.java:78 | a fresh one-node bucket is inserted at the index, shifting the later buckets, and `numKeys` goes up |
| BstHashing.HashtableBST.ChainBucket | notes/tables/HashtableBST.java:80-81 | the bucket takes the key as `Insert` says, is inserted at the index a second time, and no other bucket's contents change |
| BstHashing.HashtableBST.Rehash | notes/tables/HashtableBST.java:86-105 | the list becomes empty with zero counters, and ArithmeticException is thrown exactly when some old bucket is non-null |
| BstHashing.NewTableThrows | notes/tables/HashtableBST.java:34-41 | as written, `put` and `get` on a new table both throw ArithmeticException |

## Left out

- Treap: the random generator. The drawn priority of `add(key)` is a
  nondeterministic choice of a free priority in `[0, 100)`.
- Treap.Treap.AddRandom: requires that all 100 priorities are in use or
  that one of them is free. When fewer than 100 are registered but every
  value in `[0, 100)` is taken, the source loops forever; this can happen
  because priorities outside the range can be registered by
  `add(key, priority)`.
- Treap keys are `int`, compared by `compareTo` as integers. The generic
  `E` and the null check of the node constructor are not modelled.
- Treap: the registry may hold more priorities than the tree. The two
  throwing paths of `add` leave one behind, so the model's invariant is
  that the tree's priorities are a subset of the registry.
- Treap.Treap.Reheap: models the loop as evidently intended. The as-written
  loop is captured pass by pass by `ReheapPassAsWritten` and, on a two-node
  treap, by `ReheapAsWrittenTwoNodes`: it never advances, so in general it
  throws or does not terminate. The whole as-written loop is not modelled.
- Treap.Treap.Add: uses the intended `Reheap` after hanging the new leaf.
  When the leaf outranks its parent, the source's reheap
  (treaps/Treap.java:152-161) throws NullPointerException, throws from
  swapRight/swapLeft or does not terminate instead of returning true (for
  example `add(1, 5)` on a treap whose only node has key 2 and priority 1).
  The model's true result and its heap-ordered treap are the intended
  outcome there, not the source's.
- Treap, HuffmanTree, BTree, Heap, the sorts and the tables: `toString`,
  `main` and console output are not modelled.
- Huffman: ties in `PriorityQueue` order are not modelled. `poll` is any
  tree of least frequency, so the exact shape of the tree is not fixed.
  The proved properties hold for every choice.
- Huffman.Build: requires a string of at most `Integer.MAX_VALUE`
  characters, as every Java `String` is. This keeps the frequencies within
  `int`.
- Huffman: a `null` in the `Boolean[]` of `decode`, and the unboxing
  NullPointerException it causes, are not modelled.
- HeapSort.sortH (the variant through `java.util.PriorityQueue`) is not
  part of this model.
- Heap: the generic `E` is `int`, and `compareTo` is integer order.
- Heaps.Heap.RemoveAsWritten: stated only for `free == 0` and for a valid
  heap. A `free` between 1 and the list length minus 1 arises only after
  the as-written list constructor followed by `add`; what `remove` then
  does (taking out entry `free - 1` and sinking over the whole list) is
  not modelled.
- BTrees.Bfs2: requires a non-empty tree. On an empty tree the source
  loops forever, adding empty levels.
- BTrees.Ancestors: the source compares with `==`, which for objects is
  reference equality. It is modelled as value equality.
- BTree traversals: the `notes.lists.SLL` result lists are sequences.
  `SLL` is not part of this model.
- BTree: `null` data in `sumTree`, and its unboxing exception, are not
  modelled.
- Hash tables: `hashCode` is a function given to the constructor. Null keys
  are not modelled.
- Hash tables: the counters are unbounded integers, so their `int`
  overflow is not modelled.
- Hash tables: `LOAD_THRESHOLD` (0.75 and 0.74) is kept in hundredths.
  The check compares an integer quotient, so only "at least the table
  size" matters.
- OpenHashing: the accessors `getKey` and `getValue` of `Entry` are read
  as fields.
- BstHashing: keys are `int` and `compareTo` is integer order.
- BstHashing.HashtableBST.Rehash: the breadth-first queue that walks each
  old bucket is not modelled step by step. The table's list is empty
  during a rehash, so the first `put` of the walk throws, and that outcome
  is what the contract states.
- Hash tables: no corrected versions of `find`, `rehash` or the
  `HashtableBST` constructor are modelled. The model covers the code as
  written only.

## Findings

| source | as written | input that shows it | evidently intended | confidence | as-written member | corrected member |
|---|---|---|---|---|---|---|
| notes/heaps/Heap.java:17 | the list constructor sets `free` to 0 | `new Heap([5])` followed by `top()` throws IllegalStateException | `free` counts the adopted entries | not executed | Heaps.FromListLooksEmpty | Heaps.Heap.FromList |
| notes/heaps/Heap.java:22 | `heapify` stops before index 0 | `new Heap([3, 1, 2])` leaves 3 at the root | the loop runs down to index 0 | not executed | Heaps.FromListUnordered | Heaps.Heap.Heapify |
| notes/heaps/Heap.java:66 | `remove` takes the last entry out and then writes it over index 0 | `remove()` on a heap holding one entry throws IndexOutOfBoundsException | the last entry replaces the root only when another entry remains | not executed | Heaps.LastRemoveThrows | Heaps.Heap.Remove |
| notes/trees/BTree.java:70-73 | the disjunction holds whenever one of the trees is non-null or both are null | an empty tree and a one-node tree are called isomorphic | both null, or both non-null with isomorphic children, crossed or not | not executed | BTrees.IsomorphicCounterexample | BTrees.IsomorphicToMirror |
| treaps/Treap.java:129-136 | on an empty tree the last node of the path is null and is dereferenced | `add(1, 5)` on a new treap throws NullPointerException | the new node becomes the root | not executed | Treap.NewTreapAddAsWritten | Treap.NewTreapAddIntended |
| treaps/Treap.java:100-101 | `add(key)` registers the priority before `add(key, priority)` checks that it is free | `add(1)` on a new treap throws IllegalArgumentException | the drawn priority is passed on unregistered | not executed | Treap.Treap.AddRandom | Treap.Treap.AddRandomIntended |
| treaps/Treap.java:175-178 | `swapRight` rotates `parent` and stores the result into `parent`'s own link | rotating under a parent leaves that parent and its left child linking to each other | rotate `child` and store the result into the parent's link | not executed | Treap.Treap.SwapRightAsWritten | Treap.Treap.SwapRight |
| treaps/Treap.java:154-161 | the reheap loop never moves `child` or `parent` and calls `equals` on a possibly null link | a treap holding key 2 (priority 1) with key 1 (priority 5) as left child: the second pass throws NullPointerException | after each rotation continue with the next ancestor | not executed | Treap.ReheapAsWrittenTwoNodes | Treap.Treap.Reheap |
