# Verified model of five data-structure and algorithm classes

This project models the core of a small TypeScript library of classic data
structures and algorithms, and proves what each of them promises:

- **Binary search tree** (`Bst`, `BstContainer`). An unbalanced ordered set
  of integers.
  - Adding a value already stored is an error.
  - Removing a node with two children copies the minimum of its right
    subtree into it and removes that minimum below.
  - The node operations return the new subtree root and never share nodes.
    So the tree is a recursive `datatype` and each operation a function
    that returns the new tree. The wrapper object that holds the root is a
    class.
- **AVL tree** (`Avl`, `AvlContainer`). The same recursion, plus a cached
  height per node and `fixBalance` with the four rotations.
  - The nodes are updated in place. A rotation that reads an absent child
    throws a TypeError part-way, so a node operation returns an
    `Avl.Outcome`: the new subtree, or the error with the tree as the throw
    left it.
  - Order and elements are proved for insertion and removal on any ordered
    tree, including the partly updated tree a throw leaves. Heights are
    proved for completed operations.
  - On a balanced tree neither operation meets an absent child. Insertion
    keeps the balance, but removal as written can lose it, and a later
    removal can then throw; see "## Findings".
  - The `AvlTree` object follows the library. `BalancedAvlTree` uses the
    corrected rebalancing on removal, so balance is an invariant.
- **Priority queue** (`PriorityQueue`). A binary max-heap kept in a growable
  array under a priority function. The sift-up and sift-down loops are
  methods with loop invariants over the heap order.
- **Dijkstra's shortest paths** (`ShortestPaths`).
  - An adjacency map that `addEdge` overwrites.
  - A worklist search over the priority queue that lazily re-enqueues
    improved vertices.
  - The search is proved to end in a relaxation fixpoint. Every recorded
    cost is the weight of the recorded path, and no walk from the start is
    cheaper.
- **Disjoint sets** (`UnionFind`). Union-find with path compression,
  union by rank and per-root set sizes, kept in three maps.
  - `find` is proved against a specification of roots and compressed
    parents.
  - `union` is proved against a specification of merged sets.
  - The size bookkeeping is proved correct for a union of two different
    sets. A union of one set with itself loses its count; see
    "## Findings".

Errors the source throws are the `Err` side of `Failures.Result`, or the
`Thrown` side of `Avl.Outcome`.

## Model

| member | source | states |
|---|---|---|
| Bst.Leftmost | src/binary-search-tree.ts:82-87 | The leftmost value is stored in the tree, and in an ordered tree no stored value is smaller. |
| Bst.ContainsIffMember | src/binary-search-tree.ts:64-72 | In an ordered tree, the search finds `v` exactly when `v` is stored. |
| Bst.AddCorrect | src/binary-search-tree.ts:17-27 | Adding fails exactly when the value is already stored, with a duplicate-value error. Otherwise the result is ordered, holds the old elements plus the value, is one node larger and keeps the same root value. |
| Bst.RemoveCorrect | src/binary-search-tree.ts:30-61 | Removal keeps the tree ordered and takes exactly the value out of the element set. |
| Bst.RemoveAbsent | src/binary-search-tree.ts:30-39 | Removing a value that is not stored returns the tree unchanged. |
| Bst.RemoveAtNodeWithOneChild | src/binary-search-tree.ts:39-59 | A node holding the value with at most one child is replaced by that child, or by an empty tree for a leaf. |
| Bst.RemoveAtNodeWithTwoChildren | src/binary-search-tree.ts:47-55 | A node holding the value with two children stays in place with the same left subtree. Its value becomes the minimum of the right subtree, and that minimum leaves the right subtree. |
| BstContainer.BinarySearchTree.constructor | src/binary-search-tree.ts:98-105 | A new tree is empty and ordered. |
| BstContainer.BinarySearchTree.Add | src/binary-search-tree.ts:108-110 | A duplicate is an error and leaves the root as it was. Otherwise the contents grow by the value, and the tree stays ordered. |
| BstContainer.BinarySearchTree.Remove | src/binary-search-tree.ts:113-115 | The contents lose the value, and the tree stays ordered. An absent value leaves the root as it was. |
| BstContainer.BinarySearchTree.Contains | src/binary-search-tree.ts:118-120 | True exactly when the value is stored. |
| Avl.UpdateHeight | src/avl-tree.ts:162-164 | Keeps the node's children and value, and sets its height to one more than the taller child's, an empty child counting 0. |
| Avl.Leftmost | src/avl-tree.ts:92-97 | The leftmost value is stored, and in an ordered tree no stored value is smaller. |
| Avl.RotateRightPreserves | src/avl-tree.ts:130-139 | The right rotation brings the left child up. It keeps the in-order sequence, the elements and the order, and it gives correct heights when the subtrees had them. |
| Avl.RotateLeftPreserves | src/avl-tree.ts:141-150 | The left rotation brings the right child up. It keeps the in-order sequence, the elements and the order, and it gives correct heights when the subtrees had them. |
| Avl.ElemsInorder | src/avl-tree.ts:130-160 | A value is stored exactly when it occurs in the in-order sequence. |
| Avl.SameInorderSameElems | src/avl-tree.ts:130-160 | Two trees with the same in-order sequence store the same values. |
| Avl.RotationShapesOrdered | src/avl-tree.ts:130-150 | The two shapes a single rotation converts between are ordered together or not at all. |
| Avl.RotateLeftRightPreserves | src/avl-tree.ts:152-155 | The left-right rotation brings the left child's right child up. It keeps the in-order sequence, the elements, the order and the heights. |
| Avl.RotateRightLeftPreserves | src/avl-tree.ts:157-160 | The right-left rotation brings the right child's left child up. It keeps the in-order sequence, the elements, the order and the heights. |
| Avl.FixBalanceKeepsOrder | src/avl-tree.ts:106-160 | Rebalancing as written, where the rotation it picks is defined, keeps the elements and the order. |
| Avl.FixBalancePreserves | src/avl-tree.ts:106-128 | On correct cached heights, rebalancing as written also keeps them correct and never grows the height. A node whose balance factor is -1, 0 or 1 is returned unchanged. |
| Avl.RebalanceKeepsOrder | src/avl-tree.ts:106-160 | The rebalancing step either completes, keeping the elements and the order, or throws the missing-child error with the node unchanged, because the rotation reads the absent child before assigning anything. |
| Avl.FixBalanceFixedRestores | src/avl-tree.ts:106-128 | The corrected rebalancing turns a node with balanced subtrees and a balance factor in -2..2 into a balanced tree with the same elements, the same order and correct heights. Its height drops by one unless the heavy child was itself even. |
| Avl.RotateRightBalances | src/avl-tree.ts:130-139 | A right rotation at a left-heavy node whose left child is not right-heavy gives a balanced tree. |
| Avl.RotateLeftBalances | src/avl-tree.ts:141-150 | A left rotation at a right-heavy node whose right child is not left-heavy gives a balanced tree. |
| Avl.RotateLeftRightBalances | src/avl-tree.ts:152-155 | A left-right rotation at a left-heavy node whose left child is right-heavy gives a balanced tree one level lower. |
| Avl.RotateRightLeftBalances | src/avl-tree.ts:157-160 | A right-left rotation at a right-heavy node whose right child is left-heavy gives a balanced tree one level lower. |
| Avl.InsertRotationAgrees | src/avl-tree.ts:110-126 | When the heavy child is not even, which is always so after an insertion, the rebalancing as written and the corrected one choose the same rotation. |
| Avl.RebalanceAfterInsert | src/avl-tree.ts:23-34 | After one subtree grows by an insertion, rebalancing gives a balanced tree with correct heights, no lower and at most one level taller. A tree that did grow, unless it is a single node, is left- or right-heavy at its root. |
| Avl.AddCorrect | src/avl-tree.ts:23-34 | On an ordered tree, adding throws the duplicate-value error exactly when the value is stored, and then changes nothing. The only other error is the missing-child one. Whether it completes or throws a missing child, the tree it leaves is ordered and holds the old elements plus the value. |
| Avl.AddKeepsHeights | src/avl-tree.ts:23-34 | On correct cached heights, a completed insertion keeps them correct and makes the tree at most one level taller. |
| Avl.AddBalanced | src/avl-tree.ts:23-34 | On a balanced tree with correct heights, adding never meets a missing child: it completes unless the value is a duplicate. The result is balanced with correct heights, no lower and at most one level taller. A tree that did grow, unless it is a single node, is left- or right-heavy at its root. |
| Avl.ChildReplaced | src/avl-tree.ts:24-27 | Replacing one child of an ordered node by an ordered subtree on the same side of its value keeps the node ordered, with the new child's elements. |
| Avl.RotatableWithBalancedHeavyChild | src/avl-tree.ts:110-126 | A node whose heavy side is balanced has the grandchild the chosen rotation needs. |
| Avl.RemoveCorrect | src/avl-tree.ts:37-71 | On an ordered tree, a completed removal leaves it ordered with exactly the value taken out. The only error is the missing-child one, after which the partly updated tree is still ordered and has gained no element. |
| Avl.RemoveSuccessorCorrect | src/avl-tree.ts:55-63 | The two-child case of the claim above, given that claim for removing the right subtree's minimum: the minimum is copied in after a completed removal below, and a throw from below leaves the node's value in place. |
| Avl.RemoveKeepsHeights | src/avl-tree.ts:37-71 | On correct cached heights, a completed removal keeps them correct and never grows the height. |
| Avl.RemoveOnBalanced | src/avl-tree.ts:37-71 | On a balanced tree with correct heights, no rebalancing during removal meets a missing child, so removal always completes. |
| Avl.SuccessorCopyOrdered | src/avl-tree.ts:55-63 | The node with the right subtree's minimum copied in, and that minimum removed below, is ordered and lacks exactly the old value. |
| Avl.RemoveAbsent | src/avl-tree.ts:37-71 | On a balanced tree with correct heights, removing a value that is not stored completes and returns the tree unchanged. |
| Avl.RebalanceAfterDelete | src/avl-tree.ts:37-71 | After one subtree shrinks by a removal, the corrected rebalancing gives a balanced tree with correct heights, no taller and at most one level lower. |
| Avl.OneChildRemoved | src/avl-tree.ts:49-54 | A node with one child is replaced by that child, which is already balanced and one level lower. |
| Avl.RemoveFixedSuccessorCopy | src/avl-tree.ts:55-63 | With the corrected rebalancing, the two-child case gives a balanced ordered tree without the removed value. |
| Avl.RemoveFixedBelow | src/avl-tree.ts:39-46 | With the corrected rebalancing, a node whose subtree lost the value is balanced and ordered, without the value. |
| Avl.RemoveFixed | src/avl-tree.ts:37-71 | The corrected removal gives a balanced tree with correct heights, no taller and at most one level lower. |
| Avl.RemoveFixedCorrect | src/avl-tree.ts:37-71 | The corrected removal keeps the tree ordered, balanced and with correct heights, and takes exactly the value out. |
| Avl.RemoveFixedAbsent | src/avl-tree.ts:37-71 | The corrected removal of a value that is not stored returns the tree unchanged. |
| Avl.ContainsIffMember | src/avl-tree.ts:74-82 | In an ordered tree, the search finds `v` exactly when `v` is stored. |
| Avl.SampleReachable | src/avl-tree.ts:23-34 | Eight insertions from an empty tree build the sample tree of the finding, node by node. |
| Avl.RemoveCanUnbalance | src/avl-tree.ts:111-126 | Removing the second-smallest value from the balanced sample tree as written completes with an unbalanced tree. The corrected removal gives a balanced one. |
| Avl.RemoveCanThrow | src/avl-tree.ts:119-132 | On that unbalanced tree, removing the smallest value completes, and then removing the third-smallest throws the missing-child error, leaving the partly updated tree given in the lemma. |
| AvlContainer.AvlTree.constructor | src/avl-tree.ts:169-176 | A new tree is empty, ordered, balanced and has correct heights. |
| AvlContainer.AvlTree.Add | src/avl-tree.ts:179-181 | Throws the duplicate-value error exactly when the value is stored, and then the root is as it was. The only other error is the missing-child one, after which the value is already in. Otherwise the contents grow by the value. The tree stays ordered, and a completed insertion keeps correct heights. On a balanced tree with correct heights only the duplicate can happen, and balance and heights are kept. |
| AvlContainer.AvlTree.Remove | src/avl-tree.ts:184-186 | A completed removal takes exactly the value out. The only error is the missing-child one, after which the contents are a subset of the old ones. The tree stays ordered, and a completed removal keeps correct heights. On a balanced tree with correct heights removal always completes, and an absent value leaves the root as it was. |
| AvlContainer.AvlTree.Contains | src/avl-tree.ts:189-191 | True exactly when the value is stored. |
| AvlContainer.BalancedAvlTree.constructor | src/avl-tree.ts:169-176 | A new tree with the corrected rebalancing is empty, ordered, balanced and has correct heights. |
| AvlContainer.BalancedAvlTree.Add | src/avl-tree.ts:179-181 | A duplicate is an error exactly when the value is stored, and leaves the root as it was. Otherwise the contents grow by the value. The tree stays ordered and balanced with correct heights. |
| AvlContainer.BalancedAvlTree.Remove | src/avl-tree.ts:184-186 | With the corrected rebalancing, the contents lose the value and the tree stays ordered and balanced with correct heights. An absent value leaves the root as it was. |
| AvlContainer.BalancedAvlTree.Contains | src/avl-tree.ts:189-191 | True exactly when the value is stored. |
| PriorityQueue.ParentChildInverse | src/priority-queue.ts:41-51 | Both children of a position have it as parent, and every position after the root is a child of a smaller parent. |
| PriorityQueue.RootIsMax | src/priority-queue.ts:34 | In heap order, no element has higher priority than the first. |
| PriorityQueue.SiftDownStep | src/priority-queue.ts:73-82 | Swapping a position with its higher-priority child, which outranks it, moves the one heap-order defect down to that child. |
| PriorityQueue.RootReplacedByLast | src/priority-queue.ts:34-36 | Moving the last element to the root and dropping the last slot removes exactly the old root. Nothing left outranks it, and only the root may be out of order. |
| PriorityQueue.SiftUpKeepsOrder | src/priority-queue.ts:59-62 | Swapping an element with a parent it outranks moves the one heap-order defect up to the parent. |
| PriorityQueue.SiftUpKeepsGrandparent | src/priority-queue.ts:59-62 | After that swap, the children of the parent position do not outrank its own parent. |
| PriorityQueue.SiftUpDone | src/priority-queue.ts:59 | When the rising element is at the root or does not outrank its parent, the whole heap is in order. |
| PriorityQueue.SiftDownDone | src/priority-queue.ts:73 | When neither child outranks the sinking element, the whole heap is in order. |
| PriorityQueue.SwapPermutes | src/priority-queue.ts:60 | Exchanging two positions keeps the multiset of elements. |
| PriorityQueue.Heap.constructor | src/priority-queue.ts:10-13 | A new heap is empty and in heap order under the given priority. |
| PriorityQueue.Heap.Size | src/priority-queue.ts:16-18 | The size is the number of stored elements. |
| PriorityQueue.Heap.IsBig | src/priority-queue.ts:86-98 | With both positions in range, true exactly when the first has strictly higher priority. With only the first in range, true; with only the second, false. |
| PriorityQueue.Heap.Enqueue | src/priority-queue.ts:22-25 | Keeps heap order, adds the value to the stored multiset and grows the size by one. |
| PriorityQueue.Heap.Dequeue | src/priority-queue.ts:29-39 | An empty heap is an error and is left unchanged. Otherwise it returns the old root, which no remaining element outranks. That one occurrence leaves the multiset, the size drops by one, and heap order holds. |
| PriorityQueue.Heap.ReheapificationUpward | src/priority-queue.ts:55-64 | With only the last position possibly above its parent, the loop restores heap order and keeps the elements and the length. |
| PriorityQueue.Heap.ReheapificationDownward | src/priority-queue.ts:67-84 | With only the root possibly below its children, the loop restores heap order and keeps the elements and the length. |
| ShortestPaths.WalkExtend | src/dijkstra.ts:57 | A walk followed by an edge out of its last vertex is a walk, heavier by that edge's weight. |
| ShortestPaths.CostsBelowWalks | src/dijkstra.ts:44-62 | Once every edge is relaxed with the start at 0, no walk from the start is cheaper than the cost of the vertex it ends at. |
| ShortestPaths.InitialQueueCovers | src/dijkstra.ts:33-42 | After initialisation, every vertex with a cost has a queue entry. |
| ShortestPaths.EmptyQueueFixpoint | src/dijkstra.ts:44 | When the queue is empty, every vertex with a cost has all its outgoing edges relaxed. |
| ShortestPaths.DequeueStep | src/dijkstra.ts:45 | Taking one entry out leaves every other vertex relaxed or still queued. |
| ShortestPaths.FinishStep | src/dijkstra.ts:46-61 | Once every edge out of the dequeued vertex is relaxed, every vertex is relaxed or queued again. |
| ShortestPaths.RelaxRecordsWalk | src/dijkstra.ts:51-58 | A successful relaxation records a path which, followed by the vertex, is a walk from the start weighing exactly the new cost. |
| ShortestPaths.LowerStep | src/dijkstra.ts:53-58 | Lowering one neighbour keeps every vertex either as it was or lowered through its edge from the current vertex, with a new entry at its new cost. |
| ShortestPaths.LoweringShrinksUnits | src/dijkstra.ts:49-60 | Relaxing the edges out of a vertex never raises a cost, and any relaxation that enqueues something lowers one. This bounds the search. |
| ShortestPaths.LoweringKeepsBookkeeping | src/dijkstra.ts:49-60 | Relaxing the edges out of a vertex keeps the start at 0 and the costs at most MAX_NUMBER. Every reached vertex keeps a recorded walk of exactly its cost. |
| ShortestPaths.LoweringKeepsCover | src/dijkstra.ts:49-60 | After relaxing, with the new entries enqueued, every other vertex is relaxed or still queued. |
| ShortestPaths.LoweringKeepsEdgesRelaxed | src/dijkstra.ts:53-54 | Lowering a neighbour's cost to the cost through the current vertex keeps the already relaxed edges out of it relaxed. |
| ShortestPaths.RelaxEdgesFrom | src/dijkstra.ts:49-60 | Visiting the neighbours in any order leaves every edge out of the current vertex relaxed. Each neighbour keeps its cost and path or is lowered through that edge, with a new entry. |
| ShortestPaths.EnqueueAll | src/dijkstra.ts:55 | Enqueueing the new entries one by one adds exactly them to the queue's multiset and keeps heap order. |
| ShortestPaths.OneEntryPerCost | src/dijkstra.ts:37-40 | Giving a new vertex a cost and one entry at that cost keeps exactly one entry per vertex at its cost. |
| ShortestPaths.Initialize | src/dijkstra.ts:26-42 | The start costs 0 and every other vertex with an outgoing edge costs MAX_NUMBER. Every such vertex gets an empty path, and the queue holds exactly one entry per vertex at its cost. |
| ShortestPaths.Settle | src/dijkstra.ts:44-62 | Draining the queue, in whatever order entries come out, ends with every edge between vertices with costs relaxed and the bookkeeping kept. |
| ShortestPaths.WithEdgeSets | src/dijkstra.ts:12-16 | Setting an edge adds it with the given weight, replaces an earlier weight for the same pair and leaves every other edge alone. |
| ShortestPaths.WithBiEdgeSets | src/dijkstra.ts:19-22 | Setting both directions adds both edges with the same weight, keeps every other edge and adds nothing else. |
| ShortestPaths.ExampleGraphBuilt | src/dijkstra.ts:19-22 | The bi-edges A-B 1, B-C 2 and A-C 5 added to an empty graph give the example graph. |
| ShortestPaths.WalkAtLeastSteps | src/dijkstra.ts:51 | With every weight at least 1, a walk weighs at least its number of steps. |
| ShortestPaths.ExampleWalkToB | src/dijkstra.ts:25-65 | In the example graph every walk from A to B weighs at least 1, and the only one weighing 1 is the direct edge. |
| ShortestPaths.ExampleWalkToC | src/dijkstra.ts:25-65 | In the example graph every walk from A to C weighs at least 3, and the only one weighing 3 goes through B. |
| ShortestPaths.ExampleCostBounds | src/dijkstra.ts:25-65 | A search result on the example graph from A gives costs to A, B and C, with A at 0, B at 1 and C at most 3. |
| ShortestPaths.ExampleShortestPaths | src/dijkstra.ts:25-65 | Any search result on the example graph from A has costs A = 0, B = 1 and C = 3, with paths [], [A] and [A, B]. |
| ShortestPaths.Dijkstra.constructor | src/dijkstra.ts:7-9 | A new graph has no edges. |
| ShortestPaths.Dijkstra.AddEdge | src/dijkstra.ts:12-16 | The adjacency map becomes the old one with the edge set to the weight. |
| ShortestPaths.Dijkstra.AddBiEdge | src/dijkstra.ts:19-22 | The adjacency map becomes the old one with the edge set in both directions. |
| ShortestPaths.Dijkstra.FindShortestPath | src/dijkstra.ts:25-65 | Every edge between vertices with costs is relaxed, and the start costs 0. Each reached vertex has a recorded path which, followed by the vertex, is a walk from the start of exactly its cost. Every unreached vertex is at MAX_NUMBER with an empty path. |
| UnionFind.AboveShrinks | src/union-find.ts:22-27 | Moving to an element of higher rank leaves strictly fewer elements above it, so the search for a root ends. |
| UnionFind.Root | src/union-find.ts:22-27 | Following parents from a registered element reaches an element that is its own parent. That root is the element itself or has strictly higher rank. |
| UnionFind.RootIsSelf | src/union-find.ts:23 | An element is its own root exactly when it is its own parent. |
| UnionFind.Compress | src/union-find.ts:22-27 | Path compression keeps the set of registered elements. |
| UnionFind.ShortcutIsForest | src/union-find.ts:24 | Pointing an element straight at its root keeps ranks increasing along parent links. |
| UnionFind.ShortcutKeepsRoot | src/union-find.ts:24 | Pointing an element straight at its root changes no element's root. |
| UnionFind.CompressKeepsRoots | src/union-find.ts:22-27 | Path compression keeps ranks increasing along parent links and changes no element's root. |
| UnionFind.Path | src/union-find.ts:22-27 | The elements visited on the way to the root include the start and are all registered. |
| UnionFind.CompressShape | src/union-find.ts:23-24 | After compression, every visited element points at the root and every other element keeps its parent. |
| UnionFind.CompressKeepsCounted | src/union-find.ts:22-31 | Path compression moves no element to another set, so every root's size still counts its set. |
| UnionFind.FindBothKeepsRoots | src/union-find.ts:30-31 | Two finds in a row change no element's root and leave both roots their own parents. |
| UnionFind.AddIsForest | src/union-find.ts:17-19 | Registering a new element as its own parent at rank 0 keeps ranks increasing along parent links. |
| UnionFind.AddKeepsRoot | src/union-find.ts:17-19 | Registering a new element changes no other element's root. |
| UnionFind.AddKeepsMembers | src/union-find.ts:17-19 | Registering a new element makes it a set of its own and changes no other set. |
| UnionFind.AddKeepsRoots | src/union-find.ts:17-19 | A new element is its own root, and every other element keeps its root. |
| UnionFind.AddKeepsCounted | src/union-find.ts:17-19 | With size 1 for the new element, every root's size still counts its set. |
| UnionFind.LinkKeepsForest | src/union-find.ts:33-46 | Attaching one root under the other keeps ranks increasing along parent links, and no rank decreases. |
| UnionFind.AttachKeepsRoot | src/union-find.ts:34 | After one root is attached under another, the elements of the attached root's set have the other root and every other element keeps its root. |
| UnionFind.AttachKeepsMembers | src/union-find.ts:34 | After the attachment the surviving root's set is the union of both sets, the attached root's set is empty, and every other set is unchanged. |
| UnionFind.AttachKeepsCounted | src/union-find.ts:34-36 | Adding the attached root's size to the survivor and zeroing its own keeps every root's size counting its set. |
| UnionFind.AttachMerges | src/union-find.ts:34 | After the attachment every element of the attached root's set has the surviving root, and every other element keeps its root. |
| UnionFind.LinkMerges | src/union-find.ts:33-46 | Linking two different roots by rank merges exactly their two sets under the root the source picks: the higher-ranked one, or the second on a tie. |
| UnionFind.RootIgnoresRank | src/union-find.ts:22-31 | The root `find` reaches follows the parent links only: the ranks make no difference to it. |
| UnionFind.SelfLinkMerges | src/union-find.ts:42-45 | Linking a root with itself only raises its rank, so every element keeps its root and every set is kept. |
| UnionFind.LinkKeepsCounted | src/union-find.ts:33-46 | Linking two different roots keeps every root's size counting its set. |
| UnionFind.SelfLinkLosesCount | src/union-find.ts:41-46 | Linking a root with itself keeps the parents, zeroes its size and breaks the counts. |
| UnionFind.SameRootsMembers | src/union-find.ts:22-27 | Two forests that give every element the same root have the same sets. |
| UnionFind.SameRootsCounted | src/union-find.ts:22-27 | Two forests that give every element the same root agree on whether the sizes are right. |
| UnionFind.CompressBoth | src/union-find.ts:30-31 | The parents after both finds keep every element's root and leave both roots their own parents. |
| UnionFind.SameRootsMerged | src/union-find.ts:30-31 | Finds alone merge nothing: a set merged with itself is unchanged. |
| UnionFind.MergedAfterSameRoots | src/union-find.ts:30-46 | A merge stated over the parents after the finds also holds over the parents before them. |
| UnionFind.UnionMerges | src/union-find.ts:29-47 | Union keeps ranks increasing along parent links and merges exactly the two sets of its arguments. A set with itself is unchanged. |
| UnionFind.UnionKeepsCounted | src/union-find.ts:29-47 | A union of two different sets keeps every root's size counting its set. |
| UnionFind.UnionSameSetLosesCount | src/union-find.ts:41-46 | A union of two elements of the same set, as written, sets that set's size to 0, which no longer counts it. |
| UnionFind.DisjointSet.constructor | src/union-find.ts:6-10 | A new structure has no elements. |
| UnionFind.DisjointSet.MakeSet | src/union-find.ts:13-20 | A registered element changes nothing. A new one becomes its own parent at rank 0 with size 1 and is its own root. Every other root is kept, and the sizes stay right. |
| UnionFind.DisjointSet.Find | src/union-find.ts:22-27 | Returns the element's root and changes only parents. Every element visited on the way now points at the root and every other keeps its parent. No element's root changes, and the sizes stay right. |
| UnionFind.DisjointSet.Union | src/union-find.ts:29-47 | The new state is both finds followed by the rank-based link of the two roots. Ranks never decrease. Every union merges exactly the two sets, and a set with itself is unchanged. For two different sets the sizes stay right. |
| UnionFind.DisjointSet.UnionFixed | src/union-find.ts:29-47 | As Union, except that elements already in one set leave ranks and sizes alone. Every union merges exactly the two sets and keeps the sizes right. |
| UnionFind.DisjointSet.Link | src/union-find.ts:33-46 | The three branches: the lower-ranked root goes under the higher-ranked one, or the first under the second on a tie, which gains a rank. The survivor's size gains the other's, and the other's becomes 0. |
| UnionFind.DisjointSet.SizeOf | src/union-find.ts:49-51 | Returns the size stored at the element's root after compressing its path. With the sizes right, that is the number of elements in its set. |
| UnionFind.ExampleMakeSets | src/union-find.ts:13-20 | Registering 1 to 5 gives five singleton sets of size 1. |
| UnionFind.ExampleFirstFinds | src/union-find.ts:22-31 | In the singletons, 1 and 2 are their own roots and the finds change nothing. |
| UnionFind.ExampleFirstLink | src/union-find.ts:41-46 | Union of 1 and 2 puts 1 under 2, raises 2's rank to 1 and gives 2 size 2. |
| UnionFind.ExampleSecondFinds | src/union-find.ts:22-31 | Then 3 and 4 are their own roots and the finds change nothing. |
| UnionFind.ExampleSecondLink | src/union-find.ts:41-46 | Union of 3 and 4 puts 3 under 4, raises 4's rank to 1 and gives 4 size 2. |
| UnionFind.ExampleThirdFinds | src/union-find.ts:22-31 | Then 2 and 3 have roots 2 and 4, and the finds change nothing. |
| UnionFind.ExampleThirdLink | src/union-find.ts:41-46 | Union of 2 and 3 puts 2 under 4, raises 4's rank to 2 and gives 4 size 4. |
| UnionFind.ExampleQueries | src/union-find.ts:49-51 | Afterwards 1 and 4 share root 4, whose size is 4, and 5 is alone with size 1. |

## Left out

- Comparators. The trees order `int` values with `<`, and the priority queue's comparator is a priority function (`compare(a, b) > 0` exactly when `priority(a) > priority(b)`). An inconsistent comparator is not modelled.
- Numbers. JavaScript floating-point numbers are unbounded integers here. Edge weights are `nat`, and `MAX_NUMBER` is the constant `floor(MAX_SAFE_INTEGER / 2)`. Rounding and overflow near that limit are not modelled, and neither are negative weights, for which the search need not stop.
- Exceptions. A thrown error is an `Err` result. A duplicate value and an empty queue are thrown before anything is assigned, so the state is left as it was. The AVL missing-child TypeError comes after the nodes below the throwing one were updated in place. The model returns that partly updated tree with the error, and the `AvlTree` object keeps it as its root.
- The trees' unused `rightmostChild` helpers (src/binary-search-tree.ts:89-94, src/avl-tree.ts:99-104) are never called and are not modelled.
- Avl.RemoveCorrect: after a missing-child error it states that the tree stays ordered and gains no element, not which element is gone.
- AvlContainer.AvlTree.Remove: after a missing-child error it states only that the contents are a subset of the old ones, as Avl.RemoveCorrect does.
- The source's own error for the TypeError, its message and its stack are not modelled. Only the `MissingChild` case and the tree left behind are.
- PriorityQueue.Heap.IsBig: excludes two out-of-range positions, which no caller passes. The source would then compare two `undefined` values.
- PriorityQueue.Heap.ReheapificationDownward: the choice of the right child on a tie is in the body, not in the contract.
- The priority queue's array is a sequence that the methods reassign. Its push, pop and element swaps are whole-sequence updates.
- Map iteration order. JavaScript iterates maps in insertion order. Dijkstra's model leaves the order of the initial vertex keys and of a vertex's neighbours arbitrary, and proves its results for every order. The next vertex to settle comes from the heap's `dequeue`, as in the source.
- The new entries of one relaxation round are collected and then enqueued in order. The source enqueues each one as it goes. Nothing in the round reads the queue, so the resulting queue is the same.
- `findShortestPath` is split into an initialisation and a draining loop. Its correctness does not rely on the queue's heap order, only on what is in it.
- ShortestPaths.Dijkstra.FindShortestPath: states that the costs are a relaxation fixpoint, which no walk undercuts, and that the recorded paths are walks of exactly those costs. It does not state equality with the true distance for vertices that only receive edges: those get no cost, as in the source.
- The Dijkstra example is proved for every result meeting FindShortestPath's contract, rather than for one run of the class.
- The union-find example is proved on the specification functions that the `DisjointSet` methods are proved equal to, rather than by running the methods.
- UnionFind.DisjointSet.Find, Union and SizeOf: require a registered element. On an element never passed to `makeSet`, the source's `find` stores an `undefined` parent for it and returns `undefined`.
- UnionFind.DisjointSet.Union: states that the sizes stay right only for two different sets, because a union within one set breaks them (see "## Findings"). UnionFixed keeps them right in every case.

## Findings

| source | as written | input that shows it | evidently intended | confidence | as-written member | corrected member |
|---|---|---|---|---|---|---|
| src/avl-tree.ts:111-126 | `fixBalance` takes a single rotation only when the heavy child's balance factor is exactly 1 or -1. A heavy child with balance factor 0 gets a double rotation. | Add 3, 1, 6, 2, 5, 8, 4, 7 to an empty tree, then remove 2. The root becomes 5 with subtrees of heights 2 and 3. The right subtree's root 6 has an empty left child and a right child of height 2, so its balance factor is -2. | The single rotation for a heavy child with balance factor 0 as well (`>= 0` / `<= 0`), as in the standard deletion rebalancing, which keeps every balance factor in -1..1. | high; not executed | Avl.RemoveCanUnbalance | Avl.RemoveFixedCorrect |
| src/avl-tree.ts:119-132 | When a node is right-heavy by 2 and its right child has balance factor -2, `fixBalance` picks `rotateRightLeft`. Its first step, `rotateRight` on that child, reads the child's absent left child and throws a TypeError. The nodes below were already updated, so the tree is left part-way. This needs an already unbalanced tree, which the row above produces. | Add 3, 1, 6, 2, 5, 8, 4, 7 to an empty tree, then remove 2, 1 and 4. At the last removal the root 5 has subtrees of heights 1 and 3. Its right child 6 has no left child and a right subtree of height 2. | The corrected rebalancing keeps every node balanced, so every rotation finds the child it needs and removal always completes. | high; not executed | Avl.RemoveCanThrow | Avl.RemoveFixedCorrect |
| src/union-find.ts:41-46 | `union` runs the equal-rank branch even when both elements already share a root. It makes the root its own parent again, raises its rank and sets its size to 0. | `makeSet(1)`, `makeSet(2)`, `union(1, 2)`, `union(1, 2)`, then `sizeOf(1)` gives 0 instead of 2. | Return early when both roots are the same, leaving ranks and sizes alone. | high; not executed | UnionFind.UnionSameSetLosesCount | UnionFind.DisjointSet.UnionFixed |
