# Heap sort, quicksort and the binary-tree node store, in Dafny

This project models three small C++ programs from an algorithms repository:

- **`src/heap_sort.cpp`**: the sift-down routine `makeHeap` and the two
  loops of its driver. The first loop builds a max-heap bottom-up. The
  second swaps the root to the end of a shrinking heap prefix.
- **`src/quick_sort.cpp`**: `swap`, the Lomuto `partition` (the pivot is
  the last cell of the half-open range) and the recursive `quickSort`.
- **`src/red_black_tree.cpp`**: the binary-tree node store behind a
  red-black tree. Nodes own their children and keep a back-link to their
  parent. Cursors denote either a node or an empty place where a node can
  be attached. The `RedBlackTree` class on top is a skeleton: `size` and
  `root` forward to the store, and `insert` has an empty body.

Each module follows the form of its source:

- **Heap sort** works in place on a vector. `HeapSort.MakeHeap` is a
  recursive method on an `array<int>`. It is proved equal to the function
  `HeapSort.SiftDown` on sequences. The lemmas about `SiftDown` carry the
  heap reasoning: it only permutes the cells, it leaves cells outside
  `[index, limit)` alone, and it restores the heap order. The driver's
  loops are `BuildHeap` and `SortHeap`; `HeapSort` calls both.
- **Quicksort** also works in place. `QuickSort.Partition` and
  `QuickSort.QuickSort` are methods on an `array<int>`. Their
  postconditions say the whole promise:
  - the pivot lands at `lo` plus the number of cells at most the pivot;
  - everything on its left is at most it and everything on its right is
    above it;
  - the range is only rearranged, and nothing outside it moves;
  - after `QuickSort` the range is ascending.
- **The tree** is a heap structure. `Node` and `BinaryTree` are classes
  with mutable fields. `BinaryTree` keeps two ghost fields:
  - `Nodes`, the set of nodes it owns;
  - `Depth`, each node's distance from the root, which makes the parent
    links lead back to the root.

  `Cursor` is a datatype holding a node reference and a `Position`, as in
  the source. `createNode` is `BinaryTree.CreateNode`. It dispatches to
  one helper per `Position` case: `AttachRoot`, `AttachLeft` and
  `AttachRight`. A two-state lemma re-establishes the links of every
  owned node after a node is attached.

Integers are unbounded. All indices are natural numbers, and the vectors
hold `int` values compared with `<=` and `>`, exactly as in the source.

## Model

| member | source | states |
|---|---|---|
| SortedSeqs.Swapped | src/quick_sort.cpp:7-11 | exchanging two cells puts each value at the other index, leaves every other cell alone and keeps the multiset of values |
| HeapSort.Largest | src/heap_sort.cpp:8-17 | the chosen index is `index` itself or one of its children inside `limit`. It is `index` exactly when no child is larger, and otherwise the value there dominates both children. Ties keep `index`, and a tie between the children keeps the left one (strict `>`) |
| HeapSort.SiftDown | src/heap_sort.cpp:7-27 | the vector `makeHeap` leaves behind, of the same length. Its properties are the lemmas below |
| HeapSort.SiftDownPermutes | src/heap_sort.cpp:7-27 | sift-down only rearranges the values |
| HeapSort.SiftDownFrame | src/heap_sort.cpp:7-27 | sift-down never touches a cell before `index` or at/after `limit` |
| HeapSort.SiftDownRestoresHeap | src/heap_sort.cpp:7-27 | if the heap order holds below `index` everywhere except at `index`'s own children, it holds from `index` on after sift-down |
| HeapSort.HeapRootIsMax | src/heap_sort.cpp:41-44 | in a max-heap prefix the root is at least every element, which is why the sort loop moves it to the end |
| HeapSort.LeavesAreHeaps | src/heap_sort.cpp:35 | cells from `size/2` on have no children, so the build loop may start at `size/2 - 1` |
| HeapSort.SiftDownSplits | src/heap_sort.cpp:45 | sifting the new root down `[0, i)` keeps every cell from `i` on and only rearranges the prefix |
| HeapSort.SwapRootToEnd | src/heap_sort.cpp:42-44 | swapping the heap root with position `i` puts the prefix maximum at `i`. It leaves `[0, i)` a heap except at its root, and the suffix becomes the old root followed by the old suffix |
| HeapSort.SortStep | src/heap_sort.cpp:41-47 | one round of the sort loop shrinks the heap prefix by one, keeps it a heap, and grows the sorted suffix, whose first element bounds the prefix |
| HeapSort.SortLoopDone | src/heap_sort.cpp:41-47 | when the loop stops (heap prefix of one cell, or an empty vector) the whole vector is sorted |
| HeapSort.MakeHeap | src/heap_sort.cpp:7-27 | the vector afterwards is `SiftDown` of the vector before. It is a permutation, and cells outside `[index, limit)` are unchanged |
| HeapSort.BuildHeap | src/heap_sort.cpp:35-38 | after the build loop the vector is a max-heap holding the same values |
| HeapSort.SortHeap | src/heap_sort.cpp:41-47 | starting from a max-heap, the sort loop leaves the vector sorted and a permutation of what it was |
| HeapSort.HeapSort | src/heap_sort.cpp:30-49 | the two loops together sort any vector, keeping its multiset of values |
| QuickSort.CountAtMost | src/quick_sort.cpp:17-22 | the number of cells in `[lo, up)` at most `x` is at most `up - lo`. It is the amount by which the scan advances `i` |
| QuickSort.CountAtMostZero | src/quick_sort.cpp:17-22 | the count is zero exactly when every cell of the range is above `x`, in both directions |
| QuickSort.Swap | src/quick_sort.cpp:7-11 | the array afterwards is the old one with the two cells exchanged |
| QuickSort.SwapRearranges | src/quick_sort.cpp:19 | an exchange inside `[lo, up)` only rearranges that range |
| QuickSort.ScanStart | src/quick_sort.cpp:14-17 | before the loop, nothing is scanned and the state invariant holds |
| QuickSort.ScanStep | src/quick_sort.cpp:17-22 | one iteration keeps the invariant. Cells `[lo, i)` are at most the pivot, `[i, j)` above it, unscanned cells are untouched, and `i - lo` counts the scanned cells at most the pivot. `i` advances exactly when `a[j] <= pivot` |
| QuickSort.PartitionScan | src/quick_sort.cpp:15-22 | after the loop the whole range except the pivot cell is scanned, with the invariant above |
| QuickSort.PivotBetween | src/quick_sort.cpp:23 | the final exchange puts the pivot between the cells at most it and the cells above it |
| QuickSort.PlacePivot | src/quick_sort.cpp:23-24 | the scanned state plus the final exchange is a partition at the returned index |
| QuickSort.Partition | src/quick_sort.cpp:13-25 | the result is `lo` plus the count of cells of `[lo, up - 1)` at most the pivot. The pivot sits there, with everything before it at most it and everything after it above it. The range is only rearranged, and cells outside `[lo, up)` are unchanged |
| QuickSort.SortedHalves | src/quick_sort.cpp:32-34 | sorting the two sides of a partition in place gives an ascending range |
| QuickSort.SortBothSides | src/quick_sort.cpp:32-34 | partition followed by the two recursive sorts sorts `[lo, up)` and only rearranges it |
| QuickSort.QuickSort | src/quick_sort.cpp:27-35 | `[lo, up)` ends ascending, holds the same values, and nothing outside it moves. Ranges shorter than 2 are left as they are. The call terminates even when the right-hand recursion re-enters the same range |
| QuickSort.QuickSortAll | src/quick_sort.cpp:40 | sorting from 0 to the size sorts the whole vector, as a permutation |
| RedBlackTree.Node.constructor | src/red_black_tree.cpp:9-14 | a new node has no parent and no children |
| RedBlackTree.NewCursor | src/red_black_tree.cpp:22-37 | a cursor can be built only when its asserts hold: a side slot needs an existing node whose child on that side is absent |
| RedBlackTree.Cursor.IsNode | src/red_black_tree.cpp:39-41 | a node cursor has a node and meets the constructor's asserts. A side slot is never a node |
| RedBlackTree.Cursor.Parent | src/red_black_tree.cpp:43-46 | from a node cursor, a self cursor at the parent link. It is a node exactly when the node has a parent |
| RedBlackTree.Cursor.Left | src/red_black_tree.cpp:48-54 | the left child as a node cursor when there is one, otherwise the empty left slot of this node. It is a node exactly when the child exists |
| RedBlackTree.Cursor.Right | src/red_black_tree.cpp:56-62 | the right child as a node cursor when there is one, otherwise the empty right slot. It is a node exactly when the child exists |
| RedBlackTree.Cursor.Value | src/red_black_tree.cpp:64-67 | only a node cursor has a value: the value stored in that node |
| RedBlackTree.BinaryTree.WriteValue | src/red_black_tree.cpp:64-67 | writing through the returned reference changes that node's value and nothing else. The tree stays well formed |
| RedBlackTree.BinaryTree.constructor | src/red_black_tree.cpp:105-107 | a new tree owns no nodes and has no root |
| RedBlackTree.BinaryTree.Size | src/red_black_tree.cpp:76-78 | the counter equals the number of owned nodes. It is zero exactly when there is no root |
| RedBlackTree.BinaryTree.Root | src/red_black_tree.cpp:80-82 | a self cursor that is a node exactly when the tree is non-empty. The root has no parent, and an empty tree's root cursor is accepted by `createNode` |
| RedBlackTree.BinaryTree.Follow | src/red_black_tree.cpp:9-14 | following child links from the root only reaches owned nodes |
| RedBlackTree.BinaryTree.PathTo | src/red_black_tree.cpp:9-14 | every owned node is reached from the root by some path of child links |
| RedBlackTree.BinaryTree.ChildThenParent | src/red_black_tree.cpp:43-62 | `left()` or `right()`, then `parent()`, returns to the same node. A side without a child gives a slot `createNode` accepts |
| RedBlackTree.BinaryTree.ParentThenChild | src/red_black_tree.cpp:43-62 | `parent()` gives a node exactly when the node is not the root. Going back down on one of the two sides returns to the node |
| RedBlackTree.BinaryTree.CreateNode | src/red_black_tree.cpp:84-103 | attaches one fresh childless node and counts it, so the count stays equal to the number of owned nodes. At `self` of an empty tree it becomes the root. At a side slot it becomes that child and links back to the slot's node, whose other child is unchanged. All other nodes are unchanged |
| RedBlackTree.BinaryTree.AttachRoot | src/red_black_tree.cpp:88-91 | the `self` case: the fresh node becomes the only node and the root |
| RedBlackTree.BinaryTree.AttachLeft | src/red_black_tree.cpp:92-96 | the `left` case: the fresh node becomes the left child of the slot's node and links back to it |
| RedBlackTree.BinaryTree.AttachRight | src/red_black_tree.cpp:97-101 | the `right` case: the fresh node becomes the right child of the slot's node and links back to it |
| RedBlackTree.BinaryTree.ChildAttached | src/red_black_tree.cpp:94-100 | hanging a fresh childless node in a slot that was empty keeps every owned node correctly linked |
| RedBlackTree.BinaryTree.CreateNodeAsWritten | src/red_black_tree.cpp:84-103 | `createNode` with only the source's asserts: it counts one more node and puts a fresh node in the slot, whether or not the slot was still empty |
| RedBlackTree.StaleSlotCursor | src/red_black_tree.cpp:84-103 | two `createNode` calls through one copy of the root's left slot leave a count of 3 and unlink the first child |
| RedBlackTree.RedBlackTree.constructor | src/red_black_tree.cpp:130 | a new red-black tree is empty |
| RedBlackTree.RedBlackTree.Size | src/red_black_tree.cpp:119-121 | the size of the underlying store |
| RedBlackTree.RedBlackTree.Root | src/red_black_tree.cpp:123-125 | the store's root cursor. It is a node exactly when the tree is non-empty |
| RedBlackTree.RedBlackTree.Insert | src/red_black_tree.cpp:127 | `insert` changes nothing: size and root stay as they were |
| RedBlackTree.InsertThenReadRoot | src/red_black_tree.cpp:134-139 | after `insert(100)` the tree is still empty, so the root cursor is not a node and the `value()` read at line 137 has its precondition violated |

## Left out

- `src/vectors.hpp` (`randomVector` and `printVector`) and all `std::cout` output are left out, because they are I/O and randomness. The sorting methods take the vector as a parameter.
- `size_t` arithmetic is modelled with unbounded naturals. The wrap-arounds the sources could meet do not happen for the calls the programs make:
  - `index * 2 + 1` overflowing;
  - `up - 1` with `up == 0`;
  - `int i = a.size() - 1` on an empty vector, which becomes `-1`.
- QuickSort.QuickSort: requires `lo <= up`, which every caller in the source guarantees. With `up < lo` the `size_t` test `up - lo < 2` would wrap around.
- `std::unique_ptr` ownership and deallocation are left out. Dafny objects are garbage-collected, so the ghost set `Nodes` stands for what the tree owns. A node that `createNode` replaces (see Findings) is destroyed in C++ but only unlinked here.
- The value of a fresh node is an unspecified value of `T`, not C++ value-initialisation. No contract depends on it.
- The source has two compile defects, and the model follows the evident intent of each:
  - `assert(isNode)` in `parent`, `left` and `right` is taken as `assert(isNode())`, a precondition;
  - `node->parent.get()` and `node.get()` are taken as the raw pointers they already are.
- `main`'s read `tree.root().value().value` (line 137) compiles but fails at run time: the tree is still empty, so the `assert(isNode())` in `value()` (line 65) does not hold. `InsertThenReadRoot` shows this as a violated precondition.
- The default `Cursor()` constructor (line 21) is not a separate member. It is the empty-root cursor `Cursor(null, Self)`.
- RedBlackTree.BinaryTree.CreateNode: besides refusing a slot that is no longer empty, it requires a side slot's node to belong to this tree. The source also accepts a slot at another tree's node; the node is then attached in that other tree while this tree's count goes up, which breaks the count of both trees. `CreateNodeAsWritten` keeps the source's weaker asserts.
- `RedBlackTree.RedBlackTree.Insert`: the source body is empty, so there is no colouring, rotation or ordering to model. The colour field of `ColorValue` is never read.

## Findings

| source | as written | input that shows it | evidently intended | confidence | as-written member | corrected member |
|---|---|---|---|---|---|---|
| src/red_black_tree.cpp:84-101 | `createNode` asserts only that the cursor is not a node and that a side slot's node is non-null. It does not check that the slot is still empty, so it overwrites (and destroys) an existing child and still increments `numOfNodes` | on an empty tree, `createNode(root())`, then `auto c = root().left(); createNode(c); createNode(c);`. `size()` reports 3 while only 2 nodes hang from the root (`StaleSlotCursor`) | refuse a slot that is no longer empty, or whose node belongs to another tree, so `size()` always equals the number of nodes reachable from the root | not executed; high | RedBlackTree.BinaryTree.CreateNodeAsWritten | RedBlackTree.BinaryTree.CreateNode |
