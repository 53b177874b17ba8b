# Verified model of a small Rust algorithms crate

This project models the core of a small Rust crate of textbook algorithms (the
`algorithm` crate) in Dafny and proves properties of the model. It covers:

- **`llrb_tree`**, a left-leaning red-black tree. It has insertion with
  rotations and colour flips, and an in-order export. Module `Llrb`.
- **`binary_search_tree`**, an unbalanced search tree. It has insertion,
  lookup by descent, deletion of the minimum, deletion by successor
  replacement, and an in-order export. Module `Bst`.
- **`binary_heap`**, a max-heap in a vector whose slot 0 is an unused
  sentinel. It has `push` with `bubble`, `remove_max` with `sink`, and the
  heap-sort test. Module `Heap`.
- **`merge_sort`**, a bottom-up merge sort. It merges runs of doubling length
  through an auxiliary buffer. Module `MergeSorting`.
- **`red_black_tree`**, the standalone rotation primitives. The crate root
  does not declare this file, so it is dead code, a copy of the LLRB
  rotations. Module `RedBlack`.
- **`is_sorted`** from the crate root, the check every test uses. Module
  `Lib`.

### How the model is written

The trees are pure values. `Option<Box<Node>>` becomes a datatype `Tree` with
`Nil` for an absent link, and each recursive Rust function becomes a Dafny
function on it.

Each tree is described through abstract views:

- `Keys`, the set of keys;
- `Entries`, the in-order (key, value) pairs;
- `Map`, the key/value map;
- `Size`, the node count.

Search order is `Bst` in `Llrb` and `Ordered` in `Bst`. The black-link
invariants of the LLRB are `LlrbShape`:

- no red right link;
- no two reds in a row below the root;
- equal black height on every path.

The tree wrappers `LLRBTree` and `BinarySearchTree` own a root that the source
reassigns, so they are classes with a `root` field. The heap owns a vector it
changes in place, so it is a class whose `seq<int>` field is updated element
by element. The loops of `get`, `bubble`, `sink`, `merge`, `merge_sort` and
`is_sorted` are `while`/`for` loops. Merge sort works in place on an `array`.

A few facts from the source shape the model:

- **Equal keys on insert.** Both trees overwrite the value of an equal key,
  so a tree holds one node per distinct key and the tree-sort tests export
  the distinct elements. This follows the code.
- **The LLRB root is never recoloured black.** Two insertions already leave a
  red root over a red left child (`Llrb.RootStaysRed`). The shape invariant
  therefore leaves the root's colour free. Black balance holds throughout.
- **Merge-sort stability.** The merge takes the left element when two keys
  are equal, so the whole sort is stable: for every key, the elements with
  that key end in the order they started in (`MergeSorting.MergeSort`).
  Stability is stated on elements that carry a payload next to their key.

## Model

| member | source | states |
|---|---|---|
| Lib.IsSorted | src/lib.rs:6-19 | on a non-empty slice the scan answers true exactly when every element is at most each later one, equivalently when no element is smaller than its predecessor |
| Lib.AdjacentSorted | src/lib.rs:11-17 | adjacent pairs in order imply the whole sequence is in order, which is why the single-cursor scan suffices |
| Llrb.IsRed | src/llrb_tree.rs:41-46 | an absent link is not red; a node is red exactly when its colour is red |
| Llrb.RotateLeft | src/llrb_tree.rs:48-56 | on a node with a red right child: the in-order entries are unchanged, the new root takes the old root's colour and its left child is red |
| Llrb.RotateLeftKeeps | src/llrb_tree.rs:48-56 | a left rotation keeps the key set and size; on a search tree it keeps search order and the key/value map |
| Llrb.RotateLeftBst | src/llrb_tree.rs:48-56 | a left rotation of a search tree is a search tree |
| Llrb.RotateLeftMap | src/llrb_tree.rs:48-56 | with the moved keys distinct, a left rotation keeps the key/value map |
| Llrb.RotateRight | src/llrb_tree.rs:58-66 | mirror of RotateLeft for a red left child: entries unchanged, colour inherited, new right child red |
| Llrb.RotateRightKeeps | src/llrb_tree.rs:58-66 | a right rotation keeps keys and size, and on a search tree keeps order and map |
| Llrb.RotateRightBst | src/llrb_tree.rs:58-66 | a right rotation of a search tree is a search tree |
| Llrb.RotateRightMap | src/llrb_tree.rs:58-66 | with the moved keys distinct, a right rotation keeps the key/value map |
| Llrb.RotateRightUndoesLeft | src/llrb_tree.rs:190-191 | rotating left and then right gives back the original node, colours included (the rotation test) |
| Llrb.RotateLeftUndoesRight | src/llrb_tree.rs:58-66 | rotating right and then left gives back the original node |
| Llrb.FlipColors | src/llrb_tree.rs:68-76 | the node becomes red and each present child black; subtrees below, entries, keys, size, map and search order are all unchanged |
| Llrb.Paint | src/llrb_tree.rs:68-76 | recolouring one node changes none of keys, entries, map or search order |
| Llrb.PaintKeepsShape | src/llrb_tree.rs:68-76 | recolouring the root keeps the LLRB shape; its black height follows the new colour |
| Llrb.Repair | src/llrb_tree.rs:92-100 | the rotate-left / rotate-right / flip sequence after an insertion yields a node with the same in-order entries |
| Llrb.RepairIdempotent | src/llrb_tree.rs:92-100 | on a node that already has the LLRB shape none of the three rules fires: the repair returns it unchanged, structure and colours |
| Llrb.RepairKeeps | src/llrb_tree.rs:92-100 | the repair keeps keys and size, and on a search tree keeps order and map |
| Llrb.RepairLeansLeft | src/llrb_tree.rs:92-94 | a lone red right link is rotated left, giving a valid shape of the same black height and root colour |
| Llrb.RepairSplitsLeftPair | src/llrb_tree.rs:95-100 | two reds in a row on the left are rotated right and split by a flip into a red node over two black children |
| Llrb.RepairFlipsOnly | src/llrb_tree.rs:98-100 | two red children are split by a colour flip alone |
| Llrb.RepairKeepsShape | src/llrb_tree.rs:92-100 | after inserting below a node whose subtrees are valid, the repair restores the LLRB shape; below a black node it keeps the black height and leaves no red pair at the top; below a red node whose left child carries no red pair and whose two children are not both red, it keeps the black height and returns a red node. Otherwise, below a red node, the split can add one black link |
| Llrb.InsertNode | src/llrb_tree.rs:82-102 | insertion always returns a node; the key set gains exactly the inserted key; into an empty link it creates a red leaf |
| Llrb.InsertNodeMap | src/llrb_tree.rs:82-102 | insertion into a search tree keeps search order and maps the key to the new value, other keys as before |
| Llrb.LeftReplaced | src/llrb_tree.rs:88 | a left subtree that gained a smaller key keeps the node ordered and updates the node's map at that key |
| Llrb.RightReplaced | src/llrb_tree.rs:89 | the mirror of LeftReplaced for a larger key |
| Llrb.InsertKeepsShape | src/llrb_tree.rs:82-102 | insertion keeps the LLRB shape (no red right links, no two reds in a row, perfect black balance). Into a black node or absent link it also keeps the black height and leaves no red pair at the top; into a red node whose children are both black, it keeps the black height and returns a red node. Into a red node over a red left child, such as the red root `Llrb.RootStaysRed` builds, the split can add one black link |
| Llrb.SizeIsKeyCount | src/llrb_tree.rs:87-90 | a search tree holds one node per distinct key |
| Llrb.InsertCount | src/llrb_tree.rs:87-90 | inserting an absent key adds one node; a present key is overwritten, adding none |
| Llrb.IterSort | src/llrb_tree.rs:105-115 | the export lists the values of the in-order entries, one per node |
| Llrb.EntriesKeys | src/llrb_tree.rs:105-115 | the keys met in order are exactly the tree's keys |
| Llrb.EntriesIncreasing | src/llrb_tree.rs:105-115 | in a search tree the in-order keys strictly increase |
| Llrb.EntriesMapped | src/llrb_tree.rs:105-115 | every in-order entry of a search tree is what its map holds at that key |
| Llrb.ToVecSorted | src/llrb_tree.rs:129-134 | with values equal to keys, the export of a search tree is strictly increasing, hence sorted |
| Llrb.InsertAllValid | src/llrb_tree.rs:143-151 | a run of insertions with value = key keeps search order, the LLRB shape and values equal to keys |
| Llrb.InsertAll | src/llrb_tree.rs:146-148 | the test's insertion loop (each element under itself, in list order) leaves exactly the old keys and the inserted ones |
| Llrb.TreeSortSorted | src/llrb_tree.rs:143-151 | the tree-sort test: inserting a non-empty list and exporting gives a sorted list |
| Llrb.RootStaysRed | src/llrb_tree.rs:82-102 | inserting 1 then 5 leaves a red root over a red left child: the root is never recoloured |
| Llrb.LLRBTree.constructor | src/llrb_tree.rs:121-123 | a new tree is empty and valid |
| Llrb.LLRBTree.Insert | src/llrb_tree.rs:125-127 | insertion keeps the tree valid, updates the map at the key and grows the size only for an absent key |
| Llrb.LLRBTree.ToVec | src/llrb_tree.rs:129-134 | the values in in-order key order, one per node, empty for an empty tree |
| Bst.LookupStep | src/binary_search_tree.rs:121-127 | at a node of a search tree the key is found there, or is answered by exactly the subtree the comparison picks |
| Bst.SizeIsKeyCount | src/binary_search_tree.rs:36-39 | a search tree holds one node per distinct key |
| Bst.InsertNode | src/binary_search_tree.rs:27-45 | insertion returns a node whose key set gains exactly the key; an empty link becomes a leaf; an equal key only changes its value |
| Bst.InsertNodeMap | src/binary_search_tree.rs:27-45 | insertion into a search tree keeps order and maps the key to the value, other keys as before |
| Bst.LeftReplaced | src/binary_search_tree.rs:33-35 | a left subtree that gained a smaller key keeps the node ordered and updates its map at that key |
| Bst.RightReplaced | src/binary_search_tree.rs:40-42 | the mirror of LeftReplaced for a larger key |
| Bst.InsertCount | src/binary_search_tree.rs:36-39 | inserting an absent key adds one node; a present key adds none |
| Bst.DeleteMin | src/binary_search_tree.rs:48-61 | on an empty tree both results are absent; otherwise the detached node is childless and first in order, and the rest keeps every other entry in order |
| Bst.DeleteMinKeeps | src/binary_search_tree.rs:48-61 | in a search tree the detached key is the smallest; the rest is a search tree missing exactly that key, and its map loses exactly that key |
| Bst.MinRemovedFromLeft | src/binary_search_tree.rs:58-60 | putting back a left subtree whose minimum was detached keeps the node ordered and removes only that key |
| Bst.DeleteNode | src/binary_search_tree.rs:63-96 | deletion never adds a key or a node |
| Bst.DeleteNodeKeeps | src/binary_search_tree.rs:63-96 | deletion from a search tree keeps order and removes exactly the key from key set and map |
| Bst.LeftDeleted | src/binary_search_tree.rs:69-71 | a left subtree that lost a smaller key keeps the node ordered and removes that key from the node's keys and map |
| Bst.RightDeleted | src/binary_search_tree.rs:72-74 | the mirror of LeftDeleted for a larger key |
| Bst.SuccessorReplaces | src/binary_search_tree.rs:81-92 | a node with two children, replaced by the minimum of its right subtree over what remains of it, gives a search tree that lost exactly the node's key |
| Bst.DeleteCount | src/binary_search_tree.rs:63-96 | deleting a present key removes one node; an absent one removes none |
| Bst.DeleteAbsent | src/binary_search_tree.rs:63-96 | deleting a key the tree does not hold gives back the same tree |
| Bst.IterSort | src/binary_search_tree.rs:98-106 | the values of the tree are appended in order after the vector's existing contents, which are kept |
| Bst.EntriesKeys | src/binary_search_tree.rs:98-106 | the keys met in order are exactly the tree's keys |
| Bst.EntriesIncreasing | src/binary_search_tree.rs:98-106 | in a search tree the in-order keys strictly increase |
| Bst.EntriesMapped | src/binary_search_tree.rs:98-106 | every in-order entry of a search tree is what its map holds at that key |
| Bst.ExportIsSortedKeySet | src/binary_search_tree.rs:136-140 | with values equal to keys, the export is the key set listed in strictly increasing order |
| Bst.BinarySearchTree.constructor | src/binary_search_tree.rs:111-113 | a new tree is empty and valid |
| Bst.BinarySearchTree.Insert | src/binary_search_tree.rs:115-117 | insertion keeps the tree valid, updates the map at the key and grows the size only for an absent key |
| Bst.BinarySearchTree.Get | src/binary_search_tree.rs:119-129 | the descent answers the value stored at the key, or nothing when the key is absent |
| Bst.BinarySearchTree.Delete | src/binary_search_tree.rs:131-133 | deletion keeps the tree valid, removes the key from the map and shrinks the size only for a present key |
| Bst.BinarySearchTree.ToVec | src/binary_search_tree.rs:136-140 | the values in in-order key order, one per node |
| Bst.InsertThenGet | src/binary_search_tree.rs:115-129 | after an insertion a lookup of that key answers the new value and a lookup of another key answers as before |
| Bst.EverySecondStep | src/binary_search_tree.rs:168 | stepping two positions down from an even distance to the end adds exactly the element there to the deleted set |
| Bst.InsertedNext | src/binary_search_tree.rs:164-166 | one more insertion with value = key extends the stored keys by the next list element |
| Bst.RemainingNext | src/binary_search_tree.rs:168-171 | one more deletion removes the next element at an even distance from the end from the remaining keys |
| Bst.InsertDeleteExport | src/binary_search_tree.rs:160-176 | the delete test: after inserting the list and deleting every second position from the end, the export lists strictly increasing exactly the distinct elements not deleted |
| Heap.RootIsMax | src/binary_heap.rs:15-22 | in a heap-ordered vector no element exceeds the one at slot 1 |
| Heap.SwapKeepsElements | src/binary_heap.rs:31 | swapping two slots past the sentinel keeps the sentinel and the multiset of elements |
| Heap.BubbleStep | src/binary_heap.rs:30-32 | swapping a larger child with its parent moves the single order violation one level up, elements unchanged |
| Heap.BubbleStops | src/binary_heap.rs:30 | when the loop guard fails the vector is heap-ordered |
| Heap.SinkStep | src/binary_heap.rs:40-49 | swapping a smaller parent with its greater child moves the single order violation one level down, elements unchanged |
| Heap.SinkStops | src/binary_heap.rs:45-47 | when the parent is at least its greater child the vector is heap-ordered |
| Heap.ChildlessOrdered | src/binary_heap.rs:38 | when the slot has no child the vector is heap-ordered |
| Heap.BinaryHeap.constructor | src/binary_heap.rs:4-8 | a new heap holds only the sentinel and no elements |
| Heap.BinaryHeap.Size | src/binary_heap.rs:24-26 | the size is the number of elements held, zero exactly when the heap is empty |
| Heap.BinaryHeap.Push | src/binary_heap.rs:10-13 | pushing keeps the heap order and adds exactly the pushed element |
| Heap.BinaryHeap.Bubble | src/binary_heap.rs:29-34 | from a vector ordered except at one slot, the upward pass restores heap order and keeps sentinel and elements |
| Heap.BinaryHeap.RemoveMax | src/binary_heap.rs:15-22 | on a non-empty heap the answer is a held element no smaller than any other, and exactly one copy of it is removed |
| Heap.BinaryHeap.Sink | src/binary_heap.rs:37-51 | from a vector ordered except below one slot, the downward pass restores heap order and keeps sentinel and elements |
| Heap.DrainNext | src/binary_heap.rs:67-69 | taking the maximum of what remains keeps the taken list non-increasing and taken plus remaining equal to the input |
| Heap.DescendingReversed | src/binary_heap.rs:71-72 | the reverse of a non-increasing list is sorted |
| Heap.Reverse | src/binary_heap.rs:71 | the reverse has the same length and elements, position i holding the element at the mirrored position |
| Heap.HeapSort | src/binary_heap.rs:59-73 | the heap-sort test: pushing every element and draining with `remove_max`, then reversing, gives a sorted permutation of the input |
| MergeSorting.MergeSeqElements | src/merge_sort.rs:43-57 | the merge of two runs holds exactly their elements |
| MergeSorting.MergeSeqSorted | src/merge_sort.rs:43-57 | the merge of two sorted runs is sorted |
| MergeSorting.MergeSeqStable | src/merge_sort.rs:50-52 | elements with equal keys keep their order: those from the left run come first, each run's in its own order |
| MergeSorting.TakenFromMerges | src/merge_sort.rs:43-57 | what the four-way branch takes from the two cursors, from any point on, is the merge of what remains of the two runs |
| MergeSorting.CopyToAux | src/merge_sort.rs:41 | the buffer receives the range copied from the slice, the rest of the buffer unchanged |
| MergeSorting.PlaceNext | src/merge_sort.rs:44-56 | each step of the loop reads the buffer inside the copied segment: the left cursor in `[lo, hi)` below `mid`, the right cursor in `[mid, hi)` |
| MergeSorting.MergeFromAux | src/merge_sort.rs:43-57 | the range of the slice is filled with the merge of the two runs held in the buffer, the rest of the slice unchanged |
| MergeSorting.Merge | src/merge_sort.rs:36-58 | the slice range is replaced by the merge of its two halves, the second half clipped to the range end; the rest is unchanged |
| MergeSorting.SingletonChunks | src/merge_sort.rs:19 | every sequence consists of sorted runs of length 1 |
| MergeSorting.SpliceStable | src/merge_sort.rs:50-52 | replacing two neighbouring runs, the first sorted, by their merge keeps, for every key, the order of the elements with that key |
| MergeSorting.PassNext | src/merge_sort.rs:22-31 | merging the next two runs extends the prefix of sorted double-length runs by one run, keeps the elements and keeps the order of equal keys |
| MergeSorting.MergeNext | src/merge_sort.rs:23-30 | one call of `merge` inside the pass advances the pass state by two run lengths |
| MergeSorting.PassEnd | src/merge_sort.rs:20-33 | a finished pass leaves sorted runs of double length |
| MergeSorting.SortEnd | src/merge_sort.rs:20 | once the run length reaches the slice length the slice is sorted, a permutation of the input, and holds the elements of every key in their original order |
| MergeSorting.MergeSort | src/merge_sort.rs:12-34 | the slice ends sorted and a permutation of its original contents, and the sort is stable: for every key the elements with that key keep their original relative order |
| RedBlack.IsRed | src/red_black_tree.rs:14-19 | an absent link is not red; a node is red exactly when its colour is red |
| RedBlack.RotateLeft | src/red_black_tree.rs:21-29 | the red right child becomes the root with the old root's colour; the old root becomes its red left child holding the old grandchild |
| RedBlack.RotateRight | src/red_black_tree.rs:31-39 | the mirror of RotateLeft, hoisting the red left child |
| RedBlack.RotateLeftInOrder | src/red_black_tree.rs:21-29 | a left rotation keeps the in-order sequence of (key, value) pairs |
| RedBlack.RotateRightInOrder | src/red_black_tree.rs:31-39 | a right rotation keeps the in-order sequence of (key, value) pairs |
| RedBlack.RotateLeftThenRight | src/red_black_tree.rs:83 | rotating left and then right gives back the original node, colours included (the rotation test) |
| RedBlack.RotateRightThenLeft | src/red_black_tree.rs:31-39 | rotating right and then left gives back the original node |

## Left out

- Keys of the `Llrb` and `Bst` trees are `int` rather than any `Ord` type (the `RedBlack` rotations stay generic in the key type), and heap elements are `int` rather than any `Default + Ord` type. The sentinel `T::default()` is modelled as `0`, and the element type of merge sort is an `Item` with an integer key and a payload, which stands for any `Ord + Clone` type.
- `usize` arithmetic is unbounded in the model. Overflow of `i + chunk_size * 2`, of `chunk_size *= 2` and of `i * 2` in `sink` is not modelled.
- Vectors and slices of the trees and the heap are sequences. `Box` ownership, `take()` and the references returned by `LLRBTree::to_vec` and `BinarySearchTree::get` are values in the model.
- The source's panics are preconditions in the model. They are the assertions and `expect` calls of `rotate_left`/`rotate_right` on a non-red child, the assertion of `remove_max` on an empty heap, and the out-of-bounds index `&l[0]` of `is_sorted` on an empty slice. The caller errors they stand for are not modelled as panics. The `unwrap` in `delete` on the node `delete_min` detaches is not a precondition: `Bst.DeleteMin` proves that node present for every non-empty tree.
- The complexity claims and the logarithmic height of the LLRB are not modelled. Perfect black balance is proved, but the height bound that follows from it is not.
- The LLRB has no lookup or deletion in the source, so the model has none.
- The rotation test trees with string keys `"A"`..`"E"` are covered by the general inverse lemmas rather than restated.
- Heap.BinaryHeap.Bubble: requires the vector to be heap-ordered except at the given slot. The source leaves this precondition implicit: `push` is its only caller, and it meets it.
- Heap.BinaryHeap.Sink: requires the vector to be heap-ordered except below the given slot, the state `remove_max` leaves it in. The source leaves this precondition implicit.
- MergeSorting.Merge: does not state the final contents of the auxiliary buffer, which the source uses only as scratch space.
- Lib.IsSorted: requires a non-empty slice, because the source indexes `l[0]` and panics on an empty one.
- The Rust test harness, `Debug` formatting and `Clone` derivations are left out.
