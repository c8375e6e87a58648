# crescent_library containers and utilities in Dafny

This project models the core of crescent_library (namespace `crsc`), a header-only C++
library of containers and small algorithms:

- the binary-heap `priority_queue`, which keeps its heap valid between calls;
- the `container::unstable_priority_queue`, which has no such invariant;
- the dynamic matrix, the mathematical dynamic matrix, the two fixed-size matrices, the
  rank-3 dynamic tensor and the dynamic array;
- the helpers of `algorithm_utilities.h` and `string_utilities.h`.

Element types are fixed to `int` and the comparator to `std::less<int>`, so the heaps are
max-heaps. Each C++ class whose methods update its fields becomes a Dafny `class`:

- a `std::vector` member becomes a `seq` field that the methods reassign;
- a raw `new[]` buffer becomes an `array`.

Each method is proved against a specification function of its old state. For the heap
these are `SiftDown`, `SiftUp`, `Heapify`, `PopTop`, `Push` and `AlterAt`. For the matrices
they are `Sum`, `Difference`, `Product` and `Trace` over a row-major `Matrix` value, and for
the dynamic array `Inserted`, `Erased` and `Resized` over a sequence.

The properties the library promises are then proved about those functions:

- the heap invariant is kept;
- the top outranks every element;
- dequeuing everything yields the elements in order;
- a difference undoes a sum;
- multiplying by the identity changes nothing;
- erase undoes insert;
- the other properties listed in the table below.

Thrown exceptions become a `Result` or a `Status` value. The module `Outcomes` defines
them, with the errors `OutOfRange`, `InvalidArgument` and `LogicError`. Every method that
can throw states the exact condition for each error. It also states that a failing call
leaves the object unchanged, wherever the C++ code checks before it modifies.

Modules:

- `Outcomes`: error values.
- `Sequences`: find, count, replace and erase-remove over sequences.
- `Heap`: the heap engine shared by both queues.
- `PriorityQueue`, `UnstablePriorityQueue`: the two queues.
- `MatrixMath`: the matrix value and its algebra.
- `DynamicMatrix`, `MathematicalDynamicMatrix`, `FixedMatrix`, `ContainerFixedMatrix`,
  `DynamicR3Tensor`, `DynamicArray`: the containers.
- `AlgorithmUtilities`, `StringUtilities`: the helpers.

## Model

| member | source | states |
|---|---|---|
| Sequences.PositionsWhere | crescent_library/algorithm_utilities.h:89-95 | the indices whose element satisfies p, exactly |
| Sequences.FirstWhere | crescent_library/priority_queue.h:248-250 | the first index satisfying p, or the size when none does; no earlier index satisfies p |
| Sequences.IndexOf | crescent_library/priority_queue.h:218-220 | the first index holding v, or the size exactly when v is absent |
| Sequences.CountWhere | crescent_library/algorithm_utilities.h:141-147 | the number of matches is at most the length, and zero exactly when nothing matches |
| Sequences.CountIsNumberOfPositions | crescent_library/algorithm_utilities.h:141-147 | the count of matches equals the number of matching positions |
| Sequences.ReplaceWhere | crescent_library/algorithm_utilities.h:141-147 | same length; every matching element becomes v and the others are kept |
| Sequences.RemoveWhere | crescent_library/string_utilities.h:196-200 | the result has no matching element, and its length is the original length less the number of matches |
| Sequences.RemoveWhereMultiset | crescent_library/string_utilities.h:196-200 | every non-matching value keeps its multiplicity; matching values disappear |
| Sequences.RemoveWhereAppend | crescent_library/string_utilities.h:196-200 | erase-remove distributes over concatenation, so order is kept |
| Sequences.RemoveWhereIdempotent | crescent_library/string_utilities.h:196-200 | a second erase-remove changes nothing |
| Heap.Swap | crescent_library/priority_queue.h:630-652 | the two positions are exchanged, the others kept, and the multiset is unchanged |
| Heap.Pick | crescent_library/priority_queue.h:630-652 | bubble_down's choice: the largest of a parent and its children, preferring the parent and then the left child on ties |
| Heap.SiftDown | crescent_library/priority_queue.h:630-652 | bubble_down permutes the elements and leaves every index before pos alone |
| Heap.SiftUp | crescent_library/priority_queue.h:661-672 | bubble_up permutes the elements and leaves every index after pos alone |
| Heap.SiftUpMovesOnlyPath | crescent_library/priority_queue.h:661-672 | bubble_up changes no element except at pos and its ancestors |
| Heap.DownPath | crescent_library/priority_queue.h:630-652 | the indices bubble_down visits start at pos and each is a child of the one before |
| Heap.SiftDownMovesOnlyPath | crescent_library/priority_queue.h:630-652 | bubble_down changes no element off the path of children it swaps with |
| Heap.SiftDownStep | crescent_library/priority_queue.h:630-652 | one swap with the chosen child moves the only defect one level down |
| Heap.SiftDownRestores | crescent_library/priority_queue.h:630-652 | bubble_down from the only defective position yields a valid heap |
| Heap.SiftUpStep | crescent_library/priority_queue.h:661-672 | one swap with the parent moves the only defect one level up |
| Heap.SiftUpRestores | crescent_library/priority_queue.h:661-672 | bubble_up from the only defective position yields a valid heap |
| Heap.HeapifyFrom | crescent_library/priority_queue.h:696-699 | bubbling down from each index below k keeps the length |
| Heap.HeapifyFromPermutes | crescent_library/priority_queue.h:696-699 | bubbling down from each index below k permutes the elements |
| Heap.HeapifyFromRestores | crescent_library/priority_queue.h:696-699 | heapify's loop keeps the heap property of the already-processed suffix and ends with a valid heap |
| Heap.Heapify | crescent_library/priority_queue.h:696-699 | heapify gives a valid heap of the same length over the same multiset |
| Heap.SiftDownOnHeap | crescent_library/priority_queue.h:630-652 | on a valid heap bubble_down moves nothing |
| Heap.HeapifyFromOnHeap | crescent_library/priority_queue.h:696-699 | on a valid heap every pass of heapify's loop moves nothing |
| Heap.HeapifyIdempotent | crescent_library/priority_queue.h:696-699 | heapify leaves a valid heap unchanged and is idempotent |
| Heap.TopIsMax | crescent_library/priority_queue.h:207-209 | in a valid heap no element outranks index 0 |
| Heap.TopOutranksAll | crescent_library/priority_queue.h:207-209 | the top outranks every element of a valid heap |
| Heap.PopTop | crescent_library/priority_queue.h:679-687 | pop_top removes exactly one copy of the top and does nothing on an empty heap |
| Heap.PopTopBySwap | crescent_library/priority_queue.h:683-686 | swapping the top with the last element and dropping the last slot leaves the same sequence as copying the last element over the top, so dequeue by swap is pop_top |
| Heap.PopTopKeepsHeap | crescent_library/priority_queue.h:679-687 | pop_top keeps a valid heap valid |
| Heap.Push | crescent_library/priority_queue.h:320-323 | enqueue adds exactly one copy of v |
| Heap.PushKeepsHeap | crescent_library/priority_queue.h:320-323 | enqueue keeps a valid heap valid |
| Heap.AlterAt | crescent_library/priority_queue.h:407-412 | alter replaces exactly one copy of the old element by v |
| Heap.AlterUpReady | crescent_library/priority_queue.h:407-412 | raising an element leaves only a defect above it, which bubble_up repairs |
| Heap.AlterDownReady | crescent_library/priority_queue.h:407-412 | lowering an element, or keeping it equal, leaves only a defect below it, which bubble_down repairs |
| Heap.AlterAtKeepsHeap | crescent_library/priority_queue.h:407-412 | alter keeps a valid heap valid, whichever direction it bubbles |
| Heap.EraseAtShift | crescent_library/priority_queue.h:527-530 | erase(pos) as written, a vector shift and one bubble_down: removes exactly the element at pos |
| Heap.EraseAtShiftBreaksHeap | crescent_library/priority_queue.h:527-530 | on the valid heap [10,5,9,4,3,8,7], erasing position 1 gives the invalid heap [10,9,4,3,8,7] |
| Heap.EraseAtRepaired | crescent_library/priority_queue.h:527-530 | erase(pos) with heapify in place of the single bubble_down removes exactly the element at pos and gives a valid heap |
| Heap.EraseRange | crescent_library/priority_queue.h:548-551 | erase(first, last) followed by heapify gives a valid heap without exactly the erased range |
| Heap.Drain | crescent_library/priority_queue.h:282-289 | write_ordered's sequence of repeated top and dequeue has as many elements as the queue |
| Heap.DrainHeadOutranks | crescent_library/priority_queue.h:282-289 | the first element written outranks everything written after it |
| Heap.DrainPermutes | crescent_library/priority_queue.h:282-289 | write_ordered writes every element of the queue exactly once |
| Heap.DrainSorted | crescent_library/priority_queue.h:282-289 | for a valid heap, write_ordered writes in non-increasing order: no element outranks one written before it |
| Heap.PickChild | crescent_library/priority_queue.h:630-652 | bubble_down's comparison of a parent with its two children picks what Pick specifies |
| Heap.SiftDownLoop | crescent_library/priority_queue.h:630-652 | the iterative bubble_down computes SiftDown |
| Heap.SiftUpLoop | crescent_library/priority_queue.h:661-672 | the iterative bubble_up computes SiftUp |
| Heap.HeapifyLoop | crescent_library/priority_queue.h:696-699 | the backwards heapify loop computes Heapify |
| Heap.HeapifyTurn | crescent_library/priority_queue.h:697-698 | one bubble_down of the heapify loop leaves the rest of the loop with exactly what the whole loop from k would do |
| PriorityQueue.PriorityQueue.constructor | crescent_library/priority_queue.h:67-113 | container plus range, heapified: a valid heap over exactly those elements |
| PriorityQueue.PriorityQueue.Copy | crescent_library/priority_queue.h:121-122 | the copy holds the same heap |
| PriorityQueue.PriorityQueue.Top | crescent_library/priority_queue.h:207-209 | the top is an element and no element outranks it |
| PriorityQueue.PriorityQueue.Find | crescent_library/priority_queue.h:218-220 | the index of the first occurrence of v, or the size when v is absent |
| PriorityQueue.PriorityQueue.FindIf | crescent_library/priority_queue.h:248-250 | the index of the first element satisfying p, or the size when none does |
| PriorityQueue.PriorityQueue.FindAll | crescent_library/priority_queue.h:231-237 | exactly the indices holding v |
| PriorityQueue.PriorityQueue.FindAllIf | crescent_library/priority_queue.h:263-269 | exactly the indices whose element satisfies p |
| PriorityQueue.PriorityQueue.Enqueue | crescent_library/priority_queue.h:320-323 | the heap stays valid and gains exactly one copy of v |
| PriorityQueue.PriorityQueue.Dequeue | crescent_library/priority_queue.h:361-363 | the heap stays valid and loses exactly one copy of its top; an empty queue stays empty |
| PriorityQueue.SwapTopWithLast | crescent_library/priority_queue.h:683-686 | dequeue's swap of the top with the last element, pop and bubble_down is pop_top, and a valid heap stays valid |
| PriorityQueue.PriorityQueue.Clear | crescent_library/priority_queue.h:370-372 | the queue becomes empty |
| PriorityQueue.PriorityQueue.AlterAt | crescent_library/priority_queue.h:407-412 | the heap stays valid, and the element at pos is replaced by v in the multiset |
| PriorityQueue.PriorityQueue.Alter | crescent_library/priority_queue.h:387-394 | the first copy of target becomes v and the heap stays valid; nothing changes when target is absent |
| PriorityQueue.PriorityQueue.AlterIf | crescent_library/priority_queue.h:447-455 | the first element satisfying p becomes v and the heap stays valid; nothing changes when none does |
| PriorityQueue.PriorityQueue.AlterAll | crescent_library/priority_queue.h:494-499 | every copy of target becomes v, then heapify restores validity |
| PriorityQueue.PriorityQueue.AlterAllIf | crescent_library/priority_queue.h:515-520 | every element satisfying p becomes v, then heapify restores validity |
| PriorityQueue.PriorityQueue.EraseAt | crescent_library/priority_queue.h:527-530 | exactly the element at pos is removed; validity is not promised (see Findings) |
| PriorityQueue.PriorityQueue.EraseValue | crescent_library/priority_queue.h:537-540 | the first copy of v is removed by the positional erase |
| PriorityQueue.PriorityQueue.EraseRange | crescent_library/priority_queue.h:548-551 | exactly the range is removed and the heap is valid |
| PriorityQueue.PriorityQueue.Swap | crescent_library/priority_queue.h:559-562 | the two heaps are exchanged |
| UnstablePriorityQueue.UnstablePriorityQueue.constructor | crescent_library/container/unstable_priority_queue.h:61-107 | container plus range, heapified: a valid heap over exactly those elements |
| UnstablePriorityQueue.UnstablePriorityQueue.Copy | crescent_library/container/unstable_priority_queue.h:115-116 | the copy holds the same sequence |
| UnstablePriorityQueue.UnstablePriorityQueue.Top | crescent_library/container/unstable_priority_queue.h:201-203 | the top is an element, and outranks every element whenever the heap is valid |
| UnstablePriorityQueue.UnstablePriorityQueue.SetTop | crescent_library/container/unstable_priority_queue.h:212-214 | writing through the mutable top changes index 0 only |
| UnstablePriorityQueue.UnstablePriorityQueue.Enqueue | crescent_library/container/unstable_priority_queue.h:225-228 | exactly one copy of v is added, and a valid heap stays valid |
| UnstablePriorityQueue.UnstablePriorityQueue.Dequeue | crescent_library/container/unstable_priority_queue.h:264-272 | exactly one copy of the top is removed, an empty queue stays empty, and a valid heap stays valid |
| UnstablePriorityQueue.UnstablePriorityQueue.Clear | crescent_library/container/unstable_priority_queue.h:279-281 | the queue becomes empty |
| UnstablePriorityQueue.UnstablePriorityQueue.EraseAt | crescent_library/container/unstable_priority_queue.h:282-286 | exactly the element at pos is removed, and the returned position is pos |
| UnstablePriorityQueue.UnstablePriorityQueue.EraseRange | crescent_library/container/unstable_priority_queue.h:287-291 | exactly the range is removed, the result is a valid heap, and the returned position is first |
| UnstablePriorityQueue.UnstablePriorityQueue.Swap | crescent_library/container/unstable_priority_queue.h:292-295 | the two heaps are exchanged |
| UnstablePriorityQueue.UnstablePriorityQueue.BubbleDown | crescent_library/container/unstable_priority_queue.h:309-330 | a permutation that changes nothing off bubble_down's path from pos and repairs a heap whose only defect lies below pos |
| UnstablePriorityQueue.UnstablePriorityQueue.BubbleUp | crescent_library/container/unstable_priority_queue.h:340-351 | a permutation that changes nothing except at pos and its ancestors and repairs a heap whose only defect lies above pos |
| UnstablePriorityQueue.UnstablePriorityQueue.Heapify | crescent_library/container/unstable_priority_queue.h:360-363 | gives a valid heap over the same elements, and leaves an already valid heap unchanged |
| UnstablePriorityQueue.CopyLastOverTop | crescent_library/container/unstable_priority_queue.h:264-272 | dequeue's copy of the last element over the top, pop and bubble_down is pop_top: one copy of the top goes, and a valid heap stays valid |
| UnstablePriorityQueue.TopWriteRepairedByBubbleDown | crescent_library/container/unstable_priority_queue.h:212-214 | whatever is written through the mutable top of a valid heap, bubble_down(0) makes the heap valid again |
| MatrixMath.FlattenIndex | crescent_library/dynamic_matrix.h:433-435 | entry (i, j) of a rectangular grid sits at flat index i * cols + j |
| MatrixMath.GridEntry | crescent_library/dynamic_matrix.h:375-379 | reading flat index i * cols + j is reading row i, column j |
| MatrixMath.EntryAt | crescent_library/fixed_matrix.h:89 | entry (i, j) of a matrix value is its element at flat index i * cols + j |
| MatrixMath.FlatIndexInjective | crescent_library/dynamic_matrix.h:433-435 | distinct (i, j) with j < cols have distinct flat indices |
| MatrixMath.FromRows | crescent_library/dynamic_matrix.h:203-206 | a well-formed matrix whose rows are exactly the given rows |
| MatrixMath.EqualByEntries | crescent_library/fixed_matrix.h:226-234 | two matrices of equal shape with equal entries are equal |
| MatrixMath.GridEntriesDetermine | crescent_library/dynamic_matrix.h:1249-1256 | comparing the flat vectors is the same as comparing every entry, in both directions |
| MatrixMath.Sum | crescent_library/dynamic_matrix.h:1388-1395 | entry (i, j) of the sum is the sum of the two entries (i, j) |
| MatrixMath.Difference | crescent_library/dynamic_matrix.h:1409-1416 | entry (i, j) of the difference is the difference of the two entries (i, j) |
| MatrixMath.DifferenceUndoesSum | crescent_library/dynamic_matrix.h:1409-1416 | (a + b) - b == a |
| MatrixMath.SumCommutes | crescent_library/dynamic_matrix.h:1388-1395 | a + b == b + a |
| MatrixMath.Scale | crescent_library/mathematical_dynamic_matrix.h:148-151 | every element is multiplied by the scalar |
| MatrixMath.ScaleDistributesOverSum | crescent_library/mathematical_dynamic_matrix.h:152-155 | s(a + b) == sa + sb |
| MatrixMath.Product | crescent_library/dynamic_matrix.h:1428-1439 | entry (i, j) of the product is the dot product of row i of lhs with column j of rhs |
| MatrixMath.Identity | crescent_library/dynamic_matrix.h:1314-1323 | ones on the diagonal and zeros elsewhere |
| MatrixMath.ProductIdentity | crescent_library/dynamic_matrix.h:1428-1439 | I * a == a and a * I == a |
| MatrixMath.DiagonalStride | crescent_library/fixed_matrix.h:172-179 | stepping by cols + 1 through the flat vector visits the diagonal |
| MatrixMath.StrideInBounds | crescent_library/fixed_matrix.h:172-179 | the stride loop stays inside an n-by-n matrix exactly for its n diagonal entries |
| MatrixMath.TraceOfSum | crescent_library/dynamic_matrix.h:1450-1456 | tr(a + b) == tr(a) + tr(b) |
| MatrixMath.TraceOfIdentity | crescent_library/dynamic_matrix.h:1314-1323 | tr(I_n) == n |
| MatrixMath.FlattenInsertRow | crescent_library/dynamic_matrix.h:669-676 | inserting a row into the grid is splicing it into the flat vector at pos * cols |
| MatrixMath.FlattenEraseRow | crescent_library/dynamic_matrix.h:828-833 | erasing a row from the grid is cutting flat range [pos * cols, (pos + 1) * cols) |
| MatrixMath.InsertColumnAt | crescent_library/dynamic_matrix.h:755-772 | each row grows by one element, inserted at pos |
| MatrixMath.EraseColumnAt | crescent_library/dynamic_matrix.h:848-859 | each row shrinks by one, losing the element at pos |
| MatrixMath.InsertColumnEntry | crescent_library/dynamic_matrix.h:755-772 | after the insertion, column j holds the old column j before pos, the new entry at pos, and the old column j - 1 after it |
| MatrixMath.EraseUndoesInsertColumn | crescent_library/dynamic_matrix.h:848-859 | erase_column(pos) undoes insert_column(pos, v) |
| MatrixMath.ResizeRows | crescent_library/dynamic_matrix.h:1057-1068 | the first rows are kept, and any new rows are filled with val |
| MatrixMath.ResizeColumns | crescent_library/dynamic_matrix.h:1120-1131 | the first columns of each row are kept, and any new columns are filled with val |
| MatrixMath.ResizeRowsRoundTrip | crescent_library/dynamic_matrix.h:1057-1068 | resizing to the same row count changes nothing, and growing then shrinking back gives the original |
| MatrixMath.ResizeColumnsRoundTrip | crescent_library/dynamic_matrix.h:1120-1131 | resizing to the same column count changes nothing, and growing then shrinking back gives the original |
| MatrixMath.Minor | crescent_library/dynamic_matrix.h:1234-1238 | the grid without row r and column c has one row fewer |
| MatrixMath.MinorEntries | crescent_library/dynamic_matrix.h:1234-1238 | entry (i, j) of the minor is the original entry after skipping row r and column c |
| MatrixMath.TopLeft | crescent_library/dynamic_matrix.h:144-150 | the r-by-c top-left block of a two-dimensional array |
| DynamicMatrix.DynamicMatrix.Value | crescent_library/dynamic_matrix.h:1270-1272 | the object's rows, columns and flat vector form a well-formed matrix |
| DynamicMatrix.DynamicMatrix.constructor | crescent_library/dynamic_matrix.h:96-105 | the default matrix is 0 by 0 |
| DynamicMatrix.DynamicMatrix.Filled | crescent_library/dynamic_matrix.h:115-128 | r by c, every entry val (0 for the sized constructor) |
| DynamicMatrix.DynamicMatrix.FromValue | crescent_library/dynamic_matrix.h:160-161 | the copy holds exactly the given matrix |
| DynamicMatrix.DynamicMatrix.FromArray | crescent_library/dynamic_matrix.h:144-150 | the grid is the r-by-c top-left block of the array |
| DynamicMatrix.DynamicMatrix.FromRows | crescent_library/dynamic_matrix.h:203-206 | the grid is exactly the list of rows |
| DynamicMatrix.DynamicMatrix.At | crescent_library/dynamic_matrix.h:375-379 | OutOfRange exactly when i >= rows or j >= cols, otherwise entry (i, j) |
| DynamicMatrix.DynamicMatrix.Get | crescent_library/dynamic_matrix.h:433-435 | operator() returns entry (i, j) |
| DynamicMatrix.DynamicMatrix.Clear | crescent_library/dynamic_matrix.h:629-633 | the matrix becomes 0 by 0 |
| DynamicMatrix.DynamicMatrix.InsertRow | crescent_library/dynamic_matrix.h:669-676 | OutOfRange when pos > rows, InvalidArgument when the size differs from cols, and no change on either; otherwise vec becomes row pos and the later rows shift down |
| DynamicMatrix.DynamicMatrix.InsertRowPadded | crescent_library/dynamic_matrix.h:701-712 | as InsertRow, but a short vec is padded with zeros and only a long one is refused |
| DynamicMatrix.DynamicMatrix.InsertRowFilled | crescent_library/dynamic_matrix.h:647-649 | OutOfRange when pos > rows; otherwise a row of copies of val is inserted at pos |
| DynamicMatrix.DynamicMatrix.InsertColumn | crescent_library/dynamic_matrix.h:755-772 | OutOfRange when pos > cols, InvalidArgument when the size differs from rows, and no change on either; otherwise vec[i] is inserted into row i at pos |
| DynamicMatrix.DynamicMatrix.InsertColumnPadded | crescent_library/dynamic_matrix.h:798-813 | as InsertColumn, but a short vec is padded with zeros and only a long one is refused |
| DynamicMatrix.DynamicMatrix.InsertColumnFilled | crescent_library/dynamic_matrix.h:728-730 | OutOfRange when pos > cols; otherwise a column of copies of val is inserted at pos |
| DynamicMatrix.DynamicMatrix.EraseRow | crescent_library/dynamic_matrix.h:828-833 | OutOfRange with no change unless pos < rows; otherwise exactly row pos is removed |
| DynamicMatrix.DynamicMatrix.EraseColumn | crescent_library/dynamic_matrix.h:848-859 | OutOfRange with no change unless pos < cols; otherwise exactly column pos is removed |
| DynamicMatrix.DynamicMatrix.Fill | crescent_library/dynamic_matrix.h:869-871 | same shape, every entry val |
| DynamicMatrix.DynamicMatrix.AppendRow | crescent_library/dynamic_matrix.h:912-920 | push_back of each element appends exactly one row |
| DynamicMatrix.DynamicMatrix.PushRowFilled | crescent_library/dynamic_matrix.h:887-891 | a row of copies of val is appended |
| DynamicMatrix.DynamicMatrix.PushRow | crescent_library/dynamic_matrix.h:912-920 | InvalidArgument with no change unless the size equals cols; otherwise vec is appended as the last row |
| DynamicMatrix.DynamicMatrix.PushRowPadded | crescent_library/dynamic_matrix.h:942-951 | InvalidArgument with no change when vec is longer than cols; otherwise vec, padded with zeros, is appended |
| DynamicMatrix.DynamicMatrix.PushColumnFilled | crescent_library/dynamic_matrix.h:965-967 | a column of copies of val is appended |
| DynamicMatrix.DynamicMatrix.PushColumn | crescent_library/dynamic_matrix.h:987-989 | InvalidArgument with no change unless the size equals rows; otherwise vec is appended as the last column |
| DynamicMatrix.DynamicMatrix.PushColumnPadded | crescent_library/dynamic_matrix.h:1010-1012 | InvalidArgument with no change when vec is longer than rows; otherwise vec, padded with zeros, is appended as a column |
| DynamicMatrix.DynamicMatrix.PopRow | crescent_library/dynamic_matrix.h:1021-1025 | exactly the last row is removed |
| DynamicMatrix.DynamicMatrix.PopColumn | crescent_library/dynamic_matrix.h:1036-1038 | OutOfRange with no change when there are no columns; otherwise exactly the last column is removed |
| DynamicMatrix.DynamicMatrix.RowsResize | crescent_library/dynamic_matrix.h:1087-1098 | n rows: the first rows are kept and new rows hold val; resizing to the current count changes nothing |
| DynamicMatrix.DynamicMatrix.ColumnsResize | crescent_library/dynamic_matrix.h:1152-1163 | n columns: the first columns are kept and new columns hold val; resizing to the current count changes nothing |
| DynamicMatrix.DynamicMatrix.AppendColumns | crescent_library/dynamic_matrix.h:1155-1158 | the growing loop ends with n columns, the old ones kept and the new ones holding val |
| DynamicMatrix.DynamicMatrix.PopColumns | crescent_library/dynamic_matrix.h:1159-1162 | the shrinking loop ends with the first n columns |
| DynamicMatrix.DynamicMatrix.Resize | crescent_library/dynamic_matrix.h:1196-1199 | rows_resize and then columns_resize |
| DynamicMatrix.DynamicMatrix.Swap | crescent_library/dynamic_matrix.h:1208-1212 | the two matrices exchange contents and dimensions |
| DynamicMatrix.DynamicMatrix.Submatrix | crescent_library/dynamic_matrix.h:1234-1238 | OutOfRange unless r < rows and c < cols; on success the minor without row r and column c; with a bad c the row is already erased (no strong guarantee) |
| DynamicMatrix.DynamicMatrix.Equals | crescent_library/dynamic_matrix.h:1249-1256 | true exactly when the dimensions and every entry agree |
| DynamicMatrix.InsertColumnLoop | crescent_library/dynamic_matrix.h:755-772 | the flat-index insertion loop computes the flat vector of InsertColumnAt |
| DynamicMatrix.EraseColumnLoop | crescent_library/dynamic_matrix.h:848-859 | the flat-index erasure loop computes the flat vector of EraseColumnAt |
| DynamicMatrix.MatrixSum | crescent_library/dynamic_matrix.h:1388-1395 | InvalidArgument exactly when the shapes differ, otherwise the sum |
| DynamicMatrix.MatrixDifference | crescent_library/dynamic_matrix.h:1409-1416 | InvalidArgument exactly when the shapes differ, otherwise the difference |
| DynamicMatrix.MatrixProduct | crescent_library/dynamic_matrix.h:1428-1439 | InvalidArgument unless lhs.cols == rhs.rows, otherwise the product |
| DynamicMatrix.ProductLoop | crescent_library/dynamic_matrix.h:1428-1439 | the triple loop computes the product's elements |
| DynamicMatrix.ProductRow | crescent_library/dynamic_matrix.h:1428-1439 | the j loop fills row i of the product |
| DynamicMatrix.AccumulateEntry | crescent_library/dynamic_matrix.h:1428-1439 | the k loop adds the dot product of row i and column j to entry (i, j) and touches nothing else |
| DynamicMatrix.MatrixTrace | crescent_library/dynamic_matrix.h:1450-1456 | InvalidArgument unless square, otherwise the trace |
| DynamicMatrix.MakeIdentity | crescent_library/dynamic_matrix.h:1314-1323 | LogicError unless r == c, otherwise the identity |
| DynamicMatrix.IdentityRow | crescent_library/dynamic_matrix.h:1318-1321 | one pass of the row loop extends the identity's row-major prefix by a whole row |
| MathematicalDynamicMatrix.MathematicalDynamicMatrix.constructor | crescent_library/mathematical_dynamic_matrix.h:25-27 | the default matrix is 0 by 0 |
| MathematicalDynamicMatrix.MathematicalDynamicMatrix.Filled | crescent_library/mathematical_dynamic_matrix.h:28-31 | r by c, every entry val |
| MathematicalDynamicMatrix.MathematicalDynamicMatrix.FromRows | crescent_library/mathematical_dynamic_matrix.h:41-42 | the grid is exactly the list of rows |
| MathematicalDynamicMatrix.MathematicalDynamicMatrix.Copy | crescent_library/mathematical_dynamic_matrix.h:34-35 | the copy holds the same matrix |
| MathematicalDynamicMatrix.MathematicalDynamicMatrix.Wrap | crescent_library/mathematical_dynamic_matrix.h:34-35 | the wrapper holds exactly the given matrix |
| MathematicalDynamicMatrix.MathematicalDynamicMatrix.At | crescent_library/mathematical_dynamic_matrix.h:68-69 | OutOfRange exactly when i >= rows or j >= cols, otherwise entry (i, j) |
| MathematicalDynamicMatrix.ReadBlockEntry | crescent_library/mathematical_dynamic_matrix.h:128 | entry (i, j) of what other.mtx(i, j) reads is other's flat element i * other.cols + j, inside other's elements |
| MathematicalDynamicMatrix.ReadBlockTopLeft | crescent_library/mathematical_dynamic_matrix.h:128 | when other has at least as many rows and columns, the reads are other's top-left corner |
| MathematicalDynamicMatrix.ReadBlockWhole | crescent_library/mathematical_dynamic_matrix.h:128 | with other's own dimensions the reads are other itself |
| MathematicalDynamicMatrix.CombineRow | crescent_library/mathematical_dynamic_matrix.h:127-128 | one row of the += / -= pass gives that row its combined values and leaves the rest as they were |
| MathematicalDynamicMatrix.MathematicalDynamicMatrix.AddAssign | crescent_library/mathematical_dynamic_matrix.h:125-131 | the matrix becomes itself plus the rows x cols elements other.mtx(i, j) reads; with equal shapes, the sum of the two |
| MathematicalDynamicMatrix.MathematicalDynamicMatrix.SubAssign | crescent_library/mathematical_dynamic_matrix.h:132-138 | the matrix becomes itself minus the rows x cols elements other.mtx(i, j) reads; with equal shapes, the difference of the two |
| MathematicalDynamicMatrix.MathematicalDynamicMatrix.ScaleAssign | crescent_library/mathematical_dynamic_matrix.h:148-151 | every entry is multiplied by the scalar |
| MathematicalDynamicMatrix.MathematicalDynamicMatrix.Scaled | crescent_library/mathematical_dynamic_matrix.h:152-155 | a new matrix holding the scaled entries |
| MathematicalDynamicMatrix.MathematicalDynamicMatrix.Plus | crescent_library/mathematical_dynamic_matrix.h:139-141 | InvalidArgument exactly when the shapes differ, otherwise a new matrix holding the sum |
| MathematicalDynamicMatrix.MathematicalDynamicMatrix.Minus | crescent_library/mathematical_dynamic_matrix.h:142-144 | InvalidArgument exactly when the shapes differ, otherwise a new matrix holding the difference |
| MathematicalDynamicMatrix.MathematicalDynamicMatrix.Times | crescent_library/mathematical_dynamic_matrix.h:145-147 | InvalidArgument exactly when lhs.cols != rhs.rows, otherwise a new matrix holding the product |
| MathematicalDynamicMatrix.MathematicalDynamicMatrix.Trace | crescent_library/mathematical_dynamic_matrix.h:121 | InvalidArgument unless square, otherwise the trace |
| MathematicalDynamicMatrix.MathematicalDynamicMatrix.Equals | crescent_library/mathematical_dynamic_matrix.h:123 | true exactly when the two matrices are equal |
| MathematicalDynamicMatrix.MathematicalDynamicMatrix.Swap | crescent_library/mathematical_dynamic_matrix.h:116 | the two matrices exchange contents and dimensions |
| MathematicalDynamicMatrix.MakeIdentityMatrix | crescent_library/mathematical_dynamic_matrix.h:285-293 | LogicError unless r == c, otherwise the identity |
| FixedMatrix.FixedMatrix.Value | crescent_library/fixed_matrix.h:44-52 | the buffer holds rows * cols elements in row-major order |
| FixedMatrix.FixedMatrix.constructor | crescent_library/fixed_matrix.h:44 | a fresh buffer of r * c zeros |
| FixedMatrix.FixedMatrix.Filled | crescent_library/fixed_matrix.h:45 | a fresh buffer of r * c copies of val |
| FixedMatrix.FixedMatrix.FromArray | crescent_library/fixed_matrix.h:46-51 | the matrix of the r-by-c top-left block of the array |
| FixedMatrix.CopyArrayRow | crescent_library/fixed_matrix.h:47-49 | one pass of the row loop extends the copied row-major prefix of the top-left block by a whole row |
| FixedMatrix.FixedMatrix.Copy | crescent_library/fixed_matrix.h:52 | a fresh buffer holding the same matrix |
| FixedMatrix.FixedMatrix.At | crescent_library/fixed_matrix.h:86-95 | OutOfRange exactly when i >= rows or j >= cols, otherwise entry (i, j) |
| FixedMatrix.FixedMatrix.Fill | crescent_library/fixed_matrix.h:150-152 | every element becomes val |
| FixedMatrix.FixedMatrix.Swap | crescent_library/fixed_matrix.h:153-155 | the two buffers exchange contents |
| FixedMatrix.FixedMatrix.Trace | crescent_library/fixed_matrix.h:172-179 | LogicError unless square, otherwise the trace |
| FixedMatrix.FixedMatrix.AddAssign | crescent_library/fixed_matrix.h:183-189 | the matrix becomes the sum of itself and other |
| FixedMatrix.FixedMatrix.SubAssign | crescent_library/fixed_matrix.h:190-196 | the matrix becomes the difference of itself and other |
| FixedMatrix.FixedMatrix.Plus | crescent_library/fixed_matrix.h:197-204 | a fresh matrix holding the sum |
| FixedMatrix.FixedMatrix.Minus | crescent_library/fixed_matrix.h:205-212 | a fresh matrix holding the difference |
| FixedMatrix.FixedMatrix.Times | crescent_library/fixed_matrix.h:216-225 | OutOfRange exactly when the loop reaches past the rhs buffer (cols > other.rows with a non-empty result), otherwise the product |
| FixedMatrix.FixedMatrix.Equals | crescent_library/fixed_matrix.h:226-234 | true exactly when the two matrices are equal |
| ContainerFixedMatrix.SubmatrixOf | crescent_library/container/fixed_matrix.h:502-517 | the result has one row and one column fewer |
| ContainerFixedMatrix.SubmatrixEntries | crescent_library/container/fixed_matrix.h:502-517 | entry (i, j) of the submatrix is the original entry after skipping row r and column c |
| ContainerFixedMatrix.SubmatrixIsMinor | crescent_library/container/fixed_matrix.h:502-517 | the submatrix is the minor at (r, c), with r and c clamped to the last row and column |
| ContainerFixedMatrix.SubmatrixElement | crescent_library/container/fixed_matrix.h:502-517 | the flat copy loop reads the skipped-index element for each destination element |
| ContainerFixedMatrix.FixedMatrix.Value | crescent_library/container/fixed_matrix.h:92 | the buffer holds rows * cols elements in row-major order |
| ContainerFixedMatrix.FixedMatrix.constructor | crescent_library/container/fixed_matrix.h:92 | a fresh buffer of r * c zeros |
| ContainerFixedMatrix.FixedMatrix.OfElements | crescent_library/container/fixed_matrix.h:92 | a fresh buffer holding exactly the given elements |
| ContainerFixedMatrix.FixedMatrix.OfRows | crescent_library/container/fixed_matrix.h:136-144 | a fresh buffer holding the rows in row-major order |
| ContainerFixedMatrix.FixedMatrix.FromList | crescent_library/container/fixed_matrix.h:136-144 | InvalidArgument exactly when the list does not have r rows or its first row does not have c elements; otherwise the rows in row-major order |
| ContainerFixedMatrix.FixedMatrix.At | crescent_library/container/fixed_matrix.h:229-250 | OutOfRange exactly when i >= rows or j >= cols, otherwise entry (i, j) |
| ContainerFixedMatrix.FixedMatrix.Fill | crescent_library/container/fixed_matrix.h:471 | every element becomes val |
| ContainerFixedMatrix.FixedMatrix.Swap | crescent_library/container/fixed_matrix.h:480 | the two buffers exchange contents |
| ContainerFixedMatrix.FixedMatrix.Submatrix | crescent_library/container/fixed_matrix.h:502-517 | a fresh matrix equal to SubmatrixOf, which is the minor |
| ContainerFixedMatrix.FixedMatrix.CopyMinorRow | crescent_library/container/fixed_matrix.h:506-514 | one pass of the row loop fills row i of the minor and leaves the earlier rows alone; row_erased is 1 from row r on |
| ContainerFixedMatrix.FixedMatrix.Equals | crescent_library/container/fixed_matrix.h:528-532 | true exactly when the two matrices are equal |
| ContainerFixedMatrix.MatrixSum | crescent_library/container/fixed_matrix.h:617-622 | a fresh matrix holding the sum |
| ContainerFixedMatrix.MatrixDifference | crescent_library/container/fixed_matrix.h:626-631 | as written, the result is the SUM of the operands (see Findings) |
| ContainerFixedMatrix.DifferenceAsWrittenAgrees | crescent_library/container/fixed_matrix.h:626-631 | the as-written result equals the true difference exactly when rhs is all zeros |
| ContainerFixedMatrix.DifferenceAsWrittenCounterexample | crescent_library/container/fixed_matrix.h:629 | [1] - [1] as written gives [2], not [0] |
| ContainerFixedMatrix.CorrectedMatrixDifference | crescent_library/container/fixed_matrix.h:626-631 | with `-` at line 629, a fresh matrix holding the difference |
| ContainerFixedMatrix.DotAsWrittenFactors | crescent_library/container/fixed_matrix.h:640 | the as-written inner loop computes lhs(i, j) times the sum of column j of rhs |
| ContainerFixedMatrix.ProductAsWritten | crescent_library/container/fixed_matrix.h:635-644 | entry (i, j) of the as-written product is that factored sum, and 0 when lhs has no columns |
| ContainerFixedMatrix.ProductAsWrittenCounterexample | crescent_library/container/fixed_matrix.h:640 | I2 times [[1,2],[3,4]] as written differs from [[1,2],[3,4]] |
| ContainerFixedMatrix.AccumulateAsWritten | crescent_library/container/fixed_matrix.h:635-644 | the as-written k loop adds the factored sum to entry (i, j) and touches nothing else |
| ContainerFixedMatrix.RowAsWritten | crescent_library/container/fixed_matrix.h:635-644 | the as-written j loop fills row i of the as-written product |
| ContainerFixedMatrix.MatrixProduct | crescent_library/container/fixed_matrix.h:635-644 | for every shape whose unchecked reads stay inside both buffers, including shapes that read nothing, matrix_product as written computes ProductAsWritten |
| ContainerFixedMatrix.CorrectedMatrixProduct | crescent_library/container/fixed_matrix.h:635-644 | with lhs(i, k) at line 640, a fresh matrix holding the true product |
| ContainerFixedMatrix.MatrixTrace | crescent_library/container/fixed_matrix.h:647-652 | the sum of the diagonal of a square matrix |
| DynamicR3Tensor.OffsetInRange | crescent_library/dynamic_r3_tensor.h:167-176 | the row-major offset of an in-range index lies inside the rows * cols * slices buffer |
| DynamicR3Tensor.OffsetInjective | crescent_library/dynamic_r3_tensor.h:167-176 | distinct in-range indices have distinct row-major offsets |
| DynamicR3Tensor.OffsetAsWrittenSquare | crescent_library/dynamic_r3_tensor.h:170 | when rows == cols, the as-written offset is the row-major offset with i and j exchanged |
| DynamicR3Tensor.AtAsWritten | crescent_library/dynamic_r3_tensor.h:167-176 | OutOfRange exactly when an index is out of range or the as-written offset is past the buffer; otherwise the element at that offset |
| DynamicR3Tensor.AtAsWrittenEscapes | crescent_library/dynamic_r3_tensor.h:170 | on a 1x3x1 tensor the valid index (0, 2, 0) throws out_of_range |
| DynamicR3Tensor.AtAsWrittenAliases | crescent_library/dynamic_r3_tensor.h:170 | on a 3x2x1 tensor (2, 0, 0) and (0, 1, 0) read the same element |
| DynamicR3Tensor.AtAsWrittenSquareInRange | crescent_library/dynamic_r3_tensor.h:170 | when rows == cols every valid index succeeds |
| DynamicR3Tensor.AtAsWrittenSingleColumn | crescent_library/dynamic_r3_tensor.h:170 | with one column, at as written agrees with the row-major accessor on every index, so the defect needs cols >= 2 and rows != cols |
| DynamicR3Tensor.CorrectedAt | crescent_library/dynamic_r3_tensor.h:167-176 | OutOfRange exactly when an index is out of range; otherwise the element at the row-major offset |
| DynamicR3Tensor.DynamicR3Tensor.constructor | crescent_library/dynamic_r3_tensor.h:109-111 | the default tensor is empty and 0x0x0 |
| DynamicR3Tensor.DynamicR3Tensor.Sized | crescent_library/dynamic_r3_tensor.h:112-113 | r by c by s, every element 0 |
| DynamicR3Tensor.DynamicR3Tensor.Filled | crescent_library/dynamic_r3_tensor.h:114-115 | r by c by s, every element val |
| DynamicR3Tensor.DynamicR3Tensor.Copy | crescent_library/dynamic_r3_tensor.h:116-117 | the same elements and dimensions |
| DynamicR3Tensor.DynamicR3Tensor.At | crescent_library/dynamic_r3_tensor.h:167-176 | at(i, j, k) as written (see Findings) |
| DynamicR3Tensor.DynamicR3Tensor.Clear | crescent_library/dynamic_r3_tensor.h:243-248 | the tensor becomes empty and 0x0x0 |
| DynamicR3Tensor.DynamicR3Tensor.Fill | crescent_library/dynamic_r3_tensor.h:249-251 | same dimensions, every element val |
| DynamicR3Tensor.DynamicR3Tensor.Swap | crescent_library/dynamic_r3_tensor.h:252-257 | the two tensors exchange elements and dimensions |
| DynamicArray.GrownCapacity | crescent_library/dynamic_array.h:364-371 | push_back on a full array grows the capacity strictly, to at least double |
| DynamicArray.Inserted | crescent_library/dynamic_array.h:324-333 | v is at pos, the earlier elements stay, and the later ones shift right by one |
| DynamicArray.Erased | crescent_library/dynamic_array.h:315-323 | the earlier elements stay and the later ones shift left by one |
| DynamicArray.ErasedInserted | crescent_library/dynamic_array.h:315-333 | erase(pos) undoes insert(pos, v) |
| DynamicArray.InsertedErased | crescent_library/dynamic_array.h:315-333 | inserting the erased element back at pos restores the array |
| DynamicArray.InsertedMultiset | crescent_library/dynamic_array.h:324-333 | insert adds exactly one copy of v |
| DynamicArray.InsertedCopies | crescent_library/dynamic_array.h:344-350 | count copies of v appear at pos, with the prefix kept and the suffix shifted |
| DynamicArray.InsertedCopiesStep | crescent_library/dynamic_array.h:344-350 | one more insert at pos gives one more copy |
| DynamicArray.Reversed | crescent_library/dynamic_array.h:351-357 | the elements in the opposite order |
| DynamicArray.InsertedEachReverses | crescent_library/dynamic_array.h:351-357 | inserting each item at the same pos builds the items in reverse |
| DynamicArray.InsertedInOrder | crescent_library/dynamic_array.h:351-357 | inserting item k at pos + k builds the items in order |
| DynamicArray.InsertRangeAsWrittenReverses | crescent_library/dynamic_array.h:351-357 | after reserve(2), inserting [1, 2] into an empty array yields [2, 1] |
| DynamicArray.Resized | crescent_library/dynamic_array.h:403-417 | count elements: the prefix is kept and any new slots hold v |
| DynamicArray.ResizedBack | crescent_library/dynamic_array.h:403-417 | growing and then resizing back restores the array |
| DynamicArray.ResizedIdempotent | crescent_library/dynamic_array.h:403-417 | resizing twice to the same count is resizing once |
| DynamicArray.DynamicArray.Elements | crescent_library/dynamic_array.h:253 | the first size() slots of the buffer |
| DynamicArray.DynamicArray.constructor | crescent_library/dynamic_array.h:176-179 | empty, with capacity 0 |
| DynamicArray.DynamicArray.Sized | crescent_library/dynamic_array.h:185-188 | count zeros, with capacity count |
| DynamicArray.DynamicArray.Filled | crescent_library/dynamic_array.h:195-199 | count copies of val, with capacity count |
| DynamicArray.DynamicArray.OfList | crescent_library/dynamic_array.h:220-224 | exactly the list, with capacity equal to its length |
| DynamicArray.DynamicArray.Copy | crescent_library/dynamic_array.h:206-210 | the same elements and the same capacity, in a fresh buffer |
| DynamicArray.DynamicArray.EmptyAsWritten | crescent_library/dynamic_array.h:247 | as written, empty() is true exactly when the array is NOT empty |
| DynamicArray.DynamicArray.IsEmpty | crescent_library/dynamic_array.h:247 | true exactly when there are no elements |
| DynamicArray.DynamicArray.EmptyAsWrittenInverted | crescent_library/dynamic_array.h:247 | the as-written empty() is always the negation of the intended one |
| DynamicArray.DynamicArray.At | crescent_library/dynamic_array.h:289-302 | OutOfRange exactly when n >= size(), otherwise element n |
| DynamicArray.DynamicArray.Fill | crescent_library/dynamic_array.h:503-506 | every element becomes val |
| DynamicArray.DynamicArray.Reallocate | crescent_library/dynamic_array.h:481-490 | a fresh buffer of the new capacity holding the same elements |
| DynamicArray.DynamicArray.Reserve | crescent_library/dynamic_array.h:267 | the elements are unchanged and the capacity becomes the larger of the old one and the request |
| DynamicArray.DynamicArray.PushBack | crescent_library/dynamic_array.h:364-371 | v is appended; the buffer is reallocated to the grown capacity exactly when the array was full |
| DynamicArray.DynamicArray.PopBack | crescent_library/dynamic_array.h:390-393 | the last element is removed and the buffer is kept |
| DynamicArray.DynamicArray.Clear | crescent_library/dynamic_array.h:309-314 | no elements, same buffer |
| DynamicArray.DynamicArray.Erase | crescent_library/dynamic_array.h:315-323 | the element at pos is removed by shifting; erasing at end() drops the last element |
| DynamicArray.DynamicArray.Insert | crescent_library/dynamic_array.h:324-333 | v is inserted at pos, with growth as in push_back |
| DynamicArray.DynamicArray.InsertCount | crescent_library/dynamic_array.h:344-350 | count copies of v are inserted at pos |
| DynamicArray.DynamicArray.InsertRangeAsWritten | crescent_library/dynamic_array.h:351-357 | as written, the range is inserted at pos in REVERSE order (see Findings) |
| DynamicArray.DynamicArray.InsertRange | crescent_library/dynamic_array.h:351-357 | the range is inserted at pos in order |
| DynamicArray.DynamicArray.ResizeFilled | crescent_library/dynamic_array.h:429-443 | count elements, the new ones val; capacity grows to count only when the array grows |
| DynamicArray.DynamicArray.Resize | crescent_library/dynamic_array.h:403-417 | count elements, the new ones 0 |
| DynamicArray.DynamicArray.Swap | crescent_library/dynamic_array.h:449-453 | the two arrays exchange buffers and sizes |
| AlgorithmUtilities.InsertTag | crescent_library/algorithm_utilities.h:21-31 | inserting a tag keeps the tags ordered by the values they index, adding exactly that tag |
| AlgorithmUtilities.SortTags | crescent_library/algorithm_utilities.h:21-31 | the tags, ordered by the values they index |
| AlgorithmUtilities.Indices | crescent_library/algorithm_utilities.h:21-31 | std::iota: n tags |
| AlgorithmUtilities.IndicesMultiset | crescent_library/algorithm_utilities.h:21-31 | std::iota produces each index below n exactly once |
| AlgorithmUtilities.TagSort | crescent_library/algorithm_utilities.h:21-31 | a permutation of 0..n-1 ordered by the values it indexes |
| AlgorithmUtilities.TagSortPermutes | crescent_library/algorithm_utilities.h:21-31 | every index appears exactly once, and consecutive tags index non-decreasing values |
| AlgorithmUtilities.FindAll | crescent_library/algorithm_utilities.h:72-78 | exactly the indices holding value |
| AlgorithmUtilities.FindAllIf | crescent_library/algorithm_utilities.h:89-95 | exactly the indices satisfying p |
| AlgorithmUtilities.FindAllIfNot | crescent_library/algorithm_utilities.h:106-112 | exactly the indices not satisfying q |
| AlgorithmUtilities.FindAllIfPartitions | crescent_library/algorithm_utilities.h:89-112 | find_all_if and find_all_if_not with the same predicate split the indices into two disjoint sets |
| AlgorithmUtilities.FindAndReplaceAll | crescent_library/algorithm_utilities.h:123-129 | every copy of from becomes to and the rest stays; the count is the number of copies of from |
| AlgorithmUtilities.FindAndReplaceAllIf | crescent_library/algorithm_utilities.h:141-147 | every element satisfying p becomes value; the count is the number of matches |
| AlgorithmUtilities.FindAndReplaceAllIfNot | crescent_library/algorithm_utilities.h:159-165 | every element not satisfying q becomes value; the count is the number of such elements |
| AlgorithmUtilities.ReplaceCountMatchesFind | crescent_library/algorithm_utilities.h:141-147 | the replace count equals the number of positions find_all_if reports, and afterwards none remain when value does not satisfy p |
| AlgorithmUtilities.IotaOpp | crescent_library/algorithm_utilities.h:175-180 | element k becomes value - k |
| AlgorithmUtilities.Histogram | crescent_library/algorithm_utilities.h:205-211 | the keys are exactly the distinct elements, each mapped to its number of occurrences |
| AlgorithmUtilities.Distinct | crescent_library/algorithm_utilities.h:205-211 | the distinct elements, each once |
| AlgorithmUtilities.HistogramTotal | crescent_library/algorithm_utilities.h:205-211 | the counts add up to the number of elements |
| AlgorithmUtilities.ConstructHistogram | crescent_library/algorithm_utilities.h:238-244 | the counting loop builds Histogram |
| StringUtilities.ToUpperChar | crescent_library/string_utilities.h:174-178 | a lower-case letter becomes its capital, anything else stays, and the result is never lower case |
| StringUtilities.ToLowerChar | crescent_library/string_utilities.h:185-189 | a capital becomes its lower-case letter, anything else stays, and the result is never a capital |
| StringUtilities.CaseRoundTrip | crescent_library/string_utilities.h:174-189 | to_lower undoes to_upper on non-capitals, and the other way round |
| StringUtilities.Split | crescent_library/string_utilities.h:18-25 | no piece contains the delimiter; joining the pieces gives back s, less one trailing delimiter; "" gives no piece |
| StringUtilities.Prepend | crescent_library/string_utilities.h:145-147 | pr followed by the old s |
| StringUtilities.StartsWith | crescent_library/string_utilities.h:155-157 | true exactly when the first character is c |
| StringUtilities.EndsWith | crescent_library/string_utilities.h:165-167 | true exactly when the last character is c |
| StringUtilities.PrependEnds | crescent_library/string_utilities.h:145-167 | after prepend the string starts with pr's first character and ends as before |
| StringUtilities.ToUpper | crescent_library/string_utilities.h:174-178 | every character is upper-cased in place |
| StringUtilities.ToLower | crescent_library/string_utilities.h:185-189 | every character is lower-cased in place |
| StringUtilities.RemoveWhitespace | crescent_library/string_utilities.h:196-200 | no space is left, and exactly the spaces are removed |
| StringUtilities.RemoveWhitespaceKeeps | crescent_library/string_utilities.h:196-200 | every non-space character is kept as often as it occurred, in order, and a second call changes nothing |
| StringUtilities.TrimSet | crescent_library/string_utilities.h:208-212 | no character of the set is left, and every other character keeps its multiplicity |
| StringUtilities.TrimString | crescent_library/string_utilities.h:216-219 | no character of the source string is left |
| StringUtilities.RemoveWhereSame | crescent_library/string_utilities.h:208-219 | two removal predicates that agree on every character give the same string |
| StringUtilities.TrimStringIsTrimSet | crescent_library/string_utilities.h:216-219 | trimming by a string is trimming by the set of its characters |
| StringUtilities.RemoveVowels | crescent_library/string_utilities.h:226-229 | no vowel is left, and every other character keeps its multiplicity |
| StringUtilities.TrimLeading | crescent_library/string_utilities.h:236-250 | the longest all-space prefix is removed, and the rest starts with a non-space |
| StringUtilities.TrimTrailing | crescent_library/string_utilities.h:257-273 | the longest all-space suffix is removed, and the rest ends with a non-space |
| StringUtilities.TrimIdempotent | crescent_library/string_utilities.h:236-273 | removing leading or trailing spaces a second time removes nothing |
| StringUtilities.RemoveLeadingWhitespaces | crescent_library/string_utilities.h:236-250 | the erase loop computes TrimLeading |
| StringUtilities.RemoveTrailingWhitespaces | crescent_library/string_utilities.h:257-273 | the erase loop computes TrimTrailing |

## Left out

- Element types and comparators are fixed: elements are `int` and the comparator is
  `std::less<int>`. Allocators, move constructors, move assignment and copy assignment
  are not modelled; the copying constructors stand for them.
- Iterators are modelled as indices. The invalidation of iterators by a reallocation is
  not modelled: `insert(pos, count, v)` and range insert reuse `pos` after push_back may
  have reallocated, and the model treats `pos` as an index throughout.
- Uninitialised storage from `new T[n]` is modelled as zeros.
- priority_queue `write_ordered` cannot be instantiated as written. Line 283 declares
  `priority_queue<value_type, _Pr> tmp(*this)`, which passes the comparator where the
  container type goes (template parameters at lines 42-45). The member typedef
  `typename _Cntr::const_iterator` (line 55) then names a type `std::less` does not
  have, and no constructor takes a queue of the original type. Heap.Drain models what
  the member evidently intends: dequeue a copy until it is empty and collect each top.
  The stream and the delimiter are not modelled.
- priority_queue `emplace` and unstable_priority_queue `emplace` are not modelled
  separately; they construct in place what `enqueue` pushes.
- UnstablePriorityQueue.UnstablePriorityQueue.SetTop: the mutable reference returned by
  `top()` is modelled as a write of a new value at index 0.
- PriorityQueue.PriorityQueue.EraseValue: requires the value to be present, because
  erasing the `cend()` that `find` returns when it is absent is undefined behaviour.
- PriorityQueue.PriorityQueue.EraseAt: promises no heap validity, because the source
  does not keep it (see Findings).
- The range `tag_sort` overload (algorithm_utilities.h:40-48) is not modelled. It never
  looks at the tags it compares: its comparator `*first < *(++first)` ignores both
  arguments and advances the captured iterator on every call. That is not a strict weak
  ordering, so `std::sort` is undefined behaviour and there is no result to model.
- AlgorithmUtilities.TagSort: `std::sort` is not stable, so the source leaves the order
  of tags with equal values unspecified. The model fixes one such order; the proved
  contract constrains only what the source guarantees.
- `random_element` is not modelled, because it draws from a random engine.
- AlgorithmUtilities.ConstructHistogram models both the `std::map` and the
  `std::unordered_map` histograms as one map-valued result; the iteration order of the
  map is not modelled.
- AlgorithmUtilities.IotaOpp: `value - k` is computed over unbounded integers, so the
  wrap-around of an unsigned value type is not modelled.
- The `split_sto*` family of string_utilities.h is not modelled. It converts pieces
  with `std::stoi` and its relatives, which depend on locale and number parsing.
- StringUtilities.ToUpperChar: `isspace`, `toupper` and `tolower` are modelled for the
  C locale over ASCII only.
- The `MathematicalDynamicMatrix` forwarders to the underlying dynamic matrix that only
  read or reshape (rows, columns, insert, erase, resize) are not modelled separately.
  Their behaviour is DynamicMatrix's, and `Wrap` exposes the wrapped matrix.
- fixed_matrix.h `submatrix`, its assignment operators and its `make_identity_matrix`
  are left out, because as written they cannot be instantiated. `submatrix` loops over
  `rows_` and `cols_`, which are not members. The assignment operators return the
  `void` result of `swap`. `make_identity_matrix` (line 250) declares a function instead
  of a matrix variable. `to_fixed_matrix` only forwards to the constructor that
  FixedMatrix.FixedMatrix.FromArray models.
- container/fixed_matrix.h `make_identity_matrix` is left out: line 579 declares a
  function instead of a matrix variable, so it does not build a matrix.
- DynamicR3Tensor: the stream output and the proxy objects behind `operator[]` are not
  modelled; `at` is the element access.
- ContainerFixedMatrix.FixedMatrix.FromList: requires a non-empty list when r == 0, and
  rows of length c when the dimensions match. When r == 0 the source reads the first row
  of an empty list, because its size test passes. Any row of another length is undefined
  behaviour, as the header warns: a longer row is copied past its slot, and a shorter one
  leaves elements indeterminate. When r > 0 an empty list throws invalid_argument, which
  the model keeps.
- ContainerFixedMatrix.MatrixProduct: requires every unchecked read to stay inside both
  buffers. When lhs has rows and columns and rhs has columns, that means
  lhs.cols <= rhs.rows and rhs.cols <= lhs.cols; otherwise the source reads out of
  bounds, which is undefined behaviour. Shapes where lhs.rows, lhs.cols or rhs.cols is 0
  read nothing, and are allowed: for example, a 1x0 lhs times a 0x1 rhs gives [[0]].
- ContainerFixedMatrix.FixedMatrix.Submatrix: requires at least one row and one column,
  because `rows - 1` underflows otherwise.
- DynamicArray.DynamicArray.PopBack: requires a non-empty array, because pop_back on an
  empty array underflows the size.
- DynamicArray.DynamicArray.Erase: requires a non-empty array for the same reason.
- DynamicMatrix.DynamicMatrix.FromRows: requires a non-empty list of rows that all have
  the first row's length. The source reads the first row of an empty list, which is
  undefined behaviour. With ragged rows it stores a flat vector whose length is not
  rows * columns, which breaks the class invariant.
- MathematicalDynamicMatrix.MathematicalDynamicMatrix.FromRows: the same requirement,
  because it forwards to the dynamic_matrix constructor.
- DynamicMatrix.DynamicMatrix.PopRow: requires at least one row. On an empty matrix the
  source calls pop_back on an empty vector when columns() > 0, which is undefined
  behaviour. With no columns it wraps rows_ around to the largest size_type.
- StringUtilities.StartsWith: requires a non-empty string, because the source
  dereferences cbegin() of an empty string, which is undefined behaviour.
- StringUtilities.EndsWith: requires a non-empty string, because the source
  dereferences --cend() of an empty string, which is undefined behaviour.
- MathematicalDynamicMatrix.MathematicalDynamicMatrix.Plus: as written, `operator+`,
  `operator-` and `operator*` return a dynamic_matrix where a mathematical_dynamic_matrix
  is expected, and the class has no constructor converting one. The model follows the
  evident meaning: it wraps the dynamic_matrix that matrix_sum, matrix_difference and
  matrix_product compute.
- MathematicalDynamicMatrix.MathematicalDynamicMatrix.Minus: the same conversion is
  missing; the model wraps what matrix_difference computes.
- MathematicalDynamicMatrix.MathematicalDynamicMatrix.Times: the same conversion is
  missing; the model wraps what matrix_product computes.
- MathematicalDynamicMatrix.MakeIdentityMatrix: as written it indexes the result with
  `operator[]`, which mathematical_dynamic_matrix does not declare. The model builds the
  identity as dynamic_matrix's make_identity_matrix does.
- Exception safety under a throwing element copy is not modelled; `int` copies do not
  throw.

## Findings

| source | as written | input that shows it | evidently intended | confidence | as-written member | corrected member |
|---|---|---|---|---|---|---|
| crescent_library/priority_queue.h:527-530 | erase(pos) shifts the vector and bubbles down once from pos, which leaves the shifted elements out of heap order | the valid heap [10,5,9,4,3,8,7] with pos 1 gives [10,9,4,3,8,7], where 4 is the parent of 7 | the heap stays valid, as the class invariant promises | not executed | Heap.EraseAtShiftBreaksHeap | Heap.EraseAtRepaired |
| crescent_library/container/fixed_matrix.h:629 | matrix_difference adds the operands | [1] - [1] gives [2] | lhs - rhs | not executed | ContainerFixedMatrix.DifferenceAsWrittenCounterexample | ContainerFixedMatrix.CorrectedMatrixDifference |
| crescent_library/container/fixed_matrix.h:640 | the inner product reads lhs(i, j) instead of lhs(i, k) | I2 times [[1,2],[3,4]] does not give [[1,2],[3,4]] | the sum over k of lhs(i, k) * rhs(k, j) | not executed | ContainerFixedMatrix.ProductAsWrittenCounterexample | ContainerFixedMatrix.CorrectedMatrixProduct |
| crescent_library/dynamic_array.h:247 | empty() returns the size converted to bool | a one-element array reports empty() == true | true exactly when size() == 0 | not executed | DynamicArray.DynamicArray.EmptyAsWrittenInverted | DynamicArray.DynamicArray.IsEmpty |
| crescent_library/dynamic_array.h:351-357 | range insert inserts every item at the same pos, so the range ends up reversed | after reserve(2), inserting [1, 2] into an empty array gives [2, 1] (without the reserve the first insert reallocates and pos dangles) | the range inserted in order, as std::vector::insert does | not executed | DynamicArray.InsertRangeAsWrittenReverses | DynamicArray.DynamicArray.InsertRange |
| crescent_library/dynamic_r3_tensor.h:170 | at(i, j, k) uses offset (k * rows + j) * cols + i, which is in range and injective only when rows == cols or cols <= 1 | on a 1x3x1 tensor at(0, 2, 0) throws; on a 3x2x1 tensor (2, 0, 0) and (0, 1, 0) read the same element | a row-major offset (k * rows + i) * cols + j that is in range and injective | not executed | DynamicR3Tensor.AtAsWrittenEscapes | DynamicR3Tensor.CorrectedAt |
