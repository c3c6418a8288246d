# Containers and hybrid sort of the p1-quicksort lab, in Dafny

This project models the three headers of the lab library (`Labs/src`):

- `sort.h`: `sortSlow`, an insertion sort made of adjacent swaps; `anastasy_partition`, a
  middle-pivot partition; and `anastasy_sort`, which hands ranges shorter than eight to
  `sortSlow` and otherwise partitions, recurses on the smaller side and loops on the larger.
  Module `HybridSort` (`sort.dfy`) works in place on an `array<int>` ordered by `<`. Every
  method is tied to a function on sequences that takes the same steps. The properties
  (sorted, a permutation of the range, nothing outside the range moved) are lemmas about
  those functions.
- `Array.h`: a growable array with a positional cursor. Module `GrowableArray` (`array.dfy`)
  is a class with the buffer as an `array<int>`, the live count `size` and `capacity`; the
  ghost field `Contents` is the live prefix of the buffer. Module `ArrayDefects`
  (`array_defects.dfy`) replays the buffer operations exactly as written, on values, to show
  the defects listed under Findings.
- `List.h`: a doubly linked list with a cursor. Module `LinkedList` (`list.dfy`) has classes
  for the nodes, the list and the cursor. The ghost chain `Nodes` lists the nodes from head to
  tail and `Contents` their values. `Valid` ties both to the `prev`/`next` pointers.

Module `Sequences` (`sequences.dfy`) defines positional insertion and removal on sequences.
Both containers state their mutators in these terms.

The model carries both readings of each defective operation. `ArrayDefects`,
`HybridSort.SortAsWritten` and `LinkedList.List.Clear` follow the code as written.
`GrowableArray.Array.Reserve`, `Remove` and `WithCapacity`, `HybridSort.Sort` and
`LinkedList.List.ClearFixed` follow the intended behaviour. The source itself shows what
was intended:
- the commented-out `memcpy` in `reserve` (Array.h:187) copies the old cells index for index;
- the commented-out `memmove` in `remove` (Array.h:156-157) moves `size - index - 1` cells;
- `Array(capacity)` calls `reserve(mCapacity)` (Array.h:122-123) to allocate a buffer;
- `clear()` is a public member of the list (List.h:37) that callers may go on using after.

The rest of the model and the properties proved use the intended versions (see Findings).

## Model

| member | source | states |
|---|---|---|
| HybridSort.Swap | Labs/src/sort.h:12 | the two positions exchange their values and every other position keeps its value |
| HybridSort.SwapPermutes | Labs/src/sort.h:12 | a swap inside [lo, hi) is a permutation of that range that leaves the rest alone |
| HybridSort.SortSlow | Labs/src/sort.h:5-16 | the nested swap loops leave the array equal to the insertion-sort function of the old array (which `InsertionSortCorrect` shows sorts and only permutes [lo, hi)) |
| HybridSort.InsertionSortCorrect | Labs/src/sort.h:6-16 | insertion sort orders [lo, hi) and only permutes it |
| HybridSort.InnerPassSorts | Labs/src/sort.h:8-14 | one inner pass sinks the new element into a sorted prefix and leaves the prefix sorted |
| HybridSort.OuterPassSorts | Labs/src/sort.h:7-15 | the outer loop extends the sorted prefix until it covers [lo, hi) |
| HybridSort.PartitionLoopSplits | Labs/src/sort.h:23-29 | the scan leaves every element below the stop index smaller than the pivot value and every element from it on at least the pivot value, and touches nothing outside [first, last) |
| HybridSort.Partition | Labs/src/sort.h:18-32 | the partition loop leaves the array and the returned index equal to the partition function of the old array; the index lies in [lo, hi) |
| HybridSort.PartitionPermutes | Labs/src/sort.h:19-32 | partitioning only permutes [lo, hi) |
| HybridSort.PartitionSplits | Labs/src/sort.h:19-32 | the returned index holds the old pivot value, everything before it is smaller and everything after it in the range is at least as large |
| HybridSort.Sort | Labs/src/sort.h:34-56 | with the loop continuing on [first, pivot), the array afterwards is the sort function of the old array on [lo, hi) |
| HybridSort.HybridSortCorrect | Labs/src/sort.h:35-56 | the corrected sort orders [lo, hi) and is a permutation of it that leaves everything outside the range alone |
| HybridSort.SortedUnique | Labs/src/sort.h:35-56 | two sorted sequences with the same elements are equal, so the sorted order of a range is determined by its elements |
| HybridSort.HybridSortIdempotent | Labs/src/sort.h:35-56 | sorting a range that is already sorted leaves the whole sequence unchanged |
| HybridSort.HybridSortKeeps | Labs/src/sort.h:35-56 | sorting leaves everything outside [lo, hi) alone and keeps any upper or lower bound that held for the range |
| HybridSort.SortAsWritten | Labs/src/sort.h:34-56 | anastasy_sort as written (continuing on [first, pivot - 1)) leaves the array equal to the as-written sort function of the old array |
| HybridSort.HybridSortAsWrittenPermutes | Labs/src/sort.h:35-56 | even as written, the sort only permutes [lo, hi) |
| HybridSort.HybridSortAsWrittenSortsShort | Labs/src/sort.h:38-41 | as written, ranges shorter than eight are sorted correctly |
| HybridSort.AsWrittenCounterexample | Labs/src/sort.h:51-54 | on [3, 2, 1, 0, 4, 5, 6, 7] the sort as written leaves 0 at index 3 behind a larger element, so the result is not sorted; the corrected sort sorts it |
| Sequences.RemoveAfterInsert | Labs/src/Array.h:139-162 | removing at the index just inserted at gives back the original sequence |
| Sequences.InsertAfterRemove | Labs/src/Array.h:139-162 | putting a removed element back at its index gives back the original sequence |
| Sequences.InsertAtMultiset | Labs/src/Array.h:139-151 | insertion adds exactly one occurrence of the value and keeps all other elements |
| Sequences.RemoveAtMultiset | Labs/src/Array.h:153-162 | removal takes away exactly one occurrence of the removed element |
| Sequences.InsertAtEnds | Labs/src/List.h:174-210 | inserting at index 0 prepends and inserting at the end appends |
| Sequences.RemoveAtEnds | Labs/src/List.h:253-281 | removing at index 0 drops the first element and removing the last index drops the last |
| GrowableArray.Doubled | Labs/src/Array.h:183 | the doubling loop stops at a capacity that covers the request and is at least twice its start |
| GrowableArray.Grown | Labs/src/Array.h:180-183 | the capacity after reserve(n) covers n and never shrinks; when it grows, it at least doubles, and from 0 it becomes at least 4 |
| GrowableArray.DoubledIsFirstCover | Labs/src/Array.h:183 | the doubling stops at the first doubling or below twice the request |
| GrowableArray.GrownIsTight | Labs/src/Array.h:181-183 | growth is never more than one doubling past what was asked for |
| GrowableArray.GrownIdempotent | Labs/src/Array.h:180-181 | reserving again for a size already covered changes nothing |
| GrowableArray.Array.constructor | Labs/src/Array.h:115-118 | a new array is empty with capacity 0 |
| GrowableArray.Array.WithCapacity | Labs/src/Array.h:120-125 | the intended Array(capacity): empty, with a buffer of exactly that capacity |
| GrowableArray.Array.Reserve | Labs/src/Array.h:179-197 | the elements are unchanged and the capacity is the doubled capacity that covers n |
| GrowableArray.Array.Insert | Labs/src/Array.h:139-151 | the contents become the old contents with the value at index and later elements one place up; the capacity grows as reserve(size + 1) does |
| GrowableArray.Array.Append | Labs/src/Array.h:134-137 | the value is appended at the end |
| GrowableArray.Array.Remove | Labs/src/Array.h:153-162 | with the intended bound, the contents become the old contents without the element at index; the capacity is unchanged |
| GrowableArray.Array.At | Labs/src/Array.h:164-167 | returns the element at index |
| GrowableArray.Array.Set | Labs/src/Array.h:169-172 | writing through operator[] replaces exactly the element at index |
| GrowableArray.Array.Size | Labs/src/Array.h:174-177 | returns the number of live elements |
| GrowableArray.Array.Data | Labs/src/Array.h:199-207 | the buffer has capacity cells and begins with the live elements |
| GrowableArray.Array.Iterator | Labs/src/Array.h:209-212 | a fresh cursor on this array at position 0 |
| GrowableArray.ArrayIterator.constructor | Labs/src/Array.h:110-113 | the cursor starts at position 0 of its owner |
| GrowableArray.ArrayIterator.Get | Labs/src/Array.h:62-65 | returns the element at the cursor |
| GrowableArray.ArrayIterator.Set | Labs/src/Array.h:67-70 | replaces the element at the cursor; the owner keeps its footprint and capacity, so other cursors stay valid |
| GrowableArray.ArrayIterator.Insert | Labs/src/Array.h:72-75 | inserts at the cursor's index, so the cursor now designates the new element; the owner's footprint only gains fresh objects and its capacity grows as reserve does |
| GrowableArray.ArrayIterator.Remove | Labs/src/Array.h:77-80 | removes the element at the cursor, which then designates the element that followed; the owner keeps its footprint and capacity |
| GrowableArray.ArrayIterator.Next | Labs/src/Array.h:82-86 | moves one step forward; the new position must be inside the array |
| GrowableArray.ArrayIterator.Prev | Labs/src/Array.h:88-92 | moves one step back; the cursor must not be at position 0 |
| GrowableArray.ArrayIterator.ToIndex | Labs/src/Array.h:94-98 | jumps to a position inside the array |
| GrowableArray.ArrayIterator.HasNext | Labs/src/Array.h:100-103 | true exactly when a next position exists |
| GrowableArray.ArrayIterator.HasPrev | Labs/src/Array.h:105-108 | true exactly when the cursor is past position 0 |
| ArrayDefects.MigrateAsWritten | Labs/src/Array.h:186-192 | the copy loop as written fails exactly when the buffer is full and holds at least one element; otherwise new cell i gets old cell i + 1 |
| ArrayDefects.ReserveAsWritten | Labs/src/Array.h:179-197 | when reserve as written succeeds, the size is kept and the capacity is the same doubled capacity as intended |
| ArrayDefects.InsertAsWritten | Labs/src/Array.h:139-151 | when insert as written succeeds, the buffer is consistent and holds one element more |
| ArrayDefects.RemoveAsWritten | Labs/src/Array.h:153-162 | remove as written leaves the buffer exactly when size + 2 exceeds the capacity |
| ArrayDefects.ConstructAsWritten | Labs/src/Array.h:120-125 | Array(capacity) as written records the requested capacity but holds no cells (a null buffer) and no elements |
| ArrayDefects.RemoveAsWrittenLiveAgrees | Labs/src/Array.h:153-162 | when the buffer has room past size + 1, the removal as written leaves the right elements: only its bound is wrong |
| ArrayDefects.InsertAsWrittenLiveAgrees | Labs/src/Array.h:139-151 | when no growth is needed, the insertion as written leaves the right elements |
| ArrayDefects.InsertIntoFullAsWrittenFails | Labs/src/Array.h:186-190 | inserting into a full non-empty buffer makes reserve read past the end |
| ArrayDefects.FifthAppendAsWrittenFails | Labs/src/Array.h:186-190 | four appends fill a buffer of four, and the fifth append reads past its end |
| ArrayDefects.ReserveAsWrittenLosesFirst | Labs/src/Array.h:188-190 | reserve(5) as written on [1, 2] with capacity 4 loses the first element |
| ArrayDefects.RemoveAfterThreeAppendsAsWrittenFails | Labs/src/Array.h:158-159 | three appends then remove(0) read past the buffer of four |
| ArrayDefects.ConstructAsWrittenFirstInsertFails | Labs/src/Array.h:120-125 | after Array(n) with n > 0 as written, the first insert stores through the missing buffer |
| LinkedList.Node.constructor | Labs/src/List.h:159-162 | a node holds the given links and value |
| LinkedList.IndexOfUnique | Labs/src/List.h:230-233 | in a chain without repeats a node sits at exactly one position |
| LinkedList.DistinctInsert | Labs/src/List.h:213-228 | linking in a fresh node keeps the chain free of repeats |
| LinkedList.DistinctRemove | Labs/src/List.h:230-251 | unlinking a node keeps the chain free of repeats |
| LinkedList.Splice | Labs/src/List.h:220-223 | a fresh node is linked in between two neighbours, and no other link changes |
| LinkedList.List.constructor | Labs/src/List.h:164-167 | a new list is empty, with null head and tail |
| LinkedList.List.InsertHead | Labs/src/List.h:174-191 | the value is prepended on a fresh head node, which is also the tail when the list was empty |
| LinkedList.List.InsertTail | Labs/src/List.h:193-210 | the value is appended on a fresh tail node, which is also the head when the list was empty |
| LinkedList.List.Insert | Labs/src/List.h:213-228 | the value is inserted before the given node (at the head when the node is the head) and the returned node holds it |
| LinkedList.List.InsertBefore | Labs/src/List.h:219-227 | a fresh node is linked in before an inner node, and the chain and values gain it at that position |
| LinkedList.List.Remove | Labs/src/List.h:230-251 | the node and its value leave the chain at its position, whichever of the four cases applies |
| LinkedList.List.Unlink | Labs/src/List.h:240-250 | an inner node's neighbours are linked to each other and the node leaves the chain |
| LinkedList.List.RemoveHead | Labs/src/List.h:253-266 | the first element is dropped; when the list becomes empty the tail becomes null too |
| LinkedList.List.RemoveTail | Labs/src/List.h:268-281 | the last element is dropped; when the list becomes empty the head becomes null too |
| LinkedList.List.Head | Labs/src/List.h:283-286 | returns the first value |
| LinkedList.List.Tail | Labs/src/List.h:288-291 | returns the last value |
| LinkedList.List.Size | Labs/src/List.h:293-296 | returns the number of elements |
| LinkedList.List.Empty | Labs/src/List.h:298-301 | true exactly when the list holds no elements |
| LinkedList.List.Clear | Labs/src/List.h:303-310 | clear() as written walks the whole chain but changes no field, so the list still claims its old contents |
| LinkedList.List.ClearFixed | Labs/src/List.h:303-310 | clear() as intended: the list is left empty |
| LinkedList.List.Iterator | Labs/src/List.h:312-315 | a fresh cursor on the head node |
| LinkedList.ListIterator.constructor | Labs/src/List.h:154-157 | the cursor designates the given node of its owner |
| LinkedList.ListIterator.Get | Labs/src/List.h:112-115 | returns the value of the node under the cursor |
| LinkedList.ListIterator.Set | Labs/src/List.h:117-120 | replaces exactly the value at the cursor's position; the chain is unchanged |
| LinkedList.ListIterator.Insert | Labs/src/List.h:122-125 | inserts a fresh node before the cursor, at the same position in the chain of nodes as in the values, keeps every other node in the chain, and moves the cursor onto the new node |
| LinkedList.ListIterator.Remove | Labs/src/List.h:127-132 | removes the node under the cursor from the chain and from the values, keeps the owner's footprint, and moves to the very node that followed it, or to null after the last |
| LinkedList.ListIterator.Next | Labs/src/List.h:134-137 | moves to the following node, or to null after the last |
| LinkedList.ListIterator.Prev | Labs/src/List.h:139-142 | moves to the preceding node, or to null before the first |
| LinkedList.ListIterator.HasNext | Labs/src/List.h:144-147 | true exactly when the cursor is on a node |
| LinkedList.ListIterator.HasPrev | Labs/src/List.h:149-152 | true exactly when the cursor is on a node (the same test as hasNext) |

## Left out

- Genericity: the containers hold `int` and the sort orders `int` by `<` (the `std::less<int>` comparator of the sort tests). The element type and the comparator are not parameters.
- Memory management is not modelled: `delete`, the destructors and ownership of the buffer and the nodes. A node taken out of the list is simply no longer in the chain, and a freed array buffer is just replaced.
- The copy-assignment operators are deleted in the source and have no counterpart.
- The `const` overloads `operator[] const`, `data() const` and `List::iterator() const` behave like their non-const forms and are modelled once.
- `Array::iterator() const` (Array.h:214-217) is ill-formed: it passes a `const Array*` to the `Iterator(Array<T>*)` constructor and would not compile if instantiated, so it has no counterpart. `List::ConstIterator` (List.h:82-110) has the same traversal as `List::Iterator` and is covered by `ListIterator.Get`, `Next`, `Prev`, `HasNext` and `HasPrev`.
- Machine integers: `size_t` and `int` are unbounded here. The doubling `newCapacity <<= 1` cannot wrap around, and `size()` cannot truncate.
- GrowableArray.Array.Reserve: the new cells beyond the live elements are left unspecified, as `new T[]` leaves them; `ArrayDefects` models them as 0.
- GrowableArray.Array.constructor: a null `mData` is modelled as an empty array of length 0.
- GrowableArray.ArrayIterator.ToIndex: the signed index must be non-negative; the source asserts only `index < size()` and would store a negative index into an unsigned position.
- GrowableArray.Array.At, Set and Insert, and LinkedList.ListIterator.Insert: undefined behaviour, such as an out-of-range index or a null cursor that is not at the head, is excluded by a precondition rather than modelled.
- `assert` statements of the source become preconditions or proved facts; the abort on failure is not modelled.
- HybridSort.SortSlow, HybridSort.Sort, HybridSort.SortAsWritten and HybridSort.Partition state their result as the value of a function on the old array. That the result is sorted and a permutation is proved about those functions (`InsertionSortCorrect`, `HybridSortCorrect`, `HybridSortAsWrittenPermutes`, `PartitionPermutes`, `PartitionSplits`) and not repeated on the methods.

## Findings

| source | as written | input that shows it | evidently intended | confidence | as-written member | corrected member |
|---|---|---|---|---|---|---|
| Labs/src/sort.h:53 | after sorting the upper side first, the loop continues with `last = pivot - 1`, which leaves the element just below the pivot out of the remaining range | [3, 2, 1, 0, 4, 5, 6, 7]: the partition leaves 0 at index 3, and the loop then sorts only [0, 3) | `last = pivot` | high; not executed | HybridSort.AsWrittenCounterexample | HybridSort.HybridSortCorrect |
| Labs/src/Array.h:189 | reserve's copy loop moves `mData[i + 1]` into `newData[i]` | five appends to an empty array: the fifth reads cell 4 of a buffer of 4 | `newData[i] = mData[i]` | high; not executed | ArrayDefects.FifthAppendAsWrittenFails | GrowableArray.Array.Reserve |
| Labs/src/Array.h:189 | the same shift drops the first element whenever the buffer is not full | reserve(5) on [1, 2] with capacity 4 leaves [2, ?]: the 1 is lost and the second cell is old cell 2, which was never initialised | `newData[i] = mData[i]` | high; not executed | ArrayDefects.ReserveAsWrittenLosesFirst | GrowableArray.Array.Reserve |
| Labs/src/Array.h:158 | remove's loop runs while `i < mSize + 1` and reads `mData[i + 1]` | three appends then remove(0): the loop reads cell 4 of a buffer of 4 | `i < mSize - 1` | high; not executed | ArrayDefects.RemoveAfterThreeAppendsAsWrittenFails | GrowableArray.Array.Remove |
| Labs/src/Array.h:121-124 | the capacity is recorded before `reserve(mCapacity)`, which then finds nothing to do, so `mData` stays null | Array(4) followed by insert(0, v) stores through a null buffer | allocate a buffer of the requested capacity | high; not executed | ArrayDefects.ConstructAsWrittenFirstInsertFails | GrowableArray.Array.WithCapacity |
| Labs/src/List.h:303-310 | clear() frees every node but leaves `mHead`, `mTail` and `mSize` as they were | a list holding [1]: after clear(), size() is still 1 and head() reads a freed node | reset head and tail to null and size to 0 | high; not executed | LinkedList.List.Clear | LinkedList.List.ClearFixed |
