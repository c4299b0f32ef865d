# DoubleLinkedList in Dafny

A model of the doubly linked list in `DoubleLinkedList.cpp`. It covers:

- a heap chain of `Node`s (`_data`, `_next`, `_prev`), owned through `_head`, with a cached `_size`;
- a forward `ListIterator` holding a node pointer and an index;
- the list operations: construction, copy and move, indexed access, search, insert and remove variants, `forEach`/`map`/`filter`, whole and ranged reversal, and the reversed copies.

The project has two modules.

- `ListSpec` (`list_spec.dfy`) says what each operation does to the sequence of elements, for example `Inserted`, `Removed`, `Mapped`, `Reversed`, `ReversedRange` and `FilteredAsWritten`. It also proves the algebra of those functions: inverses, double reversal, permutation, and subsequence bounds for filter.
- `DoubleLinkedList` (`double_linked_list.dfy`) is imperative.
  - `Node` is a class with mutable `next`/`prev`/`data`.
  - `List` is a class with `head`, `size` and three ghost fields: `nodes` (the chain in order), `elems` (the elements) and `Repr` (the footprint).
  - `Valid()` says the nodes are distinct and wired both ways, each node carries its element, and `size == |elems|`.
  - The methods that model a C++ operation as written keep its loops and pointer updates. `FindIntended`, `FilterIntended` and the helpers of `FilterIntended` are corrected loops beside them (see "## Findings").
  - Insert, remove, `forEach`, `filter` and both reversals are proved against a `ListSpec` function (`Inserted`, `Removed`, `Mapped`, `FilteredAsWritten`, `Filtered`, `Reversed`, `ReversedRange`). The element write, `clear` and the assignments state their new elements directly (`elems[pos := v]`, `[]`, the other list's elements).

Exceptions (`std::out_of_range`) become `Result`/`Outcome` values carrying `OutOfRange`. Where the C++ code would dereference null or build a cycle, the model has a precondition instead. Where the code behaves oddly but safely, it is modelled as written next to a corrected version (see "## Findings").

The code behaves unexpectedly in these places:

- `find` does not compare the last element. So `find(3)` on `[2, 3]` is false, although 3 is in the list.
- `filter` never updates `_size`. So after filtering `[1, 2, 3, 4]` for even values, the elements are `[2, 4]` but `size()` still says 4.
- `filter` is not idempotent. Filtering the heap list `[2, 1, 3]` for even values twice gives `[2, 3]` and then `[2]`, with the cached size 3 throughout (`FilterEvensTwice`).

The model follows the code in each case.

## Model

| member | source | states |
|---|---|---|
| DoubleLinkedList.Node.constructor | DoubleLinkedList.cpp:382-386 | a new node holds the value and has no neighbours |
| DoubleLinkedList.ListIterator.NodeIndex | DoubleLinkedList.cpp:427-429 | `getNodeIndex()`: the index the iterator carries; what that index means is proved by `List.IteratorStep`, `List.Begin`, `List.End` and `List.GetNode` |
| DoubleLinkedList.ListIterator.Deref | DoubleLinkedList.cpp:395-397 | `operator*`: the data of the referenced node, defined only on a non-null iterator; `List.IteratorStep` proves it is the element at the iterator's index |
| DoubleLinkedList.ListIterator.Next | DoubleLinkedList.cpp:403-407 | prefix `operator++`: the referenced node's next with the index plus one, defined only on a non-null iterator; `List.IteratorStep` proves it points at the following element |
| DoubleLinkedList.List.IteratorStep | DoubleLinkedList.cpp:395-407 | at an existing position of any well-linked list, whatever the cached size, `*` gives the element at the iterator's index, and `++` moves to the next node with index (`getNodeIndex`) plus one |
| DoubleLinkedList.HookFront | DoubleLinkedList.cpp:345-351 | joins the reversed range's new first node to its predecessor, when there is one, and sets that node's prev to the predecessor or null |
| DoubleLinkedList.HookBack | DoubleLinkedList.cpp:352-355 | joins the reversed range's old first node to the node after the range |
| DoubleLinkedList.SwapLinks | DoubleLinkedList.cpp:341 | swapping one node's prev and next extends the swapped run by one node and keeps its data |
| DoubleLinkedList.NextOf | DoubleLinkedList.cpp:22 | a lemma about the wiring invariant: next of node k is node k+1, or null at the tail. Every `->_next` step and test reads it, for example the copy loop's `curOther->_next` here and also lines 84, 122, 161, 290 and 330 |
| DoubleLinkedList.PrevOf | DoubleLinkedList.cpp:168-169 | a lemma about the wiring invariant: prev of node k is node k-1, or null at the head. The splices that reset a neighbour's `_prev` rely on it: insert here, and remove at lines 204-205 and 217-218 |
| DoubleLinkedList.InsertedWired | DoubleLinkedList.cpp:164-170 | splicing a new node in after its predecessor gives a wired chain of the inserted sequence |
| DoubleLinkedList.RemovedWired | DoubleLinkedList.cpp:213-219 | bypassing node p gives a wired chain of the sequence without it |
| DoubleLinkedList.InsertedCarries | DoubleLinkedList.cpp:164-167 | after an insert, the nodes still carry the inserted element sequence, inside the grown footprint |
| DoubleLinkedList.RemovedCarries | DoubleLinkedList.cpp:213-216 | after a remove, the nodes still carry the removed sequence, outside the unlinked node |
| DoubleLinkedList.RangeReversedWired | DoubleLinkedList.cpp:340-355 | after the swaps and the two joins, the chain is wired in range-reversed order |
| DoubleLinkedList.ReversedRangeCarries | DoubleLinkedList.cpp:324-356 | the range-reversed nodes carry the range-reversed elements |
| DoubleLinkedList.List.constructor | DoubleLinkedList.cpp:7-10 | a new list is valid and empty |
| DoubleLinkedList.List.Copy | DoubleLinkedList.cpp:12-30 | the copy is valid, has fresh nodes and has the same elements |
| DoubleLinkedList.List.Assign | DoubleLinkedList.cpp:39-59 | copy assignment onto any well-linked list, even one with a stale size, gives a valid list on fresh nodes with the other list's elements and size |
| DoubleLinkedList.List.CopyChain | DoubleLinkedList.cpp:18-29 | the copy loop builds a fresh, distinct, wired chain carrying the other list's elements in order |
| DoubleLinkedList.List.MoveAssign | DoubleLinkedList.cpp:61-68 | onto any well-linked list, even one with a stale size: this takes the other list's chain and elements and becomes valid; the other is left valid and empty |
| DoubleLinkedList.List.At | DoubleLinkedList.cpp:78-98 | `operator[]` gives the element at pos, or out_of_range exactly when pos >= size |
| DoubleLinkedList.List.SetAt | DoubleLinkedList.cpp:78-87 | writing through `operator[]` replaces exactly element pos and nothing else, or gives out_of_range |
| DoubleLinkedList.List.Size | DoubleLinkedList.cpp:100-102 | the cached size equals the number of elements |
| DoubleLinkedList.List.IsEmpty | DoubleLinkedList.cpp:131-133 | no head, exactly when there are no elements, also on a list whose cached size is stale |
| DoubleLinkedList.List.Begin | DoubleLinkedList.cpp:372-374 | an iterator at the head with index 0, on any well-linked list, whatever the cached size |
| DoubleLinkedList.List.End | DoubleLinkedList.cpp:376-378 | the null iterator with index size() |
| DoubleLinkedList.List.GetNode | DoubleLinkedList.cpp:104-113 | an iterator pointing at node pos with index pos exactly when pos < size, otherwise out_of_range |
| DoubleLinkedList.List.Find | DoubleLinkedList.cpp:117-129 | the scan as written: true exactly when the needle is among all elements but the last; it needs only a well-linked chain, not the cached size |
| DoubleLinkedList.List.FindIntended | DoubleLinkedList.cpp:117-129 | corrected scan: true exactly when the needle is an element |
| DoubleLinkedList.List.WalkClamped | DoubleLinkedList.cpp:160-163 | insert's walk stops at index min(pos, size-1) |
| DoubleLinkedList.List.Insert | DoubleLinkedList.cpp:145-171 | the value lands at index min(pos, size), the rest shift, and size grows by one |
| DoubleLinkedList.List.LinkFront | DoubleLinkedList.cpp:153-158 | the pos-0 branch puts the value in front |
| DoubleLinkedList.List.LinkAfterWalk | DoubleLinkedList.cpp:160-170 | the pos > 0 branch inserts at min(pos, size) |
| DoubleLinkedList.List.LinkAtTail | DoubleLinkedList.cpp:164-170 | the splice at the tail appends the value |
| DoubleLinkedList.List.LinkBetween | DoubleLinkedList.cpp:164-170 | the splice between two nodes inserts at their boundary |
| DoubleLinkedList.List.PushBack | DoubleLinkedList.cpp:137-139 | the value is appended |
| DoubleLinkedList.List.PushFront | DoubleLinkedList.cpp:141-143 | the value is prepended |
| DoubleLinkedList.List.InsertAfter | DoubleLinkedList.cpp:173-175 | an insert at the iterator's index plus one |
| DoubleLinkedList.List.Clear | DoubleLinkedList.cpp:179-183 | from any well-linked list, even one with a stale size, the list becomes valid, empty and owns no nodes |
| DoubleLinkedList.List.Remove | DoubleLinkedList.cpp:193-220 | element pos is removed and size shrinks by one exactly when pos < size; otherwise out_of_range and nothing changes |
| DoubleLinkedList.List.Walk | DoubleLinkedList.cpp:209-212 | remove's walk stops exactly at index pos-1 |
| DoubleLinkedList.List.UnlinkHead | DoubleLinkedList.cpp:198-207 | the head is unlinked; its successor becomes the head |
| DoubleLinkedList.List.UnlinkNext | DoubleLinkedList.cpp:213-219 | the successor of node k is unlinked; its neighbours are joined |
| DoubleLinkedList.List.PopBack | DoubleLinkedList.cpp:185-187 | the last element is removed, or, on an empty list, `size() - 1` wraps and remove throws out_of_range |
| DoubleLinkedList.List.PopFront | DoubleLinkedList.cpp:189-191 | the first element is removed, or out_of_range on an empty list |
| DoubleLinkedList.List.RemoveIterator | DoubleLinkedList.cpp:226-228 | a remove at the iterator's index |
| DoubleLinkedList.List.RemoveAfter | DoubleLinkedList.cpp:222-224 | a remove at the iterator's index plus one |
| DoubleLinkedList.List.ForEach | DoubleLinkedList.cpp:254-263 | every element is replaced by fn of it, in place, on the same nodes; size is untouched, and a stale size is accepted |
| DoubleLinkedList.List.Map | DoubleLinkedList.cpp:265-269 | a fresh copy with fn applied to every element |
| DoubleLinkedList.List.Filter | DoubleLinkedList.cpp:271-308 | as written, on any well-linked list (the cached size is never read): the elements become FilteredAsWritten, the chain stays well linked, and size keeps its old value |
| DoubleLinkedList.List.FilterTwice | DoubleLinkedList.cpp:271-308 | filter applied to the list a filter left gives FilteredAsWritten of FilteredAsWritten, the size still unchanged |
| DoubleLinkedList.FilterEvensTwice | DoubleLinkedList.cpp:271-308 | on the heap list [2, 1, 3], keeping even values twice leaves [2] with size 3: filter is not idempotent |
| DoubleLinkedList.List.DropRejectedHeads | DoubleLinkedList.cpp:276-288 | the first loop leaves an accepted head and does not change the final outcome |
| DoubleLinkedList.List.KeepAfterHead | DoubleLinkedList.cpp:289-307 | the second loop leaves exactly the head plus the nodes KeepRest keeps |
| DoubleLinkedList.List.KeepAfterStep | DoubleLinkedList.cpp:290-306 | one turn of the second loop: unlink a rejected successor and step past the successor's successor untested, or keep an accepted one |
| DoubleLinkedList.List.FilterIntended | DoubleLinkedList.cpp:271-308 | corrected filter: exactly the elements satisfying fn, in order, with size kept equal to their count |
| DoubleLinkedList.List.DropRejectedHeadsIntended | DoubleLinkedList.cpp:276-288 | rejected heads are removed, including a last one, without changing the filtered outcome |
| DoubleLinkedList.List.FilterAfterHead | DoubleLinkedList.cpp:289-307 | after an accepted head, every successor is tested |
| DoubleLinkedList.List.FilterStep | DoubleLinkedList.cpp:293-306 | a rejected successor is removed and the walk stays put; an accepted one is passed |
| DoubleLinkedList.List.Reverse | DoubleLinkedList.cpp:312-322 | the elements are reversed on the same nodes, and size is unchanged, also when it is stale |
| DoubleLinkedList.List.ReverseRange | DoubleLinkedList.cpp:324-356 | the closed range [start, min(end, size-1)] is reversed in place, or out_of_range exactly when start >= size |
| DoubleLinkedList.List.NodeAfter | DoubleLinkedList.cpp:328-331 | the first loop finds the node after index end, or null when end reaches past the tail |
| DoubleLinkedList.List.SeekStart | DoubleLinkedList.cpp:333-339 | the second loop stops at node start, with its predecessor or null |
| DoubleLinkedList.List.SwapRun | DoubleLinkedList.cpp:340-344 | the third loop and the swap after it swap the links of nodes start..min(end, size-1) and stop on the last of them |
| DoubleLinkedList.List.CloseRange | DoubleLinkedList.cpp:345-355 | with no predecessor the range's new first node becomes the head; the joins then turn the swapped run into a valid list with the range reversed |
| DoubleLinkedList.List.AdoptReversedRange | DoubleLinkedList.cpp:345-355 | once the links are those of the range-reversed order, the list is well linked with range-reversed elements, and its size and length are as before |
| DoubleLinkedList.List.GetReverseList | DoubleLinkedList.cpp:358-362 | a fresh reversed copy |
| DoubleLinkedList.List.GetReverseListRange | DoubleLinkedList.cpp:364-368 | a fresh copy with the range reversed, or out_of_range exactly when start >= size |
| DoubleLinkedList.List.ReverseListTwice | DoubleLinkedList.cpp:358-362 | getReverseList of getReverseList has the original elements |
| DoubleLinkedList.List.CopyThenPush | DoubleLinkedList.cpp:12-30 | a copy is independent: pushing onto it leaves the source valid and its elements unchanged |
| ListSpec.SizeDecrement | DoubleLinkedList.cpp:186 | `size() - 1` as a size_t: a size_t again, one below the size modulo 2^64 |
| ListSpec.InsertedAt | DoubleLinkedList.cpp:145-171 | insert puts v at index min(pos, n) and shifts what follows |
| ListSpec.RemovedInserted | DoubleLinkedList.cpp:145-220 | removing at the insertion index undoes an insert |
| ListSpec.InsertedRemoved | DoubleLinkedList.cpp:145-220 | re-inserting a removed element at its index undoes a remove |
| ListSpec.InsertedEnds | DoubleLinkedList.cpp:137-143 | pushFront and pushBack are inserts at 0 and at size |
| ListSpec.RemovedAt | DoubleLinkedList.cpp:193-220 | remove keeps the prefix and shifts the suffix |
| ListSpec.FindAsWrittenVersusMembership | DoubleLinkedList.cpp:117-129 | find as written implies membership, and misses exactly when the needle occurs only as the last element |
| ListSpec.FindMissesLastElement | DoubleLinkedList.cpp:122 | on [2, 3], find(3) is false although 3 is present |
| ListSpec.Mapped | DoubleLinkedList.cpp:254-263 | forEach keeps the length |
| ListSpec.MappedAt | DoubleLinkedList.cpp:260 | element i becomes fn of element i |
| ListSpec.Reversed | DoubleLinkedList.cpp:312-322 | reversal keeps the length |
| ListSpec.ReversedAt | DoubleLinkedList.cpp:312-322 | element k of the reverse is element n-1-k |
| ListSpec.ReversedReversed | DoubleLinkedList.cpp:358-362 | reversing twice is the identity |
| ListSpec.ReversedMultiset | DoubleLinkedList.cpp:312-322 | reversal is a permutation |
| ListSpec.ReversedRangeAt | DoubleLinkedList.cpp:324-356 | inside [start, e], element j comes from start+e-j; outside, nothing moves; e is end clamped to the last index |
| ListSpec.ReversedRangeWhole | DoubleLinkedList.cpp:324-356 | a range covering the whole list is a full reverse |
| ListSpec.ReversedRangeTwice | DoubleLinkedList.cpp:324-356 | reversing the same range twice is the identity |
| ListSpec.ReversedRangeMultiset | DoubleLinkedList.cpp:324-356 | ranged reversal is a permutation |
| ListSpec.ReversedRangeDistinct | DoubleLinkedList.cpp:324-356 | ranged reversal of distinct nodes keeps them distinct |
| ListSpec.LeadRejectedAt | DoubleLinkedList.cpp:276-288 | the leading run the first loop drops all fail fn, and the element after it passes |
| ListSpec.KeepRestAt | DoubleLinkedList.cpp:289-307 | entry by entry, the second loop keeps a tested accepted node and the untested successor of a removed one |
| ListSpec.FilterMaskAt | DoubleLinkedList.cpp:271-308 | filter's keep-mask entry by entry |
| ListSpec.FilterRemovesOnlyRejected | DoubleLinkedList.cpp:271-308 | every node filter removes fails fn |
| ListSpec.FilterKeepsSuccessorOfRemoved | DoubleLinkedList.cpp:306 | the node after a node removed by the second loop is always kept |
| ListSpec.FilterFirstAccepted | DoubleLinkedList.cpp:276-288 | when some element passes, filter's result starts with an element that passes |
| ListSpec.SelectLeading | DoubleLinkedList.cpp:276-288 | after dropped leading entries, the first selected element is the first kept one |
| ListSpec.SelectIsSubsequence | DoubleLinkedList.cpp:271-308 | selecting by a mask keeps an order-preserving subsequence |
| ListSpec.SelectMonotone | DoubleLinkedList.cpp:271-308 | a mask that keeps less selects a subsequence |
| ListSpec.SubsequenceSkipHead | DoubleLinkedList.cpp:271-308 | the subsequence relation survives prepending to the longer sequence |
| ListSpec.TestsAt | DoubleLinkedList.cpp:293 | the tests mask holds fn of each element |
| ListSpec.FilteredIsSelect | DoubleLinkedList.cpp:271-308 | the intended filter result is selection by the tests mask |
| ListSpec.FilterAsWrittenBounds | DoubleLinkedList.cpp:271-308 | filter as written lies between the intended result and the input, as order-preserving subsequences |
| ListSpec.FilterAsWrittenExact | DoubleLinkedList.cpp:271-308 | with no two adjacent rejected elements, filter as written is exact |
| ListSpec.MaskMatchesTests | DoubleLinkedList.cpp:271-308 | with no two adjacent rejected elements, filter keeps an element exactly when it passes |
| ListSpec.FilterKeepsUntestedOdd | DoubleLinkedList.cpp:306 | keeping even values of [2, 1, 3] leaves [2, 3], not [2] |
| ListSpec.FilterNotIdempotent | DoubleLinkedList.cpp:271-308 | filtering that result again changes it |
| ListSpec.FilterEvenOfFirstFour | DoubleLinkedList.cpp:271-308 | keeping even values of [1, 2, 3, 4] leaves [2, 4] |
| ListSpec.KeptFromLast | DoubleLinkedList.cpp:290-292 | a walk on the last node ends the second loop with nothing removed |
| ListSpec.KeepRestAccepted | DoubleLinkedList.cpp:293-306 | an accepted successor is kept and the walk moves onto it |
| ListSpec.KeepRestRejected | DoubleLinkedList.cpp:294-306 | a rejected successor is removed and the walk lands, untested, on the node after it |
| ListSpec.KeepRestRejectedLast | DoubleLinkedList.cpp:301-304 | a rejected last node is removed and the loop ends |
| ListSpec.FilteredFromLast | DoubleLinkedList.cpp:290-292 | the corrected walk on the last node is done |
| ListSpec.FilteredRejected | DoubleLinkedList.cpp:293-304 | the corrected walk removes a rejected successor and stays |
| ListSpec.FilteredAccepted | DoubleLinkedList.cpp:293-306 | the corrected walk keeps an accepted successor and moves on |

## Left out

- `print` and `operator<<` (DoubleLinkedList.cpp:232-250): console output only.
- Iterator `operator==`, `operator!=` and `operator-` (DoubleLinkedList.cpp:415-425): `==` and `!=` are pointer comparisons usable directly on `ptr`. `operator-` subtracts unrelated heap addresses, so it has no meaning in the model.
- Iterator `operator->` and postfix `operator++` (DoubleLinkedList.cpp:399-413): `operator->` gives the address of the data that `operator*` (`Deref`) references. Postfix `++` advances as prefix `++` (`Next`) does and returns the iterator as it was; with iterators as values, that is the old value alongside `Next()`.
- Destructors and `delete` (DoubleLinkedList.cpp:70-74, 388-390): Dafny has no manual memory release. Unlinked nodes simply leave `Repr`.
- Move constructor (DoubleLinkedList.cpp:32-35): it swaps with the uninitialised fields of the new object, which is undefined behaviour.
- Self copy-assignment (DoubleLinkedList.cpp:39-40): the code releases the chain and then reads it. `Assign` requires `other != this` instead.
- Self move-assignment: `MoveAssign` requires disjoint lists. With `this == &other`, the source deletes the list's own chain.
- Iterator invalidation: an iterator is a plain value. The model does not track iterators into nodes that were later removed.
- DoubleLinkedList.h is not part of this model beyond the signatures it declares.
- `fn` in `forEach`, `map` and `filter`: it is modelled as a pure total function. The C++ function takes a reference and could mutate its argument or have side effects.
- Filter: requires that the list is empty or that some element passes. When none passes, the source dereferences a null head (DoubleLinkedList.cpp:276, 285-286).
- Filter: ensures only `Linked()` (chain and data are sound) and `size == old(size)`, not `Valid()`. The source never updates `_size`, so the cached size is stale whenever something was removed.
- After a filter that removes a node, only `Linked()` holds. These are modelled on such a list: `find`, `isEmpty`, `begin`, iterator `*` and `++`, `forEach`, `filter`, `reverse()` and `clear`, and it may be the destination of copy or move assignment. `clear` and both assignments make it valid again. The other operations require `Valid()` of the list they read:
  - those that read `_size`: `operator[]`, `getNode`, `remove` and its wrappers, `end`, `reverse(start, end)`;
  - those that copy it from their source: copy construction, the source of copy or move assignment, `map`, `getReverseList`;
  - `insert` with its wrappers. On a stale list the source's `insert` still links the node correctly and keeps the size stale, but the model does not state that.
- ReverseRange: requires `start <= end` whenever `start < size()`. With `start > end`, `end -= start` wraps around as a size_t (DoubleLinkedList.cpp:332) and the code sets `firstNode->_next = last` (DoubleLinkedList.cpp:352). That points the range's first node back at node end+1, which comes at or before it, so the chain becomes cyclic. On `[a, b, c]`, `reverse(2, 0)` links b and c to each other in a cycle. GetReverseListRange has the same requirement.
- Insert: `++_size` is not checked for wrap-around at SIZE_MAX, because a chain of 2^64 nodes cannot exist. The `it.getNodeIndex() + 1` of InsertAfter and RemoveAfter is likewise taken without wrap-around.
- The element type `ValueType` is a type parameter with equality (`T(==)`), as `find` requires.

## Findings

| source | as written | input that shows it | evidently intended | confidence | as-written member | corrected member |
|---|---|---|---|---|---|---|
| DoubleLinkedList.cpp:122 | `while (cur->_next)` stops before comparing the last node | list [2, 3], find(3) gives false | compare every node, `while (cur)` | not executed | ListSpec.FindMissesLastElement | DoubleLinkedList.List.FindIntended |
| DoubleLinkedList.cpp:306 | after unlinking a rejected `cur->_next`, `cur = cur->_next` steps onto the successor, which is never tested; `_size` is never decremented | list [2, 1, 3], filter(even) gives [2, 3] with size 3 | test every successor and decrement the size per removed node | not executed | ListSpec.FilterKeepsUntestedOdd | DoubleLinkedList.List.FilterIntended |
