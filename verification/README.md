# Linked lists, modelled and verified in Dafny

This project models the eight linked lists of *Learning Rust With Entirely
Too Many Linked Lists* and proves what each one promises.

**The production deque.** The main model is the production-quality deque
`LinkedList<T>` of `src/production_linked_list.rs`:
- a doubly linked list of heap nodes, with `front`, `back` and a cached `len`;
- its three double-ended iterators;
- what it derives from its element sequence: equality, ordering, hashing, cloning, extending and collecting;
- its mutable cursor `CursorMut`, which has a "ghost" position between the back and the front.

**The sibling lists.** Alongside it are the six smaller lists:
- the single-owner stacks of `src/first.rs` and `src/second.rs`;
- the persistent shared list of `src/third.rs`;
- the `Rc<RefCell>` deque of `src/fourth.rs`;
- the two raw-tail queues of `src/fifth.rs` and `src/sixth.rs`;
- the stack-frame chain of `src/seventh.rs`.

**Modelling approach.** Each list keeps its source's own form:
- Lists whose nodes are updated in place are Dafny classes over heap `Node` objects.
- Such a class carries a ghost `nodes` sequence (the nodes front to back) and a `Valid()` invariant. For the deque, `Valid()` requires `len == |nodes|`, neighbour links that are symmetric and free of repeated nodes, and ends that are null exactly when the list is empty. Every operation is specified against the abstract element sequence `Elems()`.
- Lists built from owned or shared values (`first`, `second`, `third`, `seventh`) are datatypes. In `first` and `second` the list object that holds them is a class whose field `push`/`pop` reassign. `third` and `seventh` are plain values: `cons`/`tail` and `push` build new lists and never update one.

**Panics.** Where the source can panic, the model returns the `Outcome` value `Panicked`. Five defects are recorded under "## Findings"; three of them show as `Panicked`. Each has the code as written, a concrete scenario showing the defect, and a corrected operation with its property proved.

**Tests as scenarios.** The unit tests are replayed as scenario methods; "## Left out" names the few of src/production_linked_list.rs that are not. Each one's `ensures` is the sequence of values the test asserts.

**Modules.**
- `Core`: `Option`, `Ordering`, `Outcome`, the `i32` range.
- `ProductionList`: nodes, chains and `LinkedList`.
- `ProductionIter`: `Iter`, `IterMut`, `IntoIter`.
- `ProductionTraits`: eq, partial_cmp, cmp, hash, clone.
- `ProductionCursor`: `CursorMut` and its split/splice surgery.
- `ProductionScenarios`: the production tests.
- `QueueNodes`: the singly linked nodes of the two queues.
- `Fourth`, `Fifth`, `Sixth`, `Third`, `Second`, `First`, `Seventh`: one module per sibling file.

## Model

| member | source | states |
|---|---|---|
| ProductionList.LinkedList.constructor | src/production_linked_list.rs:26-33 | `new` gives a valid list with no nodes and no elements |
| ProductionList.LinkedList.PushFront | src/production_linked_list.rs:35-58 | the new node, fresh, becomes the front and holds `elem` ahead of the old elements; `len` grows by one; the back is unchanged on a non-empty list; the invariant (symmetric links, ends, length) is kept |
| ProductionList.LinkedList.PushBack | src/production_linked_list.rs:60-81 | mirror of PushFront: a fresh node at the back, elements `old + [elem]`, `len + 1`, front unchanged when non-empty |
| ProductionList.LinkedList.PopFront | src/production_linked_list.rs:83-108 | empty: None, nothing changes; otherwise the first element, nodes and elements lose their first entry, `len` drops by one, the back is unchanged while a node remains; the invariant is kept (both ends null once empty) |
| ProductionList.LinkedList.PopBack | src/production_linked_list.rs:110-134 | mirror of PopFront at the back |
| ProductionList.LinkedList.Front | src/production_linked_list.rs:136-138 | None exactly on the empty list, otherwise the first element |
| ProductionList.LinkedList.Back | src/production_linked_list.rs:144-146 | None exactly on the empty list, otherwise the last element |
| ProductionList.LinkedList.FrontMut | src/production_linked_list.rs:140-142 | None exactly when empty, otherwise the first node, whose `elem` is the mutable place |
| ProductionList.LinkedList.BackMut | src/production_linked_list.rs:148-150 | None exactly when empty, otherwise the last node |
| ProductionList.LinkedList.Len | src/production_linked_list.rs:152-154 | the cached counter equals the number of elements |
| ProductionList.LinkedList.IsEmpty | src/production_linked_list.rs:156-158 | true exactly when there are no elements |
| ProductionList.LinkedList.LinksSymmetric | src/production_linked_list.rs:35-58 | in a valid list every `back` neighbour links `front` to the node and vice versa, and both are in the list |
| ProductionList.LinkedList.Clear | src/production_linked_list.rs:160-163 | the pop-until-None loop terminates with a valid empty list |
| ProductionList.LinkedList.Drop | src/production_linked_list.rs:205-210 | the same loop: the list is left valid and empty |
| ProductionList.LinkedList.Extend | src/production_linked_list.rs:230-239 | push_back of each item in order: elements `old + items`, one fresh node per item appended |
| ProductionList.LinkedList.FromIter | src/production_linked_list.rs:241-250 | a fresh valid list whose elements are `items` in order |
| ProductionIter.Iter.constructor | src/production_linked_list.rs:165-172 | the window starts at 0 with the list's length, so the remaining elements are all of them |
| ProductionIter.Iter.Next | src/production_linked_list.rs:307-321 | count 0: None and nothing moves; otherwise the element at the window's front, which shrinks by one from the front |
| ProductionIter.Iter.NextBack | src/production_linked_list.rs:328-341 | count 0: None; otherwise the element at the window's back, which shrinks by one from the back |
| ProductionIter.Iter.SizeHint | src/production_linked_list.rs:323-326 | `(n, Some(n))` with `n` the number of elements not yet yielded |
| ProductionIter.Iter.Len | src/production_linked_list.rs:343-347 | the number of elements not yet yielded |
| ProductionIter.IterMut.constructor | src/production_linked_list.rs:178-185 | the window covers every node of the list |
| ProductionIter.IterMut.Next | src/production_linked_list.rs:393-410 | None at count 0; otherwise the node at the window's front, window shrinks from the front |
| ProductionIter.IterMut.NextBack | src/production_linked_list.rs:417-429 | None at count 0; otherwise the node at the window's back |
| ProductionIter.IterMut.SizeHint | src/production_linked_list.rs:412-415 | `(n, Some(n))` for the places not yet handed out |
| ProductionIter.IterMut.Len | src/production_linked_list.rs:431-435 | the number of places not yet handed out |
| ProductionIter.IntoIter.constructor | src/production_linked_list.rs:174-176 | `into_iter` takes ownership of the whole valid list |
| ProductionIter.IntoIter.Next | src/production_linked_list.rs:362-367 | `pop_front` of the owned list: None when empty, else the first element, which leaves |
| ProductionIter.IntoIter.NextBack | src/production_linked_list.rs:374-377 | `pop_back` of the owned list |
| ProductionIter.IntoIter.SizeHint | src/production_linked_list.rs:369-372 | `(len, Some(len))` of the owned list |
| ProductionIter.IntoIter.Len | src/production_linked_list.rs:380-383 | the owned list's length |
| ProductionTraits.IterEq | src/production_linked_list.rs:258-262 | the pairwise walk answers true exactly when the two sequences are equal |
| ProductionTraits.Eq | src/production_linked_list.rs:258-262 | `eq` (length check, then the walk) holds exactly when the element sequences are equal |
| ProductionTraits.LexCmpEqual | src/production_linked_list.rs:272-276 | with an element order that is Equal only on equal elements, `cmp` is Equal exactly on equal sequences |
| ProductionTraits.LexCmpReverse | src/production_linked_list.rs:272-276 | with an antisymmetric element order, swapping the lists reverses `cmp` |
| ProductionTraits.LexCmpPrefix | src/production_linked_list.rs:272-276 | a proper prefix is Less than the longer list |
| ProductionTraits.LexCmpDecided | src/production_linked_list.rs:272-276 | `cmp` is decided by the first position whose elements differ |
| ProductionTraits.LexPartialCmpOfTotal | src/production_linked_list.rs:266-270 | `partial_cmp` over a total order is `Some` of `cmp` |
| ProductionTraits.LexPartialCmpEqual | src/production_linked_list.rs:266-270 | `partial_cmp` is `Some(Equal)` exactly on equal sequences when the element order is |
| ProductionTraits.LexPartialCmpDecided | src/production_linked_list.rs:266-270 | under a partial element order, the first pair not comparing `Some(Equal)` decides `partial_cmp`; an incomparable pair there makes it `None` |
| ProductionTraits.LexPartialCmpPrefix | src/production_linked_list.rs:266-270 | under a partial element order, a proper prefix whose elements compare `Some(Equal)` is `Less`, and the longer sequence is `Greater` |
| ProductionTraits.FloatCmp | src/production_linked_list.rs:801 | an `f64` comparison is `None` exactly when an operand is NaN, and `Some(Equal)` exactly on equal numbers |
| ProductionTraits.OrdNan | src/production_linked_list.rs:799-829 | the assertions of `test_ord_nan`: with a NaN before any difference `<`, `>`, `<=` and `>=` are all false; `[1, 2, 4, 2]` is not `<` `[1, 2, 3, 2]` and is `>` and `>=` but not `<=` `[1]` |
| ProductionTraits.PartialCmp | src/production_linked_list.rs:266-270 | the lists' `partial_cmp` is `Some(Equal)` exactly when their elements are equal |
| ProductionTraits.Cmp | src/production_linked_list.rs:272-276 | the lists' `cmp` agrees with `eq` and is reversed by swapping the operands |
| ProductionTraits.ItemsFeed | src/production_linked_list.rs:278-289 | one hasher item per element, in order |
| ProductionTraits.HashFeedUnambiguous | src/production_linked_list.rs:278-289 | because the length goes first, the hasher input of a list determines the list even when more input follows |
| ProductionTraits.Hash | src/production_linked_list.rs:278-289 | the loop feeds the length and then each element, front to back |
| ProductionTraits.Clone | src/production_linked_list.rs:218-228 | a fresh valid list with fresh nodes and the same elements, built by push_back in order |
| ProductionCursor.CursorMut.constructor | src/production_linked_list.rs:187-194 | the cursor starts at the ghost with index None |
| ProductionCursor.CursorMut.Index | src/production_linked_list.rs:444-446 | on any cursor, None exactly at the ghost; on an in-sync cursor, the position of the current node |
| ProductionCursor.CursorMut.MoveNext | src/production_linked_list.rs:448-463 | one step towards the back, from the back onto the ghost and from the ghost onto the front; index + 1 between nodes; keeps the index in sync |
| ProductionCursor.CursorMut.MovePrev | src/production_linked_list.rs:465-480 | one step towards the front (ghost to back with index len - 1), but between nodes the index grows by one, so after the step it reads the position plus 2 |
| ProductionCursor.CursorMut.MovePrevCorrected | src/production_linked_list.rs:465-480 | the same moves with the index decremented: the cursor stays in sync |
| ProductionCursor.CursorMut.Current | src/production_linked_list.rs:482-484 | None exactly at the ghost, otherwise the node at the cursor |
| ProductionCursor.CursorMut.PeekNext | src/production_linked_list.rs:486-493 | None at the ghost or on the back node, otherwise the next node |
| ProductionCursor.CursorMut.PeekPrev | src/production_linked_list.rs:495-502 | None at the ghost or on the front node, otherwise the previous node |
| ProductionCursor.CursorMut.SplitBefore | src/production_linked_list.rs:504-550 | at the ghost the whole list moves out and the cursor's list is empty; at position i > 0 the first i elements move out and the rest stay, index 0; on the front node the returned list has the cursor's node as front, no back and length 0, and is not valid |
| ProductionCursor.CursorMut.SplitBeforeCorrected | src/production_linked_list.rs:504-550 | for every position, the elements before the cursor move out as a valid list and the rest stay |
| ProductionCursor.CursorMut.SpliceBefore | src/production_linked_list.rs:552-588 | panics exactly when the input is non-empty and the cursor is on the front node or at the ghost of a non-empty list; otherwise the input's nodes land just before the cursor, the input is left empty, the cursor stays on its node with the cached index raised by the input's length (whether or not it was in sync), or stays at the ghost with index None |
| ProductionCursor.CursorMut.SpliceBeforeCorrected | src/production_linked_list.rs:552-588 | at every position the input lands before the cursor, elements `before + input + after`, input left empty, cursor stays in sync |
| ProductionCursor.SplitThenSpliceBack | src/production_linked_list.rs:504-588 | at every position, the corrected `split_before` followed by `splice_before` of the returned list restores the same nodes and elements, with the cursor back at its position and in sync |
| ProductionCursor.CutBefore | src/production_linked_list.rs:525-542 | cutting before position k > 0 gives two valid lists holding the first k and the remaining elements |
| ProductionCursor.TakeAll | src/production_linked_list.rs:545-548 | `mem::replace` with a new list: everything moves to a fresh list and the old one is empty |
| ProductionCursor.SpliceAt | src/production_linked_list.rs:564-577 | the non-empty input is woven in at position k: elements `before + input + after`, input empty |
| ProductionCursor.SwapIntoEmpty | src/production_linked_list.rs:584-586 | `mem::swap` into an empty list: the list takes the input's nodes and elements |
| ProductionScenarios.BasicFront | src/production_linked_list.rs:603-641 | what `pop_front` and `len` report, in order, in `test_basic_front` |
| ProductionScenarios.BasicPops | src/production_linked_list.rs:644-662 | the pops and lens of the first half of `test_basic`: None from both ends of an empty list, the pushed 1 back, then 2 and 3 in `push_back` order, None, and 1 first of 1, 3, 5, 7 |
| ProductionScenarios.IteratorEnumerate | src/production_linked_list.rs:684-697 | `iter()` over `[0..6]` yields the element equal to each position; over an empty list None; over `[4]` hints 1 then 0, the 4, then None |
| ProductionScenarios.RevIter | src/production_linked_list.rs:718-731 | `iter().rev()` over `[0..6]` yields `6 - i` at position `i`; over an empty list None; over `[4]` hints 1 then 0, the 4, then None |
| ProductionScenarios.CollectIter | src/production_linked_list.rs:686-688 | for every valid list, draining `iter()` with `next` yields exactly its elements front to back |
| ProductionScenarios.CollectIterRev | src/production_linked_list.rs:720-722 | for every valid list, draining `iter().rev()` yields exactly its elements back to front |
| ProductionScenarios.FrontMutBackMut | src/production_linked_list.rs:664-680 | writes through `front_mut`/`back_mut` are what the later pops return |
| ProductionScenarios.IteratorDoubleEnd | src/production_linked_list.rs:699-715 | interleaved `next`/`next_back` yield 6, 4, 5 once each, then None at both ends, with size hints 3, 2, 1 |
| ProductionScenarios.MovePrevTwice | src/production_linked_list.rs:465-480 | on `[1, 2, 3]` two `move_prev` from the ghost reach the 2 (position 1) with index 3 |
| ProductionScenarios.MovePrevTwiceCorrected | src/production_linked_list.rs:465-480 | the corrected moves reach the 2 with index 1 |
| ProductionScenarios.SplitBeforeAtFront | src/production_linked_list.rs:504-550 | on the front node of `[1, 2]` the returned list has length 0 yet a front and no back |
| ProductionScenarios.SplitBeforeAtFrontCorrected | src/production_linked_list.rs:504-550 | the corrected split returns an empty list |
| ProductionScenarios.SpliceBeforeAtFront | src/production_linked_list.rs:558-563 | splicing `[2]` before the front node of `[1]` panics |
| ProductionScenarios.SpliceBeforeAtGhost | src/production_linked_list.rs:578-583 | splicing `[2]` at the ghost of `[1]` panics |
| ProductionScenarios.SpliceBeforeAtFrontCorrected | src/production_linked_list.rs:558-563 | the corrected splice gives `[2, 1]` |
| ProductionScenarios.SpliceBeforeAtGhostCorrected | src/production_linked_list.rs:578-583 | the corrected splice gives `[1, 2]` |
| ProductionScenarios.SplitAtThree | src/production_linked_list.rs:504-550 | on `[0, 1, 2, 3, 4, 5, 6]` with the cursor at index 3, `split_before` returns `[0, 1, 2]` and leaves `[3, 4, 5, 6]` with the cursor on its front |
| ProductionScenarios.SplitThenSpliceAtThree | src/production_linked_list.rs:552-563 | splicing that `[0, 1, 2]` back in as written panics, because the cursor is now at index 0 |
| ProductionScenarios.SplitThenSpliceAtThreeCorrected | src/production_linked_list.rs:504-588 | the corrected round trip gives back `[0, 1, 2, 3, 4, 5, 6]` with the cursor at index 3 |
| Fourth.List.constructor | src/fourth.rs:37-42 | a valid empty list |
| Fourth.List.PushFront | src/fourth.rs:44-58 | the fresh node becomes the head ahead of the old elements; on an empty list it is the tail too, otherwise the tail stays |
| Fourth.List.PopFront | src/fourth.rs:60-79 | empty: None; otherwise the first element leaves, but with two or more nodes the tail is set to the new head |
| Fourth.List.PopFrontCorrected | src/fourth.rs:60-79 | the same pop with the tail left alone: the list stays valid |
| Fourth.List.PushBack | src/fourth.rs:95-109 | the fresh node becomes the tail after the old elements; head unchanged when non-empty |
| Fourth.List.PopBack | src/fourth.rs:111-127 | panics exactly when the tail is not the last node (the `try_unwrap` at line 124 fails); otherwise None on empty, else the last element leaves |
| Fourth.List.PeekFront | src/fourth.rs:81-86 | None exactly when empty, otherwise the first element |
| Fourth.List.PeekFrontMut | src/fourth.rs:88-93 | None exactly when empty, otherwise the head node |
| Fourth.List.PeekBack | src/fourth.rs:129-134 | None exactly when empty, otherwise the tail's element, the last element of a valid list |
| Fourth.List.PeekBackMut | src/fourth.rs:136-141 | None exactly when empty, otherwise the tail node |
| Fourth.List.Drop | src/fourth.rs:149-153 | the pop-until-None loop leaves the list empty |
| Fourth.IntoIter.constructor | src/fourth.rs:144-146 | `into_iter` takes ownership of the whole list |
| Fourth.IntoIter.Next | src/fourth.rs:157-164 | `pop_front` of the owned list |
| Fourth.IntoIter.NextBack | src/fourth.rs:166-171 | `pop_back` of the owned list, panicking as it does |
| Fourth.PushFrontAndPopFront | src/fourth.rs:177-193 | the pops of the test: None, 1, 3, 2, None |
| Fourth.PushFrontAndPeekFront | src/fourth.rs:195-212 | the peeks of the test: None, 1, 2, 3 |
| Fourth.IntoIterIterator | src/fourth.rs:214-227 | `into_iter` over push_front 1, 2, 3 yields 3, 2, 1 |
| Fourth.IntoIterDoubleEnded | src/fourth.rs:229-242 | `next_back` yields 1, 2, 3 |
| Fourth.TailAfterPopFront | src/fourth.rs:60-79 | after push_front 1, 2, 3 and one pop_front, pop_back panics |
| Fourth.TailAfterPopFrontCorrected | src/fourth.rs:60-79 | with the corrected pop_front, pop_back returns 1 |
| Fifth.List.constructor | src/fifth.rs:23-25 | a valid empty queue |
| Fifth.List.Push | src/fifth.rs:27-42 | a fresh node goes at the tail, elements `old + [elem]`; on an empty queue it is the head too, otherwise the old tail's `next` points to it |
| Fifth.List.Pop | src/fifth.rs:44-55 | empty: None; otherwise the head element leaves, and the tail is null exactly when the queue is now empty |
| Fifth.Smoke | src/fifth.rs:62-90 | FIFO order across refills: None, 1, 2, 3, 4, 5, None, 6, 7, None |
| Sixth.List.constructor | src/sixth.rs:21-23 | a valid empty queue |
| Sixth.List.Push | src/sixth.rs:25-44 | as Fifth.List.Push |
| Sixth.List.Pop | src/sixth.rs:46-63 | as Fifth.List.Pop |
| Sixth.List.Peek | src/sixth.rs:65-67 | None exactly when empty, otherwise the head element |
| Sixth.List.PeekMut | src/sixth.rs:69-71 | None exactly when empty, otherwise the head node |
| Sixth.List.Drop | src/sixth.rs:98-102 | the pop loop leaves an empty queue with null head and tail |
| Sixth.Iter.constructor | src/sixth.rs:77-85 | starts at the head |
| Sixth.Iter.Next | src/sixth.rs:118-130 | the elements head to tail, then None for good |
| Sixth.IterMut.constructor | src/sixth.rs:87-95 | starts at the head |
| Sixth.IterMut.Next | src/sixth.rs:136-148 | the nodes head to tail, then None for good |
| Sixth.IntoIter.constructor | src/sixth.rs:73-75 | `into_iter` takes ownership of the whole valid queue |
| Sixth.IntoIter.Next | src/sixth.rs:106-112 | `pop` of the owned queue |
| Sixth.ScaleEach | src/sixth.rs:202-204 | `*elem *= 100` through `iter_mut` multiplies every element and keeps the structure |
| Sixth.ScaleHead | src/sixth.rs:198 | `peek_mut().map(...)` multiplies the head element only |
| Sixth.Smoke | src/sixth.rs:154-181 | FIFO order across refills |
| Sixth.MiriFood | src/sixth.rs:183-219 | the values the test sees: 1, 2, 3, 30, 30, 400, 500, 600, None, None, 400, 5000 |
| First.ElemsInjective | src/first.rs:6-14 | a `Link` is determined by its elements |
| First.List.constructor | src/first.rs:17-19 | the empty stack |
| First.List.Push | src/first.rs:21-28 | the new head is a `More` node whose `next` is the old head: the element goes on top |
| First.List.Pop | src/first.rs:30-39 | `Empty`: None and head stays `Empty`; `More`: its element, and its `next` becomes the head |
| First.Smoke | src/first.rs:46-66 | LIFO order: None, 1, None, 1, 2, 3, None |
| Second.List.constructor | src/second.rs:14-16 | the empty stack |
| Second.List.Push | src/second.rs:18-25 | the new node's `next` is the old head: the element goes on top |
| Second.List.Pop | src/second.rs:27-38 | None on empty; otherwise the head element, and the rest becomes the list |
| Second.List.Drop | src/second.rs:41-49 | the `while let` loop terminates, detaching every node in order, and the head is None |
| Second.Smoke | src/second.rs:55-75 | LIFO order: None, 1, None, 1, 2, 3, None |
| Third.New | src/third.rs:15-17 | the empty list, head None |
| Third.List.Cons | src/third.rs:19-26 | head is the new element and tail is the receiver itself, shared |
| Third.List.Head | src/third.rs:28-30 | None exactly on the empty list, otherwise the first element |
| Third.List.Tail | src/third.rs:32-36 | the elements after the first; the tail of the empty list is empty |
| Third.TailsUndoConses | src/third.rs:19-36 | after consing any elements onto a list, as many tails give back that list |
| Third.Iter.constructor | src/third.rs:38-42 | starts at the head |
| Third.Iter.Next | src/third.rs:49-58 | the elements head first, then None for good |
| Third.Smoke | src/third.rs:65-91 | the heads seen: None, None, 1, 3, 2, 1, None |
| Third.IterScenario | src/third.rs:93-105 | None over the empty list, then 3, 2, 1, None |
| Seventh.Push | src/seventh.rs:7-10 | the frame lent to the callback has `prev` as its `prev`, and walking it gives `data` then `prev`'s chain |
| Seventh.Iter.constructor | src/seventh.rs:12-14 | the walk starts at the frame itself: its own data first |
| Seventh.Iter.Next | src/seventh.rs:21-28 | follows `prev`: the next frame's data, None once past the oldest frame |
| Seventh.IterSum | src/seventh.rs:36-48 | the sum of what `iter()` yields is the total of the chain |
| Seventh.Elegance | src/seventh.rs:35-48 | the nested callbacks see sums 3, 8 and 21 |

## Left out

- src/miri.rs is not part of this model: it holds only tests about undefined behaviour under Stacked Borrows.
- Memory management is not modelled: `Box::into_raw`/`from_raw`, deallocation in `Drop`, and the allocator. A removed node simply leaves the list's `nodes` footprint. Drop methods are modelled by the loops the source runs.
- `Rc` reference counts and `RefCell` borrow flags in src/fourth.rs are not modelled; only the links are. The one place where a count decides the outcome, the `try_unwrap(...).unwrap()` of `pop_back` (src/fourth.rs:124), becomes the `Panicked` outcome.
- Compile-time properties are not modelled: `Send`/`Sync`, `PhantomData`, variance checks, the `compile_fail` doctest and lifetimes.
- `Debug` output and the `Hasher`'s internal state are not modelled. `hash` is modelled as the sequence of values it feeds to the hasher.
- `test_mut_iter`, `test_iterator_mut_double_end`, `test_eq`, `test_ord`, `test_debug` and `test_hashmap` of src/production_linked_list.rs are not replayed as scenarios. Apart from the `Debug` text of `test_debug`, which is not modelled, the properties they check are proved for all inputs by the trait lemmas and the iterator contracts. The NaN ordering test is replayed on sequences by `ProductionTraits.OrdNan`, with `f64` reduced to whole numbers and NaN (`ProductionTraits.Float`).
- Closures with side effects: the callback of `seventh.rs`'s `push` cannot act in a Dafny function, so `Push` returns the frame it lends and the scenario runs the callback bodies in sequence.
- Iterators borrowing the list: the borrow checker guarantees the list does not change while an iterator exists. The model assumes this instead, through the requirement that the borrowed list is still valid.
- ProductionTraits.Clone: the model pushes each element itself where the source pushes `item.clone()`, so every element's `Clone` is taken to return an equal value.
- ProductionTraits.Eq and ProductionTraits.IterEq: elements are compared with Dafny's `==`, not with the element type's own `PartialEq`, which need not be reflexive (a NaN is not equal to itself); list equality is therefore proved only for element types whose `eq` is true exactly on equal values. The orderings take the element comparison as a parameter instead.
- Sixth.ScaleEach and Sixth.ScaleHead: the products are taken over unbounded integers, so `i32` overflow of `*elem *= 100` and `*x *= 10` is not modelled (the test's values stay small).
- Seventh.IterSum: the sum is taken over unbounded integers, so `i32` overflow of `sum::<i32>()` is not modelled (the test's sums are small).
- Fourth.List.PushBack: requires the tail to be the last node (`Valid`), not just `Shaped`. After the defective `pop_front` its behaviour is therefore not described.
- Fourth.List.PopBack and Fourth.IntoIter.NextBack: on `Panicked` only the link written before the panic is described; the remaining state is left open.
- ProductionCursor.CursorMut.SplitBefore: requires the cursor's index to match its position (`InSync`), which `move_prev` as written can break. The source unwraps the index without that guarantee.
- ProductionCursor.CursorMut.SpliceBefore: when it panics, only the link written just before the panic is described.
- ProductionCursor.CursorMut.SpliceBeforeCorrected: requires `InSync`, as its correctness depends on it.
- The production iterators' lifetimes and `IterMut`'s unique borrow are represented only by the ghost `list` field.

## Findings

| source | as written | input that shows it | evidently intended | confidence | as-written member | corrected member |
|---|---|---|---|---|---|---|
| src/production_linked_list.rs:471 | `move_prev` between two nodes does `index += 1` | `[1, 2, 3]`: two `move_prev` from the ghost reach the 2 at position 1, index reads 3 | `index -= 1`, so the index stays the position | high, not executed | ProductionScenarios.MovePrevTwice | ProductionScenarios.MovePrevTwiceCorrected |
| src/production_linked_list.rs:521-542 | `split_before` on the front node returns `front = list.front`, `back = None`, `len = 0` | `[1, 2]`, cursor on the 1: the returned list has length 0 but a front (the cursor's own node) | an empty list (front and back None) | high, not executed | ProductionScenarios.SplitBeforeAtFront | ProductionScenarios.SplitBeforeAtFrontCorrected |
| src/production_linked_list.rs:561-562 | `input.back.take()` and then `input.back.unwrap()` | `[1]`, cursor on the 1, splice `[2]`: unwrap of None panics; likewise splicing back what `split_before` just split off `[0, 1, 2, 3, 4, 5, 6]` at index 3 | link `input.back` before taking it | high, not executed | ProductionScenarios.SpliceBeforeAtFront | ProductionScenarios.SpliceBeforeAtFrontCorrected |
| src/production_linked_list.rs:579-580 | `input.front.take()` and then `input.front.unwrap()` | `[1]`, cursor at the ghost, splice `[2]`: unwrap of None panics | link `input.front` before taking it | high, not executed | ProductionScenarios.SpliceBeforeAtGhost | ProductionScenarios.SpliceBeforeAtGhostCorrected |
| src/fourth.rs:68 | `pop_front` sets `tail` to the new head whenever two or more nodes were present | push_front 1, 2, 3, pop_front, pop_back: the tail is the 2, which the 1 still links to, so `try_unwrap` at line 124 fails | leave `tail` alone | high, not executed | Fourth.TailAfterPopFront | Fourth.TailAfterPopFrontCorrected |
