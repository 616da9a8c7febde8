# lab0-c queue, modelled in Dafny

This project models `queue.c` of lab0-c. That file implements a queue of C
strings on top of the Linux-style circular doubly linked list: a sentinel
`list_head` that `q_new` allocates, and `element_t` nodes, each holding a
`list_head` and a `malloc`ed copy of its string.

The model is an arena (`ListCore.Heap`):
- `links` maps each pointer to its `list_head`, a `Link(next, prev)`.
- `values` maps each element node to its string.
- Pointer 0 is NULL.
- Freeing a node removes it from both maps.

Each operation takes the arena and a ghost *traversal order*: the sequence
of element nodes met by following `next` from the sentinel.
`ListCore.Valid(h, head, ord)` states that the links form exactly that
cycle, in both directions. Every operation is then stated as:
- validity of the resulting arena in a new order;
- that new order given by a pure reference function (`SeqSpec`, `SortSpec`);
- the strings along it;
- what else in the arena is left alone (`Untouched`).

Files and modules:

- `cstring.dfy` (`CString`): C strings as byte sequences without NUL.
  - `strcmp`, with the total order it induces.
  - The `memset` + `strncpy` copy into the caller's buffer on removal.
- `listcore.dfy` (`ListCore`): the arena and the list invariant.
  - `list_del`, and `myInsert` (which is also `list_add` / `list_add_tail`).
  - Releasing a node (`q_release_element`).
  - Each effect stated on the traversal order: remove at a position, insert at a position, move an element to an earlier position.
- `queue.dfy` (`Queue`): `q_new`, `q_insert_head`, `q_insert_tail`, `q_remove_head`, `q_remove_tail`, `q_size`, `q_delete_mid`, `q_free`.
- `seqspec.dfy` (`SeqSpec`): reference orders for reversal, pairwise swap and deletion of duplicate runs.
- `reverse.dfy` (`QueueReverse`): `q_reverse`.
- `swap.dfy` (`QueueSwap`): `q_swap`.
- `dedup.dfy` (`QueueDedup`): `q_delete_dup`.
- `sortspec.dfy` (`SortSpec`): the bottom-up merge sort on orders.
  - Proved here: its result is sorted, a permutation of its input, and stable.
- `sort.dfy` (`QueueSort`): `merge` and `q_sort` on the arena.
  - Proved here: the list ends up in exactly the order `SortSpec.MergeSort` gives.

The allocator is a parameter:
- `malloc` of an element is a caller-supplied pointer. NULL means failure; otherwise it is a node not yet in the arena.
- The `malloc` of its string is a caller-supplied flag.

## Model

| member | source | states |
|---|---|---|
| CString.Strcmp | queue.c:309-310 | strcmp is zero exactly on equal strings, and lies in -255..255 |
| CString.GreaterIsStrict | queue.c:309-310 | `strcmp(a, b) > 0` holds exactly when b precedes a in the sort order and the strings differ: the condition on which merge lets the right node go first |
| CString.LeqTotal | queue.c:309-310 | any two strings are comparable in the order strcmp induces |
| CString.LeqTransitive | queue.c:309-310 | the strcmp order is transitive |
| CString.LeqAntisymmetric | queue.c:309-310 | strings that precede each other are equal |
| CString.CopyOut | queue.c:109-110 | the buffer has `bufsize` bytes: the first `bufsize - 1` bytes of the string at most, and NUL everywhere else |
| CString.CopyOutReadsBack | queue.c:109-110 | the copied buffer reads back as the string cut to `bufsize - 1` bytes, so it is always terminated |
| ListCore.WalkVisitsOrder | queue.c:149-150 | in a valid list, `k + 1` steps along `next` from the sentinel reach the element at position `k`, and the sentinel comes back only after the last element |
| ListCore.ValidIsDoublyLinked | queue.c:288-294 | in a valid list every node, sentinel included, has `next->prev == n` and `prev->next == n` |
| ListCore.OrderIsDetermined | queue.c:149-150 | the links determine the traversal order: a heap holds at most one valid order through a sentinel |
| ListCore.ListDel | queue.c:108 | `list_del` (also at queue.c:123, 170, 196, 200, 312); its effect is stated by DelValid, DelFrame and DeleteAt |
| ListCore.DelValid | queue.c:108 | `list_del` of the element at position j leaves a valid list in the order with that element removed, and no string changes |
| ListCore.DelFrame | queue.c:108 | `list_del` changes no node off the list |
| ListCore.InsertBefore | queue.c:288-294 | `myInsert`, statement by statement; its effect is stated by InsertValid, InsertFrame and MoveValid |
| ListCore.InsertValid | queue.c:288-294 | `myInsert` of a detached node before the node at position j leaves a valid list with the node at position j |
| ListCore.InsertFrame | queue.c:288-294 | `myInsert` changes only the list and the inserted node |
| ListCore.Release | queue.c:133-137 | `q_release_element`: the node and its string leave the arena; its effect is stated by ReleaseValid and DeleteAt |
| ListCore.ReleaseValid | queue.c:133-137 | releasing a node that is off the list keeps the list and its strings |
| ListCore.DeleteAt | queue.c:170-171 | `list_del` and then `q_release_element` of the element at position j: valid list without it; exactly that node and its string leave the arena; the strings lose position j; no other list changes |
| ListCore.MoveValid | queue.c:311-313 | `list_del(rptr)` and then `myInsert(lptr, rptr)`: the list stays valid in the order with the element moved to an earlier position, and no node or string changes |
| ListCore.MoveAt | queue.c:311-313 | the moved element lands at its new position; those between shift up by one; the rest stay put |
| Queue.AllocValid | queue.c:52-59 | allocating a fresh element keeps the list and its strings, and the new node is neither on the list nor the sentinel |
| Queue.NewIsEmpty | queue.c:18-26 | `q_new` returns what malloc gave: on success a valid empty queue whose sentinel is the only node added, no other node changed, and on failure NULL with the arena unchanged |
| Queue.New | queue.c:18-26 | `q_new` itself; its contract is carried by NewIsEmpty |
| Queue.AddAtValid | queue.c:61 | `list_add` / `list_add_tail` of a fresh element puts it at position j of a valid list |
| Queue.AddAtValues | queue.c:60-61 | the fresh element contributes its string at position j of the stored strings |
| Queue.InsertHead | queue.c:48-63 | success exactly when head is non-NULL and both mallocs succeed. On failure the arena is unchanged, so the partial node is gone. On success the order is `[node] + old` and the strings are `[s] + old`; the new node is the only node added, and no other node changes |
| Queue.InsertTail | queue.c:72-87 | as InsertHead, with order `old + [node]` and strings `old + [s]` |
| Queue.Unlink | queue.c:107-111 | the target leaves the order; the arena keeps its nodes and strings; the buffer holds the truncated copy of the target's string |
| Queue.RemoveHead | queue.c:103-112 | NULL exactly for a NULL or empty queue, with nothing changed. Otherwise it returns the first element; the list becomes `old[1..]`; no node is freed; the buffer holds its string |
| Queue.RemoveTail | queue.c:118-127 | as RemoveHead, with the last element and `old[..n-1]` |
| Queue.RemovedStringReadsBack | queue.c:109-110 | the removal's buffer reads back as the removed string cut to `bufsize - 1` bytes |
| Queue.InsertHeadRemoveHead | queue.c:103-112 | inserting at the head and then removing from the head gives back the node, the original order and strings, and the string (truncated to the buffer) |
| Queue.InsertTailRemoveTail | queue.c:118-127 | the same round trip at the tail |
| Queue.RemoveHeadInsertHead | queue.c:103-112 | removing the head and inserting its string back at the head gives a valid queue of the same size whose strings, in order, are the original ones, a fresh node standing where the old head was |
| Queue.RemoveTailInsertTail | queue.c:118-127 | the same reverse round trip at the tail: the queue's size and string order are restored |
| Queue.Size | queue.c:143-152 | 0 for a NULL queue, otherwise the number of elements |
| Queue.Advance | queue.c:167-168 | `steps + 1` moves along `next` from the sentinel land on the element at position `steps` |
| Queue.DeleteMid | queue.c:162-173 | false exactly for a NULL or empty queue, with nothing changed. Otherwise the element at position ⌊n/2⌋ and its string leave the arena; the list is the order without it; the strings lose position ⌊n/2⌋ |
| Queue.FreeStep | queue.c:34-36 | one round of q_free's loop is a `list_del` and then the release of the first element |
| Queue.FreeStepIsDelete | queue.c:34-36 | the three statements of the loop body, one at a time, leave the same arena as that `list_del` and release |
| Queue.FreeRound | queue.c:33-37 | each round keeps the loop invariant: one more element gone, and the rest still a valid list |
| Queue.FreeDone | queue.c:33-38 | when the loop ends every element has gone and the sentinel is released |
| Queue.Free | queue.c:29-39 | NULL leaves the arena alone. Otherwise exactly the sentinel, the elements and their strings leave the arena |
| QueueReverse.FlipNode | queue.c:238-240 | the loop body flips exactly one node's links and nothing else |
| QueueReverse.FlipTwice | queue.c:234-245 | flipping the same nodes twice restores the arena |
| QueueReverse.FlipReverses | queue.c:234-245 | with the sentinel and every element flipped, the list is valid in the reversed order |
| QueueReverse.Reverse | queue.c:234-245 | the list is valid in the reversed order; its strings are reversed; only the sentinel's and elements' links change |
| QueueReverse.ReverseTwice | queue.c:234-245 | `q_reverse` twice gives back the very same arena |
| SeqSpec.ReverseInvolutive | queue.c:234-245 | the reversal order is an involution |
| SeqSpec.SwapPairsUnfold | queue.c:210-225 | the swapped order begins `[b, a]` for `[a, b, ...]` and continues with the rest swapped |
| SeqSpec.SwapPairsInvolutive | queue.c:210-225 | swapping pairs twice gives the original order |
| SeqSpec.SwapPairsPermutes | queue.c:210-225 | swapping pairs keeps the multiset |
| SeqSpec.SwapPairsExtend | queue.c:215-223 | the swapped order grows one pair at a time from the front, as q_swap's walk does |
| SeqSpec.KeepLonely | queue.c:193-202 | the kept elements are at most the ones examined, and come from them |
| SeqSpec.SortedLonelyIffOnce | queue.c:181-182 | on sorted strings, an element differs from both neighbours exactly when its string occurs once |
| SeqSpec.DropRunsOnSortedKeepsSingletons | queue.c:184-205 | on sorted strings, dropping every run of equal neighbours leaves exactly the strings that occur once, in order |
| QueueDedup.DupVisit | queue.c:192-202 | one round of the loop keeps its invariant. Of the visited elements, the ones differing from both neighbours remain, in order, and the rest have been freed; the unvisited ones follow. `f` is set exactly when the last visited element equalled its successor |
| QueueDedup.DupDone | queue.c:191-203 | after the loop the list is valid in the order with every run dropped; exactly the dropped nodes left the arena; no other list changed |
| QueueDedup.DupDoneMembers | queue.c:193-202 | a node survives exactly when its string differs from both neighbours |
| QueueDedup.DupDoneValues | queue.c:184-205 | the surviving strings are the strings with runs dropped; on sorted input they are the strings that occurred once |
| QueueDedup.DeleteDup | queue.c:184-205 | false exactly for NULL, with nothing changed. Otherwise every run of two or more equal neighbours is removed entirely and freed, and the rest stay in order. On sorted input the strings left are those that occurred exactly once |
| QueueSwap.SwapPair | queue.c:217-222 | the six assignments of `q_swap`'s odd round; their effect is stated by SwapStepValid and SwapPairIsMove |
| QueueSwap.SwapStepValid | queue.c:217-222 | the six assignments swap the node at position k with its predecessor: the list is valid in that order and nothing else changes |
| QueueSwap.SwapPairIsMove | queue.c:217-222 | those six assignments leave the same arena as `list_del` of the node and `myInsert` of it before its predecessor |
| QueueSwap.SwapOrderDone | queue.c:215-224 | after the walk the order is the pairwise-swapped order, with a trailing odd element staying last |
| QueueSwap.SwapOrderPermutes | queue.c:215-224 | the walk's order always holds the original nodes |
| QueueSwap.ValuesSwapPairs | queue.c:210-225 | the strings along the swapped order are the swapped strings |
| QueueSwap.SwapVisit | queue.c:215-224 | one round of the walk keeps its invariant, and a node visited is an element |
| QueueSwap.Swap | queue.c:210-225 | the list is valid in the pairwise-swapped order; its strings are the swapped strings with the same multiset; no node is allocated or freed; no other list changes |
| SortSpec.MergeSorted | queue.c:308-320 | merging two sorted runs gives a sorted run |
| SortSpec.MergePermutes | queue.c:308-320 | a merge holds exactly the nodes of both runs |
| SortSpec.MergeStable | queue.c:309-319 | merging keeps nodes with equal strings in order, the left run's first, because the right node goes first only when strcmp > 0 |
| SortSpec.PassPermutes | queue.c:264-281 | a pass holds exactly its input nodes |
| SortSpec.PassSorted | queue.c:264-281 | a pass over sorted runs of width w gives sorted runs of width 2w |
| SortSpec.PassStable | queue.c:264-281 | a pass over sorted runs keeps equal strings in order |
| SortSpec.SortFromSorted | queue.c:264-281 | the passes from width w until the width reaches the size end sorted |
| SortSpec.MergeSortIsStableSort | queue.c:259-282 | the order q_sort produces is sorted under strcmp, a permutation of the queue, and stable |
| QueueSort.MergeAtPermutes | queue.c:302-321 | merging two runs in place keeps the length and the multiset of nodes |
| QueueSort.MergeStart | queue.c:307 | the merge loop's invariant holds before the first round, with lptr and rptr at the fronts of the runs |
| QueueSort.MergeRight | queue.c:311-315 | moving the right node in front of lptr keeps the loop invariant, with one more node merged |
| QueueSort.MergeLeft | queue.c:317-318 | advancing lptr keeps the loop invariant, with one more node merged |
| QueueSort.MergeVisit | queue.c:309-319 | each round merges one more node |
| QueueSort.MergeDone | queue.c:308 | when a run is used up or rptr reaches the sentinel, the list is valid in the merged order |
| QueueSort.Merge | queue.c:302-321 | merge leaves the list valid in the order with the two runs merged; no node or string changes; no other list is touched |
| QueueSort.PassMerge | queue.c:270-276 | the merge at `cnt == l` completes the pass up to `node`, and leaves the nodes from `node` on in place |
| QueueSort.PassVisit | queue.c:267-278 | each round of the `list_for_each` loop keeps the pass's invariant, and counts one more node |
| QueueSort.PassLoopDone | queue.c:279-280 | when the loop is back at the sentinel, `rptr` is set exactly when a last right run follows `lptr` |
| QueueSort.SortPass | queue.c:264-281 | a pass leaves the list valid in the order of one reference pass |
| QueueSort.SortRound | queue.c:264 | each round of the outer loop keeps the sort invariant with the width doubled |
| QueueSort.Sort | queue.c:259-282 | NULL is left alone. Otherwise the list ends valid in the merge-sort order: sorted by strcmp, a permutation, stable. No node or string changes, and no other list is touched |

## Left out

- `list.h` and `harness.h` are not part of this model.
  - `list_del`, `list_add` and `list_add_tail` have their usual Linux semantics.
  - `list_del` leaves the links of the removed node as they were (no poisoning).
  - `list_add(x, head)` is `myInsert(head->next, x)` and `list_add_tail(x, head)` is `myInsert(head, x)`.
  - `list_for_each` and `list_for_each_safe` are modelled as the loops they expand to.
- `malloc` and `free`.
  - Allocation is a parameter that may fail.
  - Freeing removes the node and its string from the arena.
  - The links of a freshly allocated, not yet linked node are taken as NULL. In C they are uninitialised, and `queue.c` never reads them.
- The `printf` in `q_delete_dup` is debug output with no effect on the queue.
- Queue.RemoveHead: requires a buffer of at least one byte when an element is removed. The C code writes through `sp` and computes `bufsize - 1` without checking, so a NULL `sp` or a zero `bufsize` is undefined behaviour there.
- Queue.RemoveTail: requires a buffer of at least one byte when an element is removed, for the same reason (queue.c:124-125).
- QueueSwap.Swap: requires a non-NULL head. `q_swap` dereferences it without a check, which is undefined behaviour.
- QueueReverse.Reverse: requires a non-NULL head. Its comment says NULL has no effect, but the code dereferences it without a check.
- Queue.Size: counts with an unbounded integer. The C `int` counter would overflow beyond `INT_MAX` elements.
- QueueSort.Sort: the width `i *= 2` and the counters `cnt`, `l`, `r` are unbounded integers, while in C they are `int` and could overflow on queues of more than about `INT_MAX / 2` elements.
- QueueSwap.SwapVisit: the count behind `cnt++ % 2` is unbounded.
- Queue.DeleteMid: `q_size(head) >> 1` is modelled as division by 2, which is exact for the non-negative size.
- CString.Strcmp: returns the difference of the first differing bytes, as common C libraries do. The code only uses its sign and whether it is zero.
- QueueDedup.DeleteDup: the comment at queue.c:181-182 says the input is sorted, but the code is well defined on any input. So the contract does not require sortedness. It states the effect on any input: each run of equal neighbours is removed. The "strings that occurred once" property is stated under a sortedness hypothesis.
- The O(n log n) running time of `q_sort` is not modelled.
