# Intrusive circular doubly-linked list of the talloc test program

This project models the small generic list of `list.h` (with its verbatim copy
at the top of `talloc_test.c`). It also models the loops in `talloc_test.c`
that use that list as a queue, a stack and an iterator.

A `struct list_head` is a `List.Node`, a class with the two pointer fields
`next` and `prev`. The list operations are methods that rewrite those fields in
place, each with the `modifies` frame of the nodes the C code writes. A list is
a head node plus the elements reached from it. A ghost sequence abstracts it:
`Ring(head, s)` says that `[head] + s` is one closed ring of distinct nodes,
that `next` leads from each node to the following one (from the last back to
the head), and that `prev` is the exact inverse of `next`. Each operation is
specified by what it does to that sequence:

- `list_add` gives `[e] + s` and `list_add_tail` gives `s + [e]`.
- `list_del` removes exactly the deleted node.
- `list_del_init` leaves a self-looped empty head.
- `list_for_each` visits `s` in order.

The guards of the C code are kept. The inserts act only on an element whose two
links are NULL, and `list_del` acts only on one whose two links are set. When a
guard fails, the `modifies` frame is empty, so nothing is written.

The client module `TallocTest` models the list loops of `test3`, `test4` and
`test5`. The elements that `talloc_zero` returns are given as parameters, in
allocation order. Ten zeroed elements are appended with `list_add_tail`.
`test4` walks that list and pushes one duplicate per element onto a second list with
`list_add`. Both lists are drained from the front. Finally `test5` walks the
drained list. The proved results are:

- The walk in `test4` sees all ten elements, because the two lists share no
  node.
- The queue drains first-in-first-out and the stack last-in-first-out, both
  relative to the order in which the elements were allocated and inserted.
- Each drain removes one element per iteration and leaves the head empty.
- The walk in `test5` makes no iteration.

## Model

| member | source | states |
|---|---|---|
| List.Node.constructor | talloc_test.c:117 | A zero-initialised element has both links NULL, so the guarded inserts accept it. |
| List.Node.Head | list.h:10-11 | `LIST_INIT` declares a head that is a ring with no elements: both links point to the head itself. |
| List.ListInit | list.h:13 | After `list_init` the node is the head of an empty list, whatever its links were before. |
| List.EmptyIff | list.h:27 | `LIST_EMPTY` (`head->next == head`) holds of a well-formed list exactly when it has no elements. |
| List.Neighbours | list.h:5-8 | In a well-formed list, `next` of the element at position i is the element at i + 1, or the head after the last one. `prev` is the element at i - 1, or the head before the first one. |
| List.RingNodesLinked | list.h:53-57 | Every node of a ring has both links set. So the inserts refuse a node that already sits in a list, and `list_del` acts on it. |
| List.RingUnique | list.h:32-33 | The links of a head determine the list: two sequences that both describe the ring at the same head are equal. |
| List.LinkBetween | list.h:15-20 | `LIST_ADD` splices an unlinked element between two adjacent ring nodes. The result is the same ring with the element inserted right after `before`, and all links stay consistent. |
| List.ListAdd | list.h:35-42 | `list_add` of an element with both links NULL makes it the first element (`[e] + s`). Otherwise it writes nothing, including for an element left self-looped by `list_del_init`. |
| List.ListAddTail | list.h:44-51 | `list_add_tail` of an element with both links NULL makes it the last element (`s + [e]`). Otherwise it writes nothing. |
| List.ListDel | list.h:53-62 | `list_del` of a linked element removes exactly that element from its ring, joins its two neighbours and sets both its links to NULL. It writes only the element and its two neighbours. It writes nothing when either link is NULL. |
| List.ListDelTwice | list.h:55 | Deleting an element a second time writes nothing, so the list is as after the first deletion. This includes an element alone in its ring. |
| List.UnlinkedOutside | list.h:37-39 | A node whose links are both NULL belongs to no ring. So a freshly zeroed element is distinct from every node of any list it is added to. |
| List.ListDelInit | list.h:64-68 | `list_del_init` removes a linked element from its ring as `list_del` does. It then leaves the element a self-looped empty head on which `LIST_EMPTY` holds. |
| List.ForEach | list.h:32-33 | `list_for_each` visits exactly the list's elements in `next` order, each once, and none for an empty list. |
| TallocTest.ReversedAt | talloc_test.c:123-128 | The order the stack drains in: position i of the reversed sequence holds position `n - 1 - i` of the original. |
| TallocTest.ReversedPermutes | talloc_test.c:123-128 | The reversed sequence holds the same elements, each as often as in the original. |
| TallocTest.IndexOfDistinct | talloc_test.c:152-153 | In a ring of distinct nodes, the node at position k is found at k, so `list_del(head->next)` removes position 1 of the ring. |
| TallocTest.AppendZeroed | talloc_test.c:140-148 | Appending the zeroed elements `es`, one per iteration with `list_add_tail`, turns the list `s` into `s + es`. The list order is the allocation order. |
| TallocTest.PushDuplicate | talloc_test.c:117-123 | The `i`-th zeroed duplicate, pushed with `list_add`, goes in front of the `i` pushed before it. The list becomes the reverse of the first `i + 1` duplicates, and the later ones stay unlinked. |
| TallocTest.PushDuplicates | talloc_test.c:114-124 | Walking `src` while pushing the duplicates `ds` onto the disjoint `dst` visits every element of `src` in order. `dst` ends as `Reversed(ds)`: the duplicates in the reverse of the order they were pushed. |
| TallocTest.Drain | talloc_test.c:150-155 | Each `list_del(head->next)` iteration removes the first element, so the drain takes the elements out in list order. It ends with the head empty and every element unlinked. |
| TallocTest.Test4 | talloc_test.c:110-132 | `test4` visits all of `src`. Its drain of `dst_list` returns the duplicates last-in-first-out: position i of the drain is the duplicate pushed at iteration `n - 1 - i`, and every duplicate comes out exactly once. |
| TallocTest.Test3 | talloc_test.c:134-158 | `test3` appends ten zeroed elements, and `test4` walks all of them in allocation order. The drain of `test_list` returns them first-in-first-out, i.e. in allocation order. The duplicates drain last-in-first-out. The walk of `test5` (talloc_test.c:102-106) on the drained list has no iteration. |
| TallocTest.ReAddAfterDelInit | list.h:64-68 | After `list_del_init` takes an element out of a list, `list_add` refuses it because its links are self-loops, not NULL. The list stays without it. |

The list helpers at talloc_test.c:8-70 are the same text as list.h, so the rows
above cite list.h for both.

## Left out

- Every talloc call is left out: allocation, names, `talloc_strdup`, references and unlink, `talloc_steal`, `talloc_free`, pools, caches and destructors. The allocator's source is not part of this model.
- The elements `talloc_zero` returns inside the loops of `test3` and `test4` are parameters instead. They are a sequence in allocation order of distinct nodes whose links are NULL (`TallocTest.Zeroed`). The loop uses the `i`-th one at its `i`-th iteration, as the C loop uses the one it has just allocated. The order the printed names would show (talloc_test.c:144, 154, 129) is therefore this allocation order.
- `test5` is modelled only as its `list_for_each` walk, because its loop body is a `talloc_steal`.
- `list_entry` (container_of pointer arithmetic over a struct layout) is left out. A `Node` stands for its containing element, and the payload string of `struct test_list` is not modelled.
- The singly linked stack punned into the first word of cache-returned memory in `test_cache` is left out. It depends on raw memory reuse inside the allocator's cache.
- `printf`, `assert`, logging, alignment attributes, `test2`, `test_cache` and `main` are left out.
- The `static` lists `test_list` and `dst_list` are modelled as fresh empty heads created where they are first used. Each of them is used once.
- List.ListDel, List.ListDelInit, List.ListAdd, List.ListAddTail: the model covers only nodes of well-formed lists, which every call site passes (talloc_test.c:123, 128, 147, 153). On non-NULL links that do not close a ring, the C code still makes its writes, and the model says nothing about that case.
- List.ListDel: for a ring made of the element alone (a self-looped head) it promises only that the element ends unlinked. No other node is involved.
