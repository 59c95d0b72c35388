# zf_queue: intrusive linked containers

zf_queue provides intrusive linked containers. Each element embeds its own link record, and a container only ever rewires pointers. It never allocates or frees anything. This project models three of its containers in Dafny:

- **SList.** The singly-linked list of `zf_queue/zf_queue.h`. The head has a `first` pointer and each node has a `next` pointer.
- **STailQ.** The singly-linked tail queue of the same header. The head has `first` and `last` pointers, which are both null when the queue is empty. Every mutator has a small branch that keeps `last` on the final node.
- **TailQ.** The doubly-linked tail queue of `include/zf_queue.hpp`, with its sentinel.
  - The head embeds a sentinel entry, `root`.
  - Each element's entry holds `next`, the following element. It also holds `prev`, the entry just before it; for the first element that is `root`.
  - `root.prev` is the last element's entry, or `root` itself when the queue is empty.
  - The last element and an element's predecessor are read through two `prev` hops and one `next` hop (`root.prev.prev.next` and `e.prev.prev.next`). No end needs a special case.

A fourth module covers entry lookup: `zf_entry`/`zf_entry_`, which step back from a node's address to the address of the element embedding it.

Each container is a Dafny `class`:

- Link records are classes with the same link fields as the source.
- Each head class carries a ghost sequence of its contents, first to last.
- A `Valid()` predicate ties the pointer fields to that sequence. It requires that:
  - the chain from the head lists the sequence, each node once, and ends in null;
  - `last` is the final node;
  - every `prev` names the entry before it.
- The read accessors are functions with `reads` clauses.
- The mutators are methods. Each `modifies` only the head and the link records the source writes.
- Every mutator keeps `Valid()`. Each states its new contents as a splice or cut of the old sequence (`Seqs.InsertAt`, `Seqs.RemoveAt`), plus where the head's end pointers now point.
- Traversal lemmas show that walking `next` from the head visits exactly the contents and then hits null.
- Round-trip methods show that each remove undoes the matching insert, for every insert/remove pair of the three containers: insert_head then remove_head, insert_after then remove_after, and for the doubly-linked queue insert_head or insert_tail then remove.

Module `Scenarios` holds client methods. They replay the repository's own usage scenarios (test/test_zf_queue.h, test/test.cpp) against these contracts and assert what each scenario expects to see. `Scenarios.TailQBuild` builds its queue from scratch: it allocates the entries and the head, then appends. The others start from the container state the scenario has reached, stated as a precondition.

The C code leaves some cases as undefined behaviour. These become preconditions:

- remove_head needs a non-empty container;
- remove_after needs a successor;
- an inserted node is not already linked;
- an anchor is in the container.

## Model

| member | source | states |
|---|---|---|
| EntryLookup.EntryOf | zf_queue/zf_queue.h:80-81 | The element address it yields is the one whose field, at the given offset, lives at the node's address. |
| EntryLookup.EntryOfMember | zf_queue/zf_queue.h:84-88 | The member-pointer form yields the same element address as `zf_entry`. |
| EntryLookup.EntryRoundTrip | zf_queue/zf_queue.h:80-88 | Looking up the element from the address of its own embedded node gives back the element's address, by either form. |
| SList.ChainedInsert | zf_queue/zf_queue.h:137-142 | Once the anchor links to the new node and the new node links to the anchor's old successor, the spliced sequence is a proper chain again. |
| SList.ChainedRemove | zf_queue/zf_queue.h:150-154 | Once a node links past its successor, the sequence without that successor is a proper chain again. |
| SList.Head.Initializer | zf_queue/zf_queue.h:104 | The static initializer gives a well-formed empty list with a null `first`. |
| SList.Head.Init | zf_queue/zf_queue.h:106-110 | Init leaves a well-formed empty list with a null `first`, whatever the list held. |
| SList.Head.Empty | zf_queue/zf_queue.h:112-116 | True exactly when the list has no nodes. |
| SList.Head.First | zf_queue/zf_queue.h:118-122 | The first node; null exactly when the list is empty. |
| SList.Head.Next | zf_queue/zf_queue.h:124-128 | The node after `n` in the contents; null exactly when `n` is the last node. |
| SList.Head.InsertHead | zf_queue/zf_queue.h:130-135 | The contents become `[n] + old`, `n` is first, and the list stays well-formed. |
| SList.Head.InsertAfter | zf_queue/zf_queue.h:137-142 | `a` is spliced in right after `b` and every other node keeps its order. Only `b` and `a` are written; the head is not. Afterwards `a` is `b`'s successor. |
| SList.Head.RemoveHead | zf_queue/zf_queue.h:144-148 | On a non-empty list, exactly the first node is dropped. The list becomes empty exactly when it had one node. |
| SList.Head.RemoveAfter | zf_queue/zf_queue.h:150-154 | When `n` has a successor, exactly that successor is cut out and is no longer in the list. Only `n` is written. |
| SList.Head.InsertHeadThenRemoveHead | zf_queue/zf_queue.h:130-148 | remove_head undoes insert_head: the contents and `first` are back to what they were, also from an empty list. |
| SList.Head.InsertAfterThenRemoveAfter | zf_queue/zf_queue.h:137-154 | remove_after undoes insert_after: the contents and `first` are back to what they were. |
| SList.Head.Swap | zf_queue/zf_queue.h:156-162 | The two heads exchange their `first` pointers and their contents, no node is written, and both stay well-formed. |
| SList.Head.SwapTwice | zf_queue/zf_queue.h:156-162 | Swapping twice gives each head back its own `first` and contents. |
| SList.Head.FollowFrom | zf_queue/zf_queue.h:124-128 | Taking `k` `next` steps from the node at position `i` reaches position `i + k`, or null just past the end. |
| SList.Head.Traversal | zf_queue/zf_queue.h:94-102 | The `next` chain from `first` visits exactly the contents, in order, and then ends in null. |
| STailQ.ChainedInsert | zf_queue/zf_queue.h:235-244 | Once the anchor links to the new node and the new node links to the anchor's old successor, the spliced sequence is a proper chain again. |
| STailQ.ChainedRemove | zf_queue/zf_queue.h:255-262 | Once a node links past its successor, the sequence without that successor is a proper chain again. |
| STailQ.Head.Initializer | zf_queue/zf_queue.h:178 | The static initializer gives a well-formed empty queue with `first` and `last` both null. |
| STailQ.Head.Init | zf_queue/zf_queue.h:180-184 | Init leaves a well-formed empty queue with `first` and `last` both null. |
| STailQ.Head.Empty | zf_queue/zf_queue.h:186-190 | True exactly when the queue has no nodes. |
| STailQ.Head.First | zf_queue/zf_queue.h:192-196 | The first node; null exactly when the queue is empty. |
| STailQ.Head.Last | zf_queue/zf_queue.h:198-202 | The final node of the contents, whose `next` is null; null exactly when the queue is empty. |
| STailQ.Head.Next | zf_queue/zf_queue.h:204-208 | The node after `n` in the contents; null exactly when `n` is the last node. |
| STailQ.Head.InsertHead | zf_queue/zf_queue.h:210-218 | The contents become `[n] + old` and `n` is first. `last` moves to `n` only when the queue was empty. |
| STailQ.Head.InsertTail | zf_queue/zf_queue.h:220-233 | The contents become `old + [n]`, `last` is `n`, and `n.next` is null. `first` changes, to `n`, only when the queue was empty. |
| STailQ.Head.InsertAfter | zf_queue/zf_queue.h:235-244 | `n` is spliced in right after `p` and the rest keeps its order. `first` is unchanged. `last` moves to `n` exactly when `p` was last. Afterwards `n` is `p`'s successor. |
| STailQ.Head.RemoveHead | zf_queue/zf_queue.h:246-253 | On a non-empty queue, exactly the first node is dropped. `last` is reset to null exactly when the queue had one node, and is unchanged otherwise. |
| STailQ.Head.RemoveAfter | zf_queue/zf_queue.h:255-262 | When `n` has a successor, exactly that successor is cut out and `first` is unchanged. `last` moves back to `n` exactly when the dropped node was last. |
| STailQ.Head.InsertHeadThenRemoveHead | zf_queue/zf_queue.h:210-253 | remove_head undoes insert_head: the contents, `first` and `last` are back to what they were, also from an empty queue. |
| STailQ.Head.InsertAfterThenRemoveAfter | zf_queue/zf_queue.h:235-262 | remove_after undoes insert_after: the contents, `first` and `last` are back to what they were, also when the anchor was last. |
| STailQ.Head.FollowFrom | zf_queue/zf_queue.h:204-208 | Taking `k` `next` steps from the node at position `i` reaches position `i + k`, or null just past the end. |
| STailQ.Head.LastEndsChain | zf_queue/zf_queue.h:172-176 | On a non-empty queue, `last` is where the `next` chain from `first` ends: one step fewer than the length reaches it, and one step more reaches null. |
| STailQ.Head.EndsAgree | zf_queue/zf_queue.h:172-176 | `first` is null exactly when `last` is null. |
| TailQ.NextLinkedRemove | include/zf_queue.hpp:91-103 | Once the entry before position `i` links forward past it, the sequence without position `i` is forward-linked again, ending in null. |
| TailQ.PrevLinkedRemove | include/zf_queue.hpp:91-103 | Once the entry after position `i` links back past it, the sequence without position `i` is backward-linked again, starting at `root`. |
| TailQ.Head.Initializer | include/zf_queue.hpp:17-22 | The head value has `root.next` null and `root.prev` equal to `root`. It is well-formed and empty, and both `first` and `last` read null. |
| TailQ.Head.Init | include/zf_queue.hpp:24-29 | Init gives the same state as the initializer, whatever the queue held: well-formed, empty, `root.prev == root`, and `first` and `last` null. |
| TailQ.Head.Empty | include/zf_queue.hpp:37-41 | True exactly when the queue has no elements. |
| TailQ.Head.First | include/zf_queue.hpp:43-47 | The first element; null exactly when the queue is empty. |
| TailQ.Head.Last | include/zf_queue.hpp:49-53 | The double indirection through `root.prev` gives the final element. On an empty queue it gives null. |
| TailQ.Head.Next | include/zf_queue.hpp:55-59 | The element after `e` in the contents; null exactly when `e` is last. |
| TailQ.Head.Prev | include/zf_queue.hpp:61-65 | The double indirection through `e.prev` gives the element before `e`, and null exactly when `e` is first. |
| TailQ.Head.EntryLinks | include/zf_queue.hpp:3-8 | Each entry's `next`, `prev` and `prev.prev` are its neighbours by position, with `root` before the first element. For the first element, `prev.prev` is the last entry. |
| TailQ.Head.RootLinks | include/zf_queue.hpp:49-53 | `root.prev` and `root.prev.prev` are `root` or queue entries, and `root.prev.prev.next` is the last element, or null when empty. |
| TailQ.Head.InsertHead | include/zf_queue.hpp:67-80 | The contents become `[e] + old` and `e` is first. On an empty queue `e` also becomes last; otherwise the last element is unchanged. The queue stays well-formed, back-links included. |
| TailQ.Head.InsertTail | include/zf_queue.hpp:82-89 | The contents become `old + [e]`, with no emptiness branch. Afterwards `e` is last and `e.next` is null. |
| TailQ.Head.Remove | include/zf_queue.hpp:91-103 | Exactly `e` is cut out and the rest keeps its order. `e`'s own fields are not written. If `e` was last, `root.prev` becomes `e`'s predecessor entry. The queue becomes empty exactly when `e` was its only element. |
| TailQ.Head.InsertHeadThenRemove | include/zf_queue.hpp:67-103 | remove undoes insert_head: the contents and both sentinel links are back to what they were, also from an empty queue. |
| TailQ.Head.InsertTailThenRemove | include/zf_queue.hpp:82-103 | remove undoes insert_tail: the contents and both sentinel links are back to what they were. |
| TailQ.Head.FollowFrom | include/zf_queue.hpp:55-59 | Taking `k` `next` steps from the element at position `i` reaches position `i + k`, or null just past the end. |
| TailQ.Head.Traversal | include/zf_queue.hpp:10-14 | The `next` chain from `root` visits exactly the contents, in order, and then ends in null. |
| TailQ.Head.PrevNext | include/zf_queue.hpp:55-65 | prev undoes next and next undoes prev: `Prev(Next(e)) == e` whenever `e` has a successor, and `Next(Prev(e)) == e` whenever it has a predecessor. |

## Left out

- The doubly-linked LIST operations, and the C-level tail queue's insert_before, insert_after, begin and end. zf_queue/zf_queue.h:264-278 only declares the LIST structures and gives no operation bodies, so there is nothing to model.
- The tests at test/test_zf_queue.h:165 and tests/zf_queue_tests.h:665 call `ZF_STAILQ_INITIALIZER(&h)`, which belongs to a version of the header other than the one modelled. The model follows zf_queue/zf_queue.h:172-262, where an empty queue has null `first` and `last`.
- zf_queue/zf_queue.hpp, the casting wrapper over `zf_entry_`, is not part of this model. It passes a pointer to the head pointer into `zf_slist_first` and applies `zf_entry_` to a possibly null `next`, so it does not forward faithfully to the C functions.
- EntryLookup.EntryOfMember: the layout trick of reading a field offset through a null element pointer is modelled as the plain offset `FieldAddress(0, offset)`.
- EntryLookup: addresses are unbounded integers. The model has no pointer width, wrap-around or alignment.
- zf_tailq_entry_ptr (include/zf_queue.hpp:31-35): an element and the entry it embeds are one object here, so this lookup is the identity.
- TailQ.Head.Initializer: the source returns a head value whose `root.prev` already points at `h->root`, to be copied into `*h`. The model constructs the head in place, which is the state that copy produces.
- SList.Head.Next, SList.Head.InsertAfter, SList.Head.RemoveAfter and STailQ.Head.Next: the C functions take no head. The model's head only supplies the ghost contents that the contracts are stated against. InsertAfter and RemoveAfter update those ghost contents, but they write no non-ghost head field (`first`).
- Each container is only said to be well-formed through its `Valid()` invariant.
  - An uninitialised head or node is not modelled.
  - Neither is a node linked into two containers at once.
  - Neither is a container whose links were corrupted outside these operations.
- Undefined behaviour in the C code is ruled out by preconditions, not modelled. This covers remove_head on an empty container, remove_after with no successor, an insert of an already linked node, and an anchor from another container.
- Concurrent use is not modelled: the source has no locking.
- Apart from `Scenarios.TailQBuild`, the scenarios in `Scenarios` do not allocate and build their nodes. They start from the container state stated in their preconditions.
