# orla containers in Dafny

A model of the three generic containers of the `orla` header-only library:

- `orla::vector`, a growable array. It doubles its buffer before an insertion that would overflow it. It halves the buffer after a deletion that leaves it non-empty and at most a quarter full.
- `orla::singly_linked_list`, a forward-linked list with head and tail pointers.
- `orla::doubly_linked_list`, the same list with backward links.

Each container is a Dafny `class` with the source's fields, and its methods update them in place.
The vector keeps its buffer as an `array<T>` with `capacity` slots. Its items are the `size`-long prefix, `Contents()`.
The lists hold `Node` objects linked through mutable `next` (and `prev`) fields. Each list carries ghost `Contents` (the items from head to tail), `Nodes` (the node objects in order) and `Repr` (its footprint). `Valid()` ties these ghost fields to the head, tail, size and links.
Every public operation is proved against a specification stated on `Contents`.
Where the source throws `std::out_of_range` or `std::logic_error`, the model returns `Err(OutOfRange)` / `Failure(OutOfRange)` or `Err(LogicError)`. In those cases it changes nothing.

Modules:

- `ContainerErrors` (errors.dfy): the two exception kinds, and the `Result` / `Status` values that carry them.
- `ListSpec` (list_spec.dfy): the specification functions shared by both lists.
  - `Reverse` and `RemoveFirst` (the lists call their comparator as `cmp(value, item)`) and their lemmas.
  - The node-distinctness lemmas used by the list proofs.
- `Vector` (vector.dfy): `orla::vector`, with its capacity policy as functions.
  - `ShrunkCapacity` is the shrink rule of `check_resize(false)`.
  - `CapacityAfterErasures` is that rule applied after each of several erasures.
  - `RemoveAll` (the comparator is called as `cmp(item, value)`) specifies `remove`.
- `SinglyLinkedList` (singly_linked_list.dfy): `orla::singly_linked_list`.
  - The `node_t**` cursor the source walks is the predecessor node, with `null` standing for the address of the head field. `LinkTarget(pred)` is `*link`.
  - `remove_next_node` carries the corrected tail update described under Findings.
- `DoublyLinkedList` (doubly_linked_list.dfy): `orla::doubly_linked_list`, the same with backward links.
- `SinglyAsWritten` (singly_as_written.dfy): a pointer-level model of the singly list's `remove_next_node` exactly as written.
  - Nodes are cells of an arena, and a link is either the head field or a cell's `next`.
  - `container_of` of the head field's address is an address that is not a node. Writing that address's `next` member writes the head field.
- `Scenarios` (scenarios.dfy), client runs:
  - `test_vector` of test/test.cpp, step by step, with every capacity it checks;
  - the concrete list runs;
  - the multi-call properties: a push undone by a pop, a reverse undone by a second reverse, `value_n_from_end` at both ends, and the asymmetry between `remove` and `remove_value`.

Two points of the capacity policy and of `remove`, as the code has them:

- `check_resize` (vector/vector.hpp:226-236) has no floor at the initial capacity, and test/test.cpp:49-53 expects the capacity to drop to 2. `ShrunkCapacity` halves down to 2, and `Vector.Valid` keeps the capacity at least 2 and a power of two.
- `remove` resumes `find_from_index` at the erased index instead of rescanning from 0 (vector/vector.hpp:180-190), and the model does the same. The result is the same as a rescan. `Vector.Vector.Remove` proves it is `RemoveAll` of the old items.

## Model

| member | source | states |
|---|---|---|
| Vector.ShrinkKeepsBounds | vector/vector.hpp:226-236 | the shrink rule never drops the capacity below the size; it keeps a capacity of at least 2 that is a power of two |
| Vector.RemoveAll | vector/vector.hpp:180-190 | what `remove` leaves is no longer than the input and holds no item the comparator matches |
| Vector.RemoveAllErase | vector/vector.hpp:180-190 | erasing one matching item leaves `RemoveAll` unchanged: the invariant of the remove loop |
| Vector.RemoveAllNoMatch | vector/vector.hpp:193-205 | when nothing matches, `RemoveAll` keeps every item: the exit of the remove loop |
| Vector.Vector.constructor | vector/vector.hpp:49-60 | a new vector is empty, at capacity 16, with the given comparator |
| Vector.Vector.At | vector/vector.hpp:88-94 | returns item `index` when `index < size`, otherwise an out-of-range error |
| Vector.Vector.Push | vector/vector.hpp:97-103 | appends the item; the capacity doubles exactly when the vector was full |
| Vector.Vector.Insert | vector/vector.hpp:106-125 | refuses `index > size`; otherwise puts the item at `index` and shifts the tail right, doubling the capacity when full |
| Vector.Vector.Prepend | vector/vector.hpp:128-131 | puts the item in front, doubling the capacity when full |
| Vector.Vector.Pop | vector/vector.hpp:134-142 | refuses an empty vector; otherwise returns the last item, drops it and applies the shrink rule |
| Vector.Vector.EraseAt | vector/vector.hpp:145-162 | refuses `index >= size`; otherwise removes item `index`, keeping the order of the rest, and applies the shrink rule |
| Vector.Vector.Find | vector/vector.hpp:165-177 | returns the first index whose item matches, or -1 when none does |
| Vector.Vector.FindFromIndex | vector/vector.hpp:193-205 | returns the first matching index at or after `index`, or -1 |
| Vector.Vector.Remove | vector/vector.hpp:180-190 | leaves exactly the items that do not match, in order, with the capacity after one shrink check per erased item |
| Vector.Vector.Resize | vector/vector.hpp:208-223 | refuses a capacity below the size; otherwise moves the items unchanged into a fresh buffer of the new capacity |
| Vector.Vector.CheckResize | vector/vector.hpp:226-236 | keeps the items; before an addition it doubles a full buffer, after a deletion it applies the shrink rule |
| Vector.Vector.PostDeleteActions | vector/vector.hpp:239-243 | drops the last item and applies the shrink rule |
| ListSpec.Reverse | singly_linked_list/singly_linked_list.hpp:233-251 | reversal keeps the length |
| ListSpec.ReverseAt | singly_linked_list/singly_linked_list.hpp:233-251 | position k of the reversed items holds the k-th item from the end |
| ListSpec.ReverseInvolution | doubly_linked_list/doubly_linked_list.hpp:226-242 | reversing twice gives back the original items |
| ListSpec.RemoveFirst | singly_linked_list/singly_linked_list.hpp:254-268 | removing the first match takes away at most one item |
| ListSpec.RemoveFirstNoMatch | singly_linked_list/singly_linked_list.hpp:260-267 | with no matching item, `remove_value` changes nothing |
| ListSpec.RemoveFirstAt | singly_linked_list/singly_linked_list.hpp:260-267 | when item k is the first match, `remove_value` removes exactly item k |
| SinglyLinkedList.List.constructor | singly_linked_list/singly_linked_list.hpp:65-75 | a new list is empty, with the given comparator |
| SinglyLinkedList.List.ValueAt | singly_linked_list/singly_linked_list.hpp:102-112 | returns item `index` when `index < size`, otherwise an out-of-range error |
| SinglyLinkedList.List.PushFront | singly_linked_list/singly_linked_list.hpp:115-118 | puts the item in front, in a fresh head node |
| SinglyLinkedList.List.PopFront | singly_linked_list/singly_linked_list.hpp:121-129 | refuses an empty list; otherwise returns and unlinks the first item; popping the sole node leaves head and tail null |
| SinglyLinkedList.List.PushBack | singly_linked_list/singly_linked_list.hpp:132-145 | appends the item in a fresh tail node; the head stays unless the list was empty |
| SinglyLinkedList.List.PopBack | singly_linked_list/singly_linked_list.hpp:148-170 | refuses an empty list; otherwise returns and unlinks the last item; the tail moves to the last-but-one node, or null |
| SinglyLinkedList.List.Front | singly_linked_list/singly_linked_list.hpp:173-179 | the first item, or a logic error when empty |
| SinglyLinkedList.List.Back | singly_linked_list/singly_linked_list.hpp:182-188 | the last item, or a logic error when empty |
| SinglyLinkedList.List.Insert | singly_linked_list/singly_linked_list.hpp:191-217 | refuses `index > size`; otherwise puts the item at `index`; the first node of an empty list is head and tail |
| SinglyLinkedList.List.LinkAt | singly_linked_list/singly_linked_list.hpp:202-216 | splices a fresh node into the link after `pred`, so that it becomes node k; the tail is set only when it was null |
| SinglyLinkedList.List.ValueNFromEnd | singly_linked_list/singly_linked_list.hpp:220-230 | returns the n-th item from the end when `n < size`, otherwise an out-of-range error |
| SinglyLinkedList.List.Reverse | singly_linked_list/singly_linked_list.hpp:233-251 | relinks the same nodes in the opposite order; head and tail swap |
| SinglyLinkedList.List.RemoveValue | singly_linked_list/singly_linked_list.hpp:254-268 | removes the first item the comparator matches, and only that one |
| SinglyLinkedList.List.Erase | singly_linked_list/singly_linked_list.hpp:271-287 | refuses `index >= size`; otherwise removes item `index`, keeping the order of the rest |
| SinglyLinkedList.List.RemoveNextNode | singly_linked_list/singly_linked_list.hpp:290-300 | unlinks node k from the link after `pred` and drops it from the footprint; when it was the last node, the tail becomes `pred` (null for the head field) |
| DoublyLinkedList.List.ValidIsBidirectional | doubly_linked_list/doubly_linked_list.hpp:34-39 | in a valid list, each node's successor links back to it and each node's predecessor links forward to it; the head has no predecessor and the tail no successor |
| DoublyLinkedList.List.constructor | doubly_linked_list/doubly_linked_list.hpp:51-61 | a new list is empty, with the given comparator |
| DoublyLinkedList.List.ValueAt | doubly_linked_list/doubly_linked_list.hpp:88-98 | returns item `index` when `index < size`, otherwise an out-of-range error |
| DoublyLinkedList.List.PushFront | doubly_linked_list/doubly_linked_list.hpp:101-104 | puts the item in front, in a fresh head node |
| DoublyLinkedList.List.PopFront | doubly_linked_list/doubly_linked_list.hpp:107-115 | refuses an empty list; otherwise returns and unlinks the first item; popping the sole node leaves head and tail null |
| DoublyLinkedList.List.PushBack | doubly_linked_list/doubly_linked_list.hpp:118-132 | appends the item in a fresh tail node whose back link is the old tail |
| DoublyLinkedList.List.PopBack | doubly_linked_list/doubly_linked_list.hpp:135-153 | refuses an empty list; otherwise returns and unlinks the last item; the tail moves back one node, and head and tail become null when it was the sole node |
| DoublyLinkedList.List.Front | doubly_linked_list/doubly_linked_list.hpp:156-162 | the first item, or a logic error when empty |
| DoublyLinkedList.List.Back | doubly_linked_list/doubly_linked_list.hpp:165-171 | the last item, or a logic error when empty |
| DoublyLinkedList.List.Insert | doubly_linked_list/doubly_linked_list.hpp:174-210 | refuses `index > size`; otherwise puts the item at `index`; the first node of an empty list is head and tail |
| DoublyLinkedList.List.LinkAt | doubly_linked_list/doubly_linked_list.hpp:185-209 | splices a fresh node into the link after `pred`, with both of its neighbours' links updated, so that it becomes node k |
| DoublyLinkedList.List.ValueNFromEnd | doubly_linked_list/doubly_linked_list.hpp:213-223 | returns the n-th item from the end when `n < size`, otherwise an out-of-range error, walking back from the tail |
| DoublyLinkedList.List.Reverse | doubly_linked_list/doubly_linked_list.hpp:226-242 | swaps every node's two links; the same nodes end in the opposite order and head and tail swap |
| DoublyLinkedList.List.RemoveValue | doubly_linked_list/doubly_linked_list.hpp:245-259 | removes the first item the comparator matches, and only that one |
| DoublyLinkedList.List.Erase | doubly_linked_list/doubly_linked_list.hpp:262-278 | refuses `index >= size`; otherwise removes item `index`, keeping the order of the rest |
| DoublyLinkedList.List.RemoveNextNode | doubly_linked_list/doubly_linked_list.hpp:281-293 | unlinks node k, relinking its successor back to its predecessor; when it was the last node, the tail becomes its predecessor |
| SinglyAsWritten.Empty | singly_linked_list/singly_linked_list.hpp:65-75 | the constructed list has null head and tail and size 0 |
| SinglyAsWritten.NextLinkOfContainer | singly_linked_list/singly_linked_list.hpp:16-20 | `&container_of(link)->next` is `link` again, the head field included |
| SinglyAsWritten.PushBack | singly_linked_list/singly_linked_list.hpp:132-145 | sets the head to the new cell when the tail is null; otherwise writes the new cell through the tail's `next`, which is the head field when the tail is the fake head-slot owner |
| SinglyAsWritten.PushFront | singly_linked_list/singly_linked_list.hpp:191-217 | the new cell becomes the head; the tail changes only when it is null |
| SinglyAsWritten.RemoveNextNode | singly_linked_list/singly_linked_list.hpp:290-300 | as written: removing the last cell sets the tail to `container_of(link)`, whatever the link |
| SinglyAsWritten.PopFront | singly_linked_list/singly_linked_list.hpp:121-129 | refuses an empty list; otherwise removes through the head field and decrements the size |
| SinglyAsWritten.PopSoleNodeLeavesFakeTail | singly_linked_list/singly_linked_list.hpp:294-295 | popping the sole node leaves an empty list whose tail is not null but the head field's fake owner |
| SinglyAsWritten.FakeTailLosesNode | singly_linked_list/singly_linked_list.hpp:138-144 | from that state, push_front x then push_back y gives size 2 with only y reachable from the head |
| SinglyAsWritten.LostNodeRun | singly_linked_list/singly_linked_list.hpp:121-145 | push_back 1, pop_front, push_front 2, push_back 3 ends with size 2 and only the item 3 reachable |
| Scenarios.VectorPushTwo | test/test.cpp:11-20 | a new vector is empty at capacity 16; after push(1), push(2) the size is 2, at(0) is 1 and at(1) is 2 |
| Scenarios.VectorInsertPrepend | test/test.cpp:22-32 | insert(1, 3) makes at(1) 3 and at(2) 2; prepend(4) gives [4, 1, 3, 2], size 4, at capacity 16 |
| Scenarios.VectorRemoveThree | test/test.cpp:34-40 | find(3) is 2; remove(3) leaves [4, 1, 2] at capacity 8, with size 3 and at(2) 2; find(3) is then -1 |
| Scenarios.VectorEraseOne | test/test.cpp:42-47 | find(1) is 1; erase_at(1) leaves [4, 2] at capacity 4, with size 2 and at(1) 2; find(1) is then -1 |
| Scenarios.VectorPopInsertPush | test/test.cpp:49-64 | pop() gives 2, leaving size 1, capacity 2 and at(0) 4; insert(1, 5) gives size 2, capacity 2, at(0) 4 and at(1) 5; push(4) doubles the capacity to 4 |
| Scenarios.VectorRemoveFourPop | test/test.cpp:66-77 | remove(4) deletes both fours, leaving size 1, at(0) 5 and capacity 2; the last pop() gives 5, empties the vector and keeps capacity 2 |
| Scenarios.VectorTest | test/test.cpp:9-78 | the whole `test_vector` run: the result of each of its fourteen `at` calls, the size each `size()` and `is_empty()` check observes, every `find` answer, the capacity after each step and both popped values |
| Scenarios.VectorPushPop | vector/vector.hpp:97-142 | a push followed by a pop returns the pushed item and restores the items |
| Scenarios.SinglyReverseRun | singly_linked_list/singly_linked_list.hpp:191-251 | insert(0, 1), insert(1, 2), reverse give [2, 1]; a second reverse gives [1, 2] |
| Scenarios.SinglyPopSoleNodeRun | singly_linked_list/singly_linked_list.hpp:121-145 | with the corrected tail update, push_back 1, pop_front, push_front 2, push_back 3 keep [2, 3] |
| Scenarios.DoublyEraseRun | doubly_linked_list/doubly_linked_list.hpp:262-278 | push_back 1, 2, 3 and erase(1) give front 1, back 3 and size 2 |
| Scenarios.VectorRemovesEveryMatch | vector/vector.hpp:180-190 | `remove(1)` on [1, 2, 1] leaves [2] |
| Scenarios.SinglyRemovesFirstMatch | singly_linked_list/singly_linked_list.hpp:254-268 | `remove_value(1)` on [1, 2, 1] leaves [2, 1] |
| Scenarios.DoublyRemovesFirstMatch | doubly_linked_list/doubly_linked_list.hpp:245-259 | `remove_value(1)` on [1, 2, 1] leaves [2, 1] |
| Scenarios.SinglyReverseTwice | singly_linked_list/singly_linked_list.hpp:233-251 | reversing twice restores the items and the node order |
| Scenarios.DoublyReverseTwice | doubly_linked_list/doubly_linked_list.hpp:226-242 | reversing twice restores the items and the node order |
| Scenarios.SinglyNFromEndEnds | singly_linked_list/singly_linked_list.hpp:173-230 | `value_n_from_end(0)` equals `back()`, `value_n_from_end(size - 1)` equals `front()`, and `value_n_from_end(size)` is out of range |
| Scenarios.DoublyNFromEndEnds | doubly_linked_list/doubly_linked_list.hpp:156-223 | the same for the doubly linked list |
| Scenarios.EmptyContainersRefuse | vector/vector.hpp:88-142 | on empty containers, `at(0)` and `value_at(0)` are out of range; `pop`, `pop_front` and `pop_back` are logic errors |

## Left out

- Destructors, `new` and `delete`: the model has no explicit deallocation. A removed node simply leaves `Repr`, and a replaced buffer is no longer referenced.
- The copy constructors the lists delete, and the comparator null check of the constructors. A Dafny function value is never null, so the `std::invalid_argument` path cannot arise.
- `size()`, `capacity()` and `is_empty()`: they return the fields `size` and `capacity`, which the model reads directly.
- Write access through the `T&` that `at`, `value_at`, `front`, `back` and `value_n_from_end` return: the model returns the item's value. List nodes keep their item in a `const` field.
- `container_of`'s byte arithmetic: `SinglyAsWritten.ContainerOf` maps a cell's link to the cell and the head field's address to a non-node address, without modelling `offsetof`.
- Vector.Vector.Insert: the shift loop's unsigned counter, which wraps past zero to end the loop, is modelled as an ordinary descending loop that copies the same slots.
- Vector.Vector.Push: `size_t` overflow of `capacity * 2` is not modelled; capacities are unbounded.
- Vector.Vector.Find: does not model the narrowing of the `size_t` index to `int` in its result, which needs more than 2^31 items.
- Vector.Vector.FindFromIndex: does not model the same narrowing.
- The asymptotic costs.
- `main` of test/test.cpp: it only calls `test_vector`. `Scenarios.VectorTest` follows that test step by step, and its postconditions state the value of every `at`, `size()`, `is_empty()`, `capacity()`, `find` and `pop` the test checks.
- SinglyLinkedList.List.RemoveNextNode: states the corrected tail update (the tail becomes `pred`, null for the head field). The code as written sets it to `container_of(node, node_t, next)`, which for the head field is not null; see Findings.
- SinglyLinkedList.List.PopFront: popping the sole node leaves a null tail here, because it goes through the corrected `remove_next_node`. The code as written leaves the tail at the head field's fake owner; see Findings.
- SinglyLinkedList.List.RemoveValue: the class model uses the corrected `remove_next_node`. Removing the sole item therefore leaves a null tail here, unlike the code as written (see Findings).

## Findings

| source | as written | input that shows it | evidently intended | confidence | as-written member | corrected member |
|---|---|---|---|---|---|---|
| singly_linked_list/singly_linked_list.hpp:294-295 | when the removed node is the last one, `remove_next_node` sets the tail to `container_of(node, node_t, next)`. For the head field's address (from `pop_front`, or `remove_value` on a one-item list) that is not a node and not null, so the tail of the now empty list is a bogus pointer whose `next` member is the head field | push_back 1; pop_front; push_front 2; push_back 3: `push_front` keeps the bogus tail, and `push_back` then writes the new node into the head field, so size is 2 but only 3 is reachable and the node holding 2 is lost | the tail becomes null when the head node is removed, as `pop_back` does at singly_linked_list/singly_linked_list.hpp:162-163 | not executed | SinglyAsWritten.LostNodeRun | SinglyLinkedList.List.RemoveNextNode |
