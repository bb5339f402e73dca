# A doubly-linked list with `remove_if`, verified in Dafny

This project models `linked_list`, a small Rust library. It is a cut-down
doubly-linked list in the style of the standard library's, with one extra
operation: `remove_if`. Every node holds `prev`, `next` and an element. The list
holds `head` and `tail`. The operations are:

- `new`.
- `push_front` and `push_back`.
- `pop_front` and `pop_back`.
- `front`, `back` and `is_empty`.
- `remove_if(f)`, which unlinks and frees every node whose element `f` selects.
- `clear` and the `Drop` teardown.
- Two forward cursors, `Iter` and `IterMut`.

The source manipulates raw pointers. The model follows that closely:

- A node is a heap object, `LinkedLists.Node`, whose `prev`, `next` and `elem` fields are updated in place.
- The list is a class, `LinkedLists.LinkedList`, with the `head` and `tail` fields. Its ghost state is:
  - `Contents`: the elements from head to tail.
  - `Nodes`: the live nodes, in the same order.
  - `Repr`: the footprint.
- Freeing a node (`Box::from_raw`) is modelled as the node leaving `Nodes` and `Repr`. Within `remove_if`'s loop, a ghost set of live nodes (`Live`) stands for the allocation: each selected node leaves it as it is released, and when the loop ends the list's `Repr` becomes that set.
- `LinkedList.Valid` is the link invariant:
  - each node's `next` is its successor and its `prev` is its predecessor;
  - the head has no `prev` and the tail has no `next`;
  - `head` and `tail` are absent together.
- That nodes are pairwise distinct follows from the chain (`ChainDistinct`).
- `remove_if`'s loop is split into one method per iteration (`Visit`). Its loop invariant is `Swept`:
  - the survivors so far are chained from the new head to the last survivor;
  - the unvisited suffix is still linked as before;
  - the survivors' elements are `Surviving` of the visited prefix.
- `Sequences.Surviving` is the abstract meaning of `remove_if`: the elements `f` does not select, in their order. `Sequences.SurvivingBy` picks the surviving nodes the same way, by the elements they hold.

The unit tests of `src/lib.rs` are scenario methods in `ListTests`. Each postcondition states the test's expectations; `ClearTest` also states two checks beyond its test (see Left out).

`remove_if` as written frees a node and then reads that node's `next` (see Findings). The main model reads `next` first, as `clear` does. The as-written order is modelled separately in `RemoveIfFault`, on an explicit arena in which reading a freed address is a fault.

## Model

| member | source | states |
|---|---|---|
| Sequences.SurvivingMembers | src/lib.rs:123-140 | every element left by removal was in the list and is one `f` rejects |
| Sequences.SurvivingAppend | src/lib.rs:123-143 | removal distributes over concatenation, so one forward pass deciding node by node computes it |
| Sequences.SurvivingIsSubsequence | src/lib.rs:134-140 | the survivors keep their original relative order |
| Sequences.SurvivingCount | src/lib.rs:125-140 | each rejected value survives with all its occurrences; each selected value is gone |
| Sequences.SurvivingUnchangedIff | src/lib.rs:115-148 | removal leaves the contents unchanged exactly when `f` selects no element |
| Sequences.SurvivingEmptyIff | src/lib.rs:115-148 | removal empties the contents exactly when `f` selects every element |
| Sequences.SurvivingByAppend | src/lib.rs:123-143 | choosing the surviving nodes distributes over concatenation, so the pass can decide node by node |
| Sequences.SurvivingBySelf | src/lib.rs:134-140 | choosing by the elements themselves gives exactly `Surviving`, so surviving nodes and surviving elements agree |
| Sequences.SurvivingKeepsAll | src/lib.rs:115-148 | when `f` selects no element, removal keeps the whole sequence |
| Sequences.SurvivingIdempotent | src/lib.rs:115-148 | removing a second time with the same predicate removes nothing more |
| LinkedLists.NoRepeatFrom | src/lib.rs:7-11 | in a chain ending in a node with no `next`, no node occurs twice |
| LinkedLists.ChainDistinct | src/lib.rs:14-17 | the nodes of a well-formed chain are pairwise distinct |
| LinkedLists.SweepStart | src/lib.rs:119-121 | before the first iteration, nothing has been kept, there is no new head or tail, and the cursor is the head |
| LinkedLists.ReleaseStep | src/lib.rs:133 | the visited node is live, and releasing it leaves exactly the live nodes of the next position |
| LinkedLists.SurvivingNodesStep | src/lib.rs:134-140 | one more visited node extends the surviving nodes by that node exactly when `f` rejects its element |
| LinkedLists.KeepLive | src/lib.rs:134-140 | keeping a node does not change the set of live nodes |
| LinkedLists.KeepStep | src/lib.rs:134-140 | keeping a rejected node makes it the last survivor (and the first if none yet) and extends the survivors' elements by its element |
| LinkedLists.SweepDone | src/lib.rs:144-147 | when the cursor runs out, the survivors form a well-linked list; they are the old nodes whose element `f` rejects, in order, holding `Surviving(contents, f)`; the live nodes are exactly the survivors, and no selected node is live |
| LinkedLists.Unlink | src/lib.rs:125-131 | splicing a node out points its predecessor at its successor and back, and keeps the survivors and the unvisited suffix linked |
| LinkedLists.DropNode | src/lib.rs:125-133 | unlinking a selected node preserves the sweep invariant at the next position, and releasing it takes exactly that node out of the live nodes |
| LinkedLists.Visit | src/lib.rs:123-142 | one loop iteration reads the successor, preserves the sweep invariant, extends the surviving nodes exactly when `f` rejects the element, releases a selected node from the live nodes, and advances the cursor to the visited node's old successor |
| LinkedLists.Sweep | src/lib.rs:119-144 | the loop ends with the survivors linked from the new head to the new tail; they are the old nodes whose element `f` rejects, in order, holding `Surviving(contents, f)`; the live nodes are exactly the survivors, and every selected node has been released |
| LinkedLists.LinkedList.Forward | src/lib.rs:14-17 | walking `k` steps along `next` from `head` reaches the `k`-th node, or nothing past the tail |
| LinkedLists.LinkedList.Backward | src/lib.rs:14-17 | walking `k` steps along `prev` from `tail` reaches the `k`-th node from the end, or nothing past the head |
| LinkedLists.LinkedList.constructor | src/lib.rs:21-26 | a new list is valid and empty, `head` and `tail` are absent, and `front`/`back` are None |
| LinkedLists.LinkedList.PushFront | src/lib.rs:29-48 | contents become `[e] + old`; the fresh node is the new head; `front` is `e`; `back` is `e` on an empty list and unchanged otherwise |
| LinkedLists.LinkedList.PushBack | src/lib.rs:51-70 | contents become `old + [e]`; the fresh node is the new tail; `back` is `e`; `front` is `e` on an empty list and unchanged otherwise |
| LinkedLists.LinkedList.PopFront | src/lib.rs:73-86 | a no-op on an empty list; otherwise drops the first element and frees the old head; a one-element list ends with no head and no tail; the new head has no `prev` |
| LinkedLists.LinkedList.PopBack | src/lib.rs:89-102 | a no-op on an empty list; otherwise drops the last element and frees the old tail; a one-element list ends with no head and no tail; the new tail has no `next` |
| LinkedLists.LinkedList.Front | src/lib.rs:105-107 | None exactly when the list is empty, otherwise the first element |
| LinkedLists.LinkedList.Back | src/lib.rs:110-112 | None exactly when the list is empty, otherwise the last element |
| LinkedLists.LinkedList.IsEmpty | src/lib.rs:167-169 | true exactly when the contents are empty |
| LinkedLists.LinkedList.RemoveIf | src/lib.rs:115-148 | the link invariant holds afterwards; the contents are exactly the elements `f` rejects, in order; the nodes are exactly the old nodes whose element `f` rejects, in order; every selected node is freed and no node is added |
| LinkedLists.LinkedList.Install | src/lib.rs:146-147 | making the first and last of a well-linked chain the new `head` and `tail` yields a valid list of exactly that chain, owning only those nodes |
| LinkedLists.LinkedList.ReleaseAll | src/lib.rs:173-181 | walking from `head` and reading each successor before freeing the node frees every node |
| LinkedLists.LinkedList.Clear | src/lib.rs:172-185 | every node is freed; the list is valid and empty with no head or tail, whatever its state before, so a second clear changes nothing |
| LinkedLists.LinkedList.Drop | src/lib.rs:189-199 | every node the list owned is freed |
| LinkedLists.LinkedList.Iter | src/lib.rs:151-156 | a fresh read-only cursor positioned at the head |
| LinkedLists.LinkedList.IterMut | src/lib.rs:159-164 | a fresh writing cursor positioned at the head |
| LinkedLists.Iter.constructor | src/lib.rs:152-155 | the cursor starts at the list's head |
| LinkedLists.Iter.Next | src/lib.rs:229-239 | yields the element at the cursor's position and advances by one; at the end, yields None and stays |
| LinkedLists.IterMut.constructor | src/lib.rs:160-163 | the cursor starts at the list's head |
| LinkedLists.IterMut.Next | src/lib.rs:251-261 | the yielded element is replaced by the caller's write and nothing else changes; no node, `next`, `prev`, `head` or `tail` changes; at the end it yields None |
| ListTests.Collect | src/lib.rs:308-310 | draining `iter()` yields exactly the contents, head to tail, and terminates |
| ListTests.ForEachMut | src/lib.rs:324-327 | draining `iter_mut()` while writing replaces each element by its image, leaves the nodes, their order, `head` and `tail` as they were, and yields the new contents |
| ListTests.ItWorksStart | src/lib.rs:270-278 | after pushing 1 and 2 at the back, front and back are (1, 1) and then (1, 2) |
| ListTests.ItWorks | src/lib.rs:269-295 | front and back after each step are (1,1), (1,2), (0,2), (0,1), (1,1), (None, None) |
| ListTests.Range | src/lib.rs:336-338 | the integers 0 up to, but not including, `n`, in order |
| ListTests.PushRange | src/lib.rs:336-338 | pushing 0 up to, but not including, `n` at the back gives a list with those contents, in order |
| ListTests.IterTest | src/lib.rs:298-311 | iterating the list 0, 1, 2, 3 yields 0, 1, 2, 3 |
| ListTests.IterMutTest | src/lib.rs:314-328 | doubling through `iter_mut` on 0, 1, 2, 3 yields 0, 2, 4, 6 |
| ListTests.OddsRemoved | src/lib.rs:340 | removing the odd elements of 0 to 5 leaves 0, 2, 4 |
| ListTests.RemoveIfTest | src/lib.rs:331-349 | after removing the odd elements, iteration yields 0, 2, 4; after removing everything, front and back are None |
| ListTests.ClearTest | src/lib.rs:352-363 | a cleared list is empty; beyond the test, a second clear leaves it empty and iteration then yields nothing |
| RemoveIfFault.SetNext | src/lib.rs:126-128 | only the predecessor's `next` changes, and no address is freed |
| RemoveIfFault.SetPrev | src/lib.rs:129-131 | only the successor's `prev` changes, and no address is freed |
| RemoveIfFault.Splice | src/lib.rs:125-133 | the neighbours skip the node, its address is freed, and every other slot is unchanged |
| RemoveIfFault.StepAsWritten | src/lib.rs:123-143 | the as-written iteration faults on every selected node, and otherwise advances to the node's `next` |
| RemoveIfFault.StepCorrected | src/lib.rs:123-143 | reading `next` before the free never faults, and advances to the node's old successor |
| ListTests.TestArena | src/lib.rs:336-338 | the arena holds the six nodes of the list 0 to 5 |
| ListTests.TestFaultsAtSecondNode | src/lib.rs:340 | on 0 to 5 with the odd predicate, node 0 is kept, node 1 faults as written, and the corrected step reaches node 2 |

## Left out

- Raw pointers, `NonNull`, `Box` and `PhantomData` are not modelled as such. Nodes are heap objects, and freeing is removal from the footprint. Reading a freed node is only modelled in `RemoveIfFault`.
- The borrow lifetimes of `Iter` and `IterMut` are not modelled. The model has only the cursor's own invariant: the list it walks is valid and unchanged apart from the writes.
- `iter_mut` takes `&self` in the source, so elements can be written through a shared reference. The model gives `IterMut.Next` leave to write the list's nodes; it says nothing about that aliasing hazard.
- LinkedLists.IterMut.Next: the write through the yielded `&mut T` is modelled as a function `write` passed to `Next`. It is applied at the moment the element is yielded, rather than at any later time while the reference lives.
- LinkedLists.LinkedList.RemoveIf: `f` is a pure function `T -> bool`. A `FnMut` closure's side effects and panics are not modelled.
- LinkedLists.DropNode: the release takes the node out of a ghost set of live nodes carried through the loop, and `RemoveIf` makes the list's `Repr` equal to that set only when the loop ends. Within the loop the list's `Repr` still names released nodes, so the main model does not check that a released node is never read again; the order of the read at src/lib.rs:142 against the free at src/lib.rs:133 is modelled in `RemoveIfFault`.
- ListTests.ClearTest: clears a second time and iterates afterwards, beyond clear_test's single `is_empty` check.
- LinkedLists.LinkedList.Drop: states only that every node is freed. After `drop`, the list itself is unusable.
- The `IntoIterator` impls (src/lib.rs:202-218) are one-line forwards to `iter` and `iter_mut` and are not modelled separately.
- examples/showobj.rs prints from constructors and destructors. That I/O is not part of this model.
- ListTests: the tests' `for` loops over the cursors are modelled by `Collect` and `ForEachMut`. Each checks the whole yielded sequence against the expected vector, rather than each `assert_eq!` inside the loop.
- ListTests: the four `push_back` calls of iter_test, itermut_test and clear_test are modelled by the loop `PushRange(4)`. It yields the same contents.

## Findings

| source | as written | input that shows it | evidently intended | confidence | as-written member | corrected member |
|---|---|---|---|---|---|---|
| src/lib.rs:133, src/lib.rs:142 | `remove_if` frees a selected node (`Box::from_raw`, line 133), then reads that freed node's `next` to advance (line 142), a use after free | the list 0, 1, 2, 3, 4, 5 with `f = i % 2 == 1`, as in remove_if_test: node 1 is freed and then read | read the successor before freeing the node, as `clear` does at src/lib.rs:177 | not executed | RemoveIfFault.StepAsWritten, ListTests.TestFaultsAtSecondNode | LinkedLists.LinkedList.RemoveIf, RemoveIfFault.StepCorrected |
