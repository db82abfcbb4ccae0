# linked_list: a verified model

A model of `linked_list.c`, a small C library for a mutable singly-linked list
of `unsigned int` values with a forward iterator. The library has three parts:
- a list header (`struct linked_list`) holding `head`;
- nodes (`struct node`) holding `data` and `next`;
- an iterator (`struct iterator`) holding the list, the current node, its index
  and a copy of its value.

Storage comes from a `malloc`-like function registered at run time. The model
is written as heap code:
- `Node`, `LinkedList` and `Iterator` are Dafny classes with those fields.
- Each modelled C function is a method that relinks `next` pointers and moves
  cursors in loops. It follows the function's doc-comment; where the code
  departs from it, see "## Findings". The allocator-registration functions
  are not modelled (see "## Left out").
- Each method is proved against the abstract sequence of values,
  `LinkedList.Contents`.

Files:
- `list_spec.dfy` (module `ListSpec`): the value type `u32` (32-bit
  `unsigned int`), `SIZE_MAX` (64-bit `size_t`), and the abstract operations
  on sequences: `InsertAt`, `RemoveAt`, `Scan`, `IndexOf`. It also holds the
  laws relating them: order preservation, remove-after-insert, the find law
  and size consistency.
- `linked_list.dfy` (module `LinkedLists`): the three classes and one method
  per C function.
  - `LinkedList.Valid()` is the list invariant. The chain from `head` visits
    the ghost spine `Nodes` in order, each node once. It ends in null, and its
    values spell `Contents`.
  - A C function that accepts a NULL pointer takes a nullable reference.
  - A call to `malloc_fptr` is a boolean parameter `alloc`, true when the
    allocator returned storage.
  - Nodes handed to `free_fptr` are reported in a ghost out-parameter
    `released`.
- `as_written.dfy` (module `AsWritten`): four functions as the C code behaves,
  where it contradicts its own documentation (see "## Findings").
- `scenarios.dfy` (module `Scenarios`): usage scenarios of the list and
  iterator as client methods, checked against the contracts of `LinkedLists`
  alone.

## Model

| member | source | states |
|---|---|---|
| `ListSpec.Scan` | linked_list.c:144-153 | The value of find's scan loop. It is the number of elements before the first one equal to `x`, and `|s|` when none is. The result is `< |s|` exactly when `x` occurs, it holds `x` there, and no earlier position holds `x`. |
| `ListSpec.IndexOf` | linked_list.c:135-138 | The documented result of find. When `x` occurs it is the first position holding `x`, and every earlier position differs. When `x` is absent it is `SIZE_MAX`. |
| `ListSpec.InsertAtPositions` | linked_list.c:80-86 | Order preservation. Inserting at `i` keeps every position before `i`, puts the value at `i`, shifts every later value up by one and grows the length by one. |
| `ListSpec.InsertAtEnds` | linked_list.c:97-115 | Inserting at index 0 is inserting at the front. Inserting at index `|s|` is appending. |
| `ListSpec.RemoveAtPositions` | linked_list.c:156-191 | Removing at `i` keeps every position before `i`, shifts every later value down by one and shrinks the length by one. |
| `ListSpec.RemoveInsertAt` | linked_list.c:167-190 | Removing at `i` right after inserting at `i` restores the exact sequence. |
| `ListSpec.InsertRemoveAt` | linked_list.c:94-115 | Re-inserting a removed value at its old position restores the exact sequence. |
| `ListSpec.IndexOfInsertAt` | linked_list.c:135-154 | Find law. After inserting `x` at `i`, with `x` at no earlier position, find returns `i`. |
| `ListSpec.RunSize` | linked_list.c:50-61 | Size consistency over any run of insertions and removals. The final size plus the successful removals equals the initial size plus the successful insertions. |
| `LinkedLists.LinkedList.constructor` | linked_list.c:24 | A new header is valid and empty: `head` is null and `Contents == []`. |
| `LinkedLists.Create` | linked_list.c:18-26 | Returns null exactly when no allocator is registered or allocation fails. Otherwise it returns a fresh valid list with a null `head` and empty contents. |
| `LinkedLists.Delete` | linked_list.c:27-45 | Returns false exactly on a null list. Otherwise it releases every node once, in chain order (`released == old(Nodes)`), and leaves a valid list with a null `head`, empty contents and `Repr == {ll}`, so the list can be reused. |
| `LinkedLists.Size` | linked_list.c:46-61 | Returns `|Contents|`, the number of nodes reachable from `head` (0 for an empty list). Returns `SIZE_MAX` on a null list, as documented. |
| `LinkedLists.InsertEnd` | linked_list.c:63-77 | As documented: true exactly when the list is non-null and allocation succeeds. The new contents are then `old + [data]`. Otherwise nothing changes. |
| `LinkedLists.Insert` | linked_list.c:80-116 | True exactly when the list is non-null, allocation succeeds and `index <= |old|`. The new contents are then `InsertAt(old, index, data)`. Otherwise nothing in the list changes. |
| `LinkedLists.InsertFront` | linked_list.c:117-133 | True exactly when the list is non-null and allocation succeeds. The new contents are then `[data] + old`. Otherwise the list is unchanged. |
| `LinkedLists.Find` | linked_list.c:135-154 | Returns `IndexOf(Contents, data)`: the first position holding `data`, or `SIZE_MAX` on a miss, as documented. Returns `SIZE_MAX` on a null list. The list is not modified. |
| `LinkedLists.Remove` | linked_list.c:156-191 | True exactly when the list is non-null and `index < |old|`. The new contents are then `RemoveAt(old, index)`, and exactly the old node at `index` is released and leaves `Repr`. A null or empty list, or an index past the end, changes nothing. |
| `LinkedLists.CreateIterator` | linked_list.c:193-212 | Returns null exactly when the list is null, `index >= |Contents|` or allocation fails. Otherwise it returns a fresh valid iterator on that list, at `index`, holding `Contents[index]`. |
| `LinkedLists.DeleteIterator` | linked_list.c:214-224 | Returns false exactly on null. The list is outside its frame, so it is not touched. |
| `LinkedLists.Iterate` | linked_list.c:226-244 | True exactly when the iterator is non-null and has a successor. It then moves to `currentIndex + 1` and holds `Contents` at that index. At the tail or on null it returns false and changes nothing. |
| `LinkedLists.IteratorWalk` | linked_list.c:198-244 | Starting at position 0 of a non-empty list, exactly `|Contents| - 1` calls to Iterate succeed and they yield all of `Contents` in order. The next call fails, and so does the call after it. |
| `AsWritten.SizeAsWritten` | linked_list.c:50-53 | linked_list_size as written. It returns 0 for a NULL list, and the length for a list. |
| `AsWritten.SizeAsWrittenNullLooksEmpty` | linked_list.c:46-53 | As written, a NULL list and an empty list both report 0, and neither reports `SIZE_MAX`. |
| `AsWritten.FindMissAsWritten` | linked_list.c:135-154 | On a miss, find as written returns `|s|`, while the documented result is `SIZE_MAX`. |
| `AsWritten.InsertEndAsWritten` | linked_list.c:68-77 | As written, on any non-null list the loop advances `head` itself to null, cutting every node off the list. The following store through `head` dereferences NULL. |
| `AsWritten.CreateIteratorAsWritten` | linked_list.c:198-212 | As written, the function dereferences NULL exactly when the list is NULL, `index >= |Contents|` or the allocation fails. |

## Left out

- `linked_list_register_malloc` and `linked_list_register_free` (linked_list.c:246-267) are not modelled. They store process-wide function pointers. Registration is the `registered` parameter of `Create`, and each allocation is the `alloc` parameter. The insert functions and `create_iterator` call `malloc_fptr` without checking that one is registered; the model assumes it is.
- Freeing memory (`free_fptr`) is not modelled; Dafny memory is garbage-collected. The nodes a call releases are reported in the ghost `released` sequence of `Delete` and `Remove`. `DeleteIterator` only reports success.
- The leak of the new node when `insert` is given an index past the end (linked_list.c:90, 110-111) is not modelled. It does not affect the list's contents.
- `Size`, `Find`, `Insert`, `Remove`, `CreateIterator`, `Iterate`: counters and indices are `nat`, not 64-bit `size_t`. No chain can have `SIZE_MAX` nodes, so no counter can wrap.
- `Iterate`: requires a valid iterator, meaning its list has not been changed since the iterator was created. The library leaves iterators over a modified list undefined.
- `Iterate`: the final `return false` (linked_list.c:243) is not modelled. It cannot be reached: `current_node` was just set to a non-null successor.
- `AsWritten.SizeAsWritten` is stated on the list's value (`None` for NULL) rather than on the heap. The heap loop is the one in `Size`.
- Delete does not release the list header itself, as in the source. Releasing the header is left to the caller.
- The platform headers and the struct layout in `linked_list.h` are not part of this model. Only the fields the code uses are modelled.

## Findings

| source | as written | input that shows it | evidently intended | confidence | as-written member | corrected member |
|---|---|---|---|---|---|---|
| linked_list.c:153 | On a miss, find returns the number of nodes scanned. | list `[10, 20, 30]`, find 40: returns 3 | `SIZE_MAX` on a miss (linked_list.c:138) | high; not executed | `AsWritten.FindMissAsWritten` | `LinkedLists.Find` |
| linked_list.c:51-52 | size returns 0 for a NULL list. | NULL list: returns 0, the same as an empty list | `SIZE_MAX` on failure (linked_list.c:48) | high; not executed | `AsWritten.SizeAsWrittenNullLooksEmpty` | `LinkedLists.Size` |
| linked_list.c:72-75 | insert_end advances `head` itself until it is NULL, then stores through it; no node is allocated. | any list, e.g. `[10]`, insert_end 20: the list loses its node, then NULL is dereferenced | append a new node at the tail (linked_list.c:63) | high; not executed | `AsWritten.InsertEndAsWritten` | `LinkedLists.InsertEnd` |
| linked_list.c:200-208 | create_iterator checks neither the list pointer, nor the index against the length, nor the allocation. | list `[10]`, index 1: dereferences NULL at linked_list.c:208 | NULL when the iterator cannot be created (linked_list.c:196) | high; not executed | `AsWritten.CreateIteratorAsWritten` | `LinkedLists.CreateIterator` |
