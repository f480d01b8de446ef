# slist: an intrusive circular singly-linked list, in Dafny

`slist<T>` is a singly-linked list that does no memory management. Each
element carries its own `next` pointer, and the list object holds a single
pointer, `last`, to its last element. The list is circular: the last
element's `next` is the front, so `front()` is `last->next` and `back()` is
`last`, both in constant time. An element whose `next` is null is not in any
list, and every operation that links an element in demands that.

An iterator holds the element *before* the one it denotes, because forward
links alone cannot splice out an element without its predecessor. `begin()`
holds `last` (the front's predecessor) and `end()` holds null. Advancing
moves the predecessor one link forward and becomes the end when it reaches
`last`.

The model (`slist.dfy`, module `IntrusiveSList`):

- `Node` is an element, with its `next` field; `SList` is the list, with its
  `last` field. The methods that change `last` and `next` fields are methods
  with `modifies` clauses.
- `SList` carries a ghost sequence `elems`, the elements from front to back.
  `Valid()` is the circular invariant that ties it to the pointers:
  - the elements are distinct;
  - `last` is null exactly when the list is empty, and is the back otherwise;
  - each element's `next` is its successor, and the back's `next` is the front.
- `Position(container, previous)` is the iterator: a value, as in C++, where
  iterators are copied freely. `Index(p)` is the index a position denotes:
  `|elems|` for the end, and otherwise the index after that of `previous`,
  wrapping from the back to the front. So `Begin()` denotes 0.
- `operator++` rewrites the iterator's `previous` field. It is the function
  `Increment`, which returns the updated position; `i := l.Increment(i)` is
  `++i`.
- `insert` and `erase` are specified through `InsertAt` and `RemoveAt` on
  `elems`, and through the index of the position they return.

`slist_scenarios.dfy` (module `SListScenarios`) re-expresses the unit tests
in `slist/slist_test.cc` as client code verified against these contracts
alone:

- `Basic` (`BasicPushTwo`, `BasicPushThird`, `BasicPops`) covers lines 16-67.
- `TraverseEmpty`, `TraverseOne`, `TraverseTwo` and `TraverseThree` cover lines 87-124 and 139-164.
- `InsertEverywhere` (`InsertFrontAndEnd`, `InsertMiddle`) covers lines 166-199.
- `EraseEverywhere` (`EraseOnEmpty`, `FourElements`, `EraseBack`,
  `EraseMiddleFrontSole`) covers lines 201-257.
- `PushPopOrder` and `MixedPushThenEraseBack` are two further scenarios: pops
  come back in push order after `push_back` and reversed after `push_front`,
  and pushes at both ends followed by erasing the back.

The death tests (lines 69-85) become preconditions: `Front` and `Back` require
a non-empty list, and `PushFront`, `PushBack` and `Insert` require an
unlinked element.

`begin()` holds `last` (slist/slist.h:179) and only `end()` holds null
(slist/slist.h:180). So a null predecessor always means the end, and an
insert there appends at the back (slist/slist.h:208-215).

## Model

| member | source | states |
|---|---|---|
| `IntrusiveSList.Node.constructor` | slist/slist_test.cc:10-14 | a new element is unlinked: its `next` is null |
| `IntrusiveSList.SList.constructor` | slist/slist.h:248-251 | a new list is valid and empty: `last` is null and there are no elements |
| `IntrusiveSList.SList.NotLinked` | slist/slist.h:51 | every element of a valid list has a non-null `next`, so an element whose `next` is null is not in the list; this is why the unlinked check keeps elements from being linked twice |
| `IntrusiveSList.SList.SelfLoopIffSingleton` | slist/slist.h:73 | an element's `next` is itself if and only if it is the sole element; this is the singleton test of `pop_front` (line 73) and of `erase` (line 229) |
| `IntrusiveSList.SList.Circularity` | slist/slist.h:248-251 | following `next` from `last` comes back to `last` after exactly as many steps as there are elements, and not sooner |
| `IntrusiveSList.SList.Empty` | slist/slist.h:14 | true if and only if the list has no elements |
| `IntrusiveSList.SList.Front` | slist/slist.h:20-29 | on a non-empty list, `last->next` is the first element |
| `IntrusiveSList.SList.Back` | slist/slist.h:35-44 | on a non-empty list, `last` is the last element |
| `IntrusiveSList.SList.PushFront` | slist/slist.h:49-60 | requires an unlinked item; the elements become `[item] + old`; on an empty list the item links to itself and becomes `last`, otherwise `last` is unchanged; the list stays valid |
| `IntrusiveSList.SList.PopFront` | slist/slist.h:65-81 | on an empty list returns null and changes nothing; otherwise returns the old front with its `next` reset to null, and the elements become `old[1..]`; popping the sole element sets `last` to null |
| `IntrusiveSList.SList.PushBack` | slist/slist.h:86-92 | requires an unlinked item; the elements become `old + [item]`, `item` is `last`, and the front is unchanged unless the list was empty |
| `IntrusiveSList.SList.Begin` | slist/slist.h:179 | the position of the front (index 0); it equals the end position if and only if the list is empty; `cbegin` and the const `begin` are the same |
| `IntrusiveSList.SList.End` | slist/slist.h:180 | the end position, one past the back (index equal to the number of elements); `cend` and the const `end` are the same |
| `IntrusiveSList.SList.Clear` | slist/slist.h:188-193 | pops until empty: afterwards the list is empty and every element that was in it has `next` null |
| `IntrusiveSList.SList.Deref` | slist/slist.h:103-104 | dereferencing a position that is not the end yields the element at the index it denotes, the successor of its predecessor; `operator->` and the non-const `operator*` are the same |
| `IntrusiveSList.SList.Increment` | slist/slist.h:106-116 | advancing moves a position to the next index; from the back it reaches the end, and the end stays the end |
| `IntrusiveSList.Equal` | slist/slist.h:125-128 | two positions are equal when both their container and their predecessor are, that is, when they are the same position value |
| `IntrusiveSList.SList.EqualIffSameIndex` | slist/slist.h:125-128 | two positions of one list compare equal (same container and same predecessor) if and only if they denote the same index |
| `IntrusiveSList.SList.AdvanceIndex` | slist/slist.h:106-116 | k increments from a position move it k indices forward, stopping at the end |
| `IntrusiveSList.SList.Traversal` | slist/slist.h:179-180 | walking from `begin()` yields the elements front to back, and reaches `end()` after exactly as many increments as there are elements |
| `IntrusiveSList.InsertAt` | slist/slist.h:199-216 | the sequence with an element placed at index i: earlier elements stay put, later ones shift up by one |
| `IntrusiveSList.RemoveAt` | slist/slist.h:222-243 | the sequence without its element at index i: earlier elements stay put, later ones shift down by one |
| `IntrusiveSList.RemoveInsert` | slist/slist.h:199-243 | removing the element just inserted at index i gives back the original sequence |
| `IntrusiveSList.SList.Insert` | slist/slist.h:199-216 | requires an unlinked item and a position of this list; puts the item just before the element the position denotes, or at the back for the end; the other elements keep their order; the returned position denotes the item and equals the new `begin()` when inserting at index 0 |
| `IntrusiveSList.SList.Erase` | slist/slist.h:222-243 | on the end position changes nothing; otherwise removes exactly the denoted element and resets its `next` to null; the returned position denotes the index of the following element, which is the end if the back was erased; erasing the back of a longer list moves `last` to its predecessor |
| `IntrusiveSList.InsertThenErase` | slist/slist.h:204-239 | an `insert` followed by an `erase` of the returned position restores the elements and leaves the item unlinked |

## Left out

- AlignmentGuard.h and rabbit.cc: they toggle a CPU alignment-check flag with inline assembly and provoke a misaligned write, with no list content.
- The element type's payload: a `Node` has only its `next` field; the test's `data` field is used only to tell elements apart, and the scenarios compare elements themselves.
- Iterator typedefs, postfix `++` (a copy and a prefix `++`), `operator!=` (the negation of `operator==`) and the duplicate const overloads: they add nothing beyond C++ typing.
- The range-for and `std::transform` use of iterators in the tests: that is standard-library interop.
- Two lists sharing an element: the source leaves it as caller error. `Valid()` says nothing about other lists, and the `modifies` clauses name the elements an operation may change.
- Debug-only assertions (`position.container == this`, `!item->next`, a non-empty list for `front`/`back`) are preconditions rather than aborts, as is dereferencing the end position.
- Concurrency: the source has none.
