# Grocery list and careful cart relocation, modelled in Dafny

This project models the core of a grocery-shopping exercise. It covers two parts.

The first part is the `GroceryList` class. It keeps an ordered list of unique grocery
items four times over:

- a fixed-capacity array with its own length counter;
- a vector;
- a doubly linked list;
- a singly linked list.

Every mutator changes all four in step. It then checks that they still agree and throws
`InvalidInternalState` if they do not. The operations are construction from a batch,
`size`, `find`, `insert` at an offset or at `TOP`/`BOTTOM`, `remove` by offset or by item,
`moveToTop`, the two `+=` operators, `==`, `<=>`, the consistency check and the count of the singly
linked list's length.

The second part is the driver's handling of the carts. A cart is a stack. A wheel breaks,
so the cart's items are moved to a working cart through a spare cart by the recursive
three-peg relocation. The working cart is then unloaded onto the checkout counter's
conveyor belt, which is a queue.

Layout:

- `list_spec.dfy` (module `ListSpec`): the logical list as pure functions on sequences, and
  the lemmas about them. This is the specification every representation must follow.
- `array_shift.dfy` (module `ArrayShift`): one-slot `std::shift_right` and
  `std::shift_left` over an array range. Each is an in-place loop proved against a
  sequence function. The module also holds the shift as the source writes it in `insert`
  (see Findings).
- `grocery_list.dfy` (module `GroceryLists`): the class. The array is a Dafny `array`. The
  vector and the two linked lists are `seq` fields. `Valid()` is the four-way agreement
  plus uniqueness. Each mutator is proved to move `Contents()` exactly as the matching
  `ListSpec` function does.
- `carts.dfy` (module `Carts`): carts as stack classes, the belt as a queue class, the
  recursive and starter relocation routines, and the unloading loop.

Every error is returned as a value of type `Option<Error>`, with
`Error = InvalidOffset | CapacityExceeded`. A mutator only returns after the state change
that precedes the error, so the list's state at that point is also part of its contract.
`InvalidInternalState` is modelled as a call to the consistency check followed by an
assertion that the check succeeded. The model thereby proves that this exception is never
thrown.

"Careful" relocation means no item is ever placed on top of an item that was above it in
the broken cart. The model gives each item a ghost label: its height in the source cart.
Items already on the destination cart get label -1. Every single move must put an item on
a lower label or on an empty cart, and the proof shows that every move does.

## Model

| member | source | states |
|---|---|---|
| ListSpec.IndexOf | GroceryList.cpp:124-130 | `find` gives the offset of the first occurrence of the item, and the size exactly when the item is absent |
| ListSpec.IndexOfDistinct | GroceryList.cpp:124-130 | in a list without duplicates, `find` of the item at offset `i` is `i` |
| ListSpec.InsertRefusals | GroceryList.cpp:160-179 | an offset past the end raises InvalidOffset; a duplicate is silently ignored even when the list is full, because the duplicate check comes first; a new item in a full list raises CapacityExceeded; none of these changes the list |
| ListSpec.InsertEnds | GroceryList.cpp:149-155 | `TOP` inserts at offset 0 and `BOTTOM` at offset `size`, and both succeed for a new item when there is room |
| ListSpec.InsertNew | GroceryList.cpp:160-210 | a successful insert grows the list by one and keeps it unique; afterwards `find(x)` is the requested offset, items before it keep their offsets and items after it move back by one |
| ListSpec.InsertAtDistinct | GroceryList.cpp:160-210 | placing a new item keeps the list unique, with the old items at their old offsets before `k` and one further back from `k` on |
| ListSpec.InsertKeepsDistinct | GroceryList.cpp:160-210 | whatever the outcome, insert keeps the list free of duplicates and within its capacity |
| ListSpec.RemoveFound | GroceryList.cpp:215-219 | removing a present item shrinks the list by one, and `find` then reports the item absent |
| ListSpec.RemoveOffset | GroceryList.cpp:224-263 | an offset at or past the end removes nothing; otherwise exactly the item at the offset leaves and the rest keep their order |
| ListSpec.RemoveKeepsDistinct | GroceryList.cpp:224-263 | removal keeps the list free of duplicates |
| ListSpec.MoveToTopFacts | GroceryList.cpp:268-275 | a present item ends at offset 0 with the same size and the same multiset of items, and the other items keep their relative order; an absent item changes nothing |
| ListSpec.MoveToTopInsertSucceeds | GroceryList.cpp:268-275 | the `TOP` insert inside `moveToTop` always succeeds, even when the list is full, because the remove frees a slot first |
| ListSpec.AppendAllPresent | GroceryList.cpp:294-303 | appending items that are all present already (a list appended to itself, say) changes nothing and reports no error |
| ListSpec.AppendAllIsNewItems | GroceryList.cpp:280-289 | `+=` appends the not-yet-present items, each at its first occurrence and in order, while capacity lasts; when they do not all fit, exactly as many as fit are appended and CapacityExceeded is reported; duplicates never raise the error |
| ListSpec.NewItemsComplete | GroceryList.cpp:75-81 | every item of a batch is already present or among the new items, and the new items keep the list free of duplicates, so a batch yields each of its distinct values exactly once |
| ListSpec.AppendAllKeepsDistinct | GroceryList.cpp:280-289 | `+=` keeps the list free of duplicates whatever the outcome |
| ListSpec.ConstructFromBatch | GroceryList.cpp:75-81 | constructing from [10, 20, 10, 30] gives [10, 20, 30] |
| ListSpec.CapacityThreeScenario | GroceryList.cpp:149-210 | with capacity 3: A at `BOTTOM`, then B at `TOP`, then C at offset 1 gives [B, C, A]; a fourth new item then raises CapacityExceeded and leaves [B, C, A] |
| ListSpec.LexEquivalentSameSize | GroceryList.cpp:322-329 | the lexicographic comparison reports equivalence only for lists of equal size, so the size tie-break in `<=>` can never change the result |
| ListSpec.LexEquivalentIffEqual | GroceryList.cpp:322-339 | when item equivalence is item equality, `<=>` reports equivalence exactly when `==` holds |
| ListSpec.LexAntisymmetric | GroceryList.cpp:322-329 | swapping the operands of `<=>` flips the result, given an antisymmetric item comparison |
| ArrayShift.ShiftRight | GroceryList.cpp:181 | the in-place one-slot right shift of `[first, last)` leaves the array as `ShiftedRight` of its old contents |
| ArrayShift.ShiftLeft | GroceryList.cpp:235 | the in-place one-slot left shift of `[first, last)` leaves the array as `ShiftedLeft` of its old contents |
| ArrayShift.ShiftRightThenStore | GroceryList.cpp:181-183 | shifting `[k, size + 1)` right and then storing `x` at `k` makes the first `size + 1` slots the list with `x` inserted at `k` |
| ArrayShift.InsertIntoArray | GroceryList.cpp:178-184 | inserting into a bounded array of `size` items, with the shift range ending at `size + 1`, leaves the old list with `x` at offset `k` in the first `size + 1` slots |
| ArrayShift.RemoveFromArray | GroceryList.cpp:234-237 | removing offset `k` from a bounded array of `size` items leaves the old list without that item in the first `size - 1` slots |
| ArrayShift.ShiftLeftRemoves | GroceryList.cpp:234-237 | shifting `[k, size)` left makes the first `size - 1` slots the list without its item at `k` |
| ArrayShift.AsWrittenInsertLosesLast | GroceryList.cpp:181 | with the shift range as written, appending is correct; an insert before the end leaves the stale slot `size` in place and is correct only if that stale value happens to equal the lost last item |
| ArrayShift.AsWrittenCounterexample | GroceryList.cpp:181 | [1, 2] in a three-slot array whose spare slot holds 0, with 3 inserted at the front as written, holds [3, 1, 0] rather than [3, 1, 2] |
| GroceryLists.GroceryList.constructor | GroceryList.cpp:75-81 | an empty, valid list with the given capacity |
| GroceryLists.GroceryList.FromList | GroceryList.cpp:75-81 | construction inserts each item at `BOTTOM` in turn; on success the contents are the batch's result, and on CapacityExceeded no list results |
| GroceryLists.GroceryList.Size | GroceryList.cpp:100-105 | the size is the same whichever representation is asked |
| GroceryLists.GroceryList.Find | GroceryList.cpp:124-130 | the offset of the item in the contents, and the size exactly when the item is absent |
| GroceryLists.GroceryList.SllSize | GroceryList.cpp:391-394 | the length of the singly linked sequence, which keeps no count of its own |
| GroceryLists.GroceryList.ContainersAreConsistent | GroceryList.cpp:358-386 | the check succeeds exactly when all four sizes are equal and the representations hold the same item at every offset |
| GroceryLists.GroceryList.Equals | GroceryList.cpp:334-339 | `==` holds exactly when the two lists have the same contents |
| GroceryLists.GroceryList.Compare | GroceryList.cpp:322-329 | `<=>` equals the lexicographic comparison of the contents |
| GroceryLists.GroceryList.Insert | GroceryList.cpp:160-210 | all four representations change as `ListSpec.Insert` says, with the same error, and stay consistent and unique |
| GroceryLists.GroceryList.InsertNewItem | GroceryList.cpp:176-209 | a new item with room, at a valid offset, is inserted into all four representations at that offset, and the consistency check after them succeeds |
| GroceryLists.GroceryList.InsertAtPosition | GroceryList.cpp:149-155 | `TOP` is an insert at offset 0 and `BOTTOM` an insert at offset `size` |
| GroceryLists.GroceryList.Remove | GroceryList.cpp:224-263 | all four representations change as `ListSpec.Remove` says, and stay consistent and unique |
| GroceryLists.GroceryList.RemoveItem | GroceryList.cpp:215-219 | removal by item is removal at `find`'s offset, so an absent item removes nothing |
| GroceryLists.GroceryList.MoveToTop | GroceryList.cpp:268-275 | the contents change as `ListSpec.MoveToTop` says, and the inner insert never fails |
| GroceryLists.GroceryList.AppendItems | GroceryList.cpp:280-289 | the contents change as `ListSpec.AppendAll` says, stopping at the first error |
| GroceryLists.GroceryList.AppendList | GroceryList.cpp:294-303 | appending another list appends its contents, front first, as `ListSpec.AppendAll` says |
| Carts.MoveOne | main.cpp:141-142 | one move: the source's top item is pushed on the destination and popped from the source, and only onto a lower label or an empty cart |
| Carts.CarefullyMove | main.cpp:137-153 | the top `quantity` items leave the broken cart and sit on the working cart in the same order; the spare cart ends as it began; every move is careful; there are `2^quantity - 1` moves |
| Carts.CarefullyMoveAll | main.cpp:156-161 | all of `from`'s items end on top of `to`'s, in their original order, and `from` ends empty, after `2^n - 1` careful moves |
| Carts.Reversed | main.cpp:202-206 | the reversal has the same length and holds the item at `|s| - 1 - i` at offset `i` |
| Carts.Checkout | main.cpp:202-206 | unloading empties the cart and appends its items to the belt from top to bottom |
| Carts.MoveThenCheckout | main.cpp:194-206 | after relocating and unloading, the belt holds the original cart's items from top to bottom, so the former top item is first in line |

## Left out

- `make_details`, the exception classes' message text and the `trace` output of moves are diagnostics, so they are not modelled. The move count that `trace` would number is returned as a ghost value instead. The exception `trace` can throw on its first call is covered by the Carts.CarefullyMoveAll line below.
- Carts.CarefullyMoveAll: accepts a destination cart that already holds items and relocates onto it. In the source, the first `trace` call (main.cpp:159) builds its cart mapping (main.cpp:41-54) and throws `std::invalid_argument` before any move unless the destination and the spare are empty, so such a call moves nothing there. The driver calls it with an empty destination (main.cpp:197-198).
- `operator<<` and `operator>>` (stream I/O) are not modelled.
- The receipt section of `main` is not modelled: the database lookups, the price total (floating point) and the output.
- `GroceryItem` is a type parameter compared with `==`. Its fields and its own ordering are outside this model, so `<=>` takes the item comparison as a parameter.
- The capacity of the array is declared in the class header, which is not part of this model. It is a constructor parameter here.
- The standard containers' internals (vector growth, list node links, the singly linked list's before-begin position) are modelled as sequences, so aliasing and node identity are not captured. Each container's positional insert and erase is modelled by its effect on the sequence.
- `std::shift_right` and `std::shift_left` leave the vacated slot unspecified. The model keeps the slot's old item there.
- The `logic_error` for an unknown position at GroceryList.cpp:154 cannot happen, because `Position` has exactly two values.
- `std::size_t` arithmetic is modelled as `nat`. No bound near `2^64` is reachable with a bounded array.
- Carts.CarefullyMove: requires `1 <= quantity <= size of the broken cart`. For 0 the source decrements an unsigned count, wraps around, and reads the top of an empty stack.
- Carts.CarefullyMoveAll: requires a non-empty `from` cart, for the same reason.
- GroceryLists.GroceryList.Insert: models the array shift with the range ending at `size + 1`, not the range as written (see Findings). As written, an insert before the end leaves slot `size` stale. If that stale value differs from the lost last item, the consistency check raises `InvalidInternalState` after the vector and both linked lists have already changed (ArrayShift.AsWrittenInsertLosesLast). The same defect reaches GroceryLists.GroceryList.MoveToTop, whose `TOP` insert comes before the end whenever the list holds two or more items, and the `TOP` step of ListSpec.CapacityThreeScenario. Both are stated here for the corrected insert.

## Findings

| source | as written | input that shows it | evidently intended | confidence | as-written member | corrected member |
|---|---|---|---|---|---|---|
| GroceryList.cpp:181 | `insert` shifts the array range `[offset, size)` right by one, then stores the item at `offset`. The last item is overwritten and slot `size` keeps a stale value | the list [1, 2] in a three-slot array whose spare slot holds 0; inserting 3 at offset 0 leaves [3, 1, 0] in the array while the vector holds [3, 1, 2], so the consistency check throws `InvalidInternalState` | shift `[offset, size + 1)`, so every item from `offset` on moves back one slot | high; not executed | ArrayShift.AsWrittenInsertLosesLast | ArrayShift.InsertIntoArray |
