# libredstone tag tree in Dafny

This project models the tagged value tree of libredstone (`src/tag.c`), the in-memory form of
an NBT document. Each node is a reference-counted heap object. Its kind is fixed at construction.
Byte, Short, Int and Long nodes hold an integer, read and written through one 64-bit accessor.
ByteArray and String nodes hold owned copies. A List holds an element kind and a sequence of
child nodes, and a Compound holds a sequence of key/value cells. The operations take three forms:

- Methods of a `Tag` class, which update its fields in place: retain and release (including the
  recursive free), the setters, list insert, delete and reverse, and compound set and delete.
  The getters (`GetInteger`, `ListGet`, `CompoundGet`, ...) are functions or methods of the same
  class that change nothing, and so are the chained lookup (`GetChain`) and the recursive key
  search (`Find`).
- Module-level methods for construction (`New0`, `NewInteger`, `NewByteArray`, `NewString`,
  `NewList`, `NewCompound`), each of which allocates a fresh `Tag`.
- Module-level functions on values for the list and compound cursors (`ListIteratorInit`,
  `CompoundIteratorInit`, `IteratorNext`): a cursor is the sequence of elements or cells not yet
  visited.

The files are:

- `wrappers.dfy`: the `Option` type.
- `tag_types.dfy`: the node kinds, the integer widths and the kind names.
- `integers.dfy`: the store-and-read-back of a C integer field. This is two's-complement
  truncation plus sign extension.
- `sequences.dfy`: what the linked-list primitive does to the sequence of elements a list holds.
  This covers insert, remove and reverse, and the list insertion exactly as the code performs it.
- `entries.dfy`: what the compound cells hold. This covers the first-match lookup, the removal of
  the first match, and the delete-then-push of `set`.
- `tags.dfy`: the `Tag` class and its methods. This file also holds the ghost functions that
  specify the recursive walks (`FindSpec`, `Chain`) and the effect of releases on the reference
  counts (`Release`, `ReleaseAll`, `RetainAll`).
- `tag_properties.dfy`: lemmas about those specifications.

Children are shared through counts, so the nodes form a graph. In the model, each node has a
ghost `rank`, and the caller names a ghost set `heap` of nodes. The heap is `Closed` when every
child of a node in it lies in it and has a smaller rank. A closed heap has no cycles. `find` and
the recursive free depend on that for termination, and the source relies on it without checking.
Freeing a node clears its ghost `live` flag.
A List is homogeneous (`Tag.Homogeneous`) when every element has the list's element kind.
The list operations keep this true.

Where the code and the intended design differ, the model follows the code, with one exception:
`rs_tag_list_insert` on an empty list with an index above 0. There the model performs the intended
append, and the code as written is modelled beside it (see "## Findings"). Elsewhere:

- A release decrements a positive count and then frees the node when the count is zero. So one
  retain followed by one release frees the node, just as one release of a never-retained node
  does (`TagProperties.ReleaseFrees`).
- `rs_tag_compound_delete` unlinks the cell but does not release the value. It leaves that
  value's count as it was.
- `rs_tag_compound_set` adds the new cell with `rs_list_push`, whose code (list.c) is not part of
  this model. The model assumes that `rs_list_push` links the cell in at the head, so a rewritten
  key moves to the front. Lookup, key uniqueness and the counts do not depend on this
  assumption. The cell order does, and so does everything that walks the cells in order: what
  the compound cursor yields, the order in which a free releases the values, and which value
  subtree `find` answers from when several of them hold the name.

## Model

| member | source | states |
|---|---|---|
| Tags.Tag.constructor | src/tag.c:49-57 | a zero-filled node of the given kind with a floating (zero) count, no payload and no children |
| Tags.New0 | src/tag.c:49-57 | null exactly for kind End; otherwise a fresh node of exactly that kind, with count 0, no children and list element kind End, and a zeroed payload: the integer reads 0, there are no bytes (length 0) and no string |
| Tags.NewInteger | src/tag.c:89-94 | a fresh live node with count 0 whose integer reads back as the argument narrowed to the node's width |
| Tags.NewByteArray | src/tag.c:99-103 | a fresh live node with count 0 that holds exactly the given bytes |
| Tags.NewString | src/tag.c:104-106 | a fresh live node with count 0 that holds exactly the given text |
| Tags.NewList | src/tag.c:107-118 | a fresh live node with count 0; the element kind is the first child's kind (End with no children); the elements are the children of that kind in argument order; other-kind children are dropped, so the list is homogeneous; every node's count rises by the number of times it was accepted |
| Tags.FillList | src/tag.c:107-118 | the argument loop followed by the reversal leaves the accepted children in argument order, and the counts are the old counts with each accepted child retained once |
| Tags.InsertEach | src/tag.c:107-116 | after the argument loop, the list holds the accepted children in reverse argument order, each retained once |
| Tags.InsertOne | src/tag.c:110-115 | one round of that loop: child `i` is inserted at index 0 exactly when it has the element kind, the accepted children grow to those among the first `i + 1`, the elements stay their reversal, and only an accepted child is retained |
| Tags.NewCompound | src/tag.c:119-127 | a fresh live node with count 0; the cells are the pairs `set` in order; keys are unique; each key maps to the last value given for it; every node's count rises by the number of times it was given as a value |
| Tags.FillCompound | src/tag.c:119-127 | the argument loop on a fresh Compound leaves the cells as the pairs `set` in order, with unique keys each mapped to its last value, and every node's count raised by its number of occurrences as a value |
| Tags.SetEach | src/tag.c:119-126 | the argument loop performs `set` for each pair in order, and retains each value once |
| Tags.SetOne | src/tag.c:121-125 | one round of that loop: the cells grow from the `set`s of the first `i` pairs to those of the first `i + 1`, and the next value is retained |
| Entries.Put | src/tag.c:724-738 | the cells after `set`: the new cell is first, and there is at most one cell more than before and none fewer |
| Entries.PutAll | src/tag.c:119-127 | the cells after `set` of each pair in order: at least as many cells as before, and at most one more per pair |
| Tags.Tag.Ref | src/tag.c:174-178 | the count rises by exactly one, and no other count changes |
| Tags.Retain | src/tag.c:174-178 | the effect of one `ref` on the counts: the same nodes have a count afterwards |
| Tags.RetainAll | src/tag.c:174-178 | the effect of one `ref` of each node of a sequence: the same nodes have a count afterwards |
| Tags.Release | src/tag.c:180-188 | the effect of one `unref` on the counts and the freed set: the released node has a count afterwards, and every node that had a count still has one |
| Tags.ReleaseAll | src/tag.c:148-163 | the effect of one `unref` of each node of a sequence, first to last: every released node and every node that had a count has one afterwards |
| Tags.Tag.Unref | src/tag.c:180-188 | counts and freed nodes become `Release` of the old state: a positive count is decremented; a count that is then zero frees the node and releases its children |
| Tags.Tag.Free | src/tag.c:134-172 | a node with count zero releases each child once, in iteration order, and is then freed |
| Tags.UnrefEach | src/tag.c:148-163 | one release of each node of the sequence, first to last |
| TagProperties.ReleaseRetained | src/tag.c:180-185 | releasing a node whose count is at least 2 only decrements that count |
| TagProperties.ReleaseFrees | src/tag.c:180-187 | a node with count 0 or 1 is freed by one release, and its count is then 0 |
| TagProperties.ReleaseUntouched | src/tag.c:134-188 | a release changes neither the count nor the freed state of any node not reachable from the released node |
| TagProperties.ReleaseAllUntouched | src/tag.c:148-163 | the same, for a release of each node of a sequence |
| TagProperties.ReleaseKeepsDead | src/tag.c:134-188 | a release never revives a freed node |
| TagProperties.ReleaseAllKeepsDead | src/tag.c:148-163 | the same, for a sequence of releases |
| Tags.ReleaseAllDead | src/tag.c:148-163 | releasing never reads the freed set: nodes marked freed beforehand are carried through unchanged |
| Tags.RetainAllCount | src/tag.c:107-127 | retaining each node of a sequence raises each node's count by its number of occurrences |
| Tags.RetainedCounts | src/tag.c:107-127 | once a new container retained each of a sequence, every other node's count is its old count plus its occurrences in the sequence |
| Tags.Tag.GetInteger | src/tag.c:434-451 | on any node: the result fits in 64 bits and in the node's own width; it is exactly the stored payload when that fits the width, which every setter keeps true; it is 0 on a node of another kind |
| Tags.Tag.SetInteger | src/tag.c:453-473 | on an integer node, the value reads back narrowed to 8, 16, 32 or 64 bits, and exactly on a Long; on any other node, it is refused and the payload is unchanged |
| Integers.Narrow | src/tag.c:453-473 | the stored value lies in the field's range and is congruent to the argument modulo 2^bits |
| Integers.NarrowFits | src/tag.c:453-473 | a value that fits the field is stored exactly |
| Integers.NarrowIdempotent | src/tag.c:453-473 | storing a read-back value again changes nothing |
| Integers.NarrowEqualIff | src/tag.c:453-473 | two values are stored alike if and only if they agree modulo 2^bits |
| Integers.NarrowByteExample | src/tag.c:456-458 | 200 stored in a Byte reads back -56, -129 reads back 127, and 2^32+1 stored in an Int reads back 1 |
| TagTypes.Width | src/tag.c:24-29 | the width of an integer kind is 8, 16, 32 or 64 bits |
| Tags.Tag.GetByteArray | src/tag.c:500-504 | the stored bytes, which are present only on a ByteArray node |
| Tags.Tag.GetByteArrayLength | src/tag.c:506-510 | the size is the length of the bytes the getter returns, and 0 when it returns none |
| Tags.Tag.SetByteArray | src/tag.c:512-520 | on a ByteArray node, the getter then returns exactly the given bytes and the length is theirs; otherwise the call is refused with no change |
| Tags.Tag.GetString | src/tag.c:523-527 | the stored text, which is present only on a String node |
| Tags.Tag.SetString | src/tag.c:529-536 | on a String node, the getter then returns exactly the given text; otherwise the call is refused with no change |
| Tags.ListIteratorInit | src/tag.c:538-544 | on a List, the cursor starts at the first element and covers all elements; on another node, the cursor is left as it was |
| Tags.CompoundIteratorInit | src/tag.c:642-648 | on a Compound, the cursor starts at the first cell and its values are the children; on another node, the cursor is left as it was |
| Tags.IteratorNext | src/tag.c:546-559 | a step reports exhaustion exactly when no element is left; otherwise it yields the first remaining element and advances past it |
| Tags.Drain | src/tag.c:546-559 | what a cursor yields until it is exhausted has the cursor's length |
| Tags.DrainYieldsAll | src/tag.c:650-668 | stepping a cursor until it is exhausted yields every remaining element exactly once, in link order |
| Tags.Tag.ListGetType | src/tag.c:561-565 | the element kind of a List, and End for any other node |
| Tags.Tag.ListSetType | src/tag.c:567-576 | the element kind changes only on an empty List; on a non-empty list or another node, the call is refused and the kind is unchanged; a homogeneous list stays homogeneous |
| Tags.Tag.ListGetLength | src/tag.c:578-582 | the number of elements of a List, and 0 for any other node |
| Tags.Tag.ListGet | src/tag.c:584-588 | non-null exactly for an in-range index of a List, and the result is then one of its elements |
| Tags.Tag.ListInsert | src/tag.c:602-633 | refused with no effect on a non-list node or a tag of another kind; otherwise the elements become the old ones with the tag at index `min(i, len)`, and the tag's count, and no other, rises by one; a homogeneous list stays homogeneous |
| Tags.Tag.Link | src/tag.c:612-632 | the new cell is linked in front for index 0, after the last cell at or past the end, and otherwise before index `i` |
| Sequences.InsertAt | src/tag.c:614-632 | `x` linked in before index `i`: one longer, `x` at `i`, earlier elements in place and later ones shifted up by one |
| Sequences.InsertClamped | src/tag.c:602-633 | the result is one longer, and the new element sits at `min(i, len)` |
| Sequences.InsertClampedRemove | src/tag.c:602-633 | removing the inserted element gives back the old elements in order |
| Sequences.InsertAtMultiset | src/tag.c:602-633 | insertion adds one occurrence of the element and keeps every other element |
| Sequences.InsertAsWritten | src/tag.c:612-632 | the insertion as coded fails exactly for an index above 0 on an empty list |
| Sequences.InsertIntoEmptyPastEnd | src/tag.c:621-625 | inserting at index 1 into an empty list crashes as coded, where the intended result is the one-element list |
| Sequences.InsertAsWrittenAgrees | src/tag.c:612-632 | wherever the coded insertion does not crash, it equals the intended insertion |
| Tags.Tag.ListDelete | src/tag.c:590-600 | for an in-range index, the element is removed, later elements shift down, and it is released; past the end nothing changes; on another node the call is refused; a homogeneous list stays homogeneous |
| Tags.Tag.Unlink | src/tag.c:597-598 | exactly the cell at the index is unlinked |
| Sequences.RemoveAt | src/tag.c:590-600 | the result is one shorter: elements before the index stay and later ones shift down by one |
| Sequences.RemoveAtMultiset | src/tag.c:590-600 | removal drops exactly one occurrence of the removed element |
| Tags.Tag.ListReverse | src/tag.c:635-639 | the elements of a List are reversed; any other node is left unchanged; a homogeneous list stays homogeneous |
| Sequences.Reversed | src/tag.c:635-639 | the list read from its last cell to its first has the same length |
| Sequences.ReversedTwice | src/tag.c:115-117 | reversing twice restores the order |
| Sequences.ReversedMultiset | src/tag.c:635-639 | reversal keeps every element with its multiplicity |
| Sequences.ReversedMembers | src/tag.c:635-639 | reversal keeps exactly the same elements |
| Tags.OfType | src/tag.c:107-118 | the children the list constructor accepts are children of the element kind |
| TagProperties.OfTypeAll | src/tag.c:107-118 | when all children share the first child's kind, the constructor keeps them all, in order |
| TagProperties.OfTypeKeeps | src/tag.c:107-118 | every child of the element kind is kept, the converse of `Tags.OfType`'s own contract |
| Tags.Tag.CompoundGetLength | src/tag.c:670-674 | the number of cells of a Compound, and 0 for any other node |
| Tags.Tag.CompoundGet | src/tag.c:676-692 | on a Compound, the value of the first cell with the key, or null when there is none; null on any other node |
| Entries.Values | src/tag.c:650-668 | the values of the cells, in cell order and one per cell |
| Tags.ValueOf | src/tag.c:676-692 | non-null exactly when some cell has the key, and the result is then the value of one of the cells |
| Entries.FirstIndex | src/tag.c:680-688 | the first index whose key matches, or the length when no key matches |
| Entries.Lookup | src/tag.c:676-692 | absent exactly when no cell has the key; otherwise, the value of a cell with the key that no earlier matching cell precedes |
| Tags.Tag.CompoundDelete | src/tag.c:740-757 | on a Compound, only the first cell with the key is unlinked; nothing changes when the key is absent; unique keys stay unique and the key is then gone; the heap stays closed; on another node, the call is refused |
| Tags.Tag.CellIndex | src/tag.c:745-753 | the search loop stops at the first cell with the key, or runs off the end: the result is its index, or the cell count |
| Tags.Tag.UnlinkCell | src/tag.c:755-756 | unlinking that cell leaves the cells as the delete of the key's first cell, and the heap stays closed |
| Entries.DeleteFirst | src/tag.c:740-757 | nothing changes when the key is absent, and otherwise exactly one cell goes |
| Entries.DeleteFirstRemovesFirst | src/tag.c:740-757 | the cell removed is the first with the key, and the others keep their order |
| Entries.DeleteFirstOther | src/tag.c:740-757 | deleting a key leaves every other key's lookup unchanged |
| Entries.DeleteFirstUnique | src/tag.c:740-757 | on a key-unique compound, delete keeps keys unique and removes the key entirely |
| Tags.Tag.CompoundSet | src/tag.c:724-738 | on a Compound, the cells become the old ones minus the key's first cell, with the new cell in front; the key then finds the value; the value's count, and no other, rises by one; unique keys stay unique with one cell for the key; on another node, the call is refused |
| Tags.Tag.PushCell | src/tag.c:731-737 | the value is retained and its cell is pushed on the front of the delete's result, which makes the cells the old ones after `set`; only the value's count changes, and the heap stays closed |
| Tags.Tag.PushFront | src/tag.c:737 | the new cell is linked in at the head, the other cells keep their order, and the heap stays closed |
| Tags.ValueOfPut | src/tag.c:724-738 | after `set`, the key finds the value, and a key-unique compound keeps exactly one cell for the key |
| Entries.PutThenLookup | src/tag.c:724-738 | after `set(k, v)`, the key k finds v |
| Entries.PutOther | src/tag.c:724-738 | `set(k, v)` leaves every other key's lookup unchanged |
| Entries.PutUnique | src/tag.c:724-738 | `set` keeps a key-unique compound key-unique, and no cell but the new one has the key |
| Entries.PutTwice | src/tag.c:724-738 | `set(k, v1)` followed by `set(k, v2)` is the same as `set(k, v2)` |
| Entries.PutAllLookup | src/tag.c:119-127 | a compound built from pairs maps each key given to its last value, and leaves other keys as they were |
| Entries.PutAllUnique | src/tag.c:119-127 | building from pairs keeps keys unique |
| Entries.BuiltFromPairs | src/tag.c:119-127 | a compound built from pairs alone has unique keys, and each key maps to the last value given for it |
| Entries.LastValue | src/tag.c:119-127 | absent exactly when no pair has the key |
| Tags.Tag.GetChain | src/tag.c:694-710 | on a Compound, the node reached by the successive lookups; with no keys that is the node itself; null on any other node |
| Tags.Chain | src/tag.c:694-710 | the node reached is null or in the heap |
| Tags.ChainStep | src/tag.c:700-707 | one round of the loop: the chain from a Compound is the chain from its lookup of the next key |
| TagProperties.ChainAppend | src/tag.c:694-710 | following `a + b` is following `a`, then following `b` from wherever `a` led |
| TagProperties.ChainNull | src/tag.c:700 | nothing is reached from a missing node |
| TagProperties.ChainOne | src/tag.c:694-710 | a chain of one key is one compound lookup |
| Tags.Tag.Find | src/tag.c:190-243 | the search returns exactly `FindSpec`: null on scalars, byte arrays and strings; on a Compound, a direct hit before descent; otherwise the first non-null result over the children in order |
| Tags.Tag.FindInList | src/tag.c:212-222 | the first non-null search result among the elements |
| Tags.Tag.FindInCompound | src/tag.c:229-238 | the first non-null search result among the values, in cell order |
| Tags.FindSpec | src/tag.c:190-243 | the search's result: a List searches its elements; a Compound answers from its own cells first and then searches its values; any other node gives null; a non-null result is a node of the heap |
| Tags.FindFirst | src/tag.c:212-238 | the first non-null search result among a sequence of children, which is a node of the heap |
| Tags.Tag.Children | src/tag.c:134-172 | the nodes a node holds owning edges to, which the free releases: a node of any kind but List and Compound holds none |
| Tags.FindFirstStep | src/tag.c:215-220 | a search of children asks the first child, and moves on to the rest on a miss |
| Tags.FindValuesStep | src/tag.c:231-236 | the same, for the values of compound cells |
| TagProperties.FindSound | src/tag.c:190-243 | a non-null result is the value of a cell with the name in some node reachable from the start |
| TagProperties.FindFirstSound | src/tag.c:212-238 | the same, for a search over a sequence of children |
| TagProperties.FindComplete | src/tag.c:190-243 | a null result means no reachable Compound has a cell with the name |
| TagProperties.FindFirstComplete | src/tag.c:212-238 | the same, for a search over a sequence of children |
| TagProperties.FindSomethingIff | src/tag.c:190-243 | the search finds something if and only if some reachable Compound has a cell with the name |
| TagProperties.Reach | src/tag.c:190-243 | the nodes reachable from a node, itself included, all lie in the heap and have rank at most its own |
| TagTypes.TypeName | src/tag.c:325-343 | every kind has a name starting `TAG_` |
| TagTypes.TypeNameInjective | src/tag.c:325-343 | no two kinds share a name |

## Left out

- Float and Double payloads, their accessors (src/tag.c:476-497) and the constructor's float branch: these are floating point. Float and Double nodes exist as kinds (through `New0`) but carry no payload.
- `rs_tag_print`, `rs_tag_print_inner` and `rs_tag_pretty_print`: file output.
- The variadic wrappers `rs_tag_new` and `rs_tag_compound_get_chain`, and `va_list` itself: each argument list is a sequence. The null terminator is the end of that sequence, and a compound constructor's arguments are key/value pairs.
- Null-pointer guards on the node, key, value, tag and cursor arguments: Dafny references are non-null. This includes the compound constructor's check of a null value (src/tag.c:123), which returns null and abandons the half-built node.
- `rs_tag_get_type`: it is the constant field `ttype`.
- The reports printed by `rs_critical` and the logging of `error.c`: a refused call is modelled as a `false` result with no state change.
- Real memory management: copies are value copies, `rs_free` of keys, strings and buffers is not modelled, and freeing a node is the ghost `live` flag. Nothing prevents a model caller from reading a freed node, and nothing prevents it from releasing one: `Unref` on a freed node whose count is 0 frees it again and releases its children a second time, where `rs_tag_unref` on freed memory is undefined in C.
- `rs_list_*` (list.c is not part of this model): the cells of a list or compound are a `seq`. The model assumes `rs_list_push` links at the head.
- A cursor held across a structural change of its list: the model's cursor is a value, so such a change does not disturb it.
- The compound cursor's optional key and value out-parameters: a step yields the whole cell.
- Tags.Tag.Ref: the count is unbounded; wrap-around of the 32-bit count is not modelled.
- Tags.Tag.ListGetLength, Tags.Tag.ListGet, Tags.Tag.ListInsert, Tags.Tag.ListDelete, Tags.Tag.CompoundGetLength, Tags.Tag.GetByteArrayLength: indices and lengths are unbounded naturals rather than `uint32_t`.
- Tags.Tag.ListInsert: on an empty list with an index above 0, it models the intended append, not the code's dereference of a missing cell. The code as written is `Sequences.InsertAsWritten` (see "## Findings").
- Tags.Tag.ListInsert: it requires an accepted child to have a smaller ghost rank than the list, so cycles cannot arise. The source does not check this, and a cycle would make `find` and the free recurse forever. The rank is fixed when a node is constructed, so this also refuses some acyclic insertions that the source allows. Example: a list built with rank 5 cannot be inserted into a list built with rank 3. A caller must choose ranks that agree with the nesting it intends to build.
- Tags.Tag.CompoundSet: it requires the value to have a smaller ghost rank than the compound, for the same reason and with the same cost: an acyclic `set` whose value was built with a rank at least the compound's is outside the model.
- Keys and strings are Dafny `string`s and may contain `'\0'`. In C, `rs_strdup` (src/tag.c:533, 733) and `strcmp` (src/tag.c:687, 751) stop at the first NUL. So the model keeps and compares text past a NUL that the source would cut off. It agrees with the source on NUL-free text.
- Tags.NewInteger: it requires the value to fit a C `int`, since the constructor reads it with `va_arg(ap, int)`.
- Tags.NewByteArray: the constructor reads a length and a pointer. The model takes the bytes as one sequence, so they cannot disagree.
- Tags.Tag.CompoundDelete: the source also leaves the removed cell's key string and node unfreed. The model has no allocation to track there.
- Tags.InsertEach: it sets the element kind once before the loop. The source sets it on the first round through a `first` flag. The list is empty at that point either way, so the effect is the same.

## Findings

| source | as written | input that shows it | evidently intended | confidence | as-written member | corrected member |
|---|---|---|---|---|---|---|
| src/tag.c:621-625 | for `i >= len`, the new cell is linked after `rs_list_nth_cell(items, len - 1)`; with `len == 0` the unsigned `len - 1` is 4294967295, no cell exists, and the missing cell is dereferenced after the tag has already been retained | an empty List and `rs_tag_list_insert(list, 1, tag)` | append, as for a non-empty list, giving the one-element list `[tag]` | not executed | Sequences.InsertAsWritten, Sequences.InsertIntoEmptyPastEnd | Sequences.InsertClamped, Sequences.InsertAsWrittenAgrees |
