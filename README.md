# Packed integer set and doubly linked list

A model of two small data structures from a Redis-derived code base:

- **intset**: a sorted set of 64-bit integers packed in a byte buffer. A
  header holds the element width (`encoding`: 2, 4 or 8 bytes) and the
  element count (`length`). The contents hold the elements as little-endian
  two's-complement integers of that width, in strictly ascending order.
  Adding a value too wide for the current encoding first rewrites every
  element at the wider width. The value then goes to the front when it is
  negative and to the back otherwise.
- **adlist**: a generic doubly linked list. Nodes are linked through `prev` and
  `next`. The list header holds `head`, `tail` and `len`. An iterator walks the
  nodes from either end, and the node it has just returned may be deleted.

The project has three modules:

- `LittleEndian` (`littleendian.dfy`): bytes, little-endian loads and stores,
  two's-complement reading, and fixed-width element slots in a buffer.
- `PackedIntSet` (`intset.dfy`): class `IntSet`. Its fields `encoding`,
  `length` and `contents` (a `seq<byte>` that the methods reassign) are those
  of the C struct. `Elements()` decodes the contents, and `Valid()` is the set
  invariant.
- `AdList` (`adlist.dfy`): the classes `Node`, `List` and `ListIter`, with the
  same pointer fields as the C structs. The ghost field `List.nodes` lists the
  nodes from head to tail. `Valid()` ties `head`, `tail`, `len` and every
  `prev`/`next` pointer to it, and `Values()` gives the list's values.

The C callbacks are parameters of the operations that use them: `dup` for
listDup and `match` for listSearchKey. Each is an `Option` of a function value;
`None` means the callback is not set. listEmpty and listDelNode return the
values they would hand to the `free` callback.

## Model

| member | source | states |
|---|---|---|
| PackedIntSet.ValueEncoding | datastructure/intset.c:45-52 | the result is an encoding, it represents `v`, and no narrower encoding does |
| PackedIntSet.ValueEncodingRanges | datastructure/intset.c:45-52 | the 16-bit encoding is chosen exactly for [-2^15, 2^15-1], the 32-bit one exactly for the rest of [-2^31, 2^31-1], and the 64-bit one exactly for everything else |
| PackedIntSet.FitsIffWideEnough | datastructure/intset.c:45-52 | a value fits an encoding iff its own encoding is no wider |
| LittleEndian.DecodeEncode | datastructure/intset.c:55-73 | reading back an element of n bytes that was stored at that width gives the stored value, for every value representable in n bytes |
| LittleEndian.LoadStore | datastructure/intset.c:55-73 | the little-endian load of the little-endian store of an n-byte unsigned value is that value |
| LittleEndian.Decode | datastructure/intset.c:55-73 | an element read at width n is always representable in n bytes |
| LittleEndian.StoreElement | datastructure/intset.c:81-94 | a store at element `pos` leaves the bytes before it unchanged and leaves every other element unchanged; the element reads back as the value when the value fits, and as the value truncated to the width otherwise |
| PackedIntSet.IntSet.GetEncoded | datastructure/intset.c:55-73 | the element read at an explicit width fits that width |
| PackedIntSet.IntSet.GetAt | datastructure/intset.c:76-78 | the result is element `pos` of the set |
| PackedIntSet.IntSet.SetAt | datastructure/intset.c:81-94 | after the store, element `pos` holds the value when it fits; the bytes before it and every other element are unchanged; encoding and length are unchanged |
| PackedIntSet.IntSet.constructor | datastructure/intset.c:97-102 | a new set is valid and empty, at the 16-bit encoding |
| PackedIntSet.IntSet.Resize | datastructure/intset.c:105-109 | the contents hold exactly `len` elements at the current encoding; the common prefix of bytes and every element that survives are kept |
| PackedIntSet.IntSet.Search | datastructure/intset.c:115-154 | found iff the value is an element, and then `pos` holds it; otherwise `pos` is the insertion point, with every element before it smaller and every element from it on larger; an empty set gives not found at 0 |
| PackedIntSet.IntSet.UpgradeElements | datastructure/intset.c:170-172 | the back-to-front loop rewrites every old element i at the new width as element i + prepend, so no element is lost or reordered |
| PackedIntSet.UpgradeStep | datastructure/intset.c:171-172 | one iteration of the upgrade loop keeps the loop invariant: the old bytes before element j are untouched, and the elements from j on sit at their new place |
| PackedIntSet.UpgradeFinish | datastructure/intset.c:174-180 | once the old elements are shifted by `prepend` and the value is stored in the free slot, the set is the value followed by the old elements when it is negative, and the old elements followed by the value otherwise; it is strictly ascending and within the new encoding |
| PackedIntSet.WiderValueIsExtreme | datastructure/intset.c:161-164 | a value that does not fit the encoding of an ascending set is below every element when negative and above every element otherwise, so prepending or appending it keeps the set ascending |
| PackedIntSet.IntSet.UpgradeAndAdd | datastructure/intset.c:157-183 | the set stays valid and takes the value's encoding; its elements become `[value] + old` for a negative value and `old + [value]` otherwise |
| PackedIntSet.IntSet.MoveTail | datastructure/intset.c:185-204 | moving the elements from `from` to the end so that they start at `to` puts old element i - to + from at every destination position i, and keeps every element outside the destination |
| LittleEndian.MoveElements | datastructure/intset.c:185-204 | the byte-level memmove of whole elements moves each element of the block and keeps each element outside it |
| PackedIntSet.IntSet.Add | datastructure/intset.c:207-234 | success iff the value was absent; on success the elements gain exactly the value (as a multiset) and stay strictly ascending; on failure nothing changes; the encoding widens to the value's encoding when that is wider, and is unchanged otherwise |
| PackedIntSet.IntSet.InsertAt | datastructure/intset.c:226-233 | storing the value at its insertion point gives `old[..pos] + [value] + old[pos..]`, still valid at the same encoding |
| PackedIntSet.IntSet.OpenGap | datastructure/intset.c:225-226 | the resize and the tail move leave the elements before `pos` in place and those from `pos` on one slot up |
| PackedIntSet.InsertKeepsAscending | datastructure/intset.c:225-233 | inserting at an insertion point keeps a sequence strictly ascending |
| PackedIntSet.IntSet.Remove | datastructure/intset.c:237-254 | success iff the value was present; on success exactly that value leaves the elements (as a multiset), and they stay strictly ascending; on failure nothing changes; the encoding never changes |
| PackedIntSet.RemovedElements | datastructure/intset.c:245-249 | moving the tail down over `pos` and shrinking by one element leaves `old[..pos] + old[pos + 1..]` |
| PackedIntSet.RemoveKeepsAscending | datastructure/intset.c:245-249 | removing an element keeps a sequence strictly ascending |
| PackedIntSet.IntSet.Find | datastructure/intset.c:257-260 | found iff the value's encoding is within the set's and the value is an element, which is the same as being an element |
| PackedIntSet.IntSet.Random | datastructure/intset.c:263-265 | for a given `rand()` output, the result is the element at that output modulo the length, so it is an element |
| PackedIntSet.IntSet.Get | datastructure/intset.c:269-275 | success iff `pos` is below the length, and then the value is element `pos` |
| PackedIntSet.IntSet.Len | datastructure/intset.c:278-280 | the result is the number of elements |
| PackedIntSet.IntSet.BlobLen | datastructure/intset.c:283-285 | the result is the size of the in-memory image: the header plus length times encoding bytes |
| PackedIntSet.IntSet.BlobLayout | datastructure/intset.c:283-285 | the image reads back as the set: the header holds the encoding and the length, and the bytes after it decode to the elements |
| AdList.List.constructor | datastructure/adlist.c:41-53 | a new list is valid and empty, with null head and tail and length 0 |
| AdList.List.Empty | datastructure/adlist.c:56-71 | the list becomes empty and valid, and the values handed to `free` are the old values in order from the head |
| AdList.List.AddNodeHead | datastructure/adlist.c:88-106 | the values become `[value] + old`, the new node is fresh and comes before the old nodes, and the length grows by one |
| AdList.List.AddNodeTail | datastructure/adlist.c:114-132 | the values become `old + [value]`, the new node is fresh and comes after the old nodes, and the length grows by one |
| AdList.List.InsertNode | datastructure/adlist.c:134-161 | a fresh node with the value goes right after `oldNode` (after != 0) or right before it; the head changes only when inserting before the old head, the tail only when inserting after the old tail |
| AdList.List.LinkNeighbours | datastructure/adlist.c:153-159 | once the new node points at its neighbours, pointing them back at it puts it into the list at its position, keeping the list valid |
| AdList.List.DelNode | datastructure/adlist.c:167-180 | the node leaves the list and the others keep their order; the head moves to the node's successor only when the node was the head, and the tail to its predecessor only when it was the tail; the length drops by one and the node's value goes to `free` |
| AdList.ListIter.constructor | datastructure/adlist.c:186-197 | a new iterator starts at the head for AL_START_HEAD and at the tail otherwise, with every node still to return in its direction's order |
| AdList.ListIter.Rewind | datastructure/adlist.c:205-208 | the iterator is back at the head, walking towards the tail, with every node pending |
| AdList.ListIter.RewindTail | datastructure/adlist.c:210-213 | the iterator is back at the tail, walking towards the head, with every node pending in reverse |
| AdList.ListIter.Next | datastructure/adlist.c:229-240 | the result is the node the iterator was at, and the iterator moves to that node's successor (from the head) or predecessor (from the tail) |
| AdList.NextStep | datastructure/adlist.c:229-240 | on a valid list, the nodes pending before a step are the returned node followed by the nodes pending after it |
| AdList.DeleteKeepsPending | datastructure/adlist.c:215-228 | deleting the node just returned does not change the nodes the iterator has still to return |
| AdList.List.Dup | datastructure/adlist.c:250-279 | the result is null iff the `dup` callback fails on some value; otherwise it is a fresh valid list, every node of it fresh, whose values are the original values passed through the callback, or copied unchanged when none is set; the original is not modified |
| AdList.DuplicatedSpec | datastructure/adlist.c:250-279 | the copy fails iff the callback fails on some value, and otherwise has the same length, with each value the callback's result on the original value |
| AdList.DuplicatedWithoutCallback | datastructure/adlist.c:271-272 | without a `dup` callback the copy holds the original values |
| AdList.List.SearchKey | datastructure/adlist.c:290-308 | the result is null iff no value matches the key; otherwise it is the first node from the head whose value matches, using the `match` callback when set and equality otherwise |
| AdList.List.Index | datastructure/adlist.c:315-327 | a non-negative index gives node `index` from the head, a negative one gives node `len + index` (-1 is the tail), and an index out of range gives null |
| AdList.List.Rotate | datastructure/adlist.c:330-343 | a list of more than one node has its tail moved to the head, so the values become `[last] + old[..len - 1]`; a shorter list is unchanged |
| AdList.List.Join | datastructure/adlist.c:347-362 | the nodes and values of `o` are appended to this list and the lengths add up; `o` is left empty but valid |
| AdList.List.Append | datastructure/adlist.c:348-355 | linking the nodes of `o` after the tail gives the valid list `old + o` |
| AdList.List.Forget | datastructure/adlist.c:358-361 | the list is reset to empty and valid |

## Left out

- intsetRandom calls `rand()`. `PackedIntSet.IntSet.Random` takes its output as a parameter `r`.
- Memory allocation is not modelled. zmalloc failures are left out, so listCreate, listAddNodeHead/Tail, listInsertNode, listGetIterator and listDup never fail on allocation. zrealloc in intsetResize is a reassignment of the byte sequence, not an update in place. Nodes are not freed.
- `PackedIntSet.IntSet.Resize`: growth fills the new bytes with zeros, where realloc leaves them undefined. No contract depends on those bytes.
- The `intrev32ifbe` byte swaps are identities: the model takes the host to be little-endian.
- Integer widths in intset.c are not modelled: `length`, positions and byte counts are unbounded naturals. The C code breaks well before 2^32 elements, and none of the following is captured:
  - the `uint32_t` byte count `len * encoding` wraps once it reaches 2^32. That happens at 2^29 eight-byte, 2^30 four-byte or 2^31 two-byte elements. It wraps in intsetResize (intset.c:106), in intsetMoveTail (the `bytes *=` at intset.c:193-201) and in intsetBlobLen (intset.c:284). After such a wrap zrealloc returns a buffer that is too small, and the next store writes past it;
  - the `int` positions of `_intsetGetEncoded`, `_intsetGet` and `_intsetSet` (intset.c:55, 76, 81) and the `int min, max` of intsetSearch (intset.c:116) overflow at 2^31 elements;
  - `length` itself wraps at 2^32. `PackedIntSet.IntSet.BlobLayout` requires the length to be below 2^32.
- `AdList.List.Index`: `long` indices are unbounded integers. The C negation `-index` overflows at LONG_MIN, and that case is not modelled.
- In the C code the callbacks `dup`, `free` and `match` are fields of the list, set by header macros. Here they are parameters, as described above. `free` has no effect beyond the values returned by Empty and DelNode. Callbacks with side effects are not modelled.
- listRelease is listEmpty, which hands every value to `free` (see `AdList.List.Empty`), followed by freeing the list header. Freeing the header is not modelled. listReleaseIterator only frees the iterator and is not modelled. The macros of adlist.h and the dict.h header are not part of this model. intsetRepr and the self-test code in intset.c are not modelled either.
- Valid() does not require the set's encoding to be the narrowest one that holds every element. The code never narrows the encoding when elements are removed, so a set can be wider than its elements need. The model follows the code here.
