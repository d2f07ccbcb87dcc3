# A verified model of the BOOS core list and memory utilities

This project models two utility headers of the BOOS operating-system core:

- `util::AbstractLinkedList` (module `LinkedList`, with modules `Chain` and
  `Sequences`): the circular doubly-linked list that BOOS's concrete lists
  and queues are built on. The list keeps only a pointer to its tail,
  `last_`. The head is the tail's `next`. Every node records its own ordinal,
  and the list reads its length off the tail's ordinal.
- `util::Memory` (module `Memory`): `memcpy`, `memset`, `strlen`, `strcpy`,
  `strcat` and `strcmp`, working on raw memory.

## How the list is modelled

The list is a class whose fields the methods update in place:

- `illegal` is the element returned on errors.
- `last` is the tail, or `None` for an empty list.
- `count` is the modification counter.
- `links` and `index` form an arena of nodes. `links` maps a node handle to
  its element and its `next` and `prev` handles. `index` maps a node handle
  to the ordinal the node records.
- `nextHandle` is the next fresh handle. A node allocation takes it.
- The ghost fields `Nodes` and `Contents` are the chain and its elements in
  head-to-tail order.

`Chain.Chained` states what it means for the arena to be one circular chain:

- each node sits between its two neighbours;
- each node records its position from the head;
- the arena holds exactly the nodes of the chain.

The class invariant `Valid` adds three facts: every handle is below
`nextHandle`, `last` is the chain's tail, and `count` is at least the length.

The node type's own code (`LinkedNode`) is not part of this model. Its three
operations, as the list calls them, are modelled in module `Chain`:

- `after->after(node)` is `Chain.SpliceAfter`.
- `before->before(node)` is `Chain.SpliceBefore`.
- `delete node` is `Chain.Unlink`.

Each of the three renumbers the nodes that move by walking the chain forward
until it reaches the head again (`Chain.Shift`). Their contracts state that
the arena they return is again one chain, holding `Inserted(...)` or
`Removed(...)` of the old one. Every list operation is proved against
`Sequences.Inserted`, `Sequences.Removed` and `Sequences.IndexOf` on
`Contents`.

Two inputs stand for things the list only observes. The base object's
`isConstructed()` flag is the constructor parameter `constructed`. The outcome
of an allocation (a node in `addNode`, a buffer in `toArray`) is a boolean
parameter `allocOk`: false models an allocator that hands back an object whose
construction failed.

`count_` is incremented by `removeNode` as well as by `addNode`, so it counts
modifications rather than elements. The model keeps this behaviour. The
invariant therefore states only `|Contents| <= count`, and `Clear` states that
`count` grows by the old length.

`getNodeByElement` starts at `last_->next()` without checking for an empty
list. `GetNodeByElement`, and `IndexOf` and `RemoveElement` through it,
therefore require a non-empty list. `RemoveElement` requires this only for a
constructed list, because an unconstructed one returns before the search.

`addNode` has two branches for a missing neighbour node (lines 337-341 and
348-352). The model proves both unreachable.

## How memory is modelled

- A pointer is `Ptr(mem, at)`: an array and an offset into it.
- `uint8` is `Byte`, `int32` is `Int32`, and `char` is `Char`, a signed
  8-bit value.
- A C string at `at` is the run of characters up to the first zero
  (`IsCString`, `StrLen`, `CString`).
- `Overwrite(s, at, t)` is the memory `s` with the run `t` written from
  offset `at`. Each writing routine states its whole effect on the
  destination array as such an `Overwrite`.
- `Mismatch` and `Compare` define what `strcmp` returns: the difference of
  the characters at the first offset where the strings differ or the first
  one ends.

`strcpy` and `strcat` end with the same copy loop. The model writes it once,
as `Memory.CopyThrough`, and both routines call it.

## Model

| member | source | states |
|---|---|---|
| `LinkedList.AbstractLinkedList.constructor` | src/include/boos.util.AbstractLinkedList.hpp:46-51 | a new list is empty, with no tail and `count` 0, and keeps the given illegal element and construction outcome |
| `LinkedList.AbstractLinkedList.Length` | src/include/boos.util.AbstractLinkedList.hpp:198-201 | the tail's ordinal plus one, or 0 without a tail, equals the number of elements |
| `LinkedList.AbstractLinkedList.IsIndex` | src/include/boos.util.AbstractLinkedList.hpp:255-258 | true exactly when `0 <= i < length` |
| `LinkedList.AbstractLinkedList.IsIndexOutOfBounds` | src/include/boos.util.AbstractLinkedList.hpp:414-417 | true exactly when `i` lies outside the insertion positions `0 .. length` |
| `LinkedList.AbstractLinkedList.GetNodeByIndex` | src/include/boos.util.AbstractLinkedList.hpp:365-372 | the node at ordinal `i`, reached by walking from the head (the tail directly for the last ordinal), or none when `i` addresses no element |
| `LinkedList.AbstractLinkedList.GetNodeByElement` | src/include/boos.util.AbstractLinkedList.hpp:380-387 | the node at the first ordinal holding `e`, or none when `e` does not occur |
| `LinkedList.AbstractLinkedList.RemoveNode` | src/include/boos.util.AbstractLinkedList.hpp:395-406 | fails without change for a null node; otherwise the chain and its elements lose exactly the node's ordinal, the tail moves to its predecessor (or to none for a single node) only when the node was the tail, `count` goes up by one and the invariant is kept |
| `LinkedList.AbstractLinkedList.AddNode` | src/include/boos.util.AbstractLinkedList.hpp:319-357 | succeeds exactly when `0 <= i <= length` and allocation succeeds, and then inserts `e` at ordinal `i` with a fresh node and adds one to `count`; the tail becomes the new node for an insertion at the end and stays for an insertion at the head of a non-empty list; a failure changes nothing |
| `LinkedList.AbstractLinkedList.LinkAfter` | src/include/boos.util.AbstractLinkedList.hpp:342-343 | splicing the fresh node after the node at ordinal `p` inserts it at ordinal `p + 1`; it becomes the tail exactly when `p` was the tail's ordinal |
| `LinkedList.AbstractLinkedList.LinkBefore` | src/include/boos.util.AbstractLinkedList.hpp:347-353 | splicing the fresh node before the head inserts it at ordinal 0 and leaves the tail as it was |
| `LinkedList.AbstractLinkedList.Add` | src/include/boos.util.AbstractLinkedList.hpp:69-72 | succeeds exactly when the list is constructed and allocation succeeds, and then appends `e`, which becomes the tail, and adds one to `count`; a failure changes nothing; the illegal element is kept either way |
| `LinkedList.AbstractLinkedList.AddAt` | src/include/boos.util.AbstractLinkedList.hpp:83-86 | succeeds exactly when the list is constructed, `0 <= i <= length` and allocation succeeds, and then inserts `e` at ordinal `i` and adds one to `count`; a failure changes nothing; the illegal element is kept either way |
| `LinkedList.AbstractLinkedList.Clear` | src/include/boos.util.AbstractLinkedList.hpp:91-96 | a constructed list ends empty without a tail, with `count` raised by the old length; an unconstructed one is left unchanged |
| `LinkedList.AbstractLinkedList.RemoveAt` | src/include/boos.util.AbstractLinkedList.hpp:134-137 | succeeds exactly when the list is constructed and `0 <= i < length`, and then removes the element at ordinal `i` and adds one to `count`; a failure changes nothing; the illegal element is kept either way |
| `LinkedList.AbstractLinkedList.Remove` | src/include/boos.util.AbstractLinkedList.hpp:123-126 | succeeds exactly when the list is constructed and not empty, and then drops the head and adds one to `count`; a failure changes nothing; the illegal element is kept either way |
| `LinkedList.AbstractLinkedList.RemoveFirst` | src/include/boos.util.AbstractLinkedList.hpp:103-106 | succeeds exactly when the list is constructed and not empty, and then drops the head and adds one to `count`; a failure changes nothing; the illegal element is kept either way |
| `LinkedList.AbstractLinkedList.RemoveLast` | src/include/boos.util.AbstractLinkedList.hpp:113-116 | succeeds exactly when the list is constructed and not empty, and then drops the tail and adds one to `count`; a failure changes nothing; the illegal element is kept either way |
| `LinkedList.AbstractLinkedList.RemoveElement` | src/include/boos.util.AbstractLinkedList.hpp:145-148 | succeeds exactly when the list is constructed and holds `e`, and then removes the first occurrence of `e` and adds one to `count`; a failure changes nothing; the illegal element is kept either way |
| `LinkedList.AbstractLinkedList.Get` | src/include/boos.util.AbstractLinkedList.hpp:186-191 | the element at ordinal `i`, or the illegal element when the list is not constructed or `i` addresses no element |
| `LinkedList.AbstractLinkedList.Element` | src/include/boos.util.AbstractLinkedList.hpp:155-158 | the head element, or the illegal element when there is none or the list is not constructed |
| `LinkedList.AbstractLinkedList.GetFirst` | src/include/boos.util.AbstractLinkedList.hpp:165-168 | the head element, or the illegal element when there is none or the list is not constructed |
| `LinkedList.AbstractLinkedList.GetLast` | src/include/boos.util.AbstractLinkedList.hpp:175-178 | the tail element, or the illegal element when there is none or the list is not constructed |
| `LinkedList.AbstractLinkedList.SetIllegal` | src/include/boos.util.AbstractLinkedList.hpp:220-223 | a constructed list takes `value` as its illegal element, after which `isIllegal(value)` holds; an unconstructed one keeps the old element; nothing else changes |
| `LinkedList.AbstractLinkedList.Illegal` | src/include/boos.util.AbstractLinkedList.hpp:210-213 | the getter's value is recognised by `isIllegal` exactly when the list is constructed |
| `LinkedList.AbstractLinkedList.IsIllegal` | src/include/boos.util.AbstractLinkedList.hpp:231-235 | true exactly when the list is constructed and `value` equals the illegal element that `illegal()` returns |
| `LinkedList.AbstractLinkedList.IndexOf` | src/include/boos.util.AbstractLinkedList.hpp:243-247 | the ordinal of the first occurrence of `e`, or -1 exactly when `e` does not occur |
| `LinkedList.AbstractLinkedList.ToArray` | src/include/boos.util.AbstractLinkedList.hpp:267-285 | null exactly when the list is not constructed, is empty or the buffer cannot be allocated; otherwise a fresh buffer holding the elements head to tail |
| `LinkedList.Positioned` | src/include/boos.util.AbstractLinkedList.hpp:336-343 | in a valid list the node at ordinal `p` records `p`, it is the tail exactly when `p` is the last ordinal, and the next fresh handle is not in use |
| `LinkedList.TrackedAfter` | src/include/boos.util.AbstractLinkedList.hpp:342-343 | after a splice behind ordinal `p` the arena is again a valid chain whose tail is the new node when `p` was the tail and the old tail otherwise |
| `LinkedList.TrackedBefore` | src/include/boos.util.AbstractLinkedList.hpp:353 | after a splice in front of the head the arena is again a valid chain with the same tail |
| `Chain.SpliceAfter` | src/include/boos.util.AbstractLinkedList.hpp:342 | splicing a node not yet in the arena after `after` gives one circular chain with the node and its element inserted right behind `after`, every ordinal renumbered |
| `Chain.SpliceBefore` | src/include/boos.util.AbstractLinkedList.hpp:353 | splicing a node not yet in the arena before the head gives one circular chain with the node as the new head, every ordinal renumbered |
| `Chain.Unlink` | src/include/boos.util.AbstractLinkedList.hpp:403 | freeing a node of the chain gives one circular chain without it, its neighbours joined and the ordinals behind it renumbered |
| `Chain.Shift` | src/include/boos.util.AbstractLinkedList.hpp:342-353 | the renumbering done by `after->after(node)` and `before->before(node)` (and by `delete node` at line 403) walks from ordinal `j0` to the head, moves each recorded ordinal by `delta` and leaves the nodes in front of `j0` alone, so the tail's ordinal stays its position |
| `Chain.SplicedAfter` | src/include/boos.util.AbstractLinkedList.hpp:342 | the three link writes of a splice after the node at ordinal `p` form the longer ring, with the nodes behind the new one one ordinal short until renumbered |
| `Chain.SplicedBefore` | src/include/boos.util.AbstractLinkedList.hpp:353 | the three link writes of a splice before the head form the longer ring, with the new head at ordinal 0 and every old node one ordinal short until renumbered |
| `Chain.Unlinked` | src/include/boos.util.AbstractLinkedList.hpp:403 | joining the neighbours of the node at ordinal `p` and dropping it, after renumbering, leaves the shorter chain |
| `Chain.NumberedDistinct` | src/include/boos.util.AbstractLinkedList.hpp:198-201 | a chain whose nodes record their ordinals holds no node twice |
| `Chain.InsertedDistinct` | src/include/boos.util.AbstractLinkedList.hpp:322 | inserting a freshly allocated node keeps the chain free of repetitions |
| `Chain.PositionOf` | src/include/boos.util.AbstractLinkedList.hpp:243-247 | the ordinal a node records is its position in the chain |
| `Chain.WalkFromHead` | src/include/boos.util.AbstractLinkedList.hpp:278-283 | `k` steps along `next` from the head reach ordinal `k`, and as many steps as there are nodes come back to the head |
| `Chain.Closure` | src/include/boos.util.AbstractLinkedList.hpp:278-283 | the chain is circular: walking its length from the head returns to the head |
| `Chain.WalkShift` | src/include/boos.util.AbstractLinkedList.hpp:370 | walking `k + 1` steps is walking `k` steps and then one more |
| `Sequences.Inserted` | src/include/boos.util.AbstractLinkedList.hpp:319-357 | insertion at ordinal `i`: one element longer, `x` at `i`, the elements in front kept, the elements behind moved up by one |
| `Sequences.Removed` | src/include/boos.util.AbstractLinkedList.hpp:395-406 | removal at ordinal `i`: one element shorter, the elements in front kept, the elements behind moved down by one |
| `Sequences.IndexOf` | src/include/boos.util.AbstractLinkedList.hpp:380-387 | the smallest ordinal holding `x`, or -1 exactly when `x` does not occur |
| `Sequences.RemovedInserted` | src/include/boos.util.AbstractLinkedList.hpp:83-86 | removing at the ordinal just inserted at gives back the original list |
| `Sequences.InsertedAtEnd` | src/include/boos.util.AbstractLinkedList.hpp:69-72 | inserting at ordinal `length` appends |
| `Sequences.RemovedLast` | src/include/boos.util.AbstractLinkedList.hpp:113-116 | removing at ordinal `length - 1` drops the last element |
| `Sequences.InsertedAtFrontKeepsLast` | src/include/boos.util.AbstractLinkedList.hpp:345-354 | inserting at the head of a non-empty list leaves the tail element in place |
| `Sequences.InsertedMultiset` | src/include/boos.util.AbstractLinkedList.hpp:319-357 | insertion adds exactly one occurrence of the new element and keeps all others |
| `Sequences.RemovedMultiset` | src/include/boos.util.AbstractLinkedList.hpp:395-406 | removal takes out exactly one occurrence of the removed element and keeps all others |
| `Sequences.InsertedMembers` | src/include/boos.util.AbstractLinkedList.hpp:319-357 | after an insertion the members are the old ones plus the new element |
| `Sequences.RemovedMembers` | src/include/boos.util.AbstractLinkedList.hpp:395-406 | after a removal from a list without repetitions the members are the old ones minus the removed element |
| `Sequences.RemovedFirstOccurrence` | src/include/boos.util.AbstractLinkedList.hpp:145-148 | removing the first occurrence of `x` drops exactly one `x` and keeps every element in front of it |
| `Memory.Memcpy` | src/include/boos.util.Memory.hpp:30-36 | the destination array afterwards is its old contents with the `len` source bytes written from the destination offset, and `dst` is returned |
| `Memory.Memset` | src/include/boos.util.Memory.hpp:47-53 | the destination array afterwards is its old contents with `len` copies of `val` modulo 256 (`ToByte`) written from the destination offset, and `dst` is returned |
| `Memory.Strlen` | src/include/boos.util.Memory.hpp:61-66 | the number of characters before the first zero |
| `Memory.CopyThrough` | src/include/boos.util.Memory.hpp:78-79 | copying up to and including the first zero writes exactly that run at the destination and nothing else |
| `Memory.Strcpy` | src/include/boos.util.Memory.hpp:75-81 | the destination receives the source string with its terminator and then holds a C string equal to the source string; `dst` is returned |
| `Memory.Strcat` | src/include/boos.util.Memory.hpp:91-99 | the source string with its terminator is written over the destination's terminator, and the destination then holds the concatenation of the two strings; `dst` is returned |
| `Memory.Strcmp` | src/include/boos.util.Memory.hpp:108-118 | the result is the difference of the characters at the first offset where the strings differ or the first string ends |
| `Memory.StrLen` | src/include/boos.util.Memory.hpp:61-66 | the length is the offset of the first zero: a zero there, none before |
| `Memory.CString` | src/include/boos.util.Memory.hpp:61-66 | a C string holds as many characters as its length and no zero |
| `Memory.Mismatch` | src/include/boos.util.Memory.hpp:108-118 | an offset inside both strings' memory where the characters differ or the first string ends |
| `Memory.MismatchAgrees` | src/include/boos.util.Memory.hpp:110-115 | before the mismatch offset both strings hold the same non-zero characters, so the mismatch is the first such offset |
| `Memory.Compare` | src/include/boos.util.Memory.hpp:108-118 | the comparison lies between -255 and 255 |
| `Memory.CompareZero` | src/include/boos.util.Memory.hpp:108-118 | the comparison is zero exactly when the two strings are equal |
| `Memory.CompareAntisymmetric` | src/include/boos.util.Memory.hpp:108-118 | swapping the two strings negates the comparison |
| `Memory.OverwriteAt` | src/include/boos.util.Memory.hpp:30-36 | a written run holds the written values inside its range, and the memory outside the range is unchanged |
| `Memory.OverwriteStep` | src/include/boos.util.Memory.hpp:34 | writing one more element right behind a written run extends the run |
| `Memory.OverwriteNext` | src/include/boos.util.Memory.hpp:34 | writing element `i` of a run right behind its first `i` elements gives the first `i + 1` elements written |
| `Memory.Repeat` | src/include/boos.util.Memory.hpp:51 | `n` copies of a byte: length `n`, every element that byte |
| `Memory.CStringEmpty` | src/include/boos.util.Memory.hpp:64 | a C string starting at its terminator is empty |
| `Memory.CStringCons` | src/include/boos.util.Memory.hpp:64-65 | a C string starting at a non-zero character is that character followed by the C string after it |
| `Memory.WrittenString` | src/include/boos.util.Memory.hpp:75-81 | writing a run whose only zero is its last element leaves a C string equal to the run without its terminator |
| `Memory.AppendedString` | src/include/boos.util.Memory.hpp:91-99 | writing such a run over a string's terminator leaves the concatenation of the string and the run without its terminator |
| `Memory.StringAt` | src/include/boos.util.Memory.hpp:61-66 | memory holding a run whose only zero is its last element holds a C string equal to the run without its terminator |

## Left out

- `iterator()` and `listIterator()` are not modelled. The second is pure virtual in this class, and the first only forwards to it.
- `getReferenceToCount`, `getReferenceToLast` and `getReferenceToIllegal` are not modelled. They hand out references to the fields, and the model does not capture aliasing through them.
- The default constructor is not modelled. It leaves `illegal_` default-initialised, which has no counterpart for an arbitrary element type.
- The destructor is not modelled separately. It only calls `clear()`, which is `Clear`, before the memory is released.
- `construct()` and `Object`'s construction flag are not modelled. The flag is the constructor parameter `constructed`, which never changes.
- `LinkedNode`, `Buffer` and the allocator are not part of this model. Node and buffer allocation is the input `allocOk`. The node operations are modelled through their observable effect in `Chain`. `before()` is modelled only on the head, the one place the list calls it.
- `int32` widths are not modelled: `count`, ordinals and lengths are unbounded integers. With 32-bit `count_`, more than 2^31 modifications would wrap around.
- Memory shared between source and destination is not modelled. `Memcpy`, `Strcpy` and `Strcat` require the two regions not to overlap. Only `strcat` is documented that way (src/include/boos.util.Memory.hpp:88); for `Memcpy` and `Strcpy` excluding overlap is the model's own choice, and what they do on overlapping regions is not described.
- `char` is modelled as a signed 8-bit value. On a target where `char` is unsigned, `strcmp` would return different signs for characters above 127.
- Node deallocation, the `Timer` and the rest of the kernel are not part of this model.
