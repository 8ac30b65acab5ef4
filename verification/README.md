# Intrusive doubly-linked list, modelled in Dafny

The repository implements an intrusive list. A host object embeds a link record,
`details::list_element_base`, which holds two pointers, `prev` and `next`. The container
`intrusive::list<T, Tag>` threads these records into a ring around one sentinel record that it
owns (`dummy`). The model covers two parts:

- the link record: its construction, its copy and move, and `link`, `unlink` and `is_linked`;
- every operation of `list` built from these primitives, together with its iterator.

**Arena.** Addresses become identities: node `x` is entry `x` of an arena `Heap = seq<Node>`,
where `Node(prev, next)` holds the node's two links. Constructing a node appends it to the arena.
Every pointer write of the C++ code becomes one arena update, done in the same order, and every
pointer the code reads is read from the arena at the same point. So the
aliasing cases fall out of the model, not of extra assumptions. These cases are a node that is its
own neighbour, and a move source that is adjacent to its destination.

**Invariant.** `Nodes.Valid` says that `next` and `prev` are mutual inverses.

**Abstract view.** `Rings.Ring(h, r)` says the distinct nodes `r` form one ring, each followed by
the next one. `Lists.IsList(h, d, s)` says the list whose sentinel is `d` has the members `s`, in
order; it is the ring `[d] + s`.

**Iterators.** An iterator is the identity it stands at. Position `k` of a list is `s[k]`, and
position `|s|` is the sentinel, that is `end()` (`Lists.At`).

**What each operation has proved about it.**

- **Sequence laws.** Each list operation has a lemma in `ListLaws` that gives the new
  member sequences of every list involved, for every position and every input ring. It also gives
  a frame (`SameOutside`): no node outside the rings involved changes.
- **Node operations.** These get pointwise contracts and preserve the invariant.
- **Traversal.** `size()` and a range loop are methods with loop invariants. They are proved to
  count and to list exactly the members.

Modules:

| module | file | contents |
|---|---|---|
| `Nodes` | nodes.dfy | the link record and its operations |
| `Rings` | rings.dfy | chains and rings of nodes, and ring-level facts about unlink and move |
| `Lists` | list.dfy | `list` and its iterator, as functions on the arena |
| `ListRings` | list_rings.dfy | insert and splice on rings; the frame predicate |
| `Iteration` | iteration.dfy | iterator steps, `size()`, traversal |
| `ListLaws` | list_laws.dfy | every list operation stated on member sequences |

Undefined behaviour becomes a precondition:

- `front`, `back`, `pop_front` and `pop_back` require a non-empty list.
- `erase` is stated for a member, never for `end()`.
- `splice` is stated for a position outside the moved range.

For the one case the code does not exclude, `pos == last_exclusive`, the model proves what
actually happens: the range is dropped from the list and the invariant is broken
(`ListLaws.SpliceOntoRangeEndDropsRange`).

Two behaviours of the C++ code deserve a note:

- **Destruction.** `~list_element_base() = default` (intrusive-list.cpp:49) writes no link, so a
  destroyed node's neighbours are not repaired. The model therefore has no destruction step.
- **`clear()`.** It unlinks only the sentinel. Two or more former members stay a ring of their
  own, so each still reports `is_linked()`. A lone former member is left self-looped, so it reports
  not linked (`ListLaws.ClearDetaches` states both cases).

## Model

| member | source | states |
|---|---|---|
| Nodes.ValidInverse | intrusive-list.cpp:37-40 | under the invariant, `next[prev[x]] == x` and `prev[next[x]] == x` for every node |
| Nodes.LinkedIffNextNotSelf | intrusive-list.cpp:15-17 | under the invariant, `is_linked()` (prev is not self) agrees with "next is not self", and not linked means a full self-loop |
| Nodes.Construct | intrusive-list.cpp:5 | a default-constructed node is new, self-looped and unlinked, leaves every existing node as it was, and keeps the invariant |
| Nodes.CopyConstruct | intrusive-list.cpp:47 | a copy-constructed node starts unlinked whatever the source's state, and the source is untouched |
| Nodes.Link | intrusive-list.cpp:37-40 | `link(a, b)` makes b follow a; each node's other link and every other node are unchanged; no dangling link is created |
| Nodes.Unlink | intrusive-list.cpp:42-45 | the node becomes a self-loop; its former neighbours are joined to each other; nothing else changes; an unlinked node stays as it is; the invariant is kept |
| Nodes.UnlinkIdempotent | intrusive-list.cpp:42-45 | unlinking twice equals unlinking once |
| Nodes.CopyAssign | intrusive-list.cpp:7-13 | self-assignment changes nothing; otherwise the destination ends unlinked, a non-adjacent source keeps its links, and the invariant is kept |
| Nodes.MoveAssign | intrusive-list.cpp:19-31 | self-move changes nothing; the destination leaves its ring first; it then takes the source's position, with both neighbours pointing back at it, while the source ends self-looped; an unlinked source leaves both unlinked |
| Nodes.MoveAssignPointwise | intrusive-list.cpp:24-29 | the exact effect on every node of moving a linked source into a self-looped destination |
| Nodes.MoveAssignUnlinksFirst | intrusive-list.cpp:23 | move assignment equals move assignment applied after unlinking the destination |
| Nodes.MoveAssignKeepsValid | intrusive-list.cpp:19-31 | move assignment keeps the mutual-inverse invariant |
| Nodes.MoveFromUnlinked | intrusive-list.cpp:24 | moving from an unlinked node leaves both nodes unlinked |
| Nodes.MoveConstruct | intrusive-list.cpp:33-35 | a move-constructed node occupies the source's exact ring position, the neighbours point at it, and the source ends self-looped |
| Nodes.MoveConstructKeepsValid | intrusive-list.cpp:33-35 | move construction keeps the mutual-inverse invariant |
| Rings.RingOfOne | intrusive-list.cpp:5 | a node forms a ring on its own exactly when it is a self-loop |
| Rings.RingUnlinkHead | intrusive-list.cpp:42-45 | unlinking a member of a ring leaves the rest of that ring a ring, in the same order |
| Rings.UnlinkOtherRing | intrusive-list.cpp:42-45 | unlinking a node keeps every ring that does not contain it, and closes up its own |
| Rings.MoveIntoRing | intrusive-list.cpp:19-31 | moving a ring member into an unlinked node puts the destination in the source's place in the ring; no other node changes |
| Rings.MoveIntoRingKeepsOthers | intrusive-list.cpp:19-31 | moving into an unlinked destination keeps every ring disjoint from the source's ring and the destination |
| Rings.RingMoveAssign | intrusive-list.cpp:19-31 | move assignment between members of two different rings: the destination takes the source's place, the source ends unlinked, and the destination's old ring closes up |
| ListRings.ConstructKeepsRings | intrusive-list.cpp:5 | constructing a node leaves every existing ring a ring |
| ListRings.CopyAssignRings | intrusive-list.cpp:7-13 | copy assignment unlinks the destination, closes its old ring, keeps every ring disjoint from it (the source's among them), and changes nothing outside the destination's ring |
| ListRings.UnlinkSameOutside | intrusive-list.cpp:42-45 | unlinking changes only nodes of the unlinked node's own ring |
| ListRings.RingInsertBefore | intrusive-list.h:236-237 | linking an unlinked node just before a ring's first node makes it the ring's last node |
| ListRings.InsertFromOtherRing | intrusive-list.h:231-239 | inserting a node taken from another ring places it before the position and closes up its old ring |
| ListRings.InsertWithinRing | intrusive-list.h:231-239 | inserting a node that is already in the position's ring moves it to just before the position |
| ListRings.SpliceFrame | intrusive-list.h:254-260 | the six links a non-empty splice writes, and no others |
| ListRings.SpliceAcross | intrusive-list.h:249-261 | splicing a range out of another ring appends it before the position's ring head and closes the gap |
| ListRings.SpliceWithinLinks | intrusive-list.h:249-261 | the chain pieces a splice inside one ring leaves, and how they are now joined |
| ListRings.SpliceWithin | intrusive-list.h:249-261 | splicing inside one ring swaps the range with the stretch between its end and the position |
| ListRings.MoveAssignSameOutside | intrusive-list.cpp:19-31 | move assignment changes only nodes of the two rings involved |
| ListRings.SpliceOntoRangeEnd | intrusive-list.h:249-261 | a splice onto its own range end drops the range from the ring and leaves the invariant broken |
| Lists.NewList | intrusive-list.h:141 | a new list is an empty list on a fresh sentinel and leaves the arena as it was |
| Lists.Front | intrusive-list.h:166-168 | `front()` of a non-empty list is its first member |
| Lists.Back | intrusive-list.h:176-178 | `back()` of a non-empty list is its last member |
| Lists.LinkBefore | intrusive-list.h:236-237 | the two links put v just before pos; no node other than pos, v and pos's old predecessor changes |
| Lists.Insert | intrusive-list.h:231-239 | `insert(pos, v)` with pos at v returns pos and changes nothing; otherwise it places v just before pos and returns an iterator at v |
| Lists.Erase | intrusive-list.h:242-246 | `erase(pos)` leaves the erased node unlinked and returns its former successor |
| Lists.Clear | intrusive-list.h:206-208 | after `clear()` the list is empty |
| Lists.Splice | intrusive-list.h:249-253 | an empty range changes nothing |
| Lists.InsertKeepsValid | intrusive-list.h:231-239 | insert keeps the mutual-inverse invariant for every position and node |
| Lists.SplicePointwise | intrusive-list.h:254-260 | the new `next` and `prev` of every node after a non-empty splice |
| Lists.SpliceKeepsValid | intrusive-list.h:249-261 | a non-empty splice to a position other than the range's first node and its end keeps the invariant |
| Iteration.ListWalk | intrusive-list.h:80-83 | following `next` from the sentinel visits the members in order and returns to the sentinel |
| Iteration.PositionsDistinct | intrusive-list.h:110-116 | two positions of a list name the same node exactly when they are the same position; only position `|s|` is `end()` |
| Iteration.IteratorEquality | intrusive-list.h:110-116 | `==` on iterators holds exactly when they stand at the same position |
| Iteration.Steps | intrusive-list.h:80-94 | `begin()` is position 0; `++` moves one position forward and wraps from `end()` to `begin()`; `--` moves one back, from `begin()` reaches `end()`, and from `end()` reaches the last member |
| Iteration.IncrementDecrement | intrusive-list.h:80-94 | under the invariant `++` and `--` undo each other |
| Iteration.IterateForward | intrusive-list.h:80-83 | n steps of `++` from position j reach position j + n |
| Iteration.IterateBackward | intrusive-list.h:91-94 | n steps of `--` from position j reach position j - n |
| Iteration.BeginToEnd | intrusive-list.h:211-228 | exactly `|s|` steps lead from `begin()` to `end()`, and the same number back |
| Iteration.EmptyIffNoMembers | intrusive-list.h:156-158 | `empty()` holds exactly when the list has no members, which is exactly when `begin() == end()` |
| Iteration.Size | intrusive-list.h:161-163 | `size()` counts the steps from `begin()` to `end()`, which is the number of members |
| Iteration.Members | intrusive-list.h:211-228 | a traversal from `begin()` to `end()` yields exactly the members in order |
| ListLaws.InsertIntoList | intrusive-list.h:231-239 | inserting a node from another ring at position k makes it member k; its old ring closes up; only the nodes involved change |
| ListLaws.InsertWithinList | intrusive-list.h:231-239 | inserting a member of the same list at another position moves it there and keeps every other member in order |
| ListLaws.InsertWithinListForward | intrusive-list.h:231-239 | moving member j to a later position k |
| ListLaws.InsertWithinListBackward | intrusive-list.h:231-239 | moving member j to an earlier position k |
| ListLaws.InsertBetweenLists | intrusive-list.h:231-239 | inserting a member of another list removes it from that list, keeping the rest of that list in order |
| ListLaws.PushBackAppends | intrusive-list.h:191-193 | `push_back(v)` appends v and takes it out of its old ring |
| ListLaws.PushFrontPrepends | intrusive-list.h:186-188 | `push_front(v)` prepends v, takes it out of its old ring, and changes no node outside the two rings involved |
| ListLaws.PushBackUnlinked | intrusive-list.h:191-193 | `push_back` of an unlinked node appends it and changes nothing else |
| ListLaws.EraseMember | intrusive-list.h:242-246 | erasing member k removes exactly it, unlinks it, returns position k of the new list, and changes nothing outside the list |
| ListLaws.PopFrontDropsFirst | intrusive-list.h:196-198 | `pop_front()` removes the first member and unlinks it, and changes no node outside the list |
| ListLaws.PopBackDropsLast | intrusive-list.h:201-203 | `pop_back()` removes the last member and unlinks it, and changes no node outside the list |
| ListLaws.ClearDetaches | intrusive-list.h:206-208 | `clear()` empties the list; the former members stay a ring of their own; a former member reports linked exactly when there were at least two |
| ListLaws.SpliceBetweenLists | intrusive-list.h:249-261 | splicing `[a, b)` of another list to position k moves exactly that range, in order, and both lists keep their other members in order |
| ListLaws.SpliceWithinList | intrusive-list.h:249-261 | splicing a range of the same list to a position outside the range moves it there and keeps everything else in order |
| ListLaws.SpliceWithinListBackward | intrusive-list.h:249-261 | moving range `[a, b)` to an earlier position k |
| ListLaws.SpliceWithinListForward | intrusive-list.h:249-261 | moving range `[a, b)` to a later position k |
| ListLaws.SpliceOntoRangeEndDropsRange | intrusive-list.h:254-260 | `splice(pos, first, pos)` drops the range from the list and breaks the mutual-inverse invariant |
| ListLaws.ListMoveConstruct | intrusive-list.h:150 | a moved-to list has the members of the moved-from list, which is left empty |
| ListLaws.ListMoveAssign | intrusive-list.h:153 | move-assigning a list takes over the source's members, leaves the source empty, and leaves the old members a detached ring |
| ListLaws.PushBackFirst | intrusive-list.h:191-193 | `push_back` of the first of several distinct unlinked nodes appends it and leaves the others unlinked and outside the list |
| ListLaws.PushBackEach | intrusive-list.h:191-193 | `push_back` of distinct unlinked nodes one after another appends them in the order pushed |
| ListLaws.PushBackThree | intrusive-list.h:161-193 | `push_back(a); push_back(b); push_back(c)` on an empty list: traversal yields `[a, b, c]`, `size()` is 3, `front()` is a and `back()` is c |
| ListLaws.EraseMiddleOfThree | intrusive-list.h:242-246 | erasing b from `[a, b, c]` gives `[a, c]` and leaves b unlinked |
| ListLaws.SpliceWholeList | intrusive-list.h:249-261 | splicing `[begin(), end())` of one list to the end of an empty list moves all members in order and leaves the source empty |

## Left out

- Destruction: `~list_element_base()` and `~list()` are defaulted and write no link, so there is nothing to model; a destroyed member's neighbours keep pointing at it.
- Tags: `list_element<Tag>` only separates channels at compile time. One arena models one channel; a node of another channel is a separate arena.
- The element type, `static_cast`s between element and base, dereference (`*`, `->`) and `as_elem`/`as_base`: an iterator is modelled as the node it stands at, not as the host object.
- Conversion of `iterator` to `const_iterator`, the const overloads of `begin`/`end`/`front`/`back`, and post-increment/post-decrement: each is a copy of the modelled operation.
- The `other` parameter of `splice`: it is never read.
- The deleted copy constructor and copy assignment of `list`: they cannot be called.
- Complexity promises (O(1), O(n)) and `noexcept`: the model states results, not cost.
- `std::size_t` width of `size()`: the count is an unbounded natural; a list larger than the word size cannot exist in memory.
- Lists.Begin, Lists.End, Lists.Increment, Lists.Decrement: no ensures of their own; `Iteration.Steps` states what they do on a list.
- Nodes.IsLinked (`is_linked()`, intrusive-list.cpp:15-17) and Lists.Empty (`empty()`, intrusive-list.h:156-158): predicates without ensures of their own; `Nodes.LinkedIffNextNotSelf` and `Iteration.EmptyIffNoMembers` state what they mean.
- Lists.PushFront, Lists.PushBack, Lists.PopFront, Lists.PopBack: their own contracts state only size and closure; the member-sequence contracts are `ListLaws.PushFrontPrepends`, `ListLaws.PushBackAppends`, `ListLaws.PopFrontDropsFirst` and `ListLaws.PopBackDropsLast`.
- Nodes.CopyAssign: when the source is a neighbour of the destination, the source's links change by the unlinking; the contract says nothing about the source in that case.
- Lists.Splice: its own contract covers only the empty range; the effect of a non-empty range is in `Lists.SplicePointwise` and the `ListLaws` splice lemmas, which require a position outside the range, as the operation's callers must.
- ListLaws.ListMoveConstruct: states the frame only for nodes outside the moved list, not as `SameOutside`, because the arena grows by the new sentinel.
