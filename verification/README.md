# Array-based linked list in Dafny

A model of a singly linked list whose nodes live in a fixed array of
`CAPACITY = 10` slots instead of on the heap, with proofs about it.

- `NodePool` is the slot array. Every slot holds a payload and the index of
  the next slot; `NULL_INDEX = -1` ends a chain. The unused slots form a
  LIFO free chain starting at `freeHead`. `acquireNode` pops from the free
  chain and `releaseNode` pushes onto it.
- `ArrayBasedList` keeps `first`, the head of the in-use chain. Its
  operations are positional insert and delete, value-keyed
  insert-before/after and delete-before/after/value, `search`, `size`,
  `isEmpty`, and a bubble `sort` that only exchanges payloads. A `forced`
  flag lets an insertion into a full list evict the first payload.

The model is a functional state machine. A `Pool` is a sequence of
`Slot(data, next)` plus `freeHead`. A `List` is a `Pool` plus `first`.
Every operation is a pure function that returns the new list and the
source's `bool`.

The source's loops become recursive functions whose contracts are the loop
invariants:

- `CountFrom` is the counting loop;
- `SearchFrom` is the search loop;
- `WalkTo` is the positioning loop;
- `FindWithPrev` and `FindWithTwoPrev` are the two-slot and three-slot
  search loops;
- `Passes` and `SortPass` are the two loops of the sort.

Each operation is specified against the abstract payload sequence
`Elements(l)`, the payloads read along the chain from `first`. For example,
inserting `v` at `p` gives `s[..p] + [v] + s[p..]`. The chains themselves
are `InUse(l)` and `Free(l)`.

The class invariants of both headers are the predicate `ListState.Valid`:

- both chains end in `NULL_INDEX`;
- neither chain repeats a slot;
- the two chains share no slot;
- together they hold `CAPACITY` slots.

`ListState.Coverage` and `ListState.InUseIsHeld` derive from `Valid` that
every slot is on exactly one chain. They also derive that a full pool means
a list of `CAPACITY` payloads, which is the fact the forced insertions rely on.

Files:

- `nodepool.dfy` (module `NodePool`): slots, chains and the pool operations.
- `liststate.dfy` (module `ListState`): the list state, its invariant, and
  the three chain surgeries every list operation is built from. These are
  linking a fresh slot in, moving the first slot elsewhere, and unlinking a
  slot.
- `listspec.dfy` (module `ListSpec`): the reference meaning on plain
  sequences. It defines first occurrence, sortedness and one bubble pass.
- `arraybasedlist.dfy` (module `ArrayBasedList`): the list operations. The
  two faulty cases described under Findings are corrected here.
- `aswritten.dfy` (module `AsWritten`): `insertBeforeValue` and
  `deleteBeforeValue` exactly as the source writes them, with lemmas that
  exhibit the two faults.
- `properties.dfy` (module `ListProperties`): laws that relate several
  operations, such as round trips, search after insert, and uniqueness of
  the sort's result.

## Model

| member | source | states |
|---|---|---|
| NodePool.NewPool | NodePool.h:197-205 | A new pool is valid, has `freeHead == 0`, has the free chain 0, 1, ..., CAPACITY-1, and no slot is held |
| NodePool.AcquireNode | NodePool.h:209-218 | With no free slot, returns NULL_INDEX and changes nothing. Otherwise it returns the head of the free chain, and the new free chain is the old one without that head. The returned slot's `next` becomes NULL_INDEX, that slot becomes held, and the pool stays valid. Every other slot is unchanged |
| NodePool.ReleaseNode | NodePool.h:222-231 | An index outside [0, CAPACITY) is refused with `false` and no change. A held slot is pushed onto the front of the free chain: its `next` is the old `freeHead`, it is no longer held, and the pool stays valid. Every other slot is unchanged |
| NodePool.AccessorsReadBack | NodePool.h:235-299 | `setNode`, `setNextOfNode` and `setNodeData` change only the named slot's fields. The getters read back what was written, and every other slot and `freeHead` are untouched |
| NodePool.ReleaseThenAcquire | NodePool.h:209-231 | LIFO: a slot released and then acquired comes straight back, and the free chain is as before the release |
| NodePool.AcquireThenRelease | NodePool.h:209-231 | Releasing the slot just acquired restores the pool exactly |
| NodePool.AcquireThenSet | NodePool.h:209-239 | Acquiring a slot and writing it is a single write of that slot, with `freeHead` moved to the free chain's second slot |
| NodePool.FreePlusHeld | NodePool.h:19-25 | The free slots and the slots held by the client together number CAPACITY |
| ListState.Coverage | ArrayBasedList.h:17-22 | Under the list invariant, every slot index in [0, CAPACITY) is on exactly one of the in-use chain and the free chain |
| ListState.InUseIsHeld | ArrayBasedList.h:17-22 | The slots the pool regards as held are exactly the in-use chain. The pool is full iff the list has CAPACITY payloads, and `first` is NULL_INDEX iff the list is empty |
| ListState.OverwriteHead | ArrayBasedList.h:246 | Overwriting the first slot's payload replaces the first element and leaves both chains alone |
| ListState.SwapAdjacent | ArrayBasedList.h:419 | Exchanging the payloads of the slots at chain positions j and j+1 exchanges elements j and j+1 and leaves both chains alone |
| ListState.LinkFresh | ArrayBasedList.h:295-298 | Linking the free chain's head in at chain position p keeps the invariant, gives the payloads `s[..p] + [v] + s[p..]`, and shortens the free chain by its head |
| ListState.MoveHead | ArrayBasedList.h:280-298 | Moving the first slot, now carrying v, to just after chain position q keeps the invariant. The payloads become `s[1..q+1] + [v] + s[q+1..]`, and the free chain is unchanged |
| ListState.Unlink | ArrayBasedList.h:343-346 | Unlinking chain position p keeps the invariant, removes payload p, and puts its slot at the front of the free chain |
| ArrayBasedList.NewList | ArrayBasedList.h:206 | A new list is valid, is empty, and all CAPACITY slots are free in index order |
| ArrayBasedList.IsEmpty | ArrayBasedList.h:210-213 | True exactly when the list has no payloads |
| ArrayBasedList.Size | ArrayBasedList.h:428-438 | The number of payloads; it and the number of free slots add up to CAPACITY |
| ArrayBasedList.CountFrom | ArrayBasedList.h:403-407 | Counting from chain position `count` to the end gives the chain's length |
| ArrayBasedList.Search | ArrayBasedList.h:353-368 | The position of the first payload equal to x, or NULL_INDEX exactly when x is absent |
| ArrayBasedList.SearchFrom | ArrayBasedList.h:358-365 | Continuing the search from a position with no earlier match finds the first occurrence |
| ArrayBasedList.WalkTo | ArrayBasedList.h:261-268 | The positioning loop stops on the slot at chain position min(position, length) - 1 |
| ArrayBasedList.FindWithPrev | ArrayBasedList.h:526-535 | The two-slot loop stops at the first occurrence of x, or at the end of the chain when x is absent, with `prev` the slot just before |
| ArrayBasedList.FindWithTwoPrev | ArrayBasedList.h:610-620 | The three-slot loop stops at the first occurrence of x, or at the end, with the two slots before it |
| ArrayBasedList.AcquireFromList | ArrayBasedList.h:275-276 | On a valid list, `acquireNode` fails exactly when the list holds CAPACITY payloads, and otherwise returns the free chain's head |
| ArrayBasedList.PushFront | ArrayBasedList.h:239-258 | Insertion in front of a non-empty list. It succeeds iff there is room or `forced`. With room it gives `[v] + s` and uses the free chain's head; on a full list with `forced` it gives `[v] + s[1..]` |
| ArrayBasedList.Prepend | ArrayBasedList.h:255-256 | Linking the acquired free-chain head in front of the first node keeps the invariant, gives `[v] + s`, puts the new slot at the front of the in-use chain, and shortens the free chain by its head |
| ArrayBasedList.LinkAfter | ArrayBasedList.h:295-298 | Linking the acquired slot after chain position k keeps the invariant, gives `s[..k+1] + [v] + s[k+1..]` with the slot at position k+1 of the in-use chain, and shortens the free chain by its head (also lines 484-487 and 554-557) |
| ArrayBasedList.EvictHeadAfter | ArrayBasedList.h:281-298 | The forced path on a full list: the first slot, now carrying v, is moved after chain position q. The invariant holds, the payloads become `s[1..q+1] + [v] + s[q+1..]`, and the free chain is unchanged (also lines 472-487 and 541-557) |
| ArrayBasedList.OverwriteFirst | ArrayBasedList.h:246 | The forced path when v belongs at the front: the first payload is overwritten, giving `[v] + s[1..]` with both chains unchanged (also lines 469 and 511) |
| ArrayBasedList.UnlinkAt | ArrayBasedList.h:316-346 | Unlinking chain position p keeps the invariant, gives `s[..p] + s[p+1..]`, and puts the freed slot at the front of the free chain (the same splice recurs at lines 580-583, 603-605, 622-624, 643-645 and 658-659) |
| ArrayBasedList.InsertAtPosition | ArrayBasedList.h:217-302 | Succeeds iff 0 <= position < CAPACITY, position <= length, and there is room or `forced`; otherwise the list is unchanged. With room it gives `s[..p] + [v] + s[p..]`, the fresh slot coming from the free chain's head. On a full list it gives `s[1..p+1] + [v] + s[p+1..]`. The invariant is kept |
| ArrayBasedList.InsertInside | ArrayBasedList.h:259-300 | The position > 0 branch of insertAtPosition, with the same promises |
| ArrayBasedList.DeleteAtPosition | ArrayBasedList.h:306-349 | Succeeds iff 0 <= position < length, otherwise no change. It removes payload p and puts its slot at the front of the free chain |
| ArrayBasedList.InsertAfterValue | ArrayBasedList.h:449-493 | Succeeds iff the target is present and there is room or `forced`, otherwise no change. With room, v follows the target's first occurrence k. On a full list it gives `s[1..k+1] + [v] + s[k+1..]`, which overwrites the target when k == 0 |
| ArrayBasedList.InsertAfterSlot | ArrayBasedList.h:460-488 | insertAfterValue once the target's slot is found, with the same promises for that position |
| ArrayBasedList.InsertBeforeValue | ArrayBasedList.h:496-559 | Succeeds iff the target is present and there is room or `forced`, otherwise no change. With room, v goes just before the target's first occurrence k. On a full list it gives `[v] + s[1..]` when k == 0 and `s[1..k] + [v] + s[k..]` otherwise (see Findings for k == 1) |
| ArrayBasedList.InsertBeforeSlot | ArrayBasedList.h:539-558 | insertBeforeValue once the target's slot, at position j >= 1, is found. It succeeds iff the list has room or `forced`. With room, `v` goes before the target, giving `s[..j] + [v] + s[j..]`. On a full list, the first payload is dropped, giving `s[1..j] + [v] + s[j..]`. The result is valid. The branch for `prev == first` on a full list, which overwrites the first payload, is the correction under Findings: the source has no such branch (lines 539-546 reuse the first slot regardless) |
| ArrayBasedList.DeleteAfterValue | ArrayBasedList.h:562-588 | Succeeds iff the target is present and not last, otherwise no change; removes the payload after its first occurrence |
| ArrayBasedList.DeleteBeforeValue | ArrayBasedList.h:591-628 | Succeeds iff the target is present and not first, otherwise no change; removes the payload before its first occurrence |
| ArrayBasedList.DeleteBeforeFrom | ArrayBasedList.h:599-627 | deleteBeforeValue on a list of at least two payloads whose first payload is not the target |
| ArrayBasedList.DeleteValue | ArrayBasedList.h:633-666 | Succeeds iff x is present, otherwise no change; removes its first occurrence |
| ArrayBasedList.Sort | ArrayBasedList.h:396-424 | The payloads come out non-decreasing and hold the same multiset of values; both chains and `first` are unchanged |
| ArrayBasedList.Passes | ArrayBasedList.h:410-422 | The outer sort loop: from a state whose last i payloads are settled, the remaining passes sort the list without changing its multiset or its chains |
| ArrayBasedList.SortPass | ArrayBasedList.h:413-421 | One pass of the inner loop does to the payloads exactly what a bubble pass does to a sequence |
| ArrayBasedList.SwapAt | ArrayBasedList.h:419 | `switchOrderOfNodes` on adjacent chain slots exchanges the two payloads and nothing else |
| ListSpec.BubbleFrom | ArrayBasedList.h:413-421 | A bubble pass that exchanges only on strict `>` keeps the length, the multiset, and the prefix before its start |
| ListSpec.PassSettles | ArrayBasedList.h:410-422 | Each pass settles one more position at the end: the last m+1 payloads are ordered and none is below an earlier one |
| ListSpec.SortedPermutationUnique | ArrayBasedList.h:396-424 | Two sorted sequences with the same multiset are equal, so the sort's output is determined by the payloads |
| ListProperties.InsertThenDelete | ArrayBasedList.h:217-349 | On a list with room, insertAtPosition and then deleteAtPosition at the same position restores the payloads and both chains |
| ListProperties.DeleteThenInsert | ArrayBasedList.h:217-349 | deleteAtPosition and then reinserting the removed payload at the same place restores the payloads and both chains |
| ListProperties.InsertPlacesValue | ArrayBasedList.h:217-302 | After a successful insertAtPosition, v is at the requested position; the length grows by one, or stays CAPACITY on a full list |
| ListProperties.InsertThenSearch | ArrayBasedList.h:217-368 | After insertAtPosition(v, p) on a list with room, the list has one more payload and search finds v at a position <= p: at its old first occurrence when that lies before p, and at p otherwise |
| ListProperties.InsertAfterThenDeleteAfter | ArrayBasedList.h:449-588 | With room, insertAfterValue and then deleteAfterValue on the same target restores the payloads |
| ListProperties.InsertBeforeThenDeleteBefore | ArrayBasedList.h:496-628 | With room and v different from the target, insertBeforeValue and then deleteBeforeValue on the same target restores the payloads |
| ListProperties.DeleteValueRemovesOne | ArrayBasedList.h:633-666 | deleteValue removes exactly one copy of x from the multiset of payloads, or none when x is absent |
| ListProperties.ValueDeletesReleaseOneSlot | ArrayBasedList.h:562-666 | Each successful value-keyed delete returns exactly one slot to the free chain |
| ListProperties.SortIsUnique | ArrayBasedList.h:396-424 | The sort's output equals every sorted sequence with the same payloads |
| ListProperties.SortIdempotent | ArrayBasedList.h:396-424 | Sorting twice gives the same payloads as sorting once, in the same slots |
| AsWritten.InsertBeforeValue | ArrayBasedList.h:496-559 | The literal insertBeforeValue reports success iff the target is present and there is room or `forced`, and changes nothing when it fails |
| AsWritten.InsertBeforeAgrees | ArrayBasedList.h:536-557 | Outside the case in Findings, the literal insertBeforeValue equals the corrected one |
| AsWritten.InsertBeforeLeaksFirstSlot | ArrayBasedList.h:539-557 | On a full list, with `forced` and the target in second position, the literal code returns true. The reused first slot points to itself, and v is on no chain. The list becomes `s[1..]` with an empty free chain, so one slot is lost and the invariant is broken |
| AsWritten.DeleteBeforeValue | ArrayBasedList.h:591-628 | The literal deleteBeforeValue reads slot NULL_INDEX exactly on a one-payload list whose payload is not the target, and otherwise agrees with the corrected one |

## Left out

- Output: `displayFree`, `displayInUse`, `display`, `displayFreeNodes` and `operator<<` (NodePool.h:243-277, ArrayBasedList.h:372-392, 441-446). Only the chain-to-sequence reading they perform is modelled, as `Elements`.
- tester.cpp, the interactive driver. It is console I/O; its one relevant fact is that the element type is `int` (tester.cpp:24), which the model fixes.
- Template genericity and C++ copy semantics. Payloads are `int` and `CAPACITY` is the constant 10.
- Uninitialised payloads: a fresh pool's payloads are modelled as 0. No operation reads a free slot's payload.
- `setNodeData` and `switchOrderOfNodes` are called by the list but not defined in NodePool.h. They are modelled as "overwrite the payload only" and "exchange the payloads of the two slots", which is what the calling code relies on.
- NodePool.ReleaseNode: releasing a slot that is already free is not checked by the source. The free-chain promises are stated only for a held slot.
- NodePool.GetNextOfNode, NodePool.SetNextOfNode, NodePool.GetNodeData, NodePool.SetNode: the source reads and writes the array without bounds checks. Here the index must be a slot, and every list operation is proved to pass one (except in the case under Findings).
- The list operations take the class invariant `Valid` as a precondition, as a class invariant holds between calls. Lists that break it cannot be built through the corrected operations in `ArrayBasedList`. The literal insertBeforeValue can build one (see Findings and `AsWritten.InsertBeforeLeaksFirstSlot`).
- Sort stability and the exact order of exchanges are not stated beyond "a bubble pass". Equal `int` payloads cannot be told apart.

## Findings

| source | as written | input that shows it | evidently intended | confidence | as-written member | corrected member |
|---|---|---|---|---|---|---|
| ArrayBasedList.h:539-557 | With a full pool and `forced`, the first slot is reused as `newNode` even when it is also `prev`; `setNextOfNode(prev, newNode)` then makes it point to itself. The call returns true, but v is on no chain and the slot is lost | A full list whose second payload is the first occurrence of the target, for example payloads 0..9 with target 1, calling `insertBeforeValue(v, 1, true)` | Drop the first payload and put v in its place, giving `[v] + s[1..]`, as the target-first case does | high (not executed) | AsWritten.InsertBeforeLeaksFirstSlot | ArrayBasedList.InsertBeforeValue |
| ArrayBasedList.h:600-612 | When the list has one payload and it is not the target, `prev` is NULL_INDEX and `getNextOfNode(prev)` reads index -1 of the slot array | A one-payload list [5] and `deleteBeforeValue(7)` | Return false, since there is no payload before a target that is absent | high (not executed) | AsWritten.DeleteBeforeValue | ArrayBasedList.DeleteBeforeValue |
