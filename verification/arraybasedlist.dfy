/** Model of the operations of ArrayBasedList.h on `ListState.List`.

    Each public operation is a function from the list to the new list and
    the source's boolean (or int) result.  Its body follows the source's
    control flow: the loops become recursive helpers that walk the chain
    with `GetNextOfNode`, and every change goes through the NodePool
    primitives.  Its contract says what the operation does to the payload
    sequence `Elements`, and that the class invariant `Valid` is kept. */
module ArrayBasedList {
  import opened NodePool
  import opened ListState
  import opened ListSpec

  /** The constructor (ArrayBasedList.h:206): a fresh pool and no first
      node. */
  function NewList(): (l: List)
    ensures Valid(l) && Elements(l) == [] && Free(l) == seq(CAPACITY, i => i)
  {
    var l := List(NewPool(), NULL_INDEX);
    FreeChainLinked(l.pool);
    MakeValid(l, [], FreeChain(l.pool));
    l
  }

  /** ArrayBasedList.h:210-213. */
  function IsEmpty(l: List): (b: bool)
    requires Valid(l)
    ensures b <==> Elements(l) == []
  {
    InUseIsHeld(l);
    l.first == NULL_INDEX
  }

  // ---------------------------------------------------------------------------
  // Loops over the in-use chain
  // ---------------------------------------------------------------------------

  /** The counting loop of `size` and of `sort` (ArrayBasedList.h:403-407,
      433-436): `i` is the slot at chain position `count`. */
  function CountFrom(l: List, i: int, count: int): (n: int)
    requires Valid(l) && 0 <= count <= |InUse(l)| && i == NodeAt(InUse(l), count)
    ensures n == |InUse(l)|
    decreases |InUse(l)| - count
  {
    if i == NULL_INDEX then count
    else
      ReadChain(l, count);
      CountFrom(l, GetNextOfNode(l.pool, i), count + 1)
  }

  /** The search loop (ArrayBasedList.h:358-365), also the target search of
      insertAfterValue and deleteAfterValue (456-458, 569-571): `i` is the
      slot at chain position `position`, and no earlier payload is `x`. */
  function SearchFrom(l: List, i: int, position: int, x: int): (k: int)
    requires Valid(l) && 0 <= position <= |InUse(l)| && i == NodeAt(InUse(l), position)
    requires x !in Elements(l)[..position]
    ensures k == FirstIndexOf(Elements(l), x)
    decreases |InUse(l)| - position
  {
    ScanStep(l, position, i, x);
    if i == NULL_INDEX then NULL_INDEX
    else if GetNodeData(l.pool, i) == x then position
    else SearchFrom(l, GetNextOfNode(l.pool, i), position + 1, x)
  }

  /** One step of every search loop over the chain: the slot `curr` at
      chain position `j`, with no `x` before it, either ends the chain (and
      `x` is absent), or holds the first `x`, or lets the search go on. */
  lemma ScanStep(l: List, j: int, curr: int, x: int)
    requires Valid(l) && 0 <= j <= |InUse(l)| && curr == NodeAt(InUse(l), j)
    requires x !in Elements(l)[..j]
    ensures curr == NULL_INDEX ==> j == |InUse(l)| && x !in Elements(l)
    ensures curr != NULL_INDEX ==>
      && j < |InUse(l)| && curr == InUse(l)[j] && IsSlot(curr)
      && GetNextOfNode(l.pool, curr) == NodeAt(InUse(l), j + 1)
      && (GetNodeData(l.pool, curr) == x ==> x in Elements(l) && FirstIndexOf(Elements(l), x) == j)
      && (GetNodeData(l.pool, curr) != x ==> x !in Elements(l)[..j + 1])
  {
    var s := Elements(l);
    if curr == NULL_INDEX {
      assert s[..j] == s;
    } else {
      ReadChain(l, j);
      if GetNodeData(l.pool, curr) == x {
        FirstIndexOfAt(s, x, j);
      } else {
        PrefixWithout(s, x, j);
      }
    }
  }

  /** The positioning loop of insertAtPosition and deleteAtPosition
      (ArrayBasedList.h:261-268, 325-333): starting from the first slot with
      `count` 1, step while there is a next slot and `count < position`.  It
      stops on the slot at chain position `count - 1`, where `count` is
      `position` or, for a shorter list, the list's length. */
  function WalkTo(l: List, temp: int, count: int, position: int): (r: (int, int))
    requires Valid(l) && 1 <= count <= position && count <= |InUse(l)|
    requires temp == InUse(l)[count - 1]
    ensures r.1 == if position < |InUse(l)| then position else |InUse(l)|
    ensures r.0 == InUse(l)[r.1 - 1]
    decreases position - count
  {
    ReadChain(l, count - 1);
    var next := GetNextOfNode(l.pool, temp);
    if next != NULL_INDEX && count < position then WalkTo(l, next, count + 1, position)
    else (temp, count)
  }

  /** The previous/current loop of insertBeforeValue and deleteValue
      (ArrayBasedList.h:526-535, 651-663): `curr` is the slot at chain
      position `j` and `prev` the one before it.  It stops on the first
      payload equal to `x`, or past the end. */
  function FindWithPrev(l: List, prev: int, curr: int, j: int, x: int): (r: (int, int, int))
    requires Valid(l) && 1 <= j <= |InUse(l)|
    requires prev == InUse(l)[j - 1] && curr == NodeAt(InUse(l), j)
    requires x !in Elements(l)[..j]
    ensures r.2 == if x in Elements(l) then FirstIndexOf(Elements(l), x) else |InUse(l)|
    ensures j <= r.2 <= |InUse(l)| && r.0 == InUse(l)[r.2 - 1] && r.1 == NodeAt(InUse(l), r.2)
    decreases |InUse(l)| - j
  {
    ScanStep(l, j, curr, x);
    if curr == NULL_INDEX || GetNodeData(l.pool, curr) == x then (prev, curr, j)
    else FindWithPrev(l, curr, GetNextOfNode(l.pool, curr), j + 1, x)
  }

  /** The three-slot loop of deleteBeforeValue (ArrayBasedList.h:610-620):
      `prevPrev`, `prev` and `curr` are the slots at chain positions
      `j - 2`, `j - 1` and `j`. */
  function FindWithTwoPrev(l: List, prevPrev: int, prev: int, curr: int, j: int, x: int): (r: (int, int, int, int))
    requires Valid(l) && 2 <= j <= |InUse(l)|
    requires prevPrev == InUse(l)[j - 2] && prev == InUse(l)[j - 1] && curr == NodeAt(InUse(l), j)
    requires x !in Elements(l)[..j]
    ensures (r.1, r.2, r.3) == FindWithPrev(l, prev, curr, j, x)
    ensures 2 <= r.3 && r.0 == InUse(l)[r.3 - 2]
    decreases |InUse(l)| - j
  {
    ScanStep(l, j, curr, x);
    if curr == NULL_INDEX || GetNodeData(l.pool, curr) == x then (prevPrev, prev, curr, j)
    else FindWithTwoPrev(l, prev, curr, GetNextOfNode(l.pool, curr), j + 1, x)
  }

  // ---------------------------------------------------------------------------
  // The edits the operations share
  // ---------------------------------------------------------------------------

  /** What `acquireNode` hands the list: NULL_INDEX exactly when the list
      already holds CAPACITY payloads, and otherwise the head of the free
      chain. */
  lemma AcquireFromList(l: List)
    requires Valid(l)
    ensures AcquireNode(l.pool).1 == NULL_INDEX <==> |Elements(l)| == CAPACITY
    ensures AcquireNode(l.pool).1 != NULL_INDEX ==> AcquireNode(l.pool).1 == Free(l)[0]
  {
    ValidLinked(l);
  }

  /** Links the acquired slot in front of the first node (the empty case
      ArrayBasedList.h:228-229, and 255-256, 520-521). */
  function Prepend(l: List, pool: Pool, newNode: int, v: int): (r: List)
    requires Valid(l) && (pool, newNode) == AcquireNode(l.pool) && newNode != NULL_INDEX
    ensures Valid(r) && Elements(r) == [v] + Elements(l)
    ensures InUse(r) == [newNode] + InUse(l) && Free(r) == Free(l)[1..]
  {
    var r := List(SetNode(pool, newNode, v, l.first), newNode);
    ValidLinked(l);
    AcquireFromList(l);
    AcquireThenSet(l.pool, v, l.first);
    LinkFresh(l, r, 0, v);
    InsertedAtFront(Elements(l), v);
    InsertedAtFront(InUse(l), newNode);
    r
  }

  /** Links the acquired slot after the slot at chain position `k`
      (ArrayBasedList.h:295-298, 484-487, 554-557). */
  function LinkAfter(l: List, pool: Pool, newNode: int, v: int, k: int): (r: List)
    requires Valid(l) && (pool, newNode) == AcquireNode(l.pool) && newNode != NULL_INDEX
    requires 0 <= k < |InUse(l)|
    ensures Valid(r)
    ensures Elements(r) == Elements(l)[..k + 1] + [v] + Elements(l)[k + 1..]
    ensures InUse(r) == InUse(l)[..k + 1] + [newNode] + InUse(l)[k + 1..]
    ensures Free(r) == Free(l)[1..]
  {
    ReadChain(l, k);
    ValidLinked(l);
    AcquireFromList(l);
    var temp := InUse(l)[k];
    assert temp != newNode;
    var pool' := SetNode(pool, newNode, v, GetNextOfNode(pool, temp));
    AcquireThenSet(l.pool, v, NodeAt(InUse(l), k + 1));
    var r := List(SetNextOfNode(pool', temp, newNode), l.first);
    LinkFresh(l, r, k + 1, v);
    r
  }

  /** The forced path on a full list: the first node is unlinked and its
      slot reused for `v`, linked after the slot at chain position `q`
      (ArrayBasedList.h:281-298, 472-487, 541-557). */
  function EvictHeadAfter(l: List, v: int, q: int): (r: List)
    requires Valid(l) && 1 <= q < |InUse(l)|
    ensures Valid(r)
    ensures Elements(r) == Elements(l)[1..q + 1] + [v] + Elements(l)[q + 1..]
    ensures InUse(r) == InUse(l)[1..q + 1] + [InUse(l)[0]] + InUse(l)[q + 1..]
    ensures Free(r) == Free(l)
  {
    ReadChain(l, 0);
    ReadChain(l, q);
    var other := l.first;
    var first := GetNextOfNode(l.pool, l.first);
    var temp := InUse(l)[q];
    var pool' := SetNode(l.pool, other, v, GetNextOfNode(l.pool, temp));
    var r := List(SetNextOfNode(pool', temp, other), first);
    MoveHead(l, r, q, v);
    r
  }

  /** The forced path on a full list when the new payload belongs at the
      front: the first node's payload is overwritten
      (ArrayBasedList.h:246, 469, 511). */
  function OverwriteFirst(l: List, v: int): (r: List)
    requires Valid(l) && l.first != NULL_INDEX
    ensures Valid(r) && Elements(r) == [v] + Elements(l)[1..]
    ensures InUse(r) == InUse(l) && Free(r) == Free(l)
  {
    OverwriteHead(l, v);
    l.(pool := SetNodeData(l.pool, l.first, v))
  }

  /** Unlinks the slot at chain position `p` and returns it to the pool
      (ArrayBasedList.h:316-320, 344-346, 580-583, 603-605, 622-624,
      643-645, 658-659). */
  function UnlinkAt(l: List, p: int): (r: List)
    requires Valid(l) && 0 <= p < |InUse(l)|
    ensures Valid(r) && Elements(r) == Elements(l)[..p] + Elements(l)[p + 1..]
    ensures InUse(r) == InUse(l)[..p] + InUse(l)[p + 1..]
    ensures Free(r) == [InUse(l)[p]] + Free(l)
  {
    ValidLinked(l);
    ReadChain(l, p);
    var deleted := InUse(l)[p];
    if p == 0 then
      var first := GetNextOfNode(l.pool, l.first);
      var r := List(ReleaseNode(l.pool, deleted).0, first);
      Unlink(l, r, p);
      r
    else
      var temp := InUse(l)[p - 1];
      ReadChain(l, p - 1);
      var pool' := SetNextOfNode(l.pool, temp, GetNextOfNode(l.pool, deleted));
      var r := List(ReleaseNode(pool', deleted).0, l.first);
      Unlink(l, r, p);
      r
  }

  // ---------------------------------------------------------------------------
  // The public operations
  // ---------------------------------------------------------------------------

  /** ArrayBasedList.h:428-438: the number of payloads. */
  function Size(l: List): (n: int)
    requires Valid(l)
    ensures n == |Elements(l)|
    ensures n + |Free(l)| == CAPACITY
  {
    ValidLinked(l);
    CountFrom(l, l.first, 0)
  }

  /** ArrayBasedList.h:353-368: the position of the first payload equal to
      `x`, or NULL_INDEX (-1) when there is none. */
  function Search(l: List, x: int): (k: int)
    requires Valid(l)
    ensures k == FirstIndexOf(Elements(l), x)
    ensures k == NULL_INDEX <==> x !in Elements(l)
    ensures k != NULL_INDEX ==> 0 <= k < |Elements(l)| && Elements(l)[k] == x && x !in Elements(l)[..k]
  {
    ValidLinked(l);
    SearchFrom(l, l.first, 0, x)
  }

  /** Insertion in front of a non-empty list (ArrayBasedList.h:239-258, and
      the identical 504-523 of insertBeforeValue): a fresh slot becomes the
      first node; on a full list `forced` overwrites the first payload
      instead. */
  function PushFront(l: List, v: int, forced: bool): (r: (List, bool))
    requires Valid(l) && l.first != NULL_INDEX
    ensures Valid(r.0)
    ensures r.1 <==> |Elements(l)| < CAPACITY || forced
    ensures !r.1 ==> r.0 == l
    ensures r.1 && |Elements(l)| < CAPACITY ==> Elements(r.0) == [v] + Elements(l)
    ensures r.1 && |Elements(l)| < CAPACITY ==>
      InUse(r.0) == [Free(l)[0]] + InUse(l) && Free(r.0) == Free(l)[1..]
    ensures r.1 && |Elements(l)| == CAPACITY ==> Elements(r.0) == [v] + Elements(l)[1..]
  {
    AcquireFromList(l);
    var (pool, newNode) := AcquireNode(l.pool);
    if newNode == NULL_INDEX then
      if forced then (OverwriteFirst(l, v), true) else (l, false)
    else (Prepend(l, pool, newNode, v), true)
  }

  /** ArrayBasedList.h:217-302.  The insertion succeeds exactly when the
      position is in [0, CAPACITY) and at most the list's length, and the
      list has room or `forced` is set.  With room, `v` ends up at
      `position`.  On a full list with `forced`, the first payload is
      dropped to make room: the result is the old list without its first
      payload, with `v` inserted at `position`. */
  function InsertAtPosition(l: List, v: int, position: int, forced: bool): (r: (List, bool))
    requires Valid(l)
    ensures Valid(r.0)
    ensures r.1 <==> 0 <= position < CAPACITY && position <= |Elements(l)|
                     && (|Elements(l)| < CAPACITY || forced)
    ensures !r.1 ==> r.0 == l
    ensures r.1 && |Elements(l)| < CAPACITY ==>
      Elements(r.0) == Elements(l)[..position] + [v] + Elements(l)[position..]
    ensures r.1 && |Elements(l)| < CAPACITY ==>
      && InUse(r.0) == InUse(l)[..position] + [Free(l)[0]] + InUse(l)[position..]
      && Free(r.0) == Free(l)[1..]
    ensures r.1 && |Elements(l)| == CAPACITY ==>
      Elements(r.0) == Elements(l)[1..position + 1] + [v] + Elements(l)[position + 1..]
  {
    InUseIsHeld(l);
    if position < 0 || position >= CAPACITY then (l, false)
    else if l.first == NULL_INDEX then
      if position == 0 then
        AcquireFromList(l);
        var (pool, newNode) := AcquireNode(l.pool);
        InsertedAtFront(Elements(l), v);
        InsertedAtFront(InUse(l), newNode);
        (Prepend(l, pool, newNode, v), true)
      else (l, false)
    else if position == 0 then
      InsertedAtFront(Elements(l), v);
      DroppedAtFront(Elements(l), v);
      assert InUse(l)[..0] == [] && InUse(l)[0..] == InUse(l);
      PushFront(l, v, forced)
    else InsertInside(l, v, position, forced)
  }

  lemma DroppedAtFront(s: seq<int>, v: int)
    requires |s| > 0
    ensures s[1..1] + [v] + s[1..] == [v] + s[1..]
  {
    assert s[1..1] == [];
  }

  /** The `position > 0` branch of insertAtPosition on a non-empty list
      (ArrayBasedList.h:259-300). */
  function InsertInside(l: List, v: int, position: int, forced: bool): (r: (List, bool))
    requires Valid(l) && l.first != NULL_INDEX && 0 < position < CAPACITY
    ensures Valid(r.0)
    ensures r.1 <==> position <= |Elements(l)| && (|Elements(l)| < CAPACITY || forced)
    ensures !r.1 ==> r.0 == l
    ensures r.1 && |Elements(l)| < CAPACITY ==>
      Elements(r.0) == Elements(l)[..position] + [v] + Elements(l)[position..]
    ensures r.1 && |Elements(l)| < CAPACITY ==>
      && InUse(r.0) == InUse(l)[..position] + [Free(l)[0]] + InUse(l)[position..]
      && Free(r.0) == Free(l)[1..]
    ensures r.1 && |Elements(l)| == CAPACITY ==>
      Elements(r.0) == Elements(l)[1..position + 1] + [v] + Elements(l)[position + 1..]
  {
    InUseIsHeld(l);
    var (temp, count) := WalkTo(l, l.first, 1, position);
    if count < position then (l, false)
    else
      AcquireFromList(l);
      var (pool, newNode) := AcquireNode(l.pool);
      if newNode == NULL_INDEX then
        if forced then (EvictHeadAfter(l, v, position), true) else (l, false)
      else (LinkAfter(l, pool, newNode, v, position - 1), true)
  }

  /** ArrayBasedList.h:306-349.  Succeeds exactly when the list is non-empty
      and `position` names one of its payloads; that payload is removed and
      its slot goes to the front of the free chain. */
  function DeleteAtPosition(l: List, position: int): (r: (List, bool))
    requires Valid(l)
    ensures Valid(r.0)
    ensures r.1 <==> 0 <= position < |Elements(l)|
    ensures !r.1 ==> r.0 == l
    ensures r.1 ==> Elements(r.0) == Elements(l)[..position] + Elements(l)[position + 1..]
    ensures r.1 ==> InUse(r.0) == InUse(l)[..position] + InUse(l)[position + 1..]
    ensures r.1 ==> Free(r.0) == [InUse(l)[position]] + Free(l)
  {
    InUseIsHeld(l);
    if l.first == NULL_INDEX || position < 0 || position >= CAPACITY then (l, false)
    else if position == 0 then (UnlinkAt(l, 0), true)
    else
      var (temp, count) := WalkTo(l, l.first, 1, position);
      ReadChain(l, count - 1);
      var deleted := GetNextOfNode(l.pool, temp);
      if deleted == NULL_INDEX then (l, false)
      else (UnlinkAt(l, count), true)
  }

  /** ArrayBasedList.h:562-588.  Removes the payload just after the first
      occurrence of `target`; fails when `target` is absent or last. */
  function DeleteAfterValue(l: List, target: int): (r: (List, bool))
    requires Valid(l)
    ensures Valid(r.0)
    ensures r.1 <==> target in Elements(l) && FirstIndexOf(Elements(l), target) < |Elements(l)| - 1
    ensures !r.1 ==> r.0 == l
    ensures r.1 ==> var k := FirstIndexOf(Elements(l), target);
      Elements(r.0) == Elements(l)[..k + 1] + Elements(l)[k + 2..]
  {
    InUseIsHeld(l);
    if l.first == NULL_INDEX then (l, false)
    else
      var k := SearchFrom(l, l.first, 0, target);
      if k == NULL_INDEX then (l, false)
      else
        ReadChain(l, k);
        var nodeToDelete := GetNextOfNode(l.pool, InUse(l)[k]);
        if nodeToDelete == NULL_INDEX then (l, false)
        else (UnlinkAt(l, k + 1), true)
  }

  /** ArrayBasedList.h:633-666.  Removes the first occurrence of `x`. */
  function DeleteValue(l: List, x: int): (r: (List, bool))
    requires Valid(l)
    ensures Valid(r.0)
    ensures r.1 <==> x in Elements(l)
    ensures !r.1 ==> r.0 == l
    ensures r.1 ==> var k := FirstIndexOf(Elements(l), x);
      Elements(r.0) == Elements(l)[..k] + Elements(l)[k + 1..]
  {
    InUseIsHeld(l);
    if l.first == NULL_INDEX then (l, false)
    else
      ReadChain(l, 0);
      if GetNodeData(l.pool, l.first) == x then
        FirstIndexOfAt(Elements(l), x, 0);
        (UnlinkAt(l, 0), true)
      else
        PrefixWithout(Elements(l), x, 0);
        var (prev, curr, j) := FindWithPrev(l, l.first, GetNextOfNode(l.pool, l.first), 1, x);
        if curr == NULL_INDEX then (l, false)
        else (UnlinkAt(l, j), true)
  }

  /** ArrayBasedList.h:591-628, with the one-payload case corrected: the
      payload just before the first occurrence of `target` is removed; it
      fails when `target` is absent or first.  The source reads past the
      end of the chain on a one-payload list whose payload is not `target`
      (see `AsWritten.DeleteBeforeValue`); here that case returns false. */
  function DeleteBeforeValue(l: List, target: int): (r: (List, bool))
    requires Valid(l)
    ensures Valid(r.0)
    ensures r.1 <==> target in Elements(l) && FirstIndexOf(Elements(l), target) >= 1
    ensures !r.1 ==> r.0 == l
    ensures r.1 ==> var k := FirstIndexOf(Elements(l), target);
      Elements(r.0) == Elements(l)[..k - 1] + Elements(l)[k..]
  {
    InUseIsHeld(l);
    if l.first == NULL_INDEX then (l, false)
    else
      ReadChain(l, 0);
      if GetNodeData(l.pool, l.first) == target then
        FirstIndexOfAt(Elements(l), target, 0);
        (l, false)
      else
        PrefixWithout(Elements(l), target, 0);
        var temp := GetNextOfNode(l.pool, l.first);
        if temp == NULL_INDEX then
          assert Elements(l)[..1] == Elements(l);
          (l, false)
        else DeleteBeforeFrom(l, temp, target)
  }

  /** The part of deleteBeforeValue after the first payload was found to
      differ from `target`, on a list of at least two payloads
      (ArrayBasedList.h:599-627). */
  function DeleteBeforeFrom(l: List, temp: int, target: int): (r: (List, bool))
    requires Valid(l) && |InUse(l)| >= 2 && temp == InUse(l)[1]
    requires target !in Elements(l)[..1]
    ensures Valid(r.0)
    ensures r.1 <==> target in Elements(l)
    ensures !r.1 ==> r.0 == l
    ensures r.1 ==> var k := FirstIndexOf(Elements(l), target);
      Elements(r.0) == Elements(l)[..k - 1] + Elements(l)[k..]
  {
    ReadChain(l, 1);
    if GetNodeData(l.pool, temp) == target then
      FirstIndexOfAt(Elements(l), target, 1);
      (UnlinkAt(l, 0), true)
    else
      PrefixWithout(Elements(l), target, 1);
      var (prevPrev, prev, curr, j) :=
        FindWithTwoPrev(l, l.first, temp, GetNextOfNode(l.pool, temp), 2, target);
      if curr != NULL_INDEX then (UnlinkAt(l, j - 1), true)
      else (l, false)
  }

  /** ArrayBasedList.h:449-493.  Inserts `v` just after the first
      occurrence of `target`.  On a full list with `forced`, the first
      payload is dropped to make room (when `target` is that first payload,
      it is overwritten by `v`). */
  function InsertAfterValue(l: List, v: int, target: int, forced: bool): (r: (List, bool))
    requires Valid(l)
    ensures Valid(r.0)
    ensures r.1 <==> target in Elements(l) && (|Elements(l)| < CAPACITY || forced)
    ensures !r.1 ==> r.0 == l
    ensures r.1 && |Elements(l)| < CAPACITY ==> var k := FirstIndexOf(Elements(l), target);
      Elements(r.0) == Elements(l)[..k + 1] + [v] + Elements(l)[k + 1..]
    ensures r.1 && |Elements(l)| == CAPACITY ==> var k := FirstIndexOf(Elements(l), target);
      Elements(r.0) == Elements(l)[1..k + 1] + [v] + Elements(l)[k + 1..]
  {
    InUseIsHeld(l);
    if l.first == NULL_INDEX then (l, false)
    else
      var k := SearchFrom(l, l.first, 0, target);
      if k == NULL_INDEX then (l, false)
      else InsertAfterSlot(l, v, k, forced)
  }

  /** The body of insertAfterValue's loop once the target's slot, at chain
      position `k`, is found (ArrayBasedList.h:460-488). */
  function InsertAfterSlot(l: List, v: int, k: int, forced: bool): (r: (List, bool))
    requires Valid(l) && 0 <= k < |InUse(l)|
    ensures Valid(r.0)
    ensures r.1 <==> |Elements(l)| < CAPACITY || forced
    ensures !r.1 ==> r.0 == l
    ensures r.1 && |Elements(l)| < CAPACITY ==>
      Elements(r.0) == Elements(l)[..k + 1] + [v] + Elements(l)[k + 1..]
    ensures r.1 && |Elements(l)| == CAPACITY ==>
      Elements(r.0) == Elements(l)[1..k + 1] + [v] + Elements(l)[k + 1..]
  {
    ValidLinked(l);
    var i := InUse(l)[k];
    AcquireFromList(l);
    var (pool, newNode) := AcquireNode(l.pool);
    if newNode == NULL_INDEX then
      if !forced then (l, false)
      else if i == l.first then
        assert k == 0;
        DroppedAtFront(Elements(l), v);
        (OverwriteFirst(l, v), true)
      else (EvictHeadAfter(l, v, k), true)
    else (LinkAfter(l, pool, newNode, v, k), true)
  }

  /** ArrayBasedList.h:496-559, with the full-list case for a target in
      second position corrected.  Inserts `v` just before the first
      occurrence of `target`.  On a full list with `forced`, the first
      payload is dropped to make room (when `target` is first or second, the
      first payload is overwritten by `v`).  The source, for a target in
      second position, links the reused first slot to itself instead (see
      `AsWritten.InsertBeforeValue`). */
  function InsertBeforeValue(l: List, v: int, target: int, forced: bool): (r: (List, bool))
    requires Valid(l)
    ensures Valid(r.0)
    ensures r.1 <==> target in Elements(l) && (|Elements(l)| < CAPACITY || forced)
    ensures !r.1 ==> r.0 == l
    ensures r.1 && |Elements(l)| < CAPACITY ==> var k := FirstIndexOf(Elements(l), target);
      Elements(r.0) == Elements(l)[..k] + [v] + Elements(l)[k..]
    ensures r.1 && |Elements(l)| == CAPACITY ==> var k := FirstIndexOf(Elements(l), target);
      Elements(r.0) == if k == 0 then [v] + Elements(l)[1..]
                       else Elements(l)[1..k] + [v] + Elements(l)[k..]
  {
    InUseIsHeld(l);
    if l.first == NULL_INDEX then (l, false)
    else
      ReadChain(l, 0);
      if GetNodeData(l.pool, l.first) == target then
        FirstIndexOfAt(Elements(l), target, 0);
        InsertedAtFront(Elements(l), v);
        PushFront(l, v, forced)
      else
        PrefixWithout(Elements(l), target, 0);
        var (prev, curr, j) := FindWithPrev(l, l.first, GetNextOfNode(l.pool, l.first), 1, target);
        if curr == NULL_INDEX then (l, false)
        else InsertBeforeSlot(l, v, j, forced)
  }

  /** insertBeforeValue once the target's slot, at chain position `j >= 1`,
      is found (ArrayBasedList.h:539-558).  The `prev == l.first` branch on
      a full list, which overwrites the first payload, is the corrected
      behaviour: the source reuses the first slot as the new node even then,
      which `AsWritten.InsertBeforeLeaksFirstSlot` shows loses a slot. */
  function InsertBeforeSlot(l: List, v: int, j: int, forced: bool): (r: (List, bool))
    requires Valid(l) && 1 <= j < |InUse(l)|
    ensures Valid(r.0)
    ensures r.1 <==> |Elements(l)| < CAPACITY || forced
    ensures !r.1 ==> r.0 == l
    ensures r.1 && |Elements(l)| < CAPACITY ==>
      Elements(r.0) == Elements(l)[..j] + [v] + Elements(l)[j..]
    ensures r.1 && |Elements(l)| == CAPACITY ==>
      Elements(r.0) == Elements(l)[1..j] + [v] + Elements(l)[j..]
  {
    ValidLinked(l);
    var prev := InUse(l)[j - 1];
    AcquireFromList(l);
    var (pool, newNode) := AcquireNode(l.pool);
    if newNode == NULL_INDEX then
      if !forced then (l, false)
      else if prev == l.first then
        assert j == 1;
        DroppedAtFront(Elements(l), v);
        (OverwriteFirst(l, v), true)
      else (EvictHeadAfter(l, v, j - 1), true)
    else (LinkAfter(l, pool, newNode, v, j - 1), true)
  }

  /** ArrayBasedList.h:396-424: `size - 1` bubble passes over the chain,
      each exchanging the payloads of adjacent slots that are out of order.
      Only payloads move: both chains are as before. */
  function Sort(l: List): (r: List)
    requires Valid(l)
    ensures Valid(r) && InUse(r) == InUse(l) && Free(r) == Free(l) && r.first == l.first
    ensures Sorted(Elements(r))
    ensures multiset(Elements(r)) == multiset(Elements(l))
  {
    InUseIsHeld(l);
    if l.first == NULL_INDEX then l
    else
      ValidLinked(l);
      var size := CountFrom(l, l.first, 0);
      Passes(l, 0, size)
  }

  /** The outer loop of sort (ArrayBasedList.h:410-422): passes `i` to
      `size - 2` remain, and the last `i` payloads are already settled. */
  function Passes(l: List, i: nat, size: int): (r: List)
    requires Valid(l) && size == |Elements(l)| && i < size
    requires Settled(Elements(l), i)
    ensures Valid(r) && InUse(r) == InUse(l) && Free(r) == Free(l) && r.first == l.first
    ensures Sorted(Elements(r))
    ensures multiset(Elements(r)) == multiset(Elements(l))
    decreases size - i
  {
    if i < size - 1 then
      var l' := SortPass(l, 0);
      OnePassSettles(Elements(l), Elements(l'), i);
      Passes(l', i + 1, size)
    else
      SettledIsSorted(Elements(l));
      l
  }

  lemma OnePassSettles(s: seq<int>, t: seq<int>, i: nat)
    requires i < |s| && Settled(s, i) && t == BubbleFrom(s, 0)
    ensures |t| == |s| && Settled(t, i + 1) && multiset(t) == multiset(s)
  {
    PassSettles(s, 0, i);
  }

  /** One pass of the inner loop of sort (ArrayBasedList.h:413-421), from
      the slot at chain position `j`: it compares each payload with the next
      and exchanges the two when the first is greater. */
  function SortPass(l: List, j: nat): (r: List)
    requires Valid(l) && j < |InUse(l)|
    ensures Valid(r) && InUse(r) == InUse(l) && Free(r) == Free(l) && r.first == l.first
    ensures Elements(r) == BubbleFrom(Elements(l), j)
    decreases |InUse(l)| - j
  {
    ReadChain(l, j);
    var i := InUse(l)[j];
    var next := GetNextOfNode(l.pool, i);
    if next == NULL_INDEX then l
    else
      ReadChain(l, j + 1);
      var l' := if GetNodeData(l.pool, i) > GetNodeData(l.pool, next) then SwapAt(l, j) else l;
      SortPass(l', j + 1)
  }

  /** `switchOrderOfNodes` on the slots at chain positions `j` and `j + 1`
      (ArrayBasedList.h:419). */
  function SwapAt(l: List, j: nat): (r: List)
    requires Valid(l) && j + 1 < |InUse(l)|
    ensures Valid(r) && InUse(r) == InUse(l) && Free(r) == Free(l) && r.first == l.first
    ensures Elements(r) == Exchange(Elements(l), j)
  {
    SwapAdjacent(l, j);
    l.(pool := SwitchOrderOfNodes(l.pool, InUse(l)[j], InUse(l)[j + 1]))
  }
}
