/** insertBeforeValue and deleteBeforeValue exactly as ArrayBasedList.h
    writes them, next to the corrected versions in `ArrayBasedList`.  On
    every input but one family each, the two agree; on that family the
    source misbehaves, and the lemmas here say how. */
module AsWritten {
  import opened NodePool
  import opened ListState
  import opened ListSpec
  import ArrayBasedList

  /** Lines 554-557: the new slot stores `v` and points at `curr`, then
      `prev` is pointed at the new slot. */
  function SpliceBefore(pool: Pool, newNode: int, v: int, prev: int, curr: int): (r: Pool)
    requires |pool.slots| == CAPACITY && IsSlot(newNode) && IsSlot(prev)
    ensures |r.slots| == CAPACITY && r.freeHead == pool.freeHead
    ensures r.slots[prev].next == newNode
    ensures newNode != prev ==> r.slots[newNode] == Slot(v, curr)
  {
    SetNextOfNode(SetNode(pool, newNode, v, curr), prev, newNode)
  }

  /** insertBeforeValue as written (ArrayBasedList.h:496-559).  On a full
      list with `forced`, the first slot is reused as the new node even
      when it is also `prev`, the slot before the target. */
  function InsertBeforeValue(l: List, v: int, target: int, forced: bool): (r: (List, bool))
    requires Valid(l)
    ensures r.1 <==> target in Elements(l) && (|Elements(l)| < CAPACITY || forced)
    ensures !r.1 ==> r.0 == l
  {
    ArrayBasedList.AcquireFromList(l);
    InUseIsHeld(l);
    if l.first == NULL_INDEX then (l, false)
    else
      ReadChain(l, 0);
      if GetNodeData(l.pool, l.first) == target then
        ArrayBasedList.PushFront(l, v, forced)
      else
        PrefixWithout(Elements(l), target, 0);
        var (prev, curr, j) :=
          ArrayBasedList.FindWithPrev(l, l.first, GetNextOfNode(l.pool, l.first), 1, target);
        if curr == NULL_INDEX then (l, false)
        else
          var (pool, newNode) := AcquireNode(l.pool);
          if newNode == NULL_INDEX then
            if forced then
              var other := l.first;
              var first := GetNextOfNode(l.pool, l.first);
              (List(SpliceBefore(l.pool, other, v, prev, curr), first), true)
            else (l, false)
          else (List(SpliceBefore(pool, newNode, v, prev, curr), l.first), true)
  }

  /** Outside the failing case, the literal insertBeforeValue is the
      corrected one. */
  lemma InsertBeforeAgrees(l: List, v: int, target: int, forced: bool)
    requires Valid(l)
    requires !(|Elements(l)| == CAPACITY && forced && FirstIndexOf(Elements(l), target) == 1)
    ensures InsertBeforeValue(l, v, target, forced) == ArrayBasedList.InsertBeforeValue(l, v, target, forced)
  {
    InUseIsHeld(l);
    if l.first != NULL_INDEX {
      ReadChain(l, 0);
      if GetNodeData(l.pool, l.first) != target {
        PrefixWithout(Elements(l), target, 0);
        var (prev, curr, j) :=
          ArrayBasedList.FindWithPrev(l, l.first, GetNextOfNode(l.pool, l.first), 1, target);
        if curr != NULL_INDEX {
          SameSplice(l, j, v, forced);
        }
      }
    }
  }

  /** Where the target sits at chain position `j >= 1` and the list is
      not in the failing case, the literal splice is the corrected one. */
  lemma SameSplice(l: List, j: int, v: int, forced: bool)
    requires Valid(l) && 1 <= j < |InUse(l)|
    requires !(|Elements(l)| == CAPACITY && forced && j == 1)
    ensures var u := InUse(l);
      var (pool, newNode) := AcquireNode(l.pool);
      var r := ArrayBasedList.InsertBeforeSlot(l, v, j, forced);
      && (newNode == NULL_INDEX && forced ==>
            r == (List(SpliceBefore(l.pool, u[0], v, u[j - 1], u[j]), u[1]), true))
      && (newNode != NULL_INDEX ==>
            r == (List(SpliceBefore(pool, newNode, v, u[j - 1], u[j]), l.first), true))
  {
    ValidLinked(l);
    ArrayBasedList.AcquireFromList(l);
    ReadChain(l, 0);
    ReadChain(l, j - 1);
  }

  /** The failing case of insertBeforeValue: a full list, `forced`, and the
      target's first occurrence in second position.  The call reports
      success, but the reused first slot ends up pointing to itself, `v`
      is on no chain, the list has lost its first payload, and that slot
      is neither in the list nor free, so the invariant is broken. */
  lemma InsertBeforeLeaksFirstSlot(l: List, v: int, target: int)
    requires Valid(l) && |Elements(l)| == CAPACITY && FirstIndexOf(Elements(l), target) == 1
    ensures var r := InsertBeforeValue(l, v, target, true);
      && r.1
      && r.0.pool.slots[InUse(l)[0]] == Slot(v, InUse(l)[0])
      && HasChains(r.0)
      && InUse(r.0) == InUse(l)[1..] && Free(r.0) == []
      && Values(r.0.pool.slots, InUse(r.0)) == Elements(l)[1..]
      && !Valid(r.0)
  {
    var u := InUse(l);
    LeakingCall(l, v, target);
    SelfLoopChains(l, List(SpliceBefore(l.pool, u[0], v, u[0], u[1]), u[1]), v);
  }

  /** What the failing call evaluates to. */
  lemma LeakingCall(l: List, v: int, target: int)
    requires Valid(l) && |Elements(l)| == CAPACITY && FirstIndexOf(Elements(l), target) == 1
    ensures |InUse(l)| == CAPACITY && IsSlot(InUse(l)[0])
    ensures InsertBeforeValue(l, v, target, true)
      == (List(SpliceBefore(l.pool, InUse(l)[0], v, InUse(l)[0], InUse(l)[1]), InUse(l)[1]), true)
  {
    ValidLinked(l);
    ArrayBasedList.AcquireFromList(l);
    InUseIsHeld(l);
    ReadChain(l, 0);
    ReadChain(l, 1);
    PrefixWithout(Elements(l), target, 0);
  }

  /** A full list whose first slot is made to point to itself, with the
      second slot as the new first: the chain from `first` is the old chain
      without its head, the free chain is empty, and one slot is lost. */
  lemma SelfLoopChains(l: List, r: List, v: int)
    requires Valid(l) && |InUse(l)| == CAPACITY
    requires r == List(SpliceBefore(l.pool, InUse(l)[0], v, InUse(l)[0], InUse(l)[1]), InUse(l)[1])
    ensures r.pool.slots[InUse(l)[0]] == Slot(v, InUse(l)[0])
    ensures HasChains(r) && InUse(r) == InUse(l)[1..] && Free(r) == []
    ensures Values(r.pool.slots, InUse(r)) == Elements(l)[1..]
    ensures !Valid(r)
  {
    ValidLinked(l);
    var u, s := InUse(l), Elements(l);
    var slots := r.pool.slots;
    var rest := u[1..];
    assert forall k :: 1 <= k < |u| ==> u[k] != u[0];
    assert Linked(slots, u[1], rest) by {
      forall k | 0 <= k < |rest|
        ensures slots[rest[k]].next == NodeAt(rest, k + 1)
      {
        assert rest[k] == u[k + 1];
      }
    }
    WalkComplete(slots, u[1], CAPACITY, rest);
    WalkComplete(slots, NULL_INDEX, CAPACITY, []);
    assert Values(slots, rest) == s[1..] by {
      forall k | 0 <= k < |rest|
        ensures Values(slots, rest)[k] == s[1..][k]
      {
        assert rest[k] == u[k + 1];
      }
    }
  }

  /** What deleteBeforeValue can come to: it returns, or it reads the slot
      array at an index outside it. */
  datatype Outcome = Returned(list: List, ok: bool) | ReadOutOfRange(index: int)

  /** deleteBeforeValue as written (ArrayBasedList.h:591-628).  When the
      second slot does not exist, `prev` is NULL_INDEX and line 612 reads
      `getNextOfNode(NULL_INDEX)`. */
  function DeleteBeforeValue(l: List, target: int): (r: Outcome)
    requires Valid(l)
    ensures r.ReadOutOfRange? <==> |Elements(l)| == 1 && Elements(l)[0] != target
    ensures r.ReadOutOfRange? ==> r.index == NULL_INDEX
    ensures r.Returned? ==> (r.list, r.ok) == ArrayBasedList.DeleteBeforeValue(l, target)
  {
    InUseIsHeld(l);
    if l.first == NULL_INDEX then Returned(l, false)
    else
      ReadChain(l, 0);
      if GetNodeData(l.pool, l.first) == target then Returned(l, false)
      else
        PrefixWithout(Elements(l), target, 0);
        var temp := GetNextOfNode(l.pool, l.first);
        if temp != NULL_INDEX && GetNodeData(l.pool, temp) == target then
          Returned(ArrayBasedList.UnlinkAt(l, 0), true)
        else
          var prevPrev := l.first;
          var prev := temp;
          if !IsSlot(prev) then ReadOutOfRange(prev)
          else
            ReadChain(l, 1);
            PrefixWithout(Elements(l), target, 1);
            var curr := GetNextOfNode(l.pool, prev);
            var (pp, p, c, j) := ArrayBasedList.FindWithTwoPrev(l, prevPrev, prev, curr, 2, target);
            if c != NULL_INDEX then Returned(ArrayBasedList.UnlinkAt(l, j - 1), true)
            else Returned(l, false)
  }
}
