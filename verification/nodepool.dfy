/** Model of NodePool.h: a fixed array of CAPACITY slots, each holding a
    payload and the index of the following slot, with an intrusive LIFO free
    list threaded through the unused slots from `freeHead`.

    Chains of slots are described two ways: `Walk` follows the `next` fields
    the way the source's loops do (with a step budget, so that a cycle or a
    stray index shows up as `None`), and `Linked` says, index by index, that a
    given sequence of slots is such a chain.  `WalkSound` and `WalkComplete`
    connect the two views. */
module NodePool {

  /** Number of slots in every pool (NodePool.h:33). */
  const CAPACITY: int := 10

  /** The "no slot" sentinel (NodePool.h:34). */
  const NULL_INDEX: int := -1

  datatype Option<T> = None | Some(value: T)

  /** One storage cell: its payload and the index of the slot after it. */
  datatype Slot = Slot(data: int, next: int)

  /** The slot array (CAPACITY cells once constructed) and the free-chain head. */
  datatype Pool = Pool(slots: seq<Slot>, freeHead: int)

  predicate IsSlot(i: int) {
    0 <= i < CAPACITY
  }

  // ---------------------------------------------------------------------------
  // Chains of slots
  // ---------------------------------------------------------------------------

  /** The k-th index of a chain, or NULL_INDEX past its end. */
  function NodeAt(idx: seq<int>, k: int): int {
    if 0 <= k < |idx| then idx[k] else NULL_INDEX
  }

  /** The slots met by following `next` from `start` until NULL_INDEX, or
      None when an index leaves the array or `fuel` steps do not suffice. */
  function Walk(slots: seq<Slot>, start: int, fuel: nat): Option<seq<int>>
    decreases fuel
  {
    if start == NULL_INDEX then Some([])
    else if fuel == 0 || !(0 <= start < |slots|) then None
    else match Walk(slots, slots[start].next, fuel - 1)
      case None => None
      case Some(rest) => Some([start] + rest)
  }

  /** `idx` is the chain that starts at `start`: every element is a slot, and
      each slot's `next` names the following element (NULL_INDEX for the last). */
  predicate Linked(slots: seq<Slot>, start: int, idx: seq<int>) {
    && (forall k :: 0 <= k < |idx| ==> 0 <= idx[k] < |slots|)
    && start == NodeAt(idx, 0)
    && (forall k {:trigger slots[idx[k]]} :: 0 <= k < |idx| ==> slots[idx[k]].next == NodeAt(idx, k + 1))
  }

  predicate Distinct(idx: seq<int>) {
    forall a, b :: 0 <= a < b < |idx| ==> idx[a] != idx[b]
  }

  lemma {:induction false} WalkSound(slots: seq<Slot>, start: int, fuel: nat, idx: seq<int>)
    requires Walk(slots, start, fuel) == Some(idx)
    ensures Linked(slots, start, idx) && |idx| <= fuel
    decreases fuel
  {
    if start != NULL_INDEX {
      var rest := Walk(slots, slots[start].next, fuel - 1).value;
      WalkSound(slots, slots[start].next, fuel - 1, rest);
      assert idx == [start] + rest;
      forall k | 0 <= k < |idx|
        ensures slots[idx[k]].next == NodeAt(idx, k + 1)
      {
        if k > 0 {
          assert idx[k] == rest[k - 1];
        }
      }
    }
  }

  lemma {:induction false} WalkComplete(slots: seq<Slot>, start: int, fuel: nat, idx: seq<int>)
    requires Linked(slots, start, idx) && |idx| <= fuel
    ensures Walk(slots, start, fuel) == Some(idx)
    decreases fuel
  {
    if |idx| > 0 {
      var rest := idx[1..];
      assert Linked(slots, slots[start].next, rest) by {
        forall k | 0 <= k < |rest|
          ensures slots[rest[k]].next == NodeAt(rest, k + 1)
        {
          assert rest[k] == idx[k + 1];
        }
      }
      WalkComplete(slots, slots[start].next, fuel - 1, rest);
      assert idx == [start] + rest;
    }
  }

  // ---------------------------------------------------------------------------
  // The free chain and the class invariant
  // ---------------------------------------------------------------------------

  predicate HasFreeChain(p: Pool) {
    Walk(p.slots, p.freeHead, CAPACITY).Some?
  }

  /** The free slots in the order `acquireNode` hands them out. */
  function FreeChain(p: Pool): seq<int>
    requires HasFreeChain(p)
  {
    Walk(p.slots, p.freeHead, CAPACITY).value
  }

  /** The class invariant of NodePool.h:19-25: CAPACITY slots, and a free
      chain from `freeHead` that ends at NULL_INDEX without repeating a slot. */
  predicate PoolValid(p: Pool) {
    |p.slots| == CAPACITY && HasFreeChain(p) && Distinct(FreeChain(p))
  }

  /** The slots a client holds: every slot that is not on the free chain. */
  function HeldSlots(p: Pool): set<int>
    requires HasFreeChain(p)
  {
    set i | i in Range(CAPACITY) && i !in FreeChain(p)
  }

  lemma FreeChainLinked(p: Pool)
    requires PoolValid(p)
    ensures Linked(p.slots, p.freeHead, FreeChain(p))
    ensures |FreeChain(p)| <= CAPACITY
  {
    WalkSound(p.slots, p.freeHead, CAPACITY, FreeChain(p));
  }

  // ---------------------------------------------------------------------------
  // Operations (NodePool.h:195-299)
  // ---------------------------------------------------------------------------

  /** The constructor: every slot is free, chained 0, 1, ..., CAPACITY-1 in
      index order (NodePool.h:197-205).  Payloads start as 0, standing for the
      source's uninitialised data. */
  function NewPool(): (p: Pool)
    ensures PoolValid(p)
    ensures p.freeHead == 0
    ensures FreeChain(p) == seq(CAPACITY, i => i)
    ensures HeldSlots(p) == {}
  {
    var p := Pool(seq(CAPACITY, i => Slot(0, if i < CAPACITY - 1 then i + 1 else NULL_INDEX)), 0);
    NewPoolFacts(p);
    p
  }

  lemma NewPoolFacts(p: Pool)
    requires p.freeHead == 0
    requires |p.slots| == CAPACITY
    requires forall i :: 0 <= i < CAPACITY ==> p.slots[i].next == if i < CAPACITY - 1 then i + 1 else NULL_INDEX
    ensures PoolValid(p)
    ensures FreeChain(p) == seq(CAPACITY, i => i)
    ensures HeldSlots(p) == {}
  {
    var order := seq(CAPACITY, i => i);
    assert forall i :: 0 <= i < CAPACITY ==> order[i] == i;
    assert Linked(p.slots, 0, order);
    WalkComplete(p.slots, 0, CAPACITY, order);
    assert FreeChain(p) == order;
    forall i | i in Range(CAPACITY)
      ensures i in order
    {
      assert order[i] == i;
    }
  }

  /** Pops the head of the free chain (NodePool.h:209-218).  Returns the new
      pool and the acquired slot, or NULL_INDEX with no change when no slot
      is free. */
  function AcquireNode(p: Pool): (r: (Pool, int))
    requires |p.slots| == CAPACITY
    requires p.freeHead == NULL_INDEX || IsSlot(p.freeHead)
    ensures p.freeHead == NULL_INDEX ==> r == (p, NULL_INDEX)
    ensures PoolValid(p) && p.freeHead != NULL_INDEX ==>
      && r.1 == FreeChain(p)[0]
      && PoolValid(r.0)
      && FreeChain(r.0) == FreeChain(p)[1..]
      && r.0.freeHead == NodeAt(FreeChain(p), 1)
      && r.0.slots[r.1] == p.slots[r.1].(next := NULL_INDEX)
      && HeldSlots(r.0) == HeldSlots(p) + {r.1}
    ensures |r.0.slots| == CAPACITY
    ensures p.freeHead != NULL_INDEX ==>
      forall j :: 0 <= j < CAPACITY && j != r.1 ==> r.0.slots[j] == p.slots[j]
  {
    if p.freeHead == NULL_INDEX then (p, NULL_INDEX)
    else
      var index := p.freeHead;
      var q := Pool(p.slots[index := p.slots[index].(next := NULL_INDEX)], p.slots[index].next);
      AcquireFacts(p, q, index);
      (q, index)
  }

  lemma AcquireFacts(p: Pool, q: Pool, index: int)
    requires |p.slots| == CAPACITY && IsSlot(p.freeHead) && index == p.freeHead
    requires q == Pool(p.slots[index := p.slots[index].(next := NULL_INDEX)], p.slots[index].next)
    ensures PoolValid(p) ==>
      && index == FreeChain(p)[0]
      && PoolValid(q)
      && FreeChain(q) == FreeChain(p)[1..]
      && q.freeHead == NodeAt(FreeChain(p), 1)
      && HeldSlots(q) == HeldSlots(p) + {index}
  {
    if PoolValid(p) {
      var f := FreeChain(p);
      FreeChainLinked(p);
      var rest := f[1..];
      assert Linked(q.slots, q.freeHead, rest) by {
        forall k | 0 <= k < |rest|
          ensures q.slots[rest[k]].next == NodeAt(rest, k + 1)
        {
          assert rest[k] == f[k + 1];
          assert f[0] != f[k + 1];
        }
      }
      WalkComplete(q.slots, q.freeHead, CAPACITY, rest);
      assert Distinct(rest);
      forall i | 0 <= i < CAPACITY
        ensures i in rest <==> i in f && i != index
      {
        if i in rest {
          var k :| 0 <= k < |rest| && rest[k] == i;
          assert f[k + 1] == i;
        }
        if i in f && i != index {
          var k :| 0 <= k < |f| && f[k] == i;
          assert rest[k - 1] == i;
        }
      }
    }
  }

  /** Pushes slot `index` onto the front of the free chain
      (NodePool.h:222-231).  An index outside [0, CAPACITY) is refused with
      `false`; releasing a slot that is already free is a contract violation
      the source does not check, so the free-chain promises need it held. */
  function ReleaseNode(p: Pool, index: int): (r: (Pool, bool))
    requires |p.slots| == CAPACITY
    ensures !IsSlot(index) ==> r == (p, false)
    ensures IsSlot(index) ==> r.1 && r.0.freeHead == index
    ensures PoolValid(p) && IsSlot(index) && index !in FreeChain(p) ==>
      && PoolValid(r.0)
      && FreeChain(r.0) == [index] + FreeChain(p)
      && r.0.slots[index] == p.slots[index].(next := p.freeHead)
      && HeldSlots(r.0) == HeldSlots(p) - {index}
    ensures |r.0.slots| == CAPACITY
    ensures IsSlot(index) ==>
      forall j :: 0 <= j < CAPACITY && j != index ==> r.0.slots[j] == p.slots[j]
  {
    if index < 0 || index >= CAPACITY then (p, false)
    else
      var q := Pool(p.slots[index := p.slots[index].(next := p.freeHead)], index);
      ReleaseFacts(p, q, index);
      (q, true)
  }

  lemma ReleaseFacts(p: Pool, q: Pool, index: int)
    requires |p.slots| == CAPACITY && IsSlot(index)
    requires q == Pool(p.slots[index := p.slots[index].(next := p.freeHead)], index)
    ensures PoolValid(p) && index !in FreeChain(p) ==>
      && PoolValid(q)
      && FreeChain(q) == [index] + FreeChain(p)
      && HeldSlots(q) == HeldSlots(p) - {index}
  {
    if PoolValid(p) && index !in FreeChain(p) {
      var f := FreeChain(p);
      FreeChainLinked(p);
      var f' := [index] + f;
      FreeSlotsBelowCapacity(p, index);
      assert Linked(q.slots, index, f') by {
        forall k | 0 <= k < |f'|
          ensures q.slots[f'[k]].next == NodeAt(f', k + 1)
        {
          if k > 0 {
            assert f'[k] == f[k - 1];
          }
        }
      }
      WalkComplete(q.slots, index, CAPACITY, f');
      assert Distinct(f') by {
        forall a, b | 0 <= a < b < |f'|
          ensures f'[a] != f'[b]
        {
          assert f'[b] == f[b - 1];
        }
      }
    }
  }

  /** A free chain that misses some slot is shorter than the pool. */
  lemma FreeSlotsBelowCapacity(p: Pool, index: int)
    requires PoolValid(p) && IsSlot(index) && index !in FreeChain(p)
    ensures |FreeChain(p)| < CAPACITY
  {
    var f := FreeChain(p);
    FreeChainLinked(p);
    DistinctCardinality(f);
    var range := Range(CAPACITY);
    assert Elems(f) <= range - {index};
    SubsetCardinality(Elems(f), range - {index});
  }

  /** Overwrites both fields of one slot (NodePool.h:235-239). */
  function SetNode(p: Pool, index: int, data: int, next: int): (r: Pool)
    requires |p.slots| == CAPACITY && IsSlot(index)
  {
    p.(slots := p.slots[index := Slot(data, next)])
  }

  /** Overwrites only the payload of one slot.  The list calls this but
      NodePool.h does not define it; this is the behaviour the calls rely on. */
  function SetNodeData(p: Pool, index: int, data: int): (r: Pool)
    requires |p.slots| == CAPACITY && IsSlot(index)
  {
    p.(slots := p.slots[index := p.slots[index].(data := data)])
  }

  /** Exchanges the payloads of two slots, keeping both `next` fields.  The
      list's sort calls `switchOrderOfNodes` on a slot and its successor but
      NodePool.h does not define it; swapping the payloads of the two
      adjacent slots is the exchange the sort needs. */
  function SwitchOrderOfNodes(p: Pool, i: int, j: int): (r: Pool)
    requires |p.slots| == CAPACITY && IsSlot(i) && IsSlot(j)
  {
    var di := p.slots[i].data;
    var dj := p.slots[j].data;
    p.(slots := p.slots[i := p.slots[i].(data := dj)][j := p.slots[j].(data := di)])
  }

  /** NodePool.h:281-284 (unchecked: the caller keeps the index in range). */
  function GetNextOfNode(p: Pool, index: int): int
    requires |p.slots| == CAPACITY && IsSlot(index)
  {
    p.slots[index].next
  }

  /** NodePool.h:288-292. */
  function SetNextOfNode(p: Pool, index: int, next: int): (r: Pool)
    requires |p.slots| == CAPACITY && IsSlot(index)
  {
    p.(slots := p.slots[index := p.slots[index].(next := next)])
  }

  /** NodePool.h:296-299. */
  function GetNodeData(p: Pool, index: int): int
    requires |p.slots| == CAPACITY && IsSlot(index)
  {
    p.slots[index].data
  }

  // ---------------------------------------------------------------------------
  // Properties
  // ---------------------------------------------------------------------------

  /** The writers touch only the named slot and the free-chain head stays put;
      the readers return what was last written. */
  lemma AccessorsReadBack(p: Pool, index: int, data: int, next: int, other: int)
    requires |p.slots| == CAPACITY && IsSlot(index) && IsSlot(other) && other != index
    ensures GetNodeData(SetNode(p, index, data, next), index) == data
    ensures GetNextOfNode(SetNode(p, index, data, next), index) == next
    ensures SetNode(p, index, data, next).slots[other] == p.slots[other]
    ensures SetNode(p, index, data, next).freeHead == p.freeHead
    ensures GetNextOfNode(SetNextOfNode(p, index, next), index) == next
    ensures GetNodeData(SetNextOfNode(p, index, next), index) == GetNodeData(p, index)
    ensures SetNextOfNode(p, index, next).slots[other] == p.slots[other]
    ensures SetNextOfNode(p, index, next).freeHead == p.freeHead
    ensures GetNodeData(SetNodeData(p, index, data), index) == data
    ensures GetNextOfNode(SetNodeData(p, index, data), index) == GetNextOfNode(p, index)
    ensures SetNodeData(p, index, data).slots[other] == p.slots[other]
    ensures SetNodeData(p, index, data).freeHead == p.freeHead
  {
  }

  /** LIFO reuse: a slot released and then acquired again comes straight
      back, and the free chain is as it was before the release. */
  lemma ReleaseThenAcquire(p: Pool, index: int)
    requires PoolValid(p) && IsSlot(index) && index !in FreeChain(p)
    ensures var q := ReleaseNode(p, index).0;
      AcquireNode(q).1 == index && FreeChain(AcquireNode(q).0) == FreeChain(p)
  {
  }

  /** Acquiring a slot and then writing it is one write to that slot, with
      the free chain advanced past it. */
  lemma AcquireThenSet(p: Pool, data: int, next: int)
    requires PoolValid(p) && p.freeHead != NULL_INDEX
    ensures AcquireNode(p).1 == p.freeHead
    ensures SetNode(AcquireNode(p).0, p.freeHead, data, next)
      == Pool(p.slots[p.freeHead := Slot(data, next)], NodeAt(FreeChain(p), 1))
  {
    FreeChainLinked(p);
    var q := AcquireNode(p).0;
    UpdateTwice(p.slots, p.freeHead, p.slots[p.freeHead].(next := NULL_INDEX), Slot(data, next));
  }

  lemma UpdateTwice<T>(s: seq<T>, i: int, a: T, b: T)
    requires 0 <= i < |s|
    ensures s[i := a][i := b] == s[i := b]
  {
  }

  /** Releasing the slot just acquired restores the pool exactly. */
  lemma AcquireThenRelease(p: Pool)
    requires PoolValid(p) && p.freeHead != NULL_INDEX
    ensures ReleaseNode(AcquireNode(p).0, AcquireNode(p).1) == (p, true)
  {
    var q, index := AcquireNode(p).0, AcquireNode(p).1;
    assert ReleaseNode(q, index).0.slots == p.slots;
  }

  /** Every slot is either free or held by the client (NodePool.h:19-25):
      the free chain and the held slots together number CAPACITY. */
  lemma FreePlusHeld(p: Pool)
    requires PoolValid(p)
    ensures |FreeChain(p)| + |HeldSlots(p)| == CAPACITY
  {
    var f := FreeChain(p);
    FreeChainLinked(p);
    DistinctCardinality(f);
    var range := Range(CAPACITY);
    assert Elems(f) <= range;
    assert HeldSlots(p) == range - Elems(f);
    SplitCardinality(Elems(f), range);
  }

  // ---------------------------------------------------------------------------
  // Counting helpers
  // ---------------------------------------------------------------------------

  function Elems(s: seq<int>): set<int> {
    set x | x in s
  }

  lemma {:induction false} DistinctCardinality(s: seq<int>)
    requires Distinct(s)
    ensures |Elems(s)| == |s|
  {
    if |s| > 0 {
      var init := s[..|s| - 1];
      assert Distinct(init);
      DistinctCardinality(init);
      assert Elems(s) == Elems(init) + {s[|s| - 1]};
      assert s[|s| - 1] !in Elems(init);
    }
  }

  /** The slot indices 0 .. n-1 as a set. */
  function Range(n: nat): (r: set<int>)
    ensures forall i :: i in r <==> 0 <= i < n
    ensures |r| == n
  {
    var s := seq(n, i => i);
    IdentityFacts(s, n);
    Elems(s)
  }

  lemma IdentityFacts(s: seq<int>, n: nat)
    requires s == seq(n, k => k)
    ensures forall i :: i in Elems(s) <==> 0 <= i < n
    ensures |Elems(s)| == n
  {
    assert Distinct(s);
    DistinctCardinality(s);
    forall i | 0 <= i < n
      ensures i in Elems(s)
    {
      assert s[i] == i;
    }
  }

  lemma SubsetCardinality(a: set<int>, b: set<int>)
    requires a <= b
    ensures |a| <= |b|
  {
    SplitCardinality(a, b);
  }

  lemma SplitCardinality(a: set<int>, b: set<int>)
    requires a <= b
    ensures |b - a| + |a| == |b|
  {
    assert b == (b - a) + a;
    assert (b - a) * a == {};
  }
}
