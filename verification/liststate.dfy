/** The state of ArrayBasedList.h (a pool plus the head of the in-use
    chain), its class invariant, the payload sequence it stands for, and the
    chain surgeries its operations perform, each proved to keep the
    invariant and to act on the payload sequence as a sequence edit. */
module ListState {
  import opened NodePool
  import ListSpec

  /** ArrayBasedList's fields (ArrayBasedList.h:199-200). */
  datatype List = List(pool: Pool, first: int)

  /** Every element of `idx` is a slot index. */
  predicate AllSlots(idx: seq<int>) {
    forall k :: 0 <= k < |idx| ==> IsSlot(idx[k])
  }

  predicate Disjoint(u: seq<int>, f: seq<int>) {
    forall a, b :: 0 <= a < |u| && 0 <= b < |f| ==> u[a] != f[b]
  }

  predicate HasChains(l: List) {
    && |l.pool.slots| == CAPACITY
    && Walk(l.pool.slots, l.first, CAPACITY).Some?
    && HasFreeChain(l.pool)
  }

  /** The in-use slots in list order: the chain from `first`. */
  function InUse(l: List): seq<int>
    requires HasChains(l)
  {
    Walk(l.pool.slots, l.first, CAPACITY).value
  }

  /** The free slots in the order the pool hands them out. */
  function Free(l: List): seq<int>
    requires HasChains(l)
  {
    FreeChain(l.pool)
  }

  /** The class invariants of ArrayBasedList.h:17-22 and NodePool.h:19-25
      together: the chains from `first` and from `freeHead` both end at
      NULL_INDEX, neither repeats a slot, they share no slot, and between
      them they hold CAPACITY slots (so, by `Coverage`, every slot is on
      exactly one of them).  The remaining conjuncts restate facts of the
      chains that the operations' contracts mention. */
  predicate Valid(l: List) {
    && HasChains(l)
    && Distinct(InUse(l)) && Distinct(Free(l)) && Disjoint(InUse(l), Free(l))
    && |InUse(l)| + |Free(l)| == CAPACITY
    && AllSlots(InUse(l)) && AllSlots(Free(l))
    && l.first == NodeAt(InUse(l), 0)
    && l.pool.freeHead == NodeAt(Free(l), 0)
  }

  /** The payloads of the slots `idx`, in order. */
  function Values(slots: seq<Slot>, idx: seq<int>): seq<int>
    requires forall k :: 0 <= k < |idx| ==> 0 <= idx[k] < |slots|
  {
    seq(|idx|, k requires 0 <= k < |idx| => slots[idx[k]].data)
  }

  /** The list's contents in order: what `display` prints. */
  function Elements(l: List): seq<int>
    requires Valid(l)
  {
    Values(l.pool.slots, InUse(l))
  }

  lemma ValidLinked(l: List)
    requires Valid(l)
    ensures Linked(l.pool.slots, l.first, InUse(l))
    ensures Linked(l.pool.slots, l.pool.freeHead, Free(l))
    ensures PoolValid(l.pool)
  {
    WalkSound(l.pool.slots, l.first, CAPACITY, InUse(l));
    WalkSound(l.pool.slots, l.pool.freeHead, CAPACITY, Free(l));
  }

  /** What the list's loops read while following the in-use chain: the
      slot at chain position `k`, its successor and its payload. */
  lemma ReadChain(l: List, k: int)
    requires Valid(l) && 0 <= k < |InUse(l)|
    ensures IsSlot(InUse(l)[k])
    ensures GetNextOfNode(l.pool, InUse(l)[k]) == NodeAt(InUse(l), k + 1)
    ensures GetNodeData(l.pool, InUse(l)[k]) == Elements(l)[k]
  {
    ValidLinked(l);
  }

  lemma MakeValid(l: List, u: seq<int>, f: seq<int>)
    requires |l.pool.slots| == CAPACITY
    requires Linked(l.pool.slots, l.first, u) && Linked(l.pool.slots, l.pool.freeHead, f)
    requires Distinct(u) && Distinct(f) && Disjoint(u, f)
    requires |u| + |f| == CAPACITY
    ensures Valid(l) && InUse(l) == u && Free(l) == f
  {
    WalkComplete(l.pool.slots, l.first, CAPACITY, u);
    WalkComplete(l.pool.slots, l.pool.freeHead, CAPACITY, f);
  }

  // ---------------------------------------------------------------------------
  // Consequences of the invariant
  // ---------------------------------------------------------------------------

  /** Every slot is on exactly one of the two chains. */
  lemma Coverage(l: List)
    requires Valid(l)
    ensures forall i :: 0 <= i < CAPACITY ==> (i in InUse(l) <==> i !in Free(l))
  {
    CoverageOfChains(InUse(l), Free(l));
  }

  lemma CoverageOfChains(u: seq<int>, f: seq<int>)
    requires Distinct(u) && Distinct(f) && Disjoint(u, f)
    requires AllSlots(u) && AllSlots(f)
    requires |u| + |f| == CAPACITY
    ensures forall i :: 0 <= i < CAPACITY ==> (i in u <==> i !in f)
  {
    BothFillRange(u, f, CAPACITY);
    DisjointElems(u, f);
    forall i | 0 <= i < CAPACITY
      ensures i in u <==> i !in f
    {
      CoverOne(u, f, i);
    }
  }

  lemma CoverOne(u: seq<int>, f: seq<int>, i: int)
    requires Elems(u) * Elems(f) == {}
    requires i in Elems(u) + Elems(f)
    ensures i in u <==> i !in f
  {
    assert i in u <==> i in Elems(u);
    assert i in f <==> i in Elems(f);
    assert i !in Elems(u) * Elems(f);
  }

  /** Two disjoint repetition-free sequences of indices below `n` that hold
      `n` indices between them use every index below `n`. */
  lemma BothFillRange(u: seq<int>, f: seq<int>, n: nat)
    requires Distinct(u) && Distinct(f) && Disjoint(u, f)
    requires forall k :: 0 <= k < |u| ==> 0 <= u[k] < n
    requires forall k :: 0 <= k < |f| ==> 0 <= f[k] < n
    requires |u| + |f| == n
    ensures forall i :: 0 <= i < n ==> i in Elems(u) + Elems(f)
  {
    var both := Elems(u) + Elems(f);
    BothCardinality(u, f);
    BothInRange(u, f, n);
    SplitCardinality(both, Range(n));
    assert Range(n) - both == {};
    forall i | 0 <= i < n
      ensures i in both
    {
      assert i in Range(n);
    }
  }

  lemma BothCardinality(u: seq<int>, f: seq<int>)
    requires Distinct(u) && Distinct(f) && Disjoint(u, f)
    ensures |Elems(u) + Elems(f)| == |u| + |f|
  {
    DistinctCardinality(u);
    DistinctCardinality(f);
    DisjointElems(u, f);
  }

  lemma BothInRange(u: seq<int>, f: seq<int>, n: nat)
    requires forall k :: 0 <= k < |u| ==> 0 <= u[k] < n
    requires forall k :: 0 <= k < |f| ==> 0 <= f[k] < n
    ensures Elems(u) + Elems(f) <= Range(n)
  {
    forall x | x in Elems(u) + Elems(f)
      ensures x in Range(n)
    {
      if x in Elems(u) {
        var a :| 0 <= a < |u| && u[a] == x;
      } else {
        var b :| 0 <= b < |f| && f[b] == x;
      }
    }
  }

  lemma DisjointElems(u: seq<int>, f: seq<int>)
    requires Disjoint(u, f)
    ensures Elems(u) * Elems(f) == {}
  {
    forall x | x in Elems(u)
      ensures x !in Elems(f)
    {
      var a :| 0 <= a < |u| && u[a] == x;
      assert forall b :: 0 <= b < |f| ==> f[b] != x;
    }
  }

  /** The slots the pool regards as held are exactly the slots reachable
      from `first`, so a full pool means a list of CAPACITY payloads and an
      empty list means `first == NULL_INDEX`. */
  lemma InUseIsHeld(l: List)
    requires Valid(l)
    ensures PoolValid(l.pool)
    ensures HeldSlots(l.pool) == Elems(InUse(l))
    ensures l.pool.freeHead == NULL_INDEX <==> |Elements(l)| == CAPACITY
    ensures l.first == NULL_INDEX <==> Elements(l) == []
  {
    ValidLinked(l);
    Coverage(l);
    var u := InUse(l);
    forall i | i in Elems(u)
      ensures i in HeldSlots(l.pool)
    {
      var k :| 0 <= k < |u| && u[k] == i;
      assert IsSlot(i);
      assert i in Range(CAPACITY);
    }
    forall i | i in HeldSlots(l.pool)
      ensures i in Elems(u)
    {
      assert 0 <= i < CAPACITY;
    }
  }

  // ---------------------------------------------------------------------------
  // Chain surgery
  // ---------------------------------------------------------------------------

  /** Payload changes leave both chains alone. */
  lemma SameLinks(l: List, l': List)
    requires Valid(l)
    requires |l'.pool.slots| == CAPACITY
    requires l'.first == l.first && l'.pool.freeHead == l.pool.freeHead
    requires forall j :: 0 <= j < CAPACITY ==> l'.pool.slots[j].next == l.pool.slots[j].next
    ensures Valid(l') && InUse(l') == InUse(l) && Free(l') == Free(l)
    ensures Elements(l') == Values(l'.pool.slots, InUse(l))
  {
    ValidLinked(l);
    MakeValid(l', InUse(l), Free(l));
  }

  /** Overwriting the head's payload replaces the first element
      (ArrayBasedList.h:246, 469, 511). */
  lemma OverwriteHead(l: List, v: int)
    requires Valid(l) && l.first != NULL_INDEX
    ensures var l' := l.(pool := SetNodeData(l.pool, l.first, v));
      && Valid(l') && InUse(l') == InUse(l) && Free(l') == Free(l)
      && Elements(l') == [v] + Elements(l)[1..]
  {
    var l' := l.(pool := SetNodeData(l.pool, l.first, v));
    SameLinks(l, l');
    ValidLinked(l);
    var u := InUse(l);
    forall k | 0 <= k < |u|
      ensures Elements(l')[k] == ([v] + Elements(l)[1..])[k]
    {
      if k > 0 {
        assert u[k] != u[0];
      }
    }
  }

  /** Exchanging the payloads of the slots at chain positions `j` and
      `j + 1` exchanges those two elements (ArrayBasedList.h:419). */
  lemma SwapAdjacent(l: List, j: nat)
    requires Valid(l) && j + 1 < |InUse(l)|
    ensures var l' := l.(pool := SwitchOrderOfNodes(l.pool, InUse(l)[j], InUse(l)[j + 1]));
      && Valid(l') && InUse(l') == InUse(l) && Free(l') == Free(l)
      && l'.first == l.first
      && Elements(l') == ListSpec.Exchange(Elements(l), j)
  {
    var u := InUse(l);
    var l' := l.(pool := SwitchOrderOfNodes(l.pool, u[j], u[j + 1]));
    SameLinks(l, l');
    forall k | 0 <= k < |u|
      ensures Elements(l')[k] == ListSpec.Exchange(Elements(l), j)[k]
    {
      if k != j && k != j + 1 {
        assert u[k] != u[j] && u[k] != u[j + 1];
      }
    }
  }

  /** `LinkFresh` with the slot writes stated field by field: the two
      written slots as required, every other field unchanged. */
  lemma LinkFreshFramed(l: List, l': List, p: int, v: int)
    requires Valid(l) && |Free(l)| > 0 && 0 <= p <= |InUse(l)|
    requires |l'.pool.slots| == CAPACITY
    requires l'.pool.freeHead == NodeAt(Free(l), 1)
    requires l'.first == if p == 0 then Free(l)[0] else l.first
    requires l'.pool.slots[Free(l)[0]] == Slot(v, NodeAt(InUse(l), p))
    requires p > 0 ==> l'.pool.slots[InUse(l)[p - 1]].next == Free(l)[0]
    requires forall j :: 0 <= j < CAPACITY && j != Free(l)[0] ==>
      l'.pool.slots[j].data == l.pool.slots[j].data
    requires forall j :: 0 <= j < CAPACITY && j != Free(l)[0] && (p == 0 || j != InUse(l)[p - 1]) ==>
      l'.pool.slots[j].next == l.pool.slots[j].next
    ensures Valid(l')
    ensures InUse(l') == InUse(l)[..p] + [Free(l)[0]] + InUse(l)[p..]
    ensures Free(l') == Free(l)[1..]
    ensures Elements(l') == Elements(l)[..p] + [v] + Elements(l)[p..]
  {
    ValidLinked(l);
    var u, f := InUse(l), Free(l);
    var u' := u[..p] + [f[0]] + u[p..];
    LinkFreshChains(l.pool.slots, l'.pool.slots, u, f, p, v);
    MakeValid(l', u', f[1..]);
    InsertedValues(l.pool.slots, l'.pool.slots, u, f[0], p, v);
  }

  lemma InsertedValues(slots: seq<Slot>, slots': seq<Slot>, u: seq<int>, x: int, p: int, v: int)
    requires |slots| == |slots'| && 0 <= x < |slots| && 0 <= p <= |u|
    requires forall k :: 0 <= k < |u| ==> 0 <= u[k] < |slots| && u[k] != x
    requires slots'[x].data == v
    requires forall j :: 0 <= j < |slots| && j != x ==> slots'[j].data == slots[j].data
    ensures Values(slots', u[..p] + [x] + u[p..]) == Values(slots, u)[..p] + [v] + Values(slots, u)[p..]
  {
    Inserted(u, p, x);
    Inserted(Values(slots, u), p, v);
  }

  /** Position-wise description of `s[..p] + [x] + s[p..]`. */
  lemma Inserted<T>(s: seq<T>, p: int, x: T)
    requires 0 <= p <= |s|
    ensures var t := s[..p] + [x] + s[p..];
      && |t| == |s| + 1 && t[p] == x
      && (forall k :: 0 <= k < p ==> t[k] == s[k])
      && (forall k :: p < k < |t| ==> t[k] == s[k - 1])
  {
  }

  lemma InsertedAtFront<T>(s: seq<T>, x: T)
    ensures s[..0] + [x] + s[0..] == [x] + s
  {
    assert s[..0] == [] && s[0..] == s;
  }

  /** Position-wise description of `s[..p] + s[p + 1..]`. */
  lemma Removed<T>(s: seq<T>, p: int)
    requires 0 <= p < |s|
    ensures var t := s[..p] + s[p + 1..];
      && |t| == |s| - 1
      && (forall k :: 0 <= k < p ==> t[k] == s[k])
      && (forall k :: p <= k < |t| ==> t[k] == s[k + 1])
  {
  }

  /** Position-wise description of `s[1..q + 1] + [x] + s[q + 1..]`. */
  lemma HeadMoved<T>(s: seq<T>, q: int, x: T)
    requires 1 <= q < |s|
    ensures var t := s[1..q + 1] + [x] + s[q + 1..];
      && |t| == |s| && t[q] == x
      && (forall k :: 0 <= k < q ==> t[k] == s[k + 1])
      && (forall k :: q < k < |t| ==> t[k] == s[k])
  {
  }

  lemma LinkFreshChains(slots: seq<Slot>, slots': seq<Slot>, u: seq<int>, f: seq<int>, p: int, v: int)
    requires |slots| == CAPACITY && |slots'| == CAPACITY
    requires Linked(slots, NodeAt(u, 0), u) && Linked(slots, NodeAt(f, 0), f)
    requires Distinct(u) && Distinct(f) && Disjoint(u, f)
    requires |f| > 0 && 0 <= p <= |u|
    requires slots'[f[0]] == Slot(v, NodeAt(u, p))
    requires p > 0 ==> slots'[u[p - 1]].next == f[0]
    requires forall j :: 0 <= j < CAPACITY && j != f[0] && (p == 0 || j != u[p - 1]) ==>
      slots'[j].next == slots[j].next
    ensures Linked(slots', if p == 0 then f[0] else NodeAt(u, 0), u[..p] + [f[0]] + u[p..])
    ensures Linked(slots', NodeAt(f, 1), f[1..])
    ensures Distinct(u[..p] + [f[0]] + u[p..]) && Distinct(f[1..])
    ensures Disjoint(u[..p] + [f[0]] + u[p..], f[1..])
  {
    LinkFreshInUse(slots, slots', u, f, p, v);
    LinkFreshFree(slots, slots', u, f, p);
    InsertedDistinct(u, f, p);
  }

  lemma LinkFreshInUse(slots: seq<Slot>, slots': seq<Slot>, u: seq<int>, f: seq<int>, p: int, v: int)
    requires |slots| == CAPACITY && |slots'| == CAPACITY
    requires Linked(slots, NodeAt(u, 0), u)
    requires Distinct(u) && Disjoint(u, f)
    requires |f| > 0 && 0 <= p <= |u| && IsSlot(f[0])
    requires slots'[f[0]] == Slot(v, NodeAt(u, p))
    requires p > 0 ==> slots'[u[p - 1]].next == f[0]
    requires forall j :: 0 <= j < CAPACITY && j != f[0] && (p == 0 || j != u[p - 1]) ==>
      slots'[j].next == slots[j].next
    ensures Linked(slots', if p == 0 then f[0] else NodeAt(u, 0), u[..p] + [f[0]] + u[p..])
  {
    var x := f[0];
    var u' := u[..p] + [x] + u[p..];
    Inserted(u, p, x);
    assert forall k :: 0 <= k < |u| ==> u[k] != x;
    forall k | 0 <= k < |u'|
      ensures slots'[u'[k]].next == NodeAt(u', k + 1)
    {
      if k < p - 1 {
        assert u[k] != u[p - 1];
      } else if k > p && p > 0 {
        assert u[k - 1] != u[p - 1];
      }
    }
  }

  lemma LinkFreshFree(slots: seq<Slot>, slots': seq<Slot>, u: seq<int>, f: seq<int>, p: int)
    requires |slots| == CAPACITY && |slots'| == CAPACITY
    requires Linked(slots, NodeAt(f, 0), f)
    requires Distinct(f) && Disjoint(u, f)
    requires |f| > 0 && 0 <= p <= |u|
    requires forall j :: 0 <= j < CAPACITY && j != f[0] && (p == 0 || j != u[p - 1]) ==>
      slots'[j].next == slots[j].next
    ensures Linked(slots', NodeAt(f, 1), f[1..])
  {
    var f' := f[1..];
    forall k | 0 <= k < |f'|
      ensures slots'[f'[k]].next == NodeAt(f', k + 1)
    {
      assert f'[k] == f[k + 1];
      assert f[k + 1] != f[0];
      assert p > 0 ==> f[k + 1] != u[p - 1];
    }
  }

  lemma InsertedDistinct(u: seq<int>, f: seq<int>, p: int)
    requires Distinct(u) && Distinct(f) && Disjoint(u, f)
    requires |f| > 0 && 0 <= p <= |u|
    ensures Distinct(u[..p] + [f[0]] + u[p..]) && Distinct(f[1..])
    ensures Disjoint(u[..p] + [f[0]] + u[p..], f[1..])
  {
    var u' := u[..p] + [f[0]] + u[p..];
    var f' := f[1..];
    Inserted(u, p, f[0]);
    forall a, b | 0 <= a < b < |u'|
      ensures u'[a] != u'[b]
    {
      var ia := if a < p then a else a - 1;
      var ib := if b < p then b else b - 1;
      assert a != p ==> u'[a] == u[ia];
      assert b != p ==> u'[b] == u[ib];
    }
    forall a, b | 0 <= a < |u'| && 0 <= b < |f'|
      ensures u'[a] != f'[b]
    {
      assert f'[b] == f[b + 1];
      var ia := if a < p then a else a - 1;
      assert a != p ==> u'[a] == u[ia];
    }
  }

  /** `MoveHead` with the slot writes stated field by field. */
  lemma MoveHeadFramed(l: List, l': List, q: int, v: int)
    requires Valid(l) && 1 <= q < |InUse(l)|
    requires |l'.pool.slots| == CAPACITY
    requires l'.pool.freeHead == l.pool.freeHead
    requires l'.first == InUse(l)[1]
    requires l'.pool.slots[InUse(l)[0]] == Slot(v, NodeAt(InUse(l), q + 1))
    requires l'.pool.slots[InUse(l)[q]].next == InUse(l)[0]
    requires forall j :: 0 <= j < CAPACITY && j != InUse(l)[0] ==>
      l'.pool.slots[j].data == l.pool.slots[j].data
    requires forall j :: 0 <= j < CAPACITY && j != InUse(l)[0] && j != InUse(l)[q] ==>
      l'.pool.slots[j].next == l.pool.slots[j].next
    ensures Valid(l')
    ensures InUse(l') == InUse(l)[1..q + 1] + [InUse(l)[0]] + InUse(l)[q + 1..]
    ensures Free(l') == Free(l)
    ensures Elements(l') == Elements(l)[1..q + 1] + [v] + Elements(l)[q + 1..]
  {
    ValidLinked(l);
    var u, f := InUse(l), Free(l);
    var u' := u[1..q + 1] + [u[0]] + u[q + 1..];
    MoveHeadChains(l.pool.slots, l'.pool.slots, u, f, q, v);
    MakeValid(l', u', f);
    HeadMovedValues(l.pool.slots, l'.pool.slots, u, q, v);
  }

  lemma HeadMovedValues(slots: seq<Slot>, slots': seq<Slot>, u: seq<int>, q: int, v: int)
    requires |slots| == |slots'| && 1 <= q < |u| && Distinct(u)
    requires forall k :: 0 <= k < |u| ==> 0 <= u[k] < |slots|
    requires slots'[u[0]].data == v
    requires forall j :: 0 <= j < |slots| && j != u[0] ==> slots'[j].data == slots[j].data
    ensures Values(slots', u[1..q + 1] + [u[0]] + u[q + 1..])
      == Values(slots, u)[1..q + 1] + [v] + Values(slots, u)[q + 1..]
  {
    HeadMoved(u, q, u[0]);
    HeadMoved(Values(slots, u), q, v);
    assert forall k :: 1 <= k < |u| ==> u[k] != u[0];
  }

  lemma MoveHeadChains(slots: seq<Slot>, slots': seq<Slot>, u: seq<int>, f: seq<int>, q: int, v: int)
    requires |slots| == CAPACITY && |slots'| == CAPACITY
    requires Linked(slots, NodeAt(u, 0), u) && Linked(slots, NodeAt(f, 0), f)
    requires Distinct(u) && Disjoint(u, f)
    requires 1 <= q < |u|
    requires slots'[u[0]] == Slot(v, NodeAt(u, q + 1))
    requires slots'[u[q]].next == u[0]
    requires forall j :: 0 <= j < CAPACITY && j != u[0] && j != u[q] ==>
      slots'[j].next == slots[j].next
    ensures Linked(slots', u[1], u[1..q + 1] + [u[0]] + u[q + 1..])
    ensures Linked(slots', NodeAt(f, 0), f)
    ensures Distinct(u[1..q + 1] + [u[0]] + u[q + 1..])
    ensures Disjoint(u[1..q + 1] + [u[0]] + u[q + 1..], f)
  {
    MoveHeadInUse(slots, slots', u, q, v);
    MoveHeadFree(slots, slots', u, f, q);
    HeadMovedDistinct(u, f, q);
  }

  lemma MoveHeadInUse(slots: seq<Slot>, slots': seq<Slot>, u: seq<int>, q: int, v: int)
    requires |slots| == CAPACITY && |slots'| == CAPACITY
    requires Linked(slots, NodeAt(u, 0), u)
    requires Distinct(u)
    requires 1 <= q < |u|
    requires slots'[u[0]] == Slot(v, NodeAt(u, q + 1))
    requires slots'[u[q]].next == u[0]
    requires forall j :: 0 <= j < CAPACITY && j != u[0] && j != u[q] ==>
      slots'[j].next == slots[j].next
    ensures Linked(slots', u[1], u[1..q + 1] + [u[0]] + u[q + 1..])
  {
    var h := u[0];
    var u' := u[1..q + 1] + [h] + u[q + 1..];
    HeadMoved(u, q, h);
    forall k | 0 <= k < |u'|
      ensures slots'[u'[k]].next == NodeAt(u', k + 1)
    {
      if k < q - 1 {
        assert u[k + 1] != h && u[k + 1] != u[q];
      } else if k > q {
        assert u[k] != h && u[k] != u[q];
      }
    }
  }

  lemma MoveHeadFree(slots: seq<Slot>, slots': seq<Slot>, u: seq<int>, f: seq<int>, q: int)
    requires |slots| == CAPACITY && |slots'| == CAPACITY
    requires Linked(slots, NodeAt(f, 0), f)
    requires Disjoint(u, f)
    requires 1 <= q < |u|
    requires forall j :: 0 <= j < CAPACITY && j != u[0] && j != u[q] ==>
      slots'[j].next == slots[j].next
    ensures Linked(slots', NodeAt(f, 0), f)
  {
    forall k | 0 <= k < |f|
      ensures slots'[f[k]].next == NodeAt(f, k + 1)
    {
      assert f[k] != u[0] && f[k] != u[q];
    }
  }

  lemma HeadMovedDistinct(u: seq<int>, f: seq<int>, q: int)
    requires Distinct(u) && Disjoint(u, f)
    requires 1 <= q < |u|
    ensures Distinct(u[1..q + 1] + [u[0]] + u[q + 1..])
    ensures Disjoint(u[1..q + 1] + [u[0]] + u[q + 1..], f)
  {
    var u' := u[1..q + 1] + [u[0]] + u[q + 1..];
    HeadMoved(u, q, u[0]);
    forall a, b | 0 <= a < b < |u'|
      ensures u'[a] != u'[b]
    {
      var ia := if a < q then a + 1 else if a == q then 0 else a;
      var ib := if b < q then b + 1 else if b == q then 0 else b;
      assert u'[a] == u[ia] && u'[b] == u[ib] && ia != ib;
    }
    forall a, b | 0 <= a < |u'| && 0 <= b < |f|
      ensures u'[a] != f[b]
    {
      var ia := if a < q then a + 1 else if a == q then 0 else a;
      assert u'[a] == u[ia];
    }
  }

  /** `Unlink` with the slot writes stated field by field. */
  lemma UnlinkFramed(l: List, l': List, p: int)
    requires Valid(l) && 0 <= p < |InUse(l)|
    requires |l'.pool.slots| == CAPACITY
    requires l'.pool.freeHead == InUse(l)[p]
    requires l'.first == if p == 0 then NodeAt(InUse(l), 1) else l.first
    requires l'.pool.slots[InUse(l)[p]].next == l.pool.freeHead
    requires p > 0 ==> l'.pool.slots[InUse(l)[p - 1]].next == NodeAt(InUse(l), p + 1)
    requires forall j :: 0 <= j < CAPACITY ==> l'.pool.slots[j].data == l.pool.slots[j].data
    requires forall j :: 0 <= j < CAPACITY && j != InUse(l)[p] && (p == 0 || j != InUse(l)[p - 1]) ==>
      l'.pool.slots[j].next == l.pool.slots[j].next
    ensures Valid(l')
    ensures InUse(l') == InUse(l)[..p] + InUse(l)[p + 1..]
    ensures Free(l') == [InUse(l)[p]] + Free(l)
    ensures Elements(l') == Elements(l)[..p] + Elements(l)[p + 1..]
  {
    ValidLinked(l);
    var u, f := InUse(l), Free(l);
    var u' := u[..p] + u[p + 1..];
    UnlinkChains(l.pool.slots, l'.pool.slots, u, f, p);
    MakeValid(l', u', [u[p]] + f);
    RemovedValues(l.pool.slots, l'.pool.slots, u, p);
  }

  lemma RemovedValues(slots: seq<Slot>, slots': seq<Slot>, u: seq<int>, p: int)
    requires |slots| == |slots'| && 0 <= p < |u|
    requires forall k :: 0 <= k < |u| ==> 0 <= u[k] < |slots|
    requires forall j :: 0 <= j < |slots| ==> slots'[j].data == slots[j].data
    ensures Values(slots', u[..p] + u[p + 1..]) == Values(slots, u)[..p] + Values(slots, u)[p + 1..]
  {
    Removed(u, p);
    Removed(Values(slots, u), p);
  }

  lemma UnlinkChains(slots: seq<Slot>, slots': seq<Slot>, u: seq<int>, f: seq<int>, p: int)
    requires |slots| == CAPACITY && |slots'| == CAPACITY
    requires Linked(slots, NodeAt(u, 0), u) && Linked(slots, NodeAt(f, 0), f)
    requires Distinct(u) && Distinct(f) && Disjoint(u, f)
    requires 0 <= p < |u|
    requires slots'[u[p]].next == NodeAt(f, 0)
    requires p > 0 ==> slots'[u[p - 1]].next == NodeAt(u, p + 1)
    requires forall j :: 0 <= j < CAPACITY && j != u[p] && (p == 0 || j != u[p - 1]) ==>
      slots'[j].next == slots[j].next
    ensures Linked(slots', if p == 0 then NodeAt(u, 1) else NodeAt(u, 0), u[..p] + u[p + 1..])
    ensures Linked(slots', u[p], [u[p]] + f)
    ensures Distinct(u[..p] + u[p + 1..]) && Distinct([u[p]] + f)
    ensures Disjoint(u[..p] + u[p + 1..], [u[p]] + f)
  {
    UnlinkInUse(slots, slots', u, p);
    UnlinkFree(slots, slots', u, f, p);
    RemovedDistinct(u, f, p);
  }

  lemma UnlinkInUse(slots: seq<Slot>, slots': seq<Slot>, u: seq<int>, p: int)
    requires |slots| == CAPACITY && |slots'| == CAPACITY
    requires Linked(slots, NodeAt(u, 0), u)
    requires Distinct(u)
    requires 0 <= p < |u|
    requires p > 0 ==> slots'[u[p - 1]].next == NodeAt(u, p + 1)
    requires forall j :: 0 <= j < CAPACITY && j != u[p] && (p == 0 || j != u[p - 1]) ==>
      slots'[j].next == slots[j].next
    ensures Linked(slots', if p == 0 then NodeAt(u, 1) else NodeAt(u, 0), u[..p] + u[p + 1..])
  {
    var u' := u[..p] + u[p + 1..];
    Removed(u, p);
    forall k | 0 <= k < |u'|
      ensures slots'[u'[k]].next == NodeAt(u', k + 1)
    {
      if k < p - 1 {
        assert u[k] != u[p] && u[k] != u[p - 1];
      } else if k >= p {
        assert u[k + 1] != u[p] && (p == 0 || u[k + 1] != u[p - 1]);
      }
    }
  }

  lemma UnlinkFree(slots: seq<Slot>, slots': seq<Slot>, u: seq<int>, f: seq<int>, p: int)
    requires |slots| == CAPACITY && |slots'| == CAPACITY
    requires Linked(slots, NodeAt(f, 0), f)
    requires Disjoint(u, f)
    requires 0 <= p < |u| && IsSlot(u[p])
    requires slots'[u[p]].next == NodeAt(f, 0)
    requires forall j :: 0 <= j < CAPACITY && j != u[p] && (p == 0 || j != u[p - 1]) ==>
      slots'[j].next == slots[j].next
    ensures Linked(slots', u[p], [u[p]] + f)
  {
    var f' := [u[p]] + f;
    forall k | 0 <= k < |f'|
      ensures slots'[f'[k]].next == NodeAt(f', k + 1)
    {
      if k > 0 {
        assert f'[k] == f[k - 1];
        assert f[k - 1] != u[p] && (p == 0 || f[k - 1] != u[p - 1]);
      }
    }
  }

  lemma RemovedDistinct(u: seq<int>, f: seq<int>, p: int)
    requires Distinct(u) && Distinct(f) && Disjoint(u, f)
    requires 0 <= p < |u|
    ensures Distinct(u[..p] + u[p + 1..]) && Distinct([u[p]] + f)
    ensures Disjoint(u[..p] + u[p + 1..], [u[p]] + f)
  {
    var u' := u[..p] + u[p + 1..];
    var f' := [u[p]] + f;
    Removed(u, p);
    forall a, b | 0 <= a < b < |u'|
      ensures u'[a] != u'[b]
    {
      var ia := if a < p then a else a + 1;
      var ib := if b < p then b else b + 1;
      assert u'[a] == u[ia] && u'[b] == u[ib] && ia < ib;
    }
    forall a, b | 0 <= a < b < |f'|
      ensures f'[a] != f'[b]
    {
      assert f'[b] == f[b - 1];
    }
    forall a, b | 0 <= a < |u'| && 0 <= b < |f'|
      ensures u'[a] != f'[b]
    {
      var ia := if a < p then a else a + 1;
      assert u'[a] == u[ia] && ia != p;
      if b > 0 {
        assert f'[b] == f[b - 1];
      }
    }
  }

  // ---------------------------------------------------------------------------
  // The three chain surgeries, stated on the slot array they produce
  // ---------------------------------------------------------------------------

  /** The slots after the head of the free chain is given payload `v` and
      linked in at chain position `p`. */
  function LinkedInSlots(l: List, p: int, v: int): seq<Slot>
    requires Valid(l) && |Free(l)| > 0 && 0 <= p <= |InUse(l)|
  {
    var u, f := InUse(l), Free(l);
    var slots := l.pool.slots[f[0] := Slot(v, NodeAt(u, p))];
    if p == 0 then slots else slots[u[p - 1] := l.pool.slots[u[p - 1]].(next := f[0])]
  }

  /** Links the head of the free chain in at chain position `p`: either as
      the new first node (p == 0) or after the node at position p - 1
      (ArrayBasedList.h:228-229, 255-256, 295-298, 484-487, 520-521, 554-557). */
  lemma LinkFresh(l: List, l': List, p: int, v: int)
    requires Valid(l) && |Free(l)| > 0 && 0 <= p <= |InUse(l)|
    requires l'.pool == Pool(LinkedInSlots(l, p, v), NodeAt(Free(l), 1))
    requires l'.first == if p == 0 then Free(l)[0] else l.first
    ensures Valid(l')
    ensures InUse(l') == InUse(l)[..p] + [Free(l)[0]] + InUse(l)[p..]
    ensures Free(l') == Free(l)[1..]
    ensures Elements(l') == Elements(l)[..p] + [v] + Elements(l)[p..]
  {
    ValidLinked(l);
    var u, f := InUse(l), Free(l);
    assert forall k :: 0 <= k < |u| ==> u[k] != f[0];
    LinkFreshFramed(l, l', p, v);
  }

  /** The slots after the first node is given payload `v` and moved to just
      after the node at chain position `q`. */
  function MovedHeadSlots(l: List, q: int, v: int): seq<Slot>
    requires Valid(l) && 1 <= q < |InUse(l)|
  {
    var u := InUse(l);
    l.pool.slots[u[0] := Slot(v, NodeAt(u, q + 1))][u[q] := l.pool.slots[u[q]].(next := u[0])]
  }

  /** Reuses the first node's slot for `v`, relinked after the node at chain
      position `q` (ArrayBasedList.h:281-298, 472-487, 541-557). */
  lemma MoveHead(l: List, l': List, q: int, v: int)
    requires Valid(l) && 1 <= q < |InUse(l)|
    requires l'.pool == Pool(MovedHeadSlots(l, q, v), l.pool.freeHead)
    requires l'.first == InUse(l)[1]
    ensures Valid(l')
    ensures InUse(l') == InUse(l)[1..q + 1] + [InUse(l)[0]] + InUse(l)[q + 1..]
    ensures Free(l') == Free(l)
    ensures Elements(l') == Elements(l)[1..q + 1] + [v] + Elements(l)[q + 1..]
  {
    ValidLinked(l);
    var u := InUse(l);
    assert u[0] != u[q];
    MoveHeadFramed(l, l', q, v);
  }

  /** The slots after the node at chain position `p` is bypassed and pushed
      onto the free chain. */
  function UnlinkedSlots(l: List, p: int): seq<Slot>
    requires Valid(l) && 0 <= p < |InUse(l)|
  {
    var u := InUse(l);
    var slots := if p == 0 then l.pool.slots
      else l.pool.slots[u[p - 1] := l.pool.slots[u[p - 1]].(next := NodeAt(u, p + 1))];
    slots[u[p] := l.pool.slots[u[p]].(next := l.pool.freeHead)]
  }

  /** Unlinks the node at chain position `p` and returns its slot to the
      front of the free chain (ArrayBasedList.h:316-320, 344-346, 580-583,
      603-605, 622-624, 643-645, 658-659). */
  lemma Unlink(l: List, l': List, p: int)
    requires Valid(l) && 0 <= p < |InUse(l)|
    requires l'.pool == Pool(UnlinkedSlots(l, p), InUse(l)[p])
    requires l'.first == if p == 0 then NodeAt(InUse(l), 1) else l.first
    ensures Valid(l')
    ensures InUse(l') == InUse(l)[..p] + InUse(l)[p + 1..]
    ensures Free(l') == [InUse(l)[p]] + Free(l)
    ensures Elements(l') == Elements(l)[..p] + Elements(l)[p + 1..]
  {
    ValidLinked(l);
    var u := InUse(l);
    assert p > 0 ==> u[p - 1] != u[p];
    UnlinkFramed(l, l', p);
  }
}
