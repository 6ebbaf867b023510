/** Laws that relate several list operations: inserting then deleting at
    the same place gives the list back, a search finds what was just
    inserted, and the sort's result is the one sorted arrangement of the
    payloads. */
module ListProperties {
  import opened NodePool
  import opened ListState
  import opened ListSpec
  import opened ArrayBasedList

  /** On a list with room, insertAtPosition followed by deleteAtPosition at
      the same position restores the payloads and both chains: the slot
      taken from the free chain goes back to its head. */
  lemma InsertThenDelete(l: List, v: int, p: int)
    requires Valid(l) && |Elements(l)| < CAPACITY && 0 <= p <= |Elements(l)|
    ensures var r1 := InsertAtPosition(l, v, p, false);
      && r1.1
      && var r2 := DeleteAtPosition(r1.0, p);
      && r2.1
      && Elements(r2.0) == Elements(l) && InUse(r2.0) == InUse(l) && Free(r2.0) == Free(l)
  {
    var s, u, f := Elements(l), InUse(l), Free(l);
    var l1 := InsertAtPosition(l, v, p, false).0;
    assert Elements(l1) == s[..p] + [v] + s[p..];
    RemoveInserted(s, p, v);
    RemoveInserted(u, p, f[0]);
    assert [f[0]] + f[1..] == f;
  }

  /** On any list, deleteAtPosition followed by reinserting the removed
      payload at the same position (without forcing) restores the payloads
      and both chains. */
  lemma DeleteThenInsert(l: List, p: int)
    requires Valid(l) && 0 <= p < |Elements(l)|
    ensures var r1 := DeleteAtPosition(l, p);
      && r1.1
      && var r2 := InsertAtPosition(r1.0, Elements(l)[p], p, false);
      && r2.1
      && Elements(r2.0) == Elements(l) && InUse(r2.0) == InUse(l) && Free(r2.0) == Free(l)
  {
    var s, u, f := Elements(l), InUse(l), Free(l);
    var l1 := DeleteAtPosition(l, p).0;
    Reinserted(s, p);
    Reinserted(u, p);
    assert Free(l1)[0] == u[p] && Free(l1)[1..] == f;
  }

  /** Removing the element at `p` from `s[..p] + [x] + s[p..]` gives `s`. */
  lemma RemoveInserted(s: seq<int>, p: int, x: int)
    requires 0 <= p <= |s|
    ensures var t := s[..p] + [x] + s[p..];
      t[..p] + t[p + 1..] == s
  {
    var t := s[..p] + [x] + s[p..];
    assert t[..p] == s[..p];
    assert t[p + 1..] == s[p..];
    assert s[..p] + s[p..] == s;
  }

  /** Putting `s[p]` back where it was removed gives `s`. */
  lemma Reinserted(s: seq<int>, p: int)
    requires 0 <= p < |s|
    ensures var t := s[..p] + s[p + 1..];
      t[..p] + [s[p]] + t[p..] == s
  {
    var t := s[..p] + s[p + 1..];
    assert t[..p] == s[..p];
    assert t[p..] == s[p + 1..];
    assert s[..p] + [s[p]] + s[p + 1..] == s;
  }

  /** A successful insertAtPosition leaves `v` at `position`, and the list
      grows by one unless it was full. */
  lemma InsertPlacesValue(l: List, v: int, position: int, forced: bool)
    requires Valid(l)
    ensures var r := InsertAtPosition(l, v, position, forced);
      r.1 ==>
        && 0 <= position < |Elements(r.0)| && Elements(r.0)[position] == v
        && |Elements(r.0)| == if |Elements(l)| < CAPACITY then |Elements(l)| + 1 else CAPACITY
  {
    var s := Elements(l);
    if InsertAtPosition(l, v, position, forced).1 {
      if |s| < CAPACITY {
        assert |s[..position]| == position;
      } else {
        assert |s[1..position + 1]| == position;
      }
    }
  }

  /** After inserting `v` at `p` into a list with room, the list has one
      more payload and search finds `v` no later than `p`: at its old first
      occurrence when that lies before `p`, and at `p` otherwise. */
  lemma InsertThenSearch(l: List, v: int, p: int)
    requires Valid(l) && |Elements(l)| < CAPACITY && 0 <= p <= |Elements(l)|
    ensures var r := InsertAtPosition(l, v, p, false);
      && r.1
      && |Elements(r.0)| == |Elements(l)| + 1
      && 0 <= Search(r.0, v) <= p
      && Search(r.0, v) == if v in Elements(l)[..p] then Search(l, v) else p
  {
    var s := Elements(l);
    assert Elements(InsertAtPosition(l, v, p, false).0) == s[..p] + [v] + s[p..];
    FoundAfterInsert(s, p, v);
  }

  /** In `s[..p] + [v] + s[p..]`, `v` first occurs at its first occurrence
      in `s` when that lies before `p`, and at `p` otherwise. */
  lemma FoundAfterInsert(s: seq<int>, p: int, v: int)
    requires 0 <= p <= |s|
    ensures var t := s[..p] + [v] + s[p..];
      FirstIndexOf(t, v) == if v in s[..p] then FirstIndexOf(s, v) else p
  {
    var t := s[..p] + [v] + s[p..];
    assert t[..p] == s[..p];
    if v in s[..p] {
      var k := FirstIndexOf(s, v);
      FirstIndexBefore(s, v, p);
      assert t[..k] == s[..k];
      FirstIndexOfAt(t, v, k);
    } else {
      FirstIndexOfAt(t, v, p);
    }
  }

  /** A value occurring in `s[..p]` first occurs before `p`. */
  lemma FirstIndexBefore(s: seq<int>, x: int, p: int)
    requires 0 <= p <= |s| && x in s[..p]
    ensures 0 <= FirstIndexOf(s, x) < p
  {
    var i :| 0 <= i < p && s[..p][i] == x;
    assert s[i] == x;
  }

  /** On a list with room, insertAfterValue followed by deleteAfterValue
      with the same target restores the payloads. */
  lemma InsertAfterThenDeleteAfter(l: List, v: int, target: int)
    requires Valid(l) && |Elements(l)| < CAPACITY && target in Elements(l)
    ensures var r1 := InsertAfterValue(l, v, target, false);
      && r1.1
      && var r2 := DeleteAfterValue(r1.0, target);
      && r2.1 && Elements(r2.0) == Elements(l)
  {
    var s := Elements(l);
    var k := FirstIndexOf(s, target);
    assert Elements(InsertAfterValue(l, v, target, false).0) == s[..k + 1] + [v] + s[k + 1..];
    TargetKept(s, k, v, target);
  }

  /** Inserting right after the first occurrence of `target` leaves that
      occurrence first, and removing the payload after it undoes the
      insertion. */
  lemma TargetKept(s: seq<int>, k: int, v: int, target: int)
    requires target in s && k == FirstIndexOf(s, target)
    ensures var t := s[..k + 1] + [v] + s[k + 1..];
      FirstIndexOf(t, target) == k && t[..k + 1] + t[k + 2..] == s
  {
    var t := s[..k + 1] + [v] + s[k + 1..];
    assert t[..k] == s[..k] && t[k] == target;
    FirstIndexOfAt(t, target, k);
    RemoveInserted(s, k + 1, v);
  }

  /** On a list with room, insertBeforeValue followed by deleteBeforeValue
      with the same target restores the payloads, provided the inserted
      payload is not the target itself (otherwise the second call finds the
      inserted payload first). */
  lemma InsertBeforeThenDeleteBefore(l: List, v: int, target: int)
    requires Valid(l) && |Elements(l)| < CAPACITY && target in Elements(l)
    requires v != target
    ensures var r1 := InsertBeforeValue(l, v, target, false);
      && r1.1
      && var r2 := DeleteBeforeValue(r1.0, target);
      && r2.1 && Elements(r2.0) == Elements(l)
  {
    var s := Elements(l);
    var k := FirstIndexOf(s, target);
    assert Elements(InsertBeforeValue(l, v, target, false).0) == s[..k] + [v] + s[k..];
    TargetShifted(s, k, v, target);
  }

  /** Inserting a payload other than `target` just before its first
      occurrence moves that occurrence one place on. */
  lemma TargetShifted(s: seq<int>, k: int, v: int, target: int)
    requires target in s && k == FirstIndexOf(s, target) && v != target
    ensures var t := s[..k] + [v] + s[k..];
      FirstIndexOf(t, target) == k + 1 && t[..k] + t[k + 1..] == s
  {
    var t := s[..k] + [v] + s[k..];
    assert t[..k + 1] == s[..k] + [v];
    assert target !in t[..k + 1];
    FirstIndexOfAt(t, target, k + 1);
    RemoveInserted(s, k, v);
  }

  /** deleteValue removes exactly one copy of `x` from the payloads. */
  lemma DeleteValueRemovesOne(l: List, x: int)
    requires Valid(l)
    ensures multiset(Elements(DeleteValue(l, x).0)) ==
      if x in Elements(l) then multiset(Elements(l)) - multiset{x} else multiset(Elements(l))
  {
    var s := Elements(l);
    var r := DeleteValue(l, x).0;
    if x in s {
      var k := FirstIndexOf(s, x);
      assert Elements(r) == s[..k] + s[k + 1..];
      MultisetRemoved(s, k);
    }
  }

  /** Removing position `k` removes one copy of `s[k]` from the multiset. */
  lemma MultisetRemoved(s: seq<int>, k: int)
    requires 0 <= k < |s|
    ensures multiset(s[..k] + s[k + 1..]) == multiset(s) - multiset{s[k]}
  {
    assert s == s[..k] + [s[k]] + s[k + 1..];
    assert multiset(s) == multiset(s[..k]) + multiset{s[k]} + multiset(s[k + 1..]);
  }

  /** Each value-keyed delete that succeeds hands exactly one slot back to
      the free chain. */
  lemma ValueDeletesReleaseOneSlot(l: List, x: int)
    requires Valid(l)
    ensures DeleteValue(l, x).1 ==> |Free(DeleteValue(l, x).0)| == |Free(l)| + 1
    ensures DeleteAfterValue(l, x).1 ==> |Free(DeleteAfterValue(l, x).0)| == |Free(l)| + 1
    ensures DeleteBeforeValue(l, x).1 ==> |Free(DeleteBeforeValue(l, x).0)| == |Free(l)| + 1
  {
  }

  /** The sort's payloads are the one sorted arrangement of the list's
      payloads: any sorted sequence with the same payloads equals them. */
  lemma SortIsUnique(l: List, t: seq<int>)
    requires Valid(l) && Sorted(t) && multiset(t) == multiset(Elements(l))
    ensures Elements(Sort(l)) == t
  {
    SortedPermutationUnique(Elements(Sort(l)), t);
  }

  /** Sorting a sorted list changes nothing: not the payloads, and not the
      slots they sit in. */
  lemma SortIdempotent(l: List)
    requires Valid(l)
    ensures Elements(Sort(Sort(l))) == Elements(Sort(l))
    ensures InUse(Sort(Sort(l))) == InUse(l) && Free(Sort(Sort(l))) == Free(l)
  {
    var r := Sort(l);
    SortIsUnique(r, Elements(r));
  }
}
