/** Reference meaning of the list operations on plain payload sequences:
    where a value first occurs, what "sorted" means, and what one bubble
    pass of the list's sort does to the payloads in chain order. */
module ListSpec {

  /** Position of the first occurrence of `x` in `s`, or -1 (the source's
      NULL_INDEX) when there is none. */
  function FirstIndexOf(s: seq<int>, x: int): (k: int)
    ensures k == -1 <==> x !in s
    ensures k != -1 ==> 0 <= k < |s| && s[k] == x && x !in s[..k]
    decreases |s|
  {
    if |s| == 0 then -1
    else if s[0] == x then 0
    else
      var k := FirstIndexOf(s[1..], x);
      if k == -1 then -1 else k + 1
  }

  /** A position holding `x` with no `x` before it is the first occurrence. */
  lemma FirstIndexOfAt(s: seq<int>, x: int, k: int)
    requires 0 <= k < |s| && s[k] == x && x !in s[..k]
    ensures FirstIndexOf(s, x) == k
  {
  }

  /** Extending a prefix that does not hold `x` by an element other than `x`. */
  lemma PrefixWithout(s: seq<int>, x: int, k: int)
    requires 0 <= k < |s| && s[k] != x && x !in s[..k]
    ensures x !in s[..k + 1]
  {
    assert s[..k + 1] == s[..k] + [s[k]];
  }

  predicate Sorted(s: seq<int>) {
    forall i, j :: 0 <= i < j < |s| ==> s[i] <= s[j]
  }

  /** After `m` bubble passes: the last `m` payloads are in order and none of
      them is smaller than any payload before them. */
  predicate Settled(s: seq<int>, m: nat)
    requires m <= |s|
  {
    var k := |s| - m;
    && (forall i, j :: k <= i < j < |s| ==> s[i] <= s[j])
    && (forall i, j :: 0 <= i < k <= j < |s| ==> s[i] <= s[j])
  }

  /** One bubble pass from position `j` on: each payload is compared with the
      next one and the two are exchanged only when the first is strictly
      greater (ArrayBasedList.h:413-421). */
  function BubbleFrom(s: seq<int>, j: nat): (r: seq<int>)
    requires j < |s|
    ensures |r| == |s|
    ensures multiset(r) == multiset(s)
    ensures r[..j] == s[..j]
    decreases |s| - j
  {
    if j == |s| - 1 then s
    else
      var t := if s[j] > s[j + 1] then Exchange(s, j) else s;
      var r := BubbleFrom(t, j + 1);
      ShorterPrefix(r, t, j);
      r
  }

  lemma ShorterPrefix(a: seq<int>, b: seq<int>, j: nat)
    requires j < |a| && j < |b| && a[..j + 1] == b[..j + 1]
    ensures a[..j] == b[..j]
  {
    assert a[..j] == a[..j + 1][..j];
    assert b[..j] == b[..j + 1][..j];
  }

  /** `s` with the payloads at `j` and `j + 1` exchanged. */
  function Exchange(s: seq<int>, j: nat): (t: seq<int>)
    requires j + 1 < |s|
    ensures |t| == |s| && t[j] == s[j + 1] && t[j + 1] == s[j]
    ensures forall i :: 0 <= i < |s| && i != j && i != j + 1 ==> t[i] == s[i]
    ensures t[..j] == s[..j]
    ensures multiset(t) == multiset(s)
  {
    var t := s[..j] + [s[j + 1], s[j]] + s[j + 2..];
    assert s == s[..j] + [s[j], s[j + 1]] + s[j + 2..];
    assert t[..j] == s[..j];
    t
  }

  /** A pass over an already ordered stretch exchanges nothing. */
  lemma {:induction false} NoExchangeWhenOrdered(s: seq<int>, j: nat)
    requires j < |s|
    requires forall a, b :: j <= a < b < |s| ==> s[a] <= s[b]
    ensures BubbleFrom(s, j) == s
    decreases |s| - j
  {
    if j < |s| - 1 {
      NoExchangeWhenOrdered(s, j + 1);
    }
  }

  /** A pass carries the largest unsettled payload to the front of the
      settled suffix, settling one more position. */
  lemma {:induction false} PassSettles(s: seq<int>, j: nat, m: nat)
    requires m < |s| && j <= |s| - m - 1
    requires Settled(s, m)
    requires forall p :: 0 <= p < j ==> s[p] <= s[j]
    ensures Settled(BubbleFrom(s, j), m + 1)
    decreases |s| - j
  {
    var k := |s| - m;
    if j == k - 1 {
      assert Settled(s, m + 1);
      NoExchangeWhenOrdered(s, j);
    } else if s[j] > s[j + 1] {
      var t := Exchange(s, j);
      assert Settled(t, m);
      PassSettles(t, j + 1, m);
    } else {
      PassSettles(s, j + 1, m);
    }
  }

  lemma SettledIsSorted(s: seq<int>)
    requires |s| > 0 && Settled(s, |s| - 1)
    ensures Sorted(s)
  {
  }

  /** Two sorted sequences holding the same payloads are equal. */
  lemma {:induction false} SortedPermutationUnique(a: seq<int>, b: seq<int>)
    requires Sorted(a) && Sorted(b)
    requires multiset(a) == multiset(b)
    ensures a == b
    decreases |a|
  {
    assert |a| == |multiset(a)| == |multiset(b)| == |b|;
    if |a| > 0 {
      SameLeast(a, b);
      SplitHead(a);
      SplitHead(b);
      SortedPermutationUnique(a[1..], b[1..]);
      SameHeadSameTail(a, b);
    }
  }

  /** Sorted sequences with the same payloads start with the same one. */
  lemma SameLeast(a: seq<int>, b: seq<int>)
    requires |a| > 0 && |b| > 0 && Sorted(a) && Sorted(b)
    requires multiset(a) == multiset(b)
    ensures a[0] == b[0]
  {
    assert a[0] in multiset(b) && b[0] in multiset(a);
    SortedHeadIsLeast(b, a[0]);
    SortedHeadIsLeast(a, b[0]);
  }

  lemma SameHeadSameTail(a: seq<int>, b: seq<int>)
    requires |a| > 0 && |b| > 0 && a[0] == b[0] && a[1..] == b[1..]
    ensures a == b
  {
    assert a == [a[0]] + a[1..];
    assert b == [b[0]] + b[1..];
  }

  /** A non-empty sorted sequence is its head followed by a sorted tail
      holding the remaining payloads. */
  lemma SplitHead(s: seq<int>)
    requires |s| > 0 && Sorted(s)
    ensures s[0] in s && Sorted(s[1..])
    ensures multiset(s[1..]) == multiset(s) - multiset{s[0]}
  {
    assert s == [s[0]] + s[1..];
  }

  lemma SortedHeadIsLeast(s: seq<int>, x: int)
    requires Sorted(s) && x in s
    ensures s[0] <= x
  {
  }
}
