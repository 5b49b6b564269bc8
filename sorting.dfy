/** The `std::sort` call that `median` applies to its private copy of the
    input: an ascending sort in place, here by insertion with adjacent swaps. */
module Sorting {

  predicate Sorted(s: seq<real>) {
    forall i, j :: 0 <= i < j < |s| ==> s[i] <= s[j]
  }

  /** `t` is `s` rearranged into ascending order. */
  ghost predicate SortedPermutationOf(t: seq<real>, s: seq<real>) {
    Sorted(t) && multiset(t) == multiset(s)
  }

  method Swap(a: array<real>, i: int, j: int)
    requires 0 <= i < a.Length && 0 <= j < a.Length
    modifies a
    ensures a[i] == old(a[j]) && a[j] == old(a[i])
    ensures forall k :: 0 <= k < a.Length && k != i && k != j ==> a[k] == old(a[k])
    ensures multiset(a[..]) == old(multiset(a[..]))
  {
    a[i], a[j] := a[j], a[i];
  }

  /** Moves `a[i]` left into place within the sorted prefix `a[..i]`. */
  method InsertIntoSortedPrefix(a: array<real>, i: int)
    requires 0 <= i < a.Length && Sorted(a[..i])
    modifies a
    ensures Sorted(a[..i + 1])
    ensures a[i + 1..] == old(a[i + 1..])
    ensures multiset(a[..]) == old(multiset(a[..]))
  {
    var j := i;
    while j > 0 && a[j - 1] > a[j]
      invariant 0 <= j <= i
      invariant forall p, q :: 0 <= p < q <= i && p != j && q != j ==> a[p] <= a[q]
      invariant forall q :: j < q <= i ==> a[j] <= a[q]
      invariant a[i + 1..] == old(a[i + 1..])
      invariant multiset(a[..]) == old(multiset(a[..]))
    {
      Swap(a, j - 1, j);
      j := j - 1;
    }
  }

  /** Ascending sort in place: the result is sorted and holds the same values. */
  method SortAscending(a: array<real>)
    modifies a
    ensures Sorted(a[..])
    ensures multiset(a[..]) == old(multiset(a[..]))
  {
    var i := 0;
    while i < a.Length
      invariant 0 <= i <= a.Length
      invariant Sorted(a[..i])
      invariant multiset(a[..]) == old(multiset(a[..]))
    {
      InsertIntoSortedPrefix(a, i);
      i := i + 1;
    }
    assert a[..i] == a[..];
  }

  /** A sorted sequence's first element is no larger than anything in it. */
  lemma SortedHeadIsLeast(t: seq<real>, x: real)
    requires Sorted(t) && x in t
    ensures t[0] <= x
  {
    var k :| 0 <= k < |t| && t[k] == x;
    if k > 0 {
      assert t[0] <= t[k];
    }
  }

  /** There is only one way to sort a multiset: sorted rearrangements of the
      same values are equal. */
  lemma {:induction false} SortedPermutationUnique(t1: seq<real>, t2: seq<real>)
    requires Sorted(t1) && Sorted(t2) && multiset(t1) == multiset(t2)
    ensures t1 == t2
    decreases |t1|
  {
    assert |t1| == |multiset(t1)| == |multiset(t2)| == |t2|;
    if |t1| > 0 {
      assert t1[0] in multiset(t2);
      SortedHeadIsLeast(t2, t1[0]);
      assert t2[0] in multiset(t1);
      SortedHeadIsLeast(t1, t2[0]);
      assert t1 == [t1[0]] + t1[1..];
      assert t2 == [t2[0]] + t2[1..];
      assert t1[0] == t2[0];
      assert multiset(t1[1..]) == multiset(t1) - multiset{t1[0]};
      assert multiset(t2[1..]) == multiset(t2) - multiset{t2[0]};
      SortedPermutationUnique(t1[1..], t2[1..]);
    }
  }
}
