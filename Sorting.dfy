/**
 * The two `qsort` calls of the builders (nodes by non-increasing degree, each
 * neighbour segment ascending) are modelled by one in-place sort of an array
 * segment by an integer key. The C comparators never answer "equal", so the
 * order among equal keys is unspecified there; here it is whatever this
 * selection sort produces, and callers rely only on "sorted permutation".
 */
module Sorting {

  /** s is in non-decreasing order of key. */
  ghost predicate SortedBy<T>(s: seq<T>, key: T -> int)
  {
    forall i, j :: 0 <= i < j < |s| ==> key(s[i]) <= key(s[j])
  }

  /** Position of a smallest key in a[i..hi). */
  method MinFrom<T>(a: array<T>, i: nat, hi: nat, key: T -> int) returns (m: nat)
    requires i < hi <= a.Length
    ensures i <= m < hi
    ensures forall j :: i <= j < hi ==> key(a[m]) <= key(a[j])
  {
    m := i;
    var j := i + 1;
    while j < hi
      invariant i <= m < j <= hi
      invariant forall x :: i <= x < j ==> key(a[m]) <= key(a[x])
    {
      if key(a[j]) < key(a[m]) {
        m := j;
      }
      j := j + 1;
    }
  }

  /** Sorts a[lo..hi) by key, in place, and touches nothing outside it. */
  method SortSegment<T>(a: array<T>, lo: nat, hi: nat, key: T -> int)
    requires lo <= hi <= a.Length
    modifies a
    ensures SortedBy(a[lo..hi], key)
    ensures multiset(a[lo..hi]) == multiset(old(a[lo..hi]))
    ensures forall j :: 0 <= j < a.Length && !(lo <= j < hi) ==> a[j] == old(a[j])
  {
    var i := lo;
    while i < hi
      invariant lo <= i <= hi
      invariant forall x, y :: lo <= x < y < i ==> key(a[x]) <= key(a[y])
      invariant forall x, y :: lo <= x < i <= y < hi ==> key(a[x]) <= key(a[y])
      invariant multiset(a[lo..hi]) == multiset(old(a[lo..hi]))
      invariant forall j :: 0 <= j < a.Length && !(lo <= j < hi) ==> a[j] == old(a[j])
    {
      var m := MinFrom(a, i, hi, key);
      Swap(a, lo, hi, i, m);
      i := i + 1;
    }
  }

  /** Exchanges a[i] and a[m] inside the segment a[lo..hi). */
  method Swap<T>(a: array<T>, lo: nat, hi: nat, i: nat, m: nat)
    requires lo <= i <= m < hi <= a.Length
    modifies a
    ensures a[i] == old(a[m]) && a[m] == old(a[i])
    ensures forall j :: 0 <= j < a.Length && j != i && j != m ==> a[j] == old(a[j])
    ensures multiset(a[lo..hi]) == multiset(old(a[lo..hi]))
  {
    ghost var before := a[lo..hi];
    a[i], a[m] := a[m], a[i];
    assert a[lo..hi] == before[i - lo := before[m - lo]][m - lo := before[i - lo]];
  }
}
