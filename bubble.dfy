/**
 * Bubble sort by suffix minima: pass i carries the smallest remaining
 * element down to position i, and a pass without an exchange ends the sort.
 */
module Bubble {
  import opened Sorting

  /** Each of the first i positions holds a key no larger than any later one. */
  ghost predicate SettledBefore<T>(s: seq<T>, i: nat, key: T -> int)
  {
    forall p, q :: 0 <= p < i && p < q < |s| ==> key(s[p]) <= key(s[q])
  }

  /** Position j holds a smallest key of s[j..]. */
  ghost predicate MinFrom<T>(s: seq<T>, j: nat, key: T -> int)
    requires j < |s|
  {
    forall q :: j <= q < |s| ==> key(s[j]) <= key(s[q])
  }

  /** Everything from position j on is sorted. */
  ghost predicate SortedFrom<T>(s: seq<T>, j: nat, key: T -> int)
  {
    forall p, q :: j <= p < q < |s| ==> key(s[p]) <= key(s[q])
  }

  /** Exchanging an out-of-order pair at j - 1, j carries the suffix minimum to j - 1. */
  lemma BubbleSwap<T>(s: seq<T>, i: nat, j: nat, key: T -> int)
    requires i < j < |s| && SettledBefore(s, i, key) && MinFrom(s, j, key) && key(s[j]) < key(s[j - 1])
    ensures SettledBefore(Swapped(s, j - 1, j), i, key) && MinFrom(Swapped(s, j - 1, j), j - 1, key)
  {
    var t := Swapped(s, j - 1, j);
    forall p, q | 0 <= p < i && p < q < |t|
      ensures key(t[p]) <= key(t[q])
    {
      if q == j - 1 {
        assert key(s[p]) <= key(s[j]);
      } else if q == j {
        assert key(s[p]) <= key(s[j - 1]);
      }
    }
  }

  /** An in-order pair at j - 1, j extends the suffix minimum and the sorted suffix to j - 1. */
  lemma BubbleKeep<T>(s: seq<T>, j: nat, key: T -> int)
    requires 0 < j < |s| && MinFrom(s, j, key) && key(s[j - 1]) <= key(s[j])
    ensures MinFrom(s, j - 1, key)
    ensures SortedFrom(s, j, key) ==> SortedFrom(s, j - 1, key)
  {
  }

  /**
   * The inner pass of bubble::sort has walked down to position j within
   * pass i: the first i positions are settled, s is a stable rearrangement
   * of s0, position j - 1 holds the smallest key from there on, and if
   * nothing was exchanged yet the suffix from j - 1 is sorted.
   */
  ghost predicate Bubbling<T>(s: seq<T>, s0: seq<T>, i: nat, j: nat, swapped: bool, key: T -> int)
  {
    i < j <= |s| && SettledBefore(s, i, key) && SameOrder(s, s0, key) &&
    MinFrom(s, j - 1, key) && (!swapped ==> SortedFrom(s, j - 1, key))
  }

  /** One comparison of the inner pass at j - 1, j, exchanging the pair when out of order. */
  method BubbleStep<T>(values: array<T>, i: nat, j: nat, swapped: bool, key: T -> int, ghost s0: seq<T>)
    returns (swapped': bool)
    requires i < j < values.Length && Bubbling(values[..], s0, i, j + 1, swapped, key)
    modifies values
    ensures Bubbling(values[..], s0, i, j, swapped', key)
  {
    ghost var s := values[..];
    if key(values[j]) < key(values[j - 1]) {
      BubbleSwap(s, i, j, key);
      SwapSameOrder(s, j, key);
      Swap(values, j - 1, j);
      SameOrderTrans(values[..], s, s0, key);
      swapped' := true;
    } else {
      BubbleKeep(s, j, key);
      swapped' := swapped;
    }
  }

  /** A finished pass settles one more position, and a pass without exchanges leaves s sorted. */
  lemma PassEnd<T>(s: seq<T>, s0: seq<T>, i: nat, swapped: bool, key: T -> int)
    requires Bubbling(s, s0, i, i + 1, swapped, key)
    ensures SettledBefore(s, i + 1, key)
    ensures !swapped ==> Sorted(s, key)
  {
  }

  /** bubble::sort: sorted, stable and a permutation; the empty slice is refused, as `n - 1` underflows. */
  method Sort<T>(values: array<T>, key: T -> int)
    requires values.Length > 0
    modifies values
    ensures Sorted(values[..], key) && SameOrder(values[..], old(values[..]), key)
    ensures multiset(values[..]) == multiset(old(values[..]))
  {
    var n := values.Length;
    var swapped: bool;
    ghost var s0 := values[..];
    for i := 0 to n - 1
      invariant SettledBefore(values[..], i, key) && SameOrder(values[..], s0, key)
    {
      swapped := false;
      for j := n downto i + 1
        invariant Bubbling(values[..], s0, i, j, swapped, key)
      {
        swapped := BubbleStep(values, i, j, swapped, key, s0);
      }
      PassEnd(values[..], s0, i, swapped, key);
      if !swapped {
        SameOrderPermutes(values[..], s0, key);
        return;
      }
    }
    SameOrderPermutes(values[..], s0, key);
  }
}
