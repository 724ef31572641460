/**
 * In-place insertion sort: each element is moved left by exchanges with
 * strictly larger neighbours.  The two variants that perform the exchange
 * through raw pointers perform the same exchanges and are modelled by this
 * method.
 */
module Insertion {
  import opened Sorting

  /** Sorts `values` in place; only strictly out-of-order neighbours are exchanged, so the sort is stable. */
  method Sort<T>(values: array<T>, key: T -> int)
    modifies values
    ensures Sorted(values[..], key) && SameOrder(values[..], old(values[..]), key)
    ensures multiset(values[..]) == multiset(old(values[..]))
  {
    var n := values.Length;
    var i := 1;
    while i < n
      invariant 1 <= i
      invariant SortedPrefix(values[..], i, key) && SameOrder(values[..], old(values[..]), key)
    {
      InsertStart(values[..], i, key);
      var k := i;
      while k > 0 && key(values[k]) < key(values[k - 1])
        invariant k <= i && Inserting(values[..], i + 1, k, key)
        invariant SameOrder(values[..], old(values[..]), key)
      {
        ghost var s := values[..];
        InsertSwap(s, i + 1, k, key);
        SwapSameOrder(s, k, key);
        values[k], values[k - 1] := values[k - 1], values[k];
        assert values[..] == Swapped(s, k - 1, k);
        k := k - 1;
      }
      InsertDone(values[..], i + 1, k, key);
      i := i + 1;
    }
    SameOrderPermutes(values[..], old(values[..]), key);
  }
}
