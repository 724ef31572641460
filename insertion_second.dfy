/**
 * The second pair of insertion sorts: one that stops moving an element as
 * soon as its left neighbour is no larger, and one that compares every
 * neighbouring pair of the prefix on each pass.
 */
module InsertionSecond {
  import opened Sorting

  /** sort_inplace: insertion with early stop; stable, sorted, a permutation. */
  method SortInplace<T>(values: array<T>, key: T -> int)
    modifies values
    ensures Sorted(values[..], key) && SameOrder(values[..], old(values[..]), key)
    ensures multiset(values[..]) == multiset(old(values[..]))
  {
    var i := 1;
    while i < values.Length
      invariant 1 <= i
      invariant SortedPrefix(values[..], i, key) && SameOrder(values[..], old(values[..]), key)
    {
      InsertStart(values[..], i, key);
      var j := i;
      while j > 0 && key(values[j - 1]) > key(values[j])
        invariant j <= i && Inserting(values[..], i + 1, j, key)
        invariant SameOrder(values[..], old(values[..]), key)
      {
        ghost var s := values[..];
        InsertSwap(s, i + 1, j, key);
        SwapSameOrder(s, j, key);
        values[j - 1], values[j] := values[j], values[j - 1];
        assert values[..] == Swapped(s, j - 1, j);
        j := j - 1;
      }
      InsertDone(values[..], i + 1, j, key);
      i := i + 1;
    }
    SameOrderPermutes(values[..], old(values[..]), key);
  }

  /**
   * sort_inplace2: the inner loop visits every j from i down to 1 and
   * exchanges out-of-order neighbours; once the new element has settled the
   * remaining comparisons find sorted pairs.
   */
  method SortInplace2<T>(values: array<T>, key: T -> int)
    modifies values
    ensures Sorted(values[..], key) && SameOrder(values[..], old(values[..]), key)
    ensures multiset(values[..]) == multiset(old(values[..]))
  {
    var i := 1;
    while i < values.Length
      invariant 1 <= i
      invariant SortedPrefix(values[..], i, key) && SameOrder(values[..], old(values[..]), key)
    {
      InsertStart(values[..], i, key);
      for j := i + 1 downto 1
        invariant Inserting(values[..], i + 1, j - 1, key)
        invariant SameOrder(values[..], old(values[..]), key)
      {
        ghost var s := values[..];
        if key(values[j - 1]) > key(values[j]) {
          InsertSwap(s, i + 1, j, key);
          SwapSameOrder(s, j, key);
          values[j - 1], values[j] := values[j], values[j - 1];
          assert values[..] == Swapped(s, j - 1, j);
        } else {
          InsertPass(s, i + 1, j, key);
        }
      }
      InsertDone(values[..], i + 1, 0, key);
      i := i + 1;
    }
    SameOrderPermutes(values[..], old(values[..]), key);
  }
}
