/**
 * The second quicksort: the pivot is an index into the slice; a cursor i
 * walks the slice and every element on the wrong side of the pivot is
 * exchanged across it, the pivot moving one place towards it each time.
 * The random choice of pivot is a parameter: `draw(lo, hi)` is the number
 * drawn for the slice values[lo..hi].
 */
module QuickSecond {
  import opened Sorting

  /** get_pivot_idx: a drawn index into a slice of n_values elements. */
  function GetPivotIdx(nValues: nat, draw: nat): (idx: nat)
    requires nValues > 0
    ensures idx < nValues
  {
    draw % nValues
  }

  /**
   * The state of the loop of sort_inplace, with pk the key of the pivot
   * element and top the pivot's starting index: the pivot sits at p,
   * looked-at elements before it are no larger, and every element after it
   * that was either looked at or pushed past it is no smaller.
   */
  ghost predicate Parting<T>(s: seq<T>, lo: nat, hi: nat, i: nat, p: nat, top: nat, pk: int, key: T -> int)
  {
    lo <= p < hi <= |s| && lo <= i <= hi && top < hi && key(s[p]) == pk &&
    AtMost(s, lo, if i < p then i else p, pk, key) &&
    AtLeast(s, p + 1, if i < top + 1 then top + 1 else i, pk, key)
  }

  /** sort_inplace on the slice values[lo..hi]; the rest of the array is left alone. */
  method SortInplace<T>(values: array<T>, lo: nat, hi: nat, key: T -> int, draw: (nat, nat) -> nat)
    requires lo <= hi <= values.Length
    modifies values
    ensures Rearranged(values[..], old(values[..]), lo, hi)
    ensures Sorted(values[lo..hi], key)
    decreases hi - lo
  {
    if hi - lo < 2 {
      RearrangedRefl(values[..], lo, hi);
      return;
    }
    var pivot := Partition(values, lo, hi, lo + GetPivotIdx(hi - lo, draw(lo, hi)), key);
    ghost var parted := values[..];
    SortInplace(values, lo, pivot, key, draw);
    ghost var leftDone := values[..];
    SortInplace(values, pivot + 1, hi, key, draw);
    Reassemble(old(values[..]), parted, leftDone, values[..], lo, pivot, hi, key);
  }

  /**
   * The loop of sort_inplace: on return the pivot element sits at the
   * returned index with no larger key before it and no smaller key after it.
   */
  method Partition<T>(values: array<T>, lo: nat, hi: nat, start: nat, key: T -> int) returns (pivot: nat)
    requires lo <= start < hi <= values.Length
    modifies values
    ensures lo <= pivot < hi && key(values[pivot]) == key(old(values[start]))
    ensures Rearranged(values[..], old(values[..]), lo, hi)
    ensures AtMost(values[..], lo, pivot, key(values[pivot]), key)
    ensures AtLeast(values[..], pivot + 1, hi, key(values[pivot]), key)
  {
    ghost var pk := key(values[start]);
    pivot := start;
    var i := lo;
    RearrangedRefl(values[..], lo, hi);
    while i < hi
      invariant Parting(values[..], lo, hi, i, pivot, start, pk, key)
      invariant Rearranged(values[..], old(values[..]), lo, hi)
      decreases hi - i, if pivot < i then i - pivot else pivot - i
    {
      ghost var before := values[..];
      i, pivot := Step(values, lo, hi, i, pivot, start, pk, key);
      RearrangedTrans(values[..], before, old(values[..]), lo, hi);
    }
  }

  /** One turn of the loop of sort_inplace. */
  method Step<T>(values: array<T>, lo: nat, hi: nat, i: nat, pivot: nat, ghost top: nat, ghost pk: int, key: T -> int)
    returns (i': nat, pivot': nat)
    requires i < hi && Parting(values[..], lo, hi, i, pivot, top, pk, key)
    modifies values
    ensures Parting(values[..], lo, hi, i', pivot', top, pk, key)
    ensures Rearranged(values[..], old(values[..]), lo, hi)
    ensures hi - i' < hi - i || (i' == i && Gap(i', pivot') < Gap(i, pivot))
  {
    if i == pivot {
      i', pivot' := i + 1, pivot;
      PassPivot(values[..], lo, hi, i, pivot, top, pk, key);
      RearrangedRefl(values[..], lo, hi);
    } else if i < pivot {
      i', pivot' := StepBefore(values, lo, hi, i, pivot, top, pk, key);
    } else {
      i', pivot' := StepAfter(values, lo, hi, i, pivot, top, pk, key);
    }
  }

  /**
   * A turn with the cursor before the pivot: a larger element is exchanged
   * past the pivot, which moves one place left; otherwise the cursor advances.
   */
  method StepBefore<T>(values: array<T>, lo: nat, hi: nat, i: nat, pivot: nat, ghost top: nat, ghost pk: int, key: T -> int)
    returns (i': nat, pivot': nat)
    requires i < pivot && Parting(values[..], lo, hi, i, pivot, top, pk, key)
    modifies values
    ensures Parting(values[..], lo, hi, i', pivot', top, pk, key)
    ensures Rearranged(values[..], old(values[..]), lo, hi)
    ensures (i' == i + 1 && pivot' == pivot) || (i' == i && pivot' == pivot - 1)
  {
    i', pivot' := i, pivot;
    if key(values[i]) > key(values[pivot]) {
      MoveLarger(values, lo, hi, i, pivot, top, pk, key);
      pivot' := pivot - 1;
    } else {
      i' := i + 1;
      KeepBefore(values[..], lo, hi, i, pivot, top, pk, key);
      RearrangedRefl(values[..], lo, hi);
    }
  }

  /**
   * The exchanges of a larger element before the pivot: the pivot moves one
   * place left and the element lands right after it.
   */
  method MoveLarger<T>(values: array<T>, lo: nat, hi: nat, i: nat, pivot: nat, ghost top: nat, ghost pk: int, key: T -> int)
    requires i < pivot && Parting(values[..], lo, hi, i, pivot, top, pk, key) && key(values[i]) > pk
    modifies values
    ensures Parting(values[..], lo, hi, i, pivot - 1, top, pk, key)
    ensures Rearranged(values[..], old(values[..]), lo, hi)
  {
    ghost var s := values[..];
    RearrangedRefl(s, lo, hi);
    Swap(values, pivot, pivot - 1);
    ghost var s1 := values[..];
    SwapRearranges(s, s, lo, hi, pivot, pivot - 1);
    if i < pivot - 1 {
      Swap(values, pivot, i);
      SwapRearranges(s1, s, lo, hi, pivot, i);
      LargerFar(s, lo, hi, i, pivot, top, pk, key);
    } else {
      LargerNext(s, lo, hi, i, pivot, top, pk, key);
    }
  }

  /**
   * A turn with the cursor after the pivot: a smaller element is exchanged
   * past the pivot, which moves one place right; otherwise the cursor advances.
   */
  method StepAfter<T>(values: array<T>, lo: nat, hi: nat, i: nat, pivot: nat, ghost top: nat, ghost pk: int, key: T -> int)
    returns (i': nat, pivot': nat)
    requires pivot < i < hi && Parting(values[..], lo, hi, i, pivot, top, pk, key)
    modifies values
    ensures Parting(values[..], lo, hi, i', pivot', top, pk, key)
    ensures Rearranged(values[..], old(values[..]), lo, hi)
    ensures (i' == i + 1 && (pivot' == pivot || pivot' == pivot + 1)) || (i' == i && pivot' == pivot + 1 == i)
  {
    ghost var s := values[..];
    i', pivot' := i, pivot;
    if key(values[i]) < key(values[pivot]) {
      RearrangedRefl(s, lo, hi);
      Swap(values, pivot, pivot + 1);
      ghost var s1 := values[..];
      SwapRearranges(s, s, lo, hi, pivot, pivot + 1);
      if i > pivot + 1 {
        Swap(values, pivot, i);
        SwapRearranges(s1, s, lo, hi, pivot, i);
        SmallerFar(s, lo, hi, i, pivot, top, pk, key);
        i' := i + 1;
      } else {
        SmallerNext(s, lo, hi, i, pivot, top, pk, key);
      }
      pivot' := pivot + 1;
    } else {
      i' := i + 1;
      KeepAfter(s, lo, hi, i, pivot, top, pk, key);
      RearrangedRefl(s, lo, hi);
    }
  }

  /** The distance between the cursor and the pivot. */
  function Gap(i: nat, p: nat): nat
  {
    if p < i then i - p else p - i
  }

  /** The cursor steps over the pivot. */
  lemma PassPivot<T>(s: seq<T>, lo: nat, hi: nat, i: nat, p: nat, top: nat, pk: int, key: T -> int)
    requires Parting(s, lo, hi, i, p, top, pk, key) && i == p
    ensures Parting(s, lo, hi, i + 1, p, top, pk, key)
  {
  }

  /** A larger element two or more places before the pivot is exchanged past it. */
  lemma LargerFar<T>(s: seq<T>, lo: nat, hi: nat, i: nat, p: nat, top: nat, pk: int, key: T -> int)
    requires Parting(s, lo, hi, i, p, top, pk, key) && i + 1 < p && key(s[i]) > pk
    ensures Parting(Swapped(Swapped(s, p, p - 1), p, i), lo, hi, i, p - 1, top, pk, key)
  {
    var t := Swapped(Swapped(s, p, p - 1), p, i);
    assert t[p - 1] == s[p] && t[p] == s[i] && t[i] == s[p - 1];
  }

  /** A larger element right before the pivot trades places with it. */
  lemma LargerNext<T>(s: seq<T>, lo: nat, hi: nat, i: nat, p: nat, top: nat, pk: int, key: T -> int)
    requires Parting(s, lo, hi, i, p, top, pk, key) && i + 1 == p && key(s[i]) > pk
    ensures Parting(Swapped(s, p, p - 1), lo, hi, i, p - 1, top, pk, key)
  {
  }

  /** A smaller element two or more places after the pivot is exchanged past it. */
  lemma SmallerFar<T>(s: seq<T>, lo: nat, hi: nat, i: nat, p: nat, top: nat, pk: int, key: T -> int)
    requires Parting(s, lo, hi, i, p, top, pk, key) && p + 1 < i < hi && key(s[i]) < pk
    ensures Parting(Swapped(Swapped(s, p, p + 1), p, i), lo, hi, i + 1, p + 1, top, pk, key)
  {
    var t := Swapped(Swapped(s, p, p + 1), p, i);
    assert t[p + 1] == s[p] && t[p] == s[i] && t[i] == s[p + 1];
    assert pk <= key(s[p + 1]);
  }

  /** A smaller element right after the pivot trades places with it. */
  lemma SmallerNext<T>(s: seq<T>, lo: nat, hi: nat, i: nat, p: nat, top: nat, pk: int, key: T -> int)
    requires Parting(s, lo, hi, i, p, top, pk, key) && p + 1 == i < hi && key(s[i]) < pk
    ensures Parting(Swapped(s, p, p + 1), lo, hi, i, p + 1, top, pk, key)
  {
  }

  /** An element before the pivot that is no larger stays. */
  lemma KeepBefore<T>(s: seq<T>, lo: nat, hi: nat, i: nat, p: nat, top: nat, pk: int, key: T -> int)
    requires Parting(s, lo, hi, i, p, top, pk, key) && i < p && key(s[i]) <= pk
    ensures Parting(s, lo, hi, i + 1, p, top, pk, key)
  {
  }

  /** An element after the pivot that is no smaller stays. */
  lemma KeepAfter<T>(s: seq<T>, lo: nat, hi: nat, i: nat, p: nat, top: nat, pk: int, key: T -> int)
    requires Parting(s, lo, hi, i, p, top, pk, key) && p < i < hi && pk <= key(s[i])
    ensures Parting(s, lo, hi, i + 1, p, top, pk, key)
  {
  }
}
