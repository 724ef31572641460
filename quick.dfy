/**
 * The first quicksort: a pivot value is chosen, one pass over the slice
 * moves smaller elements before it and larger ones after it while keeping
 * track of where the pivot sits, and the two sides are sorted recursively.
 * The random choice of pivot is a parameter: `draw(lo, hi)` is the number
 * drawn for the slice values[lo..hi].
 */
module Quick {
  import opened Sorting

  /**
   * select_pivot: a two-element slice always uses its last element; any
   * other slice uses the element at a drawn index.
   */
  function SelectPivot<T>(values: seq<T>, draw: nat): (r: (nat, T))
    requires |values| > 0
    ensures r.0 < |values| && r.1 == values[r.0]
    ensures |values| == 2 ==> r.0 == 1
  {
    if |values| == 2 then (1, values[|values| - 1])
    else (draw % |values|, values[draw % |values|])
  }

  /**
   * The partition pass has looked at every position below i: the pivot key
   * sits at idx, the looked-at elements before idx are no larger and those
   * after it no smaller.
   */
  ghost predicate Splitting<T>(s: seq<T>, lo: nat, hi: nat, i: nat, idx: nat, pk: int, key: T -> int)
  {
    lo <= idx < hi <= |s| && lo <= i <= hi && key(s[idx]) == pk &&
    AtMost(s, lo, if i < idx then i else idx, pk, key) &&
    AtLeast(s, idx + 1, i, pk, key)
  }

  /** sort on the slice values[lo..hi]; the rest of the array is left alone. */
  method Sort<T>(values: array<T>, lo: nat, hi: nat, key: T -> int, draw: (nat, nat) -> nat)
    requires lo <= hi <= values.Length
    modifies values
    ensures Rearranged(values[..], old(values[..]), lo, hi)
    ensures Sorted(values[lo..hi], key)
    decreases hi - lo
  {
    if hi - lo < 2 {
      RearrangedRefl(values[..], lo, hi);
      return;
    }
    var choice := SelectPivot(values[lo..hi], draw(lo, hi));
    var idx := Partition(values, lo, hi, lo + choice.0, choice.1, key);
    ghost var parted := values[..];
    Sort(values, lo, idx, key, draw);
    ghost var leftDone := values[..];
    Sort(values, idx + 1, hi, key, draw);
    Reassemble(old(values[..]), parted, leftDone, values[..], lo, idx, hi, key);
  }

  /**
   * The loop of sort: every position but the pivot's is visited once, in
   * order; on return the pivot value sits at idx with no larger key before
   * it and no smaller key after it.
   */
  method Partition<T>(values: array<T>, lo: nat, hi: nat, start: nat, pivot: T, key: T -> int)
    returns (idx: nat)
    requires lo <= start < hi <= values.Length && values[start] == pivot
    modifies values
    ensures lo <= idx < hi && key(values[idx]) == key(pivot)
    ensures Rearranged(values[..], old(values[..]), lo, hi)
    ensures AtMost(values[..], lo, idx, key(pivot), key) && AtLeast(values[..], idx + 1, hi, key(pivot), key)
  {
    idx := start;
    RearrangedRefl(values[..], lo, hi);
    for i := lo to hi
      invariant Splitting(values[..], lo, hi, i, idx, key(pivot), key)
      invariant Rearranged(values[..], old(values[..]), lo, hi)
    {
      if i != idx {
        idx := Place(values, lo, hi, i, idx, pivot, key);
      } else {
        assert Splitting(values[..], lo, hi, i + 1, idx, key(pivot), key);
      }
    }
  }

  /** One visit of the loop of sort, at a position i other than the pivot's. */
  method Place<T>(values: array<T>, lo: nat, hi: nat, i: nat, idx: nat, pivot: T, key: T -> int)
    returns (idx': nat)
    requires i < hi && i != idx && Splitting(values[..], lo, hi, i, idx, key(pivot), key)
    modifies values
    ensures Splitting(values[..], lo, hi, i + 1, idx', key(pivot), key)
    ensures Rearranged(values[..], old(values[..]), lo, hi)
  {
    ghost var s := values[..];
    var pk := key(pivot);
    idx' := idx;
    var v := values[i];
    if key(v) > pk && i < idx {
      Swap(values, i, idx);
      PlaceLarger(s, lo, hi, i, idx, pk, key);
      SwapRearranges(s, s, lo, hi, i, idx);
      idx' := i;
    } else if key(v) < pk && i > idx + 1 {
      Swap(values, idx, idx + 1);
      ghost var s1 := values[..];
      Swap(values, idx, i);
      PlaceSmaller(s, lo, hi, i, idx, pk, key);
      SwapRearranges(s, s, lo, hi, idx, idx + 1);
      SwapRearranges(s1, s, lo, hi, idx, i);
      idx' := idx + 1;
    } else if key(v) < pk && i == idx + 1 {
      Swap(values, idx, i);
      PlaceSmallerNext(s, lo, hi, i, idx, pk, key);
      SwapRearranges(s, s, lo, hi, idx, i);
      idx' := i;
    } else if key(v) == pk && i > idx {
      Rotate(values, idx, i);
      PlaceEqual(s, lo, hi, i, idx, pk, key);
      RotationRearranges(s, idx, i);
      RearrangedWiden(values[..], s, idx, i + 1, lo, hi);
    } else {
      PlaceStays(s, lo, hi, i, idx, pk, key);
      RearrangedRefl(s, lo, hi);
    }
  }

  /** A larger element before the pivot trades places with it. */
  lemma PlaceLarger<T>(s: seq<T>, lo: nat, hi: nat, i: nat, idx: nat, pk: int, key: T -> int)
    requires Splitting(s, lo, hi, i, idx, pk, key) && i < idx && key(s[i]) > pk
    ensures Splitting(Swapped(s, i, idx), lo, hi, i + 1, i, pk, key)
  {
  }

  /**
   * A smaller element found beyond the pivot's right neighbour: the pivot
   * moves one place right and the smaller element takes its old place.
   */
  lemma PlaceSmaller<T>(s: seq<T>, lo: nat, hi: nat, i: nat, idx: nat, pk: int, key: T -> int)
    requires Splitting(s, lo, hi, i, idx, pk, key) && idx + 1 < i < hi && key(s[i]) < pk
    ensures Splitting(Swapped(Swapped(s, idx, idx + 1), idx, i), lo, hi, i + 1, idx + 1, pk, key)
  {
    var t := Swapped(Swapped(s, idx, idx + 1), idx, i);
    assert t[idx + 1] == s[idx] && t[idx] == s[i] && t[i] == s[idx + 1];
    assert key(s[idx + 1]) >= pk;
  }

  /** A smaller element right after the pivot trades places with it. */
  lemma PlaceSmallerNext<T>(s: seq<T>, lo: nat, hi: nat, i: nat, idx: nat, pk: int, key: T -> int)
    requires Splitting(s, lo, hi, i, idx, pk, key) && i == idx + 1 && i < hi && key(s[i]) < pk
    ensures Splitting(Swapped(s, idx, i), lo, hi, i + 1, i, pk, key)
  {
  }

  /** An element equal to the pivot found after it is carried down to idx. */
  lemma PlaceEqual<T>(s: seq<T>, lo: nat, hi: nat, i: nat, idx: nat, pk: int, key: T -> int)
    requires Splitting(s, lo, hi, i, idx, pk, key) && idx < i < hi && key(s[i]) == pk
    ensures Splitting(Rotation(s, idx, i), lo, hi, i + 1, idx, pk, key)
  {
    var t := Rotation(s, idx, i);
    forall q | idx + 1 <= q < i + 1
      ensures pk <= key(t[q])
    {
      assert t[q] == s[q - 1];
    }
  }

  /** Every other element is already on its side of the pivot. */
  lemma PlaceStays<T>(s: seq<T>, lo: nat, hi: nat, i: nat, idx: nat, pk: int, key: T -> int)
    requires Splitting(s, lo, hi, i, idx, pk, key) && i < hi && i != idx
    requires !(key(s[i]) > pk && i < idx) && !(key(s[i]) < pk && i > idx)
    requires !(key(s[i]) == pk && i > idx)
    ensures Splitting(s, lo, hi, i + 1, idx, pk, key)
  {
  }

  /** s with s[i] carried down to position j: s[j..i] moves one place right. */
  function Rotation<T>(s: seq<T>, j: nat, i: nat): (r: seq<T>)
    requires j <= i < |s|
    ensures |r| == |s| && r[j] == s[i]
    ensures forall q :: 0 <= q < j || i < q < |s| ==> r[q] == s[q]
    ensures forall q :: j < q <= i ==> r[q] == s[q - 1]
  {
    s[..j] + [s[i]] + s[j..i] + s[i + 1..]
  }

  /** A rotation only rearranges the range it spans. */
  lemma RotationRearranges<T>(s: seq<T>, j: nat, i: nat)
    requires j <= i < |s|
    ensures Rearranged(Rotation(s, j, i), s, j, i + 1)
  {
    var r := Rotation(s, j, i);
    assert r[j..i + 1] == [s[i]] + s[j..i];
    assert s[j..i + 1] == s[j..i] + [s[i]];
    assert r[..j] == s[..j] && r[i + 1..] == s[i + 1..];
  }

  /** One more exchange carries the element one place further down. */
  lemma RotateStep<T>(s: seq<T>, j: nat, i: nat)
    requires 0 < j <= i < |s|
    ensures Swapped(Rotation(s, j, i), j, j - 1) == Rotation(s, j - 1, i)
  {
  }

  /**
   * The inner loop of sort for an element equal to the pivot found after
   * it: exchanges with the left neighbour carry values[i] down to position
   * idx, moving values[idx..i] one place right.
   */
  method Rotate<T>(values: array<T>, idx: nat, i: nat)
    requires idx < i < values.Length
    modifies values
    ensures values[..] == Rotation(old(values[..]), idx, i)
  {
    ghost var s := values[..];
    var j := i;
    assert s == Rotation(s, i, i);
    while j > idx
      invariant idx <= j <= i && values[..] == Rotation(s, j, i)
    {
      Swap(values, j, j - 1);
      RotateStep(s, j, i);
      j := j - 1;
    }
  }
}
