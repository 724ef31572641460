/**
 * The second bubble sort: passes over neighbouring pairs repeat until a
 * pass exchanges nothing.  Each pass carries the largest remaining key to
 * the end of the unsettled part, so after m passes the last m positions are
 * settled and at most one more pass than there are elements is made.
 */
module BubbleSecond {
  import opened Sorting

  /** Every position from f on holds a key no smaller than any earlier one. */
  ghost predicate SettledFrom<T>(s: seq<T>, f: nat, key: T -> int)
  {
    forall p, q :: 0 <= p < q < |s| && f <= q ==> key(s[p]) <= key(s[q])
  }

  /** Position i holds a largest key of s[..i + 1]. */
  ghost predicate MaxAt<T>(s: seq<T>, i: nat, key: T -> int)
    requires i < |s|
  {
    forall p :: 0 <= p < i ==> key(s[p]) <= key(s[i])
  }

  /** Exchanging an out-of-order pair carries the maximum along and stays inside the unsettled part. */
  lemma PassSwap<T>(s: seq<T>, i: nat, f: nat, key: T -> int)
    requires i + 1 < |s| && MaxAt(s, i, key) && SettledFrom(s, f, key) && key(s[i]) > key(s[i + 1])
    ensures i + 1 < f && MaxAt(Swapped(s, i, i + 1), i + 1, key) && SettledFrom(Swapped(s, i, i + 1), f, key)
  {
    var t := Swapped(s, i, i + 1);
    forall p, q | 0 <= p < q < |t| && f <= q
      ensures key(t[p]) <= key(t[q])
    {
      if p == i {
        assert key(s[i + 1]) <= key(s[q]);
      } else if p == i + 1 {
        assert key(s[i]) <= key(s[q]);
      }
    }
  }

  /** An in-order pair carries the maximum along unchanged. */
  lemma PassKeep<T>(s: seq<T>, i: nat, key: T -> int)
    requires i + 1 < |s| && MaxAt(s, i, key) && key(s[i]) <= key(s[i + 1])
    ensures MaxAt(s, i + 1, key)
  {
  }

  /**
   * The state of a pass at position i over the slice that was s0 when the
   * pass began: s[i] is a largest key so far, the settled suffix stays
   * settled and grows by one once i reaches it, and `modified` records
   * whether an exchange happened, which is when s0 was unsorted.
   */
  ghost predicate Passing<T>(s: seq<T>, s0: seq<T>, i: nat, f: nat, modified: bool, key: T -> int)
  {
    i < |s| && MaxAt(s, i, key) && SettledFrom(s, f, key) &&
    (f > 0 && i + 1 >= f ==> SettledFrom(s, f - 1, key)) &&
    SameOrder(s, s0, key) &&
    (!modified ==> s == s0 && SortedPrefix(s, i + 1, key)) &&
    (modified ==> !Sorted(s0, key))
  }

  /** A pass exchanging the out-of-order pair at i. */
  lemma PassStepSwap<T>(s: seq<T>, s0: seq<T>, i: nat, f: nat, modified: bool, key: T -> int)
    requires i + 1 < |s| && Passing(s, s0, i, f, modified, key) && key(s[i]) > key(s[i + 1])
    ensures Passing(Swapped(s, i, i + 1), s0, i + 1, f, true, key)
  {
    PassSwap(s, i, f, key);
    SwapSameOrder(s, i + 1, key);
    SameOrderTrans(Swapped(s, i, i + 1), s, s0, key);
    assert !modified ==> !Sorted(s0, key);
  }

  /** A pass stepping over the in-order pair at i. */
  lemma PassStepKeep<T>(s: seq<T>, s0: seq<T>, i: nat, f: nat, modified: bool, key: T -> int)
    requires i + 1 < |s| && Passing(s, s0, i, f, modified, key) && key(s[i]) <= key(s[i + 1])
    ensures Passing(s, s0, i + 1, f, modified, key)
  {
    PassKeep(s, i, key);
  }

  /** One pass: `modified` tells whether the slice was unsorted, and one more position is settled. */
  method Pass<T>(values: array<T>, key: T -> int, ghost f: nat) returns (modified: bool)
    requires values.Length > 0 && f <= values.Length && SettledFrom(values[..], f, key)
    modifies values
    ensures SameOrder(values[..], old(values[..]), key)
    ensures modified <==> !Sorted(old(values[..]), key)
    ensures !modified ==> values[..] == old(values[..])
    ensures SettledFrom(values[..], if f > 0 then f - 1 else 0, key)
  {
    modified := false;
    ghost var s0 := values[..];
    for i := 0 to values.Length - 1
      invariant Passing(values[..], s0, i, f, modified, key)
    {
      ghost var s := values[..];
      if key(values[i]) > key(values[i + 1]) {
        PassStepSwap(s, s0, i, f, modified, key);
        values[i], values[i + 1] := values[i + 1], values[i];
        assert values[..] == Swapped(s, i, i + 1);
        modified := true;
      } else {
        PassStepKeep(s, s0, i, f, modified, key);
      }
    }
  }

  /** bubble::second::sort: sorted, stable and a permutation; the empty slice is refused, as `len - 1` underflows. */
  method Sort<T>(values: array<T>, key: T -> int)
    requires values.Length > 0
    modifies values
    ensures Sorted(values[..], key) && SameOrder(values[..], old(values[..]), key)
    ensures multiset(values[..]) == multiset(old(values[..]))
  {
    var modified := true;
    ghost var m := 0;
    while modified
      invariant m <= values.Length && SettledFrom(values[..], values.Length - m, key)
      invariant modified ==> m < values.Length
      invariant !modified ==> Sorted(values[..], key)
      invariant SameOrder(values[..], old(values[..]), key)
      decreases values.Length - m
    {
      ghost var s := values[..];
      modified := Pass(values, key, values.Length - m);
      SameOrderTrans(values[..], s, old(values[..]), key);
      m := m + 1;
    }
    SameOrderPermutes(values[..], old(values[..]), key);
  }

  /** swap_elements: exchanges positions i and j and nothing else; out-of-range indices panic. */
  method SwapElements<T>(values: array<T>, i: nat, j: nat)
    requires i < values.Length && j < values.Length
    modifies values
    ensures values[..] == Swapped(old(values[..]), i, j)
  {
    values[i], values[j] := values[j], values[i];
  }

  /** swap_elements_offset: the explicit bounds check panics; otherwise exchanges positions i and j. */
  method SwapElementsOffset<T>(values: array<T>, i: nat, j: nat)
    requires i < values.Length && j < values.Length
    modifies values
    ensures values[..] == Swapped(old(values[..]), i, j)
  {
    values[i], values[j] := values[j], values[i];
  }

  /** One pass of sort_ptr, exchanging through swap_elements_offset. */
  method PassPtr<T>(values: array<T>, key: T -> int, ghost f: nat) returns (modified: bool)
    requires values.Length > 0 && f <= values.Length && SettledFrom(values[..], f, key)
    modifies values
    ensures SameOrder(values[..], old(values[..]), key)
    ensures modified <==> !Sorted(old(values[..]), key)
    ensures !modified ==> values[..] == old(values[..])
    ensures SettledFrom(values[..], if f > 0 then f - 1 else 0, key)
  {
    modified := false;
    ghost var s0 := values[..];
    for i := 0 to values.Length - 1
      invariant Passing(values[..], s0, i, f, modified, key)
    {
      ghost var s := values[..];
      if key(values[i]) > key(values[i + 1]) {
        PassStepSwap(s, s0, i, f, modified, key);
        SwapElementsOffset(values, i, i + 1);
        modified := true;
      } else {
        PassStepKeep(s, s0, i, f, modified, key);
      }
    }
  }

  /** sort_ptr: the same passes as sort, so the same sorted, stable result. */
  method SortPtr<T>(values: array<T>, key: T -> int)
    requires values.Length > 0
    modifies values
    ensures Sorted(values[..], key) && SameOrder(values[..], old(values[..]), key)
    ensures multiset(values[..]) == multiset(old(values[..]))
  {
    var modified := true;
    ghost var m := 0;
    while modified
      invariant m <= values.Length && SettledFrom(values[..], values.Length - m, key)
      invariant modified ==> m < values.Length
      invariant !modified ==> Sorted(values[..], key)
      invariant SameOrder(values[..], old(values[..]), key)
      decreases values.Length - m
    {
      ghost var s := values[..];
      modified := PassPtr(values, key, values.Length - m);
      SameOrderTrans(values[..], s, old(values[..]), key);
      m := m + 1;
    }
    SameOrderPermutes(values[..], old(values[..]), key);
  }
}
