/**
 * The first merge sort: an in-place sort of a slice that merges its sorted
 * halves from a copy, and a sort that clones its input into halves and
 * merges the sorted halves into a new vector.
 */
module MergeFirst {
  import opened Sorting
  import MergeSecond

  /**
   * sort_mutate on the slice values[lo..hi]: both halves are sorted in place,
   * then merged back from a copy.  The rest of the array is left alone.
   */
  method SortMutate<T>(values: array<T>, lo: nat, hi: nat, key: T -> int)
    requires lo <= hi <= values.Length
    modifies values
    ensures values[..lo] == old(values[..lo]) && values[hi..] == old(values[hi..])
    ensures Sorted(values[lo..hi], key) && SameOrder(values[lo..hi], old(values[lo..hi]), key)
    ensures multiset(values[lo..hi]) == multiset(old(values[lo..hi]))
    decreases hi - lo
  {
    if hi - lo <= 1 {
      return;
    }
    var mid := lo + (hi - lo) / 2;
    ghost var s := values[..];
    SortMutate(values, lo, mid, key);
    ghost var between := values[..];
    SortMutate(values, mid, hi, key);
    HalvesInPlace(s, between, values[..], lo, mid, hi);
    ghost var left, right := values[lo..mid], values[mid..hi];
    MergeHalves(values, lo, mid, hi, key);
    MergingSortsParts(left, right, s[lo..mid], s[mid..hi], key);
  }

  /**
   * Sorting values[lo..mid] and then values[mid..hi] (from s to between to
   * after) leaves the outside alone and the first half as the first sort left it.
   */
  lemma HalvesInPlace<T>(s: seq<T>, between: seq<T>, after: seq<T>, lo: nat, mid: nat, hi: nat)
    requires lo <= mid <= hi <= |s| == |between| == |after|
    requires between[..lo] == s[..lo] && between[mid..] == s[mid..]
    requires after[..mid] == between[..mid] && after[hi..] == between[hi..]
    ensures between[mid..hi] == s[mid..hi] && after[lo..mid] == between[lo..mid]
    ensures after[..lo] == s[..lo] && after[hi..] == s[hi..]
    ensures s[lo..mid] + s[mid..hi] == s[lo..hi]
  {
    assert between[mid..hi] == between[mid..][..hi - mid];
    assert s[mid..hi] == s[mid..][..hi - mid];
    assert after[lo..mid] == after[..mid][lo..];
    assert between[lo..mid] == between[..mid][lo..];
    assert after[..lo] == after[..mid][..lo];
    assert between[..lo] == between[..mid][..lo];
    assert between[hi..] == between[mid..][hi - mid..];
    assert s[hi..] == s[mid..][hi - mid..];
  }

  /**
   * The merging step of sort_mutate: the halves values[lo..mid] and
   * values[mid..hi] are copied, then written back in merged order, the left
   * element winning ties; the remainder of the unfinished half is copied
   * after them in one slice copy.
   */
  method MergeHalves<T>(values: array<T>, lo: nat, mid: nat, hi: nat, key: T -> int)
    requires lo <= mid <= hi <= values.Length
    modifies values
    ensures values[..lo] == old(values[..lo]) && values[hi..] == old(values[hi..])
    ensures values[lo..hi] == Merging(old(values[lo..mid]), old(values[mid..hi]), key)
  {
    var v := values[lo..hi];
    var m := mid - lo;
    assert v[..m] == values[lo..mid] && v[m..] == values[mid..hi];
    var i, j, current := WriteMerged(values, lo, hi, v, m, key);
    CopyRest(values, lo, hi, v, m, i, j, current);
  }

  /**
   * The end of sort_mutate: whichever half of the copy `v` is unfinished is
   * copied into place after the merged prefix values[lo..lo + current].
   */
  method CopyRest<T>(values: array<T>, lo: nat, hi: nat, v: seq<T>, m: nat, i: nat, j: nat, current: nat)
    requires lo <= hi <= values.Length && |v| == hi - lo
    requires i <= m <= j <= |v| && (i == m || j == |v|) && current == i + (j - m)
    modifies values
    ensures values[..lo] == old(values[..lo]) && values[hi..] == old(values[hi..])
    ensures values[lo..hi] == old(values[lo..lo + current]) + (v[i..m] + v[j..])
  {
    if i < m {
      assert v[i..m] + v[j..] == v[i..m];
      CopyFrom(values, lo, lo + current, hi, v[i..m]);
    } else if j < |v| {
      assert v[i..m] + v[j..] == v[j..];
      CopyFrom(values, lo, lo + current, hi, v[j..]);
    } else {
      assert v[i..m] + v[j..] == [] && lo + current == hi;
    }
  }

  /**
   * The merging loop of sort_mutate: writes values[lo..] from the copy `v`
   * of values[lo..hi] until one half of the copy, split at m, is used up.
   */
  method WriteMerged<T>(values: array<T>, lo: nat, hi: nat, v: seq<T>, m: nat, key: T -> int)
    returns (i: nat, j: nat, current: nat)
    requires lo <= hi <= values.Length && |v| == hi - lo && m <= |v|
    modifies values
    ensures i <= m <= j <= |v| && (i == m || j == |v|) && current == i + (j - m)
    ensures values[..lo] == old(values[..lo]) && values[hi..] == old(values[hi..])
    ensures Written(values[lo..lo + current], v, m, i, j, key)
  {
    i, j, current := 0, m, 0;
    ghost var s0, w := values[..], [];
    WritingStart(w, v, m, key);
    assert Placed(s0, lo, w) == s0;
    while i < m && j < |v|
      invariant i <= m <= j <= |v| && current == i + (j - m) && |w| == current
      invariant values[..] == Placed(s0, lo, w)
      invariant Writing(w, v, m, i, j, current, key)
      decreases (m - i) + (|v| - j)
    {
      ghost var x := if key(v[i]) <= key(v[j]) then v[i] else v[j];
      WritingStep(w, v, m, i, j, current, key);
      PlacedPush(s0, lo, w, x);
      i, j := WriteStep(values, lo, v, m, i, j, current, key);
      w, current := w + [x], current + 1;
    }
    PlacedParts(s0, lo, hi, w);
    MergedTail(w, v, m, i, j, j - m, key);
  }

  /** s with w written over it from position lo on. */
  ghost function Placed<T>(s: seq<T>, lo: nat, w: seq<T>): seq<T>
    requires lo + |w| <= |s|
  {
    s[..lo] + w + s[lo + |w|..]
  }

  lemma PlacedPush<T>(s: seq<T>, lo: nat, w: seq<T>, x: T)
    requires lo + |w| < |s|
    ensures Placed(s, lo, w)[lo + |w| := x] == Placed(s, lo, w + [x])
  {
  }

  lemma PlacedParts<T>(s: seq<T>, lo: nat, hi: nat, w: seq<T>)
    requires lo + |w| <= hi <= |s|
    ensures Placed(s, lo, w)[..lo] == s[..lo] && Placed(s, lo, w)[hi..] == s[hi..]
    ensures Placed(s, lo, w)[lo..lo + |w|] == w
  {
  }

  /**
   * The state of the merging loop: w, the merged prefix written so far, is
   * the start of the merge of the halves, up to v[i] and v[j] excluded.
   */
  ghost predicate Writing<T>(w: seq<T>, v: seq<T>, m: nat, i: nat, j: nat, current: nat, key: T -> int)
  {
    i <= m <= j <= |v| && current == i + (j - m) && MergedUpTo(w, v[..m], v[m..], i, j - m, key)
  }

  /** One turn of the merging loop: the smaller head is written, the left one on ties. */
  method WriteStep<T>(values: array<T>, lo: nat, v: seq<T>, m: nat, i: nat, j: nat, current: nat, key: T -> int)
    returns (i': nat, j': nat)
    requires lo + |v| <= values.Length && i < m <= j < |v| && current == i + (j - m)
    modifies values
    ensures (i', j') == (if key(v[i]) <= key(v[j]) then (i + 1, j) else (i, j + 1))
    ensures values[..] == old(values[..])[lo + current := if key(v[i]) <= key(v[j]) then v[i] else v[j]]
  {
    if key(v[i]) <= key(v[j]) {
      values[lo + current] := v[i];
      i', j' := i + 1, j;
    } else {
      values[lo + current] := v[j];
      i', j' := i, j + 1;
    }
  }

  /** Appending the smaller head, the left one on ties, keeps the merging loop's state. */
  lemma WritingStep<T>(w: seq<T>, v: seq<T>, m: nat, i: nat, j: nat, current: nat, key: T -> int)
    requires i < m <= j < |v| && Writing(w, v, m, i, j, current, key)
    ensures key(v[i]) <= key(v[j]) ==> Writing(w + [v[i]], v, m, i + 1, j, current + 1, key)
    ensures key(v[i]) > key(v[j]) ==> Writing(w + [v[j]], v, m, i, j + 1, current + 1, key)
  {
    var a, b := v[..m], v[m..];
    assert v[i] == a[i] && v[j] == b[j - m];
    if key(v[i]) <= key(v[j]) {
      MergedLeft(w, a, b, i, j - m, key);
    } else {
      MergedRight(w, a, b, i, j - m, key);
    }
  }

  /** w followed by what is left of both halves of v, split at m, is their merge. */
  ghost predicate Written<T>(w: seq<T>, v: seq<T>, m: nat, i: nat, j: nat, key: T -> int)
  {
    i <= m <= j <= |v| && w + (v[i..m] + v[j..]) == Merging(v[..m], v[m..], key)
  }

  /** When the merging loop stops, the merged prefix and the rest of both halves make the merge. */
  lemma MergedTail<T>(out: seq<T>, v: seq<T>, m: nat, i: nat, j: nat, jb: nat, key: T -> int)
    requires i <= m <= j <= |v| && j == m + jb && (i == m || j == |v|)
    requires MergedUpTo(out, v[..m], v[m..], i, jb, key)
    ensures Written(out, v, m, i, j, key)
  {
    MergedRest(out, v[..m], v[m..], i, jb, key);
    assert v[..m][i..] == v[i..m] && v[m..][jb..] == v[j..];
  }

  /** Nothing is written when the merging loop starts. */
  lemma WritingStart<T>(w: seq<T>, v: seq<T>, m: nat, key: T -> int)
    requires |w| == 0 && m <= |v|
    ensures Writing(w, v, m, 0, m, 0, key)
  {
    assert v[..m][0..] == v[..m] && v[m..][0..] == v[m..] && w == [];
  }

  /**
   * clone_from_slice: overwrites values[at..hi] with a source of the same
   * length; values[lo..at] before it is kept.
   */
  method CopyFrom<T>(values: array<T>, lo: nat, at: nat, hi: nat, src: seq<T>)
    requires lo <= at <= hi <= values.Length && hi - at == |src|
    modifies values
    ensures values[..lo] == old(values[..lo]) && values[hi..] == old(values[hi..])
    ensures values[lo..hi] == old(values[lo..at]) + src
  {
    forall p | at <= p < hi {
      values[p] := src[p - at];
    }
    assert values[lo..hi] == values[lo..at] + values[at..hi];
  }

  /**
   * merge, used by sort_clone: concatenates when one side lies below the
   * other, otherwise interleaves the two sides.
   */
  method Merge<T>(a: seq<T>, b: seq<T>, key: T -> int) returns (out: seq<T>)
    ensures out == MergeFast(a, b, key)
    ensures Sorted(a, key) && Sorted(b, key) ==>
      Sorted(out, key) && SameOrder(out, a + b, key) && multiset(out) == multiset(a + b)
  {
    if Below(LastOf(a), FirstOf(b), key) {
      out := a + b;
    } else if Below(LastOf(b), FirstOf(a), key) {
      out := b + a;
    } else {
      out := Interleave(a, b, key);
    }
    if Sorted(a, key) && Sorted(b, key) {
      MergeFastAgrees(a, b, key);
      MergingSorts(a, b, key);
    }
  }

  /**
   * The merging loops of merge: for each element x of `a` in turn, the
   * elements of `b` strictly below x are emitted before x; what is left of
   * `b` follows.
   */
  method Interleave<T>(a: seq<T>, b: seq<T>, key: T -> int) returns (out: seq<T>)
    ensures out == Merging(a, b, key)
  {
    out := [];
    var i, j := 0, 0;
    while i < |a|
      invariant MergedUpTo(out, a, b, i, j, key)
    {
      out, j := EmitBelow(a, b, i, j, out, key);
      MergedLeft(out, a, b, i, j, key);
      out := out + [a[i]];
      i := i + 1;
    }
    MergedRest(out, a, b, i, j, key);
    assert a[i..] + b[j..] == b[j..];
    out := out + b[j..];
  }

  /** The inner loop of merge: emits the elements of `b` from j on that are strictly below a[i]. */
  method EmitBelow<T>(a: seq<T>, b: seq<T>, i: nat, j: nat, out: seq<T>, key: T -> int)
    returns (out': seq<T>, j': nat)
    requires i < |a| && MergedUpTo(out, a, b, i, j, key)
    ensures j <= j' <= |b| && (j' == |b| || key(a[i]) <= key(b[j']))
    ensures MergedUpTo(out', a, b, i, j', key)
  {
    out', j' := out, j;
    while j' < |b| && key(b[j']) < key(a[i])
      invariant j <= j' <= |b|
      invariant MergedUpTo(out', a, b, i, j', key)
    {
      MergedRight(out', a, b, i, j', key);
      out' := out' + [b[j']];
      j' := j' + 1;
    }
  }

  /**
   * sort_clone: a one-element input is returned as is; a longer one is split
   * after its first (n + 1) / 2 elements.  An empty input makes the source
   * recurse forever, hence the precondition.
   */
  function SortClone<T>(values: seq<T>, key: T -> int): (r: seq<T>)
    requires |values| >= 1
    ensures Sorted(r, key) && SameOrder(r, values, key)
    decreases |values|
  {
    if |values| == 1 then values
    else
      var mid := (|values| + 1) / 2;
      var a := SortClone(values[..mid], key);
      var b := SortClone(values[mid..], key);
      MergeFastSortsParts(a, b, values[..mid], values[mid..], key);
      assert values[..mid] + values[mid..] == values;
      MergeFast(a, b, key)
  }

  /** sort_clone returns a permutation of its input. */
  lemma SortClonePermutes<T>(values: seq<T>, key: T -> int)
    requires |values| >= 1
    ensures multiset(SortClone(values, key)) == multiset(values)
  {
    SameOrderPermutes(SortClone(values, key), values, key);
  }

  /**
   * Though it splits at a different point, sort_clone returns exactly what
   * the second merge sort returns.
   */
  lemma SortCloneAgrees<T>(values: seq<T>, key: T -> int)
    requires |values| >= 1
    ensures SortClone(values, key) == MergeSecond.Sort(values, key)
  {
    var r, q := SortClone(values, key), MergeSecond.Sort(values, key);
    SameOrderTrans(r, values, q, key);
    SortedStableUnique(r, q, key);
  }
}
