/**
 * The second merge sort: a merging loop over two slices, and a sort that
 * returns a new vector built from the sorted halves.
 */
module MergeSecond {
  import opened Sorting

  /**
   * merge: concatenates when one side lies below the other, otherwise
   * interleaves the two sides.
   */
  method Merge<T>(left: seq<T>, right: seq<T>, key: T -> int) returns (out: seq<T>)
    ensures out == MergeFast(left, right, key)
    ensures Sorted(left, key) && Sorted(right, key) ==>
      Sorted(out, key) && SameOrder(out, left + right, key) && multiset(out) == multiset(left + right)
  {
    if Below(LastOf(left), FirstOf(right), key) {
      out := left + right;
    } else if Below(LastOf(right), FirstOf(left), key) {
      out := right + left;
    } else {
      out := Interleave(left, right, key);
    }
    if Sorted(left, key) && Sorted(right, key) {
      MergeFastAgrees(left, right, key);
      MergingSorts(left, right, key);
    }
  }

  /**
   * The merging loop of merge: the head of `right` is taken only when it is
   * strictly smaller than the head of `left`; the rest of both sides follows.
   */
  method Interleave<T>(left: seq<T>, right: seq<T>, key: T -> int) returns (out: seq<T>)
    ensures out == Merging(left, right, key)
  {
    out := [];
    var xi, yi := 0, 0;
    while xi < |left| && yi < |right|
      invariant MergedUpTo(out, left, right, xi, yi, key)
    {
      if key(left[xi]) > key(right[yi]) {
        MergedRight(out, left, right, xi, yi, key);
        out := out + [right[yi]];
        yi := yi + 1;
      } else {
        MergedLeft(out, left, right, xi, yi, key);
        out := out + [left[xi]];
        xi := xi + 1;
      }
    }
    MergedRest(out, left, right, xi, yi, key);
    out := out + (left[xi..] + right[yi..]);
  }

  /** sort: a sorted, stable rearrangement of `values`, which itself is left as it is. */
  function Sort<T>(values: seq<T>, key: T -> int): (r: seq<T>)
    ensures Sorted(r, key) && SameOrder(r, values, key)
    decreases |values|
  {
    if |values| <= 1 then values
    else
      var mid := |values| / 2;
      var left := Sort(values[..mid], key);
      var right := Sort(values[mid..], key);
      MergeHalves(values, mid, left, right, key);
      MergeFast(left, right, key)
  }

  /** Merging the sorted halves of `values` sorts `values`. */
  lemma MergeHalves<T>(values: seq<T>, mid: nat, left: seq<T>, right: seq<T>, key: T -> int)
    requires mid <= |values| && Sorted(left, key) && Sorted(right, key)
    requires SameOrder(left, values[..mid], key) && SameOrder(right, values[mid..], key)
    ensures Sorted(MergeFast(left, right, key), key) && SameOrder(MergeFast(left, right, key), values, key)
  {
    MergeFastSortsParts(left, right, values[..mid], values[mid..], key);
    assert values[..mid] + values[mid..] == values;
  }

  /** sort returns a permutation of its input. */
  lemma SortPermutes<T>(values: seq<T>, key: T -> int)
    ensures multiset(Sort(values, key)) == multiset(values)
  {
    SameOrderPermutes(Sort(values, key), values, key);
  }
}
