/**
 * The second binary search: a recursion on subslices that carries the
 * offset of the subslice in the whole slice.  As written, the offset is not
 * accumulated: the left half is searched with offset 0 and the right half
 * with offset mid + 1 relative to the current subslice only, so a value
 * found after a step right (or after a step left that follows one) is
 * reported at the wrong index.  BinaryRecurse models the code as written;
 * BinaryRecurseFixed accumulates the offset and is the search the rest of
 * the module proves correct.  Elements are integers.
 */
module BinarySearchSecond {
  import opened Wrappers
  import BinarySearchFirst

  datatype Ordering = Less | Equal | Greater

  /** partial_cmp on integers, which are totally ordered. */
  function PartialCmp(a: int, b: int): (r: Option<Ordering>)
    ensures r.Some?
    ensures r.value == Equal <==> a == b
    ensures r.value == Less <==> a < b
  {
    Some(if a < b then Less else if a == b then Equal else Greater)
  }

  /** binary_recurse as written. */
  function BinaryRecurse(values: seq<int>, x: int, offset: nat): (r: Result<Option<nat>, string>)
    ensures r.Ok?
    ensures r.Ok? && r.value.Some? ==> x in values
    decreases |values|
  {
    if |values| == 0 then Ok(None)
    else
      var mid := |values| / 2;
      match PartialCmp(x, values[mid])
      case Some(Equal) => Ok(Some(mid + offset))
      case Some(Less) => BinaryRecurse(values[..mid], x, 0)
      case Some(Greater) => BinaryRecurse(values[mid + 1..], x, mid + 1)
      case None => Result<Option<nat>, string>.Err("unable to compare values")
  }

  /** binary_search as written. */
  function BinarySearch(values: seq<int>, x: int): (r: Result<Option<nat>, string>)
    ensures r.Ok?
    ensures r.value.Some? ==> x in values
  {
    BinaryRecurse(values, x, 0)
  }

  /**
   * binary_recurse with the offset accumulated: the left half keeps the
   * offset of the current subslice and the right half adds mid + 1 to it.
   * A reported index lies within the subslice and holds x.
   */
  function BinaryRecurseFixed(values: seq<int>, x: int, offset: nat): (r: Result<Option<nat>, string>)
    ensures r.Ok?
    ensures r.Ok? && r.value.Some? ==>
      offset <= r.value.value < offset + |values| && values[r.value.value - offset] == x
    decreases |values|
  {
    if |values| == 0 then Ok(None)
    else
      var mid := |values| / 2;
      match PartialCmp(x, values[mid])
      case Some(Equal) => Ok(Some(mid + offset))
      case Some(Less) => BinaryRecurseFixed(values[..mid], x, offset)
      case Some(Greater) => BinaryRecurseFixed(values[mid + 1..], x, offset + mid + 1)
      case None => Result<Option<nat>, string>.Err("unable to compare values")
  }

  /** binary_search with the offset accumulated: a reported index holds x. */
  function BinarySearchFixed(values: seq<int>, x: int): (r: Result<Option<nat>, string>)
    ensures r.Ok?
    ensures r.value.Some? ==> r.value.value < |values| && values[r.value.value] == x
  {
    BinaryRecurseFixed(values, x, 0)
  }

  /** One call of binary_recurse as written on a non-empty subslice. */
  lemma AsWrittenStep(values: seq<int>, x: int, offset: nat)
    requires |values| > 0
    ensures var mid := |values| / 2;
      BinaryRecurse(values, x, offset) ==
        if x == values[mid] then Ok(Some(mid + offset))
        else if x < values[mid] then BinaryRecurse(values[..mid], x, 0)
        else BinaryRecurse(values[mid + 1..], x, mid + 1)
  {
  }

  /** One call of the corrected binary_recurse on a non-empty subslice. */
  lemma FixedStep(values: seq<int>, x: int, offset: nat)
    requires |values| > 0
    ensures var mid := |values| / 2;
      BinaryRecurseFixed(values, x, offset) ==
        if x == values[mid] then Ok(Some(mid + offset))
        else if x < values[mid] then BinaryRecurseFixed(values[..mid], x, offset)
        else BinaryRecurseFixed(values[mid + 1..], x, offset + mid + 1)
  {
  }

  /**
   * Both versions visit the same subslices and make the same comparisons,
   * so they agree on whether x was found; only the index differs.
   */
  lemma {:induction false} SameVerdict(values: seq<int>, x: int, offset: nat, offset': nat)
    ensures BinaryRecurse(values, x, offset).value.Some? == BinaryRecurseFixed(values, x, offset').value.Some?
    decreases |values|
  {
    if |values| > 0 {
      var mid := |values| / 2;
      AsWrittenStep(values, x, offset);
      FixedStep(values, x, offset');
      if x < values[mid] {
        SameVerdict(values[..mid], x, 0, offset');
      } else if x > values[mid] {
        SameVerdict(values[mid + 1..], x, mid + 1, offset' + mid + 1);
      }
    }
  }

  /** A subslice of ascending values ascends. */
  lemma AscendingSlice(values: seq<int>, lo: nat, hi: nat)
    requires lo <= hi <= |values| && BinarySearchFirst.Ascending(values)
    ensures BinarySearchFirst.Ascending(values[lo..hi])
  {
  }

  /**
   * In ascending values, x below the middle element can only lie in the
   * left half and x above it only in the right half.
   */
  lemma Halves(values: seq<int>, x: int)
    requires |values| > 0 && BinarySearchFirst.Ascending(values)
    ensures x < values[|values| / 2] ==> (x in values <==> x in values[..|values| / 2])
    ensures x > values[|values| / 2] ==> (x in values <==> x in values[|values| / 2 + 1..])
  {
    var mid := |values| / 2;
    if x in values {
      var k :| 0 <= k < |values| && values[k] == x;
      if x < values[mid] {
        assert k < mid && values[..mid][k] == x;
      } else if x > values[mid] {
        assert k > mid && values[mid + 1..][k - mid - 1] == x;
      }
    }
    assert values == values[..mid] + [values[mid]] + values[mid + 1..];
  }

  /**
   * x below the middle element: the search goes left, and its verdict on
   * the whole subslice is its verdict on the left half.
   */
  lemma LeftHalf(values: seq<int>, x: int, offset: nat)
    requires |values| > 0 && BinarySearchFirst.Ascending(values) && x < values[|values| / 2]
    ensures BinarySearchFirst.Ascending(values[..|values| / 2])
    ensures (BinaryRecurseFixed(values[..|values| / 2], x, offset) == Ok(None) <==> x !in values[..|values| / 2]) ==>
      (BinaryRecurseFixed(values, x, offset) == Ok(None) <==> x !in values)
  {
    FixedStep(values, x, offset);
    Halves(values, x);
    AscendingSlice(values, 0, |values| / 2);
  }

  /**
   * x above the middle element: the search goes right, and its verdict on
   * the whole subslice is its verdict on the right half.
   */
  lemma RightHalf(values: seq<int>, x: int, offset: nat)
    requires |values| > 0 && BinarySearchFirst.Ascending(values) && x > values[|values| / 2]
    ensures BinarySearchFirst.Ascending(values[|values| / 2 + 1..])
    ensures (BinaryRecurseFixed(values[|values| / 2 + 1..], x, offset + |values| / 2 + 1) == Ok(None) <==>
        x !in values[|values| / 2 + 1..]) ==>
      (BinaryRecurseFixed(values, x, offset) == Ok(None) <==> x !in values)
  {
    FixedStep(values, x, offset);
    Halves(values, x);
    AscendingSlice(values, |values| / 2 + 1, |values|);
  }

  /** On ascending values the corrected search finds x exactly when x is present. */
  lemma {:induction false} FixedFindsPresent(values: seq<int>, x: int, offset: nat)
    requires BinarySearchFirst.Ascending(values)
    ensures BinaryRecurseFixed(values, x, offset) == Ok(None) <==> x !in values
    decreases |values|
  {
    if |values| > 0 {
      var mid := |values| / 2;
      if x < values[mid] {
        LeftHalf(values, x, offset);
        FixedFindsPresent(values[..mid], x, offset);
      } else if x > values[mid] {
        RightHalf(values, x, offset);
        FixedFindsPresent(values[mid + 1..], x, offset + mid + 1);
      } else {
        FixedStep(values, x, offset);
        assert values[mid] in values;
      }
    }
  }

  /**
   * On ascending values the search as written also reports Ok(None) exactly
   * when x is absent: only the index it reports can be wrong.
   */
  lemma AsWrittenFindsPresent(values: seq<int>, x: int)
    requires BinarySearchFirst.Ascending(values)
    ensures BinarySearch(values, x) == Ok(None) <==> x !in values
  {
    SameVerdict(values, x, 0, 0);
    FixedFindsPresent(values, x, 0);
  }

  /** Values that strictly increase, so that each value occurs at most once. */
  predicate StrictlyAscending(values: seq<int>)
  {
    forall p, q :: 0 <= p < q < |values| ==> values[p] < values[q]
  }

  /**
   * The corrected search on ascending values: a found index holds x, and
   * absence is exact.  On strictly increasing values the found index is the
   * first occurrence; with equal neighbours it need not be (DuplicateNotFirst).
   */
  lemma FixedSearchCorrect(values: seq<int>, x: int)
    requires BinarySearchFirst.Ascending(values)
    ensures BinarySearchFixed(values, x) == Ok(None) <==> x !in values
    ensures forall k :: BinarySearchFixed(values, x) == Ok(Some(k)) ==> k < |values| && values[k] == x
    ensures StrictlyAscending(values) && BinarySearchFixed(values, x).value.Some? ==>
      forall j :: 0 <= j < BinarySearchFixed(values, x).value.value ==> values[j] != x
  {
    FixedFindsPresent(values, x, 0);
  }

  /**
   * "The first occurrence" fails when ascending values repeat: in [1, 1, 1]
   * both searches report 1 at index 1, although index 0 holds 1.
   */
  lemma DuplicateNotFirst()
    ensures BinarySearchFirst.Ascending([1, 1, 1]) && [1, 1, 1][0] == 1
    ensures BinarySearch([1, 1, 1], 1) == Ok(Some(1))
    ensures BinarySearchFixed([1, 1, 1], 1) == Ok(Some(1))
  {
    AsWrittenStep([1, 1, 1], 1, 0);
    FixedStep([1, 1, 1], 1, 0);
  }

  /**
   * A value reached through a step right: in [1, 2, 3, 4, 5, 6, 7, 8] the
   * search as written reports 8 at index 2, which holds 3; the corrected
   * search reports index 7.
   */
  lemma LostOffset()
    ensures BinarySearch([1, 2, 3, 4, 5, 6, 7, 8], 8) == Ok(Some(2))
    ensures [1, 2, 3, 4, 5, 6, 7, 8][2] != 8
    ensures BinarySearchFixed([1, 2, 3, 4, 5, 6, 7, 8], 8) == Ok(Some(7))
  {
    var v := [1, 2, 3, 4, 5, 6, 7, 8];
    assert v[5..] == [6, 7, 8] && [6, 7, 8][2..] == [8];
    AsWrittenStep(v, 8, 0);
    AsWrittenStep([6, 7, 8], 8, 5);
    AsWrittenStep([8], 8, 2);
    FixedStep(v, 8, 0);
    FixedStep([6, 7, 8], 8, 5);
    FixedStep([8], 8, 7);
  }

  /**
   * The cases the source checks on [1, 3, 4, 5, 7, 1, 15, 19], which the
   * search as written passes.
   */
  lemma Examples()
    ensures BinarySearch([1, 3, 4, 5, 7, 1, 15, 19], 1) == Ok(Some(0))
    ensures BinarySearch([1, 3, 4, 5, 7, 1, 15, 19], 3) == Ok(Some(1))
    ensures BinarySearch([1, 3, 4, 5, 7, 1, 15, 19], 15) == Ok(Some(6))
    ensures BinarySearch([1, 3, 4, 5, 7, 1, 15, 19], 13) == Ok(None)
  {
    var d := [1, 3, 4, 5, 7, 1, 15, 19];
    assert d[..4] == [1, 3, 4, 5] && d[5..] == [1, 15, 19];
    assert [1, 3, 4, 5][..2] == [1, 3] && [1, 3][..1] == [1];
    assert [1, 15, 19][..1] == [1] && [1][1..] == [];
    AsWrittenStep(d, 1, 0);
    AsWrittenStep([1, 3, 4, 5], 1, 0);
    AsWrittenStep([1, 3], 1, 0);
    AsWrittenStep([1], 1, 0);
    AsWrittenStep(d, 3, 0);
    AsWrittenStep([1, 3, 4, 5], 3, 0);
    AsWrittenStep([1, 3], 3, 0);
    AsWrittenStep(d, 15, 0);
    AsWrittenStep([1, 15, 19], 15, 5);
    AsWrittenStep(d, 13, 0);
    AsWrittenStep([1, 15, 19], 13, 5);
    AsWrittenStep([1], 13, 0);
  }
}
