/**
 * The first binary search: probes a slice starting at its upper middle and
 * refines the probe at most ten times.  Indexing is not checked, so a probe
 * past the end of the slice aborts the search; that outcome is `Err(k)`,
 * where k is the index that was out of range.  Elements are integers.
 */
module BinarySearchFirst {
  import opened Wrappers

  /** The largest number of refinement probes after the first one. */
  const MaxRefinements: nat := 10

  /** The bounds of the search and the next probe. */
  datatype Bounds = Bounds(minIdx: nat, maxIdx: nat, mid: nat)

  /**
   * The refinement of lines 18-30: a probe above the value becomes the new
   * upper bound and the next probe lies at or below it (the probe 1 moves
   * to 0); a probe below the value becomes the new lower bound and the next
   * probe lies at or above it.  The result is (min_idx, max_idx, mid).
   */
  function Narrow(minIdx: nat, maxIdx: nat, mid: nat, tooHigh: bool): (r: Bounds)
    requires minIdx <= mid <= maxIdx
    ensures tooHigh ==> r.minIdx == minIdx && r.maxIdx == mid && (mid == 1 ==> r.mid == 0)
    ensures tooHigh && mid != 1 ==> minIdx <= r.mid <= mid
    ensures !tooHigh ==> r.minIdx == mid && r.maxIdx == maxIdx && mid <= r.mid <= maxIdx
  {
    if tooHigh then Bounds(minIdx, mid, if mid == 1 then 0 else (minIdx + mid + 1) / 2)
    else Bounds(mid, maxIdx, (mid + maxIdx + 1) / 2)
  }

  /**
   * The bounds around a probe: min_idx <= mid <= max_idx <= len, and a
   * nonzero lower bound was a probe below the value.
   */
  ghost predicate Probing(data: seq<int>, value: int, minIdx: nat, maxIdx: nat, mid: nat)
  {
    minIdx <= mid <= maxIdx <= |data| && mid < |data| && (minIdx > 0 ==> data[minIdx] < value)
  }

  /**
   * The search from a probe at mid after `steps` refinements: a match is
   * returned, the tenth refinement gives up, and a refined probe past the
   * end of the slice aborts.
   */
  function Refine(data: seq<int>, value: int, minIdx: nat, maxIdx: nat, mid: nat, steps: nat): (r: Result<Option<nat>, nat>)
    requires Probing(data, value, minIdx, maxIdx, mid) && steps <= MaxRefinements
    ensures r.Ok? && r.value.Some? ==> r.value.value < |data| && data[r.value.value] == value
    decreases MaxRefinements - steps
  {
    if data[mid] == value then Ok(Some(mid))
    else if steps == MaxRefinements then Ok(None)
    else
      var next := Narrow(minIdx, maxIdx, mid, data[mid] > value);
      if next.mid >= |data| then Err(next.mid)
      else Refine(data, value, next.minIdx, next.maxIdx, next.mid, steps + 1)
  }

  /** binary_search, as a function of the slice and the value. */
  function Search(data: seq<int>, value: int): (r: Result<Option<nat>, nat>)
    ensures r.Ok? && r.value.Some? ==> r.value.value < |data| && data[r.value.value] == value
    ensures |data| <= 1 ==> r == Err(|data|)
  {
    var mid := (|data| + 1) / 2;
    if mid >= |data| then Err(mid) else Refine(data, value, 0, |data|, mid, 0)
  }

  /** A slice of two or more elements is searched from its upper middle. */
  lemma SearchStart(data: seq<int>, value: int)
    requires |data| >= 2
    ensures Probing(data, value, 0, |data|, (|data| + 1) / 2)
    ensures Search(data, value) == Refine(data, value, 0, |data|, (|data| + 1) / 2, 0)
  {
  }

  /** One refinement of a probe that missed. */
  lemma RefineStep(data: seq<int>, value: int, minIdx: nat, maxIdx: nat, mid: nat, steps: nat)
    requires Probing(data, value, minIdx, maxIdx, mid) && steps < MaxRefinements && data[mid] != value
    ensures var next := Narrow(minIdx, maxIdx, mid, data[mid] > value);
      if next.mid >= |data| then Refine(data, value, minIdx, maxIdx, mid, steps) == Err(next.mid)
      else (Probing(data, value, next.minIdx, next.maxIdx, next.mid) &&
        Refine(data, value, minIdx, maxIdx, mid, steps) == Refine(data, value, next.minIdx, next.maxIdx, next.mid, steps + 1))
  {
  }

  /** binary_search: the first probe, then the refinements. */
  method BinarySearch(data: seq<int>, value: int) returns (r: Result<Option<nat>, nat>)
    ensures r == Search(data, value)
  {
    var mid: nat := (|data| + 1) / 2;
    if mid >= |data| {
      return Err(mid);
    }
    SearchStart(data, value);
    r := Refinements(data, value, 0, |data|, mid);
  }

  /**
   * The loop of binary_search: while the probe misses and fewer than ten
   * refinements were made, the bounds are narrowed and the slice probed again.
   */
  method Refinements(data: seq<int>, value: int, minIdx: nat, maxIdx: nat, mid: nat)
    returns (r: Result<Option<nat>, nat>)
    requires Probing(data, value, minIdx, maxIdx, mid)
    ensures r == Refine(data, value, minIdx, maxIdx, mid, 0)
  {
    ghost var target := Refine(data, value, minIdx, maxIdx, mid, 0);
    var lower, upper, probe := minIdx, maxIdx, mid;
    var result := data[probe];
    var i: nat := 0;
    while result != value && i < MaxRefinements
      invariant i <= MaxRefinements && Probing(data, value, lower, upper, probe) && result == data[probe]
      invariant Refine(data, value, lower, upper, probe, i) == target
      decreases MaxRefinements - i
    {
      var next := Narrow(lower, upper, probe, result > value);
      RefineStep(data, value, lower, upper, probe, i);
      i := i + 1;
      if next.mid >= |data| {
        return Err(next.mid);
      }
      lower, upper, probe := next.minIdx, next.maxIdx, next.mid;
      result := data[probe];
    }
    if result == value {
      return Ok(Some(probe));
    }
    return Ok(None);
  }

  /**
   * A refined probe never lies past the upper bound, so the only index that
   * can be out of range is the length itself, reached from a last element
   * below the value.
   */
  lemma {:induction false} RefineAborts(data: seq<int>, value: int, minIdx: nat, maxIdx: nat, mid: nat, steps: nat)
    requires Probing(data, value, minIdx, maxIdx, mid) && steps <= MaxRefinements
    ensures var r := Refine(data, value, minIdx, maxIdx, mid, steps);
      r.Err? ==> r.error == |data| && data[|data| - 1] < value
    decreases MaxRefinements - steps
  {
    if data[mid] != value && steps < MaxRefinements {
      RefineStep(data, value, minIdx, maxIdx, mid, steps);
      var next := Narrow(minIdx, maxIdx, mid, data[mid] > value);
      if next.mid < |data| {
        RefineAborts(data, value, next.minIdx, next.maxIdx, next.mid, steps + 1);
      } else {
        ProbePastEnd(minIdx, maxIdx, mid, |data|, data[mid] > value);
      }
    }
  }

  /** A refined probe lands past the end only from a probe below the value at the last index, and lands on the length. */
  lemma ProbePastEnd(minIdx: nat, maxIdx: nat, mid: nat, n: nat, tooHigh: bool)
    requires minIdx <= mid <= maxIdx <= n && mid < n && Narrow(minIdx, maxIdx, mid, tooHigh).mid >= n
    ensures !tooHigh && mid == n - 1 && Narrow(minIdx, maxIdx, mid, tooHigh).mid == n
  {
  }

  /**
   * binary_search aborts only by reading data[len]: on a slice of at most one
   * element, or after probing a last element below the value.
   */
  lemma Aborts(data: seq<int>, value: int)
    ensures var r := Search(data, value);
      r.Err? ==> r.error == |data| && (|data| <= 1 || data[|data| - 1] < value)
  {
    if |data| >= 2 {
      SearchStart(data, value);
      RefineAborts(data, value, 0, |data|, (|data| + 1) / 2, 0);
    }
  }

  /** Non-decreasing. */
  predicate Ascending(data: seq<int>)
  {
    forall p, q :: 0 <= p < q < |data| ==> data[p] <= data[q]
  }

  /**
   * In ascending data of two or more elements that holds the value, no probe
   * runs past the end: only a value above the last element can abort.
   */
  lemma PresentDoesNotAbort(data: seq<int>, value: int, k: nat)
    requires Ascending(data) && 2 <= |data| && k < |data| && data[k] == value
    ensures Search(data, value).Ok?
  {
    Aborts(data, value);
  }

  function Pow2(k: nat): (r: nat)
    ensures r >= 1
  {
    if k == 0 then 1 else 2 * Pow2(k - 1)
  }

  /**
   * When every element lies below the value each refinement probes the
   * upper middle of what is left, halving the distance to the end; the
   * search aborts exactly when that distance reaches zero in time.
   */
  lemma {:induction false} RefineAboveAll(data: seq<int>, value: int, minIdx: nat, mid: nat, steps: nat)
    requires Probing(data, value, minIdx, |data|, mid) && steps <= MaxRefinements
    requires forall j :: 0 <= j < |data| ==> data[j] < value
    ensures Refine(data, value, minIdx, |data|, mid, steps)
      == if |data| - mid < Pow2(MaxRefinements - steps) then Err(|data|) else Ok(None)
    decreases MaxRefinements - steps
  {
    var n := |data|;
    if steps < MaxRefinements {
      if (mid + n + 1) / 2 < n {
        RefineAboveAll(data, value, mid, (mid + n + 1) / 2, steps + 1);
      }
      AboveAllStep(data, value, minIdx, mid, steps);
    }
  }

  /** The step of RefineAboveAll: one refinement moves the probe to the upper middle of [mid, len). */
  lemma AboveAllStep(data: seq<int>, value: int, minIdx: nat, mid: nat, steps: nat)
    requires Probing(data, value, minIdx, |data|, mid) && steps < MaxRefinements
    requires forall j :: 0 <= j < |data| ==> data[j] < value
    requires var up := (mid + |data| + 1) / 2;
      up < |data| ==>
        Refine(data, value, mid, |data|, up, steps + 1) ==
        (if |data| - up < Pow2(MaxRefinements - (steps + 1)) then Err(|data|) else Ok(None))
    ensures Refine(data, value, minIdx, |data|, mid, steps)
      == if |data| - mid < Pow2(MaxRefinements - steps) then Err(|data|) else Ok(None)
  {
    var n := |data|;
    var next := Narrow(minIdx, n, mid, data[mid] > value);
    assert next == Bounds(mid, n, (mid + n + 1) / 2);
    RefineStep(data, value, minIdx, n, mid, steps);
    var p := Pow2(MaxRefinements - (steps + 1));
    assert Pow2(MaxRefinements - steps) == 2 * p;
    Halving(n, mid, p);
  }

  /** Probing the upper middle of [mid, n) halves the distance to n, rounding down. */
  lemma Halving(n: nat, mid: nat, p: nat)
    requires mid < n && p >= 1
    ensures (mid + n + 1) / 2 < n ==> (n - (mid + n + 1) / 2 < p <==> n - mid < 2 * p)
    ensures (mid + n + 1) / 2 >= n ==> n - mid == 1 && n - mid < 2 * p
  {
  }

  /**
   * A value above every element aborts the search on a slice shorter than
   * 2048 elements and is reported absent on a longer one.
   */
  lemma AboveAll(data: seq<int>, value: int)
    requires forall j :: 0 <= j < |data| ==> data[j] < value
    ensures Search(data, value) == if |data| < 2048 then Err(|data|) else Ok(None)
  {
    if |data| >= 2 {
      SearchStart(data, value);
      RefineAboveAll(data, value, 0, (|data| + 1) / 2, 0);
      assert Pow2(MaxRefinements) == 1024;
    }
  }

  /**
   * A probe above the value whose refinement lands on itself never moves
   * again: the search gives up once the refinements run out.
   */
  lemma {:induction false} Stalled(data: seq<int>, value: int, minIdx: nat, mid: nat, steps: nat)
    requires Probing(data, value, minIdx, mid, mid) && steps <= MaxRefinements
    requires data[mid] > value && mid != 1 && (minIdx + mid + 1) / 2 == mid
    ensures Refine(data, value, minIdx, mid, mid, steps) == Ok(None)
    decreases MaxRefinements - steps
  {
    if steps < MaxRefinements {
      RefineStep(data, value, minIdx, mid, mid, steps);
      Stalled(data, value, minIdx, mid, steps + 1);
    }
  }

  /** The values the source finds in [1, 3, 4, 5, 7, 10, 15, 19]. */
  lemma Examples()
    ensures Search([1, 3, 4, 5, 7, 10, 15, 19], 1) == Ok(Some(0))
    ensures Search([1, 3, 4, 5, 7, 10, 15, 19], 3) == Ok(Some(1))
    ensures Search([1, 3, 4, 5, 7, 10, 15, 19], 15) == Ok(Some(6))
  {
    var d := [1, 3, 4, 5, 7, 10, 15, 19];
    SearchStart(d, 1);
    assert Refine(d, 1, 0, 8, 4, 0) == Refine(d, 1, 0, 4, 2, 1);
    assert Refine(d, 1, 0, 4, 2, 1) == Refine(d, 1, 0, 2, 1, 2);
    assert Refine(d, 1, 0, 2, 1, 2) == Refine(d, 1, 0, 1, 0, 3);
    SearchStart(d, 3);
    assert Refine(d, 3, 0, 8, 4, 0) == Refine(d, 3, 0, 4, 2, 1);
    assert Refine(d, 3, 0, 4, 2, 1) == Refine(d, 3, 0, 2, 1, 2);
    SearchStart(d, 15);
    assert Refine(d, 15, 0, 8, 4, 0) == Refine(d, 15, 4, 8, 6, 1);
  }

  /** The value the source reports absent from [1, 3, 4, 5, 7, 10, 15, 19]: the probe stalls at 6. */
  lemma ExampleAbsent()
    ensures Search([1, 3, 4, 5, 7, 10, 15, 19], 13) == Ok(None)
  {
    var d := [1, 3, 4, 5, 7, 10, 15, 19];
    SearchStart(d, 13);
    assert Refine(d, 13, 0, 8, 4, 0) == Refine(d, 13, 4, 8, 6, 1);
    assert Refine(d, 13, 4, 8, 6, 1) == Refine(d, 13, 4, 6, 5, 2);
    assert Refine(d, 13, 4, 6, 5, 2) == Refine(d, 13, 5, 6, 6, 3);
    Stalled(d, 13, 5, 6, 3);
  }
}
