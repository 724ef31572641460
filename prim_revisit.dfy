/**
 * The revisited Prim builder: the same sweep as the standard builder, with
 * the chosen neighbour kept as an `Option` rather than a sentinel.  Where the
 * source would loop forever (a vertex cannot be reached from vertex 0), the
 * builder returns `None`.
 */
module PrimRevisit {
  import opened Wrappers
  import opened SpanningForest
  import opened PrimTree

  /** The inner loop of build_mst: the lightest unvisited neighbour of u, first among ties. */
  method MinNeighbour(input: Adjacency, visited: seq<bool>, u: nat) returns (minV: Option<nat>)
    requires ValidAdjacency(input) && |visited| == |input| && u < |input|
    ensures minV.Some? ==> minV.value < |input| && !visited[minV.value] && Listed(input, u, minV.value)
    ensures Lightest(input, visited, u, minV)
  {
    var es := input[u];
    var minW: Option<int> := None;
    minV := None;
    ghost var best := 0;
    for j := 0 to |es|
      invariant minV.None? <==> minW.None?
      invariant minV.None? ==> forall k :: 0 <= k < j ==> visited[es[k].0]
      invariant minV.Some? ==>
        best < j && es[best].0 == minV.value && !visited[minV.value] && es[best].1 == minW.value &&
        (forall k :: 0 <= k < j && !visited[es[k].0] ==> minW.value <= es[k].1) &&
        (forall k :: 0 <= k < best && !visited[es[k].0] ==> minW.value < es[k].1)
    {
      var e := es[j];
      if visited[e.0] {
        continue;
      }
      if minW.None? || e.1 < minW.value {
        minV := Some(e.0);
        minW := Some(e.1);
        best := j;
      }
    }
    if minV.Some? {
      assert 0 <= best < |es| && es[best].0 == minV.value;
    }
  }

  /**
   * One pass of build_mst's `for u in 0..size` loop.  A pass that adds
   * nothing leaves a closed visited set.
   */
  method Pass(input: Adjacency, visited: seq<bool>, nVisited: nat, mst: seq<(nat, nat)>)
    returns (visited': seq<bool>, nVisited': nat, mst': seq<(nat, nat)>)
    requires ValidAdjacency(input) && Growing(input, visited, mst, nVisited)
    ensures Growing(input, visited', mst', nVisited') && nVisited <= nVisited'
    ensures nVisited' == nVisited ==> visited' == visited && Closed(input, visited)
  {
    var size := |input|;
    visited', nVisited', mst' := visited, nVisited, mst;
    for u := 0 to size
      invariant Growing(input, visited', mst', nVisited') && nVisited <= nVisited'
      invariant nVisited' == nVisited ==> visited' == visited && SweptBelow(input, visited, u)
    {
      if !visited'[u] {
        if nVisited' == nVisited {
          SweptNext(input, visited, u);
        }
        continue;
      }
      var minV := MinNeighbour(input, visited', u);
      if minV.Some? {
        Grow(input, visited', mst', nVisited', u, minV.value);
        mst' := mst' + [(u, minV.value)];
        visited' := visited'[minV.value := true];
        nVisited' := nVisited' + 1;
      } else if nVisited' == nVisited {
        SweptNext(input, visited, u);
      }
    }
    if nVisited' == nVisited {
      SweptCloses(input, visited);
    }
  }

  /**
   * build_mst: None exactly when the source loops forever, that is when some
   * vertex cannot be reached from vertex 0; otherwise a spanning tree of
   * listed edges.
   */
  method BuildMst(input: Adjacency) returns (r: Option<seq<(nat, nat)>>)
    requires |input| > 0 && ValidAdjacency(input)
    ensures r.None? <==> Stuck(input)
    ensures r.Some? ==> SpanningTree(input, r.value)
  {
    var size := |input|;
    var mst: seq<(nat, nat)> := [];
    var visited := seq(size, i => i == 0);
    var nVisited := 1;
    Start(input);
    while nVisited < size
      invariant Growing(input, visited, mst, nVisited)
      decreases size - nVisited
    {
      var before := nVisited;
      visited, nVisited, mst := Pass(input, visited, nVisited, mst);
      if nVisited == before {
        StuckAt(input, visited, mst, nVisited);
        return None;
      }
    }
    Spans(input, visited, mst, nVisited);
    return Some(mst);
  }
}
