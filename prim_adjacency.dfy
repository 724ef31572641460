/**
 * Prim's algorithm over a weighted adjacency list, in two builders: the
 * standard one, which sweeps every visited vertex on each pass, and the
 * freestyle one, which keeps extending from the last visited vertex and
 * falls back to another visited, not yet depleted vertex.
 *
 * Weights are integers; the "infinite" starting minimum is `None`.  Where
 * the source would loop forever (a vertex cannot be reached from vertex 0),
 * the builders return `None`.
 */
module PrimAdjacency {
  import opened Wrappers
  import opened SpanningForest
  import opened PrimTree

  /**
   * The inner scan of the standard builder: `right` starts as `left` and is
   * replaced by any unvisited neighbour strictly lighter than the best so far.
   */
  method StandardScan(adj: Adjacency, visited: seq<bool>, left: nat) returns (right: nat)
    requires ValidAdjacency(adj) && |visited| == |adj| && left < |adj| && visited[left]
    ensures right < |adj| && (right != left ==> !visited[right] && Listed(adj, left, right))
    ensures Lightest(adj, visited, left, if right == left then None else Some(right))
  {
    var es := adj[left];
    var minWeight: Option<int> := None;
    right := left;
    ghost var best := 0;
    for j := 0 to |es|
      invariant right < |adj|
      invariant minWeight.None? ==> right == left && forall k :: 0 <= k < j ==> visited[es[k].0]
      invariant minWeight.Some? ==>
        best < j && es[best].0 == right && !visited[right] && es[best].1 == minWeight.value &&
        (forall k :: 0 <= k < j && !visited[es[k].0] ==> minWeight.value <= es[k].1) &&
        (forall k :: 0 <= k < best && !visited[es[k].0] ==> minWeight.value < es[k].1)
    {
      var (vertex, weight) := es[j];
      if visited[vertex] {
        continue;
      }
      if minWeight.None? || weight < minWeight.value {
        minWeight := Some(weight);
        right := vertex;
        best := j;
      }
    }
    if minWeight.Some? {
      assert right != left;
      assert 0 <= best < |es| && es[best].0 == right;
    }
  }

  /**
   * One pass of the standard builder's `for left in 0..size` loop: every
   * visited vertex, in index order, adds its lightest edge to an unvisited
   * vertex.  A pass that adds nothing leaves a closed visited set.
   */
  method StandardPass(adj: Adjacency, visited: seq<bool>, count: nat, mst: seq<(nat, nat)>)
    returns (visited': seq<bool>, count': nat, mst': seq<(nat, nat)>)
    requires ValidAdjacency(adj) && Growing(adj, visited, mst, count)
    ensures Growing(adj, visited', mst', count') && count <= count'
    ensures count' == count ==> visited' == visited && Closed(adj, visited)
  {
    var n := |adj|;
    visited', count', mst' := visited, count, mst;
    for left := 0 to n
      invariant Growing(adj, visited', mst', count') && count <= count'
      invariant count' == count ==> visited' == visited && SweptBelow(adj, visited, left)
    {
      if !visited'[left] {
        if count' == count {
          SweptNext(adj, visited, left);
        }
        continue;
      }
      var right := StandardScan(adj, visited', left);
      if left != right {
        Grow(adj, visited', mst', count', left, right);
        visited' := visited'[right := true];
        count' := count' + 1;
        mst' := mst' + [(left, right)];
      } else if count' == count {
        SweptNext(adj, visited, left);
      }
    }
    if count' == count {
      SweptCloses(adj, visited);
    }
  }

  /**
   * build_mst_standard: None exactly when the source loops forever, that is
   * when some vertex cannot be reached from vertex 0; otherwise a spanning
   * tree of listed edges.
   */
  method BuildMstStandard(adj: Adjacency) returns (r: Option<seq<(nat, nat)>>)
    requires |adj| > 0 && ValidAdjacency(adj)
    ensures r.None? <==> Stuck(adj)
    ensures r.Some? ==> SpanningTree(adj, r.value)
  {
    var n := |adj|;
    var mst: seq<(nat, nat)> := [];
    var visited := seq(n, i => i == 0);
    var count := 1;
    Start(adj);
    while count < n
      invariant Growing(adj, visited, mst, count)
      decreases n - count
    {
      var before := count;
      visited, count, mst := StandardPass(adj, visited, count, mst);
      if count == before {
        StuckAt(adj, visited, mst, count);
        return None;
      }
    }
    Spans(adj, visited, mst, count);
    return Some(mst);
  }

  /**
   * get_lowest_cost_edge: the pair (left, v) for the neighbour v that a Prim
   * scan of `adj[left]` chooses, or None when every neighbour is visited.
   */
  method GetLowestCostEdge(visited: seq<bool>, adj: Adjacency, left: nat) returns (out: Option<(nat, nat)>)
    requires ValidAdjacency(adj) && |visited| == |adj| && left < |adj|
    ensures out.None? ==> Lightest(adj, visited, left, None)
    ensures out.Some? ==> out.value.0 == left && out.value.1 < |adj| && !visited[out.value.1]
    ensures out.Some? ==> Listed(adj, left, out.value.1) && Lightest(adj, visited, left, Some(out.value.1))
  {
    var es := adj[left];
    var minWeight: Option<int> := None;
    out := None;
    ghost var best := 0;
    for j := 0 to |es|
      invariant out.None? <==> minWeight.None?
      invariant out.None? ==> forall k :: 0 <= k < j ==> visited[es[k].0]
      invariant out.Some? ==>
        out.value.0 == left && best < j && es[best].0 == out.value.1 && !visited[out.value.1] &&
        es[best].1 == minWeight.value &&
        (forall k :: 0 <= k < j && !visited[es[k].0] ==> minWeight.value <= es[k].1) &&
        (forall k :: 0 <= k < best && !visited[es[k].0] ==> minWeight.value < es[k].1)
    {
      var (right, weight) := es[j];
      if visited[right] {
        continue;
      }
      if minWeight.None? || weight < minWeight.value {
        minWeight := Some(weight);
        out := Some((left, right));
        best := j;
      }
    }
    if out.Some? {
      assert 0 <= best < |es| && es[best].0 == out.value.1;
    }
  }

  /** Number of visited vertices below k that are not depleted. */
  ghost function ActiveBelow(visited: seq<bool>, depleted: seq<nat>, k: nat): nat
    requires k <= |visited|
  {
    if k == 0 then 0
    else ActiveBelow(visited, depleted, k - 1) + (if visited[k - 1] && k - 1 !in depleted then 1 else 0)
  }

  /** Depleting an active vertex lowers the number of active vertices by one. */
  lemma {:induction false} ActiveDeplete(visited: seq<bool>, depleted: seq<nat>, x: nat, k: nat)
    requires x < |visited| && visited[x] && x !in depleted && k <= |visited|
    ensures ActiveBelow(visited, depleted + [x], k) + (if x < k then 1 else 0) == ActiveBelow(visited, depleted, k)
  {
    if k > 0 {
      ActiveDeplete(visited, depleted, x, k - 1);
    }
  }

  /**
   * The fallback search of the freestyle builder: the first visited vertex
   * that is not depleted and is not `last`.
   */
  method NextActive(visited: seq<bool>, depleted: seq<nat>, last: nat) returns (found: bool, i: nat)
    ensures found ==> i < |visited| && visited[i] && i !in depleted && i != last
    ensures !found ==> forall j :: 0 <= j < |visited| && visited[j] && j !in depleted ==> j == last
  {
    found, i := false, 0;
    for j := 0 to |visited|
      invariant forall l :: 0 <= l < j && visited[l] && l !in depleted ==> l == last
    {
      if j !in depleted && visited[j] && j != last {
        return true, j;
      }
    }
  }

  /** Every neighbour of x is visited. */
  ghost predicate Exhausted(adj: Adjacency, visited: seq<bool>, x: nat)
    requires x < |adj| && |visited| == |adj| && ValidAdjacency(adj)
  {
    forall k :: 0 <= k < |adj[x]| ==> visited[adj[x][k].0]
  }

  /**
   * build_mst_freestyle: None exactly when the source loops forever, that is
   * when some vertex cannot be reached from vertex 0; otherwise a spanning
   * tree of listed edges.
   */
  method BuildMstFreestyle(adj: Adjacency) returns (r: Option<seq<(nat, nat)>>)
    requires |adj| > 0 && ValidAdjacency(adj)
    ensures r.None? <==> Stuck(adj)
    ensures r.Some? ==> SpanningTree(adj, r.value)
  {
    var n := |adj|;
    var mst: seq<(nat, nat)> := [];
    var visited := seq(n, i => i == 0);
    var count := 1;
    var last: nat := 0;
    var depleted: seq<nat> := [];
    Start(adj);
    while count < n
      invariant Growing(adj, visited, mst, count)
      invariant last < n && visited[last] && last !in depleted
      invariant forall d :: d in depleted ==> d < n && visited[d] && Exhausted(adj, visited, d)
      decreases n - count, ActiveBelow(visited, depleted, n)
    {
      var edge := GetLowestCostEdge(visited, adj, last);
      if edge.Some? {
        Grow(adj, visited, mst, count, last, edge.value.1);
        last := edge.value.1;
        visited := visited[last := true];
        count := count + 1;
        mst := mst + [edge.value];
      } else {
        ActiveDeplete(visited, depleted, last, n);
        depleted := depleted + [last];
        var found, i := NextActive(visited, depleted, last);
        if !found {
          StuckAt(adj, visited, mst, count);
          return None;
        }
        last := i;
      }
    }
    Spans(adj, visited, mst, count);
    return Some(mst);
  }
}
