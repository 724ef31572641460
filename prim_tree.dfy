/**
 * Definitions shared by the Prim builders.  A graph is a weighted adjacency
 * list: `adj[x]` lists pairs (y, w) meaning "from x, vertex y at weight w".
 * The builders grow a tree from vertex 0 along listed entries; they stop
 * when every vertex is visited, and never stop when some vertex cannot be
 * reached from vertex 0 through listed entries.
 */
module PrimTree {
  import opened Wrappers
  import opened SpanningForest

  type Adjacency = seq<seq<(nat, int)>>

  /** Every listed neighbour is a vertex of the graph. */
  predicate ValidAdjacency(adj: Adjacency)
  {
    forall x, k :: 0 <= x < |adj| && 0 <= k < |adj[x]| ==> adj[x][k].0 < |adj|
  }

  /** y is listed among x's neighbours. */
  ghost predicate Listed(adj: Adjacency, x: nat, y: nat)
    requires x < |adj|
  {
    exists k :: 0 <= k < |adj[x]| && adj[x][k].0 == y
  }

  /** The marked set is closed under listed entries. */
  ghost predicate Closed(adj: Adjacency, marked: seq<bool>)
  {
    |marked| == |adj| &&
    forall x, k :: 0 <= x < |adj| && marked[x] && 0 <= k < |adj[x]| ==> adj[x][k].0 < |adj| && marked[adj[x][k].0]
  }

  /** Some vertex cannot be reached from vertex 0 through listed entries. */
  ghost predicate Stuck(adj: Adjacency)
  {
    exists marked :: Closed(adj, marked) && |adj| > 0 && marked[0] && exists y :: 0 <= y < |adj| && !marked[y]
  }

  /** Every visited vertex lies in every closed set that contains vertex 0. */
  ghost predicate Reached(adj: Adjacency, visited: seq<bool>)
  {
    forall marked :: Closed(adj, marked) && |adj| > 0 && marked[0] ==>
      forall x :: 0 <= x < |visited| && x < |adj| && visited[x] ==> marked[x]
  }

  /**
   * r is the choice of a Prim scan of `adj[left]`: None when every listed
   * neighbour is visited; otherwise an unvisited neighbour of least weight,
   * the first listed among equally light ones.
   */
  ghost predicate Lightest(adj: Adjacency, visited: seq<bool>, left: nat, r: Option<nat>)
    requires left < |adj| && ValidAdjacency(adj) && |visited| == |adj|
  {
    var es := adj[left];
    match r
    case None => forall k :: 0 <= k < |es| ==> visited[es[k].0]
    case Some(v) =>
      exists k :: 0 <= k < |es| && es[k].0 == v && !visited[v] &&
        (forall j :: 0 <= j < |es| && !visited[es[j].0] ==> es[k].1 <= es[j].1) &&
        (forall j :: 0 <= j < k && !visited[es[j].0] ==> es[k].1 < es[j].1)
  }

  /** Number of visited vertices below k. */
  function CountBelow(visited: seq<bool>, k: nat): nat
    requires k <= |visited|
  {
    if k == 0 then 0 else CountBelow(visited, k - 1) + (if visited[k - 1] then 1 else 0)
  }

  /** The count is at most k, and reaches k exactly when every vertex below k is visited. */
  lemma {:induction false} CountBound(visited: seq<bool>, k: nat)
    requires k <= |visited|
    ensures CountBelow(visited, k) <= k
    ensures CountBelow(visited, k) == k <==> forall i :: 0 <= i < k ==> visited[i]
  {
    if k > 0 {
      CountBound(visited, k - 1);
    }
  }

  /** Marking an unvisited vertex adds one to the count. */
  lemma {:induction false} CountMark(visited: seq<bool>, x: nat, k: nat)
    requires x < |visited| && !visited[x] && k <= |visited|
    ensures CountBelow(visited[x := true], k) == CountBelow(visited, k) + (if x < k then 1 else 0)
  {
    if k > 0 {
      CountMark(visited, x, k - 1);
    }
  }

  /**
   * The tree grown so far: visited vertices carry label 0, every other
   * vertex is still a singleton.
   */
  ghost predicate Grown(n: nat, visited: seq<bool>, tree: seq<(nat, nat)>)
  {
    |visited| == n && n > 0 && visited[0] && Acyclic(n, tree) &&
    forall x :: 0 <= x < n ==> Labels(n, tree)[x] == (if visited[x] then 0 else x)
  }

  /** Every pair of the tree is a listed entry. */
  ghost predicate AllListed(adj: Adjacency, tree: seq<(nat, nat)>)
  {
    forall i :: 0 <= i < |tree| ==> tree[i].0 < |adj| && Listed(adj, tree[i].0, tree[i].1)
  }

  /** The start of every Prim builder: only vertex 0 visited, no edge. */
  lemma Start(adj: Adjacency)
    requires |adj| > 0
    ensures Growing(adj, seq(|adj|, i => i == 0), [], 1)
  {
    var visited := seq(|adj|, i => i == 0);
    assert CountBelow(visited, 1) == 1;
    CountFrom(visited, 1, |adj|);
  }

  lemma {:induction false} CountFrom(visited: seq<bool>, j: nat, k: nat)
    requires j <= k <= |visited| && forall i :: j <= i < |visited| ==> !visited[i]
    ensures CountBelow(visited, k) == CountBelow(visited, j)
  {
    if k > j {
      CountFrom(visited, j, k - 1);
    }
  }

  /**
   * The state of a Prim builder: a grown tree, visited vertices reachable
   * from vertex 0, listed edges only, and `count` the number of visited
   * vertices, one more than the number of edges.
   */
  ghost predicate Growing(adj: Adjacency, visited: seq<bool>, tree: seq<(nat, nat)>, count: nat)
  {
    Grown(|adj|, visited, tree) && Reached(adj, visited) && AllListed(adj, tree) &&
    count == CountBelow(visited, |adj|) && count == 1 + |tree|
  }

  /**
   * Adding a listed edge from a visited vertex to an unvisited one keeps the
   * tree a tree and grows it by that vertex.
   */
  lemma Grow(adj: Adjacency, visited: seq<bool>, tree: seq<(nat, nat)>, count: nat, left: nat, right: nat)
    requires Growing(adj, visited, tree, count)
    requires left < |adj| && right < |adj| && visited[left] && !visited[right] && Listed(adj, left, right)
    ensures Growing(adj, visited[right := true], tree + [(left, right)], count + 1)
  {
    var n := |adj|;
    var lab := Labels(n, tree);
    AcyclicSnoc(n, tree, (left, right));
    LabelsSnoc(n, tree, (left, right));
    CountMark(visited, right, n);
    forall marked | Closed(adj, marked) && marked[0]
      ensures forall x :: 0 <= x < n && visited[right := true][x] ==> marked[x]
    {
      var k :| 0 <= k < |adj[left]| && adj[left][k].0 == right;
      assert marked[left];
    }
  }

  /** Every visited vertex below `left` has only visited neighbours. */
  ghost predicate SweptBelow(adj: Adjacency, visited: seq<bool>, left: nat)
    requires |visited| == |adj| && left <= |adj| && ValidAdjacency(adj)
  {
    forall l, k :: 0 <= l < left && visited[l] && 0 <= k < |adj[l]| ==> visited[adj[l][k].0]
  }

  /** A sweep that finds nothing at `left` extends to `left + 1`. */
  lemma SweptNext(adj: Adjacency, visited: seq<bool>, left: nat)
    requires |visited| == |adj| && left < |adj| && ValidAdjacency(adj) && SweptBelow(adj, visited, left)
    requires visited[left] ==> Lightest(adj, visited, left, None)
    ensures SweptBelow(adj, visited, left + 1)
  {
  }

  /** A full sweep that finds nothing leaves a closed visited set. */
  lemma SweptCloses(adj: Adjacency, visited: seq<bool>)
    requires |visited| == |adj| && ValidAdjacency(adj) && SweptBelow(adj, visited, |adj|)
    ensures Closed(adj, visited)
  {
  }

  /** A closed visited set that misses a vertex shows that the graph is stuck. */
  lemma StuckAt(adj: Adjacency, visited: seq<bool>, tree: seq<(nat, nat)>, count: nat)
    requires Growing(adj, visited, tree, count) && Closed(adj, visited) && count < |adj|
    ensures Stuck(adj)
  {
    CountBound(visited, |adj|);
  }

  /** When every vertex is visited, the grown tree spans the graph and nothing is stuck. */
  lemma Spans(adj: Adjacency, visited: seq<bool>, tree: seq<(nat, nat)>, count: nat)
    requires Growing(adj, visited, tree, count) && count >= |adj|
    ensures SpanningTree(adj, tree) && !Stuck(adj)
  {
    CountBound(visited, |adj|);
  }

  /** The outcome of a Prim builder: a spanning tree of listed edges with n - 1 edges. */
  ghost predicate SpanningTree(adj: Adjacency, tree: seq<(nat, nat)>)
  {
    |adj| > 0 && |tree| == |adj| - 1 && Acyclic(|adj|, tree) && AllListed(adj, tree) &&
    forall x, y :: 0 <= x < |adj| && 0 <= y < |adj| ==> Connected(|adj|, tree, x, y)
  }
}
