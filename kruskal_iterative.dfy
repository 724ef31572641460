/**
 * Kruskal's algorithm over an edge list with an iterative, constant-memory
 * `find_set`: one loop climbs to the root, a second loop walks the same path
 * again and points every vertex on it at the root.  The parent and rank
 * vectors are mutable buffers owned by the builder.
 */
module KruskalIterative {
  import opened SpanningForest
  import opened ParentForest

  /**
   * The root of `vertex`; afterwards every vertex on its path points at the
   * root.  `h` is a ghost height witnessing that `parents` is a forest.
   */
  method FindSet(vertex: nat, parents: array<nat>, ghost h: seq<nat>) returns (root: nat)
    requires Forest(parents[..], h) && vertex < parents.Length
    modifies parents
    ensures root == Root(old(parents[..]), h, vertex)
    ensures parents[..] == Compressed(old(parents[..]), h, vertex)
    ensures SameRoots(old(parents[..]), h, parents[..], h)
  {
    ghost var p := parents[..];
    root := Climb(vertex, parents, h);
    PointAtRoot(vertex, root, parents, h);
    CompressedRoots(p, h, vertex);
    return parents[root];
  }

  /** The first loop of `find_set`: follows the parents up to the root. */
  method Climb(vertex: nat, parents: array<nat>, ghost h: seq<nat>) returns (root: nat)
    requires Forest(parents[..], h) && vertex < parents.Length
    ensures root == Root(parents[..], h, vertex)
  {
    ghost var p := parents[..];
    root := vertex;
    while parents[root] != root
      invariant root < parents.Length && Root(p, h, root) == Root(p, h, vertex)
      decreases MaxOf(h) - h[root]
    {
      root := parents[root];
    }
  }

  /**
   * The second loop of `find_set`: walks the path from `vertex` again and
   * points every vertex on it at the root.
   */
  method PointAtRoot(vertex: nat, root: nat, parents: array<nat>, ghost h: seq<nat>)
    requires Forest(parents[..], h) && vertex < parents.Length && root == Root(parents[..], h, vertex)
    modifies parents
    ensures parents[..] == Compressed(old(parents[..]), h, vertex)
  {
    ghost var p := parents[..];
    ghost var v0: nat := vertex;
    var v: nat := vertex;
    while parents[v] != root
      invariant v < parents.Length && OnPath(p, h, v0, v) && Root(p, h, v) == root
      invariant forall y :: 0 <= y < parents.Length ==>
                  parents[y] == if OnPath(p, h, v0, y) && !OnPath(p, h, v, y) then root else p[y]
      decreases MaxOf(h) - h[v]
    {
      var parent: nat := parents[v];
      assert p[v] != v;
      parents[v] := root;
      PathExtends(p, h, v0, v);
      if OnPath(p, h, parent, v) {
        PathClimbs(p, h, parent, v);
      }
      forall y | 0 <= y < parents.Length
        ensures OnPath(p, h, v, y) <==> y == v || OnPath(p, h, parent, y)
      {
      }
      v := parent;
    }
    CompressedAt(p, h, v0);
    forall y | 0 <= y < parents.Length
      ensures parents[y] == Compressed(p, h, v0)[y]
    {
      if OnPath(p, h, v, y) && y != v {
        assert OnPath(p, h, p[v], y);
      }
    }
  }

  /**
   * Joins the sets of `a` and `b` by rank: the root of lower rank is hung under
   * the other; on equal ranks `b`'s root goes under `a`'s, whose rank grows by one.
   */
  method Union(a: nat, b: nat, parents: array<nat>, ranks: array<nat>)
    requires parents != ranks && Forest(parents[..], ranks[..])
    requires a < parents.Length && b < parents.Length
    modifies parents, ranks
    ensures UnionedByRank(old(parents[..]), old(ranks[..]), parents[..], ranks[..], a, b)
  {
    ghost var p0, h := parents[..], ranks[..];
    var root1 := FindSet(a, parents, h);
    ghost var p1 := parents[..];
    var root2 := FindSet(b, parents, h);
    SameRootsTrans(p0, h, p1, h, parents[..], h);
    if root1 == root2 {
      return;
    }
    ghost var p2, r1, r2 := parents[..], root1, root2;
    if ranks[root1] < ranks[root2] {
      root1, root2 := root2, root1;
    }
    parents[root2] := root1;
    if ranks[root1] == ranks[root2] {
      ranks[root1] := ranks[root1] + 1;
    }
    LinkByRank(p0, h, p2, a, b, r1, r2, parents[..], ranks[..]);
  }

  /**
   * Kruskal's algorithm with the iterative union-find; `sorted` is the edge
   * list as the unstable sort by weight returns it.
   */
  method BuildMst(graph: Graph, sorted: seq<Edge>) returns (mst: seq<(nat, nat)>)
    requires SortedPermutation(sorted, graph.edges)
    requires EdgesIn(|graph.vertices|, graph.edges)
    ensures mst == Kruskal(|graph.vertices|, sorted)
  {
    mst := [];
    var size := |graph.vertices|;
    var parents := new nat[size](i => i);
    var ranks := new nat[size](_ => 1);
    SortedEdgesIn(size, sorted, graph.edges);
    assert parents[..] == Identity(size);
    IdentityForest(size, ranks[..]);
    for i := 0 to |sorted|
      invariant Forest(parents[..], ranks[..])
      invariant mst == Kruskal(size, sorted[..i])
      invariant Agrees(parents[..], ranks[..], Labels(size, mst))
    {
      mst := AddEdge(parents, ranks, sorted, i, mst);
    }
    assert sorted[..|sorted|] == sorted;
  }

  /** The body of `build_mst`'s loop: considers the sorted edge number `i`. */
  method AddEdge(parents: array<nat>, ranks: array<nat>, sorted: seq<Edge>, i: nat, mst: seq<(nat, nat)>)
    returns (mst': seq<(nat, nat)>)
    requires parents != ranks && Forest(parents[..], ranks[..])
    requires i < |sorted| && EdgesIn(parents.Length, sorted)
    requires mst == Kruskal(parents.Length, sorted[..i]) && Agrees(parents[..], ranks[..], Labels(parents.Length, mst))
    modifies parents, ranks
    ensures Forest(parents[..], ranks[..])
    ensures mst' == Kruskal(parents.Length, sorted[..i + 1]) && Agrees(parents[..], ranks[..], Labels(parents.Length, mst'))
  {
    var n := parents.Length;
    var edge := sorted[i];
    ghost var lab := Labels(n, mst);
    ghost var p0, h := parents[..], ranks[..];
    var root1 := FindSet(edge.u, parents, h);
    ghost var p1 := parents[..];
    var root2 := FindSet(edge.v, parents, h);
    assert Agrees(parents[..], h, lab) by {
      SameRootsTrans(p0, h, p1, h, parents[..], h);
      AgreesSameRoots(p0, h, parents[..], h, lab);
    }
    if root1 != root2 {
      ghost var p2 := parents[..];
      Union(root1, root2, parents, ranks);
      AgreesUnioned(p2, h, parents[..], ranks[..], lab, root1, root2, edge.u, edge.v);
      KruskalTakes(n, sorted, i, mst);
      mst' := mst + [(edge.u, edge.v)];
    } else {
      KruskalSkips(n, sorted, i, mst);
      mst' := mst;
    }
  }
}
