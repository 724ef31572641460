/**
 * Kruskal's algorithm over vertex ids with a recursive, path-compressing
 * `find_set` (and an equivalent `find_set_short`).  Its `union` compares the
 * ranks of the two roots but then swaps the argument vertices instead of the
 * roots, so the second root is always hung under the first: rank never
 * decides the direction, and the ranks no longer order the forest.  A ghost
 * height therefore witnesses that the parent vector stays a forest.
 */
module KruskalAdjacency {
  import opened SpanningForest
  import opened ParentForest

  /** The root of `vertex`; afterwards every vertex on its path points at the root. */
  method FindSet(vertex: nat, parents: array<nat>, ghost h: seq<nat>) returns (root: nat)
    requires Forest(parents[..], h) && vertex < parents.Length
    modifies parents
    ensures root == Root(old(parents[..]), h, vertex)
    ensures parents[..] == Compressed(old(parents[..]), h, vertex)
    ensures SameRoots(old(parents[..]), h, parents[..], h)
    decreases MaxOf(h) - h[vertex]
  {
    ghost var p := parents[..];
    if vertex != parents[vertex] {
      var found := FindSet(parents[vertex], parents, h);
      parents[vertex] := found;
      assert parents[..] == Compressed(p, h, p[vertex])[vertex := found];
      CompressedRoots(p, h, vertex);
      return parents[vertex];
    }
    CompressedRoots(p, h, vertex);
    return vertex;
  }

  /** The same search written with a single return of `parents[vertex]`. */
  method FindSetShort(vertex: nat, parents: array<nat>, ghost h: seq<nat>) returns (root: nat)
    requires Forest(parents[..], h) && vertex < parents.Length
    modifies parents
    ensures root == Root(old(parents[..]), h, vertex)
    ensures parents[..] == Compressed(old(parents[..]), h, vertex)
    ensures SameRoots(old(parents[..]), h, parents[..], h)
  {
    ghost var p := parents[..];
    if vertex != parents[vertex] {
      var found := FindSet(parents[vertex], parents, h);
      parents[vertex] := found;
      assert parents[..] == Compressed(p, h, p[vertex])[vertex := found];
    }
    CompressedRoots(p, h, vertex);
    return parents[vertex];
  }

  /**
   * `union` as written: after finding both roots, the rank comparison swaps
   * `u` and `v`, which are no longer used, so `root2` always goes under
   * `root1`; on equal ranks `root1`'s rank grows by one.  The ghost result is
   * the height that keeps witnessing a forest.
   */
  method Union(u: nat, v: nat, parents: array<nat>, ranks: array<nat>, ghost h: seq<nat>)
    returns (ghost h': seq<nat>)
    requires parents != ranks && parents.Length == ranks.Length
    requires Forest(parents[..], h) && u < parents.Length && v < parents.Length
    modifies parents, ranks
    ensures Forest(Compressed(old(parents[..]), h, u), h)
    ensures
      var p2 := Compressed(Compressed(old(parents[..]), h, u), h, v);
      var r1 := Root(old(parents[..]), h, u);
      var r2 := Root(old(parents[..]), h, v);
      if r1 == r2 then
        parents[..] == p2 && ranks[..] == old(ranks[..]) && h' == h
      else
        parents[..] == p2[r2 := r1] && h' == Raise(h, r2, r1) &&
        ranks[..] == old(ranks[..])[r1 := if old(ranks[r1]) == old(ranks[r2]) then old(ranks[r1]) + 1 else old(ranks[r1])]
    ensures Root(old(parents[..]), h, u) == Root(old(parents[..]), h, v) ==> SameRoots(old(parents[..]), h, parents[..], h')
    ensures Root(old(parents[..]), h, u) != Root(old(parents[..]), h, v) ==>
              Linked(old(parents[..]), h, parents[..], h', Root(old(parents[..]), h, v), Root(old(parents[..]), h, u))
  {
    ghost var p0 := parents[..];
    var root1 := FindSet(u, parents, h);
    ghost var p1 := parents[..];
    var root2 := FindSet(v, parents, h);
    SameRootsTrans(p0, h, p1, h, parents[..], h);
    if root1 == root2 {
      return h;
    }
    var u', v' := u, v;
    if ranks[root1] < ranks[root2] {
      u', v' := v', u';
    }
    ghost var p2 := parents[..];
    parents[root2] := root1;
    if ranks[root1] == ranks[root2] {
      ranks[root1] := ranks[root1] + 1;
    }
    h' := Raise(h, root2, root1);
    Link(p2, h, root2, root1);
    SameThenLinked(p0, h, p2, h, parents[..], h', root2, root1);
  }

  /**
   * What the rank comparison evidently intended: swap the roots, so the root of
   * lower rank goes under the other.  This keeps the ranks ordering the forest.
   */
  method UnionSwappingRoots(u: nat, v: nat, parents: array<nat>, ranks: array<nat>)
    requires parents != ranks && Forest(parents[..], ranks[..])
    requires u < parents.Length && v < parents.Length
    modifies parents, ranks
    ensures UnionedByRank(old(parents[..]), old(ranks[..]), parents[..], ranks[..], u, v)
    ensures Forest(parents[..], ranks[..])
  {
    ghost var p0, h := parents[..], ranks[..];
    var root1 := FindSet(u, parents, h);
    ghost var p1 := parents[..];
    var root2 := FindSet(v, parents, h);
    SameRootsTrans(p0, h, p1, h, parents[..], h);
    if root1 == root2 {
      return;
    }
    ghost var p2, r1, r2 := parents[..], root1, root2;
    if ranks[root1] < ranks[root2] {
      root1, root2 := root2, root1;
    }
    parents[root2] := root1;
    if ranks[root1] == ranks[root2] {
      ranks[root1] := ranks[root1] + 1;
    }
    LinkByRank(p0, h, p2, u, v, r1, r2, parents[..], ranks[..]);
  }

  /**
   * The as-written union hangs a root of rank 1 under a root of rank 0: with
   * parents [0, 0, 2] and ranks [1, 0, 0], `union(2, 0)` links root 0 under
   * root 2, and the ranks no longer increase towards the roots.
   */
  lemma UnionIgnoresRank(q: seq<nat>)
    requires Forest([0, 0, 2], [1, 0, 0])
    requires q == Compressed(Compressed([0, 0, 2], [1, 0, 0], 2), [1, 0, 0], 0)[0 := 2]
    ensures q == [2, 0, 2] && !Forest(q, [1, 0, 0])
  {
    assert Compressed([0, 0, 2], [1, 0, 0], 2) == [0, 0, 2];
    assert Compressed([0, 0, 2], [1, 0, 0], 0) == [0, 0, 2];
    assert q[0] == 2 && q[0] != 0;
  }

  /**
   * Kruskal's algorithm with the as-written union.  The parents start as a copy
   * of the vertex list, so the vertices must be 0..n-1 in order; `sorted` is the
   * edge list as the unstable sort by weight returns it.  The direction of each
   * link does not matter for the result.
   */
  method BuildMst(graph: Graph, sorted: seq<Edge>) returns (forest: seq<(nat, nat)>)
    requires graph.vertices == Identity(|graph.vertices|)
    requires SortedPermutation(sorted, graph.edges)
    requires EdgesIn(|graph.vertices|, graph.edges)
    ensures forest == Kruskal(|graph.vertices|, sorted)
  {
    forest := [];
    var parents := new nat[|graph.vertices|](i requires 0 <= i < |graph.vertices| => graph.vertices[i]);
    var ranks := new nat[|graph.vertices|](_ => 0);
    var n := parents.Length;
    SortedEdgesIn(n, sorted, graph.edges);
    assert parents[..] == Identity(n);
    ghost var h: seq<nat> := seq(n, _ => 0);
    IdentityForest(n, h);
    for i := 0 to |sorted|
      invariant Forest(parents[..], h) && ranks.Length == n
      invariant forest == Kruskal(n, sorted[..i])
      invariant Agrees(parents[..], h, Labels(n, forest))
    {
      forest, h := AddEdge(sorted, i, forest, parents, ranks, h);
    }
    assert sorted[..|sorted|] == sorted;
  }

  /** The body of `build_mst`'s loop: considers the sorted edge number `i`. */
  method AddEdge(sorted: seq<Edge>, i: nat, forest: seq<(nat, nat)>,
                 parents: array<nat>, ranks: array<nat>, ghost h: seq<nat>)
    returns (forest': seq<(nat, nat)>, ghost h': seq<nat>)
    requires parents != ranks && ranks.Length == parents.Length
    requires i < |sorted| && EdgesIn(parents.Length, sorted)
    requires forest == Kruskal(parents.Length, sorted[..i]) && Agrees(parents[..], h, Labels(parents.Length, forest))
    modifies parents, ranks
    ensures forest' == Kruskal(parents.Length, sorted[..i + 1]) && Agrees(parents[..], h', Labels(parents.Length, forest'))
  {
    var n := parents.Length;
    forest' := forest;
    var edge := sorted[i];
    ghost var lab := Labels(n, forest);
    ghost var p0 := parents[..];
    var root1 := FindSet(edge.u, parents, h);
    ghost var p1 := parents[..];
    var root2 := FindSet(edge.v, parents, h);
    assert Agrees(parents[..], h, lab) by {
      SameRootsTrans(p0, h, p1, h, parents[..], h);
      AgreesSameRoots(p0, h, parents[..], h, lab);
    }
    h' := h;
    if root1 != root2 {
      KruskalTakes(n, sorted, i, forest);
      forest' := forest' + [(edge.u, edge.v)];
      ghost var p2 := parents[..];
      h' := Union(root1, root2, parents, ranks, h);
      AgreesLinked(p2, h, parents[..], h', lab, edge.u, edge.v, root2, root1);
    } else {
      KruskalSkips(n, sorted, i, forest);
    }
  }
}
