/**
 * Kruskal's algorithm over an edge list with a recursive, path-compressing
 * `find` that threads its result through `Option`, and a union by rank; the
 * parent and rank vectors are mutable slices owned by the builder, and the
 * parents start as a copy of the vertex list.
 */
module KruskalRecursive {
  import opened Wrappers
  import opened SpanningForest
  import opened ParentForest

  /**
   * The root of `idx`, pointing every vertex on its path at the root.  The
   * index must exist (the slice is indexed without a check), so the result is
   * never `None`.  `ranks` is passed along but not used.
   */
  method Find(idx: nat, parents: array<nat>, ranks: array<nat>) returns (r: Option<nat>)
    requires parents != ranks && Forest(parents[..], ranks[..]) && idx < parents.Length
    modifies parents
    ensures r == Some(Root(old(parents[..]), ranks[..], idx))
    ensures parents[..] == Compressed(old(parents[..]), ranks[..], idx)
    ensures SameRoots(old(parents[..]), ranks[..], parents[..], ranks[..])
    decreases MaxOf(ranks[..]) - ranks[idx]
  {
    ghost var p := parents[..];
    if idx != parents[idx] {
      var found := Find(parents[idx], parents, ranks);
      match found {
        case None =>
          assert false;
        case Some(root) =>
          parents[idx] := root;
          assert parents[..] == Compressed(p, ranks[..], p[idx])[idx := root];
      }
    }
    CompressedRoots(p, ranks[..], idx);
    return Some(parents[idx]);
  }

  /** Union by rank of the sets of `a` and `b`; always `Some(())` for existing indices. */
  method Union(a: nat, b: nat, parents: array<nat>, ranks: array<nat>) returns (r: Option<()>)
    requires parents != ranks && Forest(parents[..], ranks[..])
    requires a < parents.Length && b < parents.Length
    modifies parents, ranks
    ensures r == Some(())
    ensures UnionedByRank(old(parents[..]), old(ranks[..]), parents[..], ranks[..], a, b)
  {
    ghost var p0, h := parents[..], ranks[..];
    var found1 := Find(a, parents, ranks);
    var root1: nat;
    match found1 {
      case None => return None;
      case Some(root) => root1 := root;
    }
    ghost var p1 := parents[..];
    var found2 := Find(b, parents, ranks);
    var root2: nat;
    match found2 {
      case None => return None;
      case Some(root) => root2 := root;
    }
    SameRootsTrans(p0, h, p1, h, parents[..], h);
    if root1 == root2 {
      return Some(());
    }
    ghost var p2, r1, r2 := parents[..], root1, root2;
    if ranks[root1] < ranks[root2] {
      root1, root2 := root2, root1;
    }
    if ranks[root1] == ranks[root2] {
      ranks[root1] := ranks[root1] + 1;
    }
    parents[root2] := root1;
    LinkByRank(p0, h, p2, a, b, r1, r2, parents[..], ranks[..]);
    return Some(());
  }

  /**
   * Kruskal's algorithm with the recursive union-find.  The parents start as
   * a copy of the vertex list, so the vertices must be 0..n-1 in order;
   * `sorted` is the edge list as the unstable sort by weight returns it.
   */
  method BuildMst(graph: Graph, sorted: seq<Edge>) returns (mst: seq<(nat, nat)>)
    requires graph.vertices == Identity(|graph.vertices|)
    requires SortedPermutation(sorted, graph.edges)
    requires EdgesIn(|graph.vertices|, graph.edges)
    ensures mst == Kruskal(|graph.vertices|, sorted)
  {
    mst := [];
    var parents := new nat[|graph.vertices|](i requires 0 <= i < |graph.vertices| => graph.vertices[i]);
    var ranks := new nat[parents.Length](_ => 0);
    var n := parents.Length;
    SortedEdgesIn(n, sorted, graph.edges);
    assert parents[..] == Identity(n);
    IdentityForest(n, ranks[..]);
    for i := 0 to |sorted|
      invariant Forest(parents[..], ranks[..])
      invariant mst == Kruskal(n, sorted[..i])
      invariant Agrees(parents[..], ranks[..], Labels(n, mst))
    {
      mst := AddEdge(parents, ranks, sorted, i, mst);
    }
    assert sorted[..|sorted|] == sorted;
  }

  /** The body of `build_mst`'s loop: considers the sorted edge number `i`. */
  method AddEdge(parents: array<nat>, ranks: array<nat>, sorted: seq<Edge>, i: nat, mst: seq<(nat, nat)>)
    returns (mst': seq<(nat, nat)>)
    requires parents != ranks && Forest(parents[..], ranks[..])
    requires i < |sorted| && EdgesIn(parents.Length, sorted)
    requires mst == Kruskal(parents.Length, sorted[..i]) && Agrees(parents[..], ranks[..], Labels(parents.Length, mst))
    modifies parents, ranks
    ensures Forest(parents[..], ranks[..])
    ensures mst' == Kruskal(parents.Length, sorted[..i + 1]) && Agrees(parents[..], ranks[..], Labels(parents.Length, mst'))
  {
    var n := parents.Length;
    var edge := sorted[i];
    ghost var lab := Labels(n, mst);
    ghost var p0 := parents[..];
    var found1 := Find(edge.u, parents, ranks);
    var root1 := found1.value;
    ghost var p1 := parents[..];
    var found2 := Find(edge.v, parents, ranks);
    var root2 := found2.value;
    assert Agrees(parents[..], ranks[..], lab) by {
      SameRootsTrans(p0, ranks[..], p1, ranks[..], parents[..], ranks[..]);
      AgreesSameRoots(p0, ranks[..], parents[..], ranks[..], lab);
    }
    if root1 == root2 {
      KruskalSkips(n, sorted, i, mst);
      return mst;
    }
    ghost var p2, h2 := parents[..], ranks[..];
    var _ := Union(root1, root2, parents, ranks);
    AgreesUnioned(p2, h2, parents[..], ranks[..], lab, root1, root2, edge.u, edge.v);
    KruskalTakes(n, sorted, i, mst);
    mst' := mst + [(edge.u, edge.v)];
  }
}
