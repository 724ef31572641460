/**
 * The second union-find of the repository: a structure holding a parent
 * vector and a rank vector, with recursive path compression in `Find` and
 * union by rank, and the Kruskal builder that uses it.
 *
 * Union by rank keeps ranks strictly increasing along every parent link, so
 * here the ranks themselves witness that the parent vector is a forest.
 */
module UnionFindSecond {
  import opened Wrappers
  import opened SpanningForest
  import opened ParentForest

  class UnionFind {
    var parents: seq<nat>
    var ranks: seq<nat>

    /** Parent links stay in range and climb strictly in rank. */
    ghost predicate Valid()
      reads this
    {
      Forest(parents, ranks)
    }

    /** `n` singleton sets, all of rank 0. */
    constructor(n: nat)
      ensures Valid()
      ensures parents == Identity(n) && ranks == seq(n, _ => 0)
      ensures forall x :: 0 <= x < n ==> Root(parents, ranks, x) == x
    {
      parents := seq(n, i => i);
      ranks := seq(n, _ => 0);
    }

    /**
     * The root of `idx`'s set, compressing the path from `idx`;
     * `None` when `idx` is not an element.
     */
    method Find(idx: nat) returns (r: Option<nat>)
      requires Valid()
      modifies this
      ensures Valid() && ranks == old(ranks)
      ensures idx >= |old(parents)| ==> r == None && parents == old(parents)
      ensures idx < |old(parents)| ==>
                r == Some(Root(old(parents), ranks, idx)) &&
                parents == Compressed(old(parents), ranks, idx)
      ensures idx < |old(parents)| ==> SameRoots(old(parents), ranks, parents, ranks)
      decreases if idx < |parents| && |ranks| == |parents| then MaxOf(ranks) - ranks[idx] else 0
    {
      if idx >= |parents| {
        return None;
      }
      var parentIdx := parents[idx];
      if parentIdx != idx {
        ghost var p0 := parents;
        var found := Find(parentIdx);
        match found {
          case None =>
            assert false;
          case Some(root) =>
            parents := parents[idx := root];
            CompressedRoots(p0, ranks, idx);
            return Some(parents[idx]);
        }
      }
      CompressedRoots(parents, ranks, idx);
      return Some(parentIdx);
    }

    /**
     * Joins the sets of `a` and `b`: the root of lower rank is hung under the
     * other, and on equal ranks `b`'s root goes under `a`'s, whose rank grows
     * by one.  An element that does not exist is an error.
     */
    method Union(a: nat, b: nat) returns (r: Result<(), string>)
      requires Valid()
      modifies this
      ensures Valid()
      ensures a >= |old(parents)| ==> r.Err? && parents == old(parents) && ranks == old(ranks)
      ensures a < |old(parents)| && b >= |old(parents)| ==>
                r.Err? && parents == Compressed(old(parents), old(ranks), a) && ranks == old(ranks)
      ensures a < |old(parents)| && b < |old(parents)| ==>
                r.Ok? && UnionedByRank(old(parents), old(ranks), parents, ranks, a, b)
      ensures |parents| == |old(parents)|
    {
      ghost var p0 := parents;
      var found1 := Find(a);
      var root1: nat;
      match found1 {
        case None => return Err("unable to find `a`");
        case Some(root) => root1 := root;
      }
      ghost var p1 := parents;
      var found2 := Find(b);
      var root2: nat;
      match found2 {
        case None => return Err("unable to find `b`");
        case Some(root) => root2 := root;
      }
      SameRootsTrans(p0, ranks, p1, ranks, parents, ranks);
      if root1 == root2 {
        return Ok(());
      }
      ghost var p2, r1, r2 := parents, root1, root2;
      if ranks[root1] < ranks[root2] {
        root1, root2 := root2, root1;
      } else if ranks[root1] == ranks[root2] {
        ranks := ranks[root1 := ranks[root1] + 1];
      }
      parents := parents[root2 := root1];
      LinkByRank(p0, old(ranks), p2, a, b, r1, r2, parents, ranks);
      return Ok(());
    }
  }

  /**
   * Kruskal's algorithm over the union-find: `sorted` is the edge list as the
   * library's unstable sort by weight returns it.  The result is exactly
   * Kruskal's greedy selection over that order.
   */
  method BuildMst(graph: Graph, sorted: seq<Edge>) returns (mst: seq<(nat, nat)>)
    requires SortedPermutation(sorted, graph.edges)
    requires EdgesIn(|graph.vertices|, graph.edges)
    ensures mst == Kruskal(|graph.vertices|, sorted)
  {
    var n := |graph.vertices|;
    SortedEdgesIn(n, sorted, graph.edges);
    mst := [];
    var uf := new UnionFind(n);
    IdentityForest(n, uf.ranks);
    for i := 0 to |sorted|
      invariant uf.Valid() && |uf.parents| == n
      invariant mst == Kruskal(n, sorted[..i])
      invariant Agrees(uf.parents, uf.ranks, Labels(n, mst))
    {
      var e := sorted[i];
      ghost var lab := Labels(n, mst);
      ghost var p0, h0 := uf.parents, uf.ranks;
      var found1 := uf.Find(e.u);
      var root1 := found1.value;
      ghost var p1 := uf.parents;
      var found2 := uf.Find(e.v);
      var root2 := found2.value;
      assert Agrees(uf.parents, uf.ranks, lab) by {
        SameRootsTrans(p0, h0, p1, h0, uf.parents, uf.ranks);
        AgreesSameRoots(p0, h0, uf.parents, uf.ranks, lab);
      }
      if root1 == root2 {
        KruskalSkips(n, sorted, i, mst);
        continue;
      }
      ghost var p2, h2 := uf.parents, uf.ranks;
      var res := uf.Union(root1, root2);
      var _ := res.value;
      AgreesUnioned(p2, h2, uf.parents, uf.ranks, lab, root1, root2, e.u, e.v);
      KruskalTakes(n, sorted, i, mst);
      mst := mst + [(e.u, e.v)];
    }
    assert sorted[..|sorted|] == sorted;
  }
}
