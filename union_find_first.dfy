/**
 * The first union-find of the repository: a disjoint-set structure over
 * values of any hashable type.  A hash map gives each value its index; the
 * parent and rank vectors are indexed by those indices.  `Find` compresses
 * paths recursively and `Union` links by rank.
 */
module UnionFindFirst {
  import opened Wrappers
  import opened SpanningForest
  import opened ParentForest

  class DisjointSet<T(==)> {
    var parents: seq<nat>
    var ranks: seq<nat>
    var index: map<T, nat>

    /** A forest ordered by rank, and every value maps to an existing index. */
    ghost predicate Valid()
      reads this
    {
      Forest(parents, ranks) &&
      forall value :: value in index ==> index[value] < |parents|
    }

    /** The empty structure. */
    constructor()
      ensures Valid()
      ensures parents == [] && ranks == [] && index == map[]
    {
      parents := [];
      ranks := [];
      index := map[];
    }

    /** The index of `value`, if it has been added. */
    method GetIdx(value: T) returns (r: Option<nat>)
      requires Valid()
      ensures value in index ==> r == Some(index[value]) && r.value < |parents|
      ensures value !in index ==> r == None
    {
      if value in index {
        return Some(index[value]);
      }
      return None;
    }

    /**
     * The root of index `idx`, compressing the path from it.  The index must
     * exist (the Rust code indexes the parent vector without a check).
     */
    method Find(idx: nat) returns (r: Option<nat>)
      requires Valid() && idx < |parents|
      modifies this
      ensures Valid() && ranks == old(ranks) && index == old(index)
      ensures r == Some(Root(old(parents), ranks, idx))
      ensures parents == Compressed(old(parents), ranks, idx)
      ensures SameRoots(old(parents), ranks, parents, ranks)
      decreases MaxOf(ranks) - ranks[idx]
    {
      if parents[idx] != idx {
        ghost var p0 := parents;
        var found := Find(parents[idx]);
        match found {
          case None =>
            assert false;
          case Some(root) =>
            parents := parents[idx := root];
            CompressedRoots(p0, ranks, idx);
        }
      } else {
        CompressedRoots(parents, ranks, idx);
      }
      return Some(parents[idx]);
    }

    /** Adds `value` as a singleton set of rank 0 under the next free index, unless it is present. */
    method MakeSet(value: T)
      requires Valid()
      modifies this
      ensures Valid()
      ensures value in old(index) ==> parents == old(parents) && ranks == old(ranks) && index == old(index)
      ensures value !in old(index) ==>
                parents == old(parents) + [|old(parents)|] && ranks == old(ranks) + [0] &&
                index == old(index)[value := |old(parents)|]
      ensures forall x :: 0 <= x < |old(parents)| ==> Root(parents, ranks, x) == Root(old(parents), old(ranks), x)
    {
      if value !in index {
        var idx := |parents|;
        parents := parents + [idx];
        ranks := ranks + [0];
        index := index[value := idx];
        ExtendRoots(old(parents), old(ranks));
      }
    }

    /**
     * Joins the sets of the values `a` and `b`: the root of lower rank is hung
     * under the other, and on equal ranks `b`'s root goes under `a`'s, whose
     * rank grows by one.  A value that was never added is an error.
     */
    method Union(a: T, b: T) returns (r: Result<(), string>)
      requires Valid()
      modifies this
      ensures Valid() && index == old(index) && |parents| == |old(parents)|
      ensures a !in index ==> r.Err? && parents == old(parents) && ranks == old(ranks)
      ensures a in index && b !in index ==> r.Err? && parents == old(parents) && ranks == old(ranks)
      ensures a in index && b in index ==>
                r.Ok? && UnionedByRank(old(parents), old(ranks), parents, ranks, index[a], index[b])
    {
      var foundA := GetIdx(a);
      var idxA: nat;
      match foundA {
        case None => return Err("`a` not found");
        case Some(i) => idxA := i;
      }
      var foundB := GetIdx(b);
      var idxB: nat;
      match foundB {
        case None => return Err("`b` not found");
        case Some(i) => idxB := i;
      }
      LinkSets(idxA, idxB);
      return Ok(());
    }

    /** The part of `union` after both indices were looked up: find both roots, then link by rank. */
    method LinkSets(idxA: nat, idxB: nat)
      requires Valid() && idxA < |parents| && idxB < |parents|
      modifies this
      ensures Valid() && index == old(index)
      ensures UnionedByRank(old(parents), old(ranks), parents, ranks, idxA, idxB)
    {
      ghost var p0 := parents;
      var foundRootA := Find(idxA);
      var rootA := foundRootA.value;
      ghost var p1 := parents;
      var foundRootB := Find(idxB);
      var rootB := foundRootB.value;
      assert SameRoots(p0, ranks, parents, ranks) by {
        SameRootsTrans(p0, ranks, p1, ranks, parents, ranks);
      }
      if rootA == rootB {
        return;
      }
      ghost var p2, r1, r2 := parents, rootA, rootB;
      if ranks[rootA] < ranks[rootB] {
        rootA, rootB := rootB, rootA;
      }
      parents := parents[rootB := rootA];
      if ranks[rootA] == ranks[rootB] {
        ranks := ranks[rootA := ranks[rootA] + 1];
      }
      LinkByRank(p0, old(ranks), p2, idxA, idxB, r1, r2, parents, ranks);
    }
  }

  /** Appending a new root keeps a forest and every old root. */
  lemma ExtendRoots(p: seq<nat>, h: seq<nat>)
    requires Forest(p, h)
    ensures Forest(p + [|p|], h + [0])
    ensures forall x :: 0 <= x < |p| ==> Root(p + [|p|], h + [0], x) == Root(p, h, x)
  {
    forall x | 0 <= x < |p| ensures Root(p + [|p|], h + [0], x) == Root(p, h, x) {
      ExtendRootAt(p, h, x);
    }
  }

  lemma {:induction false} ExtendRootAt(p: seq<nat>, h: seq<nat>, x: nat)
    requires Forest(p, h) && x < |p|
    requires Forest(p + [|p|], h + [0])
    ensures Root(p + [|p|], h + [0], x) == Root(p, h, x)
    decreases MaxOf(h) - h[x]
  {
    if p[x] != x {
      ExtendRootAt(p, h, p[x]);
    }
  }

  /** The loop of `build_mst` that adds every vertex value as a singleton set. */
  method MakeSets(ds: DisjointSet<nat>, vertices: seq<nat>)
    requires ds.Valid() && ds.parents == [] && ds.index == map[]
    requires vertices == Identity(|vertices|)
    modifies ds
    ensures ds.Valid()
    ensures ds.parents == Identity(|vertices|) && |ds.ranks| == |vertices|
    ensures forall v: nat :: v in ds.index <==> v < |vertices|
    ensures forall v: nat :: v in ds.index ==> ds.index[v] == v
  {
    for i := 0 to |vertices|
      invariant ds.Valid()
      invariant ds.parents == Identity(i) && |ds.ranks| == i
      invariant forall v: nat :: v in ds.index <==> v < i
      invariant forall v: nat :: v in ds.index ==> ds.index[v] == v
    {
      assert vertices[i] == i && i !in ds.index;
      ds.MakeSet(vertices[i]);
      assert ds.parents == Identity(i) + [i] == Identity(i + 1);
    }
  }

  /**
   * Kruskal's algorithm over the disjoint set of vertex values.  The Rust code
   * passes edge endpoints to `find` as indices and the roots it gets back to
   * `union` as values, which is only meaningful when the vertices are 0..n-1
   * in order; `sorted` is the edge list as the unstable sort by weight returns it.
   */
  method BuildMst(graph: Graph, sorted: seq<Edge>) returns (mst: seq<(nat, nat)>)
    requires graph.vertices == Identity(|graph.vertices|)
    requires SortedPermutation(sorted, graph.edges)
    requires EdgesIn(|graph.vertices|, graph.edges)
    ensures mst == Kruskal(|graph.vertices|, sorted)
  {
    var n := |graph.vertices|;
    SortedEdgesIn(n, sorted, graph.edges);
    mst := [];
    var ds := new DisjointSet<nat>();
    MakeSets(ds, graph.vertices);
    IdentityForest(n, ds.ranks);
    for i := 0 to |sorted|
      invariant ds.Valid() && |ds.parents| == n
      invariant forall v: nat :: v < n ==> v in ds.index && ds.index[v] == v
      invariant mst == Kruskal(n, sorted[..i])
      invariant Agrees(ds.parents, ds.ranks, Labels(n, mst))
    {
      mst := AddEdge(ds, sorted, i, mst, n);
    }
    assert sorted[..|sorted|] == sorted;
  }

  /** The body of `build_mst`'s loop: considers the sorted edge number `i`. */
  method AddEdge(ds: DisjointSet<nat>, sorted: seq<Edge>, i: nat, mst: seq<(nat, nat)>, ghost n: nat)
    returns (mst': seq<(nat, nat)>)
    requires ds.Valid() && |ds.parents| == n && i < |sorted| && EdgesIn(n, sorted)
    requires forall v: nat :: v < n ==> v in ds.index && ds.index[v] == v
    requires mst == Kruskal(n, sorted[..i]) && Agrees(ds.parents, ds.ranks, Labels(n, mst))
    modifies ds
    ensures ds.Valid() && |ds.parents| == n && ds.index == old(ds.index)
    ensures mst' == Kruskal(n, sorted[..i + 1]) && Agrees(ds.parents, ds.ranks, Labels(n, mst'))
  {
    mst' := mst;
    var edge := sorted[i];
    ghost var lab := Labels(n, mst);
    ghost var p0, h0 := ds.parents, ds.ranks;
    var foundA := ds.Find(edge.u);
    var rootA := foundA.value;
    ghost var p1 := ds.parents;
    var foundB := ds.Find(edge.v);
    var rootB := foundB.value;
    assert Agrees(ds.parents, ds.ranks, lab) by {
      SameRootsTrans(p0, h0, p1, h0, ds.parents, ds.ranks);
      AgreesSameRoots(p0, h0, ds.parents, ds.ranks, lab);
    }
    if rootA != rootB {
      mst' := mst' + [(edge.u, edge.v)];
      ghost var p2, h2 := ds.parents, ds.ranks;
      var res := ds.Union(rootA, rootB);
      var _ := res.value;
      AgreesUnioned(p2, h2, ds.parents, ds.ranks, lab, rootA, rootB, edge.u, edge.v);
      KruskalTakes(n, sorted, i, mst);
    } else {
      KruskalSkips(n, sorted, i, mst);
    }
  }
}
