/**
 * Kruskal's algorithm over linked vertex cells: every vertex is a shared,
 * mutable object holding its id, an optional parent vertex and a rank, and
 * edges refer to their end vertices directly.
 *
 * Two quirks of `union` are kept.  The vertex that is attached is the one
 * whose rank is raised, and when the first root has the smaller rank the
 * swapped borrow guards make the second root its own parent again, so no
 * merge happens.  From `build_mst` the second case never arises: only
 * attached vertices gain rank, so every root keeps rank 0.
 *
 * The parent links are related to the shared forest theory through the
 * vertices' ids: the vertex list is an arena in which vertex i has id i.
 */
module KruskalLinked {
  import opened Wrappers
  import opened SpanningForest
  import opened ParentForest

  class Vertex {
    const id: nat
    var parent: Option<Vertex>
    var rank: nat

    /** A vertex with no parent yet and rank 0. */
    constructor(id: nat)
      ensures this.id == id && parent == None && rank == 0
    {
      this.id := id;
      parent := None;
      rank := 0;
    }
  }

  /** An edge between two shared vertex cells. */
  datatype LinkedEdge = LinkedEdge(from: Vertex, to: Vertex, weight: int)

  class LinkedGraph {
    var edges: seq<LinkedEdge>
    var vertices: seq<Vertex>
  }

  /** Vertex i has id i, and every vertex has a parent inside the list. */
  ghost predicate Arena(vs: seq<Vertex>)
    reads set v | v in vs
  {
    (forall i :: 0 <= i < |vs| ==> vs[i].id == i) &&
    (forall i {:trigger vs[i].parent} :: 0 <= i < |vs| ==>
      vs[i].parent.Some? && vs[i].parent.value.id < |vs| && vs[vs[i].parent.value.id] == vs[i].parent.value)
  }

  /** In an arena a vertex sits at the index of its id. */
  lemma ArenaAt(vs: seq<Vertex>, x: Vertex)
    requires forall i :: 0 <= i < |vs| ==> vs[i].id == i
    requires x in vs
    ensures x.id < |vs| && vs[x.id] == x
  {
  }

  /** The parent links as a vector of ids. */
  ghost function Parents(vs: seq<Vertex>): (p: seq<nat>)
    requires Arena(vs)
    reads set v | v in vs
    ensures |p| == |vs|
  {
    seq(|vs|, i requires 0 <= i < |vs| && Arena(vs) reads set v | v in vs => vs[i].parent.value.id)
  }

  /** The ranks as a vector. */
  ghost function Ranks(vs: seq<Vertex>): (r: seq<nat>)
    reads set v | v in vs
    ensures |r| == |vs|
  {
    seq(|vs|, i requires 0 <= i < |vs| reads set v | v in vs => vs[i].rank)
  }

  /** The id-level edge list of a list of linked edges. */
  function Ids(es: seq<LinkedEdge>): (r: seq<Edge>)
    ensures |r| == |es|
  {
    seq(|es|, i requires 0 <= i < |es| => Edge(es[i].from.id, es[i].to.id, es[i].weight))
  }

  /** Gives a vertex itself as parent, unless it already has one. */
  method MakeSet(vertex: Vertex)
    modifies vertex
    ensures vertex.parent == if old(vertex.parent).None? then Some(vertex) else old(vertex.parent)
    ensures vertex.rank == old(vertex.rank)
  {
    if vertex.parent.None? {
      vertex.parent := Some(vertex);
    }
  }

  /**
   * The root of `vertex`; afterwards every vertex on its path has the root as
   * parent.  `h` is a ghost height over the ids witnessing a forest.
   */
  method FindSet(vertex: Vertex, ghost vs: seq<Vertex>, ghost h: seq<nat>) returns (root: Vertex)
    requires Arena(vs) && vertex in vs && Forest(Parents(vs), h)
    modifies set v | v in vs
    ensures Arena(vs) && Ranks(vs) == old(Ranks(vs))
    ensures root == vs[Root(old(Parents(vs)), h, vertex.id)]
    ensures Parents(vs) == Compressed(old(Parents(vs)), h, vertex.id)
    ensures SameRoots(old(Parents(vs)), h, Parents(vs), h)
    decreases MaxOf(h) - h[vertex.id]
  {
    ghost var p := Parents(vs);
    var parent := vertex.parent.value;
    if vertex != parent {
      assert parent == vs[p[vertex.id]];
      root := FindSet(parent, vs, h);
      SetParent(vertex, root, vs);
      CompressedRoots(p, h, vertex.id);
      return root;
    }
    CompressedRoots(p, h, vertex.id);
    return vertex;
  }

  /** Points a vertex of the arena at another one; no other link and no rank changes. */
  method SetParent(vertex: Vertex, parent: Vertex, ghost vs: seq<Vertex>)
    requires Arena(vs) && vertex in vs && parent in vs
    modifies vertex
    ensures Arena(vs) && Ranks(vs) == old(Ranks(vs))
    ensures Parents(vs) == old(Parents(vs))[vertex.id := parent.id]
  {
    vertex.parent := Some(parent);
  }

  /**
   * (q, g, rk') is (p, h, rk) after `union` of a and b as written: both finds
   * compress their paths; then, when the roots differ and a's root does not
   * have the smaller rank, a's root is hung under b's root and, on equal
   * ranks, a's root (the new child) gains a rank.  When a's root has the
   * smaller rank nothing is linked.
   */
  ghost predicate UnionedAsWritten(p: seq<nat>, h: seq<nat>, rk: seq<nat>,
                                   q: seq<nat>, g: seq<nat>, rk': seq<nat>, a: nat, b: nat)
  {
    Forest(p, h) && a < |p| && b < |p| && |rk| == |p| &&
    var r1 := Root(p, h, a);
    var r2 := Root(p, h, b);
    Forest(Compressed(p, h, a), h) &&
    var p2 := Compressed(Compressed(p, h, a), h, b);
    if r1 == r2 || rk[r1] < rk[r2] then
      q == p2 && rk' == rk && g == h && SameRoots(p, h, q, g)
    else
      q == p2[r1 := r2] && g == Raise(h, r1, r2) &&
      rk' == rk[r1 := if rk[r1] == rk[r2] then rk[r1] + 1 else rk[r1]] &&
      Linked(p, h, q, g, r1, r2)
  }

  /** On two distinct roots of rank 0, as in `build_mst`, the union links a under b. */
  lemma UnionOfLevelRoots(p: seq<nat>, h: seq<nat>, rk: seq<nat>, q: seq<nat>, g: seq<nat>, rk': seq<nat>, a: nat, b: nat)
    requires UnionedAsWritten(p, h, rk, q, g, rk', a, b)
    requires p[a] == a && p[b] == b && a != b && rk[a] == 0 && rk[b] == 0
    ensures q == p[a := b] && rk' == rk[a := 1] && Linked(p, h, q, g, a, b)
  {
    assert Compressed(Compressed(p, h, a), h, b) == p;
  }

  /**
   * `union` as written.  When the first root's rank is not below the second's,
   * the first root becomes a child of the second and, on a tie, the first root
   * (now the child) has its rank raised.  Otherwise the swapped borrow guards
   * make the second root its own parent again, and nothing is merged.
   */
  method Union(u: Vertex, v: Vertex, ghost vs: seq<Vertex>, ghost h: seq<nat>) returns (ghost h': seq<nat>)
    requires Arena(vs) && u in vs && v in vs && Forest(Parents(vs), h)
    modifies set x | x in vs
    ensures Arena(vs)
    ensures UnionedAsWritten(old(Parents(vs)), h, old(Ranks(vs)), Parents(vs), h', Ranks(vs), u.id, v.id)
  {
    ghost var p0, rk := Parents(vs), Ranks(vs);
    var root1 := FindSet(u, vs, h);
    ghost var p1 := Parents(vs);
    var root2 := FindSet(v, vs, h);
    ghost var p2 := Parents(vs);
    ArenaAt(vs, root1);
    ArenaAt(vs, root2);
    if root1 == root2 {
      UnionSteps(p0, h, rk, p1, p2, p2, h, rk, u.id, v.id);
      return h;
    }
    assert rk[root1.id] == root1.rank && rk[root2.id] == root2.rank;
    h' := LinkRoots(root1, root2, vs, h);
    UnionSteps(p0, h, rk, p1, p2, Parents(vs), h', Ranks(vs), u.id, v.id);
  }

  /**
   * The two finds of `union` followed by its linking step, on the parent
   * vectors: p1 and p2 are the vectors after the first and the second find.
   */
  lemma UnionSteps(p0: seq<nat>, h: seq<nat>, rk: seq<nat>, p1: seq<nat>, p2: seq<nat>,
                   q: seq<nat>, g: seq<nat>, rk': seq<nat>, a: nat, b: nat)
    requires Forest(p0, h) && a < |p0| && b < |p0| && |rk| == |p0|
    requires p1 == Compressed(p0, h, a) && SameRoots(p0, h, p1, h)
    requires p2 == Compressed(p1, h, b) && SameRoots(p1, h, p2, h)
    requires
      var r1, r2 := Root(p0, h, a), Root(p1, h, b);
      if r1 == r2 || rk[r1] < rk[r2] then q == p2 && g == h && rk' == rk
      else
        q == p2[r1 := r2] && g == Raise(h, r1, r2) &&
        rk' == rk[r1 := if rk[r1] == rk[r2] then rk[r1] + 1 else rk[r1]] &&
        Linked(p2, h, q, g, r1, r2)
    ensures UnionedAsWritten(p0, h, rk, q, g, rk', a, b)
  {
    SameRootsTrans(p0, h, p1, h, p2, h);
    var r1, r2 := Root(p0, h, a), Root(p0, h, b);
    if r1 != r2 && rk[r1] >= rk[r2] {
      SameThenLinked(p0, h, p2, h, q, g, r1, r2);
    }
  }

  /**
   * The linking step of `union` on two distinct roots: the borrow guards
   * are swapped when the first root has the smaller rank, and the vertex
   * behind the first guard is given the second root as parent.
   */
  method LinkRoots(root1: Vertex, root2: Vertex, ghost vs: seq<Vertex>, ghost h: seq<nat>) returns (ghost h': seq<nat>)
    requires Arena(vs) && root1 in vs && root2 in vs && root1 != root2 && Forest(Parents(vs), h)
    requires Parents(vs)[root1.id] == root1.id && Parents(vs)[root2.id] == root2.id
    modifies root1, root2
    ensures Arena(vs)
    ensures
      if old(root1.rank) < old(root2.rank) then
        Parents(vs) == old(Parents(vs)) && Ranks(vs) == old(Ranks(vs)) && h' == h
      else
        Parents(vs) == old(Parents(vs))[root1.id := root2.id] && h' == Raise(h, root1.id, root2.id) &&
        Ranks(vs) == old(Ranks(vs))[root1.id := if old(root1.rank) == old(root2.rank) then old(root1.rank) + 1 else old(root1.rank)] &&
        Linked(old(Parents(vs)), h, Parents(vs), h', root1.id, root2.id)
  {
    ArenaAt(vs, root1);
    ArenaAt(vs, root2);
    ghost var p := Parents(vs);
    var first, second := root1, root2;
    if root1.rank < root2.rank {
      first, second := second, first;
    }
    first.parent := Some(root2);
    if first.rank == second.rank {
      first.rank := first.rank + 1;
    }
    if old(root1.rank) < old(root2.rank) {
      assert Parents(vs) == p;
      h' := h;
    } else {
      assert Parents(vs) == p[root1.id := root2.id];
      h' := Raise(h, root1.id, root2.id);
      Link(p, h, root1.id, root2.id);
    }
  }

  /**
   * With two singleton roots where the second has the higher rank, `union`
   * as written leaves the two sets apart.
   */
  lemma UnionSkipsLowerRank(q: seq<nat>, g: seq<nat>, rk': seq<nat>)
    requires UnionedAsWritten([0, 1], [0, 0], [0, 1], q, g, rk', 0, 1)
    ensures q == [0, 1] && Root(q, g, 0) != Root(q, g, 1)
  {
    assert Compressed([0, 1], [0, 0], 0) == [0, 1];
    assert Compressed([0, 1], [0, 0], 1) == [0, 1];
  }

  /**
   * `union` as evidently intended: the root of lower rank is hung under the
   * other root, and on equal ranks the remaining root gains a rank, so the
   * ranks keep being heights of the forest.
   */
  method UnionByRank(u: Vertex, v: Vertex, ghost vs: seq<Vertex>)
    requires Arena(vs) && u in vs && v in vs && Forest(Parents(vs), Ranks(vs))
    modifies set x | x in vs
    ensures Arena(vs) && Forest(Parents(vs), Ranks(vs))
    ensures UnionedByRank(old(Parents(vs)), old(Ranks(vs)), Parents(vs), Ranks(vs), u.id, v.id)
  {
    ghost var rk := Ranks(vs);
    ghost var p0 := Parents(vs);
    var root1 := FindSet(u, vs, rk);
    ghost var p1 := Parents(vs);
    var root2 := FindSet(v, vs, rk);
    ghost var p2 := Parents(vs);
    SameRootsTrans(p0, rk, p1, rk, p2, rk);
    ArenaAt(vs, root1);
    ArenaAt(vs, root2);
    if root1 == root2 {
      return;
    }
    assert rk[root1.id] == root1.rank && rk[root2.id] == root2.rank;
    LinkRootsByRank(root1, root2, vs);
    LinkByRank(p0, rk, p2, u.id, v.id, root1.id, root2.id, Parents(vs), Ranks(vs));
  }

  /** The linking step of the intended `union` on two distinct roots. */
  method LinkRootsByRank(root1: Vertex, root2: Vertex, ghost vs: seq<Vertex>)
    requires Arena(vs) && root1 in vs && root2 in vs && root1 != root2
    modifies root1, root2
    ensures Arena(vs)
    ensures
      var p, rk, r1, r2 := old(Parents(vs)), old(Ranks(vs)), root1.id, root2.id;
      if rk[r1] < rk[r2] then Parents(vs) == p[r1 := r2] && Ranks(vs) == rk
      else Parents(vs) == p[r2 := r1] && Ranks(vs) == rk[r1 := if rk[r1] == rk[r2] then rk[r1] + 1 else rk[r1]]
  {
    ArenaAt(vs, root1);
    ArenaAt(vs, root2);
    ghost var p, rk := Parents(vs), Ranks(vs);
    if root1.rank < root2.rank {
      root1.parent := Some(root2);
      assert Parents(vs) == p[root1.id := root2.id];
    } else {
      root2.parent := Some(root1);
      if root1.rank == root2.rank {
        root1.rank := root1.rank + 1;
      }
      assert Parents(vs) == p[root2.id := root1.id];
    }
  }

  /** Every root has rank 0: only vertices that are hung under another root gain rank. */
  ghost predicate LevelRoots(vs: seq<Vertex>)
    requires Arena(vs)
    reads set v | v in vs
  {
    forall j :: 0 <= j < |vs| && Parents(vs)[j] == j ==> Ranks(vs)[j] == 0
  }

  /**
   * `build_mst`: every vertex becomes a singleton set, the edges are sorted
   * by weight (`sorted` is the order the library sort leaves them in), and an
   * edge is kept, and its end vertices' sets united, exactly when the two
   * roots differ.  The kept edges are Kruskal's selection over the ids.
   */
  method BuildMst(graph: LinkedGraph, sorted: seq<LinkedEdge>) returns (mst: seq<(nat, nat)>)
    requires forall i :: 0 <= i < |graph.vertices| ==> graph.vertices[i].id == i
    requires forall i :: 0 <= i < |graph.vertices| ==>
      graph.vertices[i].rank == 0 && graph.vertices[i].parent in {None, Some(graph.vertices[i])}
    requires forall e :: e in graph.edges ==> e.from in graph.vertices && e.to in graph.vertices
    requires SortedByWeight(Ids(sorted)) && multiset(sorted) == multiset(graph.edges)
    modifies graph, set v | v in graph.vertices
    ensures graph.edges == sorted && graph.vertices == old(graph.vertices)
    ensures mst == Kruskal(|graph.vertices|, Ids(sorted))
  {
    var vs := graph.vertices;
    MakeSets(vs);
    graph.edges := sorted;
    forall k | 0 <= k < |sorted|
      ensures sorted[k].from in vs && sorted[k].to in vs
    {
      assert sorted[k] in multiset(old(graph.edges));
    }
    mst := AddEdges(vs, sorted);
  }

  /** The second loop of `build_mst`: the edges in sorted order. */
  method AddEdges(vs: seq<Vertex>, sorted: seq<LinkedEdge>) returns (mst: seq<(nat, nat)>)
    requires Arena(vs) && Parents(vs) == Identity(|vs|) && LevelRoots(vs)
    requires forall k :: 0 <= k < |sorted| ==> sorted[k].from in vs && sorted[k].to in vs
    modifies set v | v in vs
    ensures mst == Kruskal(|vs|, Ids(sorted))
  {
    mst := [];
    var n := |vs|;
    ghost var h: seq<nat> := seq(n, _ => 0);
    IdentityForest(n, h);
    for i := 0 to |sorted|
      invariant Arena(vs) && Forest(Parents(vs), h) && LevelRoots(vs)
      invariant mst == Kruskal(n, Ids(sorted)[..i])
      invariant Agrees(Parents(vs), h, Labels(n, mst))
    {
      mst, h := AddEdge(vs, sorted, i, mst, h);
    }
    assert Ids(sorted)[..|sorted|] == Ids(sorted);
  }

  /** The first loop of `build_mst`: `make_set` on every vertex. */
  method MakeSets(vs: seq<Vertex>)
    requires forall i :: 0 <= i < |vs| ==> vs[i].id == i
    requires forall i :: 0 <= i < |vs| ==> vs[i].rank == 0 && vs[i].parent in {None, Some(vs[i])}
    modifies set v | v in vs
    ensures Arena(vs) && Parents(vs) == Identity(|vs|) && LevelRoots(vs)
  {
    for k := 0 to |vs|
      invariant forall j :: 0 <= j < k ==> vs[j].parent == Some(vs[j])
      invariant forall j :: k <= j < |vs| ==> vs[j].parent in {None, Some(vs[j])}
      invariant forall j :: 0 <= j < |vs| ==> vs[j].rank == 0
    {
      MakeSet(vs[k]);
    }
  }

  /** The body of `build_mst`'s edge loop: considers the sorted edge number `i`. */
  method AddEdge(vs: seq<Vertex>, sorted: seq<LinkedEdge>, i: nat, mst: seq<(nat, nat)>, ghost h: seq<nat>)
    returns (mst': seq<(nat, nat)>, ghost h': seq<nat>)
    requires Arena(vs) && LevelRoots(vs) && i < |sorted| && sorted[i].from in vs && sorted[i].to in vs
    requires mst == Kruskal(|vs|, Ids(sorted)[..i]) && Agrees(Parents(vs), h, Labels(|vs|, mst))
    modifies set v | v in vs
    ensures Arena(vs) && LevelRoots(vs)
    ensures mst' == Kruskal(|vs|, Ids(sorted)[..i + 1]) && Agrees(Parents(vs), h', Labels(|vs|, mst'))
  {
    var n := |vs|;
    var e := sorted[i];
    ArenaAt(vs, e.from);
    ArenaAt(vs, e.to);
    ghost var lab := Labels(n, mst);
    ghost var p0 := Parents(vs);
    var root1 := FindSet(e.from, vs, h);
    ghost var p1 := Parents(vs);
    var root2 := FindSet(e.to, vs, h);
    ghost var p2 := Parents(vs);
    assert SameRoots(p0, h, p2, h) && Agrees(p2, h, lab) && LevelRoots(vs) by {
      SameRootsTrans(p0, h, p1, h, p2, h);
      AgreesSameRoots(p0, h, p2, h, lab);
      SameRootsFixed(p0, h, p2, h);
    }
    mst' := mst;
    h' := h;
    if root1 != root2 {
      KruskalTakes(n, Ids(sorted), i, mst);
      mst' := mst + [(e.from.id, e.to.id)];
      ArenaAt(vs, root1);
      ArenaAt(vs, root2);
      assert p2[root1.id] == root1.id && p2[root2.id] == root2.id by {
        SameRootsFixed(p0, h, p2, h);
      }
      ghost var rk := Ranks(vs);
      assert rk[root1.id] == 0 && rk[root2.id] == 0;
      h' := Union(root1, root2, vs, h);
      UnionOfLevelRoots(p2, h, rk, Parents(vs), h', Ranks(vs), root1.id, root2.id);
      AgreesLinked(p2, h, Parents(vs), h', lab, e.from.id, e.to.id, root1.id, root2.id);
      assert LevelRoots(vs) by {
        forall j | 0 <= j < n && Parents(vs)[j] == j ensures Ranks(vs)[j] == 0 {
          assert j != root1.id && p2[j] == j;
        }
      }
    } else {
      KruskalSkips(n, Ids(sorted), i, mst);
    }
  }
}
