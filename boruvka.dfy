/**
 * Borůvka's algorithm over an edge list.  Each round nominates, for every
 * vertex, the earliest lightest edge at that vertex whose end points have
 * different direct parents (not necessarily different roots), and then walks
 * the nominations in vertex order, keeping an edge and uniting its two sets
 * exactly when their roots differ.  The rounds end when no vertex has a
 * nomination.
 *
 * The ranks start at 1 and are raised only on a root, so they serve as the
 * heights of the parent forest.  Termination rests on the pair (number of
 * roots, number of vertices not pointing straight at their root), which
 * decreases lexicographically in every round that nominates an edge.
 */
module Boruvka {
  import opened Wrappers
  import opened SpanningForest
  import opened ParentForest
  import KruskalIterative

  /** Vertex y points straight at its root. */
  ghost predicate Direct(p: seq<nat>, h: seq<nat>, y: nat)
    requires Forest(p, h) && y < |p|
  {
    p[y] == Root(p, h, y)
  }

  /** (q, g) has the roots and heights of (p, h), and every vertex that pointed straight at its root still does. */
  ghost predicate Tightened(p: seq<nat>, h: seq<nat>, q: seq<nat>, g: seq<nat>)
  {
    SameRoots(p, h, q, g) && g == h &&
    forall y :: 0 <= y < |p| && Direct(p, h, y) ==> Direct(q, g, y)
  }

  /** Number of the vertices below k that do not point straight at their root. */
  ghost function LooseBelow(p: seq<nat>, h: seq<nat>, k: nat): nat
    requires Forest(p, h) && k <= |p|
  {
    if k == 0 then 0 else LooseBelow(p, h, k - 1) + (if Direct(p, h, k - 1) then 0 else 1)
  }

  ghost function Loose(p: seq<nat>, h: seq<nat>): nat
    requires Forest(p, h)
  {
    LooseBelow(p, h, |p|)
  }

  /** Tightening never adds a loose vertex, and removes one for each vertex it straightens. */
  lemma {:induction false} LooseBelowShrinks(p: seq<nat>, h: seq<nat>, q: seq<nat>, g: seq<nat>, k: nat, w: nat)
    requires Tightened(p, h, q, g) && k <= |p|
    ensures LooseBelow(q, g, k) <= LooseBelow(p, h, k)
    ensures w < k && !Direct(p, h, w) && Direct(q, g, w) ==> LooseBelow(q, g, k) < LooseBelow(p, h, k)
  {
    if k > 0 {
      LooseBelowShrinks(p, h, q, g, k - 1, w);
    }
  }

  /** A tightened forest has the same roots. */
  lemma TightenedRoots(p: seq<nat>, h: seq<nat>, q: seq<nat>, g: seq<nat>)
    requires Tightened(p, h, q, g)
    ensures Fixed(q) == Fixed(p)
  {
    SameRootsFixed(p, h, q, g);
    FixedSame(p, q);
  }

  lemma TightenedTrans(p: seq<nat>, h: seq<nat>, q: seq<nat>, g: seq<nat>, s: seq<nat>, k: seq<nat>)
    requires Tightened(p, h, q, g) && Tightened(q, g, s, k)
    ensures Tightened(p, h, s, k)
  {
  }

  /** Path compression tightens the forest and straightens the vertex it started from. */
  lemma CompressedTightens(p: seq<nat>, h: seq<nat>, x: nat)
    requires Forest(p, h) && x < |p|
    ensures Tightened(p, h, Compressed(p, h, x), h) && Direct(Compressed(p, h, x), h, x)
  {
    var q := Compressed(p, h, x);
    CompressedAt(p, h, x);
    CompressedRoots(p, h, x);
    forall y | 0 <= y < |p| && Direct(p, h, y) ensures Direct(q, h, y) {
      if OnPath(p, h, x, y) {
        OnPathRoot(p, h, x, y);
      }
    }
    RootOnPath(p, h, x);
  }

  // ---------------------------------------------------------------------------

  /**
   * `find_set_recursive`: the root of `vertex`; every vertex on its chain is
   * left pointing at the root.
   */
  method FindSetRecursive(vertex: nat, components: array<nat>, ghost h: seq<nat>) returns (root: nat)
    requires Forest(components[..], h) && vertex < components.Length
    modifies components
    ensures root == Root(old(components[..]), h, vertex)
    ensures components[..] == Compressed(old(components[..]), h, vertex)
    ensures SameRoots(old(components[..]), h, components[..], h)
    decreases MaxOf(h) - h[vertex]
  {
    ghost var p := components[..];
    if components[vertex] != vertex {
      var r := FindSetRecursive(components[vertex], components, h);
      components[vertex] := r;
    }
    root := components[vertex];
    CompressedRoots(p, h, vertex);
  }

  /**
   * `find_set_recursive` and `find_set_iterative` (the loop modelled by
   * `KruskalIterative.FindSet`) give the same root and leave the same
   * components vector.
   */
  method FindSetsAgree(vertex: nat, components: seq<nat>, ghost h: seq<nat>)
    returns (r1: nat, r2: nat, c1: seq<nat>, c2: seq<nat>)
    requires Forest(components, h) && vertex < |components|
    ensures r1 == r2 && c1 == c2
  {
    var a := new nat[|components|](i requires 0 <= i < |components| => components[i]);
    var b := new nat[|components|](i requires 0 <= i < |components| => components[i]);
    assert a[..] == components && b[..] == components;
    r1 := FindSetRecursive(vertex, a, h);
    r2 := KruskalIterative.FindSet(vertex, b, h);
    c1, c2 := a[..], b[..];
  }

  /**
   * `union_components` on two distinct roots: the root of lower rank goes
   * under the other; on equal ranks `comp_b` goes under `comp_a`, whose rank
   * grows by one.  Only `components[comp_b]` (after the swap) is written.
   */
  method UnionComponents(compA: nat, compB: nat, components: array<nat>, ranks: array<nat>)
    requires components != ranks && Forest(components[..], ranks[..])
    requires compA < components.Length && compB < components.Length && compA != compB
    requires components[compA] == compA && components[compB] == compB
    modifies components, ranks
    ensures UnionedByRank(old(components[..]), old(ranks[..]), components[..], ranks[..], compA, compB)
    ensures Forest(components[..], ranks[..])
    ensures Fixed(components[..]) + 1 == Fixed(old(components[..]))
  {
    ghost var p, rk := components[..], ranks[..];
    var a, b := compA, compB;
    if ranks[a] < ranks[b] {
      a, b := b, a;
    }
    if ranks[a] == ranks[b] {
      ranks[a] := ranks[a] + 1;
    }
    components[b] := a;
    assert SameRoots(p, rk, p, rk);
    LinkByRank(p, rk, p, compA, compB, compA, compB, components[..], ranks[..]);
    LinkFixed(p, b, a);
  }

  // ---------------------------------------------------------------------------
  // One round: nomination

  /** Edge i is a candidate: its end points have different direct parents. */
  predicate Candidate(edges: seq<Edge>, components: seq<nat>, i: nat)
    requires i < |edges| && EdgesIn(|components|, edges)
  {
    components[edges[i].u] != components[edges[i].v]
  }

  /** Edge i is a candidate at vertex x. */
  predicate CandidateAt(edges: seq<Edge>, components: seq<nat>, i: nat, x: nat)
    requires i < |edges| && EdgesIn(|components|, edges)
  {
    Candidate(edges, components, i) && (edges[i].u == x || edges[i].v == x)
  }

  /**
   * m is x's nomination among the first k edges: None when no candidate
   * touches x, otherwise the earliest of the lightest candidates at x.
   */
  predicate NominatedAmong(edges: seq<Edge>, components: seq<nat>, x: nat, k: nat, m: Option<nat>)
    requires k <= |edges| && EdgesIn(|components|, edges)
  {
    match m
    case None => forall i :: 0 <= i < k ==> !CandidateAt(edges, components, i, x)
    case Some(j) =>
      j < k && CandidateAt(edges, components, j, x) &&
      (forall i :: 0 <= i < k && CandidateAt(edges, components, i, x) ==> edges[j].w <= edges[i].w) &&
      (forall i :: 0 <= i < j && CandidateAt(edges, components, i, x) ==> edges[j].w < edges[i].w)
  }

  /** `min_edges` holds every vertex's nomination over the whole edge list. */
  predicate Nominations(edges: seq<Edge>, components: seq<nat>, minEdges: seq<Option<nat>>)
    requires EdgesIn(|components|, edges)
  {
    |minEdges| == |components| &&
    forall x :: 0 <= x < |minEdges| ==> NominatedAmong(edges, components, x, |edges|, minEdges[x])
  }

  /** No vertex nominated an edge. */
  predicate NoneNominated(minEdges: seq<Option<nat>>)
  {
    forall x :: 0 <= x < |minEdges| ==> minEdges[x].None?
  }

  /** The first loop of a round of `build_mst`: fills `min_edges`. */
  method Nominate(edges: seq<Edge>, components: array<nat>) returns (minEdges: seq<Option<nat>>)
    requires EdgesIn(components.Length, edges)
    ensures Nominations(edges, components[..], minEdges)
  {
    var n := components.Length;
    minEdges := seq(n, _ => None);
    for i := 0 to |edges|
      invariant |minEdges| == n
      invariant forall x :: 0 <= x < n ==> NominatedAmong(edges, components[..], x, i, minEdges[x])
    {
      var e := edges[i];
      if components[e.u] == components[e.v] {
        continue;
      }
      match minEdges[e.u] {
        case None => minEdges := minEdges[e.u := Some(i)];
        case Some(j) =>
          if e.w < edges[j].w {
            minEdges := minEdges[e.u := Some(i)];
          }
      }
      match minEdges[e.v] {
        case None => minEdges := minEdges[e.v := Some(i)];
        case Some(j) =>
          if e.w < edges[j].w {
            minEdges := minEdges[e.v := Some(i)];
          }
      }
    }
  }

  // ---------------------------------------------------------------------------
  // One round: joining

  /** Every kept pair is the pair of end points of some input edge. */
  predicate FromEdges(mst: seq<(nat, nat)>, edges: seq<Edge>)
  {
    forall e :: e in mst ==> e in Pairs(edges)
  }

  /**
   * The body of the second loop of a round, for a vertex that nominated edge
   * i: the edge is kept and the two sets united exactly when the roots of its
   * end points differ.  Either one root disappears, or the roots are kept,
   * nothing gets looser and both end points now point straight at their
   * common root.
   */
  method JoinEdge(edges: seq<Edge>, i: nat, components: array<nat>, ranks: array<nat>, mst: seq<(nat, nat)>)
    returns (mst': seq<(nat, nat)>)
    requires components != ranks && Forest(components[..], ranks[..])
    requires i < |edges| && EdgesIn(components.Length, edges)
    requires Agrees(components[..], ranks[..], Labels(components.Length, mst))
    requires Acyclic(components.Length, mst) && FromEdges(mst, edges)
    modifies components, ranks
    ensures Forest(components[..], ranks[..]) && Agrees(components[..], ranks[..], Labels(components.Length, mst'))
    ensures Acyclic(components.Length, mst') && FromEdges(mst', edges)
    ensures
      var p, h, e := old(components[..]), old(ranks[..]), edges[i];
      Fixed(components[..]) < Fixed(p) ||
      (Fixed(components[..]) == Fixed(p) && Tightened(p, h, components[..], ranks[..]) &&
       Root(p, h, e.u) == Root(p, h, e.v) &&
       Direct(components[..], ranks[..], e.u) && Direct(components[..], ranks[..], e.v))
  {
    var n := components.Length;
    var e := edges[i];
    ghost var h := ranks[..];
    ghost var lab := Labels(n, mst);
    ghost var p0 := components[..];
    var compA := KruskalIterative.FindSet(e.u, components, h);
    ghost var p1 := components[..];
    var compB := KruskalIterative.FindSet(e.v, components, h);
    ghost var p2 := components[..];
    assert Tightened(p0, h, p2, h) && Direct(p2, h, e.u) && Direct(p2, h, e.v) && Fixed(p2) == Fixed(p0) by {
      CompressedTightens(p0, h, e.u);
      CompressedTightens(p1, h, e.v);
      TightenedTrans(p0, h, p1, h, p2, h);
      TightenedRoots(p0, h, p2, h);
    }
    assert Agrees(p2, h, lab) by {
      AgreesSameRoots(p0, h, p2, h, lab);
    }
    if compA == compB {
      return mst;
    }
    assert lab[e.u] != lab[e.v];
    mst' := mst + [(e.u, e.v)];
    assert Pairs(edges)[i] == (e.u, e.v);
    AcyclicSnoc(n, mst, (e.u, e.v));
    LabelsSnoc(n, mst, (e.u, e.v));
    UnionComponents(compA, compB, components, ranks);
    AgreesUnioned(p2, h, components[..], ranks[..], lab, compA, compB, e.u, e.v);
  }

  /**
   * Progress of a round from (ps, rs) to (c, r): a root disappeared, or the
   * roots are the same, nothing got looser, and once the nomination of
   * (u0, v0) has been joined, u0 and v0 share a root and point straight at it.
   */
  ghost predicate Progress(ps: seq<nat>, rs: seq<nat>, c: seq<nat>, r: seq<nat>, after: bool, u0: nat, v0: nat)
  {
    Forest(ps, rs) && Forest(c, r) && |c| == |ps| && u0 < |ps| && v0 < |ps| &&
    (Fixed(c) < Fixed(ps) ||
     (Fixed(c) == Fixed(ps) && Tightened(ps, rs, c, r) &&
      (after ==> Root(ps, rs, u0) == Root(ps, rs, v0) && Direct(c, r, u0) && Direct(c, r, v0))))
  }

  /** Joining one nomination keeps a round's progress, and completes it when the nomination is (u0, v0). */
  lemma ProgressJoin(ps: seq<nat>, rs: seq<nat>, c: seq<nat>, r: seq<nat>, c2: seq<nat>, r2: seq<nat>,
                     after: bool, u0: nat, v0: nat, u: nat, v: nat)
    requires Progress(ps, rs, c, r, after, u0, v0) && Forest(c2, r2) && |c2| == |c| && u < |c| && v < |c|
    requires Fixed(c2) < Fixed(c) ||
             (Fixed(c2) == Fixed(c) && Tightened(c, r, c2, r2) && Root(c, r, u) == Root(c, r, v) &&
              Direct(c2, r2, u) && Direct(c2, r2, v))
    ensures Progress(ps, rs, c2, r2, after || (u == u0 && v == v0), u0, v0)
  {
    if Fixed(c) == Fixed(ps) && Fixed(c2) == Fixed(c) {
      TightenedTrans(ps, rs, c, r, c2, r2);
    }
  }

  /**
   * The second loop of a round: the nominations are taken in vertex order.
   * When some vertex has a nomination, the pair (roots, loose vertices)
   * decreases lexicographically.
   */
  method JoinRound(edges: seq<Edge>, minEdges: seq<Option<nat>>, components: array<nat>, ranks: array<nat>,
                   mst: seq<(nat, nat)>)
    returns (mst': seq<(nat, nat)>)
    requires components != ranks && Forest(components[..], ranks[..])
    requires EdgesIn(components.Length, edges) && Nominations(edges, components[..], minEdges)
    requires !NoneNominated(minEdges)
    requires Agrees(components[..], ranks[..], Labels(components.Length, mst))
    requires Acyclic(components.Length, mst) && FromEdges(mst, edges)
    modifies components, ranks
    ensures Forest(components[..], ranks[..]) && Agrees(components[..], ranks[..], Labels(components.Length, mst'))
    ensures Acyclic(components.Length, mst') && FromEdges(mst', edges)
    ensures Fixed(components[..]) < Fixed(old(components[..])) ||
            (Fixed(components[..]) == Fixed(old(components[..])) &&
             Loose(components[..], ranks[..]) < Loose(old(components[..]), old(ranks[..])))
  {
    ghost var ps, rs := components[..], ranks[..];
    ghost var x0 :| 0 <= x0 < |minEdges| && minEdges[x0].Some?;
    ghost var u0, v0 := edges[minEdges[x0].value].u, edges[minEdges[x0].value].v;
    mst' := JoinAll(edges, minEdges, components, ranks, mst, x0);
    if Fixed(components[..]) == Fixed(ps) {
      ghost var w := if Direct(ps, rs, u0) then v0 else u0;
      LooseBelowShrinks(ps, rs, components[..], ranks[..], components.Length, w);
    }
  }

  /** The loop of `JoinRound`, over nominations that are indices of edges. */
  method JoinAll(edges: seq<Edge>, minEdges: seq<Option<nat>>, components: array<nat>, ranks: array<nat>,
                 mst: seq<(nat, nat)>, ghost x0: nat)
    returns (mst': seq<(nat, nat)>)
    requires components != ranks && Forest(components[..], ranks[..])
    requires EdgesIn(components.Length, edges) && |minEdges| == components.Length
    requires forall x :: 0 <= x < |minEdges| && minEdges[x].Some? ==> minEdges[x].value < |edges|
    requires x0 < |minEdges| && minEdges[x0].Some?
    requires Agrees(components[..], ranks[..], Labels(components.Length, mst))
    requires Acyclic(components.Length, mst) && FromEdges(mst, edges)
    modifies components, ranks
    ensures Forest(components[..], ranks[..]) && Agrees(components[..], ranks[..], Labels(components.Length, mst'))
    ensures Acyclic(components.Length, mst') && FromEdges(mst', edges)
    ensures Progress(old(components[..]), old(ranks[..]), components[..], ranks[..], true,
                     edges[minEdges[x0].value].u, edges[minEdges[x0].value].v)
  {
    var n := components.Length;
    ghost var ps, rs := components[..], ranks[..];
    ghost var u0, v0 := edges[minEdges[x0].value].u, edges[minEdges[x0].value].v;
    mst' := mst;
    for k := 0 to n
      invariant Forest(components[..], ranks[..]) && Agrees(components[..], ranks[..], Labels(n, mst'))
      invariant Acyclic(n, mst') && FromEdges(mst', edges)
      invariant Progress(ps, rs, components[..], ranks[..], k > x0, u0, v0)
    {
      match minEdges[k] {
        case None =>
        case Some(i) =>
          ghost var c, r := components[..], ranks[..];
          mst' := JoinEdge(edges, i, components, ranks, mst');
          ProgressJoin(ps, rs, c, r, components[..], ranks[..], k > x0, u0, v0, edges[i].u, edges[i].v);
      }
    }
  }

  /**
   * When no vertex nominates an edge, the end points of every edge have the
   * same direct parent, hence the same root, hence are connected by the kept edges.
   */
  lemma NoNominationSpans(edges: seq<Edge>, p: seq<nat>, h: seq<nat>, minEdges: seq<Option<nat>>, mst: seq<(nat, nat)>)
    requires Agrees(p, h, Labels(|p|, mst)) && EdgesIn(|p|, edges)
    requires Nominations(edges, p, minEdges) && NoneNominated(minEdges)
    ensures forall i :: 0 <= i < |edges| ==> Connected(|p|, mst, edges[i].u, edges[i].v)
  {
    forall i | 0 <= i < |edges|
      ensures Connected(|p|, mst, edges[i].u, edges[i].v)
    {
      var e := edges[i];
      assert NominatedAmong(edges, p, e.u, |edges|, minEdges[e.u]);
      assert !CandidateAt(edges, p, i, e.u);
      assert Root(p, h, e.u) == Root(p, h, p[e.u]) && Root(p, h, e.v) == Root(p, h, p[e.v]);
    }
  }

  /**
   * One pass of `build_mst`'s outer loop: nominate, stop when nothing was
   * nominated, and otherwise join.
   */
  method Round(edges: seq<Edge>, components: array<nat>, ranks: array<nat>, mst: seq<(nat, nat)>)
    returns (mst': seq<(nat, nat)>, done: bool)
    requires components != ranks && Forest(components[..], ranks[..]) && EdgesIn(components.Length, edges)
    requires Agrees(components[..], ranks[..], Labels(components.Length, mst))
    requires Acyclic(components.Length, mst) && FromEdges(mst, edges)
    modifies components, ranks
    ensures Forest(components[..], ranks[..]) && Agrees(components[..], ranks[..], Labels(components.Length, mst'))
    ensures Acyclic(components.Length, mst') && FromEdges(mst', edges)
    ensures done ==> forall i :: 0 <= i < |edges| ==> Connected(components.Length, mst', edges[i].u, edges[i].v)
    ensures !done ==>
      Fixed(components[..]) < Fixed(old(components[..])) ||
      (Fixed(components[..]) == Fixed(old(components[..])) &&
       Loose(components[..], ranks[..]) < Loose(old(components[..]), old(ranks[..])))
  {
    var minEdges := Nominate(edges, components);
    if NoneNominated(minEdges) {
      NoNominationSpans(edges, components[..], ranks[..], minEdges, mst);
      return mst, true;
    }
    mst' := JoinRound(edges, minEdges, components, ranks, mst);
    done := false;
  }

  /**
   * `build_mst`: rounds of nomination and joining until no vertex nominates
   * an edge.  The kept edges are input edges, form a forest (so there are at
   * most n - 1 of them), and connect the end points of every input edge.
   */
  method BuildMst(graph: Graph) returns (mst: seq<(nat, nat)>)
    requires graph.vertices == Identity(|graph.vertices|)
    requires EdgesIn(|graph.vertices|, graph.edges)
    ensures Acyclic(|graph.vertices|, mst) && FromEdges(mst, graph.edges)
    ensures forall i :: 0 <= i < |graph.edges| ==> Connected(|graph.vertices|, mst, graph.edges[i].u, graph.edges[i].v)
    ensures |graph.vertices| == 0 ==> mst == []
    ensures |graph.vertices| > 0 ==> |mst| <= |graph.vertices| - 1
  {
    mst := [];
    var n := |graph.vertices|;
    var components := new nat[n](i requires 0 <= i < n => graph.vertices[i]);
    var ranks := new nat[n](_ => 1);
    assert components[..] == Identity(n);
    IdentityForest(n, ranks[..]);
    while true
      invariant components.Length == n && ranks.Length == n
      invariant Forest(components[..], ranks[..]) && Agrees(components[..], ranks[..], Labels(n, mst))
      invariant Acyclic(n, mst) && FromEdges(mst, graph.edges)
      decreases Fixed(components[..]), Loose(components[..], ranks[..])
    {
      var done;
      mst, done := Round(graph.edges, components, ranks, mst);
      if done {
        break;
      }
    }
    ForestBound(n, mst);
  }
}
