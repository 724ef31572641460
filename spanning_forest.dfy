/**
 * Reference definitions shared by every minimum-spanning-forest builder.
 *
 * Connectivity is defined by "quick-find" relabelling: every vertex carries a
 * component label, and adding an edge (a, b) gives every vertex labelled like
 * `b` the label of `a`.  A sequence of edges is acyclic when each edge, added
 * in order, joins two vertices with different labels.  `Kruskal` is the
 * greedy selection over a weight-sorted edge list stated with these labels;
 * the union-find based builders are proved to compute exactly it.
 */
module SpanningForest {

  /** A weighted, undirected edge between the vertex indices `u` and `v`. */
  datatype Edge = Edge(u: nat, v: nat, w: int)

  /** A graph given as its vertex list and its weighted edge list. */
  datatype Graph = Graph(vertices: seq<nat>, edges: seq<Edge>)

  /** The labelling in which every vertex of 0..n-1 is its own component. */
  function Identity(n: nat): (s: seq<nat>)
    ensures |s| == n
    ensures forall i :: 0 <= i < n ==> s[i] == i
  {
    seq(n, i => i)
  }

  /** Quick-find union: every vertex labelled like `b` takes the label of `a`. */
  function Merge(lab: seq<nat>, a: nat, b: nat): (r: seq<nat>)
    requires a < |lab| && b < |lab|
    ensures |r| == |lab|
  {
    seq(|lab|, i requires 0 <= i < |lab| => if lab[i] == lab[b] then lab[a] else lab[i])
  }

  /** The component labels after adding the edges `es`, in order, to n singletons. */
  function Labels(n: nat, es: seq<(nat, nat)>): (lab: seq<nat>)
    ensures |lab| == n
  {
    if es == [] then Identity(n)
    else
      var prev := Labels(n, es[..|es| - 1]);
      var e := es[|es| - 1];
      if e.0 < n && e.1 < n then Merge(prev, e.0, e.1) else prev
  }

  /** `x` and `y` lie in the same component of the graph (0..n-1, es). */
  predicate Connected(n: nat, es: seq<(nat, nat)>, x: nat, y: nat)
    requires x < n && y < n
  {
    Labels(n, es)[x] == Labels(n, es)[y]
  }

  /** Every edge, added in order, joins two different components: the edges form a forest. */
  predicate Acyclic(n: nat, es: seq<(nat, nat)>)
  {
    es == [] ||
    (var prev := es[..|es| - 1];
     var e := es[|es| - 1];
     Acyclic(n, prev) && e.0 < n && e.1 < n && Labels(n, prev)[e.0] != Labels(n, prev)[e.1])
  }

  /** Number of positions i with s[i] == i: the roots of a parent array, or the components of a labelling. */
  function Fixed(s: seq<nat>): nat
  {
    if s == [] then 0
    else Fixed(s[..|s| - 1]) + (if s[|s| - 1] == |s| - 1 then 1 else 0)
  }

  /** Number of components of the graph (0..n-1, es). */
  function Components(n: nat, es: seq<(nat, nat)>): nat
  {
    Fixed(Labels(n, es))
  }

  /** The endpoint pairs of a list of weighted edges. */
  function Pairs(es: seq<Edge>): (ps: seq<(nat, nat)>)
    ensures |ps| == |es|
    ensures forall i :: 0 <= i < |es| ==> ps[i] == (es[i].u, es[i].v)
  {
    seq(|es|, i requires 0 <= i < |es| => (es[i].u, es[i].v))
  }

  /** Every endpoint of every edge is one of the vertices 0..n-1. */
  predicate EdgesIn(n: nat, es: seq<Edge>)
  {
    forall i :: 0 <= i < |es| ==> es[i].u < n && es[i].v < n
  }

  /** The edges are listed in ascending order of weight. */
  predicate SortedByWeight(es: seq<Edge>)
  {
    forall i, j :: 0 <= i < j < |es| ==> es[i].w <= es[j].w
  }

  /** A possible result of sorting `es` by weight with a library sort: a permutation in ascending weight. */
  predicate SortedPermutation(sorted: seq<Edge>, es: seq<Edge>)
  {
    SortedByWeight(sorted) && multiset(sorted) == multiset(es)
  }

  /** Sorting keeps every endpoint a vertex. */
  lemma SortedEdgesIn(n: nat, sorted: seq<Edge>, es: seq<Edge>)
    requires EdgesIn(n, es) && multiset(sorted) == multiset(es)
    ensures EdgesIn(n, sorted)
  {
    forall i | 0 <= i < |sorted|
      ensures sorted[i].u < n && sorted[i].v < n
    {
      assert sorted[i] in multiset(es);
    }
  }

  /**
   * Kruskal's selection over an already sorted edge list: an edge is kept
   * exactly when its endpoints are not yet connected by the edges kept before it.
   */
  function Kruskal(n: nat, sorted: seq<Edge>): seq<(nat, nat)>
  {
    if sorted == [] then []
    else
      var prev := Kruskal(n, sorted[..|sorted| - 1]);
      var e := sorted[|sorted| - 1];
      var lab := Labels(n, prev);
      if e.u < n && e.v < n && lab[e.u] != lab[e.v] then prev + [(e.u, e.v)] else prev
  }

  // ---------------------------------------------------------------------------
  // Unfolding steps (used by the builders' loop invariants and by the examples)

  lemma LabelsSnoc(n: nat, es: seq<(nat, nat)>, e: (nat, nat))
    requires e.0 < n && e.1 < n
    ensures Labels(n, es + [e]) == Merge(Labels(n, es), e.0, e.1)
  {
    assert (es + [e])[..|es|] == es;
  }

  lemma AcyclicSnoc(n: nat, es: seq<(nat, nat)>, e: (nat, nat))
    requires Acyclic(n, es) && e.0 < n && e.1 < n
    requires Labels(n, es)[e.0] != Labels(n, es)[e.1]
    ensures Acyclic(n, es + [e])
  {
    assert (es + [e])[..|es|] == es;
  }

  /** Kruskal keeps the next edge when its endpoints are not yet connected ... */
  lemma KruskalTakes(n: nat, sorted: seq<Edge>, k: nat, kept: seq<(nat, nat)>)
    requires k < |sorted| && kept == Kruskal(n, sorted[..k])
    requires sorted[k].u < n && sorted[k].v < n
    requires Labels(n, kept)[sorted[k].u] != Labels(n, kept)[sorted[k].v]
    ensures Kruskal(n, sorted[..k + 1]) == kept + [(sorted[k].u, sorted[k].v)]
    ensures Labels(n, kept + [(sorted[k].u, sorted[k].v)]) == Merge(Labels(n, kept), sorted[k].u, sorted[k].v)
  {
    assert sorted[..k + 1][..k] == sorted[..k];
    LabelsSnoc(n, kept, (sorted[k].u, sorted[k].v));
  }

  /** ... and skips it when they already are. */
  lemma KruskalSkips(n: nat, sorted: seq<Edge>, k: nat, kept: seq<(nat, nat)>)
    requires k < |sorted| && kept == Kruskal(n, sorted[..k])
    requires sorted[k].u < n && sorted[k].v < n
    requires Labels(n, kept)[sorted[k].u] == Labels(n, kept)[sorted[k].v]
    ensures Kruskal(n, sorted[..k + 1]) == kept
  {
    assert sorted[..k + 1][..k] == sorted[..k];
  }

  // ---------------------------------------------------------------------------
  // Properties of the labelling

  /** Merging never separates two vertices that were in the same component, and it joins a with b. */
  lemma MergeConnects(lab: seq<nat>, a: nat, b: nat)
    requires a < |lab| && b < |lab|
    ensures Merge(lab, a, b)[a] == Merge(lab, a, b)[b]
    ensures forall x, y :: 0 <= x < |lab| && 0 <= y < |lab| && lab[x] == lab[y] ==>
              Merge(lab, a, b)[x] == Merge(lab, a, b)[y]
  {
  }

  /** Labels are vertices, and every label is the label of itself. */
  lemma {:induction false} LabelsCanonical(n: nat, es: seq<(nat, nat)>)
    ensures forall x :: 0 <= x < n ==> Labels(n, es)[x] < n
    ensures forall x :: 0 <= x < n ==> Labels(n, es)[Labels(n, es)[x]] == Labels(n, es)[x]
  {
    if es != [] {
      LabelsCanonical(n, es[..|es| - 1]);
    }
  }

  lemma {:induction false} FixedSame(a: seq<nat>, b: seq<nat>)
    requires |a| == |b|
    requires forall i :: 0 <= i < |a| ==> (a[i] == i <==> b[i] == i)
    ensures Fixed(a) == Fixed(b)
  {
    if a != [] {
      FixedSame(a[..|a| - 1], b[..|b| - 1]);
    }
  }

  /** Changing which positions are fixed at one index k changes the count by that index alone. */
  lemma {:induction false} FixedExcept(a: seq<nat>, b: seq<nat>, k: nat)
    requires |a| == |b| && k < |a|
    requires forall i :: 0 <= i < |a| && i != k ==> (a[i] == i <==> b[i] == i)
    ensures Fixed(a) + (if b[k] == k then 1 else 0) == Fixed(b) + (if a[k] == k then 1 else 0)
  {
    var m := |a| - 1;
    if k == m {
      FixedSame(a[..m], b[..m]);
    } else {
      FixedExcept(a[..m], b[..m], k);
    }
  }

  /** A sequence with a fixed position has at least one. */
  lemma {:induction false} FixedPositive(s: seq<nat>, k: nat)
    requires k < |s| && s[k] == k
    ensures Fixed(s) >= 1
  {
    if k < |s| - 1 {
      FixedPositive(s[..|s| - 1], k);
    }
  }

  lemma {:induction false} FixedAtMost(s: seq<nat>)
    ensures Fixed(s) <= |s|
  {
    if s != [] {
      FixedAtMost(s[..|s| - 1]);
    }
  }

  /** Merging two different components lowers the number of components by exactly one. */
  lemma MergeComponents(n: nat, es: seq<(nat, nat)>, a: nat, b: nat)
    requires a < n && b < n && Labels(n, es)[a] != Labels(n, es)[b]
    ensures Fixed(Merge(Labels(n, es), a, b)) + 1 == Fixed(Labels(n, es))
  {
    var lab := Labels(n, es);
    var m := Merge(lab, a, b);
    LabelsCanonical(n, es);
    var k := lab[b];
    forall i | 0 <= i < n && i != k
      ensures lab[i] == i <==> m[i] == i
    {
      if lab[i] == lab[b] {
        assert lab[lab[a]] == lab[a];
      }
    }
    FixedExcept(lab, m, k);
  }

  /** A forest on n vertices with c components has n - c edges. */
  lemma {:induction false} AcyclicSize(n: nat, es: seq<(nat, nat)>)
    requires Acyclic(n, es)
    ensures |es| + Components(n, es) == n
  {
    if es == [] {
      FixedIdentity(n);
    } else {
      var prev := es[..|es| - 1];
      var e := es[|es| - 1];
      AcyclicSize(n, prev);
      MergeComponents(n, prev, e.0, e.1);
      assert es == prev + [e];
      LabelsSnoc(n, prev, e);
    }
  }

  lemma {:induction false} FixedIdentity(n: nat)
    ensures Fixed(Identity(n)) == n
  {
    if n > 0 {
      assert Identity(n)[..n - 1] == Identity(n - 1);
      FixedIdentity(n - 1);
    }
  }

  /** A forest on n >= 1 vertices has at most n - 1 edges, and one on no vertices has none. */
  lemma ForestBound(n: nat, es: seq<(nat, nat)>)
    requires Acyclic(n, es)
    ensures n == 0 ==> es == []
    ensures n > 0 ==> |es| <= n - 1
  {
    AcyclicSize(n, es);
    if n > 0 {
      LabelsCanonical(n, es);
      var lab := Labels(n, es);
      FixedPositive(lab, lab[0]);
    }
  }

  // ---------------------------------------------------------------------------
  // Properties of Kruskal's selection

  /** The selected edges form a forest. */
  lemma {:induction false} KruskalAcyclic(n: nat, sorted: seq<Edge>)
    ensures Acyclic(n, Kruskal(n, sorted))
  {
    if sorted != [] {
      var prev := sorted[..|sorted| - 1];
      var e := sorted[|sorted| - 1];
      KruskalAcyclic(n, prev);
      var lab := Labels(n, Kruskal(n, prev));
      if e.u < n && e.v < n && lab[e.u] != lab[e.v] {
        AcyclicSnoc(n, Kruskal(n, prev), (e.u, e.v));
      }
    }
  }

  /** Every selected pair is the pair of endpoints of an input edge. */
  lemma {:induction false} KruskalSubset(n: nat, sorted: seq<Edge>)
    ensures forall p :: p in Kruskal(n, sorted) ==> p in Pairs(sorted)
  {
    if sorted != [] {
      var prev := sorted[..|sorted| - 1];
      KruskalSubset(n, prev);
      forall p | p in Pairs(prev) ensures p in Pairs(sorted) {
        var i :| 0 <= i < |prev| && Pairs(prev)[i] == p;
        assert Pairs(sorted)[i] == p;
      }
      assert Pairs(sorted)[|sorted| - 1] == (sorted[|sorted| - 1].u, sorted[|sorted| - 1].v);
    }
  }

  /** The selection spans: the endpoints of every input edge end up connected by the selected edges. */
  lemma {:induction false} KruskalSpans(n: nat, sorted: seq<Edge>)
    requires EdgesIn(n, sorted)
    ensures forall i :: 0 <= i < |sorted| ==> Connected(n, Kruskal(n, sorted), sorted[i].u, sorted[i].v)
  {
    if sorted != [] {
      var prev := sorted[..|sorted| - 1];
      var e := sorted[|sorted| - 1];
      KruskalSpans(n, prev);
      var out := Kruskal(n, prev);
      var lab := Labels(n, out);
      if lab[e.u] != lab[e.v] {
        LabelsSnoc(n, out, (e.u, e.v));
        MergeConnects(lab, e.u, e.v);
      }
    }
  }

  /** Kruskal's selection has at most n - 1 edges (none when there are no vertices). */
  lemma KruskalBound(n: nat, sorted: seq<Edge>)
    ensures n == 0 ==> Kruskal(n, sorted) == []
    ensures n > 0 ==> |Kruskal(n, sorted)| <= n - 1
  {
    KruskalAcyclic(n, sorted);
    ForestBound(n, Kruskal(n, sorted));
  }
}
