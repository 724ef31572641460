/**
 * Hamiltonian paths by backtracking over an adjacency map: a path grows by
 * one listed neighbour of its last vertex that it does not hold yet, and a
 * path that holds as many vertices as the map has keys is recorded.
 *
 * The search order is the order of each adjacency list; the order in which
 * the keys of the map are visited is arbitrary and is a parameter.
 */
module Hamiltonian {

  /** An adjacency map: each vertex (a key) lists its neighbours. */
  type Graph = map<nat, seq<nat>>

  /**
   * Every listed neighbour is itself a key, as in the undirected graphs the
   * search is written for: a neighbour lists its neighbours back.
   */
  ghost predicate Closed(g: Graph)
  {
    forall u, v :: u in g && v in g[u] ==> v in g
  }

  predicate Distinct<T(==)>(p: seq<T>)
  {
    forall i, j :: 0 <= i < j < |p| ==> p[i] != p[j]
  }

  /** A non-empty path of distinct keys: what the search holds while it runs. */
  ghost predicate Partial(g: Graph, p: seq<nat>)
  {
    |p| > 0 && Distinct(p) && forall i :: 0 <= i < |p| ==> p[i] in g
  }

  /** Each vertex after the first is listed as a neighbour of the one before it. */
  ghost predicate Linked(g: Graph, p: seq<nat>)
  {
    forall i :: 0 <= i < |p| - 1 ==> p[i] in g && p[i + 1] in g[p[i]]
  }

  /** A Hamiltonian path: every key exactly once, consecutive keys adjacent. */
  ghost predicate IsHamiltonian(g: Graph, p: seq<nat>)
  {
    Partial(g, p) && Linked(g, p) && |p| == |g|
  }

  /** A path of distinct keys is no longer than the number of keys. */
  lemma {:induction false} DistinctFits(p: seq<nat>, keys: set<nat>)
    requires Distinct(p) && forall i :: 0 <= i < |p| ==> p[i] in keys
    ensures |p| <= |keys|
    decreases |p|
  {
    if |p| > 0 {
      var x := p[|p| - 1];
      var front := p[..|p| - 1];
      assert forall i :: 0 <= i < |front| ==> front[i] in keys - {x} by {
        forall i | 0 <= i < |front|
          ensures front[i] in keys - {x}
        {
          assert front[i] == p[i] && p[i] != p[|p| - 1];
        }
      }
      DistinctFits(front, keys - {x});
    }
  }

  /** A partial path never holds more vertices than the map has keys. */
  lemma PartialFits(g: Graph, p: seq<nat>)
    requires Partial(g, p)
    ensures |p| <= |g|
  {
    DistinctFits(p, g.Keys);
  }

  /**
   * The paths the search records from the partial path p, in the order it
   * records them: p itself once it holds every key, otherwise the paths
   * found through each listed neighbour of its last vertex in turn.
   */
  function Completions(g: Graph, p: seq<nat>): seq<seq<nat>>
    requires Closed(g) && Partial(g, p)
    decreases |g| - |p|, 2
  {
    PartialFits(g, p);
    if |p| == |g| then [p]
    else Through(g, p, g[p[|p| - 1]])
  }

  /** The paths the search records through the neighbours nbrs of the last vertex of p, in order. */
  function Through(g: Graph, p: seq<nat>, nbrs: seq<nat>): seq<seq<nat>>
    requires Closed(g) && Partial(g, p) && |p| < |g|
    requires forall k :: 0 <= k < |nbrs| ==> nbrs[k] in g
    decreases |g| - |p|, 1, |nbrs|
  {
    if |nbrs| == 0 then []
    else Through(g, p, nbrs[..|nbrs| - 1]) + Branch(g, p, nbrs[|nbrs| - 1])
  }

  /** The paths the search records after stepping from p to v: none when v is already on p. */
  function Branch(g: Graph, p: seq<nat>, v: nat): seq<seq<nat>>
    requires Closed(g) && Partial(g, p) && |p| < |g| && v in g
    decreases |g| - |p|, 0
  {
    if v in p then [] else Completions(g, p + [v])
  }

  /** The paths find_hamiltonians records from the start vertices, in order. */
  function FromStarts(g: Graph, starts: seq<nat>): seq<seq<nat>>
    requires Closed(g) && forall k :: 0 <= k < |starts| ==> starts[k] in g
  {
    if |starts| == 0 then []
    else FromStarts(g, starts[..|starts| - 1]) + Completions(g, [starts[|starts| - 1]])
  }

  /** Every recorded path is Hamiltonian and begins with the partial path it was grown from. */
  lemma {:induction false} CompletionsSound(g: Graph, p: seq<nat>)
    requires Closed(g) && Partial(g, p) && Linked(g, p)
    ensures forall q :: q in Completions(g, p) ==> IsHamiltonian(g, q) && |p| <= |q| && q[..|p|] == p
    decreases |g| - |p|, 2
  {
    PartialFits(g, p);
    if |p| < |g| {
      ThroughSound(g, p, g[p[|p| - 1]]);
    } else {
      assert p[..|p|] == p;
    }
  }

  lemma {:induction false} ThroughSound(g: Graph, p: seq<nat>, nbrs: seq<nat>)
    requires Closed(g) && Partial(g, p) && Linked(g, p) && |p| < |g|
    requires forall k :: 0 <= k < |nbrs| ==> nbrs[k] in g[p[|p| - 1]]
    ensures forall k :: 0 <= k < |nbrs| ==> nbrs[k] in g
    ensures forall q :: q in Through(g, p, nbrs) ==> IsHamiltonian(g, q) && |p| <= |q| && q[..|p|] == p
    decreases |g| - |p|, 1, |nbrs|
  {
    if |nbrs| > 0 {
      ThroughSound(g, p, nbrs[..|nbrs| - 1]);
      var v := nbrs[|nbrs| - 1];
      if v !in p {
        var p' := p + [v];
        assert Partial(g, p') && Linked(g, p');
        CompletionsSound(g, p');
        forall q | q in Completions(g, p')
          ensures q[..|p|] == p
        {
          assert q[..|p|] == q[..|p'|][..|p|];
        }
      }
    }
  }

  /** A neighbour's branch is part of the search through the neighbours. */
  lemma {:induction false} ThroughHas(g: Graph, p: seq<nat>, nbrs: seq<nat>, i: nat, q: seq<nat>)
    requires Closed(g) && Partial(g, p) && |p| < |g|
    requires forall k :: 0 <= k < |nbrs| ==> nbrs[k] in g
    requires i < |nbrs| && q in Branch(g, p, nbrs[i])
    ensures q in Through(g, p, nbrs)
    decreases |nbrs|
  {
    if i < |nbrs| - 1 {
      ThroughHas(g, p, nbrs[..|nbrs| - 1], i, q);
    }
  }

  /** Every Hamiltonian path that begins with the partial path is recorded. */
  lemma {:induction false} CompletionsComplete(g: Graph, p: seq<nat>, q: seq<nat>)
    requires Closed(g) && Partial(g, p) && IsHamiltonian(g, q) && |p| <= |q| && q[..|p|] == p
    ensures q in Completions(g, p)
    decreases |g| - |p|
  {
    PartialFits(g, p);
    if |p| == |g| {
      assert q == q[..|p|];
    } else {
      var last := |p| - 1;
      var v := q[|p|];
      assert q[last] == p[last];
      var nbrs := g[p[last]];
      assert v in nbrs;
      var i :| 0 <= i < |nbrs| && nbrs[i] == v;
      assert v !in p by {
        forall j | 0 <= j < |p|
          ensures p[j] != v
        {
          assert p[j] == q[j];
        }
      }
      var p' := p + [v];
      assert q[..|p'|] == p';
      CompletionsComplete(g, p', q);
      ThroughHas(g, p, nbrs, i, q);
    }
  }

  /**
   * The searches from the start vertices record exactly the Hamiltonian
   * paths that begin at one of them.
   */
  lemma {:induction false} FromStartsExact(g: Graph, starts: seq<nat>)
    requires Closed(g) && forall k :: 0 <= k < |starts| ==> starts[k] in g
    ensures forall q :: q in FromStarts(g, starts) <==> IsHamiltonian(g, q) && q[0] in starts
    decreases |starts|
  {
    if |starts| > 0 {
      var front, s := starts[..|starts| - 1], starts[|starts| - 1];
      FromStartsExact(g, front);
      CompletionsSound(g, [s]);
      forall q | IsHamiltonian(g, q) && q[0] in starts
        ensures q in FromStarts(g, starts)
      {
        if q[0] == s {
          CompletionsComplete(g, [s], q);
        } else {
          assert q[0] in front;
        }
      }
    }
  }

  /** No adjacency list names a neighbour twice. */
  ghost predicate ListsDistinct(g: Graph)
  {
    forall u :: u in g ==> Distinct(g[u])
  }

  /** Two sequences without repeats and without common elements concatenate without repeats. */
  lemma DistinctConcat<T>(a: seq<T>, b: seq<T>)
    requires Distinct(a) && Distinct(b) && forall x :: x in a ==> x !in b
    ensures Distinct(a + b)
  {
    forall i, j | 0 <= i < j < |a + b|
      ensures (a + b)[i] != (a + b)[j]
    {
      if i < |a| && |a| <= j {
        assert (a + b)[i] in a && (a + b)[j] == b[j - |a|];
      }
    }
  }

  /**
   * With duplicate-free adjacency lists the search through distinct
   * neighbours records no path twice, and each path it records continues
   * p with one of those neighbours.
   */
  lemma {:induction false} ThroughOnce(g: Graph, p: seq<nat>, nbrs: seq<nat>)
    requires Closed(g) && ListsDistinct(g) && Partial(g, p) && Linked(g, p) && |p| < |g|
    requires forall k :: 0 <= k < |nbrs| ==> nbrs[k] in g[p[|p| - 1]]
    requires Distinct(nbrs)
    ensures forall k :: 0 <= k < |nbrs| ==> nbrs[k] in g
    ensures Distinct(Through(g, p, nbrs))
    ensures forall q :: q in Through(g, p, nbrs) ==> |p| < |q| && q[|p|] in nbrs
    decreases |g| - |p|, 1, |nbrs|
  {
    if |nbrs| > 0 {
      var front, v := nbrs[..|nbrs| - 1], nbrs[|nbrs| - 1];
      ThroughOnce(g, p, front);
      if v !in p {
        var p' := p + [v];
        assert Partial(g, p') && Linked(g, p');
        CompletionsOnce(g, p');
        CompletionsSound(g, p');
        forall q | q in Completions(g, p')
          ensures |p| < |q| && q[|p|] == v
        {
          assert q[|p|] == q[..|p'|][|p|];
        }
        forall q | q in Through(g, p, front)
          ensures q !in Completions(g, p')
        {
          assert q[|p|] in front;
        }
        DistinctConcat(Through(g, p, front), Completions(g, p'));
      }
    }
  }

  /** With duplicate-free adjacency lists the search from p records no path twice. */
  lemma {:induction false} CompletionsOnce(g: Graph, p: seq<nat>)
    requires Closed(g) && ListsDistinct(g) && Partial(g, p) && Linked(g, p)
    ensures Distinct(Completions(g, p))
    decreases |g| - |p|, 2
  {
    PartialFits(g, p);
    if |p| < |g| {
      ThroughOnce(g, p, g[p[|p| - 1]]);
    }
  }

  /**
   * With duplicate-free adjacency lists and each key started from once,
   * find_hamiltonians records no path twice.
   */
  lemma {:induction false} FromStartsOnce(g: Graph, starts: seq<nat>)
    requires Closed(g) && ListsDistinct(g) && Distinct(starts)
    requires forall k :: 0 <= k < |starts| ==> starts[k] in g
    ensures Distinct(FromStarts(g, starts))
    decreases |starts|
  {
    if |starts| > 0 {
      var front, s := starts[..|starts| - 1], starts[|starts| - 1];
      FromStartsOnce(g, front);
      FromStartsExact(g, front);
      CompletionsOnce(g, [s]);
      CompletionsSound(g, [s]);
      forall q | q in FromStarts(g, front)
        ensures q !in Completions(g, [s])
      {
        assert q[0] in front;
      }
      DistinctConcat(FromStarts(g, front), Completions(g, [s]));
    }
  }

  /** A sequence without repeats holds each of its elements once. */
  lemma {:induction false} DistinctCount<T>(a: seq<T>, x: T)
    requires Distinct(a)
    ensures multiset(a)[x] == if x in a then 1 else 0
    decreases |a|
  {
    if |a| > 0 {
      var front := a[..|a| - 1];
      assert a == front + [a[|a| - 1]];
      DistinctCount(front, x);
      assert x in a <==> x in front || x == a[|a| - 1];
    }
  }

  /**
   * The key order does not matter: searches from any two listings of the
   * keys record the same paths, each once, as the tests find by sorting.
   */
  lemma AnyKeyOrder(g: Graph, keys: seq<nat>, keys': seq<nat>)
    requires Closed(g) && ListsDistinct(g) && Distinct(keys) && Distinct(keys')
    requires forall v :: v in g <==> v in keys
    requires forall v :: v in g <==> v in keys'
    ensures multiset(FromStarts(g, keys)) == multiset(FromStarts(g, keys'))
  {
    var a, b := FromStarts(g, keys), FromStarts(g, keys');
    FromStartsExact(g, keys);
    FromStartsExact(g, keys');
    FromStartsOnce(g, keys);
    FromStartsOnce(g, keys');
    forall q
      ensures multiset(a)[q] == multiset(b)[q]
    {
      DistinctCount(a, q);
      DistinctCount(b, q);
    }
  }

  /**
   * The two vectors backtrack works on: the path being grown and the paths
   * recorded so far.  The adjacency map is never changed.
   */
  class Backtracker {
    const graph: Graph
    var path: seq<nat>
    var paths: seq<seq<nat>>

    constructor (graph: Graph)
      ensures this.graph == graph && path == [] && paths == []
    {
      this.graph := graph;
      path := [];
      paths := [];
    }

    /**
     * backtrack: records the path when it holds every key, otherwise tries
     * each listed neighbour of the last vertex that is not on the path yet,
     * pushing it, searching on, and popping it again.  The path is left as
     * it was found; the recorded paths are appended.
     */
    method Backtrack()
      requires Closed(graph) && Partial(graph, path)
      modifies this
      ensures path == old(path)
      ensures paths == old(paths) + Completions(graph, path)
      decreases |graph| - |path|
    {
      PartialFits(graph, path);
      if |path| == |graph| {
        paths := paths + [path];
        return;
      }
      var current := path[|path| - 1];
      var nbrs := graph[current];
      for k := 0 to |nbrs|
        invariant path == old(path)
        invariant paths == old(paths) + Through(graph, path, nbrs[..k])
      {
        var v := nbrs[k];
        assert nbrs[..k + 1][..k] == nbrs[..k];
        if v !in path {
          path := path + [v];
          Backtrack();
          path := path[..|path| - 1];
        }
      }
      assert nbrs[..|nbrs|] == nbrs;
    }
  }

  /**
   * find_hamiltonians: one search from each key, in the order `keys` lists
   * them (the iteration order of the map, which is arbitrary).
   */
  method FindHamiltonians(graph: Graph, keys: seq<nat>) returns (paths: seq<seq<nat>>)
    requires Closed(graph) && forall k :: 0 <= k < |keys| ==> keys[k] in graph
    requires forall v :: v in graph ==> v in keys
    requires Distinct(keys)
    ensures paths == FromStarts(graph, keys)
    ensures forall q :: q in paths <==> IsHamiltonian(graph, q)
    ensures ListsDistinct(graph) ==> Distinct(paths)
  {
    var b := new Backtracker(graph);
    for k := 0 to |keys|
      invariant b.graph == graph
      invariant b.paths == FromStarts(graph, keys[..k])
    {
      assert keys[..k + 1][..k] == keys[..k];
      b.path := [keys[k]];
      b.Backtrack();
    }
    assert keys[..|keys|] == keys;
    paths := b.paths;
    FromStartsExact(graph, keys);
    if ListsDistinct(graph) {
      FromStartsOnce(graph, keys);
    }
  }
}
