/**
 * Theory of the parent array shared by every union-find in the repository.
 *
 * A parent array `p` over the vertices 0..|p|-1 is a forest when following
 * parent links always ends at a root (a vertex that is its own parent).  This
 * is witnessed by a ghost height `h` that strictly increases along every link;
 * `h` is only a proof device (the ranks of the Rust code cannot serve: two of
 * the union variants link against rank order).
 */
module ParentForest {
  import opened SpanningForest

  /** Largest entry of a sequence (0 when empty). */
  function MaxOf(s: seq<nat>): (m: nat)
    ensures forall i :: 0 <= i < |s| ==> s[i] <= m
  {
    if s == [] then 0
    else
      var t := MaxOf(s[1..]);
      assert forall i :: 1 <= i < |s| ==> s[i] == s[1..][i - 1];
      if s[0] > t then s[0] else t
  }

  /** Every parent is a vertex, and every non-root link climbs in height. */
  ghost predicate Forest(p: seq<nat>, h: seq<nat>)
  {
    |h| == |p| &&
    forall x :: 0 <= x < |p| ==> p[x] < |p| && (p[x] != x ==> h[x] < h[p[x]])
  }

  /** The root reached from x by following parent links. */
  ghost function Root(p: seq<nat>, h: seq<nat>, x: nat): (r: nat)
    requires Forest(p, h) && x < |p|
    ensures r < |p| && p[r] == r
    decreases MaxOf(h) - h[x]
  {
    if p[x] == x then x else Root(p, h, p[x])
  }

  /** y lies on the chain of parent links from x to its root (both ends included). */
  ghost predicate OnPath(p: seq<nat>, h: seq<nat>, x: nat, y: nat)
    requires Forest(p, h) && x < |p|
    decreases MaxOf(h) - h[x]
  {
    y == x || (p[x] != x && OnPath(p, h, p[x], y))
  }

  /**
   * Full path compression from x: x and, recursively, every vertex above it on
   * its chain are made to point straight at x's root.
   */
  ghost function Compressed(p: seq<nat>, h: seq<nat>, x: nat): (q: seq<nat>)
    requires Forest(p, h) && x < |p|
    ensures |q| == |p|
    decreases MaxOf(h) - h[x]
  {
    if p[x] == x then p else Compressed(p, h, p[x])[x := Root(p, h, x)]
  }

  /** The ghost height after linking root c under root t. */
  ghost function Raise(h: seq<nat>, c: nat, t: nat): seq<nat>
    requires c < |h| && t < |h|
  {
    h[t := if h[t] > h[c] then h[t] else h[c] + 1]
  }

  /** Root classes of the forest coincide with the classes of the labelling `lab`. */
  ghost predicate Agrees(p: seq<nat>, h: seq<nat>, lab: seq<nat>)
  {
    Forest(p, h) && |lab| == |p| &&
    forall x, y :: 0 <= x < |p| && 0 <= y < |p| ==> (Root(p, h, x) == Root(p, h, y) <==> lab[x] == lab[y])
  }

  /** Every vertex of the forest has the same root in (p, h) and in (q, g). */
  ghost predicate SameRoots(p: seq<nat>, h: seq<nat>, q: seq<nat>, g: seq<nat>)
  {
    Forest(p, h) && Forest(q, g) && |q| == |p| &&
    forall y :: 0 <= y < |p| ==> Root(q, g, y) == Root(p, h, y)
  }

  /** In (q, g) the tree of root c has been hung under root t; every other root is kept. */
  ghost predicate Linked(p: seq<nat>, h: seq<nat>, q: seq<nat>, g: seq<nat>, c: nat, t: nat)
  {
    Forest(p, h) && Forest(q, g) && |q| == |p| &&
    forall y :: 0 <= y < |p| ==> Root(q, g, y) == (if Root(p, h, y) == c then t else Root(p, h, y))
  }

  // ---------------------------------------------------------------------------

  /** The singleton forest: every vertex its own root. */
  lemma IdentityForest(n: nat, h: seq<nat>)
    requires |h| == n
    ensures Forest(Identity(n), h)
    ensures forall y :: 0 <= y < n ==> Root(Identity(n), h, y) == y
    ensures Agrees(Identity(n), h, Identity(n))
  {
  }

  /** A root is at least as high as every vertex of its tree, and strictly higher than the others. */
  lemma {:induction false} RootAbove(p: seq<nat>, h: seq<nat>, x: nat)
    requires Forest(p, h) && x < |p|
    ensures h[x] <= h[Root(p, h, x)]
    ensures p[x] != x ==> h[x] < h[Root(p, h, x)]
    decreases MaxOf(h) - h[x]
  {
    if p[x] != x {
      RootAbove(p, h, p[x]);
    }
  }

  /** Every vertex on x's chain has x's root. */
  lemma {:induction false} OnPathRoot(p: seq<nat>, h: seq<nat>, x: nat, y: nat)
    requires Forest(p, h) && x < |p| && OnPath(p, h, x, y)
    ensures y < |p| && Root(p, h, y) == Root(p, h, x)
    decreases MaxOf(h) - h[x]
  {
    if y != x {
      OnPathRoot(p, h, p[x], y);
    }
  }

  /** The chain from x ends at x's root. */
  lemma {:induction false} RootOnPath(p: seq<nat>, h: seq<nat>, x: nat)
    requires Forest(p, h) && x < |p|
    ensures OnPath(p, h, x, Root(p, h, x))
    decreases MaxOf(h) - h[x]
  {
    if p[x] != x {
      RootOnPath(p, h, p[x]);
    }
  }

  /** After compression from x, the vertices of x's chain point at its root and no other link changed. */
  lemma {:induction false} CompressedAt(p: seq<nat>, h: seq<nat>, x: nat)
    requires Forest(p, h) && x < |p|
    ensures forall y :: 0 <= y < |p| ==>
              Compressed(p, h, x)[y] == if OnPath(p, h, x, y) then Root(p, h, x) else p[y]
    decreases MaxOf(h) - h[x]
  {
    if p[x] != x {
      CompressedAt(p, h, p[x]);
    }
  }

  /** One more link on the path: x's chain reaches y, and y's parent. */
  lemma PathExtends(p: seq<nat>, h: seq<nat>, x: nat, y: nat)
    requires Forest(p, h) && x < |p| && y < |p| && OnPath(p, h, x, y) && p[y] != y
    ensures OnPath(p, h, x, p[y])
    decreases MaxOf(h) - h[x]
  {
    if x != y {
      PathExtends(p, h, p[x], y);
    }
  }

  /** Heights never decrease along a chain. */
  lemma {:induction false} PathClimbs(p: seq<nat>, h: seq<nat>, x: nat, y: nat)
    requires Forest(p, h) && x < |p| && OnPath(p, h, x, y)
    ensures y < |p| && h[x] <= h[y]
    decreases MaxOf(h) - h[x]
  {
    if x != y {
      PathClimbs(p, h, p[x], y);
    }
  }

  /** Compression keeps a forest with the same heights. */
  lemma CompressedIsForest(p: seq<nat>, h: seq<nat>, x: nat)
    requires Forest(p, h) && x < |p|
    ensures Forest(Compressed(p, h, x), h)
  {
    var q := Compressed(p, h, x);
    CompressedAt(p, h, x);
    forall y | 0 <= y < |p|
      ensures q[y] < |p| && (q[y] != y ==> h[y] < h[q[y]])
    {
      if OnPath(p, h, x, y) {
        OnPathRoot(p, h, x, y);
        RootAbove(p, h, y);
      }
    }
  }

  lemma {:induction false} CompressedRootAt(p: seq<nat>, h: seq<nat>, x: nat, y: nat)
    requires Forest(p, h) && x < |p| && y < |p| && Forest(Compressed(p, h, x), h)
    ensures Root(Compressed(p, h, x), h, y) == Root(p, h, y)
    decreases MaxOf(h) - h[y]
  {
    var q := Compressed(p, h, x);
    CompressedAt(p, h, x);
    if OnPath(p, h, x, y) {
      OnPathRoot(p, h, x, y);
    }
    if q[y] != y {
      CompressedRootAt(p, h, x, q[y]);
    }
  }

  /** Path compression changes no vertex's root. */
  lemma CompressedRoots(p: seq<nat>, h: seq<nat>, x: nat)
    requires Forest(p, h) && x < |p|
    ensures SameRoots(p, h, Compressed(p, h, x), h)
  {
    CompressedIsForest(p, h, x);
    forall y | 0 <= y < |p|
      ensures Root(Compressed(p, h, x), h, y) == Root(p, h, y)
    {
      CompressedRootAt(p, h, x, y);
    }
  }

  lemma {:induction false} LinkRootAt(p: seq<nat>, h: seq<nat>, c: nat, t: nat, y: nat)
    requires Forest(p, h) && c < |p| && t < |p| && p[c] == c && p[t] == t && c != t
    requires Forest(p[c := t], Raise(h, c, t)) && y < |p|
    ensures Root(p[c := t], Raise(h, c, t), y) == (if Root(p, h, y) == c then t else Root(p, h, y))
    decreases MaxOf(h) - h[y]
  {
    if y != c && p[y] != y {
      LinkRootAt(p, h, c, t, p[y]);
    }
  }

  /** Linking root c under another root t keeps a forest and moves exactly c's tree to t. */
  lemma Link(p: seq<nat>, h: seq<nat>, c: nat, t: nat)
    requires Forest(p, h) && c < |p| && t < |p| && p[c] == c && p[t] == t && c != t
    ensures Linked(p, h, p[c := t], Raise(h, c, t), c, t)
  {
    var q, g := p[c := t], Raise(h, c, t);
    assert Forest(q, g) by {
      forall y | 0 <= y < |q|
        ensures q[y] < |q| && (q[y] != y ==> g[y] < g[q[y]])
      {
      }
    }
    forall y | 0 <= y < |p|
      ensures Root(q, g, y) == (if Root(p, h, y) == c then t else Root(p, h, y))
    {
      LinkRootAt(p, h, c, t, y);
    }
  }

  /** Roots that did not move keep the agreement with a labelling. */
  lemma AgreesSameRoots(p: seq<nat>, h: seq<nat>, q: seq<nat>, g: seq<nat>, lab: seq<nat>)
    requires Agrees(p, h, lab) && SameRoots(p, h, q, g)
    ensures Agrees(q, g, lab)
  {
  }

  /** Linking the roots of a and b corresponds to merging the components of a and b. */
  lemma AgreesLinked(p: seq<nat>, h: seq<nat>, q: seq<nat>, g: seq<nat>, lab: seq<nat>,
                     a: nat, b: nat, c: nat, t: nat)
    requires Agrees(p, h, lab) && a < |p| && b < |p|
    requires Root(p, h, a) != Root(p, h, b)
    requires (c == Root(p, h, a) && t == Root(p, h, b)) || (c == Root(p, h, b) && t == Root(p, h, a))
    requires Linked(p, h, q, g, c, t)
    ensures Agrees(q, g, Merge(lab, a, b))
  {
    var m := Merge(lab, a, b);
    forall x, y | 0 <= x < |p| && 0 <= y < |p|
      ensures Root(q, g, x) == Root(q, g, y) <==> m[x] == m[y]
    {
      assert Root(p, h, c) == c && Root(p, h, t) == t;
    }
  }

  /** Compressing keeps the number of roots; linking two roots removes one. */
  lemma CompressedFixed(p: seq<nat>, h: seq<nat>, x: nat)
    requires Forest(p, h) && x < |p|
    ensures Fixed(Compressed(p, h, x)) == Fixed(p)
  {
    var q := Compressed(p, h, x);
    CompressedAt(p, h, x);
    forall y | 0 <= y < |p| ensures p[y] == y <==> q[y] == y {
      if OnPath(p, h, x, y) {
        OnPathRoot(p, h, x, y);
      }
    }
    FixedSame(p, q);
  }

  lemma LinkFixed(p: seq<nat>, c: nat, t: nat)
    requires c < |p| && p[c] == c && c != t
    ensures Fixed(p[c := t]) + 1 == Fixed(p)
  {
    FixedExcept(p, p[c := t], c);
  }

  lemma SameRootsTrans(p: seq<nat>, h: seq<nat>, q: seq<nat>, g: seq<nat>, s: seq<nat>, k: seq<nat>)
    requires SameRoots(p, h, q, g) && SameRoots(q, g, s, k)
    ensures SameRoots(p, h, s, k)
  {
  }

  /** Forests with the same roots have the same root vertices. */
  lemma SameRootsFixed(p: seq<nat>, h: seq<nat>, q: seq<nat>, g: seq<nat>)
    requires SameRoots(p, h, q, g)
    ensures forall y :: 0 <= y < |p| ==> (q[y] == y <==> p[y] == y)
  {
    forall y | 0 <= y < |p| ensures q[y] == y <==> p[y] == y {
      RootAbove(p, h, y);
      RootAbove(q, g, y);
    }
  }

  lemma SameThenLinked(p: seq<nat>, h: seq<nat>, q: seq<nat>, g: seq<nat>, s: seq<nat>, k: seq<nat>, c: nat, t: nat)
    requires SameRoots(p, h, q, g) && Linked(q, g, s, k, c, t)
    ensures Linked(p, h, s, k, c, t)
  {
  }

  /**
   * (q, g) is (p, h) after a union by rank of the sets of a and b, as every
   * rank-based union of the repository performs it: nothing changes roots when
   * a and b share a root; otherwise the root of lower rank is hung under the
   * other, and on equal ranks b's root goes under a's, whose rank grows by one.
   */
  ghost predicate UnionedByRank(p: seq<nat>, h: seq<nat>, q: seq<nat>, g: seq<nat>, a: nat, b: nat)
  {
    Forest(p, h) && a < |p| && b < |p| &&
    var r1 := Root(p, h, a);
    var r2 := Root(p, h, b);
    if r1 == r2 then
      g == h && SameRoots(p, h, q, g)
    else if h[r1] < h[r2] then
      g == h && Linked(p, h, q, g, r1, r2)
    else
      g == h[r1 := if h[r1] == h[r2] then h[r1] + 1 else h[r1]] && Linked(p, h, q, g, r2, r1)
  }

  /** Linking the two roots found for a and b by rank, after compressions that kept every root. */
  lemma LinkByRank(p0: seq<nat>, h: seq<nat>, p2: seq<nat>, a: nat, b: nat, r1: nat, r2: nat, q: seq<nat>, g: seq<nat>)
    requires SameRoots(p0, h, p2, h) && a < |p0| && b < |p0|
    requires r1 == Root(p0, h, a) && r2 == Root(p0, h, b) && r1 != r2
    requires if h[r1] < h[r2] then q == p2[r1 := r2] && g == h
             else q == p2[r2 := r1] && g == h[r1 := if h[r1] == h[r2] then h[r1] + 1 else h[r1]]
    ensures UnionedByRank(p0, h, q, g, a, b)
    ensures Forest(q, g) && |q| == |p0|
  {
    if h[r1] < h[r2] {
      assert g == Raise(h, r1, r2);
      Link(p2, h, r1, r2);
      SameThenLinked(p0, h, p2, h, q, g, r1, r2);
    } else {
      assert g == Raise(h, r2, r1);
      Link(p2, h, r2, r1);
      SameThenLinked(p0, h, p2, h, q, g, r2, r1);
    }
  }

  /** A union by rank of the roots of u and v merges the components of u and v. */
  lemma AgreesUnioned(p: seq<nat>, h: seq<nat>, q: seq<nat>, g: seq<nat>, lab: seq<nat>, a: nat, b: nat, u: nat, v: nat)
    requires Agrees(p, h, lab) && UnionedByRank(p, h, q, g, a, b) && u < |p| && v < |p|
    requires Root(p, h, u) == Root(p, h, a) && Root(p, h, v) == Root(p, h, b)
    requires Root(p, h, a) != Root(p, h, b)
    ensures Agrees(q, g, Merge(lab, u, v))
  {
    var r1, r2 := Root(p, h, a), Root(p, h, b);
    if h[r1] < h[r2] {
      AgreesLinked(p, h, q, g, lab, u, v, r1, r2);
    } else {
      AgreesLinked(p, h, q, g, lab, u, v, r2, r1);
    }
  }
}
