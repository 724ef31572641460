/**
 * Shared vocabulary of the sorting routines.  Elements of any type are
 * compared through an integer key, which stands for the total order the
 * routines use; elements with equal keys stay distinguishable, so stability
 * can be stated: a routine is stable when, for every key, the elements with
 * that key keep their relative order.
 */
module Sorting {
  /** Keys never decrease from left to right. */
  ghost predicate Sorted<T>(s: seq<T>, key: T -> int)
  {
    forall p, q :: 0 <= p < q < |s| ==> key(s[p]) <= key(s[q])
  }

  /** The first hi elements of s are sorted. */
  ghost predicate SortedPrefix<T>(s: seq<T>, hi: nat, key: T -> int)
  {
    forall p, q :: 0 <= p < q < hi && q < |s| ==> key(s[p]) <= key(s[q])
  }

  /**
   * Insertion in progress within s[..hi]: apart from position k the prefix
   * is sorted, and the element at k is no larger than anything after it.
   */
  ghost predicate Inserting<T>(s: seq<T>, hi: nat, k: nat, key: T -> int)
  {
    hi <= |s| && k < hi &&
    (forall p, q :: 0 <= p < q < hi && p != k && q != k ==> key(s[p]) <= key(s[q])) &&
    (forall q :: k < q < hi ==> key(s[k]) <= key(s[q]))
  }

  /** Inserting s[i] into a sorted prefix s[..i] starts at position i. */
  lemma InsertStart<T>(s: seq<T>, i: nat, key: T -> int)
    requires i < |s| && SortedPrefix(s, i, key)
    ensures Inserting(s, i + 1, i, key)
  {
  }

  /** Exchanging the inserted element with a larger left neighbour moves the insertion one step left. */
  lemma InsertSwap<T>(s: seq<T>, hi: nat, k: nat, key: T -> int)
    requires Inserting(s, hi, k, key) && 0 < k && key(s[k]) < key(s[k - 1])
    ensures Inserting(Swapped(s, k - 1, k), hi, k - 1, key)
  {
    var t := Swapped(s, k - 1, k);
    forall p, q | 0 <= p < q < hi && p != k - 1 && q != k - 1
      ensures key(t[p]) <= key(t[q])
    {
      if q == k {
        assert key(s[p]) <= key(s[k - 1]);
      } else if p == k {
        assert key(s[k - 1]) <= key(s[q]);
      }
    }
  }

  /** A left neighbour no larger than the inserted element lets the insertion pass over it. */
  lemma InsertPass<T>(s: seq<T>, hi: nat, k: nat, key: T -> int)
    requires Inserting(s, hi, k, key) && 0 < k && key(s[k - 1]) <= key(s[k])
    ensures Inserting(s, hi, k - 1, key)
  {
    forall q | k - 1 < q < hi
      ensures key(s[k - 1]) <= key(s[q])
    {
      if q > k {
        assert key(s[k - 1]) <= key(s[k]) <= key(s[q]);
      }
    }
    forall p, q | 0 <= p < q < hi && p != k - 1 && q != k - 1
      ensures key(s[p]) <= key(s[q])
    {
      if q == k {
        assert key(s[p]) <= key(s[k - 1]);
      } else if p == k {
        assert key(s[k]) <= key(s[q]);
      }
    }
  }

  /** An insertion that stops at position k leaves s[..hi] sorted. */
  lemma InsertDone<T>(s: seq<T>, hi: nat, k: nat, key: T -> int)
    requires Inserting(s, hi, k, key) && (k == 0 || key(s[k - 1]) <= key(s[k]))
    ensures SortedPrefix(s, hi, key)
  {
    if k > 0 {
      InsertPass(s, hi, k, key);
    }
  }

  /** The elements of s whose key is k, in their order in s. */
  ghost function Keyed<T>(s: seq<T>, key: T -> int, k: int): seq<T>
  {
    if |s| == 0 then []
    else (if key(s[0]) == k then [s[0]] else []) + Keyed(s[1..], key, k)
  }

  /** Every key's elements appear in t exactly as in s: t is a stable rearrangement of s. */
  ghost predicate SameOrder<T>(t: seq<T>, s: seq<T>, key: T -> int)
  {
    forall k :: Keyed(t, key, k) == Keyed(s, key, k)
  }

  /** s with positions i and j exchanged. */
  function Swapped<T>(s: seq<T>, i: nat, j: nat): (r: seq<T>)
    requires i < |s| && j < |s|
    ensures |r| == |s| && r[i] == s[j] && r[j] == s[i]
    ensures forall p :: 0 <= p < |s| && p != i && p != j ==> r[p] == s[p]
  {
    s[i := s[j]][j := s[i]]
  }

  /** slice::swap: exchanges positions i and j of the array. */
  method Swap<T>(values: array<T>, i: nat, j: nat)
    requires i < values.Length && j < values.Length
    modifies values
    ensures values[..] == Swapped(old(values[..]), i, j)
  {
    values[i], values[j] := values[j], values[i];
  }

  /** Exchanging two positions keeps the multiset, and exchanging them again restores s. */
  lemma SwappedPermutes<T>(s: seq<T>, i: nat, j: nat)
    requires i < |s| && j < |s|
    ensures multiset(Swapped(s, i, j)) == multiset(s)
    ensures Swapped(Swapped(s, i, j), i, j) == s
  {
  }

  lemma {:induction false} KeyedAppend<T>(a: seq<T>, b: seq<T>, key: T -> int, k: int)
    ensures Keyed(a + b, key, k) == Keyed(a, key, k) + Keyed(b, key, k)
    decreases |a|
  {
    if |a| > 0 {
      assert (a + b)[1..] == a[1..] + b;
      KeyedAppend(a[1..], b, key, k);
    } else {
      assert a + b == b;
    }
  }


  /** The elements of Keyed(s, key, k) are elements of s with key k. */
  lemma {:induction false} KeyedElements<T>(s: seq<T>, key: T -> int, k: int)
    ensures forall e :: e in Keyed(s, key, k) ==> e in s && key(e) == k
  {
    if |s| > 0 {
      KeyedElements(s[1..], key, k);
      assert forall e :: e in s[1..] ==> e in s;
    }
  }

  /** A sequence with no element of key k has no k-keyed elements. */
  lemma {:induction false} KeyedAbsent<T>(s: seq<T>, key: T -> int, k: int)
    requires forall e :: e in s ==> key(e) != k
    ensures Keyed(s, key, k) == []
  {
    if |s| > 0 {
      KeyedAbsent(s[1..], key, k);
    }
  }

  /** Exchanging neighbours with different keys is a stable rearrangement. */
  lemma SwapSameOrder<T>(s: seq<T>, i: nat, key: T -> int)
    requires 0 < i < |s| && key(s[i - 1]) != key(s[i])
    ensures SameOrder(Swapped(s, i - 1, i), s, key)
  {
    var x, y := s[i - 1], s[i];
    var pre, post := s[..i - 1], s[i + 1..];
    assert s == pre + [x, y] + post;
    assert Swapped(s, i - 1, i) == pre + [y, x] + post;
    forall k
      ensures Keyed(Swapped(s, i - 1, i), key, k) == Keyed(s, key, k)
    {
      KeyedAppend(pre + [x, y], post, key, k);
      KeyedAppend(pre, [x, y], key, k);
      KeyedAppend(pre + [y, x], post, key, k);
      KeyedAppend(pre, [y, x], key, k);
      assert [x, y][..1] == [x] && [y, x][..1] == [y];
    }
  }

  /** The number of copies of x in s is its number of copies among the elements keyed like x. */
  lemma {:induction false} KeyedCount<T>(s: seq<T>, key: T -> int, x: T)
    ensures multiset(Keyed(s, key, key(x)))[x] == multiset(s)[x]
  {
    if |s| > 0 {
      KeyedCount(s[1..], key, x);
      assert s == [s[0]] + s[1..];
    }
  }

  /** A stable rearrangement is a permutation. */
  lemma SameOrderPermutes<T>(t: seq<T>, s: seq<T>, key: T -> int)
    requires SameOrder(t, s, key)
    ensures multiset(t) == multiset(s)
  {
    forall x
      ensures multiset(t)[x] == multiset(s)[x]
    {
      KeyedCount(t, key, x);
      KeyedCount(s, key, x);
    }
  }

  lemma SameOrderTrans<T>(u: seq<T>, t: seq<T>, s: seq<T>, key: T -> int)
    requires SameOrder(u, t, key) && SameOrder(t, s, key)
    ensures SameOrder(u, s, key)
  {
  }

  /** The last element of a sorted sequence has the largest key. */
  lemma SortedLastMax<T>(s: seq<T>, key: T -> int, e: T)
    requires Sorted(s, key) && e in s
    ensures key(e) <= key(s[|s| - 1])
  {
    var i :| 0 <= i < |s| && s[i] == e;
    if i < |s| - 1 {
      assert key(s[i]) <= key(s[|s| - 1]);
    }
  }

  /** The first element of a sorted sequence has the smallest key. */
  lemma SortedHeadMin<T>(s: seq<T>, key: T -> int, e: T)
    requires Sorted(s, key) && e in s
    ensures key(s[0]) <= key(e)
  {
    var i :| 0 <= i < |s| && s[i] == e;
    if i > 0 {
      assert key(s[0]) <= key(s[i]);
    }
  }

  /** A non-empty sequence has elements keyed like its first element. */
  lemma NonEmptyKeyed<T>(s: seq<T>, key: T -> int)
    requires |s| > 0
    ensures Keyed(s, key, key(s[0])) != []
  {
  }

  /** Removing the same first element from two stable rearrangements leaves stable rearrangements. */
  lemma SameOrderRest<T>(t: seq<T>, u: seq<T>, key: T -> int)
    requires |t| > 0 && |u| > 0 && t[0] == u[0] && SameOrder(t, u, key)
    ensures SameOrder(t[1..], u[1..], key)
  {
    forall k
      ensures Keyed(t[1..], key, k) == Keyed(u[1..], key, k)
    {
      var tk, uk := Keyed(t[1..], key, k), Keyed(u[1..], key, k);
      var front := if key(t[0]) == k then [t[0]] else [];
      assert Keyed(t, key, k) == front + tk;
      assert Keyed(u, key, k) == front + uk;
      assert tk == (front + tk)[|front|..];
      assert uk == (front + uk)[|front|..];
    }
  }

  /**
   * A sorted stable rearrangement is unique: any two stable sorts of the
   * same input produce the same sequence.
   */
  lemma {:induction false} SortedStableUnique<T>(t: seq<T>, u: seq<T>, key: T -> int)
    requires Sorted(t, key) && Sorted(u, key) && SameOrder(t, u, key)
    ensures t == u
    decreases |t| + |u|
  {
    if |t| == 0 || |u| == 0 {
      if |t| > 0 {
        NonEmptyKeyed(t, key);
      } else if |u| > 0 {
        NonEmptyKeyed(u, key);
      }
      return;
    }
    var x, y := t[0], u[0];
    assert key(y) <= key(x) by {
      var ux := Keyed(u, key, key(x));
      assert ux == Keyed(t, key, key(x)) == [x] + Keyed(t[1..], key, key(x));
      KeyedElements(u, key, key(x));
      assert x in ux;
      SortedHeadMin(u, key, x);
    }
    assert key(x) <= key(y) by {
      var ty := Keyed(t, key, key(y));
      assert ty == Keyed(u, key, key(y)) == [y] + Keyed(u[1..], key, key(y));
      KeyedElements(t, key, key(y));
      assert y in ty;
      SortedHeadMin(t, key, y);
    }
    assert x == y by {
      var m := key(x);
      var tm, um := Keyed(t, key, m), Keyed(u, key, m);
      assert tm == [x] + Keyed(t[1..], key, m);
      assert um == [y] + Keyed(u[1..], key, m);
      assert tm == um;
      assert tm[0] == x && um[0] == y;
    }
    SameOrderRest(t, u, key);
    SortedStableUnique(t[1..], u[1..], key);
    assert t == [x] + t[1..] && u == [y] + u[1..];
  }

  /**
   * The reference merge: repeatedly take the head of b when its key is
   * strictly smaller than the head of a, otherwise the head of a.
   */
  function Merging<T>(a: seq<T>, b: seq<T>, key: T -> int): seq<T>
    decreases |a| + |b|
  {
    if |a| == 0 then b
    else if |b| == 0 then a
    else if key(b[0]) < key(a[0]) then [b[0]] + Merging(a, b[1..], key)
    else [a[0]] + Merging(a[1..], b, key)
  }

  /** Taking the head of the left remainder is a step of the reference merge. */
  lemma MergingLeft<T>(a: seq<T>, b: seq<T>, i: nat, j: nat, key: T -> int)
    requires i < |a| && j <= |b| && (j == |b| || key(a[i]) <= key(b[j]))
    ensures Merging(a[i..], b[j..], key) == [a[i]] + Merging(a[i + 1..], b[j..], key)
  {
    assert a[i..][0] == a[i] && a[i..][1..] == a[i + 1..];
    if j == |b| {
      assert a[i..] == [a[i]] + a[i + 1..];
    }
  }

  /** Taking the head of the right remainder is a step of the reference merge. */
  lemma MergingRight<T>(a: seq<T>, b: seq<T>, i: nat, j: nat, key: T -> int)
    requires i <= |a| && j < |b| && (i == |a| || key(b[j]) < key(a[i]))
    ensures Merging(a[i..], b[j..], key) == [b[j]] + Merging(a[i..], b[j + 1..], key)
  {
    assert b[j..][0] == b[j] && b[j..][1..] == b[j + 1..];
    if i == |a| {
      assert b[j..] == [b[j]] + b[j + 1..];
    }
  }

  /** Once one side is used up, the reference merge is the rest of the other side. */
  lemma MergingRest<T>(a: seq<T>, b: seq<T>, i: nat, j: nat, key: T -> int)
    requires i <= |a| && j <= |b| && (i == |a| || j == |b|)
    ensures Merging(a[i..], b[j..], key) == a[i..] + b[j..]
  {
    if i == |a| {
      assert a[i..] + b[j..] == b[j..];
    } else {
      assert a[i..] + b[j..] == a[i..];
    }
  }

  /**
   * `out` holds the first elements of the reference merge of a and b, and
   * a[i..], b[j..] are what is left to merge.
   */
  ghost predicate MergedUpTo<T>(out: seq<T>, a: seq<T>, b: seq<T>, i: nat, j: nat, key: T -> int)
  {
    i <= |a| && j <= |b| && out + Merging(a[i..], b[j..], key) == Merging(a, b, key)
  }

  lemma MergedLeft<T>(out: seq<T>, a: seq<T>, b: seq<T>, i: nat, j: nat, key: T -> int)
    requires MergedUpTo(out, a, b, i, j, key) && i < |a| && (j == |b| || key(a[i]) <= key(b[j]))
    ensures MergedUpTo(out + [a[i]], a, b, i + 1, j, key)
  {
    MergingLeft(a, b, i, j, key);
  }

  lemma MergedRight<T>(out: seq<T>, a: seq<T>, b: seq<T>, i: nat, j: nat, key: T -> int)
    requires MergedUpTo(out, a, b, i, j, key) && j < |b| && (i == |a| || key(b[j]) < key(a[i]))
    ensures MergedUpTo(out + [b[j]], a, b, i, j + 1, key)
  {
    MergingRight(a, b, i, j, key);
  }

  lemma MergedRest<T>(out: seq<T>, a: seq<T>, b: seq<T>, i: nat, j: nat, key: T -> int)
    requires MergedUpTo(out, a, b, i, j, key) && (i == |a| || j == |b|)
    ensures out + (a[i..] + b[j..]) == Merging(a, b, key)
  {
    MergingRest(a, b, i, j, key);
  }

  /** Stable rearrangements of two parts give a stable rearrangement of the whole. */
  lemma SameOrderAppend<T>(a: seq<T>, b: seq<T>, x: seq<T>, y: seq<T>, key: T -> int)
    requires SameOrder(a, x, key) && SameOrder(b, y, key)
    ensures SameOrder(a + b, x + y, key)
  {
    forall k
      ensures Keyed(a + b, key, k) == Keyed(x + y, key, k)
    {
      KeyedAppend(a, b, key, k);
      KeyedAppend(x, y, key, k);
    }
  }

  lemma {:induction false} MergingPermutes<T>(a: seq<T>, b: seq<T>, key: T -> int)
    ensures multiset(Merging(a, b, key)) == multiset(a) + multiset(b)
    decreases |a| + |b|
  {
    if |a| > 0 && |b| > 0 {
      if key(b[0]) < key(a[0]) {
        MergingPermutes(a, b[1..], key);
        assert b == [b[0]] + b[1..];
      } else {
        MergingPermutes(a[1..], b, key);
        assert a == [a[0]] + a[1..];
      }
    }
  }

  /** A head no larger than any element of a sorted sequence extends it to a sorted sequence. */
  lemma SortedCons<T>(h: T, rest: seq<T>, key: T -> int)
    requires Sorted(rest, key) && forall e :: e in rest ==> key(h) <= key(e)
    ensures Sorted([h] + rest, key)
  {
    var m := [h] + rest;
    forall p, q | 0 <= p < q < |m|
      ensures key(m[p]) <= key(m[q])
    {
      assert m[q] == rest[q - 1];
      if p > 0 {
        assert m[p] == rest[p - 1];
      }
    }
  }

  /** Merging sorted sequences gives a sorted sequence. */
  lemma {:induction false} MergingSorted<T>(a: seq<T>, b: seq<T>, key: T -> int)
    requires Sorted(a, key) && Sorted(b, key)
    ensures Sorted(Merging(a, b, key), key)
    decreases |a| + |b|
  {
    if |a| > 0 && |b| > 0 {
      if key(b[0]) < key(a[0]) {
        var rest := Merging(a, b[1..], key);
        MergingSorted(a, b[1..], key);
        MergingPermutes(a, b[1..], key);
        forall e | e in rest
          ensures key(b[0]) <= key(e)
        {
          assert e in multiset(rest);
          if e in a {
            SortedHeadMin(a, key, e);
          } else {
            assert e in b[1..];
            SortedHeadMin(b, key, e);
          }
        }
        SortedCons(b[0], rest, key);
      } else {
        var rest := Merging(a[1..], b, key);
        MergingSorted(a[1..], b, key);
        MergingPermutes(a[1..], b, key);
        forall e | e in rest
          ensures key(a[0]) <= key(e)
        {
          assert e in multiset(rest);
          if e in b {
            SortedHeadMin(b, key, e);
          } else {
            assert e in a[1..];
            SortedHeadMin(a, key, e);
          }
        }
        SortedCons(a[0], rest, key);
      }
    }
  }

  /** Merging a sorted a with b keeps the k-keyed elements in the order of a + b. */
  lemma {:induction false} MergingStableAt<T>(a: seq<T>, b: seq<T>, key: T -> int, k: int)
    requires Sorted(a, key)
    ensures Keyed(Merging(a, b, key), key, k) == Keyed(a, key, k) + Keyed(b, key, k)
    decreases |a| + |b|
  {
    if |a| == 0 {
      assert Keyed(a, key, k) == [];
    } else if |b| == 0 {
      assert Keyed(b, key, k) == [];
    } else if key(b[0]) < key(a[0]) {
      var rest := Merging(a, b[1..], key);
      MergingStableAt(a, b[1..], key, k);
      assert Merging(a, b, key) == [b[0]] + rest;
      TakeRight(a, b, rest, key, k);
    } else {
      var rest := Merging(a[1..], b, key);
      MergingStableAt(a[1..], b, key, k);
      assert Merging(a, b, key) == [a[0]] + rest;
      TakeLeft(a, b, rest, key, k);
    }
  }

  /** The step of MergingStableAt that takes the head of b. */
  lemma TakeRight<T>(a: seq<T>, b: seq<T>, rest: seq<T>, key: T -> int, k: int)
    requires Sorted(a, key) && |a| > 0 && |b| > 0 && key(b[0]) < key(a[0])
    requires Keyed(rest, key, k) == Keyed(a, key, k) + Keyed(b[1..], key, k)
    ensures Keyed([b[0]] + rest, key, k) == Keyed(a, key, k) + Keyed(b, key, k)
  {
    KeyedCons(b[0], rest, key, k);
    if key(b[0]) == k {
      KeyedBelowHead(a, key, k);
      calc {
        Keyed([b[0]] + rest, key, k);
        [b[0]] + Keyed(rest, key, k);
        { assert [] + Keyed(b[1..], key, k) == Keyed(b[1..], key, k); }
        [b[0]] + Keyed(b[1..], key, k);
        Keyed(b, key, k);
        { assert [] + Keyed(b, key, k) == Keyed(b, key, k); }
        Keyed(a, key, k) + Keyed(b, key, k);
      }
    } else {
      calc {
        Keyed([b[0]] + rest, key, k);
        { assert [] + Keyed(rest, key, k) == Keyed(rest, key, k); }
        Keyed(rest, key, k);
        Keyed(a, key, k) + Keyed(b[1..], key, k);
        { assert [] + Keyed(b[1..], key, k) == Keyed(b[1..], key, k); }
        Keyed(a, key, k) + Keyed(b, key, k);
      }
    }
  }

  /** Keyed over a sequence with a given head. */
  lemma KeyedCons<T>(x: T, s: seq<T>, key: T -> int, k: int)
    ensures Keyed([x] + s, key, k) == (if key(x) == k then [x] else []) + Keyed(s, key, k)
  {
    var m := [x] + s;
    assert m[0] == x && m[1..] == s;
  }

  /** A sorted sequence holds no element whose key is below its head's. */
  lemma KeyedBelowHead<T>(a: seq<T>, key: T -> int, k: int)
    requires Sorted(a, key) && |a| > 0 && k < key(a[0])
    ensures Keyed(a, key, k) == []
  {
    forall e | e in a
      ensures key(e) != k
    {
      SortedHeadMin(a, key, e);
    }
    KeyedAbsent(a, key, k);
  }

  /** The step of MergingStableAt that takes the head of a. */
  lemma TakeLeft<T>(a: seq<T>, b: seq<T>, rest: seq<T>, key: T -> int, k: int)
    requires |a| > 0
    requires Keyed(rest, key, k) == Keyed(a[1..], key, k) + Keyed(b, key, k)
    ensures Keyed([a[0]] + rest, key, k) == Keyed(a, key, k) + Keyed(b, key, k)
  {
    var m := [a[0]] + rest;
    assert m[0] == a[0] && m[1..] == rest;
  }

  /** Merging a sorted a with b keeps every key's elements in the order of a + b. */
  lemma MergingStable<T>(a: seq<T>, b: seq<T>, key: T -> int)
    requires Sorted(a, key)
    ensures SameOrder(Merging(a, b, key), a + b, key)
  {
    forall k
      ensures Keyed(Merging(a, b, key), key, k) == Keyed(a + b, key, k)
    {
      MergingStableAt(a, b, key, k);
      KeyedAppend(a, b, key, k);
    }
  }

  /** Merging sorted sequences is a stable sort of their concatenation. */
  lemma MergingSorts<T>(a: seq<T>, b: seq<T>, key: T -> int)
    requires Sorted(a, key) && Sorted(b, key)
    ensures Sorted(Merging(a, b, key), key) && SameOrder(Merging(a, b, key), a + b, key)
    ensures multiset(Merging(a, b, key)) == multiset(a + b)
  {
    MergingSorted(a, b, key);
    MergingStable(a, b, key);
    MergingPermutes(a, b, key);
  }

  /** Merging stable sorts of two parts is a stable sort of the two parts together. */
  lemma MergingSortsParts<T>(a: seq<T>, b: seq<T>, x: seq<T>, y: seq<T>, key: T -> int)
    requires Sorted(a, key) && Sorted(b, key) && SameOrder(a, x, key) && SameOrder(b, y, key)
    ensures Sorted(Merging(a, b, key), key) && SameOrder(Merging(a, b, key), x + y, key)
    ensures multiset(Merging(a, b, key)) == multiset(x + y)
  {
    MergingSorts(a, b, key);
    SameOrderAppend(a, b, x, y, key);
    SameOrderPermutes(Merging(a, b, key), x + y, key);
  }

  /**
   * `x < y` on optional elements, where a missing element compares below
   * every present one (the order of `Option` used by `a.last() < b.first()`).
   */
  predicate Below<T>(x: seq<T>, y: seq<T>, key: T -> int)
    requires |x| <= 1 && |y| <= 1
  {
    if |x| == 0 then |y| == 1 else |y| == 1 && key(x[0]) < key(y[0])
  }

  /** The last element of s, as a sequence of at most one element. */
  function LastOf<T>(s: seq<T>): (r: seq<T>)
    ensures |r| <= 1 && (|s| > 0 <==> |r| == 1) && (|r| == 1 ==> r[0] == s[|s| - 1])
  {
    if |s| == 0 then [] else [s[|s| - 1]]
  }

  /** The first element of s, as a sequence of at most one element. */
  function FirstOf<T>(s: seq<T>): (r: seq<T>)
    ensures |r| <= 1 && (|s| > 0 <==> |r| == 1) && (|r| == 1 ==> r[0] == s[0])
  {
    if |s| == 0 then [] else [s[0]]
  }

  /**
   * The merges of the repository: concatenate when one side lies entirely
   * below the other, merge otherwise.
   */
  function MergeFast<T>(a: seq<T>, b: seq<T>, key: T -> int): seq<T>
  {
    if Below(LastOf(a), FirstOf(b), key) then a + b
    else if Below(LastOf(b), FirstOf(a), key) then b + a
    else Merging(a, b, key)
  }

  lemma {:induction false} MergingAppend<T>(a: seq<T>, b: seq<T>, key: T -> int)
    requires Sorted(a, key) && (|a| == 0 || |b| == 0 || key(a[|a| - 1]) < key(b[0]))
    ensures Merging(a, b, key) == a + b
    decreases |a|
  {
    if |a| > 0 && |b| > 0 {
      MergingAppend(a[1..], b, key);
      assert a == [a[0]] + a[1..];
    }
  }

  lemma {:induction false} MergingPrepend<T>(a: seq<T>, b: seq<T>, key: T -> int)
    requires Sorted(b, key) && |a| > 0 && |b| > 0 && key(b[|b| - 1]) < key(a[0])
    ensures Merging(a, b, key) == b + a
    decreases |b|
  {
    assert key(b[0]) < key(a[0]) by {
      assert key(b[0]) <= key(b[|b| - 1]);
    }
    assert Merging(a, b, key) == [b[0]] + Merging(a, b[1..], key);
    if |b| > 1 {
      assert Sorted(b[1..], key);
      MergingPrepend(a, b[1..], key);
    }
    assert b == [b[0]] + b[1..];
  }

  /** On sorted inputs the shortcuts of the merges agree with the reference merge. */
  lemma MergeFastAgrees<T>(a: seq<T>, b: seq<T>, key: T -> int)
    requires Sorted(a, key) && Sorted(b, key)
    ensures MergeFast(a, b, key) == Merging(a, b, key)
  {
    if Below(LastOf(a), FirstOf(b), key) {
      MergingAppend(a, b, key);
    } else if Below(LastOf(b), FirstOf(a), key) {
      if |b| == 0 {
        assert b + a == a;
      } else {
        MergingPrepend(a, b, key);
      }
    }
  }

  /** The same for the merges of the repository, on sorted parts. */
  lemma MergeFastSortsParts<T>(a: seq<T>, b: seq<T>, x: seq<T>, y: seq<T>, key: T -> int)
    requires Sorted(a, key) && Sorted(b, key) && SameOrder(a, x, key) && SameOrder(b, y, key)
    ensures Sorted(MergeFast(a, b, key), key) && SameOrder(MergeFast(a, b, key), x + y, key)
  {
    MergeFastAgrees(a, b, key);
    MergingSortsParts(a, b, x, y, key);
  }

  /**
   * t is s with only the range [lo, hi) rearranged: the elements outside are
   * in place and the range holds the same elements.
   */
  ghost predicate Rearranged<T>(t: seq<T>, s: seq<T>, lo: nat, hi: nat)
  {
    lo <= hi <= |s| && |t| == |s| && t[..lo] == s[..lo] && t[hi..] == s[hi..] &&
    multiset(t[lo..hi]) == multiset(s[lo..hi])
  }

  /** The integers ordered by themselves. */
  function Id(x: int): int
  {
    x
  }

  /**
   * On integers ordered by themselves, two sorted permutations of one
   * multiset are equal: an unstable sort of integers is still determined by
   * its input.
   */
  lemma {:induction false} SortedPermutationUnique(s: seq<int>, t: seq<int>)
    requires Sorted(s, Id) && Sorted(t, Id) && multiset(s) == multiset(t)
    ensures s == t
    decreases |s|
  {
    if |s| == 0 || |t| == 0 {
      assert |multiset(s)| == |s| && |multiset(t)| == |t|;
    } else {
      SortedHeadLeast(s, t[0]);
      SortedHeadLeast(t, s[0]);
      DropHead(s, t);
      SortedPermutationUnique(s[1..], t[1..]);
      SameHeadTail(s, t);
    }
  }

  /** Sequences with the same head and the same tail are equal. */
  lemma SameHeadTail<T>(s: seq<T>, t: seq<T>)
    requires |s| > 0 && |t| > 0 && s[0] == t[0] && s[1..] == t[1..]
    ensures s == t
  {
    assert s == [s[0]] + s[1..] && t == [t[0]] + t[1..];
  }

  /** The head of a non-empty sorted integer sequence is its least element. */
  lemma SortedHeadLeast(s: seq<int>, x: int)
    requires Sorted(s, Id) && |s| > 0 && x in multiset(s)
    ensures s[0] <= x
  {
    var j :| 0 <= j < |s| && s[j] == x;
    assert Id(s[0]) <= Id(s[j]) || j == 0;
  }

  /** Equal heads drop out of equal multisets, and the tails stay sorted. */
  lemma DropHead(s: seq<int>, t: seq<int>)
    requires Sorted(s, Id) && Sorted(t, Id) && multiset(s) == multiset(t)
    requires |s| > 0 && |t| > 0 && s[0] == t[0]
    ensures Sorted(s[1..], Id) && Sorted(t[1..], Id) && multiset(s[1..]) == multiset(t[1..])
  {
    var a, b := s[1..], t[1..];
    assert multiset(s) == multiset([s[0]]) + multiset(a) by {
      assert s == [s[0]] + a;
    }
    assert multiset(t) == multiset([t[0]]) + multiset(b) by {
      assert t == [t[0]] + b;
    }
    assert multiset(a) == multiset(s) - multiset([s[0]]);
    assert multiset(b) == multiset(t) - multiset([t[0]]);
  }

  /**
   * Two sorted rearrangements of the same range of an integer sequence are
   * equal, so every quicksort result is fixed by its input, whatever pivots
   * were drawn.
   */
  lemma RearrangedSortedUnique(t: seq<int>, t': seq<int>, s: seq<int>, lo: nat, hi: nat)
    requires Rearranged(t, s, lo, hi) && Sorted(t[lo..hi], Id)
    requires Rearranged(t', s, lo, hi) && Sorted(t'[lo..hi], Id)
    ensures t == t'
  {
    SortedPermutationUnique(t[lo..hi], t'[lo..hi]);
    assert t == t[..lo] + t[lo..hi] + t[hi..];
    assert t' == t'[..lo] + t'[lo..hi] + t'[hi..];
  }

  lemma RearrangedRefl<T>(s: seq<T>, lo: nat, hi: nat)
    requires lo <= hi <= |s|
    ensures Rearranged(s, s, lo, hi)
  {
  }

  lemma RearrangedTrans<T>(u: seq<T>, t: seq<T>, s: seq<T>, lo: nat, hi: nat)
    requires Rearranged(u, t, lo, hi) && Rearranged(t, s, lo, hi)
    ensures Rearranged(u, s, lo, hi)
  {
  }

  /** Exchanging two positions inside the range keeps a rearrangement of the range. */
  lemma SwapRearranges<T>(t: seq<T>, s: seq<T>, lo: nat, hi: nat, i: nat, j: nat)
    requires Rearranged(t, s, lo, hi) && lo <= i < hi && lo <= j < hi
    ensures Rearranged(Swapped(t, i, j), s, lo, hi)
  {
    var u := Swapped(t, i, j);
    assert u[lo..hi] == Swapped(t[lo..hi], i - lo, j - lo);
    SwappedPermutes(t[lo..hi], i - lo, j - lo);
    assert u[..lo] == t[..lo] && u[hi..] == t[hi..];
  }

  /** A rearrangement of a sub-range is a rearrangement of any range around it. */
  lemma RearrangedWiden<T>(t: seq<T>, s: seq<T>, a: nat, b: nat, lo: nat, hi: nat)
    requires Rearranged(t, s, a, b) && lo <= a && b <= hi <= |s|
    ensures Rearranged(t, s, lo, hi)
  {
    assert t[lo..hi] == t[lo..a] + t[a..b] + t[b..hi];
    assert s[lo..hi] == s[lo..a] + s[a..b] + s[b..hi];
    assert t[lo..a] == s[lo..a] by {
      assert t[..a] == s[..a];
    }
    assert t[b..hi] == s[b..hi] by {
      assert t[b..] == s[b..];
    }
    assert t[..lo] == s[..lo] by {
      assert t[..a] == s[..a];
    }
    assert t[hi..] == s[hi..] by {
      assert t[b..] == s[b..];
    }
  }

  /** Every key in s[lo..hi] is at most k. */
  ghost predicate AtMost<T>(s: seq<T>, lo: nat, hi: nat, k: int, key: T -> int)
  {
    forall q :: lo <= q < hi && q < |s| ==> key(s[q]) <= k
  }

  /** Every key in s[lo..hi] is at least k. */
  ghost predicate AtLeast<T>(s: seq<T>, lo: nat, hi: nat, k: int, key: T -> int)
  {
    forall q :: lo <= q < hi && q < |s| ==> k <= key(s[q])
  }

  /** Rearranging a range keeps the bounds its elements satisfy. */
  lemma RearrangedBounds<T>(t: seq<T>, s: seq<T>, lo: nat, hi: nat, k: int, key: T -> int)
    requires Rearranged(t, s, lo, hi)
    ensures AtMost(s, lo, hi, k, key) ==> AtMost(t, lo, hi, k, key)
    ensures AtLeast(s, lo, hi, k, key) ==> AtLeast(t, lo, hi, k, key)
  {
    forall q | lo <= q < hi
      ensures exists r :: lo <= r < hi && s[r] == t[q]
    {
      assert t[q] == t[lo..hi][q - lo];
      assert t[q] in multiset(s[lo..hi]);
      var r :| 0 <= r < hi - lo && s[lo..hi][r] == t[q];
      assert s[lo + r] == t[q];
    }
  }

  /**
   * A range split around position idx, with sorted sides, the left side no
   * larger and the right side no smaller than s[idx], is sorted.
   */
  lemma SortedAround<T>(s: seq<T>, lo: nat, idx: nat, hi: nat, key: T -> int)
    requires lo <= idx < hi <= |s|
    requires Sorted(s[lo..idx], key) && Sorted(s[idx + 1..hi], key)
    requires AtMost(s, lo, idx, key(s[idx]), key) && AtLeast(s, idx + 1, hi, key(s[idx]), key)
    ensures Sorted(s[lo..hi], key)
  {
    forall p, q | 0 <= p < q < hi - lo
      ensures key(s[lo..hi][p]) <= key(s[lo..hi][q])
    {
      var x, y := lo + p, lo + q;
      assert s[lo..hi][p] == s[x] && s[lo..hi][q] == s[y];
      if y < idx {
        assert s[x] == s[lo..idx][p] && s[y] == s[lo..idx][q];
      } else if x > idx {
        assert s[x] == s[idx + 1..hi][x - idx - 1] && s[y] == s[idx + 1..hi][y - idx - 1];
      }
    }
  }

  /**
   * Sorting both sides of a partitioned range, each in place, sorts the
   * range: the step after the recursive calls of the quicksorts.
   */
  lemma Reassemble<T>(s: seq<T>, parted: seq<T>, leftDone: seq<T>, t: seq<T>, lo: nat, idx: nat, hi: nat, key: T -> int)
    requires lo <= idx < hi <= |s|
    requires Rearranged(parted, s, lo, hi)
    requires AtMost(parted, lo, idx, key(parted[idx]), key)
    requires AtLeast(parted, idx + 1, hi, key(parted[idx]), key)
    requires Rearranged(leftDone, parted, lo, idx) && Sorted(leftDone[lo..idx], key)
    requires Rearranged(t, leftDone, idx + 1, hi) && Sorted(t[idx + 1..hi], key)
    ensures Rearranged(t, s, lo, hi) && Sorted(t[lo..hi], key)
  {
    var pk := key(parted[idx]);
    RearrangedBounds(leftDone, parted, lo, idx, pk, key);
    RearrangedBounds(t, leftDone, idx + 1, hi, pk, key);
    assert t[lo..idx] == leftDone[lo..idx] by {
      assert t[..idx + 1] == leftDone[..idx + 1];
    }
    assert t[idx] == parted[idx] by {
      assert t[..idx + 1] == leftDone[..idx + 1];
      assert leftDone[idx..] == parted[idx..];
    }
    assert AtLeast(leftDone, idx + 1, hi, pk, key) by {
      assert leftDone[idx..] == parted[idx..];
    }
    assert AtMost(t, lo, idx, pk, key);
    SortedAround(t, lo, idx, hi, key);
    RearrangedWiden(leftDone, parted, lo, idx, lo, hi);
    RearrangedWiden(t, leftDone, idx + 1, hi, lo, hi);
    RearrangedTrans(t, leftDone, parted, lo, hi);
    RearrangedTrans(t, parted, s, lo, hi);
  }
}
