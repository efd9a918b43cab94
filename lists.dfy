/**
 * The `java.util.Collections` operations the core relies on, given by their contracts:
 * `sort` yields a sorted permutation (any one: sorted permutations are unique) and `min`
 * the least element.
 */
module Lists {
  predicate IsSorted(s: seq<int>)
  {
    forall i, j :: 0 <= i < j < |s| ==> s[i] <= s[j]
  }

  /** Every element of s is at least y. */
  predicate AllAtLeast(y: int, s: seq<int>)
  {
    forall k :: 0 <= k < |s| ==> y <= s[k]
  }

  /** Being a lower bound depends only on the elements, not on their order. */
  lemma AllAtLeastMultiset(y: int, s: seq<int>, t: seq<int>)
    requires AllAtLeast(y, s) && multiset(t) == multiset(s)
    ensures AllAtLeast(y, t)
  {
    forall k | 0 <= k < |t|
      ensures y <= t[k]
    {
      assert t[k] in multiset(s);
    }
  }

  /** Putting a lower bound in front of a sorted sequence keeps it sorted. */
  lemma ConsSorted(x: int, t: seq<int>)
    requires IsSorted(t) && AllAtLeast(x, t)
    ensures IsSorted([x] + t)
  {
    var u := [x] + t;
    forall i, j | 0 <= i < j < |u|
      ensures u[i] <= u[j]
    {
      assert u[j] == t[j - 1];
      if i > 0 {
        assert u[i] == t[i - 1];
      }
    }
  }

  function Insert(x: int, s: seq<int>): (r: seq<int>)
    requires IsSorted(s)
    ensures IsSorted(r) && multiset(r) == multiset(s) + multiset{x}
  {
    if s == [] then [x]
    else if x <= s[0] then
      assert AllAtLeast(x, s);
      ConsSorted(x, s);
      [x] + s
    else
      SortedTail(s);
      var rest := Insert(x, s[1..]);
      assert AllAtLeast(s[0], s[1..] + [x]);
      AllAtLeastMultiset(s[0], s[1..] + [x], rest);
      ConsSorted(s[0], rest);
      assert s == [s[0]] + s[1..];
      [s[0]] + rest
  }

  /** `Collections.sort` on a list of integers: a sorted permutation of its argument. */
  function Sort(s: seq<int>): (r: seq<int>)
    ensures IsSorted(r) && multiset(r) == multiset(s)
  {
    if s == [] then []
    else
      assert s == [s[0]] + s[1..];
      Insert(s[0], Sort(s[1..]))
  }

  /** The sorted permutation of s, whichever algorithm produced it (see `SortedUnique`). */
  ghost function SortedPermutation(s: seq<int>): (r: seq<int>)
    ensures IsSorted(r) && multiset(r) == multiset(s)
  {
    assert IsSorted(Sort(s)) && multiset(Sort(s)) == multiset(s);
    var r :| IsSorted(r) && multiset(r) == multiset(s);
    r
  }

  /** A sorted sequence is determined by its multiset of elements. */
  lemma {:induction false} SortedUnique(a: seq<int>, b: seq<int>)
    requires IsSorted(a) && IsSorted(b) && multiset(a) == multiset(b)
    ensures a == b
  {
    assert |b| == |a| by { assert |multiset(a)| == |a| && |multiset(b)| == |b|; }
    if a != [] {
      SortedHeadLeast(a, b[0]);
      SortedHeadLeast(b, a[0]);
      assert a[0] == b[0];
      TailMultiset(a);
      TailMultiset(b);
      assert multiset(a[1..]) == multiset(b[1..]);
      SortedTail(a);
      SortedTail(b);
      SortedUnique(a[1..], b[1..]);
      assert a == [a[0]] + a[1..] && b == [b[0]] + b[1..];
    }
  }

  /** The head of a sorted sequence is at most each of its elements. */
  lemma SortedHeadLeast(a: seq<int>, x: int)
    requires IsSorted(a) && x in multiset(a)
    ensures a[0] <= x
  {
    var i :| 0 <= i < |a| && a[i] == x;
  }

  lemma SortedTail(a: seq<int>)
    requires |a| > 0 && IsSorted(a)
    ensures IsSorted(a[1..])
  {
    forall i, j | 0 <= i < j < |a| - 1
      ensures a[1..][i] <= a[1..][j]
    {
      assert a[1..][i] == a[i + 1] && a[1..][j] == a[j + 1];
    }
  }

  lemma TailMultiset(a: seq<int>)
    requires |a| > 0
    ensures multiset(a[1..]) == multiset(a) - multiset{a[0]}
  {
    assert a == [a[0]] + a[1..];
  }

  /** `Collections.min`. */
  function Min(s: seq<int>): (m: int)
    requires |s| > 0
    ensures m in s && forall k :: 0 <= k < |s| ==> m <= s[k]
  {
    if |s| == 1 then s[0]
    else
      var rest := Min(s[1..]);
      assert forall k :: 1 <= k < |s| ==> s[k] == s[1..][k - 1];
      if s[0] <= rest then s[0] else rest
  }

  /** The largest element, used to bound the median. */
  function Max(s: seq<int>): (m: int)
    requires |s| > 0
    ensures m in s && forall k :: 0 <= k < |s| ==> s[k] <= m
  {
    if |s| == 1 then s[0]
    else
      var rest := Max(s[1..]);
      assert forall k :: 1 <= k < |s| ==> s[k] == s[1..][k - 1];
      if rest <= s[0] then s[0] else rest
  }

  /** Every element of a permutation lies between the original's minimum and maximum. */
  lemma PermutationWithin(s: seq<int>, t: seq<int>)
    requires |s| > 0 && multiset(t) == multiset(s)
    ensures forall k :: 0 <= k < |t| ==> t[k] in s && Min(s) <= t[k] <= Max(s)
  {
    forall k | 0 <= k < |t|
      ensures t[k] in s
    {
      assert t[k] in multiset(t);
    }
  }
}
