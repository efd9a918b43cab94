/**
 * `QuickSort.qSortMapAsTwoLists`: sorting a list of similarity values in ascending order and
 * applying every swap to a list of images as well, so that each image keeps its value.
 */
module Ranking {
  import opened Pixels

  /** An image reference as a list element; `null` is a possible element. */
  type Image = array2?<Int32>

  /** s with the elements at i and j exchanged. */
  function Swapped<T>(s: seq<T>, i: int, j: int): (t: seq<T>)
    requires 0 <= i < |s| && 0 <= j < |s|
    ensures |t| == |s| && t[i] == s[j] && t[j] == s[i]
    ensures forall k :: 0 <= k < |s| && k != i && k != j ==> t[k] == s[k]
  {
    s[i := s[j]][j := s[i]]
  }

  /**
   * perm is a permutation of the positions of a list that moves only positions in [lo, hi):
   * a one-to-one map from the positions in [lo, hi) into [lo, hi), the others fixed.
   */
  ghost predicate Reorders(perm: seq<int>, lo: int, hi: int)
  {
    0 <= lo <= hi <= |perm| &&
    (forall k :: 0 <= k < |perm| ==> if lo <= k < hi then lo <= perm[k] < hi else perm[k] == k) &&
    (forall i, j :: 0 <= i < j < |perm| ==> perm[i] != perm[j])
  }

  /**
   * The lists (values, images) are (values0, images0) after the same moves: position k
   * holds the value and the image that stood together at position perm[k].
   */
  ghost predicate Moved(values0: seq<real>, images0: seq<Image>, values: seq<real>, images: seq<Image>, perm: seq<int>)
  {
    |values0| == |perm| && |images0| == |perm| && |values| == |perm| && |images| == |perm| &&
    forall k {:trigger perm[k]} :: 0 <= k < |perm| ==>
      0 <= perm[k] < |perm| && values[k] == values0[perm[k]] && images[k] == images0[perm[k]]
  }

  /** values is in ascending order on [lo, hi). */
  ghost predicate SortedOn(values: seq<real>, lo: int, hi: int)
  {
    forall i, j :: lo <= i < j < hi && 0 <= i && j < |values| ==> values[i] <= values[j]
  }

  /** The permutation that moves nothing. */
  function Identity(n: nat): (perm: seq<int>)
    ensures |perm| == n && forall k :: 0 <= k < n ==> perm[k] == k
  {
    seq(n, k => k)
  }

  /** Moving nothing reorders any segment and leaves both lists as they are. */
  lemma IdentityMoves(values: seq<real>, images: seq<Image>, lo: int, hi: int)
    requires |values| == |images| && 0 <= lo <= hi <= |values|
    ensures Reorders(Identity(|values|), lo, hi) && Moved(values, images, values, images, Identity(|values|))
  {
  }

  /** First the moves of p, then those of q: position k takes what q[k] held after p. */
  function Compose(p: seq<int>, q: seq<int>): (r: seq<int>)
    requires |p| == |q| && forall k :: 0 <= k < |q| ==> 0 <= q[k] < |p|
    ensures |r| == |q| && forall k :: 0 <= k < |q| ==> r[k] == p[q[k]]
  {
    seq(|q|, k requires 0 <= k < |q| => p[q[k]])
  }

  /** Moves within a sub-segment, after moves within a segment, are moves within the segment. */
  lemma ComposeMoves(v0: seq<real>, i0: seq<Image>, v1: seq<real>, i1: seq<Image>, v2: seq<real>, i2: seq<Image>,
                     p: seq<int>, q: seq<int>, lo: int, hi: int, lo': int, hi': int)
    requires Reorders(p, lo, hi) && Moved(v0, i0, v1, i1, p)
    requires Reorders(q, lo', hi') && Moved(v1, i1, v2, i2, q) && lo <= lo' && hi' <= hi
    ensures Reorders(Compose(p, q), lo, hi) && Moved(v0, i0, v2, i2, Compose(p, q))
  {
  }

  /** Exchanging the same two positions of both lists is one more move within the segment. */
  lemma SwapMoves(v0: seq<real>, i0: seq<Image>, values: seq<real>, images: seq<Image>, perm: seq<int>,
                  lo: int, hi: int, i: int, j: int)
    requires Reorders(perm, lo, hi) && Moved(v0, i0, values, images, perm) && lo <= i < hi && lo <= j < hi
    ensures Reorders(Swapped(perm, i, j), lo, hi) && Moved(v0, i0, Swapped(values, i, j), Swapped(images, i, j), Swapped(perm, i, j))
  {
  }

  /**
   * The quicksort step: a pivot at p with no larger value before it and only larger values
   * after it, then each side sorted by moves within that side, gives a sorted segment.
   */
  lemma SortedAroundPivot(v1: seq<real>, i1: seq<Image>, v2: seq<real>, i2: seq<Image>, v3: seq<real>, i3: seq<Image>,
                          q2: seq<int>, q3: seq<int>, low: int, p: int, high: int)
    requires 0 <= low <= p <= high < |v1|
    requires forall k :: low <= k < p ==> v1[k] <= v1[p]
    requires forall k :: p < k <= high ==> v1[p] < v1[k]
    requires Reorders(q2, low, p) && Moved(v1, i1, v2, i2, q2) && SortedOn(v2, low, p)
    requires Reorders(q3, p + 1, high + 1) && Moved(v2, i2, v3, i3, q3) && SortedOn(v3, p + 1, high + 1)
    ensures SortedOn(v3, low, high + 1)
  {
    assert forall k :: low <= k < p ==> v2[k] == v1[q2[k]] <= v1[p];
    assert forall k :: p <= k <= high ==> q2[k] == k && v2[k] == v1[q2[k]];
    assert forall k :: p < k <= high ==> v2[p] < v2[q3[k]] == v3[k];
    assert forall k :: low <= k <= p ==> q3[k] == k && v3[k] == v2[q3[k]];
  }

  /** Exchanges the values at i and j, and the images at i and j. */
  method SwapBoth(values: array<real>, images: array<Image>, i: int, j: int)
    requires values.Length == images.Length && 0 <= i < values.Length && 0 <= j < values.Length
    modifies values, images
    ensures values[..] == Swapped(old(values[..]), i, j) && images[..] == Swapped(old(images[..]), i, j)
  {
    var swapValueI := values[i];
    var swapValueJ := values[j];
    values[i] := swapValueJ;
    values[j] := swapValueI;
    var swapImageI := images[i];
    var swapImageJ := images[j];
    images[i] := swapImageJ;
    images[j] := swapImageI;
  }

  /**
   * `partition` (Lomuto): the last value of the segment [low, high] as pivot; values at
   * most the pivot are moved to its front, and the pivot ends up at the returned index.
   */
  method Partition(values: array<real>, images: array<Image>, low: int, high: int) returns (p: int, ghost perm: seq<int>)
    requires values.Length == images.Length && 0 <= low <= high < values.Length
    modifies values, images
    ensures low <= p <= high
    ensures forall k :: low <= k < p ==> values[k] <= values[p]
    ensures forall k :: p < k <= high ==> values[p] < values[k]
    ensures Reorders(perm, low, high + 1) && Moved(old(values[..]), old(images[..]), values[..], images[..], perm)
  {
    ghost var v0, i0 := values[..], images[..];
    var i;
    i, perm := PartitionScan(values, images, low, high);
    ghost var vs, ims := values[..], images[..];
    SwapMoves(v0, i0, vs, ims, perm, low, high + 1, i + 1, high);
    PivotPlaced(vs, low, i, high, vs[high]);
    SwapBoth(values, images, i + 1, high);
    perm := Swapped(perm, i + 1, high);
    assert forall k :: 0 <= k < values.Length ==> values[k] == values[..][k] == Swapped(vs, i + 1, high)[k];
    return i + 1, perm;
  }

  /**
   * The loop of `partition`: with the last value of [low, high] as pivot, moves the values
   * at most the pivot to the front of the segment; i is the last of them (low - 1 if none).
   */
  method PartitionScan(values: array<real>, images: array<Image>, low: int, high: int) returns (i: int, ghost perm: seq<int>)
    requires values.Length == images.Length && 0 <= low <= high < values.Length
    modifies values, images
    ensures low - 1 <= i < high && values[high] == old(values[high])
    ensures BelowThenAbove(values[..], low, i, high, values[high])
    ensures Reorders(perm, low, high + 1) && Moved(old(values[..]), old(images[..]), values[..], images[..], perm)
  {
    ghost var v0, i0 := values[..], images[..];
    IdentityMoves(v0, i0, low, high + 1);
    perm := Identity(values.Length);
    var pivot := values[high];
    i := low - 1;
    ghost var vs, ims := v0, i0;
    for j := low to high
      invariant low - 1 <= i < j
      invariant values[..] == vs && images[..] == ims
      invariant Reorders(perm, low, high + 1) && Moved(v0, i0, vs, ims, perm)
      invariant vs[high] == pivot && BelowThenAbove(vs, low, i, j, pivot)
    {
      assert values[j] == vs[j];
      if values[j] <= pivot {
        i := i + 1;
        SwapMoves(v0, i0, vs, ims, perm, low, high + 1, i, j);
        SwapBoth(values, images, i, j);
        vs, ims, perm := Swapped(vs, i, j), Swapped(ims, i, j), Swapped(perm, i, j);
      }
    }
    assert values[high] == vs[high];
  }

  /** Lomuto's loop invariant: values at most the pivot on [low, i], larger ones on (i, j). */
  ghost predicate BelowThenAbove(values: seq<real>, low: int, i: int, j: int, pivot: real)
  {
    (forall k :: low <= k <= i && 0 <= k < |values| ==> values[k] <= pivot) &&
    (forall k :: i < k < j && 0 <= k < |values| ==> pivot < values[k])
  }

  /** The final exchange of `partition` puts the pivot between the two groups. */
  lemma PivotPlaced(values: seq<real>, low: int, i: int, high: int, pivot: real)
    requires 0 <= low <= i + 1 <= high < |values| && values[high] == pivot
    requires BelowThenAbove(values, low, i, high, pivot)
    ensures var t := Swapped(values, i + 1, high);
      t[i + 1] == pivot &&
      (forall k :: low <= k < i + 1 ==> t[k] <= t[i + 1]) &&
      (forall k :: i + 1 < k <= high ==> t[i + 1] < t[k])
  {
  }

  /**
   * `qSortMapAsTwoLists(values, images, low, high)`: sorts the values on [low, high] in
   * ascending order, moving each image along with its value; for low >= high, a no-op.
   */
  method QSortMapAsTwoLists(values: array<real>, images: array<Image>, low: int, high: int) returns (ghost perm: seq<int>)
    requires values.Length == images.Length && (low < high ==> 0 <= low && high < values.Length)
    modifies values, images
    ensures Moved(old(values[..]), old(images[..]), values[..], images[..], perm)
    ensures low < high ==> Reorders(perm, low, high + 1) && SortedOn(values[..], low, high + 1)
    ensures low >= high ==> perm == Identity(values.Length)
    decreases high - low
  {
    ghost var v0, i0 := values[..], images[..];
    if low < high {
      var partitionIndex, q1 := Partition(values, images, low, high);
      ghost var v1, i1 := values[..], images[..];
      var q2 := QSortMapAsTwoLists(values, images, low, partitionIndex - 1);
      ghost var v2, i2 := values[..], images[..];
      var q3 := QSortMapAsTwoLists(values, images, partitionIndex + 1, high);
      perm := QSortStep(v0, i0, v1, i1, v2, i2, values[..], images[..], q1, q2, q3, low, partitionIndex, high);
    } else {
      IdentityMoves(v0, i0, 0, 0);
      perm := Identity(values.Length);
    }
  }

  /** The quicksort step on the lists' contents: partition, then the two recursive sorts. */
  lemma QSortStep(v0: seq<real>, i0: seq<Image>, v1: seq<real>, i1: seq<Image>,
                  v2: seq<real>, i2: seq<Image>, v3: seq<real>, i3: seq<Image>,
                  q1: seq<int>, q2: seq<int>, q3: seq<int>, low: int, p: int, high: int) returns (perm: seq<int>)
    requires low <= p <= high
    requires Reorders(q1, low, high + 1) && Moved(v0, i0, v1, i1, q1)
    requires forall k :: low <= k < p ==> v1[k] <= v1[p]
    requires forall k :: p < k <= high ==> v1[p] < v1[k]
    requires Moved(v1, i1, v2, i2, q2)
    requires low < p - 1 ==> Reorders(q2, low, p) && SortedOn(v2, low, p)
    requires low >= p - 1 ==> q2 == Identity(|v1|)
    requires Moved(v2, i2, v3, i3, q3)
    requires p + 1 < high ==> Reorders(q3, p + 1, high + 1) && SortedOn(v3, p + 1, high + 1)
    requires p + 1 >= high ==> q3 == Identity(|v2|)
    ensures Reorders(perm, low, high + 1) && Moved(v0, i0, v3, i3, perm) && SortedOn(v3, low, high + 1)
  {
    if low >= p - 1 {
      IdentityMoves(v1, i1, low, p);
    }
    if p + 1 >= high {
      IdentityMoves(v2, i2, p + 1, high + 1);
    }
    SortedAroundPivot(v1, i1, v2, i2, v3, i3, q2, q3, low, p, high);
    ComposeMoves(v0, i0, v1, i1, v2, i2, q1, q2, low, high + 1, low, p);
    ComposeMoves(v0, i0, v2, i2, v3, i3, Compose(q1, q2), q3, low, high + 1, p + 1, high + 1);
    perm := Compose(Compose(q1, q2), q3);
  }

  /** s back to front. */
  function Reversed<T>(s: seq<T>): (r: seq<T>)
    ensures |r| == |s| && forall k :: 0 <= k < |s| ==> r[k] == s[|s| - 1 - k]
  {
    seq(|s|, k requires 0 <= k < |s| => s[|s| - 1 - k])
  }

  /** `Collections.reverse` on the list of images. */
  method Reverse(a: array<Image>)
    modifies a
    ensures a[..] == Reversed(old(a[..]))
  {
    var n := a.Length;
    for i := 0 to n / 2
      invariant forall k :: 0 <= k < i ==> a[k] == old(a[n - 1 - k]) && a[n - 1 - k] == old(a[k])
      invariant forall k :: i <= k < n - i ==> a[k] == old(a[k])
    {
      var swapI := a[i];
      a[i] := a[n - 1 - i];
      a[n - 1 - i] := swapI;
    }
  }

  /** Reading a permutation back to front gives a permutation. */
  lemma ReversedReorders(perm: seq<int>)
    requires Reorders(perm, 0, |perm|)
    ensures Reorders(Reversed(perm), 0, |perm|)
  {
    var r := Reversed(perm);
    forall i, j | 0 <= i < j < |r|
      ensures r[i] != r[j]
    {
      assert r[i] == perm[|perm| - 1 - i] && r[j] == perm[|perm| - 1 - j];
    }
  }

  /** The elements of s in the order `order`: position k gets s[order[k]]. */
  function Permute<T>(s: seq<T>, order: seq<int>): (t: seq<T>)
    requires forall k :: 0 <= k < |order| ==> 0 <= order[k] < |s|
    ensures |t| == |order| && forall k :: 0 <= k < |order| ==> t[k] == s[order[k]]
  {
    seq(|order|, k requires 0 <= k < |order| => s[order[k]])
  }

  /** The positions 0 .. n - 1. */
  ghost function Below(n: int): (b: set<int>)
    ensures |b| == if n <= 0 then 0 else n
    ensures forall i :: i in b <==> 0 <= i < n
    decreases n
  {
    if n <= 0 then {} else Below(n - 1) + {n - 1}
  }

  /** A subset is no larger than the set holding it. */
  lemma SubsetSize(a: set<int>, b: set<int>)
    requires a <= b
    ensures |a| <= |b|
  {
    assert b == a + (b - a) && a * (b - a) == {};
  }

  /** The values a permutation takes at positions 0 .. m - 1. */
  ghost function Hit(perm: seq<int>, m: int): set<int>
    requires 0 <= m <= |perm|
  {
    set k | 0 <= k < m :: perm[k]
  }

  lemma {:induction false} HitSize(perm: seq<int>, m: nat)
    requires m <= |perm| && forall i, j :: 0 <= i < j < |perm| ==> perm[i] != perm[j]
    ensures |Hit(perm, m)| == m
  {
    if m > 0 {
      HitSize(perm, m - 1);
      assert Hit(perm, m) == Hit(perm, m - 1) + {perm[m - 1]};
    }
  }

  /** A permutation of 0 .. n - 1 takes the value n - 1 somewhere. */
  lemma HitsLast(perm: seq<int>) returns (j: int)
    requires |perm| > 0 && Reorders(perm, 0, |perm|)
    ensures 0 <= j < |perm| && perm[j] == |perm| - 1
  {
    var n := |perm|;
    HitSize(perm, n);
    if n - 1 !in Hit(perm, n) {
      SubsetSize(Hit(perm, n), Below(n - 1));
      assert false;
    }
    j :| 0 <= j < n && perm[j] == n - 1;
  }

  /** Removing the position j that holds n - 1 leaves a permutation of 0 .. n - 2. */
  lemma DropLast(order: seq<int>, j: int)
    requires |order| > 0 && Reorders(order, 0, |order|) && 0 <= j < |order| && order[j] == |order| - 1
    ensures Reorders(order[..j] + order[j + 1..], 0, |order| - 1)
  {
    var order' := order[..j] + order[j + 1..];
    assert forall k :: 0 <= k < |order'| ==> order'[k] == order[if k < j then k else k + 1];
  }

  /** Without position j, the permuted list is the prefix of s permuted without j. */
  lemma DropPermuted<T>(s: seq<T>, order: seq<int>, j: int)
    requires |order| == |s| > 0 && Reorders(order, 0, |s|) && 0 <= j < |s| && order[j] == |s| - 1
    ensures Reorders(order[..j] + order[j + 1..], 0, |s| - 1)
    ensures var t := Permute(s, order);
      Permute(s[..|s| - 1], order[..j] + order[j + 1..]) == t[..j] + t[j + 1..] && t[j] == s[|s| - 1]
  {
    DropLast(order, j);
    var order' := order[..j] + order[j + 1..];
    var t := Permute(s, order);
    assert forall k :: 0 <= k < |order'| ==> order'[k] == order[if k < j then k else k + 1];
  }

  /** A permuted list has the elements of the original, each as often. */
  lemma {:induction false} PermuteMultiset<T>(s: seq<T>, order: seq<int>)
    requires |order| == |s| && Reorders(order, 0, |s|)
    ensures multiset(Permute(s, order)) == multiset(s)
    decreases |s|
  {
    var n := |s|;
    if n > 0 {
      var j := HitsLast(order);
      DropPermuted(s, order, j);
      PermuteMultiset(s[..n - 1], order[..j] + order[j + 1..]);
      var t := Permute(s, order);
      assert t == t[..j] + [t[j]] + t[j + 1..];
      assert s == s[..n - 1] + [s[n - 1]];
    }
  }
  /** Reversing twice gives the list back. */
  lemma ReversedTwice<T>(s: seq<T>)
    ensures Reversed(Reversed(s)) == s
  {
    assert forall k :: 0 <= k < |s| ==> Reversed(Reversed(s))[k] == Reversed(s)[|s| - 1 - k];
  }

  /** Reversing keeps every element, each as often. */
  lemma {:induction false} ReversedMultiset<T>(s: seq<T>)
    ensures multiset(Reversed(s)) == multiset(s)
    decreases |s|
  {
    if s != [] {
      var n := |s|;
      ReversedMultiset(s[..n - 1]);
      assert Reversed(s) == [s[n - 1]] + Reversed(s[..n - 1]);
      assert s == s[..n - 1] + [s[n - 1]];
    }
  }

  /** Taken in the order `order`, the values never increase. */
  ghost predicate Descending(values: seq<real>, order: seq<int>)
  {
    forall i, j :: 0 <= i < j < |order| && 0 <= order[i] < |values| && 0 <= order[j] < |values| ==>
      values[order[j]] <= values[order[i]]
  }

  /**
   * An ascending sort followed by a reversal, on the lists' contents: the images are the
   * originals in the order `Reversed(perm)`, and their original values never increase.
   */
  lemma SortedThenReversed(s0: seq<real>, c0: seq<Image>, s1: seq<real>, c1: seq<Image>, perm: seq<int>)
    requires Reorders(perm, 0, |perm|) && Moved(s0, c0, s1, c1, perm)
    requires 1 < |perm| ==> SortedOn(s1, 0, |perm|)
    ensures Reorders(Reversed(perm), 0, |perm|)
    ensures Reversed(c1) == Permute(c0, Reversed(perm))
    ensures Descending(s0, Reversed(perm))
  {
    ReversedReorders(perm);
    var n, r := |perm|, Reversed(perm);
    assert Reversed(c1) == Permute(c0, r) by {
      forall k | 0 <= k < n
        ensures Reversed(c1)[k] == Permute(c0, r)[k]
      {
        assert r[k] == perm[n - 1 - k];
      }
    }
    forall i, j | 0 <= i < j < n
      ensures s0[r[j]] <= s0[r[i]]
    {
      assert r[i] == perm[n - 1 - i] && s1[n - 1 - i] == s0[perm[n - 1 - i]];
      assert r[j] == perm[n - 1 - j] && s1[n - 1 - j] == s0[perm[n - 1 - j]];
    }
  }

  /**
   * The end of `bestMatch`: `qSortMapAsTwoLists` on the whole lists, then
   * `Collections.reverse` on the images, which leaves them in non-increasing order of value.
   */
  method SortDescending(values: array<real>, images: array<Image>) returns (ghost order: seq<int>)
    requires values.Length == images.Length
    modifies values, images
    ensures |order| == images.Length && Reorders(order, 0, |order|)
    ensures images[..] == Permute(old(images[..]), order)
    ensures multiset(images[..]) == multiset(old(images[..]))
    ensures Descending(old(values[..]), order)
  {
    ghost var s0, c0 := values[..], images[..];
    var n := images.Length;
    var perm := QSortMapAsTwoLists(values, images, 0, n - 1);
    ghost var s1, c1 := values[..], images[..];
    if n <= 1 {
      IdentityMoves(s0, c0, 0, n);
    }
    Reverse(images);
    SortedThenReversed(s0, c0, s1, c1, perm);
    order := Reversed(perm);
    PermuteMultiset(c0, order);
  }
}
