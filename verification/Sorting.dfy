/** What sorting by a comparison function means, and the steps of quicksort on sequences. */
module Sorting {

  /** A comparison function on elements of `size` bytes that C11 7.22.5 allows: a total preorder. */
  ghost predicate TotalPreorder<T(!new)>(comp: (seq<T>, seq<T>) -> int, size: int) {
    && (forall x, y :: |x| == |y| == size ==> (comp(x, y) < 0 <==> comp(y, x) > 0))
    && (forall x, y, z :: |x| == |y| == |z| == size && comp(x, y) <= 0 && comp(y, z) <= 0 ==> comp(x, z) <= 0)
  }

  ghost predicate AllOfSize<T>(e: seq<seq<T>>, size: int) { forall i :: 0 <= i < |e| ==> |e[i]| == size }

  ghost predicate Sorted<T>(e: seq<seq<T>>, comp: (seq<T>, seq<T>) -> int) {
    forall i, j :: 0 <= i < j < |e| ==> comp(e[i], e[j]) <= 0
  }

  function Swapped<T>(e: seq<T>, i: nat, j: nat): seq<T>
    requires i < |e| && j < |e|
  {
    e[i := e[j]][j := e[i]]
  }

  /**
    * The partition of `e0` around its last element, having looked at the first `m`: the first `r` are less than it,
    * the others not.
    */
  ghost predicate Halves<T>(e: seq<seq<T>>, e0: seq<seq<T>>, r: nat, m: nat, comp: (seq<T>, seq<T>) -> int) {
    && r <= m < |e| == |e0|
    && multiset(e) == multiset(e0)
    && (forall k :: 0 <= k < r ==> comp(e[k], e[|e| - 1]) < 0)
    && (forall k :: r <= k < m ==> comp(e[k], e[|e| - 1]) >= 0)
  }

  /** Element `r` stands where it belongs. */
  ghost predicate Partitioned<T>(e: seq<seq<T>>, e0: seq<seq<T>>, r: nat, comp: (seq<T>, seq<T>) -> int) {
    && r < |e| == |e0|
    && multiset(e) == multiset(e0)
    && (forall k :: 0 <= k < r ==> comp(e[k], e[r]) < 0)
    && (forall k :: r < k < |e| ==> comp(e[k], e[r]) >= 0)
  }

  lemma SwapKeepsElements<T>(e: seq<T>, i: nat, j: nat)
    requires i < |e| && j < |e|
    ensures multiset(Swapped(e, i, j)) == multiset(e)
  {
  }

  lemma MoveLeft<T>(e: seq<seq<T>>, e0: seq<seq<T>>, r: nat, m: nat, comp: (seq<T>, seq<T>) -> int)
    requires Halves(e, e0, r, m, comp) && m < |e| - 1 && comp(e[m], e[|e| - 1]) < 0
    ensures Halves(Swapped(e, m, r), e0, r + 1, m + 1, comp)
  {
    SwapKeepsElements(e, m, r);
  }

  lemma LeaveRight<T>(e: seq<seq<T>>, e0: seq<seq<T>>, r: nat, m: nat, comp: (seq<T>, seq<T>) -> int)
    requires Halves(e, e0, r, m, comp) && m < |e| - 1 && comp(e[m], e[|e| - 1]) >= 0
    ensures Halves(e, e0, r, m + 1, comp)
  {
  }

  lemma InsertPivot<T>(e: seq<seq<T>>, e0: seq<seq<T>>, r: nat, comp: (seq<T>, seq<T>) -> int)
    requires |e| > 0 && Halves(e, e0, r, |e| - 1, comp)
    ensures Partitioned(Swapped(e, r, |e| - 1), e0, r, comp)
  {
    var f := Swapped(e, r, |e| - 1);
    SwapKeepsElements(e, r, |e| - 1);
    SwappedAt(e, r, |e| - 1, r);
    hide Swapped;
    forall k | 0 <= k < |f| && k != r
      ensures if k < r then comp(f[k], f[r]) < 0 else comp(f[k], f[r]) >= 0
    {
      AgainstPivot(e, e0, r, comp, k);
    }
    hide Halves;
  }

  lemma AgainstPivot<T>(e: seq<seq<T>>, e0: seq<seq<T>>, r: nat, comp: (seq<T>, seq<T>) -> int, k: nat)
    requires |e| > 0 && Halves(e, e0, r, |e| - 1, comp) && k < |e| && k != r
    ensures var f := Swapped(e, r, |e| - 1);
      |f| == |e| && if k < r then comp(f[k], f[r]) < 0 else comp(f[k], f[r]) >= 0
  {
    SwappedAt(e, r, |e| - 1, r);
    SwappedAt(e, r, |e| - 1, k);
    hide Swapped;
  }

  lemma SwappedAt<T>(e: seq<T>, i: nat, j: nat, k: nat)
    requires i < |e| && j < |e| && k < |e|
    ensures |Swapped(e, i, j)| == |e|
    ensures Swapped(e, i, j)[k] == if k == i then e[j] else if k == j then e[i] else e[k]
  {
  }

  /** What holds of all elements holds of all elements of a permutation. */
  lemma PermutedMembers<T>(e: seq<T>, f: seq<T>, i: nat)
    requires multiset(e) == multiset(f) && i < |f|
    ensures f[i] in e
  {
    assert f[i] in multiset(f);
  }

  /** Permuting both sides of a partition permutes the whole. */
  lemma JoinPermutes<T>(e: seq<T>, r: nat, left: seq<T>, right: seq<T>)
    requires r < |e| && multiset(left) == multiset(e[..r]) && multiset(right) == multiset(e[r + 1..])
    ensures multiset(left + [e[r]] + right) == multiset(e)
  {
    assert e == e[..r] + [e[r]] + e[r + 1..];
  }

  /** Sorting both sides of a partition sorts the whole. */
  lemma JoinSides<T(!new)>(e: seq<seq<T>>, e0: seq<seq<T>>, r: nat, left: seq<seq<T>>, right: seq<seq<T>>,
                           comp: (seq<T>, seq<T>) -> int, size: int)
    requires TotalPreorder(comp, size) && AllOfSize(e, size)
    requires Partitioned(e, e0, r, comp)
    requires Sorted(left, comp) && multiset(left) == multiset(e[..r])
    requires Sorted(right, comp) && multiset(right) == multiset(e[r + 1..])
    ensures Sorted(left + [e[r]] + right, comp)
  {
    hide TotalPreorder, Sorted;
    SameLength(left, e[..r]);
    forall i | 0 <= i < |left|
      ensures |left[i]| == size && comp(left[i], e[r]) <= 0
    {
      PermutedMembers(e[..r], left, i);
    }
    forall j | 0 <= j < |right|
      ensures |right[j]| == size && comp(right[j], e[r]) >= 0
    {
      PermutedMembers(e[r + 1..], right, j);
    }
    JoinSorted(left, e[r], right, comp, size);
  }

  lemma JoinSorted<T(!new)>(left: seq<seq<T>>, p: seq<T>, right: seq<seq<T>>, comp: (seq<T>, seq<T>) -> int, size: int)
    requires TotalPreorder(comp, size) && AllOfSize(left, size) && AllOfSize(right, size) && |p| == size
    requires Sorted(left, comp) && Sorted(right, comp)
    requires forall i :: 0 <= i < |left| ==> comp(left[i], p) <= 0
    requires forall j :: 0 <= j < |right| ==> comp(right[j], p) >= 0
    ensures Sorted(left + [p] + right, comp)
  {
    var f, r := left + [p] + right, |left|;
    forall i, j | 0 <= i < j < |f|
      ensures comp(f[i], f[j]) <= 0
    {
      JoinedAt(left, p, right, i);
      JoinedAt(left, p, right, j);
      if j >= r && i <= r {
        hide Sorted, TotalPreorder;
        AroundPivot(f[i], p, f[j], comp, size);
      }
    }
  }

  lemma JoinedAt<T>(left: seq<T>, p: T, right: seq<T>, i: nat)
    requires i < |left + [p] + right|
    ensures (left + [p] + right)[i] ==
      if i < |left| then left[i] else if i == |left| then p else right[i - |left| - 1]
  {
  }

  lemma AroundPivot<T(!new)>(x: seq<T>, p: seq<T>, z: seq<T>, comp: (seq<T>, seq<T>) -> int, size: int)
    requires TotalPreorder(comp, size) && |x| == |p| == |z| == size
    requires x == p || comp(x, p) <= 0
    requires z == p || comp(z, p) >= 0
    ensures comp(x, z) <= 0
  {
    assert comp(p, p) < 0 <==> comp(p, p) > 0;
    assert comp(x, p) <= 0;
    assert comp(p, z) > 0 <==> comp(z, p) < 0;
    assert comp(p, z) <= 0;
  }

  lemma SameLength<T>(e: seq<T>, f: seq<T>)
    requires multiset(e) == multiset(f)
    ensures |e| == |f|
  {
    assert |multiset(e)| == |e| && |multiset(f)| == |f|;
  }
}
