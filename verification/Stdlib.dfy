/** qsort and bsearch over the bytes of an array (src/stdlib.c:93-157). Pointers are byte offsets into it. */
module Stdlib {
  import Bits
  import opened Machine
  import opened Strided
  import opened Sorting

  // ----- Swapping two elements -----

  /** The bytes after swapping the elements at `a` and `b`. */
  function SwapBytes<T>(s: seq<T>, a: int, b: int, size: int): seq<T> {
    if a == b then s else Put(Put(s, a, El(s, b, size)), b, El(s, a, size))
  }

  method Swap<T>(arr: array<T>, a: nat, b: nat, size: nat)
    requires a + size <= arr.Length && b + size <= arr.Length
    requires a == b || a + size <= b || b + size <= a
    modifies arr
    ensures arr[..] == SwapBytes(old(arr[..]), a, b, size)
  {
    if a == b {
      return;
    }
    hide Put, El;
    var buf := ReadElement(arr, a, size);
    var other := ReadElement(arr, b, size);
    WriteElement(arr, a, other);
    WriteElement(arr, b, buf);
  }

  method ReadElement<T>(arr: array<T>, at: nat, size: nat) returns (w: seq<T>)
    requires at + size <= arr.Length
    ensures w == El(arr[..], at, size) && |w| == size
  {
    w := arr[at..at + size];
  }

  /** memcpy over part of the array. */
  method WriteElement<T>(arr: array<T>, at: nat, w: seq<T>)
    requires at + |w| <= arr.Length
    modifies arr
    ensures arr[..] == Put(old(arr[..]), at, w)
  {
    CopyInto(arr, at, w);
  }

  /** On elements it is a swap, and it touches nothing else. */
  lemma SwapElements<T>(s: seq<T>, p: int, n: nat, size: int, i: nat, j: nat)
    requires Fits(s, p, n, size) && i < n && j < n
    ensures var t := SwapBytes(s, Off(p, i, size), Off(p, j, size), size);
      && Elems(t, p, n, size) == Swapped(Elems(s, p, n, size), i, j)
      && SameOutside(s, t, p, n, size) && Fits(t, p, n, size)
  {
    hide Elems, El, Off, Put, Fits, SameOutside;
    var a, b := Off(p, i, size), Off(p, j, size);
    if i != j {
      ElementBytes(s, p, n, size, i);
      ElementBytes(s, p, n, size, j);
      PutElement(s, p, n, size, i, El(s, b, size));
      PutElement(Put(s, a, El(s, b, size)), p, n, size, j, El(s, a, size));
      ApartInMemory(p, i, j, size, s, n);
      StaysTwice(s, Put(s, a, El(s, b, size)), SwapBytes(s, a, b, size), p, n, size);
    } else {
      StaysTwice(s, s, s, p, n, size);
    }
  }

  lemma ElementBytes<T>(s: seq<T>, p: int, n: nat, size: int, i: nat)
    requires Fits(s, p, n, size) && i < n
    ensures Elems(s, p, n, size)[i] == El(s, Off(p, i, size), size) && |El(s, Off(p, i, size), size)| == size
    ensures 0 <= Off(p, i, size) && Off(p, i, size) + size <= |s|
  {
    ElementInside(p, i, n, size);
  }

  lemma ApartInMemory<T>(p: int, i: nat, j: nat, size: int, s: seq<T>, n: nat)
    requires Fits(s, p, n, size) && i < n && j < n && i != j
    ensures Off(p, i, size) + size <= Off(p, j, size) || Off(p, j, size) + size <= Off(p, i, size)
    ensures Off(p, i, size) != Off(p, j, size)
  {
    if i < j {
      OffsetsGrow(p, i, j, size);
    } else {
      OffsetsGrow(p, j, i, size);
    }
  }

  lemma StaysTwice<T>(s: seq<T>, t: seq<T>, u: seq<T>, p: int, n: int, size: int)
    requires (s == t || SameOutside(s, t, p, n, size)) && (t == u || SameOutside(t, u, p, n, size))
    ensures SameOutside(s, u, p, n, size)
  {
  }

  // ----- qsort -----

  /** The caller's comparison function, with a count of its calls. */
  class Comparator<T> {
    const order: (seq<T>, seq<T>) -> int
    var calls: nat

    constructor (order: (seq<T>, seq<T>) -> int)
      ensures this.order == order && calls == 0
    {
      this.order, calls := order, 0;
    }

    method Compare(x: seq<T>, y: seq<T>) returns (c: int)
      modifies this`calls
      ensures c == order(x, y) && calls == old(calls) + 1
    {
      calls := calls + 1;
      c := order(x, y);
    }
  }

  /** The state between sorting steps: `e` is what the elements at `p` are, and nothing else has changed since `s0`. */
  ghost predicate Holds<T>(s: seq<T>, s0: seq<T>, p: int, n: nat, size: int, e: seq<seq<T>>) {
    Fits(s, p, n, size) && SameOutside(s0, s, p, n, size) && Elems(s, p, n, size) == e
  }

  lemma HoldsAtFirst<T>(s: seq<T>, p: int, n: nat, size: int)
    requires Fits(s, p, n, size)
    ensures Holds(s, s, p, n, size, Elems(s, p, n, size))
  {
  }

  lemma SwapHolds<T>(s: seq<T>, s0: seq<T>, p: int, n: nat, size: int, e: seq<seq<T>>, i: nat, j: nat)
    requires Holds(s, s0, p, n, size, e) && i < n && j < n
    ensures |e| == n && Holds(SwapBytes(s, Off(p, i, size), Off(p, j, size), size), s0, p, n, size, Swapped(e, i, j))
  {
    hide Elems, Off, SwapBytes, Fits, SameOutside;
    SwapElements(s, p, n, size, i, j);
    StaysTwice(s0, s, SwapBytes(s, Off(p, i, size), Off(p, j, size), size), p, n, size);
  }

  /** Where the pointers of element `i` and of the end stand, and what a comparison there sees. */
  lemma PointerFacts<T>(s: seq<T>, s0: seq<T>, p: int, n: nat, size: int, e: seq<seq<T>>, i: nat)
    requires Holds(s, s0, p, n, size, e) && i < n
    ensures |e| == n && |s| == |s0| && 0 <= Off(p, i, size) && Off(p, i, size) + size <= |s|
    ensures El(s, Off(p, i, size), size) == e[i] && |e[i]| == size
    ensures Off(p, i + 1, size) == Off(p, i, size) + size
  {
    ElementBytes(s, p, n, size, i);
    OffsetsGrow(p, i, i + 1, size);
  }

  /**
    * The first half of a call: the elements less than the last one are swapped to the front, then the last one behind
    * them. `right` is where it ends up, and each other element is compared once.
    */
  method Partition<T>(arr: array<T>, p: nat, count: nat, size: nat, comp: Comparator<T>)
    returns (right: nat, ghost r: nat, ghost e: seq<seq<T>>)
    requires count > 1 && Fits(arr[..], p, count, size)
    modifies arr, comp`calls
    ensures Partitioned(e, Elems(old(arr[..]), p, count, size), r, comp.order)
    ensures Holds(arr[..], old(arr[..]), p, count, size, e)
    ensures right == Off(p, r, size) && comp.calls == old(comp.calls) + count - 1
  {
    hide Elems, El, Off, Holds, Fits, Halves, Partitioned, SwapBytes;
    FitsPositive(arr[..], p, count, size);
    ghost var s0, e0 := arr[..], Elems(arr[..], p, count, size);
    HoldsAtFirst(s0, p, count, size);
    PivotFacts(p, count, size);
    HalvesAtFirst(e0, comp.order);
    var pivot := p + (count - 1) * size;
    right := p;
    var i := p;
    ghost var m := 0;
    r, e := 0, e0;
    PointerFacts(s0, s0, p, count, size, e0, count - 1);
    while i < pivot
      invariant m <= count - 1 && r <= m && comp.calls == old(comp.calls) + m
      invariant i == Off(p, m, size) && right == Off(p, r, size)
      invariant Holds(arr[..], s0, p, count, size, e) && Halves(e, e0, r, m, comp.order)
      decreases count - m
    {
      IndexBelow(p, m, count - 1, size);
      PointerFacts(arr[..], s0, p, count, size, e, m);
      PointerFacts(arr[..], s0, p, count, size, e, r);
      PointerFacts(arr[..], s0, p, count, size, e, count - 1);
      var item := ReadElement(arr, i, size);
      var last := ReadElement(arr, pivot, size);
      var c := comp.Compare(item, last);
      if c < 0 {
        ApartOrSame(p, m, r, size);
        SwapHolds(arr[..], s0, p, count, size, e, m, r);
        MoveLeft(e, e0, r, m, comp.order);
        e := Swapped(e, m, r);
        r := r + 1;
        Swap(arr, i, right, size);
        right := right + size;
      } else {
        LeaveRight(e, e0, r, m, comp.order);
      }
      i := i + size;
      m := m + 1;
    }
    IndexAtEnd(p, m, count - 1, size);
    PointerFacts(arr[..], s0, p, count, size, e, r);
    PointerFacts(arr[..], s0, p, count, size, e, count - 1);
    ApartOrSame(p, r, count - 1, size);
    SwapHolds(arr[..], s0, p, count, size, e, r, count - 1);
    InsertPivot(e, e0, r, comp.order);
    e := Swapped(e, r, count - 1);
    Swap(arr, right, pivot, size);
  }

  lemma FitsPositive<T>(s: seq<T>, p: int, n: int, size: int)
    requires Fits(s, p, n, size)
    ensures size > 0
  {
  }

  lemma PivotFacts(p: int, count: nat, size: nat)
    requires count > 1
    ensures p + (count - 1) * size == Off(p, count - 1, size) >= p && Off(p, 0, size) == p
  {
    assert (count - 1) * size >= 0;
  }

  lemma HalvesAtFirst<T>(e: seq<seq<T>>, comp: (seq<T>, seq<T>) -> int)
    requires |e| > 0
    ensures Halves(e, e, 0, 0, comp)
  {
  }

  lemma IndexBelow(p: int, m: nat, n: nat, size: nat)
    requires Off(p, m, size) < Off(p, n, size) && m <= n
    ensures m < n && size > 0
  {
  }

  lemma IndexAtEnd(p: int, m: nat, n: nat, size: nat)
    requires Off(p, m, size) >= Off(p, n, size) && m <= n && size > 0
    ensures m == n
  {
    if m < n {
      OffsetsGrow(p, m, n, size);
    }
  }

  lemma ApartOrSame(p: int, i: nat, j: nat, size: nat)
    requires size > 0
    ensures var (a, b) := (Off(p, i, size), Off(p, j, size)); a == b || a + size <= b || b + size <= a
  {
    if i < j {
      OffsetsGrow(p, i, j, size);
    } else if j < i {
      OffsetsGrow(p, j, i, size);
    }
  }

  /**
    * From `s` to `t` the elements at `p` were permuted and nothing else changed; they are sorted if the comparison
    * function is a total preorder.
    */
  ghost predicate SortedRun<T(!new)>(s: seq<T>, t: seq<T>, p: int, n: nat, size: int, comp: (seq<T>, seq<T>) -> int) {
    && Fits(t, p, n, size) && SameOutside(s, t, p, n, size)
    && (TotalPreorder(comp, size) ==> Sorted(Elems(t, p, n, size), comp))
    && multiset(Elems(t, p, n, size)) == multiset(Elems(s, p, n, size))
  }

  lemma ShortIsSorted<T(!new)>(s: seq<T>, p: int, n: nat, size: int, comp: (seq<T>, seq<T>) -> int)
    requires Fits(s, p, n, size) && n <= 1
    ensures SortedRun(s, s, p, n, size, comp)
  {
  }

  lemma HoldsBounds<T>(s: seq<T>, s0: seq<T>, p: int, n: nat, size: int, e: seq<seq<T>>, r: nat)
    requires Holds(s, s0, p, n, size, e) && r < n
    ensures |e| == n && Fits(s, p, r, size) && Fits(s, Off(p, r + 1, size), n - r - 1, size)
    ensures Off(p, r + 1, size) == Off(p, r, size) + size && Off(p, r, size) >= p
    ensures Off(Off(p, r + 1, size), n - r - 1, size) == Off(p, n, size)
    ensures AllOfSize(e, size) && SameOutside(s0, s, p, n, size)
  {
    OffsetsAdd(p, r + 1, n - r - 1, size);
    ElementInside(p, r, n, size);
    OffsetsGrow(p, r, n, size);
    forall i | 0 <= i < n
      ensures |e[i]| == size
    {
      PointerFacts(s, s0, p, n, size, e, i);
    }
  }

  lemma SplitsAtPivot<T>(s: seq<T>, s0: seq<T>, p: int, n: nat, size: int, e: seq<seq<T>>, r: nat)
    requires Holds(s, s0, p, n, size, e) && r < n
    ensures |e| == n && e[..r] == Elems(s, p, r, size) && e[r] == El(s, Off(p, r, size), size)
    ensures e[r + 1..] == Elems(s, Off(p, r + 1, size), n - r - 1, size)
  {
    hide Elems, Off, El;
    SplitElems(s, p, n, size, r);
  }

  lemma HoldsIs<T>(s: seq<T>, s0: seq<T>, p: int, n: nat, size: int, e: seq<seq<T>>)
    requires Holds(s, s0, p, n, size, e)
    ensures size > 0 && Fits(s0, p, n, size) && SameOutside(s0, s, p, n, size)
  {
  }

  lemma SortedRunIs<T(!new)>(s: seq<T>, t: seq<T>, p: int, n: nat, size: int, comp: (seq<T>, seq<T>) -> int)
    requires SortedRun(s, t, p, n, size, comp)
    ensures SameOutside(s, t, p, n, size) && (TotalPreorder(comp, size) ==> Sorted(Elems(t, p, n, size), comp))
    ensures multiset(Elems(t, p, n, size)) == multiset(Elems(s, p, n, size))
  {
  }

  /** Sorting the sides of a partition in turn sorts the whole. */
  lemma SidesSortWhole<T(!new)>(s0: seq<T>, s1: seq<T>, s2: seq<T>, s3: seq<T>, p: int, n: nat, size: int,
                                e: seq<seq<T>>, r: nat, comp: (seq<T>, seq<T>) -> int)
    requires r < n
    requires Holds(s1, s0, p, n, size, e) && Partitioned(e, Elems(s0, p, n, size), r, comp)
    requires SortedRun(s1, s2, p, r, size, comp)
    requires SortedRun(s2, s3, Off(p, r + 1, size), n - r - 1, size, comp)
    ensures SortedRun(s0, s3, p, n, size, comp)
  {
    var (q, k) := (Off(p, r + 1, size), n - r - 1);
    HoldsIs(s1, s0, p, n, size, e);
    SortedRunIs(s1, s2, p, r, size, comp);
    SortedRunIs(s2, s3, q, k, size, comp);
    hide Elems, El, Off, Holds, Partitioned, TotalPreorder, Sorted, Fits, SameOutside, AllOfSize;
    HoldsBounds(s1, s0, p, n, size, e, r);
    SplitsAtPivot(s1, s0, p, n, size, e, r);
    LeftStays(s2, s3, p, r, size, k);
    RightStays(s1, s2, p, r, size, k);
    PivotStays(s1, s2, s3, p, r, size, k);
    WholeStaysOutside(s0, s1, s2, s3, p, r, size, n);
    SplitElems(s3, p, n, size, r);
    PartitionedIs(e, Elems(s0, p, n, size), r, comp);
    JoinPermutes(e, r, Elems(s3, p, r, size), Elems(s3, q, k, size));
    if TotalPreorder(comp, size) {
      JoinSides(e, Elems(s0, p, n, size), r, Elems(s3, p, r, size), Elems(s3, q, k, size), comp, size);
    }
  }

  lemma LeftStays<T>(s: seq<T>, t: seq<T>, p: int, r: nat, size: int, k: nat)
    requires size > 0 && SameOutside(s, t, Off(p, r + 1, size), k, size)
    ensures Elems(t, p, r, size) == Elems(s, p, r, size)
  {
    OffsetsGrow(p, r, r + 1, size);
    ElemsStay(s, t, Off(p, r + 1, size), k, size, p, r);
  }

  lemma RightStays<T>(s: seq<T>, t: seq<T>, p: int, r: nat, size: int, k: nat)
    requires size > 0 && SameOutside(s, t, p, r, size)
    ensures Elems(t, Off(p, r + 1, size), k, size) == Elems(s, Off(p, r + 1, size), k, size)
  {
    OffsetsGrow(p, r, r + 1, size);
    ElemsStay(s, t, p, r, size, Off(p, r + 1, size), k);
  }

  lemma PivotStays<T>(s: seq<T>, t: seq<T>, u: seq<T>, p: int, r: nat, size: int, k: nat)
    requires size > 0 && SameOutside(s, t, p, r, size) && SameOutside(t, u, Off(p, r + 1, size), k, size)
    ensures El(u, Off(p, r, size), size) == El(s, Off(p, r, size), size)
  {
    OffsetsGrow(p, r, r + 1, size);
    ElStays(s, t, p, r, size, Off(p, r, size));
    ElStays(t, u, Off(p, r + 1, size), k, size, Off(p, r, size));
  }

  lemma WholeStaysOutside<T>(s0: seq<T>, s1: seq<T>, s2: seq<T>, s3: seq<T>, p: int, r: nat, size: int, n: nat)
    requires size > 0 && r < n && SameOutside(s0, s1, p, n, size) && SameOutside(s1, s2, p, r, size)
    requires SameOutside(s2, s3, Off(p, r + 1, size), n - r - 1, size) && Fits(s0, p, n, size)
    ensures SameOutside(s0, s3, p, n, size) && Fits(s3, p, n, size)
  {
    OffsetsAdd(p, r + 1, n - r - 1, size);
    OffsetsGrow(p, r, n, size);
    ElementInside(p, r, n, size);
    hide Off;
  }

  /** There is never more than one comparison for each pair. */
  method Qsort<T(!new)>(arr: array<T>, p: nat, count: nat, size: nat, comp: Comparator<T>)
    requires Fits(arr[..], p, count, size)
    modifies arr, comp`calls
    ensures SortedRun(old(arr[..]), arr[..], p, count, size, comp.order)
    ensures comp.calls <= old(comp.calls) + count * (count - 1) / 2
    decreases count
  {
    hide Elems, El, Off, Holds, Partitioned, SortedRun, TotalPreorder;
    if count <= 1 {
      ShortIsSorted(arr[..], p, count, size, comp.order);
      return;
    }
    ghost var s0 := arr[..];
    var right, r, e := Partition(arr, p, count, size, comp);
    ghost var s1 := arr[..];
    PartitionedIs(e, Elems(s0, p, count, size), r, comp.order);
    HoldsBounds(s1, s0, p, count, size, e, r);
    right := right + size;
    LeftCountIsR(p, r, size);
    var leftCount := (right - p) / size - 1;
    Qsort(arr, p, leftCount, size, comp);
    ghost var s2 := arr[..];
    assert Fits(s2, right, count - leftCount - 1, size);
    Qsort(arr, right, count - leftCount - 1, size, comp);
    SidesSortWhole(s0, s1, s2, arr[..], p, count, size, e, r, comp.order);
    PairsAddUp(count, r);
  }

  lemma PartitionedIs<T>(e: seq<seq<T>>, e0: seq<seq<T>>, r: nat, comp: (seq<T>, seq<T>) -> int)
    requires Partitioned(e, e0, r, comp)
    ensures r < |e| == |e0| && multiset(e) == multiset(e0)
  {
  }

  lemma LeftCountIsR(p: int, r: nat, size: int)
    requires size > 0
    ensures (Off(p, r, size) + size - p) / size - 1 == r
  {
    assert (Off(p, r, size) + size - p) == (r + 1) * size;
    QuotientOfProduct(r + 1, size);
  }

  lemma QuotientOfProduct(q: nat, b: int)
    requires b > 0
    ensures q * b / b == q
  {
    var d := q * b / b;
    assert q * b == d * b + q * b % b;
    assert (q - d) * b == q * b % b;
    SmallMultiple(q - d, b);
  }

  lemma SmallMultiple(x: int, b: int)
    requires 0 <= x * b < b
    ensures x == 0
  {
  }

  lemma PairsAddUp(n: nat, r: nat)
    requires r < n
    ensures n - 1 + r * (r - 1) / 2 + (n - r - 1) * (n - r - 2) / 2 <= n * (n - 1) / 2
  {
    var k := n - r - 1;
    assert n * (n - 1) == r * (r - 1) + k * (k - 1) + 2 * (r * k) + 2 * r + 2 * k;
    assert r * k >= 0;
  }

  // ----- bsearch -----

  /**
    * The search among the elements from `lo` up to `hi`: the index at which it ends, if it ends at an element. The
    * element comes first in each comparison.
    */
  function SearchIn<T>(e: seq<seq<T>>, key: seq<T>, comp: (seq<T>, seq<T>) -> int, lo: nat, hi: nat): (r: Option<nat>)
    requires lo <= hi <= |e|
    ensures r.Some? ==> lo <= r.value < hi && comp(e[r.value], key) == 0
    decreases hi - lo
  {
    if lo == hi then None
    else
      var mid := (hi - lo) / 2 + lo;
      var c := comp(e[mid], key);
      if c < 0 then SearchIn(e, key, comp, mid + 1, hi)
      else if c > 0 then SearchIn(e, key, comp, lo, mid)
      else Some(mid)
  }

  /** The elements compare less than the key, then equal to it, then greater, in the order the code compares them. */
  ghost predicate OrderedFor<T>(e: seq<seq<T>>, key: seq<T>, comp: (seq<T>, seq<T>) -> int) {
    && (forall i, j :: 0 <= i < j < |e| && comp(e[j], key) < 0 ==> comp(e[i], key) < 0)
    && (forall i, j :: 0 <= i < j < |e| && comp(e[i], key) > 0 ==> comp(e[j], key) > 0)
  }

  /** What qsort leaves is ordered for every key. */
  lemma SortedIsOrdered<T(!new)>(e: seq<seq<T>>, key: seq<T>, comp: (seq<T>, seq<T>) -> int, size: int)
    requires TotalPreorder(comp, size) && AllOfSize(e, size) && |key| == size && Sorted(e, comp)
    ensures OrderedFor(e, key, comp)
  {
    forall i, j | 0 <= i < j < |e|
      ensures comp(e[j], key) < 0 ==> comp(e[i], key) < 0
      ensures comp(e[i], key) > 0 ==> comp(e[j], key) > 0
    {
      assert comp(e[i], e[j]) <= 0;
      BelowStaysBelow(e[i], e[j], key, comp, size);
    }
  }

  lemma BelowStaysBelow<T(!new)>(x: seq<T>, y: seq<T>, key: seq<T>, comp: (seq<T>, seq<T>) -> int, size: int)
    requires TotalPreorder(comp, size) && |x| == |y| == |key| == size && comp(x, y) <= 0
    ensures comp(y, key) < 0 ==> comp(x, key) < 0
    ensures comp(x, key) > 0 ==> comp(y, key) > 0
  {
    assert comp(y, key) < 0 <==> comp(key, y) > 0;
    assert comp(x, key) < 0 <==> comp(key, x) > 0;
    assert comp(key, x) <= 0 && comp(x, y) <= 0 ==> comp(key, y) <= 0;
    assert comp(x, y) <= 0 && comp(y, key) <= 0 ==> comp(x, key) <= 0;
  }

  function Log2(n: nat): nat { if n <= 1 then 0 else 1 + Log2(n / 2) }

  lemma {:induction false} Log2Is(n: nat)
    requires n > 0
    ensures Bits.Pow2(Log2(n)) <= n < 2 * Bits.Pow2(Log2(n))
  {
    if n > 1 {
      Log2Is(n / 2);
    }
  }

  /** That many comparisons halve the elements down to one. */
  lemma ComparisonsHalve(k: int, n: nat)
    requires k <= Probes(n)
    ensures k > 0 ==> Bits.Pow2(k - 1) <= n
  {
    hide Log2;
    if k > 0 {
      Log2Is(n);
      Bits.Pow2Monotone(k - 1, Log2(n));
    }
  }

  /** The most comparisons a search among `n` elements makes. */
  ghost function Probes(n: nat): nat { if n == 0 then 0 else Log2(n) + 1 }

  lemma {:induction false} HalfCostsOneLess(n: nat, m: nat)
    requires m <= n / 2 && n > 0
    ensures Probes(m) + 1 <= Probes(n)
  {
    LogGrows(m, n / 2);
  }

  lemma {:induction false} LogGrows(m: nat, n: nat)
    requires m <= n
    ensures Log2(m) <= Log2(n)
  {
    if m > 1 {
      LogGrows(m / 2, n / 2);
    }
  }

  /** On elements in that order the search finds one that is equal to the key if and only if there is one. */
  lemma {:induction false} SearchFindsIfOrdered<T>(e: seq<seq<T>>, key: seq<T>, comp: (seq<T>, seq<T>) -> int, lo: nat,
                                                   hi: nat)
    requires lo <= hi <= |e| && OrderedFor(e, key, comp)
    ensures SearchIn(e, key, comp, lo, hi).Some? <==> exists i :: lo <= i < hi && comp(e[i], key) == 0
    decreases hi - lo
  {
    if lo < hi {
      var mid := (hi - lo) / 2 + lo;
      SearchFindsIfOrdered(e, key, comp, lo, mid);
      SearchFindsIfOrdered(e, key, comp, mid + 1, hi);
      if comp(e[mid], key) < 0 {
        BelowIsBelow(e, key, comp, mid);
      } else if comp(e[mid], key) > 0 {
        AboveIsAbove(e, key, comp, mid);
      }
      hide OrderedFor;
    }
  }

  lemma SearchStep<T>(e: seq<seq<T>>, key: seq<T>, comp: (seq<T>, seq<T>) -> int, lo: nat, hi: nat, mid: nat)
    requires lo < hi <= |e| && mid == (hi - lo) / 2 + lo
    ensures comp(e[mid], key) < 0 ==> SearchIn(e, key, comp, lo, hi) == SearchIn(e, key, comp, mid + 1, hi)
    ensures comp(e[mid], key) > 0 ==> SearchIn(e, key, comp, lo, hi) == SearchIn(e, key, comp, lo, mid)
    ensures comp(e[mid], key) == 0 ==> SearchIn(e, key, comp, lo, hi) == Some(mid)
  {
  }

  lemma SearchOver<T>(e: seq<seq<T>>, key: seq<T>, comp: (seq<T>, seq<T>) -> int, lo: nat)
    requires lo <= |e|
    ensures SearchIn(e, key, comp, lo, lo) == None
  {
  }

  /** Where the search ends, as a pointer. */
  function At(r: Option<nat>, p: int, size: int): Option<int> {
    if r.None? then None else Some(Off(p, r.value, size))
  }

  /** The element at `mid` against the key. */
  method CompareAt<T>(key: seq<T>, arr: array<T>, p: nat, count: nat, size: nat, comp: Comparator<T>, mid: nat)
    returns (midPtr: nat, c: int)
    requires Fits(arr[..], p, count, size) && mid < count
    modifies comp`calls
    ensures midPtr == Off(p, mid, size) && comp.calls == old(comp.calls) + 1
    ensures var e := Elems(arr[..], p, count, size); mid < |e| && c == comp.order(e[mid], key)
  {
    hide Elems, El, Off, Fits;
    ElemsCount(arr[..], p, count, size);
    ElementBytes(arr[..], p, count, size, mid);
    MidPointer(p, mid, size);
    midPtr := p + mid * size;
    var item := ReadElement(arr, midPtr, size);
    c := comp.Compare(item, key);
  }

  /**
    * The search, in at most floor(log2 count) + 1 comparisons, whatever the array and the comparison function; on
    * ordered elements it finds one that compares equal to the key if and only if there is one.
    */
  method Bsearch<T>(key: seq<T>, arr: array<T>, p: nat, count: nat, size: nat, comp: Comparator<T>)
    returns (found: Option<int>)
    requires Fits(arr[..], p, count, size)
    modifies comp`calls
    ensures var e := Elems(arr[..], p, count, size);
      && found == At(SearchIn(e, key, comp.order, 0, count), p, size)
      && (OrderedFor(e, key, comp.order) ==>
        (found.Some? <==> exists i :: 0 <= i < count && comp.order(e[i], key) == 0))
    ensures comp.calls - old(comp.calls) <= if count == 0 then 0 else Log2(count) + 1
    ensures var k := comp.calls - old(comp.calls); k > 0 ==> Bits.Pow2(k - 1) <= count
  {
    hide *;
    ghost var e := Elems(arr[..], p, count, size);
    ElemsCount(arr[..], p, count, size);
    if OrderedFor(e, key, comp.order) {
      SearchFindsIfOrdered(e, key, comp.order, 0, count);
    }
    ProbesIs(count);
    AtIs(p, size);
    var min, max := 0, count;
    while min < max
      invariant 0 <= min <= max <= count
      invariant SearchIn(e, key, comp.order, min, max) == SearchIn(e, key, comp.order, 0, count)
      invariant comp.calls - old(comp.calls) + Probes(max - min) <= Probes(count)
    {
      var mid := (max - min) / 2 + min;
      var midPtr, c := CompareAt(key, arr, p, count, size, comp, mid);
      SearchStep(e, key, comp.order, min, max, mid);
      HalfCostsOneLess(max - min, max - (mid + 1));
      HalfCostsOneLess(max - min, mid - min);
      if c < 0 {
        min := mid + 1;
      } else if c > 0 {
        max := mid;
      } else {
        ComparisonsHalve(comp.calls - old(comp.calls), count);
        return Some(midPtr);
      }
    }
    SearchOver(e, key, comp.order, min);
    ComparisonsHalve(comp.calls - old(comp.calls), count);
    return None;
  }

  lemma AtIs(p: int, size: int)
    ensures forall r: Option<nat> :: At(r, p, size) == if r.None? then None else Some(Off(p, r.value, size))
  {
  }

  lemma ElemsCount<T>(s: seq<T>, p: int, n: nat, size: int)
    requires Fits(s, p, n, size)
    ensures |Elems(s, p, n, size)| == n
  {
  }

  lemma ProbesIs(n: nat)
    ensures Probes(n) == if n == 0 then 0 else Log2(n) + 1
  {
  }

  lemma MidPointer(p: int, mid: nat, size: nat)
    ensures p + mid * size == Off(p, mid, size) >= p
  {
    assert mid * size >= 0;
  }

  lemma BelowIsBelow<T>(e: seq<seq<T>>, key: seq<T>, comp: (seq<T>, seq<T>) -> int, m: nat)
    requires OrderedFor(e, key, comp) && m < |e| && comp(e[m], key) < 0
    ensures forall i :: 0 <= i <= m ==> comp(e[i], key) < 0
  {
  }

  lemma AboveIsAbove<T>(e: seq<seq<T>>, key: seq<T>, comp: (seq<T>, seq<T>) -> int, m: nat)
    requires OrderedFor(e, key, comp) && m < |e| && comp(e[m], key) > 0
    ensures forall i :: m <= i < |e| ==> comp(e[i], key) > 0
  {
  }

  /** Sorting and then searching finds exactly what was in the array before. */
  method SortThenFind<T(!new)>(key: seq<T>, arr: array<T>, p: nat, count: nat, size: nat,
                               comp: Comparator<T>) returns (found: Option<int>)
    requires Fits(arr[..], p, count, size) && TotalPreorder(comp.order, size) && |key| == size
    modifies arr, comp`calls
    ensures var e := Elems(old(arr[..]), p, count, size);
      found.Some? <==> exists i :: 0 <= i < count && comp.order(e[i], key) == 0
  {
    hide Elems, El, Off, Fits, TotalPreorder, SortedRun, OrderedFor;
    ghost var s := arr[..];
    Qsort(arr, p, count, size, comp);
    SortedRunIs(s, arr[..], p, count, size, comp.order);
    SortedRunFits(s, arr[..], p, count, size, comp.order);
    ghost var e, f := Elems(s, p, count, size), Elems(arr[..], p, count, size);
    SortedIsOrdered(f, key, comp.order, size);
    found := Bsearch(key, arr, p, count, size, comp);
    forall i | 0 <= i < count
      ensures f[i] in e && e[i] in f
    {
      PermutedMembers(e, f, i);
      PermutedMembers(f, e, i);
    }
  }

  lemma SortedRunFits<T(!new)>(s: seq<T>, t: seq<T>, p: int, n: nat, size: int, comp: (seq<T>, seq<T>) -> int)
    requires SortedRun(s, t, p, n, size, comp)
    ensures Fits(t, p, n, size) && AllOfSize(Elems(t, p, n, size), size)
  {
    hide Elems, El, Off;
    forall i | 0 <= i < n
      ensures |Elems(t, p, n, size)[i]| == size
    {
      ElementBytes(t, p, n, size, i);
    }
  }

  // ----- The order of the arguments -----

  /** What C11 7.22.5.1 asks, with the key as the first argument of every comparison. */
  ghost predicate StandardOrdered<T>(e: seq<seq<T>>, key: seq<T>, comp: (seq<T>, seq<T>) -> int) {
    && (forall i, j :: 0 <= i < j < |e| && comp(key, e[j]) > 0 ==> comp(key, e[i]) > 0)
    && (forall i, j :: 0 <= i < j < |e| && comp(key, e[i]) < 0 ==> comp(key, e[j]) < 0)
  }

  /** What C11 7.22.5.1 promises of the result: an element that matches the key, and none only if there is none. */
  ghost predicate StandardResult<T>(e: seq<seq<T>>, key: seq<T>, comp: (seq<T>, seq<T>) -> int, r: Option<nat>) {
    match r
    case None => forall i :: 0 <= i < |e| ==> comp(key, e[i]) != 0
    case Some(i) => i < |e| && comp(key, e[i]) == 0
  }

  /**
    * On these elements the order of the arguments does not matter for equality, and not for the sign either if one of
    * them matches the key.
    */
  ghost predicate Exchangeable<T>(e: seq<seq<T>>, key: seq<T>, comp: (seq<T>, seq<T>) -> int) {
    && (forall i :: 0 <= i < |e| ==> (comp(e[i], key) == 0 <==> comp(key, e[i]) == 0))
    && ((exists i :: 0 <= i < |e| && comp(key, e[i]) == 0) ==>
      forall i :: 0 <= i < |e| ==> (comp(e[i], key) < 0 <==> comp(key, e[i]) > 0))
  }

  lemma StandardSearch<T>(e: seq<seq<T>>, key: seq<T>, comp: (seq<T>, seq<T>) -> int)
    requires StandardOrdered(e, key, comp) && Exchangeable(e, key, comp)
    ensures StandardResult(e, key, comp, SearchIn(e, key, comp, 0, |e|))
  {
    if i :| 0 <= i < |e| && comp(key, e[i]) == 0 {
      ExchangedIsOrdered(e, key, comp);
      SearchFindsIfOrdered(e, key, comp, 0, |e|);
    }
  }

  lemma ExchangedIsOrdered<T>(e: seq<seq<T>>, key: seq<T>, comp: (seq<T>, seq<T>) -> int)
    requires StandardOrdered(e, key, comp) && Exchangeable(e, key, comp)
    requires exists i :: 0 <= i < |e| && comp(key, e[i]) == 0
    ensures OrderedFor(e, key, comp)
  {
    forall i | 0 <= i < |e|
      ensures comp(e[i], key) < 0 <==> comp(key, e[i]) > 0
      ensures comp(e[i], key) > 0 <==> comp(key, e[i]) < 0
    {
    }
  }

  /** On elements ordered as the standard asks, among which the arguments may be exchanged, the standard is met. */
  method StandardBsearch<T>(key: seq<T>, arr: array<T>, p: nat, count: nat, size: nat, comp: Comparator<T>)
    returns (found: Option<int>)
    requires Fits(arr[..], p, count, size)
    requires var e := Elems(arr[..], p, count, size);
      StandardOrdered(e, key, comp.order) && Exchangeable(e, key, comp.order)
    modifies comp`calls
    ensures var e := Elems(arr[..], p, count, size);
      && (found.Some? <==> exists i :: 0 <= i < count && comp.order(key, e[i]) == 0)
      && (found.Some? ==> exists i :: 0 <= i < count && found.value == Off(p, i, size) && comp.order(key, e[i]) == 0)
  {
    ghost var e := Elems(arr[..], p, count, size);
    hide Elems, Off, Fits;
    StandardSearch(e, key, comp.order);
    hide Exchangeable, StandardOrdered, OrderedFor;
    found := Bsearch(key, arr, p, count, size, comp);
  }

  /** The same of all elements of the size: what a caller can check of a key and a comparison function. */
  ghost predicate ExchangeableFor<T(!new)>(key: seq<T>, comp: (seq<T>, seq<T>) -> int, size: int) {
    && (forall x :: |x| == size ==> (comp(x, key) == 0 <==> comp(key, x) == 0))
    && ((exists m :: |m| == size && comp(key, m) == 0) ==>
      forall x :: |x| == size ==> (comp(x, key) < 0 <==> comp(key, x) > 0))
  }

  ghost predicate MeetsStandard<T(!new)>(key: seq<T>, comp: (seq<T>, seq<T>) -> int, size: int) {
    forall e :: AllOfSize(e, size) && StandardOrdered(e, key, comp) ==>
      StandardResult(e, key, comp, SearchIn(e, key, comp, 0, |e|))
  }

  /**
    * bsearch does what the standard says on every array that is ordered as the standard asks if and only if exchanging
    * the arguments keeps equality, and, unless no element at all matches the key, turns the sign round.
    */
  lemma StandardIffExchangeable<T(!new)>(key: seq<T>, comp: (seq<T>, seq<T>) -> int, size: int)
    ensures MeetsStandard(key, comp, size) <==> ExchangeableFor(key, comp, size)
  {
    if ExchangeableFor(key, comp, size) {
      forall e | AllOfSize(e, size) && StandardOrdered(e, key, comp)
        ensures StandardResult(e, key, comp, SearchIn(e, key, comp, 0, |e|))
      {
        StandardSearch(e, key, comp);
      }
    }
    if MeetsStandard(key, comp, size) {
      EqualityIsKept(key, comp, size);
      if m :| |m| == size && comp(key, m) == 0 {
        forall x: seq<T> | |x| == size
          ensures comp(x, key) < 0 <==> comp(key, x) > 0
        {
          SignIsTurned(key, comp, size, m, x);
        }
      }
    }
  }

  /** On one element. */
  lemma EqualityIsKept<T(!new)>(key: seq<T>, comp: (seq<T>, seq<T>) -> int, size: int)
    requires MeetsStandard(key, comp, size)
    ensures forall x :: |x| == size ==> (comp(x, key) == 0 <==> comp(key, x) == 0)
  {
    forall x: seq<T> | |x| == size
      ensures comp(x, key) == 0 <==> comp(key, x) == 0
    {
      var e := [x];
      assert AllOfSize(e, size) && StandardOrdered(e, key, comp);
      assert StandardResult(e, key, comp, SearchIn(e, key, comp, 0, 1));
      assert SearchIn(e, key, comp, 0, 1) == if comp(x, key) == 0 then Some(0) else None;
    }
  }

  /** On a match behind two elements or before one. */
  lemma SignIsTurned<T(!new)>(key: seq<T>, comp: (seq<T>, seq<T>) -> int, size: int, m: seq<T>, x: seq<T>)
    requires MeetsStandard(key, comp, size) && |m| == |x| == size && comp(key, m) == 0
    ensures comp(x, key) < 0 <==> comp(key, x) > 0
  {
    EqualityIsKept(key, comp, size);
    hide MeetsStandard;
    if comp(key, x) > 0 && comp(x, key) > 0 {
      MissesBehind(key, comp, size, m, x);
    } else if comp(key, x) < 0 && comp(x, key) < 0 {
      MissesBefore(key, comp, size, m, x);
    }
  }

  lemma MissesBehind<T(!new)>(key: seq<T>, comp: (seq<T>, seq<T>) -> int, size: int, m: seq<T>, x: seq<T>)
    requires |m| == |x| == size && comp(key, m) == 0 && comp(key, x) > 0 && comp(x, key) > 0
    ensures !MeetsStandard(key, comp, size)
  {
    var e := [x, x, m];
    SearchStep(e, key, comp, 0, 3, 1);
    SearchStep(e, key, comp, 0, 1, 0);
    SearchOver(e, key, comp, 0);
    hide SearchIn;
    assert AllOfSize(e, size) && StandardOrdered(e, key, comp);
    assert comp(key, e[2]) == 0;
  }

  lemma MissesBefore<T(!new)>(key: seq<T>, comp: (seq<T>, seq<T>) -> int, size: int, m: seq<T>, x: seq<T>)
    requires |m| == |x| == size && comp(key, m) == 0 && comp(key, x) < 0 && comp(x, key) < 0
    ensures !MeetsStandard(key, comp, size)
  {
    var e := [m, x];
    SearchStep(e, key, comp, 0, 2, 1);
    SearchOver(e, key, comp, 2);
    hide SearchIn;
    assert AllOfSize(e, size) && StandardOrdered(e, key, comp);
    assert comp(key, e[0]) == 0;
  }

  /** Compares the first byte of a key with the second byte of an element, as a caller of the standard's bsearch may. */
  function KeyAgainstElement(key: seq<int>, e: seq<int>): int {
    if |key| > 0 && |e| > 1 then key[0] - e[1] else 0
  }

  /** For that function the key [1, 0] matches the element [9, 1] by the standard, and the code does not find it. */
  method MissesMatch() returns (arr: array<int>, found: Option<int>)
    ensures fresh(arr) && Elems(arr[..], 0, 1, 2) == [[9, 1]]
    ensures StandardOrdered([[9, 1]], [1, 0], KeyAgainstElement) && KeyAgainstElement([1, 0], [9, 1]) == 0
    ensures found == None
  {
    arr := new int[] [9, 1];
    var comp := new Comparator<int>(KeyAgainstElement);
    assert arr[..] == [9, 1];
    OneElement();
    hide Elems, Fits, Off, El;
    found := Bsearch([1, 0], arr, 0, 1, 2, comp);
    assert KeyAgainstElement([9, 1], [1, 0]) == 9;
  }

  lemma OneElement()
    ensures Fits([9, 1], 0, 1, 2) && Elems([9, 1], 0, 1, 2) == [[9, 1]]
  {
    assert El([9, 1], Off(0, 0, 2), 2) == [9, 1];
  }
}
