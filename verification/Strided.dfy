/** A byte array seen as elements of `size` bytes each. */
module Strided {

  /** Where element `i` of an array at `p` starts. */
  function Off(p: int, i: int, size: int): int { p + i * size }

  /** The `size` bytes at `at`. */
  function El<T>(s: seq<T>, at: int, size: int): seq<T> {
    if 0 <= at <= at + size <= |s| then s[at..at + size] else []
  }

  /** The `n` elements of the array at `p`. */
  function Elems<T>(s: seq<T>, p: int, n: nat, size: int): (e: seq<seq<T>>)
    ensures |e| == n
  {
    seq(n, i => El(s, Off(p, i, size), size))
  }

  /** `s` with `w` written over it at `at`. */
  function Put<T>(s: seq<T>, at: int, w: seq<T>): seq<T> {
    if 0 <= at <= at + |w| <= |s| then s[..at] + w + s[at + |w|..] else s
  }

  /** The `n` elements at `p` lie inside `s`. */
  ghost predicate Fits<T>(s: seq<T>, p: int, n: int, size: int) {
    0 <= p && n >= 0 && size > 0 && Off(p, n, size) <= |s|
  }

  /** Nothing but the elements at `p` differs. */
  ghost predicate SameOutside<T>(s: seq<T>, t: seq<T>, p: int, n: int, size: int) {
    && |s| == |t|
    && forall k :: 0 <= k < |s| && (k < p || Off(p, n, size) <= k) ==> t[k] == s[k]
  }

  lemma OffsetsGrow(p: int, i: int, j: int, size: int)
    requires i < j && size > 0
    ensures Off(p, i, size) + size <= Off(p, j, size)
    ensures Off(p, i + 1, size) == Off(p, i, size) + size
  {
    ProductGrows(i + 1, j, size);
    OneMoreTime(i, size);
  }

  lemma ProductGrows(i: int, j: int, size: int)
    requires i <= j && size > 0
    ensures i * size <= j * size
  {
  }

  lemma OneMoreTime(i: int, size: int)
    ensures (i + 1) * size == i * size + size
  {
  }

  lemma OffsetsAdd(p: int, i: int, j: int, size: int)
    ensures Off(Off(p, i, size), j, size) == Off(p, i + j, size)
  {
    assert (i + j) * size == i * size + j * size;
  }

  lemma OffsetZero(p: int, size: int)
    ensures Off(p, 0, size) == p
  {
  }

  /** Element `i` of an array that fits lies between its start and its end. */
  lemma ElementInside(p: int, i: int, n: int, size: int)
    requires 0 <= i < n && size > 0
    ensures p <= Off(p, i, size) && Off(p, i, size) + size <= Off(p, n, size)
  {
    OffsetsGrow(p, i, n, size);
    OffsetZero(p, size);
    if i > 0 {
      OffsetsGrow(p, 0, i, size);
    }
  }

  lemma ElementOf<T>(s: seq<T>, p: int, n: nat, size: int, i: int)
    requires 0 <= i < n
    ensures Elems(s, p, n, size)[i] == El(s, Off(p, i, size), size)
  {
  }

  lemma PutElsewhere<T>(s: seq<T>, at: int, w: seq<T>, q: int, size: int)
    requires 0 <= at && at + |w| <= |s| && size >= 0 && (q + size <= at || at + |w| <= q)
    ensures El(Put(s, at, w), q, size) == El(s, q, size)
  {
  }

  lemma PutHere<T>(s: seq<T>, at: int, w: seq<T>)
    requires 0 <= at && at + |w| <= |s|
    ensures El(Put(s, at, w), at, |w|) == w
  {
  }

  /** Writing one element. */
  lemma PutElement<T>(s: seq<T>, p: int, n: nat, size: int, i: nat, w: seq<T>)
    requires Fits(s, p, n, size) && i < n && |w| == size
    ensures var t := Put(s, Off(p, i, size), w);
      && Elems(t, p, n, size) == Elems(s, p, n, size)[i := w]
      && SameOutside(s, t, p, n, size) && Fits(t, p, n, size)
  {
    var at := Off(p, i, size);
    var t := Put(s, at, w);
    ElementInside(p, i, n, size);
    forall k | 0 <= k < n
      ensures Elems(t, p, n, size)[k] == Elems(s, p, n, size)[i := w][k]
    {
      hide Put, Off, El, Elems;
      ElementOf(t, p, n, size, k);
      ElementOf(s, p, n, size, k);
      if k < i {
        OffsetsGrow(p, k, i, size);
        PutElsewhere(s, at, w, Off(p, k, size), size);
      } else if k > i {
        OffsetsGrow(p, i, k, size);
        PutElsewhere(s, at, w, Off(p, k, size), size);
      } else {
        PutHere(s, at, w);
      }
    }
  }

  /** The first `r` elements, element `r`, and those after it. */
  lemma SplitElems<T>(s: seq<T>, p: int, n: nat, size: int, r: nat)
    requires r < n
    ensures Elems(s, p, n, size) ==
      Elems(s, p, r, size) + [El(s, Off(p, r, size), size)] + Elems(s, Off(p, r + 1, size), n - r - 1, size)
  {
    forall k | 0 <= k < n
      ensures Elems(s, p, n, size)[k] ==
        (Elems(s, p, r, size) + [El(s, Off(p, r, size), size)] + Elems(s, Off(p, r + 1, size), n - r - 1, size))[k]
    {
      hide Off, El;
      if k > r {
        OffsetsAdd(p, r + 1, k - r - 1, size);
      }
    }
  }

  /** Elements outside the changed ones stay. */
  lemma ElemsStay<T>(s: seq<T>, t: seq<T>, p: int, n: int, size: int, q: int, m: nat)
    requires SameOutside(s, t, p, n, size) && size > 0 && (Off(q, m, size) <= p || Off(p, n, size) <= q)
    ensures Elems(t, q, m, size) == Elems(s, q, m, size)
  {
    forall k | 0 <= k < m
      ensures Elems(t, q, m, size)[k] == Elems(s, q, m, size)[k]
    {
      hide Off;
      ElementInside(q, k, m, size);
      ElStays(s, t, p, n, size, Off(q, k, size));
    }
  }

  lemma ElStays<T>(s: seq<T>, t: seq<T>, p: int, n: int, size: int, at: int)
    requires SameOutside(s, t, p, n, size) && size > 0 && (at + size <= p || Off(p, n, size) <= at)
    ensures El(t, at, size) == El(s, at, size)
  {
    hide Off;
    if 0 <= at <= at + size <= |s| {
      assert forall k :: at <= k < at + size ==> t[k] == s[k];
    }
  }
}
