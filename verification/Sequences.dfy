/** Facts about sequences that several modules need. */
module Sequences {

  ghost predicate Distinct<T>(s: seq<T>) { forall i, j :: 0 <= i < j < |s| ==> s[i] != s[j] }

  /** `n` zeros; none when `n` is not positive. */
  function Zeros(n: int): (s: seq<int>)
    ensures |s| == if n < 0 then 0 else n
    ensures forall k :: 0 <= k < |s| ==> s[k] == 0
  {
    if n < 0 then [] else seq(n, _ => 0)
  }

  /** Distinct elements of a set are no more than it has. */
  lemma {:induction false} DistinctInSet<T>(s: seq<T>, k: set<T>)
    requires Distinct(s) && forall i :: 0 <= i < |s| ==> s[i] in k
    ensures |s| <= |k|
  {
    if s != [] {
      DistinctInSet(s[1..], k - {s[0]});
    }
  }

  lemma Associate<T>(a: seq<T>, b: seq<T>, c: seq<T>)
    ensures (a + b) + c == a + (b + c)
  {
  }
}
