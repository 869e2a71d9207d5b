/** String functions (src/string.c:18-33, 106-113, 172-183, 200-236, 248-266). Pointers are offsets into a buffer. */
module Strings {
  import opened Machine

  /** A NUL stands in `s` at `p` or later: a C string starts at `p`. */
  ghost predicate Terminated(s: string, p: nat) { exists z :: p <= z < |s| && s[z] == '\0' }

  /** The characters of a C string. */
  function Text(s: string): string { if |s| > 0 then s[..|s| - 1] else s }

  /** A plain char, which is signed, of a byte. */
  function Signed(c: char): int { if c as int < 128 then c as int else c as int - 256 }

  method Strlen(s: string) returns (len: nat)
    requires CStr(s)
    ensures len == |Text(s)| && s[len] == '\0' && forall k :: 0 <= k < len ==> s[k] != '\0'
  {
    len := 0;
    while s[len] != '\0'
      invariant len < |s|
      decreases |s| - len
    {
      len := len + 1;
    }
  }

  /** The two areas first differ after `k` bytes. */
  ghost predicate FirstDifference(lhs: string, l: nat, rhs: string, r: nat, n: nat, k: nat)
    requires l + n <= |lhs| && r + n <= |rhs|
  {
    k < n && lhs[l + k] != rhs[r + k] && lhs[l..l + k] == rhs[r..r + k]
  }

  lemma FirstDifferenceIsOne(lhs: string, l: nat, rhs: string, r: nat, n: nat, i: nat, k: nat)
    requires l + n <= |lhs| && r + n <= |rhs|
    requires FirstDifference(lhs, l, rhs, r, n, i) && FirstDifference(lhs, l, rhs, r, n, k)
    ensures i == k
  {
    AgreeAt(lhs, l, rhs, r, i, k);
    AgreeAt(lhs, l, rhs, r, k, i);
  }

  lemma AgreeAt(lhs: string, l: nat, rhs: string, r: nat, n: nat, j: nat)
    requires l + n <= |lhs| && r + n <= |rhs| && lhs[l..l + n] == rhs[r..r + n]
    ensures j < n ==> lhs[l + j] == rhs[r + j]
  {
    if j < n {
      assert lhs[l..l + n][j] == rhs[r..r + n][j];
    }
  }

  lemma NoDifference(lhs: string, l: nat, rhs: string, r: nat, n: nat)
    requires l + n <= |lhs| && r + n <= |rhs| && lhs[l..l + n] == rhs[r..r + n]
    ensures forall k: nat :: !FirstDifference(lhs, l, rhs, r, n, k)
  {
    forall k: nat
      ensures !FirstDifference(lhs, l, rhs, r, n, k)
    {
      AgreeAt(lhs, l, rhs, r, n, k);
    }
  }

  /** The order of two different bytes; those from 128 on are negative as plain chars. */
  ghost predicate ByteOrder(x: int, y: int, res: int) {
    x < 256 && y < 256 ==>
      && ((x < 128 <==> y < 128) ==> res == if x < y then -1 else 1)
      && (x >= 128 > y ==> res == -1)
      && (y >= 128 > x ==> res == 1)
  }

  /** Compares `n` bytes: 0 if and only if all agree, else the order of the first two that differ. */
  method Memcmp(lhs: string, l: nat, rhs: string, r: nat, n: nat) returns (res: int)
    requires l + n <= |lhs| && r + n <= |rhs|
    ensures res == 0 <==> lhs[l..l + n] == rhs[r..r + n]
    ensures -1 <= res <= 1
    ensures forall k: nat :: FirstDifference(lhs, l, rhs, r, n, k) ==>
      ByteOrder(lhs[l + k] as int, rhs[r + k] as int, res)
  {
    var i := 0;
    while i != n
      invariant i <= n && lhs[l..l + i] == rhs[r..r + i]
    {
      if lhs[l + i] != rhs[r + i] {
        assert lhs[l..l + n][i] == lhs[l + i] && rhs[r..r + n][i] == rhs[r + i];
        assert FirstDifference(lhs, l, rhs, r, n, i);
        forall k: nat | FirstDifference(lhs, l, rhs, r, n, k)
          ensures k == i
        {
          FirstDifferenceIsOne(lhs, l, rhs, r, n, i, k);
        }
        return if Signed(lhs[l + i]) < Signed(rhs[r + i]) then -1 else 1;
      }
      assert lhs[l..l + i + 1] == lhs[l..l + i] + [lhs[l + i]];
      assert rhs[r..r + i + 1] == rhs[r..r + i] + [rhs[r + i]];
      i := i + 1;
    }
    NoDifference(lhs, l, rhs, r, n);
    return 0;
  }

  /** The first `c` of the C string at `p`, its NUL included. */
  method Strchr(s: string, p: nat, c: char) returns (found: Option<nat>)
    requires Terminated(s, p)
    ensures found.Some? ==> p <= found.value < |s| && s[found.value] == c
    ensures found.Some? ==> forall k :: p <= k < found.value ==> s[k] != c && s[k] != '\0'
    ensures found.None? ==> exists z :: p <= z < |s| && s[z] == '\0' && forall k :: p <= k <= z ==> s[k] != c
  {
    ghost var z :| p <= z < |s| && s[z] == '\0';
    var q := p;
    while true
      invariant p <= q <= z
      invariant forall k :: p <= k < q ==> s[k] != c && s[k] != '\0'
      decreases z - q
    {
      if s[q] == c {
        return Some(q);
      } else if s[q] == '\0' {
        return None;
      }
      q := q + 1;
    }
  }

  // ----- strspn and strcspn -----

  /** Where the characters of the string at `p` that are in the set, or not in it, stop. */
  function Scan(s: string, p: nat, chars: string, inside: bool): (q: nat)
    requires p <= |s|
    ensures p <= q <= |s|
    ensures forall k :: p <= k < q ==> s[k] != '\0' && ((s[k] in chars) == inside)
    ensures q < |s| ==> s[q] == '\0' || ((s[q] in chars) != inside)
    decreases |s| - p
  {
    if p == |s| || s[p] == '\0' || ((s[p] in chars) != inside) then p else Scan(s, p + 1, chars, inside)
  }

  lemma ScanStops(s: string, p: nat, chars: string, inside: bool)
    requires Terminated(s, p)
    ensures Scan(s, p, chars, inside) < |s|
  {
  }

  /** Is `c` one of the characters of `src`? The loop of strspn and strcspn over the set. */
  method Member(c: char, src: string) returns (yes: bool)
    requires CStr(src) && c != '\0'
    ensures yes <==> c in Text(src)
  {
    var i := 0;
    while true
      invariant i < |src| && forall k :: 0 <= k < i ==> src[k] != c
      decreases |src| - i
    {
      if src[i] == c {
        return true;
      } else if src[i] == '\0' {
        return false;
      }
      i := i + 1;
    }
  }

  method Strspn(s: string, p: nat, src: string) returns (n: nat)
    requires Terminated(s, p) && CStr(src)
    ensures p + n == Scan(s, p, Text(src), true) < |s|
  {
    ScanStops(s, p, Text(src), true);
    var d := p;
    while true
      invariant p <= d < |s| && Scan(s, d, Text(src), true) == Scan(s, p, Text(src), true)
      decreases |s| - d
    {
      if s[d] == '\0' {
        return d - p;
      }
      var yes := Member(s[d], src);
      if !yes {
        return d - p;
      }
      d := d + 1;
    }
  }

  method Strcspn(s: string, p: nat, src: string) returns (n: nat)
    requires Terminated(s, p) && CStr(src)
    ensures p + n == Scan(s, p, Text(src), false) < |s|
  {
    ScanStops(s, p, Text(src), false);
    var d := p;
    while true
      invariant p <= d < |s| && Scan(s, d, Text(src), false) == Scan(s, p, Text(src), false)
      decreases |s| - d
    {
      if s[d] == '\0' {
        return d - p;
      }
      var yes := Member(s[d], src);
      if yes {
        return d - p;
      }
      d := d + 1;
    }
  }

  // ----- strstr -----

  /** `t` stands in `s` at `k`; both are C strings. */
  ghost predicate Occurs(s: string, t: string, k: int) {
    0 <= k <= k + |Text(t)| <= |Text(s)| && Text(s)[k..k + |Text(t)|] == Text(t)
  }

  lemma OccursStarts(s: string, t: string, k: int)
    requires Occurs(s, t, k) && |Text(t)| > 0
    ensures s[k] == t[0] && k < |Text(s)|
  {
    assert Text(s)[k..k + |Text(t)|][0] == Text(t)[0];
  }

  lemma CandidateOccurs(s: string, t: string, k: nat)
    requires CStr(s) && CStr(t) && |Text(t)| > 0 && k + |Text(t)| <= |Text(s)| && s[k] == t[0]
    ensures var n := |Text(t)|; Occurs(s, t, k) <==> s[k + 1..k + 1 + (n - 1)] == t[1..1 + (n - 1)]
  {
    var n := |Text(t)|;
    FirstAndRest(s, k, n);
    FirstAndRest(t, 0, n);
    ConsEqual(s[k], s[k + 1..k + n], t[0], t[1..n]);
    assert Text(s)[k..k + n] == s[k..k + n] && Text(t) == t[0..n];
  }

  lemma FirstAndRest(s: string, k: nat, n: nat)
    requires 0 < n && k + n <= |s|
    ensures s[k..k + n] == [s[k]] + s[k + 1..k + n]
  {
  }

  lemma ConsEqual(x: char, a: string, y: char, b: string)
    ensures [x] + a == [y] + b <==> x == y && a == b
  {
    assert ([x] + a)[0] == x && ([x] + a)[1..] == a;
    assert ([y] + b)[0] == y && ([y] + b)[1..] == b;
  }

  /** There is no occurrence before `m`. */
  ghost predicate NoneBefore(s: string, t: string, m: int) { forall k :: k < m ==> !Occurs(s, t, k) }

  lemma NoneWithoutFirst(s: string, t: string, m: int, q: int)
    requires |Text(t)| > 0 && NoneBefore(s, t, m) && 0 <= m && q <= |s|
    requires forall k :: m <= k < q ==> s[k] != t[0]
    ensures NoneBefore(s, t, q)
  {
    forall k | k < q
      ensures !Occurs(s, t, k)
    {
      if Occurs(s, t, k) {
        OccursStarts(s, t, k);
      }
    }
  }

  lemma NoneNearEnd(s: string, t: string, m: int)
    requires NoneBefore(s, t, m) && m + |Text(t)| > |Text(s)|
    ensures forall k :: !Occurs(s, t, k)
  {
  }

  /** What the search knows while its candidate is `at`. */
  ghost predicate Searching(s: string, t: string, at: Option<nat>) {
    if at.Some? then |t| > 0 && at.value < |s| && s[at.value] == t[0] && NoneBefore(s, t, at.value)
    else forall k :: !Occurs(s, t, k)
  }

  /** Skipping to the next candidate with strchr passes over no occurrence. */
  lemma SkipMissesNothing(s: string, t: string, m: nat, found: Option<nat>)
    requires CStr(s) && CStr(t) && |Text(t)| > 0 && m <= |Text(s)| && NoneBefore(s, t, m)
    requires found.Some? ==> m <= found.value < |s| && s[found.value] == t[0]
    requires found.Some? ==> forall k :: m <= k < found.value ==> s[k] != t[0]
    requires found.None? ==> forall k :: m <= k < |s| ==> s[k] != t[0]
    ensures Searching(s, t, found)
  {
    if found.Some? {
      NoneWithoutFirst(s, t, m, found.value);
    } else {
      NoneWithoutFirst(s, t, m, |s|);
      NoneNearEnd(s, t, |s|);
    }
  }

  /** The leftmost occurrence, if there is any. */
  method Strstr(str: string, substr: string) returns (found: Option<nat>)
    requires CStr(str) && CStr(substr)
    ensures found.Some? ==> Occurs(str, substr, found.value) && NoneBefore(str, substr, found.value)
    ensures found.None? ==> forall k :: !Occurs(str, substr, k)
  {
    hide Searching, NoneBefore, Occurs;
    var substrSize := Strlen(substr);
    if substrSize == 0 {
      EmptyOccurs(str, substr);
      return Some(0);
    }
    var strSize := Strlen(str);
    var s := Strchr(str, 0, substr[0]);
    NothingBeforeStart(str, substr);
    SkipMissesNothing(str, substr, 0, s);
    while s.Some? && strSize >= s.value + substrSize
      invariant Searching(str, substr, s)
      decreases Ahead(str, s)
    {
      SearchingIs(str, substr, s);
      ghost var at := s.value;
      var next := s.value + 1;
      var c := Memcmp(str, next, substr, 1, substrSize - 1);
      CandidateOccurs(str, substr, at);
      if c == 0 {
        return Some(next - 1);
      }
      NoneBeforeNext(str, substr, at);
      s := Strchr(str, next, substr[0]);
      SkipMissesNothing(str, substr, next, s);
    }
    SearchingIs(str, substr, s);
    if s.Some? {
      NoneNearEnd(str, substr, s.value);
    }
    return None;
  }

  ghost function Ahead(s: string, at: Option<nat>): int { if at.Some? then |s| - at.value else 0 }

  lemma SearchingIs(s: string, t: string, at: Option<nat>)
    requires Searching(s, t, at)
    ensures at.Some? ==> |t| > 0 && at.value < |s| && s[at.value] == t[0] && NoneBefore(s, t, at.value)
    ensures at.None? ==> forall k :: !Occurs(s, t, k)
  {
  }

  lemma EmptyOccurs(s: string, t: string)
    requires |Text(t)| == 0
    ensures Occurs(s, t, 0) && NoneBefore(s, t, 0)
  {
  }

  lemma NothingBeforeStart(s: string, t: string)
    ensures NoneBefore(s, t, 0)
  {
  }

  lemma NoneBeforeNext(s: string, t: string, m: nat)
    requires NoneBefore(s, t, m) && !Occurs(s, t, m)
    ensures NoneBefore(s, t, m + 1)
  {
  }
}
