/** Bitwise and, powers of two, and the masks of the hash table (src/search.c:35-52). */
module Bits {
  import opened Machine

  /** Bitwise and. */
  function And(a: nat, b: nat): (r: nat)
    ensures r <= a && r <= b
    decreases a
  {
    if a == 0 || b == 0 then 0
    else 2 * And(a / 2, b / 2) + (if a % 2 == 1 && b % 2 == 1 then 1 else 0)
  }

  function Pow2(k: nat): (p: nat)
    ensures p >= 1
  {
    if k == 0 then 1 else 2 * Pow2(k - 1)
  }

  ghost predicate PowerOfTwo(n: int) { exists k: nat :: n == Pow2(k) }

  /** is_pow_2, on size_t, where 0 - 1 wraps around. */
  predicate IsPow2(n: SizeT) { And(n, (n - 1) % TWO_64) == 0 }

  lemma {:induction false} AndBelow(n: nat)
    requires n > 0
    ensures And(n, n - 1) == 0 <==> PowerOfTwo(n)
  {
    var h := n / 2;
    if n == 1 {
      assert Pow2(0) == 1;
    } else if n % 2 == 0 {
      assert And(n, n - 1) == 2 * And(h, h - 1);
      AndBelow(h);
      Halve(n);
    } else {
      assert And(n, n - 1) == 2 * And(h, h);
      AndSelf(h);
      OddIsNoPower(n);
    }
  }

  lemma OddIsNoPower(n: nat)
    requires n > 1 && n % 2 == 1
    ensures !PowerOfTwo(n)
  {
    forall k: nat
      ensures n != Pow2(k)
    {
    }
  }

  lemma {:induction false} AndSelf(n: nat)
    ensures And(n, n) == n
  {
    if n > 0 {
      AndSelf(n / 2);
    }
  }

  lemma Halve(n: nat)
    requires n > 0 && n % 2 == 0
    ensures PowerOfTwo(n) <==> PowerOfTwo(n / 2)
  {
    if k: nat :| n == Pow2(k) {
      assert k > 0;
      assert n / 2 == Pow2(k - 1);
    }
    if k: nat :| n / 2 == Pow2(k) {
      assert n == Pow2(k + 1);
    }
  }

  /** is_pow_2 holds of the powers of two and of zero. */
  lemma IsPow2Means(n: SizeT)
    ensures IsPow2(n) <==> n == 0 || PowerOfTwo(n)
  {
    if n > 0 {
      BelowWrap(n - 1);
      AndBelow(n);
      hide And, PowerOfTwo;
    } else {
      assert And(n, (n - 1) % TWO_64) == 0;
    }
  }

  lemma {:induction false} Pow2Monotone(j: nat, k: nat)
    requires j <= k
    ensures Pow2(j) <= Pow2(k)
    decreases k - j
  {
    if j < k {
      Pow2Monotone(j, k - 1);
    }
  }

  ghost predicate LeastPowerFrom(r: int, n: int) {
    PowerOfTwo(r) && n <= r && forall k: nat :: n <= Pow2(k) ==> r <= Pow2(k)
  }

  lemma Pow2Of64()
    ensures Pow2(63) == TWO_63 && Pow2(64) == TWO_64
  {
    assert Pow2(8) == 0x100;
    assert Pow2(16) == 0x1_0000;
    assert Pow2(24) == 0x100_0000;
    assert Pow2(32) == 0x1_0000_0000;
    assert Pow2(40) == 0x100_0000_0000;
    assert Pow2(48) == 0x1_0000_0000_0000;
    assert Pow2(56) == 0x100_0000_0000_0000;
  }

  /** Between two neighbouring powers the larger one is the least from there on. */
  lemma Between(n: int, i: nat)
    requires i > 0 && Pow2(i - 1) < n < Pow2(i)
    ensures LeastPowerFrom(Pow2(i), n)
  {
    forall k: nat | n <= Pow2(k)
      ensures Pow2(i) <= Pow2(k)
    {
      if k < i {
        Pow2Monotone(k, i - 1);
      } else {
        Pow2Monotone(i, k);
      }
    }
  }

  /** `n` is what is left of `m` after its low bits, worth `p`, are shifted out. */
  ghost predicate Shifted(n: nat, p: nat, m: nat) { n * p <= m < (n + 1) * p }

  /** The shift loop: the first power of two above `m`, modulo the width of size_t. */
  method ShiftAbove(m: SizeT) returns (r: SizeT, ghost i: nat)
    requires m > 0
    ensures 0 < i <= 64 && Pow2(i - 1) <= m < Pow2(i) && r == Pow2(i) % TWO_64
    ensures if m < TWO_63 then PowerOfTwo(r) && m < r <= 2 * m else r == 0
  {
    var n: SizeT := m;
    i := 0;
    r := 1;
    assert Shifted(m, 1, m);
    hide Shifted;
    while n != 0
      invariant Shifted(n, Pow2(i), m)
      invariant i > 0 ==> Pow2(i - 1) <= m
      invariant i <= 64 && r == Pow2(i) % TWO_64
      decreases n
    {
      BoundedShift(n, i, m);
      ShiftStep(n, Pow2(i), m);
      DoubleWrapped(Pow2(i));
      n := n / 2;
      r := (2 * r) % TWO_64;
      i := i + 1;
    }
    NothingLeft(Pow2(i), m);
    PowerAbove(m, i);
  }

  /** The first power above fits unless it is 2^64. */
  lemma PowerAbove(m: SizeT, i: nat)
    requires 0 < i <= 64 && Pow2(i - 1) <= m < Pow2(i)
    ensures var r := Pow2(i) % TWO_64; if m < TWO_63 then PowerOfTwo(r) && m < r <= 2 * m else r == 0
  {
    Pow2Of64();
    if i < 64 {
      Pow2Monotone(i, 63);
    }
  }

  lemma DoubleWrapped(p: nat)
    ensures (2 * (p % TWO_64)) % TWO_64 == (2 * p) % TWO_64
  {
    var q, r := p / TWO_64, p % TWO_64;
    var wraps := if 2 * r < TWO_64 then 0 else 1;
    RemainderIs(2 * p, 2 * q + wraps, 2 * r - wraps * TWO_64);
    RemainderIs(2 * r, wraps, 2 * r - wraps * TWO_64);
  }

  lemma RemainderIs(a: int, q: int, r: int)
    requires a == q * TWO_64 + r && 0 <= r < TWO_64
    ensures a % TWO_64 == r
  {
  }

  lemma NothingLeft(p: nat, m: nat)
    requires Shifted(0, p, m)
    ensures m < p
  {
  }

  /** next_pow_2 gives the least power of two that is not smaller, exactly for 1 <= n <= 2^63. */
  method NextPow2(m: SizeT) returns (r: SizeT)
    ensures LeastPowerFrom(r, m) <==> 1 <= m <= TWO_63
    ensures m == 0 || m > TWO_63 ==> r == 0
  {
    IsPow2Means(m);
    if IsPow2(m) {
      PowerFits(m);
      return m;
    }
    ghost var i;
    r, i := ShiftAbove(m);
    ResultOfShift(m, r, i);
  }

  lemma PowerFits(m: SizeT)
    requires m == 0 || PowerOfTwo(m)
    ensures m <= TWO_63
    ensures LeastPowerFrom(m, m) <==> 1 <= m
  {
    Pow2Of64();
    if m > TWO_63 {
      NoPowerBetween(m, 63);
    }
  }

  lemma ResultOfShift(m: SizeT, r: SizeT, i: nat)
    requires 0 < i <= 64 && Pow2(i - 1) <= m < Pow2(i) && r == Pow2(i) % TWO_64 && !PowerOfTwo(m) && m > 0
    ensures LeastPowerFrom(r, m) <==> m <= TWO_63
    ensures m > TWO_63 ==> r == 0
  {
    assert Pow2(i - 1) != m;
    Between(m, i);
    NoLeastPower(m);
    hide *;
    Pow2Of64();
    if i < 64 {
      Pow2Monotone(i, 63);
      BelowWrap(Pow2(i));
    }
  }

  lemma BelowWrap(n: nat)
    requires n < TWO_64
    ensures n % TWO_64 == n
  {
  }

  lemma NoLeastPower(m: nat)
    ensures !LeastPowerFrom(0, m)
  {
  }

  lemma ShiftStep(n: nat, p: nat, m: nat)
    requires Shifted(n, p, m)
    ensures Shifted(n / 2, 2 * p, m)
  {
    var half := n / 2;
    assert half * (2 * p) == (2 * half) * p;
    assert (half + 1) * (2 * p) == (2 * half + 2) * p;
    if n % 2 == 0 {
      assert (2 * half + 2) * p == (n + 1) * p + p;
    } else {
      assert n * p == (2 * half) * p + p;
    }
  }

  lemma NoPowerBetween(n: int, i: nat)
    requires Pow2(i) < n < Pow2(i + 1)
    ensures !PowerOfTwo(n)
  {
    if k: nat :| n == Pow2(k) {
      if k <= i {
        Pow2Monotone(k, i);
      } else {
        Pow2Monotone(i + 1, k);
      }
    }
  }

  lemma AtLeast(n: nat, p: nat)
    requires n > 0
    ensures p <= n * p
  {
  }

  /** As long as a bit is left the shift count stays below 64. */
  lemma BoundedShift(n: nat, i: nat, m: SizeT)
    requires n > 0 && Shifted(n, Pow2(i), m)
    ensures i < 64 && Pow2(i) <= m
  {
    var p := Pow2(i);
    AtLeast(n, p);
    ShiftBelow64(p, i);
  }

  lemma ShiftBelow64(p: nat, i: nat)
    requires p == Pow2(i) < TWO_64
    ensures i < 64
  {
    Pow2Of64();
    if i >= 64 {
      Pow2Monotone(64, i);
    }
  }
}
