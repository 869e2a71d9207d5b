/** The cycles of the probe step i -> (i + 1) & (n - 1) of the hash table (src/search.c:133). */
module Ring {
  import opened Bits

  /** `i` survives the mask `n - 1`. */
  predicate Masked(i: nat, n: nat)
    requires n > 0
  {
    And(i, n - 1) == i
  }

  /** The largest power of two that divides `n`. */
  function RingSize(n: nat): (c: nat)
    requires n > 0
    ensures 0 < c <= n
  {
    if n % 2 == 1 then 1 else 2 * RingSize(n / 2)
  }

  /** The first slot of the cycle through `i`. */
  function RingBase(i: nat, n: nat): nat
    requires n > 0
    decreases n
  {
    if n % 2 == 1 then i else 2 * RingBase(i / 2, n / 2)
  }

  lemma {:induction false} AndIsMasked(h: nat, m: nat)
    ensures And(And(h, m), m) == And(h, m)
    decreases h
  {
    if h != 0 && m != 0 {
      AndIsMasked(h / 2, m / 2);
      AndStep(h, m);
      AndStep(And(h, m), m);
    }
  }

  lemma AndStep(a: nat, b: nat)
    ensures And(a, b) / 2 == And(a / 2, b / 2)
    ensures And(a, b) % 2 == if a % 2 == 1 && b % 2 == 1 then 1 else 0
  {
  }

  /** Halving a masked index. */
  lemma HalfMasked(i: nat, n: nat)
    requires n > 0 && n % 2 == 0 && Masked(i, n)
    ensures n / 2 > 0 && (n - 1) / 2 == n / 2 - 1 && Masked(i / 2, n / 2)
  {
    AndStep(i, n - 1);
  }

  lemma {:induction false} RingBounds(i: nat, n: nat)
    requires n > 0 && Masked(i, n)
    ensures RingBase(i, n) <= i < RingBase(i, n) + RingSize(n) <= n
    decreases n
  {
    if n % 2 == 0 {
      HalfMasked(i, n);
      RingBounds(i / 2, n / 2);
    }
  }

  lemma {:induction false} SameRing(i: nat, j: nat, n: nat)
    requires n > 0 && Masked(i, n) && RingBase(i, n) <= j < RingBase(i, n) + RingSize(n)
    ensures Masked(j, n) && RingBase(j, n) == RingBase(i, n)
    decreases n
  {
    hide And;
    if n % 2 == 0 {
      HalfMasked(i, n);
      SameRing(i / 2, j / 2, n / 2);
      AndStep(j, n - 1);
    }
  }

  /** One probe step goes to the next slot of the ring and from its last slot back to its first. */
  lemma {:induction false} ProbeStep(i: nat, n: nat)
    requires n > 0 && Masked(i, n)
    ensures And(i + 1, n - 1) == if i + 1 == RingBase(i, n) + RingSize(n) then RingBase(i, n) else i + 1
    decreases n
  {
    hide And;
    AndStep(i, n - 1);
    AndStep(i + 1, n - 1);
    if n % 2 == 0 {
      HalfMasked(i, n);
      RingBounds(i / 2, n / 2);
      if i % 2 == 1 {
        assert (i + 1) / 2 == i / 2 + 1;
        ProbeStep(i / 2, n / 2);
      } else {
        assert (i + 1) / 2 == i / 2;
      }
    } else {
      assert i % 2 == 0 && (i + 1) / 2 == i / 2;
    }
  }

  /** The ring is the whole table exactly for a power of two. */
  lemma {:induction false} WholeRing(n: nat)
    requires n > 0
    ensures RingSize(n) == n <==> PowerOfTwo(n)
  {
    if n == 1 {
      assert Pow2(0) == 1;
    } else if n % 2 == 1 {
      OddIsNoPower(n);
    } else {
      WholeRing(n / 2);
      Halve(n);
    }
  }

  // ----- Walking round a ring -----

  /** The slot after `m` probe steps from `s`. */
  function Nth(s: nat, m: nat, n: nat): int
    requires n > 0
  {
    if s + m < RingBase(s, n) + RingSize(n) then s + m else s + m - RingSize(n)
  }

  /** How many probe steps lead from `s` to the slot `p` of its ring. */
  function Dist(s: nat, p: nat, n: nat): int
    requires n > 0
  {
    if p >= s then p - s else p - s + RingSize(n)
  }

  /** Probing from `s` goes through the slots of its ring one by one and comes back after RingSize steps. */
  lemma WalkRing(s: nat, n: nat)
    requires n > 0 && Masked(s, n)
    ensures s < n && Nth(s, 0, n) == s && Nth(s, RingSize(n), n) == s
    ensures forall m :: 0 <= m <= RingSize(n) ==> 0 <= Nth(s, m, n) < n
    ensures forall a, b :: 0 <= a < b < RingSize(n) ==> Nth(s, a, n) != Nth(s, b, n)
    ensures forall m :: 0 <= m < RingSize(n) ==> Dist(s, Nth(s, m, n), n) == m
  {
    RingBounds(s, n);
    hide RingSize, RingBase, Masked;
  }

  lemma StepOnRing(s: nat, m: nat, n: nat)
    requires n > 0 && Masked(s, n) && m < RingSize(n)
    ensures Nth(s, m, n) >= 0 && Masked(Nth(s, m, n), n) && And(Nth(s, m, n) + 1, n - 1) == Nth(s, m + 1, n)
  {
    RingBounds(s, n);
    var p := Nth(s, m, n);
    SameRing(s, p, n);
    ProbeStep(p, n);
  }

  /** For a power of two every slot is on the ring. */
  lemma EverySlotOnRing(s: nat, q: nat, n: nat)
    requires n > 0 && Masked(s, n) && PowerOfTwo(n) && q < n
    ensures 0 <= Dist(s, q, n) < RingSize(n) && Nth(s, Dist(s, q, n), n) == q
  {
    WholeRing(n);
    RingBounds(s, n);
    hide RingSize, RingBase, Masked, PowerOfTwo;
  }
}
