/** Digits in a base: one character, and the value of a run of them. */
module Digits {
  import opened Machine

  predicate ValidBase(base: int) { 2 <= base <= 36 }

  /** The value of `c` as a digit of `base`, or -1. */
  function ToBaseN(base: int, c: char): (d: int)
    requires ValidBase(base)
    ensures -1 <= d < base
    ensures c == '\0' ==> d == -1
  {
    if base <= 10 then
      if c < '0' || '0' as int + base <= c as int then -1 else c as int - '0' as int
    else if '0' <= c <= '9' then c as int - '0' as int
    else if 'a' <= c && c as int < 'a' as int - 10 + base then c as int - 'a' as int + 10
    else if 'A' <= c && c as int < 'A' as int - 10 + base then c as int - 'A' as int + 10
    else -1
  }

  /** The character that prints the digit `d`. */
  function DigitChar(d: int, upper: bool): char
    requires 0 <= d < 36
  {
    if d < 10 then (d + '0' as int) as char
    else if upper then (d - 10 + 'A' as int) as char
    else (d - 10 + 'a' as int) as char
  }

  /** Reading a digit is the inverse of printing one, in either case of letters. */
  lemma ToBaseNInvertsDigitChar(base: int, c: char)
    requires ValidBase(base)
    ensures forall d :: 0 <= d < base ==>
      (ToBaseN(base, c) == d <==> c == DigitChar(d, false) || c == DigitChar(d, true))
  {
    forall d | 0 <= d < base
      ensures ToBaseN(base, c) == d <==> c == DigitChar(d, false) || c == DigitChar(d, true)
    {
      if d < 10 {
        assert c == DigitChar(d, false) <==> c as int == d + 48;
      } else {
        assert c == DigitChar(d, false) <==> c as int == d + 87;
        assert c == DigitChar(d, true) <==> c as int == d + 55;
      }
    }
  }

  predicate IsDigit(base: int, c: char)
    requires ValidBase(base)
  {
    ToBaseN(base, c) != -1
  }

  predicate AllDigits(base: int, t: string)
    requires ValidBase(base)
  {
    forall i :: 0 <= i < |t| ==> IsDigit(base, t[i])
  }

  /** Where the maximal run of digits that starts at `i` ends. */
  function RunEnd(base: int, s: string, i: nat): (e: nat)
    requires ValidBase(base) && i <= |s|
    ensures i <= e <= |s|
    ensures AllDigits(base, s[i..e])
    ensures e < |s| ==> !IsDigit(base, s[e])
    decreases |s| - i
  {
    if i < |s| && IsDigit(base, s[i]) then
      var e := RunEnd(base, s, i + 1);
      assert forall k :: 0 < k < e - i ==> s[i..e][k] == s[i + 1..e][k - 1];
      e
    else i
  }

  lemma {:induction false} RunEndsAt(base: int, s: string, i: nat, e: nat)
    requires ValidBase(base) && i <= e < |s| && !IsDigit(base, s[e])
    requires forall k :: i <= k < e ==> IsDigit(base, s[k])
    ensures RunEnd(base, s, i) == e
    decreases e - i
  {
    if i < e {
      RunEndsAt(base, s, i + 1, e);
    }
  }

  lemma GrowsByDigit(v: nat, base: int, d: int)
    requires base >= 2 && d >= 0
    ensures v <= v * base + d
  {
  }

  /** The unbounded value of a run of digits, most significant first. */
  function Value(base: int, t: string): nat
    requires ValidBase(base) && AllDigits(base, t)
  {
    if t == "" then 0
    else
      var init := t[..|t| - 1];
      assert AllDigits(base, init) && IsDigit(base, t[|t| - 1]);
      var v, d := Value(base, init), ToBaseN(base, t[|t| - 1]);
      GrowsByDigit(v, base, d);
      v * base + d
  }

  lemma {:induction false} ValueOfExtension(base: int, t: string, u: string)
    requires ValidBase(base) && AllDigits(base, t + u)
    ensures AllDigits(base, t) && AllDigits(base, u)
    ensures Value(base, t) <= Value(base, t + u)
  {
    assert AllDigits(base, t) by { assert forall i :: 0 <= i < |t| ==> t[i] == (t + u)[i]; }
    assert AllDigits(base, u) by { assert forall i :: 0 <= i < |u| ==> u[i] == (t + u)[|t| + i]; }
    if u == "" {
      assert t + u == t;
    } else {
      var whole, init := t + u, u[..|u| - 1];
      assert whole[..|whole| - 1] == t + init;
      ValueOfExtension(base, t, init);
      GrowsByDigit(Value(base, t + init), base, ToBaseN(base, whole[|whole| - 1]));
    }
  }

  /** The digits of `n` without leading zeros; nothing for zero. */
  function DigitsOf(n: nat, base: int, upper: bool): string
    requires ValidBase(base)
    decreases n
  {
    if n == 0 then ""
    else
      DivideSmaller(n, base);
      DigitsOf(n / base, base, upper) + [DigitChar(n % base, upper)]
  }

  lemma DivideSmaller(n: nat, base: int)
    requires n > 0 && base >= 2
    ensures 0 <= n / base < n
    ensures n == (n / base) * base + n % base
  {
  }

  /** Reading back the digits of a number, with any number of zeros in front, gives the number. */
  lemma {:induction false} ValueOfDigits(n: nat, base: int, upper: bool, zeros: nat)
    requires ValidBase(base)
    ensures AllDigits(base, Repeat('0', zeros) + DigitsOf(n, base, upper))
    ensures Value(base, Repeat('0', zeros) + DigitsOf(n, base, upper)) == n
    decreases n, zeros
  {
    var t := Repeat('0', zeros) + DigitsOf(n, base, upper);
    if n == 0 {
      if zeros > 0 {
        ValueOfDigits(0, base, upper, zeros - 1);
        assert t[..|t| - 1] == Repeat('0', zeros - 1) + DigitsOf(0, base, upper);
      }
    } else {
      DivideSmaller(n, base);
      ValueOfDigits(n / base, base, upper, zeros);
      var c := DigitChar(n % base, upper);
      ToBaseNInvertsDigitChar(base, c);
      var front := Repeat('0', zeros) + DigitsOf(n / base, base, upper);
      assert t == front + [c];
      assert t[..|t| - 1] == front;
    }
  }

  /** A number below 8^k has at most k digits in base 8 and in any larger base. */
  lemma {:induction false} DigitCountBound(n: nat, base: int, upper: bool, k: nat)
    requires ValidBase(base) && base >= 8 && n < Power(8, k)
    ensures |DigitsOf(n, base, upper)| <= k
    decreases k
  {
    if n > 0 {
      DivideSmaller(n, base);
      BelowNextPower(n, base, k);
      DigitCountBound(n / base, base, upper, k - 1);
    }
  }

  lemma BelowNextPower(n: nat, base: int, k: nat)
    requires 0 < n < Power(8, k) && base >= 8
    ensures k > 0 && n / base < Power(8, k - 1)
  {
    DivideSmaller(n, base);
    EightTimes(n / base, base);
  }

  lemma EightTimes(q: nat, base: int)
    requires base >= 8
    ensures q * 8 <= q * base
  {
  }

  function Power(base: int, k: nat): int {
    if k == 0 then 1 else Power(base, k - 1) * base
  }

  /** The printed digits of the bases up to 16, in one case of letters. */
  function DigitTable(upper: bool): (t: string)
    ensures |t| == 16
  {
    if upper then "0123456789ABCDEF" else "0123456789abcdef"
  }

  lemma DigitCharIsInTable(d: nat, upper: bool)
    requires d < 16
    ensures DigitChar(d, upper) == DigitTable(upper)[d]
  {
    var c := DigitChar(d, upper) as int;
    if d < 10 {
      assert c == 48 + d;
    } else if upper {
      assert c == 55 + d;
    } else {
      assert c == 87 + d;
    }
  }

  /** Digit `i` of a number, counted from the left, is the one that positional notation asks for, in the right case. */
  lemma {:induction false} DigitAt(n: nat, base: int, upper: bool, i: nat)
    requires 2 <= base <= 16 && i < |DigitsOf(n, base, upper)|
    ensures var k := |DigitsOf(n, base, upper)| - 1 - i;
      Power(base, k) > 0 && DigitsOf(n, base, upper)[i] == DigitTable(upper)[n / Power(base, k) % base]
    decreases n
  {
    DivideSmaller(n, base);
    var front := DigitsOf(n / base, base, upper);
    if i == |front| {
      DigitCharIsInTable(n % base, upper);
    } else {
      var k := |front| - 1 - i;
      DigitAt(n / base, base, upper, i);
      DivideTwice(n, base, Power(base, k));
      PowerOnTheLeft(base, k);
    }
  }

  lemma DivideTwice(n: nat, a: int, b: int)
    requires a > 0 && b > 0
    ensures a * b > 0 && n / a / b == n / (a * b)
  {
    var q, r, m := n / a / b, n / a % b, a * b;
    DivideParts(n, a);
    DivideParts(n / a, b);
    Distribute(q * b, r, a);
    Regroup(q, b, a);
    MultipleBounds(r, b - 1, a);
    Distribute(b, -1, a);
    QuotientIs(n, m, q, r * a + n % a);
  }

  lemma DivideParts(n: nat, m: int)
    requires m > 0
    ensures n / m >= 0 && n == n / m * m + n % m
  {
  }

  lemma Distribute(x: int, y: int, m: int)
    ensures (x + y) * m == x * m + y * m
  {
  }

  lemma Regroup(q: int, b: int, a: int)
    ensures q * b * a == q * (a * b)
  {
  }

  lemma MultipleBounds(x: int, y: int, m: int)
    requires x <= y && m > 0
    ensures x * m <= y * m
  {
  }

  lemma QuotientIs(n: nat, m: int, q: int, r: int)
    requires m > 0 && n == q * m + r && 0 <= r < m
    ensures n / m == q
  {
    DivideParts(n, m);
    if n / m > q {
      MultipleBounds(q + 1, n / m, m);
      Distribute(q, 1, m);
    } else if n / m < q {
      MultipleBounds(n / m + 1, q, m);
      Distribute(n / m, 1, m);
    }
  }

  lemma PowerOnTheLeft(base: int, k: nat)
    ensures Power(base, k + 1) == base * Power(base, k)
  {
  }
}
