/** Reading integers from text: atoi, strtol and strtoul (src/atoi.c). */
module Atoi {
  import opened Machine
  import opened Digits

  datatype Sign = Neg | Pos

  predicate IsSpace(c: char) { 9 <= c as int <= 13 || c as int == 32 }

  // ----- What the readers compute: positions and values in a C string -----

  /** The first position at or after `i` that holds no white space. */
  function AfterSpace(s: string, i: nat): (j: nat)
    requires CStr(s) && i < |s|
    ensures i <= j < |s| && !IsSpace(s[j])
    ensures forall k :: i <= k < j ==> IsSpace(s[k])
    decreases |s| - i
  {
    if IsSpace(s[i]) then AfterSpace(s, i + 1) else i
  }

  function SignAt(c: char): Sign { if c == '-' then Neg else Pos }

  /** The position after white space and one optional sign. */
  function AfterSign(s: string, i: nat): (p: nat)
    requires CStr(s) && i < |s|
    ensures i <= p < |s|
  {
    var j := AfterSpace(s, i);
    if s[j] == '-' || s[j] == '+' then j + 1 else j
  }

  function SignOf(s: string, i: nat): Sign
    requires CStr(s) && i < |s|
  {
    SignAt(s[AfterSpace(s, i)])
  }

  predicate BaseAccepted(base: int) { base == 0 || ValidBase(base) }

  predicate HexPrefix(s: string, p: nat, base: int)
    requires CStr(s) && p < |s|
  {
    (base == 0 || base == 16) && s[p] == '0' && (s[p + 1] == 'x' || s[p + 1] == 'X')
  }

  /** The base in which the digits after position `p` are read. */
  function ResolvedBase(s: string, p: nat, base: int): (b: int)
    requires CStr(s) && p < |s| && BaseAccepted(base)
    ensures ValidBase(b)
  {
    if HexPrefix(s, p, base) then 16
    else if base != 0 then base
    else if s[p] == '0' then 8
    else 10
  }

  /** Where the code starts collecting digits: after "0x" or after one leading zero. */
  function DigitsStart(s: string, p: nat, base: int): (q: nat)
    requires CStr(s) && p < |s|
    ensures p <= q < |s|
  {
    if HexPrefix(s, p, base) then p + 2 else if s[p] == '0' then p + 1 else p
  }

  /** The sign, the digits' unbounded value and the end of the text that a reader consumes. */
  datatype Scan = Scan(sign: Sign, magnitude: nat, end: nat) {
    function Signed(): int { if sign == Neg then 0 - magnitude else magnitude }
  }

  function ScanRun(s: string, sign: Sign, q: nat, base: int): Scan
    requires CStr(s) && q < |s| && ValidBase(base)
  {
    var e := RunEnd(base, s, q);
    Scan(sign, Value(base, s[q..e]), e)
  }

  function ScanInteger(s: string, i: nat, base: int): Scan
    requires CStr(s) && i < |s| && BaseAccepted(base)
  {
    var p := AfterSign(s, i);
    ScanRun(s, SignOf(s, i), DigitsStart(s, p, base), ResolvedBase(s, p, base))
  }

  /** What a call of the strto* family returns, stores in *str_end and stores in errno. */
  datatype StrtoResult = StrtoResult(value: int, end: Option<nat>, errno: Option<Errno>)

  /** strtol is the signed value of the scanned text clamped to the type's range. */
  function StrtolSpec(s: string, i: nat, base: int, max: IntMax, min: IntMax): StrtoResult
    requires CStr(s) && i < |s|
  {
    if !BaseAccepted(base) then StrtoResult(0, None, Some(EINVAL))
    else
      var scan := ScanInteger(s, i, base);
      var v := scan.Signed();
      StrtoResult(Max(min, Min(v, max)), Some(scan.end), if min <= v <= max then None else Some(ERANGE))
  }

  /** strtoul saturates the magnitude, and otherwise negates modulo 2^64. */
  function StrtoulSpec(s: string, i: nat, base: int, max: UIntMax): StrtoResult
    requires CStr(s) && i < |s|
  {
    if !BaseAccepted(base) then StrtoResult(0, None, Some(EINVAL))
    else
      var scan := ScanInteger(s, i, base);
      if scan.magnitude > max then StrtoResult(max, Some(scan.end), Some(ERANGE))
      else StrtoResult(scan.Signed() % TWO_64, Some(scan.end), None)
  }

  // ----- ISO/IEC 9899:2011, section 7.22.1.4 -----

  /** The standard takes "0x" as a prefix only when a hexadecimal digit follows it. */
  predicate StandardHexPrefix(s: string, p: nat, base: int)
    requires CStr(s) && p < |s|
  {
    HexPrefix(s, p, base) && IsDigit(16, s[p + 2])
  }

  function StandardBase(s: string, p: nat, base: int): (b: int)
    requires CStr(s) && p < |s| && BaseAccepted(base)
    ensures ValidBase(b)
  {
    if StandardHexPrefix(s, p, base) then 16
    else if base != 0 then base
    else if s[p] == '0' then 8
    else 10
  }

  /** The standard's subject sequence; with no digits nothing is consumed, not even the sign. */
  function StandardScan(s: string, i: nat, base: int): Scan
    requires CStr(s) && i < |s| && BaseAccepted(base)
  {
    var p := AfterSign(s, i);
    var q := if StandardHexPrefix(s, p, base) then p + 2 else p;
    var scan := ScanRun(s, SignOf(s, i), q, StandardBase(s, p, base));
    if scan.end == q then scan.(magnitude := 0, end := i) else scan
  }

  /** The characters of isspace in the C locale: tab, newline, vertical tab, form feed, return and space. */
  ghost predicate White(c: char) { c as int in {9, 10, 11, 12, 13, 32} }

  /** White space up to `j`, a sign up to `p`, a prefix up to `q` and digits of base `b` up to `e`. */
  ghost predicate Subject(s: string, i: nat, base: int, j: nat, p: nat, q: nat, e: nat, b: int)
    requires CStr(s) && i < |s|
  {
    && i <= j < |s| && !White(s[j]) && (forall k :: i <= k < j ==> White(s[k]))
    && p == (if s[j] == '-' || s[j] == '+' then j + 1 else j)
    && p < |s| && q < |s| && ValidBase(b)
    && (if (base == 0 || base == 16) && s[p] == '0' && (s[p + 1] == 'x' || s[p + 1] == 'X') && IsDigit(16, s[p + 2])
        then q == p + 2 && b == 16
        else q == p && b == if base != 0 then base else if s[p] == '0' then 8 else 10)
    && q <= e < |s| && !IsDigit(b, s[e]) && (forall k :: q <= k < e ==> IsDigit(b, s[k]))
  }

  /** The standard's scan, from the text alone. */
  lemma ScanIsSubject(s: string, i: nat, base: int) returns (j: nat, p: nat, q: nat, e: nat, b: int)
    requires CStr(s) && i < |s| && BaseAccepted(base)
    ensures Subject(s, i, base, j, p, q, e, b) && AllDigits(b, s[q..e])
    ensures StandardScan(s, i, base) ==
      if e == q then Scan(if s[j] == '-' then Neg else Pos, 0, i)
      else Scan(if s[j] == '-' then Neg else Pos, Value(b, s[q..e]), e)
  {
    j, p := AfterSpace(s, i), AfterSign(s, i);
    b := StandardBase(s, p, base);
    q := if StandardHexPrefix(s, p, base) then p + 2 else p;
    e := RunEnd(b, s, q);
    assert forall k :: q <= k < e ==> s[q..e][k - q] == s[k];
    hide Value;
  }

  /** One leading zero changes neither the value of a run nor its end. */
  lemma LeadingZero(base: int, s: string, p: nat)
    requires CStr(s) && p < |s| && s[p] == '0' && ValidBase(base)
    ensures RunEnd(base, s, p) == RunEnd(base, s, p + 1)
    ensures Value(base, s[p..RunEnd(base, s, p)]) == Value(base, s[p + 1..RunEnd(base, s, p)])
  {
    var e := RunEnd(base, s, p + 1);
    assert IsDigit(base, s[p]);
    ZeroInFront(base, s[p + 1..e]);
    assert s[p..e] == ['0'] + s[p + 1..e];
  }

  lemma {:induction false} ZeroInFront(base: int, t: string)
    requires ValidBase(base) && AllDigits(base, t)
    ensures AllDigits(base, ['0'] + t) && Value(base, ['0'] + t) == Value(base, t)
  {
    var z := ['0'] + t;
    assert AllDigits(base, z) by { assert forall k :: 0 < k < |z| ==> z[k] == t[k - 1]; }
    if t == "" {
      assert z[..0] == "";
    } else {
      ZeroInFront(base, t[..|t| - 1]);
      assert z[..|z| - 1] == ['0'] + t[..|t| - 1];
    }
  }

  /** When "0x" is not followed by a hexadecimal digit, or no digit is found after a sign or white space. */
  predicate EndDiffersFromStandard(s: string, i: nat, base: int)
    requires CStr(s) && i < |s| && BaseAccepted(base)
  {
    var p := AfterSign(s, i);
    if HexPrefix(s, p, base) then !IsDigit(16, s[p + 2])
    else p != i && !IsDigit(ResolvedBase(s, p, base), s[p])
  }

  /** The code reads the standard's value on every input; its end pointer is the standard's
      exactly when the text is not one of the two families above. */
  lemma ScanMeetsStandard(s: string, i: nat, base: int)
    requires CStr(s) && i < |s| && BaseAccepted(base)
    ensures ScanInteger(s, i, base).Signed() == StandardScan(s, i, base).Signed()
    ensures ScanInteger(s, i, base).end == StandardScan(s, i, base).end <==> !EndDiffersFromStandard(s, i, base)
  {
    if HexPrefix(s, AfterSign(s, i), base) {
      HexScanMeetsStandard(s, i, base);
    } else {
      PlainScanMeetsStandard(s, i, base);
    }
    hide *;
  }

  lemma HexScanMeetsStandard(s: string, i: nat, base: int)
    requires CStr(s) && i < |s| && BaseAccepted(base) && HexPrefix(s, AfterSign(s, i), base)
    ensures ScanInteger(s, i, base).Signed() == StandardScan(s, i, base).Signed()
    ensures ScanInteger(s, i, base).end == StandardScan(s, i, base).end <==> !EndDiffersFromStandard(s, i, base)
  {
    hide AfterSign, SignOf, RunEnd, Value;
    var p := AfterSign(s, i);
    if IsDigit(16, s[p + 2]) {
      RunIsLonger(16, s, p + 2);
      assert StandardScan(s, i, base) == ScanInteger(s, i, base);
    } else {
      LoneHexPrefix(s, p, base);
      assert ScanInteger(s, i, base) == Scan(SignOf(s, i), 0, p + 2);
      assert StandardScan(s, i, base) == Scan(SignOf(s, i), 0, p + 1);
    }
  }

  lemma PlainScanMeetsStandard(s: string, i: nat, base: int)
    requires CStr(s) && i < |s| && BaseAccepted(base) && !HexPrefix(s, AfterSign(s, i), base)
    ensures ScanInteger(s, i, base).Signed() == StandardScan(s, i, base).Signed()
    ensures ScanInteger(s, i, base).end == StandardScan(s, i, base).end <==> !EndDiffersFromStandard(s, i, base)
  {
    hide AfterSign, SignOf, RunEnd, Value, CStr;
    var p := AfterSign(s, i);
    var b := ResolvedBase(s, p, base);
    assert StandardBase(s, p, base) == b;
    RunIsLonger(b, s, p);
    if s[p] == '0' {
      LeadingZero(b, s, p);
    } else if !IsDigit(b, s[p]) {
      NothingRead(b, s[p..p]);
    }
  }

  lemma RunIsLonger(base: int, s: string, p: nat)
    requires CStr(s) && p < |s| && ValidBase(base)
    ensures RunEnd(base, s, p) > p <==> IsDigit(base, s[p])
    ensures !IsDigit(base, s[p]) ==> RunEnd(base, s, p) == p
    ensures s[p] == '0' ==> IsDigit(base, s[p])
  {
  }

  /**
    * What the standard says of strtol's result: the value, or the nearer limit and ERANGE, and behind the last digit
    * the end, but for the two families above; a base outside 0 and 2 to 36 is refused.
    */
  ghost predicate StandardStrtol(s: string, i: nat, base: int, max: int, min: int, r: StrtoResult)
    requires CStr(s) && i < |s|
  {
    if base != 0 && !(2 <= base <= 36) then r == StrtoResult(0, None, Some(EINVAL))
    else
      var (v, end) := (StandardScan(s, i, base).Signed(), StandardScan(s, i, base).end);
      && (v > max ==> r.value == max && r.errno == Some(ERANGE))
      && (v < min ==> r.value == min && r.errno == Some(ERANGE))
      && (min <= v <= max ==> r.value == v && r.errno == None)
      && r.end.Some? && (r.end.value == end <==> !EndDiffersFromStandard(s, i, base))
  }

  /** The same of strtoul: the magnitude saturates, and a value behind a minus sign is negated modulo 2^64. */
  ghost predicate StandardStrtoul(s: string, i: nat, base: int, max: int, r: StrtoResult)
    requires CStr(s) && i < |s|
  {
    if base != 0 && !(2 <= base <= 36) then r == StrtoResult(0, None, Some(EINVAL))
    else
      var scan := StandardScan(s, i, base);
      && (scan.magnitude > max ==> r.value == max && r.errno == Some(ERANGE))
      && (scan.magnitude <= max ==>
            0 <= r.value < TWO_64 && (r.value - scan.Signed()) % TWO_64 == 0 && r.errno == None)
      && r.end.Some? && (r.end.value == scan.end <==> !EndDiffersFromStandard(s, i, base))
  }

  lemma StrtolIsStandard(s: string, i: nat, base: int, max: IntMax, min: IntMax)
    requires CStr(s) && i < |s| && min <= 0 <= max
    ensures StandardStrtol(s, i, base, max, min, StrtolSpec(s, i, base, max, min))
  {
    if BaseAccepted(base) {
      ScanMeetsStandard(s, i, base);
    }
    hide ScanInteger, StandardScan, EndDiffersFromStandard;
  }

  lemma StrtoulIsStandard(s: string, i: nat, base: int, max: UIntMax)
    requires CStr(s) && i < |s|
    ensures StandardStrtoul(s, i, base, max, StrtoulSpec(s, i, base, max))
  {
    if BaseAccepted(base) {
      ScanMeetsStandard(s, i, base);
      hide ScanInteger, StandardScan, EndDiffersFromStandard;
      SameResidue(ScanInteger(s, i, base).Signed());
    }
  }

  lemma SameResidue(v: int)
    ensures (v % TWO_64 - v) % TWO_64 == 0
  {
    var q := v / TWO_64;
    assert v % TWO_64 - v == (0 - q) * TWO_64;
  }

  /** In base 10 there is no prefix, so the run after the sign is read. */
  lemma AtoiScans(s: string)
    requires CStr(s)
    ensures StandardScan(s, 0, 10).Signed() == ScanRun(s, SignOf(s, 0), AfterSign(s, 0), 10).Signed()
  {
    var p := AfterSign(s, 0);
    if RunEnd(10, s, p) == p {
      NothingRead(10, s[p..p]);
    }
    hide Value, RunEnd;
  }

  /** The standard reads the lone "0" in base 8 or 16 and stops before the x. */
  lemma LoneHexPrefix(s: string, p: nat, base: int)
    requires CStr(s) && p < |s| && BaseAccepted(base) && HexPrefix(s, p, base) && !IsDigit(16, s[p + 2])
    ensures
      var b := StandardBase(s, p, base);
      RunEnd(b, s, p) == p + 1 && Value(b, s[p..p + 1]) == 0
    ensures RunEnd(16, s, p + 2) == p + 2 && Value(16, s[p + 2..p + 2]) == 0
  {
    var b := StandardBase(s, p, base);
    assert !IsDigit(b, s[p + 1]);
    LeadingZero(b, s, p);
    assert s[p + 1..p + 1] == "" && s[p + 2..p + 2] == "";
  }

  /** A witness: in "0xg" the code stops before the g and the standard before the x. */
  lemma HexPrefixWithoutDigit()
    ensures ScanInteger("0xg\0", 0, 0).end == 2
    ensures StandardScan("0xg\0", 0, 0).end == 1
  {
    ScanMeetsStandard("0xg\0", 0, 0);
    assert RunEnd(8, "0xg\0", 0) == RunEnd(8, "0xg\0", 1) == 1;
  }

  // ----- The readers -----

  method AtoiStart(s: string, i: nat) returns (sign: Sign, p: nat)
    requires CStr(s) && i < |s|
    ensures sign == SignOf(s, i) && p == AfterSign(s, i)
  {
    p := i;
    while IsSpace(s[p])
      invariant i <= p < |s|
      invariant AfterSpace(s, p) == AfterSpace(s, i)
      decreases |s| - p
    {
      p := p + 1;
    }
    sign := Pos;
    match s[p] {
      case '-' =>
        sign := Neg;
        p := p + 1;
      case '+' =>
        p := p + 1;
      case _ =>
    }
  }

  method StrtoStart(s: string, i: nat, base: Int32)
    returns (sign: Option<Sign>, p: nat, resolved: Int32, errno: Option<Errno>)
    requires CStr(s) && i < |s|
    ensures sign.None? <==> !BaseAccepted(base)
    ensures sign.None? ==> errno == Some(EINVAL) && p == i
    ensures sign.Some? ==>
      && errno == None
      && sign.value == SignOf(s, i)
      && p == DigitsStart(s, AfterSign(s, i), base)
      && resolved == ResolvedBase(s, AfterSign(s, i), base)
  {
    p, resolved, errno := i, base, None;
    if base < 0 || base == 1 || base > 36 {
      errno := Some(EINVAL);
      sign := None;
      return;
    }
    var sg;
    sg, p := AtoiStart(s, i);
    if s[p] == '0' {
      p := p + 1;
      if (base == 0 || base == 16) && (s[p] == 'x' || s[p] == 'X') {
        p := p + 1;
        resolved := 16;
      } else if base == 0 {
        resolved := 8;
      }
    } else if base == 0 {
      resolved := 10;
    }
    sign := Some(sg);
  }

  /** One more digit keeps the value within `max` exactly when the quotient test accepts it. */
  lemma FitsBelow(n: nat, d: nat, base: int, max: nat)
    requires base >= 2 && d < base
    ensures 0 <= n * base
    ensures n * base + d <= max <==> n < max / base || (n == max / base && d <= max % base)
  {
    QuotientTest(n, d, base, max, max / base, max % base);
  }

  lemma QuotientTest(n: nat, d: nat, base: int, max: nat, q: int, r: int)
    requires base >= 2 && d < base && 0 <= r < base && max == q * base + r
    ensures n * base + d <= max <==> n < q || (n == q && d <= r)
  {
    if n < q {
      assert (n + 1) * base <= q * base;
    } else if n > q {
      assert n * base >= (q + 1) * base;
    }
  }

  /** The same for the negative side, where the quotient and the remainder truncate toward zero. */
  lemma FitsAbove(n: int, v: nat, d: nat, base: int, min: int)
    requires base >= 2 && d < base && n == 0 - v && min <= 0
    ensures n * base <= 0
    ensures n * base - d == 0 - (v * base + d)
    ensures n * base - d >= min <==>
      n > TruncDiv(min, base) || (n == TruncDiv(min, base) && d <= TruncMod(min, base) * -1)
  {
    FitsBelow(v, d, base, 0 - min);
    assert n * base == 0 - v * base;
  }

  lemma DigitOrEnd(base: int, s: string, e: nat)
    requires CStr(s) && e < |s| && ValidBase(base)
    ensures if ToBaseN(base, s[e]) == -1 then RunEnd(base, s, e) == e else IsDigit(base, s[e])
  {
  }

  lemma NothingRead(base: int, t: string)
    requires ValidBase(base) && t == ""
    ensures AllDigits(base, t) && Value(base, t) == 0
  {
  }

  /** Reading the digit at `j`: the run goes on, its value grows, and the whole run is worth no less. */
  lemma RunStep(base: int, s: string, i: nat, j: nat)
    requires CStr(s) && i <= j < |s| && ValidBase(base)
    requires AllDigits(base, s[i..j]) && IsDigit(base, s[j])
    requires RunEnd(base, s, i) == RunEnd(base, s, j)
    ensures j + 1 < |s| && AllDigits(base, s[i..j + 1])
    ensures RunEnd(base, s, i) == RunEnd(base, s, j + 1)
    ensures Value(base, s[i..j + 1]) == Value(base, s[i..j]) * base + ToBaseN(base, s[j])
    ensures Value(base, s[i..j + 1]) <= Value(base, s[i..RunEnd(base, s, i)])
  {
    var t, next := s[i..j], s[i..j + 1];
    assert next == t + [s[j]];
    assert next[..|next| - 1] == t;
    var e := RunEnd(base, s, j + 1);
    assert s[i..e] == next + s[j + 1..e];
    ValueOfExtension(base, next, s[j + 1..e]);
  }

  method SkipDigits(s: string, i: nat, base: Int32) returns (e: nat)
    requires CStr(s) && i < |s| && ValidBase(base)
    ensures e == RunEnd(base, s, i)
  {
    e := i;
    while ToBaseN(base, s[e]) != -1
      invariant i <= e < |s| && RunEnd(base, s, e) == RunEnd(base, s, i)
      decreases |s| - e
    {
      e := e + 1;
    }
  }

  /** The digits from `i` to `e` have been read, and are worth `v`. */
  ghost predicate HasRead(base: int, s: string, i: nat, e: nat, v: int) {
    && CStr(s) && i <= e < |s| && ValidBase(base)
    && AllDigits(base, s[i..e]) && RunEnd(base, s, i) == RunEnd(base, s, e)
    && v == Value(base, s[i..e])
  }

  lemma ReadStart(base: int, s: string, i: nat)
    requires CStr(s) && i < |s| && ValidBase(base)
    ensures HasRead(base, s, i, i, 0)
  {
    NothingRead(base, s[i..i]);
  }

  lemma ReadEnd(base: int, s: string, i: nat, e: nat, v: int)
    requires HasRead(base, s, i, e, v) && ToBaseN(base, s[e]) == -1
    ensures e == RunEnd(base, s, i) && v == Value(base, s[i..e])
  {
    DigitOrEnd(base, s, e);
  }

  /** Reading one digit more, by the guard of the loop. */
  lemma PosStep(base: int, s: string, i: nat, e: nat, n: nat, max: nat)
    requires HasRead(base, s, i, e, n) && n <= max && ToBaseN(base, s[e]) != -1
    ensures e + 1 < |s|
    ensures var d := ToBaseN(base, s[e]);
      if n < max / base || (n == max / base && d <= max % base)
      then 0 <= n * base <= n * base + d <= max && HasRead(base, s, i, e + 1, n * base + d)
      else RunEnd(base, s, e + 1) == RunEnd(base, s, i) && Value(base, s[i..RunEnd(base, s, i)]) > max
  {
    FitsBelow(n, ToBaseN(base, s[e]), base, max);
    RunStep(base, s, i, e);
    hide CStr, Value, AllDigits, RunEnd;
  }

  method ReadPosInt(max: UIntMax, base: Int32, s: string, i: nat)
    returns (result: UIntMax, e: nat, overflow: bool)
    requires CStr(s) && i < |s| && ValidBase(base)
    ensures e == RunEnd(base, s, i)
    ensures overflow <==> Value(base, s[i..e]) > max
    ensures result == Min(Value(base, s[i..e]), max)
  {
    ReadStart(base, s, i);
    hide CStr, ToBaseN, Value, RunEnd, HasRead;
    e := i;
    var n: UIntMax := 0;
    overflow := false;
    var maxDiv: UIntMax := max / base;
    var maxMod: UIntMax := max % base;
    while true
      invariant i <= e < |s| && HasRead(base, s, i, e, n) && n <= max && !overflow
      decreases |s| - e
    {
      var d: Int32 := ToBaseN(base, s[e]);
      if d == -1 {
        ReadEnd(base, s, i, e, n);
        break;
      }
      PosStep(base, s, i, e, n, max);
      e := e + 1;
      if n < maxDiv || (n == maxDiv && d <= maxMod) {
        n := n * base;
        n := n + d;
      } else {
        overflow := true;
        n := max;
        e := SkipDigits(s, e, base);
        break;
      }
    }
    result := n;
  }

  /** The same of a value that is kept negated. */
  ghost predicate HasReadNeg(base: int, s: string, i: nat, e: nat, n: int, min: int) {
    HasRead(base, s, i, e, 0 - n) && min <= n
  }

  lemma ReadStartNeg(base: int, s: string, i: nat, min: int)
    requires CStr(s) && i < |s| && ValidBase(base) && min <= 0
    ensures HasReadNeg(base, s, i, i, 0, min)
  {
    ReadStart(base, s, i);
  }

  lemma ReadEndNeg(base: int, s: string, i: nat, e: nat, n: int, min: int)
    requires HasReadNeg(base, s, i, e, n, min) && e < |s| && ValidBase(base) && ToBaseN(base, s[e]) == -1
    ensures e == RunEnd(base, s, i) && min <= n == 0 - Value(base, s[i..e])
  {
    ReadEnd(base, s, i, e, 0 - n);
  }

  lemma NegStep(base: int, s: string, i: nat, e: nat, n: int, min: int)
    requires HasReadNeg(base, s, i, e, n, min) && min <= 0 && ToBaseN(base, s[e]) != -1
    ensures e + 1 < |s|
    ensures var d := ToBaseN(base, s[e]);
      if n > TruncDiv(min, base) || (n == TruncDiv(min, base) && d <= TruncMod(min, base) * -1)
      then min <= n * base - d <= n * base <= 0 && HasReadNeg(base, s, i, e + 1, n * base - d, min)
      else RunEnd(base, s, e + 1) == RunEnd(base, s, i) && 0 - Value(base, s[i..RunEnd(base, s, i)]) < min
  {
    FitsAbove(n, Value(base, s[i..e]), ToBaseN(base, s[e]), base, min);
    RunStep(base, s, i, e);
    hide CStr, Value, AllDigits, RunEnd, TruncDiv, TruncMod;
  }

  method ReadNegInt(min: IntMax, base: Int32, s: string, i: nat)
    returns (result: IntMax, e: nat, overflow: bool)
    requires CStr(s) && i < |s| && ValidBase(base) && min <= 0
    ensures e == RunEnd(base, s, i)
    ensures overflow <==> 0 - Value(base, s[i..e]) < min
    ensures result == Max(0 - Value(base, s[i..e]), min)
  {
    ReadStartNeg(base, s, i, min);
    hide CStr, ToBaseN, Value, RunEnd, HasReadNeg, TruncDiv, TruncMod;
    e := i;
    var n: IntMax := 0;
    overflow := false;
    var maxDiv: IntMax := TruncDiv(min, base);
    var maxMod: IntMax := TruncMod(min, base) * -1;
    while true
      invariant i <= e < |s| && HasReadNeg(base, s, i, e, n, min) && !overflow
      decreases |s| - e
    {
      var d: Int32 := ToBaseN(base, s[e]);
      if d == -1 {
        ReadEndNeg(base, s, i, e, n, min);
        break;
      }
      NegStep(base, s, i, e, n, min);
      e := e + 1;
      if n > maxDiv || (n == maxDiv && d <= maxMod) {
        n := n * base;
        n := n - d;
      } else {
        overflow := true;
        n := min;
        e := SkipDigits(s, e, base);
        break;
      }
    }
    result := n;
  }

  /** atoi, atol and atoll: the signed value when the type can hold it, and 0 otherwise. */
  method Atoi(s: string, max: IntMax, min: IntMax) returns (n: IntMax)
    requires CStr(s) && min <= 0 <= max
    ensures
      var v := StandardScan(s, 0, 10).Signed();
      n == if min <= v <= max then v else 0
  {
    AtoiScans(s);
    hide StandardScan;
    var sign, p := AtoiStart(s, 0);
    if sign == Pos {
      var m, e, overflow := ReadPosInt(max, 10, s, p);
      if overflow {
        return 0;
      }
      return m;
    } else {
      var m, e, overflow := ReadNegInt(min, 10, s, p);
      if overflow {
        return 0;
      }
      return m;
    }
  }

  /** strtol, strtoll and strtoimax, for the limits of their types. */
  method Strtol(s: string, i: nat, base: Int32, max: IntMax, min: IntMax) returns (r: StrtoResult)
    requires CStr(s) && i < |s| && min <= 0 <= max
    ensures r == StrtolSpec(s, i, base, max, min)
    ensures StandardStrtol(s, i, base, max, min, r)
  {
    StrtolIsStandard(s, i, base, max, min);
    hide StandardStrtol;
    var sign, p, b, errno := StrtoStart(s, i, base);
    if sign.None? {
      return StrtoResult(0, None, errno);
    }
    var value: IntMax;
    var e, overflow;
    match sign.value {
      case Pos => value, e, overflow := ReadPosInt(max, b, s, p);
      case Neg => value, e, overflow := ReadNegInt(min, b, s, p);
    }
    if overflow {
      errno := Some(ERANGE);
    }
    return StrtoResult(value, Some(e), errno);
  }

  /** strtoul, strtoull and strtoumax. */
  method Strtoul(s: string, i: nat, base: Int32, max: UIntMax) returns (r: StrtoResult)
    requires CStr(s) && i < |s|
    ensures r == StrtoulSpec(s, i, base, max)
    ensures StandardStrtoul(s, i, base, max, r)
  {
    StrtoulIsStandard(s, i, base, max);
    hide StandardStrtoul, CStr, Value, RunEnd;
    var sign, p, b, errno := StrtoStart(s, i, base);
    if sign.None? {
      return StrtoResult(0, None, errno);
    }
    var n, e, overflow := ReadPosInt(max, b, s, p);
    StrtoulOf(s, i, base, max, sign.value, Value(b, s[p..e]), e);
    hide *;
    if overflow {
      errno := Some(ERANGE);
    } else if sign.value == Neg {
      n := (-n) % TWO_64;
    }
    return StrtoResult(n, Some(e), errno);
  }

  lemma StrtoulOf(s: string, i: nat, base: int, max: UIntMax, sign: Sign, v: nat, e: nat)
    requires CStr(s) && i < |s| && BaseAccepted(base) && ScanInteger(s, i, base) == Scan(sign, v, e)
    ensures StrtoulSpec(s, i, base, max) ==
      if v > max then StrtoResult(max, Some(e), Some(ERANGE))
      else StrtoResult(if sign == Neg then (0 - v) % TWO_64 else v, Some(e), None)
  {
    hide ScanInteger;
  }
}
