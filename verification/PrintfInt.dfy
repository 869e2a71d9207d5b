/** Integer conversions: the layout of sign, prefix, zeros, digits and padding (src/printf.c:102-304). */
module PrintfInt {
  import opened Machine
  import opened Digits
  import opened PrintfSink
  import opened Sequences

  datatype Length = LengthNone | LengthHh | LengthH

  datatype Conv = ConvD | ConvO | ConvU | ConvX | ConvUpperX | ConvC | ConvS | ConvP | ConvN | ConvPercent

  datatype Spec = Spec(
    flagMinus: bool, flagPlus: bool, flagSpace: bool, flagZero: bool, flagNumber: bool,
    widthSet: bool, width: Int32,
    precisionSet: bool, precision: Int32,
    length: Length, conv: Conv)

  predicate IsIntConv(conv: Conv) { conv in {ConvD, ConvO, ConvU, ConvX, ConvUpperX} }

  function Base(conv: Conv): (base: int)
    ensures ValidBase(base) && base >= 8
  {
    match conv
    case ConvO => 8
    case ConvX => 16
    case ConvUpperX => 16
    case _ => 10
  }

  // ----- ISO/IEC 9899:2011, section 7.21.6.1, for the conversions d, o, u, x and X -----

  /** The argument's value; only d reads the word as signed. */
  function ValueOf(conv: Conv, bits: UIntMax): int {
    if conv == ConvD then ToIntMax(bits) else bits
  }

  /** The digits of the absolute value, without leading zeros. */
  function PlainDigits(conv: Conv, bits: UIntMax): string
  {
    var v := ValueOf(conv, bits);
    DigitsOf(Abs(v), Base(conv), conv == ConvUpperX)
  }

  /** The digits after the precision and, for #o, the forced leading zero. */
  function Body(s: Spec, bits: UIntMax): string
  {
    var digits := PlainDigits(s.conv, bits);
    var body := Repeat('0', (if s.precisionSet then s.precision else 1) - |digits|) + digits;
    if s.conv == ConvO && s.flagNumber && (body == "" || body[0] != '0') then "0" + body else body
  }

  datatype PrefixKind = NoPrefix | Minus | Plus | Space | Hex | UpperHex

  /** The sign of a signed conversion, or the 0x of a nonzero alternative form. */
  function KindOf(s: Spec, bits: UIntMax): PrefixKind {
    match s.conv
    case ConvD =>
      if ToIntMax(bits) < 0 then Minus else if s.flagPlus then Plus else if s.flagSpace then Space else NoPrefix
    case ConvX => if s.flagNumber && bits != 0 then Hex else NoPrefix
    case ConvUpperX => if s.flagNumber && bits != 0 then UpperHex else NoPrefix
    case _ => NoPrefix
  }

  function PrefixText(kind: PrefixKind): string {
    match kind
    case NoPrefix => ""
    case Minus => "-"
    case Plus => "+"
    case Space => " "
    case Hex => "0x"
    case UpperHex => "0X"
  }

  function Prefix(s: Spec, bits: UIntMax): string { PrefixText(KindOf(s, bits)) }

  function FieldWidth(s: Spec): int { if s.widthSet then s.width else 0 }

  /** The 0 flag fills the field with zeros unless there is a - flag or a precision. */
  function ZeroFill(s: Spec, bits: UIntMax): string
  {
    if s.flagZero && !s.flagMinus && !s.precisionSet then
      Repeat('0', FieldWidth(s) - |Prefix(s, bits)| - |Body(s, bits)|)
    else ""
  }

  function Core(s: Spec, bits: UIntMax): string
  {
    Prefix(s, bits) + (ZeroFill(s, bits) + Body(s, bits))
  }

  function Blanks(s: Spec, bits: UIntMax): string
  {
    Repeat(' ', FieldWidth(s) - |Core(s, bits)|)
  }

  function IntLayout(s: Spec, bits: UIntMax): string
  {
    if s.flagMinus then Core(s, bits) + Blanks(s, bits) else Blanks(s, bits) + Core(s, bits)
  }

  /** The precision with the bump that #o gives it. */
  function EffectivePrecision(s: Spec, bits: UIntMax): int
  {
    var p := if s.precisionSet then s.precision else 1;
    var n := |PlainDigits(s.conv, bits)|;
    if s.conv == ConvO && s.flagNumber && p <= n then n + 1 else p
  }

  /** Digits do not begin with a zero. */
  lemma {:induction false} NoLeadingZero(n: nat, base: int, upper: bool)
    requires ValidBase(base) && n > 0
    ensures DigitsOf(n, base, upper) != "" && DigitsOf(n, base, upper)[0] != '0'
  {
    DivideSmaller(n, base);
    if n / base > 0 {
      NoLeadingZero(n / base, base, upper);
    } else {
      assert n == n % base > 0;
      assert DigitsOf(0, base, upper) == "";
    }
  }

  /** The body is the digits filled up with zeros to the effective precision. */
  lemma BodyFillsPrecision(s: Spec, bits: UIntMax)
    ensures Body(s, bits) ==
      Repeat('0', EffectivePrecision(s, bits) - |PlainDigits(s.conv, bits)|) + PlainDigits(s.conv, bits)
  {
    var v := ValueOf(s.conv, bits);
    var n := |PlainDigits(s.conv, bits)|;
    var p := if s.precisionSet then s.precision else 1;
    if v != 0 {
      NoLeadingZero(Abs(v), Base(s.conv), s.conv == ConvUpperX);
    }
    if s.conv == ConvO && s.flagNumber && p <= n {
      assert Repeat('0', 1) == "0";
      assert Repeat('0', p - n) == "";
      assert "0" + ("" + PlainDigits(s.conv, bits)) == "0" + PlainDigits(s.conv, bits);
    }
  }

  /** The total length of a converted integer. */
  lemma LayoutLength(s: Spec, bits: UIntMax)
    ensures |IntLayout(s, bits)| ==
      Max(FieldWidth(s),
          |Prefix(s, bits)| + Max(|PlainDigits(s.conv, bits)|, EffectivePrecision(s, bits)))
  {
    BodyFillsPrecision(s, bits);
  }

  // ----- What the text is, without the functions above -----

  /** The digits of `v` from the most significant one on; none for zero. */
  ghost predicate Numeral(digits: string, v: nat, base: int, table: string) {
    && 2 <= base <= |table| && v < Power(base, |digits|) && (digits != "" ==> digits[0] != '0')
    && forall i :: 0 <= i < |digits| ==> IsDigitOf(digits, v, base, table, i)
  }

  ghost predicate IsDigitOf(digits: string, v: nat, base: int, table: string, i: nat)
    requires 2 <= base <= |table| && i < |digits|
  {
    var k := |digits| - 1 - i;
    Power(base, k) > 0 && digits[i] == table[v / Power(base, k) % base]
  }

  /** The sign, or the 0x of a nonzero alternative form. */
  ghost predicate SignText(s: Spec, bits: UIntMax, sign: string) {
    if s.conv == ConvD then
      sign == if bits >= TWO_63 then "-" else if s.flagPlus then "+" else if s.flagSpace then " " else ""
    else
      sign == if !s.flagNumber || bits == 0 then "" else if s.conv == ConvX then "0x"
              else if s.conv == ConvUpperX then "0X" else ""
  }

  ghost predicate NumberOf(conv: Conv, bits: UIntMax, digits: string) {
    match conv
    case ConvD => Numeral(digits, if bits >= TWO_63 then TWO_64 - bits else bits, 10, "0123456789abcdef")
    case ConvU => Numeral(digits, bits, 10, "0123456789abcdef")
    case ConvO => Numeral(digits, bits, 8, "0123456789abcdef")
    case ConvX => Numeral(digits, bits, 16, "0123456789abcdef")
    case ConvUpperX => Numeral(digits, bits, 16, "0123456789ABCDEF")
    case _ => false
  }

  /** As many zeros as the precision and #o ask for, and under the 0 flag as many as fill the field. */
  ghost predicate ZerosOf(s: Spec, signSize: nat, digitCount: nat, zeros: nat) {
    var p := if s.precisionSet then s.precision else 1;
    var least := Max(p - digitCount, if s.conv == ConvO && s.flagNumber then 1 else 0);
    var fill := if s.flagZero && !s.flagMinus && !s.precisionSet then FieldWidth(s) - signSize - digitCount else 0;
    zeros == Max(Max(least, fill), 0)
  }

  /** Blanks in front, or behind under the - flag, that fill the field; the sign, the zeros and the digits. */
  ghost predicate Parts(s: Spec, bits: UIntMax, text: string, blanks: nat, sign: string, zeros: nat, digits: string) {
    && SignText(s, bits, sign) && NumberOf(s.conv, bits, digits) && ZerosOf(s, |sign|, |digits|, zeros)
    && blanks == Max(FieldWidth(s) - |sign| - zeros - |digits|, 0)
    && var core := sign + (Repeat('0', zeros) + digits);
       text == if s.flagMinus then core + Repeat(' ', blanks) else Repeat(' ', blanks) + core
  }

  ghost predicate LaidOut(s: Spec, bits: UIntMax, text: string) {
    exists blanks: nat, sign, zeros: nat, digits :: Parts(s, bits, text, blanks, sign, zeros, digits)
  }

  lemma {:induction false} BelowPower(n: nat, base: int, upper: bool)
    requires ValidBase(base)
    ensures n < Power(base, |DigitsOf(n, base, upper)|)
    decreases n
  {
    if n > 0 {
      DivideSmaller(n, base);
      BelowPower(n / base, base, upper);
      MultipleBounds(n / base + 1, Power(base, |DigitsOf(n / base, base, upper)|), base);
      Distribute(n / base, 1, base);
    }
  }

  lemma DigitsAreNumeral(v: nat, base: int, upper: bool)
    requires 2 <= base <= 16
    ensures Numeral(DigitsOf(v, base, upper), v, base, DigitTable(upper))
  {
    var digits := DigitsOf(v, base, upper);
    BelowPower(v, base, upper);
    if v > 0 {
      NoLeadingZero(v, base, upper);
    }
    assert v == 0 ==> digits == "";
    forall i | 0 <= i < |digits|
      ensures IsDigitOf(digits, v, base, DigitTable(upper), i)
    {
      DigitAt(v, base, upper, i);
    }
    hide DigitsOf, Power, DigitTable, IsDigitOf;
  }

  lemma PlainIsNumber(conv: Conv, bits: UIntMax)
    requires IsIntConv(conv)
    ensures NumberOf(conv, bits, PlainDigits(conv, bits))
  {
    DigitsAreNumeral(Abs(ValueOf(conv, bits)), Base(conv), conv == ConvUpperX);
    hide Numeral, DigitsOf;
  }

  // ----- The code -----

  /** A 64-bit number has at most 22 digits in the bases that printf uses. */
  lemma AtMost22Digits(n: nat, base: int, upper: bool)
    requires n <= TWO_64 && 8 <= base <= 36
    ensures |DigitsOf(n, base, upper)| <= 22
  {
    assert Power(8, 4) == 0x1000;
    assert Power(8, 8) == 0x100_0000;
    assert Power(8, 12) == 0x10_0000_0000;
    assert Power(8, 16) == 0x1_0000_0000_0000;
    assert Power(8, 20) == 0x1000_0000_0000_0000;
    DigitCountBound(n, base, upper, 22);
  }

  lemma {:induction false} CaseKeepsCount(n: nat, base: int)
    requires ValidBase(base)
    ensures |DigitsOf(n, base, true)| == |DigitsOf(n, base, false)|
  {
    if n > 0 {
      DivideSmaller(n, base);
      CaseKeepsCount(n / base, base);
    }
  }

  /** log8_uintmax, log10_uintmax and log16_uintmax. */
  method LogUIntMax(m: UIntMax, base: Int32) returns (l: Int32)
    requires base == 8 || base == 10 || base == 16
    ensures forall upper :: l == |DigitsOf(m, base, upper)|
  {
    AtMost22Digits(m, base, false);
    var n: UIntMax := m;
    l := 0;
    while n != 0
      invariant l + |DigitsOf(n, base, false)| == |DigitsOf(m, base, false)|
      decreases n
    {
      DivideSmaller(n, base);
      n := n / base;
      l := l + 1;
    }
    CaseKeepsCount(m, base);
  }

  /** log10_intmax, which divides a signed number toward zero. */
  method LogIntMax(m: IntMax) returns (l: Int32)
    ensures l == |DigitsOf(Abs(m), 10, false)|
  {
    var n: IntMax := m;
    l := 0;
    AtMost22Digits(Abs(m), 10, false);
    while n != 0
      invariant m < 0 ==> n <= 0
      invariant m >= 0 ==> n >= 0
      invariant l + |DigitsOf(Abs(n), 10, false)| == |DigitsOf(Abs(m), 10, false)|
      decreases Abs(n)
    {
      n := TruncDiv(n, 10);
      l := l + 1;
    }
  }

  lemma LastDigit(n: nat, base: int, upper: bool)
    requires ValidBase(base) && n > 0
    ensures 0 <= n / base < n
    ensures DigitsOf(n, base, upper) == DigitsOf(n / base, base, upper) + [DigitChar(n % base, upper)]
  {
    DivideSmaller(n, base);
  }

  lemma DigitCharIs(n: int, upper: bool)
    requires 0 <= n < 36
    ensures DigitChar(n, upper) ==
      if n < 10 then (n + '0' as int) as char
      else if upper then (n + 'A' as int - 10) as char
      else (n + 'a' as int - 10) as char
  {
  }

  /** The last digit goes in front of those written. */
  lemma DigitInFront(n: nat, base: int, upper: bool, written: string)
    requires ValidBase(base) && n > 0
    ensures 0 <= n / base < n && |DigitsOf(n, base, upper)| > 0
    ensures DigitsOf(n, base, upper) + written ==
      DigitsOf(n / base, base, upper) + ([DigitChar(n % base, upper)] + written)
  {
    LastDigit(n, base, upper);
    Associate(DigitsOf(n / base, base, upper), [DigitChar(n % base, upper)], written);
  }

  /** The same of a signed value, whose quotient and remainder truncate toward zero. */
  lemma SignedDigitInFront(v: int, written: string)
    requires v != 0
    ensures var (q, r) := (TruncDiv(v, 10), TruncMod(v, 10));
      && Abs(q) < Abs(v) && (v < 0 ==> q <= 0) && (v > 0 ==> q >= 0) && Abs(r) < 10
      && |DigitsOf(Abs(v), 10, false)| > 0
      && DigitsOf(Abs(v), 10, false) + written ==
           DigitsOf(Abs(q), 10, false) + ([(Abs(r) + '0' as int) as char] + written)
  {
    hide DigitsOf;
    DigitInFront(Abs(v), 10, false, written);
    assert Abs(TruncDiv(v, 10)) == Abs(v) / 10 && Abs(TruncMod(v, 10)) == Abs(v) % 10;
    DigitCharIs(Abs(v) % 10, false);
  }

  lemma ZeroHasNoDigits(base: int, upper: bool)
    requires ValidBase(base)
    ensures DigitsOf(0, base, upper) == ""
  {
  }

  /** The digit loop on a signed value, whose remainders are negative or zero when the value is. */
  method SignedDigits(buf: array<char>, m: IntMax) returns (cur: nat)
    requires buf.Length == 32
    modifies buf
    ensures cur <= 32 && buf[cur..] == DigitsOf(Abs(m), 10, false)
    ensures Numeral(buf[cur..], Abs(m), 10, DigitTable(false))
  {
    DigitsAreNumeral(Abs(m), 10, false);
    hide DigitsOf, Numeral, DigitTable, DigitChar, TruncDiv, TruncMod;
    ghost var all := DigitsOf(Abs(m), 10, false);
    AtMost22Digits(Abs(m), 10, false);
    var val: IntMax := m;
    cur := 32;
    while val != 0
      invariant cur <= 32
      invariant m < 0 ==> val <= 0
      invariant m >= 0 ==> val >= 0
      invariant DigitsOf(Abs(val), 10, false) + buf[cur..] == all
      decreases Abs(val)
    {
      ghost var written := buf[cur..];
      SignedDigitInFront(val, written);
      var n: Int32 := TruncMod(val, 10);
      val := TruncDiv(val, 10);
      cur := cur - 1;
      buf[cur] := (Abs(n) + '0' as int) as char;
      assert buf[cur..] == [buf[cur]] + written;
    }
    ZeroHasNoDigits(10, false);
  }

  /** The digit loop on an unsigned value in base 8, 10 or 16. */
  method UnsignedDigits(buf: array<char>, m: UIntMax, base: Int32, upper: bool) returns (cur: nat)
    requires buf.Length == 32 && (base == 8 || base == 10 || base == 16)
    modifies buf
    ensures cur <= 32 && buf[cur..] == DigitsOf(m, base, upper)
    ensures Numeral(buf[cur..], m, base, DigitTable(upper))
  {
    DigitsAreNumeral(m, base, upper);
    hide *;
    AtMost22Digits(m, base, upper);
    var val: UIntMax := m;
    cur := 32;
    while val != 0
      invariant cur <= 32
      invariant DigitsOf(val, base, upper) + buf[cur..] == DigitsOf(m, base, upper)
      decreases val
    {
      DigitInFront(val, base, upper, buf[cur..]);
      ghost var written := buf[cur..];
      var n: Int32 := val % base;
      val := val / base;
      DigitCharIs(n, upper);
      cur := cur - 1;
      buf[cur] :=
        if n < 10 then (n + '0' as int) as char
        else if upper then (n + 'A' as int - 10) as char
        else (n + 'a' as int - 10) as char;
      assert buf[cur..] == [buf[cur]] + written;
    }
    ZeroHasNoDigits(base, upper);
  }

  method WriteNumber(info: VprintfInfo, bits: UIntMax, conv: Conv)
    requires info.Valid() && IsIntConv(conv) && info.Fits(|PlainDigits(conv, bits)|)
    modifies info, info.buffer
    ensures info.Valid() && info.rc == old(info.rc)
    ensures info.out == old(info.out) + PlainDigits(conv, bits)
    ensures NumberOf(conv, bits, info.out[|old(info.out)|..])
  {
    PlainIsNumber(conv, bits);
    hide Numeral, NumberOf;
    var buf := new char[32];
    var cur;
    match conv {
      case ConvD => cur := SignedDigits(buf, ToIntMax(bits));
      case ConvO => cur := UnsignedDigits(buf, bits, 8, false);
      case ConvU => cur := UnsignedDigits(buf, bits, 10, false);
      case ConvX => cur := UnsignedDigits(buf, bits, 16, false);
      case ConvUpperX => cur := UnsignedDigits(buf, bits, 16, true);
    }
    info.WriteStr(buf[cur..]);
  }

  /** The digit count, the precision with the #o bump, and the prefix. */
  method Measure(s: Spec, bits: UIntMax) returns (numPrecision: Int32, minPrecision: Int32, prefix: string)
    requires IsIntConv(s.conv)
    ensures numPrecision == |PlainDigits(s.conv, bits)| <= 22
    ensures minPrecision == EffectivePrecision(s, bits)
    ensures prefix == Prefix(s, bits)
  {
    AtMost22Digits(Abs(ValueOf(s.conv, bits)), Base(s.conv), s.conv == ConvUpperX);
    minPrecision := if s.precisionSet then s.precision else 1;
    prefix := "";
    match s.conv {
      case ConvD =>
        numPrecision := LogIntMax(ToIntMax(bits));
        prefix := if ToIntMax(bits) < 0 then "-" else if s.flagPlus then "+" else if s.flagSpace then " " else "";
      case ConvO =>
        numPrecision := LogUIntMax(bits, 8);
        if s.flagNumber {
          if minPrecision <= numPrecision {
            minPrecision := numPrecision + 1;
          }
        }
      case ConvU =>
        numPrecision := LogUIntMax(bits, 10);
      case ConvX =>
        numPrecision := LogUIntMax(bits, 16);
        if s.flagNumber && numPrecision != 0 {
          prefix := "0x";
        }
      case ConvUpperX =>
        numPrecision := LogUIntMax(bits, 16);
        if s.flagNumber && numPrecision != 0 {
          prefix := "0X";
        }
    }
  }

  /** The code's precision, widened to the field by the 0 flag, counts the zeros of the layout. */
  lemma ZerosMatch(s: Spec, bits: UIntMax, precision: int)
    requires
      var base := Max(|PlainDigits(s.conv, bits)|, EffectivePrecision(s, bits));
      precision ==
        if s.flagZero && !s.precisionSet && !s.flagMinus && FieldWidth(s) > base
        then FieldWidth(s) - |Prefix(s, bits)| else base
    ensures Repeat('0', precision - |PlainDigits(s.conv, bits)|) + PlainDigits(s.conv, bits)
         == ZeroFill(s, bits) + Body(s, bits)
    ensures Max(0, FieldWidth(s) - (precision + |Prefix(s, bits)|)) == |Blanks(s, bits)|
  {
    var digits := PlainDigits(s.conv, bits);
    var bodyZeros := EffectivePrecision(s, bits) - |digits|;
    BodyFillsPrecision(s, bits);
    var fill := ZeroFill(s, bits);
    assert |Body(s, bits)| == Max(bodyZeros, 0) + |digits|;
    hide PlainDigits, Prefix, Body, EffectivePrecision;
    assert Repeat('0', precision - |digits|) == fill + Repeat('0', bodyZeros);
    Associate(fill, Repeat('0', bodyZeros), digits);
  }

  /** The layout has the parts that the standard names. */
  lemma LayoutIsLaidOut(s: Spec, bits: UIntMax)
    requires IsIntConv(s.conv)
    ensures LaidOut(s, bits, IntLayout(s, bits))
  {
    var sign, digits := Prefix(s, bits), PlainDigits(s.conv, bits);
    var zeros := |ZeroFill(s, bits)| + |Body(s, bits)| - |digits|;
    PlainIsNumber(s.conv, bits);
    SignIsPrefix(s, bits);
    ZerosAreCounted(s, bits, zeros);
    hide NumberOf, PlainDigits, ZeroFill, Body, Prefix, SignText, ZerosOf;
    assert Parts(s, bits, IntLayout(s, bits), |Blanks(s, bits)|, sign, zeros, digits);
  }

  lemma SignIsPrefix(s: Spec, bits: UIntMax)
    requires IsIntConv(s.conv)
    ensures SignText(s, bits, Prefix(s, bits))
  {
  }

  lemma ZerosAreCounted(s: Spec, bits: UIntMax, zeros: int)
    requires zeros == |ZeroFill(s, bits)| + |Body(s, bits)| - |PlainDigits(s.conv, bits)|
    ensures zeros >= 0 && ZerosOf(s, |Prefix(s, bits)|, |PlainDigits(s.conv, bits)|, zeros)
    ensures ZeroFill(s, bits) + Body(s, bits) == Repeat('0', zeros) + PlainDigits(s.conv, bits)
  {
    BodyFillsPrecision(s, bits);
    var digits, fill := PlainDigits(s.conv, bits), ZeroFill(s, bits);
    var bodyZeros := EffectivePrecision(s, bits) - |digits|;
    hide PlainDigits, Prefix, Body;
    assert Repeat('0', zeros) == fill + Repeat('0', bodyZeros);
    Associate(fill, Repeat('0', bodyZeros), digits);
  }

  ghost predicate HasNone(t: string, bad: string) { forall i :: 0 <= i < |t| ==> t[i] !in bad }

  /** x prints no capital digit and X no small one. */
  lemma DigitsInTheirCase(s: Spec, bits: UIntMax, text: string)
    requires LaidOut(s, bits, text)
    ensures s.conv == ConvX ==> HasNone(text, "ABCDEF")
    ensures s.conv == ConvUpperX ==> HasNone(text, "abcdef")
  {
    var blanks: nat, sign, zeros: nat, digits :| Parts(s, bits, text, blanks, sign, zeros, digits);
    if s.conv == ConvX || s.conv == ConvUpperX {
      var bad := if s.conv == ConvX then "ABCDEF" else "abcdef";
      SignHasNone(s, bits, sign, bad);
      NumeralHasNone(s, bits, digits, bad);
      RepeatHasNone(blanks, zeros, bad);
      hide NumberOf, Repeat, ZerosOf, SignText, HasNone;
      BothHaveNone(Repeat('0', zeros), digits, bad);
      BothHaveNone(sign, Repeat('0', zeros) + digits, bad);
      BothHaveNone(sign + (Repeat('0', zeros) + digits), Repeat(' ', blanks), bad);
      BothHaveNone(Repeat(' ', blanks), sign + (Repeat('0', zeros) + digits), bad);
    }
  }

  lemma BothHaveNone(a: string, b: string, bad: string)
    requires HasNone(a, bad) && HasNone(b, bad)
    ensures HasNone(a + b, bad)
  {
  }

  lemma RepeatHasNone(blanks: nat, zeros: nat, bad: string)
    requires bad == "ABCDEF" || bad == "abcdef"
    ensures HasNone(Repeat(' ', blanks), bad) && HasNone(Repeat('0', zeros), bad)
  {
  }

  lemma SignHasNone(s: Spec, bits: UIntMax, sign: string, bad: string)
    requires SignText(s, bits, sign) && (bad == "ABCDEF" || bad == "abcdef")
    ensures HasNone(sign, bad)
  {
  }

  lemma NumeralHasNone(s: Spec, bits: UIntMax, digits: string, bad: string)
    requires NumberOf(s.conv, bits, digits)
    requires (s.conv == ConvX && bad == "ABCDEF") || (s.conv == ConvUpperX && bad == "abcdef")
    ensures HasNone(digits, bad)
  {
    var table := if s.conv == ConvX then "0123456789abcdef" else "0123456789ABCDEF";
    hide Power, IsDigitOf;
    forall i | 0 <= i < |digits|
      ensures digits[i] !in bad
    {
      TableHasNone(digits, bits, table, i, bad);
    }
  }

  lemma TableHasNone(digits: string, v: nat, table: string, i: nat, bad: string)
    requires (table == "0123456789abcdef" && bad == "ABCDEF") || (table == "0123456789ABCDEF" && bad == "abcdef")
    requires i < |digits| && IsDigitOf(digits, v, 16, table, i)
    ensures digits[i] !in bad
  {
    var d := v / Power(16, |digits| - 1 - i) % 16;
    assert digits[i] == table[d] && 0 <= d < 16;
    hide *;
    assert table[d] !in bad;
  }

  /**
    * The text is the standard's layout; so it has the standard's parts, with the digits in the case of the conversion.
    */
  method OutputInt(info: VprintfInfo, s: Spec, bits: UIntMax)
    requires info.Valid() && info.rc == OK && IsIntConv(s.conv) && info.Fits(|IntLayout(s, bits)|)
    modifies info, info.buffer
    ensures info.Valid() && info.rc == OK
    ensures info.out == old(info.out) + IntLayout(s, bits)
    ensures LaidOut(s, bits, info.out[|old(info.out)|..])
    ensures s.conv == ConvX ==> HasNone(info.out[|old(info.out)|..], "ABCDEF")
    ensures s.conv == ConvUpperX ==> HasNone(info.out[|old(info.out)|..], "abcdef")
  {
    LayoutIsLaidOut(s, bits);
    DigitsInTheirCase(s, bits, IntLayout(s, bits));
    hide LaidOut, HasNone;
    var prefix, padZeros, blanks := Plan(s, bits);
    LayoutSize(s, bits, prefix, padZeros, blanks);
    if !s.flagMinus {
      info.Padding(' ', blanks);
      if info.rc != OK {
        return;
      }
    }
    WriteCore(info, s.conv, bits, prefix, padZeros);
    if info.rc != OK {
      return;
    }
    if s.flagMinus {
      info.Padding(' ', blanks);
      if info.rc != OK {
        return;
      }
    }
    Assemble(old(info.out), info.out, s, bits, prefix, padZeros, blanks);
  }

  /** The layout is as long as the parts that are written. */
  lemma LayoutSize(s: Spec, bits: UIntMax, prefix: string, padZeros: int, blanks: int)
    requires prefix == Prefix(s, bits)
    requires Repeat('0', padZeros) + PlainDigits(s.conv, bits) == ZeroFill(s, bits) + Body(s, bits)
    requires blanks == |Blanks(s, bits)|
    ensures |IntLayout(s, bits)| == |prefix| + Max(padZeros, 0) + |PlainDigits(s.conv, bits)| + blanks
  {
    hide ZeroFill, Body, Blanks, PlainDigits, Prefix;
    var tail := Repeat('0', padZeros) + PlainDigits(s.conv, bits);
    assert |tail| == Max(padZeros, 0) + |PlainDigits(s.conv, bits)|;
  }

  lemma PrefixIsShort(s: Spec, bits: UIntMax)
    ensures |Prefix(s, bits)| <= 2
  {
  }

  /** The sizes of the zero padding and of the blank padding. */
  method Plan(s: Spec, bits: UIntMax) returns (prefix: string, padZeros: Int32, blanks: SizeT)
    requires IsIntConv(s.conv)
    ensures prefix == Prefix(s, bits)
    ensures Repeat('0', padZeros) + PlainDigits(s.conv, bits) == ZeroFill(s, bits) + Body(s, bits)
    ensures blanks == |Blanks(s, bits)|
  {
    hide PlainDigits, EffectivePrecision, Prefix, ZeroFill, Body, Blanks, Repeat;
    var minWidth: Int32 := if s.widthSet then s.width else 0;
    var numPrecision, minPrecision;
    PrefixIsShort(s, bits);
    numPrecision, minPrecision, prefix := Measure(s, bits);
    var precision: Int32 := if numPrecision > minPrecision then numPrecision else minPrecision;
    if s.flagZero && !s.precisionSet && !s.flagMinus && minWidth > precision {
      precision := minWidth - |prefix|;
    }
    var totalSize: SizeT := precision + |prefix|;
    blanks := if minWidth < 0 || minWidth <= totalSize then 0 else minWidth - totalSize;
    padZeros := precision - numPrecision;
    ZerosMatch(s, bits, precision);
  }

  method WriteCore(info: VprintfInfo, conv: Conv, bits: UIntMax, prefix: string, padZeros: Int32)
    requires info.Valid() && info.rc == OK && IsIntConv(conv)
    requires info.Fits(|prefix| + Max(padZeros, 0) + |PlainDigits(conv, bits)|)
    modifies info, info.buffer
    ensures info.Valid() && info.rc == OK
    ensures info.out == old(info.out) + (prefix + (Repeat('0', padZeros) + PlainDigits(conv, bits)))
  {
    if |prefix| != 0 {
      info.WriteStr(prefix);
      if info.rc != OK {
        return;
      }
    }
    assert info.out == old(info.out) + prefix;
    info.Padding('0', padZeros);
    if info.rc != OK {
      return;
    }
    WriteNumber(info, bits, conv);
    Associate(old(info.out) + prefix, Repeat('0', padZeros), PlainDigits(conv, bits));
    Associate(old(info.out), prefix, Repeat('0', padZeros) + PlainDigits(conv, bits));
  }

  lemma Assemble(before: string, after: string, s: Spec, bits: UIntMax, prefix: string, padZeros: int, blanks: int)
    requires prefix == Prefix(s, bits)
    requires Repeat('0', padZeros) + PlainDigits(s.conv, bits) == ZeroFill(s, bits) + Body(s, bits)
    requires blanks == |Blanks(s, bits)|
    requires
      var core := prefix + (Repeat('0', padZeros) + PlainDigits(s.conv, bits));
      after == if s.flagMinus then (before + core) + Repeat(' ', blanks) else (before + Repeat(' ', blanks)) + core
    ensures after == before + IntLayout(s, bits)
  {
    var core, pad := Core(s, bits), Blanks(s, bits);
    assert pad == Repeat(' ', blanks);
    Associate(before, core, pad);
    Associate(before, pad, core);
  }
}
