/** Printing an integer and reading it back (src/printf.c with src/atoi.c). */
module RoundTrip {
  import opened Machine
  import opened Digits
  import opened Atoi
  import opened PrintfInt

  lemma {:induction false} SkipSpaces(s: string, i: nat, j: nat)
    requires CStr(s) && i <= j < |s| && !IsSpace(s[j])
    requires forall k :: i <= k < j ==> IsSpace(s[k])
    ensures AfterSpace(s, i) == j
    decreases j - i
  {
    if i < j {
      SkipSpaces(s, i + 1, j);
    }
  }

  /** In `s`, blanks up to `j`, then an optional sign, an optional hexadecimal prefix and digits of
      base `b` up to `e`; behind them blanks and the NUL. */
  predicate IsField(s: string, j: nat, hasSign: bool, hasHex: bool, e: nat, b: int) {
    && CStr(s) && 8 <= b <= 16
    && DigitsAt(j, hasSign, hasHex) <= e < |s|
    && (forall k :: 0 <= k < j ==> s[k] == ' ')
    && (hasSign ==> s[j] == '-' || s[j] == '+')
    && (hasHex ==> s[SignEnd(j, hasSign)] == '0' && s[SignEnd(j, hasSign) + 1] in {'x', 'X'})
    && (forall k :: DigitsAt(j, hasSign, hasHex) <= k < e ==> IsDigit(b, s[k]))
    && (forall k :: e <= k < |s| - 1 ==> s[k] == ' ')
  }

  function SignEnd(j: nat, hasSign: bool): nat { if hasSign then j + 1 else j }

  function DigitsAt(j: nat, hasSign: bool, hasHex: bool): nat {
    SignEnd(j, hasSign) + if hasHex then 2 else 0
  }

  /** A digit is no white space and no sign. */
  lemma DigitStartsNoBlank(b: int, c: char)
    requires 8 <= b <= 16 && IsDigit(b, c)
    ensures !IsSpace(c) && c != '-' && c != '+' && c != 'x' && c != 'X'
  {
  }

  /** The blanks and the sign of a field are passed over. */
  lemma FieldSign(s: string, j: nat, hasSign: bool, hasHex: bool, e: nat, b: int)
    requires IsField(s, j, hasSign, hasHex, e, b) && DigitsAt(j, hasSign, hasHex) < e
    ensures AfterSign(s, 0) == SignEnd(j, hasSign)
    ensures SignOf(s, 0) == if hasSign && s[j] == '-' then Neg else Pos
  {
    DigitStartsNoBlank(b, s[DigitsAt(j, hasSign, hasHex)]);
    SkipSpaces(s, 0, j);
  }

  /** The digits of a field are one run, ending where the blanks begin. */
  lemma FieldDigits(s: string, j: nat, hasSign: bool, hasHex: bool, e: nat, b: int)
    requires IsField(s, j, hasSign, hasHex, e, b)
    ensures var q := DigitsAt(j, hasSign, hasHex); RunEnd(b, s, q) == e && AllDigits(b, s[q..e])
  {
    var q := DigitsAt(j, hasSign, hasHex);
    assert !IsDigit(b, s[e]);
    RunEndsAt(b, s, q, e);
  }

  /** The base a field is read in: `base` names it, or the text does by 0x or by a leading zero. */
  lemma FieldBase(s: string, j: nat, hasSign: bool, hasHex: bool, e: nat, base: int, b: int)
    requires IsField(s, j, hasSign, hasHex, e, b) && DigitsAt(j, hasSign, hasHex) < e
    requires hasHex ==> b == 16 && (base == 0 || base == 16)
    requires !hasHex ==> base == b || (base == 0 && b == 8 && s[SignEnd(j, hasSign)] == '0')
    ensures var p := SignEnd(j, hasSign);
      && ResolvedBase(s, p, base) == b && (HexPrefix(s, p, base) <==> hasHex)
  {
    var q := DigitsAt(j, hasSign, hasHex);
    if !hasHex && q + 1 < e {
      DigitStartsNoBlank(b, s[q + 1]);
    }
  }

  /** A field with at least one digit is read as its digits' value, up to the end of its digits. */
  lemma FieldScan(s: string, j: nat, hasSign: bool, hasHex: bool, e: nat, base: int, b: int)
    requires IsField(s, j, hasSign, hasHex, e, b) && DigitsAt(j, hasSign, hasHex) < e
    requires hasHex ==> b == 16 && (base == 0 || base == 16)
    requires !hasHex ==> base == b || (base == 0 && b == 8 && s[SignEnd(j, hasSign)] == '0')
    ensures
      var q := DigitsAt(j, hasSign, hasHex);
      && AllDigits(b, s[q..e])
      && ScanInteger(s, 0, base) == Scan(if hasSign && s[j] == '-' then Neg else Pos, Value(b, s[q..e]), e)
  {
    var p := SignEnd(j, hasSign);
    FieldSign(s, j, hasSign, hasHex, e, b);
    FieldDigits(s, j, hasSign, hasHex, e, b);
    FieldBase(s, j, hasSign, hasHex, e, base, b);
    hide Value, AllDigits, RunEnd, AfterSign, SignOf, DigitsStart, ResolvedBase;
    if !hasHex && s[p] == '0' {
      LeadingZero(b, s, p);
    }
  }

  /** A field without digits is read as zero. */
  lemma EmptyFieldScan(s: string, j: nat, hasSign: bool, base: int, b: int)
    requires IsField(s, j, hasSign, false, SignEnd(j, hasSign), b) && BaseAccepted(base)
    ensures ScanInteger(s, 0, base).magnitude == 0
  {
    SkipSpaces(s, 0, if hasSign then j else |s| - 1);
    var p := AfterSign(s, 0);
    assert s[p] == ' ' || s[p] == '\0';
    RunEndsAt(ResolvedBase(s, p, base), s, p, p);
    assert s[p..p] == "";
  }

  // ----- The layout is such a field -----

  function Padded(l: nat, prefix: string, digits: string, r: nat): string {
    (Repeat(' ', l) + (prefix + digits)) + (Repeat(' ', r) + "\0")
  }

  predicate IsSign(kind: PrefixKind) { kind == Minus || kind == Plus }

  predicate IsHex(kind: PrefixKind) { kind == Hex || kind == UpperHex }

  /** Where the sign or the first digit stands; the blank of the space flag is in front of it. */
  function FieldStart(l: nat, kind: PrefixKind): nat { if kind == Space then l + 1 else l }

  /** Where the parts of a padded text stand. */
  predicate PartsAt(text: string, l: nat, prefix: string, digits: string, r: nat) {
    && |text| == l + |prefix| + |digits| + r + 1
    && (forall k :: 0 <= k < l ==> text[k] == ' ')
    && (forall k :: 0 <= k < |prefix| ==> text[l + k] == prefix[k])
    && text[l + |prefix|..l + |prefix| + |digits|] == digits
    && (forall k :: l + |prefix| + |digits| <= k < |text| - 1 ==> text[k] == ' ')
    && text[|text| - 1] == '\0'
  }

  lemma PaddedAt(text: string, l: nat, prefix: string, digits: string, r: nat)
    requires text == Padded(l, prefix, digits, r)
    ensures PartsAt(text, l, prefix, digits, r)
  {
    var front, back := Repeat(' ', l) + (prefix + digits), Repeat(' ', r) + "\0";
    assert text == front + back;
    assert forall k :: 0 <= k < |front| ==> text[k] == front[k];
  }

  /** A field with the digits `digits` that stands for the number `v`, with `r` blanks behind it. */
  predicate FieldOf(text: string, j: nat, kind: PrefixKind, e: nat, r: int, b: int, v: int, digits: string) {
    && IsField(text, j, IsSign(kind), IsHex(kind), e, b)
    && e + r + 1 == |text|
    && text[DigitsAt(j, IsSign(kind), IsHex(kind))..e] == digits
    && AllDigits(b, digits) && Value(b, digits) == Abs(v)
    && (kind == Minus <==> v < 0) && (kind == Minus ==> text[j] == '-') && (kind == Plus ==> text[j] == '+')
  }

  /** A prefix and digits between blanks are a field. */
  lemma PartsAreField(text: string, l: nat, kind: PrefixKind, digits: string, r: nat, b: int, v: int)
    requires PartsAt(text, l, PrefixText(kind), digits, r)
    requires 8 <= b <= 16 && AllDigits(b, digits) && Value(b, digits) == Abs(v) && (kind == Minus <==> v < 0)
    ensures FieldOf(text, FieldStart(l, kind), kind, l + |PrefixText(kind)| + |digits|, r, b, v, digits)
  {
    var prefix := PrefixText(kind);
    var q := l + |prefix|;
    assert |prefix| > 0 ==> text[l + 0] == prefix[0];
    assert |prefix| > 1 ==> text[l + 1] == prefix[1];
    assert DigitsAt(FieldStart(l, kind), IsSign(kind), IsHex(kind)) == q;
    DigitsFrom(text, q, digits, b);
  }

  lemma DigitsFrom(text: string, q: nat, digits: string, b: int)
    requires q + |digits| <= |text| && text[q..q + |digits|] == digits && ValidBase(b) && AllDigits(b, digits)
    ensures forall k :: q <= k < q + |digits| ==> IsDigit(b, text[k]) && text[k] != '\0'
  {
    forall k | q <= k < q + |digits|
      ensures IsDigit(b, text[k]) && text[k] != '\0'
    {
      assert text[q..q + |digits|][k - q] == text[k];
    }
  }

  lemma PaddedIsField(text: string, l: nat, kind: PrefixKind, digits: string, r: nat, b: int, v: int)
    returns (j: nat, e: nat)
    requires text == Padded(l, PrefixText(kind), digits, r)
    requires 8 <= b <= 16 && AllDigits(b, digits) && Value(b, digits) == Abs(v) && (kind == Minus <==> v < 0)
    ensures FieldOf(text, j, kind, e, r, b, v, digits)
  {
    hide *;
    j, e := FieldStart(l, kind), l + |PrefixText(kind)| + |digits|;
    PaddedAt(text, l, PrefixText(kind), digits, r);
    PartsAreField(text, l, kind, digits, r, b, v);
  }

  /** The layout as a C string. */
  function Text(s: Spec, bits: UIntMax): string { IntLayout(s, bits) + "\0" }

  /** The zeros and digits of a converted integer. */
  function DigitText(s: Spec, bits: UIntMax): string { ZeroFill(s, bits) + Body(s, bits) }

  function RightBlanks(s: Spec, bits: UIntMax): nat { if s.flagMinus then |Blanks(s, bits)| else 0 }

  function LeftBlanks(s: Spec, bits: UIntMax): nat { if s.flagMinus then 0 else |Blanks(s, bits)| }

  lemma TextIsPadded(s: Spec, bits: UIntMax)
    ensures Text(s, bits) ==
      Padded(LeftBlanks(s, bits), PrefixText(KindOf(s, bits)), DigitText(s, bits), RightBlanks(s, bits))
  {
    var core, blanks := Core(s, bits), Blanks(s, bits);
    assert blanks == Repeat(' ', |blanks|) && Repeat(' ', 0) == "";
    if s.flagMinus {
      assert (core + blanks) + "\0" == ("" + core) + (blanks + "\0");
    } else {
      assert (blanks + core) + "\0" == (blanks + core) + ("" + "\0");
    }
  }

  lemma DigitTextIsZerosAndDigits(s: Spec, bits: UIntMax) returns (zeros: nat)
    ensures DigitText(s, bits) == Repeat('0', zeros) + PlainDigits(s.conv, bits)
  {
    BodyFillsPrecision(s, bits);
    var digits, fill := PlainDigits(s.conv, bits), ZeroFill(s, bits);
    var bodyZeros := Repeat('0', EffectivePrecision(s, bits) - |digits|);
    zeros := |fill| + |bodyZeros|;
    assert fill + (bodyZeros + digits) == (fill + bodyZeros) + digits;
    assert fill + bodyZeros == Repeat('0', zeros);
  }

  /** The digit text is worth the value, in the conversion's base and, for zero, in every base. */
  lemma DigitTextValue(s: Spec, bits: UIntMax, b: int)
    requires b == Base(s.conv) || (bits == 0 && ValidBase(b))
    ensures AllDigits(b, DigitText(s, bits)) && Value(b, DigitText(s, bits)) == Abs(ValueOf(s.conv, bits))
    ensures bits != 0 ==> DigitText(s, bits) != ""
  {
    ValueBase(s, bits, b);
    hide *;
    var zeros := DigitTextIsZerosAndDigits(s, bits);
    ValueOfDigits(Abs(ValueOf(s.conv, bits)), b, s.conv == ConvUpperX, zeros);
    if DigitText(s, bits) == "" {
      NothingRead(b, DigitText(s, bits));
    }
  }

  lemma ValueBase(s: Spec, bits: UIntMax, b: int)
    requires b == Base(s.conv) || (bits == 0 && ValidBase(b))
    ensures ValidBase(b) && PlainDigits(s.conv, bits) == DigitsOf(Abs(ValueOf(s.conv, bits)), b, s.conv == ConvUpperX)
    ensures Abs(ValueOf(s.conv, bits)) == 0 ==> bits == 0
  {
  }

  /** The text of a zero, and under # the octal text, begins with a zero. */
  lemma ZeroFirst(s: Spec, bits: UIntMax)
    requires DigitText(s, bits) != "" && (bits == 0 || (s.conv == ConvO && s.flagNumber))
    ensures DigitText(s, bits)[0] == '0'
  {
  }

  /** What the prefix says about the conversion and the value. */
  lemma PrefixFacts(s: Spec, bits: UIntMax)
    ensures KindOf(s, bits) == Minus <==> ValueOf(s.conv, bits) < 0
    ensures s.conv == ConvD ==> !IsHex(KindOf(s, bits)) && ValueOf(s.conv, bits) == ToIntMax(bits)
    ensures s.conv != ConvD ==> !IsSign(KindOf(s, bits)) && ValueOf(s.conv, bits) == bits
    ensures s.flagNumber && bits != 0 && (s.conv == ConvX || s.conv == ConvUpperX) ==> IsHex(KindOf(s, bits))
    ensures IsHex(KindOf(s, bits)) ==> Base(s.conv) == 16 && bits != 0
  {
  }

  /** Every printed integer is a field that stands for its value. */
  lemma LayoutIsField(s: Spec, bits: UIntMax, b: int) returns (j: nat, e: nat)
    requires 8 <= b <= 16 && (b == Base(s.conv) || bits == 0)
    ensures FieldOf(Text(s, bits), j, KindOf(s, bits), e, RightBlanks(s, bits), b, ValueOf(s.conv, bits),
                    DigitText(s, bits))
  {
    assert ValidBase(b);
    hide *;
    TextIsPadded(s, bits);
    DigitTextValue(s, bits, b);
    PrefixFacts(s, bits);
    j, e := PaddedIsField(Text(s, bits), LeftBlanks(s, bits), KindOf(s, bits), DigitText(s, bits),
                          RightBlanks(s, bits), b, ValueOf(s.conv, bits));
  }

  // ----- The round trip -----

  /** A reader returned the number without an error and, if there are digits, stopped behind them,
      where the right padding begins. */
  predicate ReadBack(r: StrtoResult, v: int, digits: string, end: int) {
    r.value == v && r.errno == None && (digits != "" ==> r.end.Some? && r.end.value == end)
  }

  /** The scan of a field gives its number, and its end when it has digits. */
  predicate Scanned(scan: Scan, v: int, digits: string, end: int) {
    scan.Signed() == v && (digits != "" ==> scan.end == end)
  }

  lemma ScanField(text: string, j: nat, kind: PrefixKind, e: nat, r: int, v: int, base: int, b: int, digits: string)
    requires FieldOf(text, j, kind, e, r, b, v, digits) && BaseAccepted(base)
    requires IsHex(kind) ==> b == 16 && (base == 0 || base == 16) && digits != ""
    requires !IsHex(kind) && digits != "" ==> base == b || (base == 0 && b == 8 && digits[0] == '0')
    ensures CStr(text) && Scanned(ScanInteger(text, 0, base), v, digits, |text| - 1 - r)
  {
    if digits != "" {
      FieldScan(text, j, IsSign(kind), IsHex(kind), e, base, b);
    } else {
      EmptyFieldScan(text, j, IsSign(kind), base, b);
    }
  }

  lemma StrtolOfScan(text: string, v: IntMax, digits: string, end: int)
    requires CStr(text) && Scanned(ScanInteger(text, 0, 10), v, digits, end)
    ensures ReadBack(StrtolSpec(text, 0, 10, INTMAX_MAX, INTMAX_MIN), v, digits, end)
  {
  }

  lemma StrtoulOfScan(text: string, base: int, v: UIntMax, digits: string, end: int)
    requires CStr(text) && BaseAccepted(base) && Scanned(ScanInteger(text, 0, base), v, digits, end)
    ensures ReadBack(StrtoulSpec(text, 0, base, UINTMAX_MAX), v, digits, end)
  {
  }

  /** strtol reads back every value printed by d, whatever the flags, the width and the precision. */
  lemma SignedRoundTrip(s: Spec, bits: UIntMax)
    requires s.conv == ConvD
    ensures CStr(Text(s, bits))
    ensures ReadBack(StrtolSpec(Text(s, bits), 0, 10, INTMAX_MAX, INTMAX_MIN), ToIntMax(bits),
                     DigitText(s, bits), |Text(s, bits)| - 1 - RightBlanks(s, bits))
  {
    assert Base(s.conv) == 10 && BaseAccepted(10);
    hide *;
    var text, digits, r := Text(s, bits), DigitText(s, bits), RightBlanks(s, bits);
    var j, e := LayoutIsField(s, bits, 10);
    PrefixFacts(s, bits);
    ScanField(text, j, KindOf(s, bits), e, r, ToIntMax(bits), 10, 10, digits);
    StrtolOfScan(text, ToIntMax(bits), digits, |text| - 1 - r);
  }

  /** The bases in which the printed text may be read: its own, and base 0 for the alternative forms. */
  predicate ReadableBase(s: Spec, base: int) {
    base == Base(s.conv) || (base == 0 && s.flagNumber && s.conv != ConvU)
  }

  /** strtoul reads back every value printed by o, u, x and X. */
  lemma UnsignedRoundTrip(s: Spec, bits: UIntMax, base: int)
    requires s.conv in {ConvO, ConvU, ConvX, ConvUpperX} && ReadableBase(s, base)
    ensures CStr(Text(s, bits))
    ensures ReadBack(StrtoulSpec(Text(s, bits), 0, base, UINTMAX_MAX), bits,
                     DigitText(s, bits), |Text(s, bits)| - 1 - RightBlanks(s, bits))
  {
    if base == Base(s.conv) {
      OwnBaseReadsBack(s, bits);
    } else {
      BaseZeroReadsBack(s, bits);
    }
    hide *;
  }

  lemma OwnBaseReadsBack(s: Spec, bits: UIntMax)
    requires s.conv in {ConvO, ConvU, ConvX, ConvUpperX}
    ensures CStr(Text(s, bits))
    ensures ReadBack(StrtoulSpec(Text(s, bits), 0, Base(s.conv), UINTMAX_MAX), bits,
                     DigitText(s, bits), |Text(s, bits)| - 1 - RightBlanks(s, bits))
  {
    var b := Base(s.conv);
    assert BaseAccepted(b) && b <= 16;
    hide *;
    PrefixFacts(s, bits);
    DigitTextValue(s, bits, b);
    var j, e := LayoutIsField(s, bits, b);
    ScanField(Text(s, bits), j, KindOf(s, bits), e, RightBlanks(s, bits), bits, b, b, DigitText(s, bits));
    StrtoulOfScan(Text(s, bits), b, bits, DigitText(s, bits), |Text(s, bits)| - 1 - RightBlanks(s, bits));
  }

  /** A zero printed by %#x carries no 0x; base 0 reads its zeros as octal. */
  lemma BaseZeroReadsBack(s: Spec, bits: UIntMax)
    requires s.conv in {ConvO, ConvX, ConvUpperX} && s.flagNumber
    ensures CStr(Text(s, bits))
    ensures ReadBack(StrtoulSpec(Text(s, bits), 0, 0, UINTMAX_MAX), bits,
                     DigitText(s, bits), |Text(s, bits)| - 1 - RightBlanks(s, bits))
  {
    var b := if bits == 0 then 8 else Base(s.conv);
    assert BaseAccepted(0) && 8 <= b <= 16 && (s.conv == ConvO ==> b == 8);
    hide *;
    PrefixFacts(s, bits);
    DigitTextValue(s, bits, b);
    if DigitText(s, bits) != "" && (bits == 0 || s.conv == ConvO) {
      ZeroFirst(s, bits);
    }
    var j, e := LayoutIsField(s, bits, b);
    ScanField(Text(s, bits), j, KindOf(s, bits), e, RightBlanks(s, bits), bits, 0, b, DigitText(s, bits));
    StrtoulOfScan(Text(s, bits), 0, bits, DigitText(s, bits), |Text(s, bits)| - 1 - RightBlanks(s, bits));
  }
}
