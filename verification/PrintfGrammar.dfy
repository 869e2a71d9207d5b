/** The language of conversion specifications: flags* width? precision? length? conversion. */
module PrintfGrammar {
  import opened Machine
  import opened Digits
  import opened PrintfInt
  import opened PrintfFormat

  datatype Amount = Nothing | Star | Decimal(digits: string)

  /** A specification by its parts; `precision` is None without a period. */
  datatype Directive = Directive(flags: string, width: Amount, precision: Option<Amount>, length: string, conv: char)

  function AmountText(a: Amount): string {
    match a case Nothing => "" case Star => "*" case Decimal(digits) => digits
  }

  function PrecisionText(p: Option<Amount>): string {
    match p case None => "" case Some(a) => "." + AmountText(a)
  }

  predicate DecimalFits(t: string) {
    t != "" && AllDigits(10, t) && Value(10, t) <= 0x7FFF_FFFF
  }

  predicate WidthFits(w: Amount) {
    w.Decimal? ==> DecimalFits(w.digits) && w.digits[0] != '0'
  }

  predicate PrecisionFits(p: Option<Amount>) {
    p.Some? && p.value.Decimal? ==> DecimalFits(p.value.digits)
  }

  predicate IsLength(t: string) { t in {"", "h", "hh", "l", "ll", "j", "z", "t", "L"} }

  predicate PartsFit(d: Directive) {
    && (forall k :: 0 <= k < |d.flags| ==> IsFlag(d.flags[k]))
    && WidthFits(d.width) && PrecisionFits(d.precision) && IsLength(d.length)
  }

  predicate WellFormed(d: Directive) { PartsFit(d) && d.conv in "dioxXucspn%" }

  /** The last character cannot belong to any of the parts before it. */
  predicate Ends(c: char) { c !in "-+ #0123456789*.hljztL" }

  // The text of a directive from each of its parts on.
  function FromLength(d: Directive): string { d.length + [d.conv] }
  function FromPrecision(d: Directive): string { PrecisionText(d.precision) + FromLength(d) }
  function FromWidth(d: Directive): string { AmountText(d.width) + FromPrecision(d) }
  function Render(d: Directive): string { d.flags + FromWidth(d) }

  // ----- What a directive means -----

  function ApplyFlags(s: Spec, flags: string): Spec
    decreases |flags|
  {
    if flags == "" then s else ApplyFlags(SetFlag(s, flags[0]), flags[1..])
  }

  function ApplyWidth(s: Spec, w: Amount, args: seq<Arg>): (Spec, seq<Arg>)
    requires WidthFits(w)
  {
    match w
    case Nothing => (s, args)
    case Star => (StarWidth(s, NextInt(args)), Rest(args))
    case Decimal(t) => (s.(widthSet := true, width := Value(10, t)), args)
  }

  function ApplyPrecision(s: Spec, p: Option<Amount>, args: seq<Arg>): (Spec, seq<Arg>)
    requires PrecisionFits(p)
  {
    match p
    case None => (s, args)
    case Some(Nothing) => (s.(precisionSet := true, precision := 0), args)
    case Some(Star) => (StarPrecision(s, NextInt(args)), Rest(args))
    case Some(Decimal(t)) => (s.(precisionSet := true, precision := Value(10, t)), args)
  }

  function ApplyLength(s: Spec, length: string): Spec {
    if length == "hh" then s.(length := LengthHh)
    else if length == "h" then s.(length := LengthH)
    else s
  }

  function Meaning(d: Directive, args: seq<Arg>): (Spec, seq<Arg>)
    requires WellFormed(d)
  {
    var (s1, args1) := ApplyWidth(ApplyFlags(NO_SPEC, d.flags), d.width, args);
    var (s2, args2) := ApplyPrecision(s1, d.precision, args1);
    (ApplyLength(s2, d.length).(conv := ConvMeant(d.conv)), args2)
  }

  function ConvMeant(c: char): (conv: Conv)
    requires c in "dioxXucspn%"
    ensures ConvOf(c) == Some(conv)
  {
    ConvOfIsDenoted(c);
    ConvOf(c).value
  }

  // ----- Every well-formed directive is accepted with its meaning -----

  /** The text `t` stands in `f` at `i`. */
  predicate At(f: string, i: nat, t: string) {
    i + |t| <= |f| && f[i..i + |t|] == t
  }

  lemma AtSplit(f: string, i: nat, t: string, u: string)
    ensures At(f, i, t + u) <==> At(f, i, t) && At(f, i + |t|, u)
  {
    if At(f, i, t + u) {
      assert f[i..i + |t|] == (t + u)[..|t|];
      assert f[i + |t|..i + |t| + |u|] == (t + u)[|t|..];
    }
    if At(f, i, t) && At(f, i + |t|, u) {
      assert f[i..i + |t + u|] == f[i..i + |t|] + f[i + |t|..i + |t| + |u|];
    }
  }

  lemma AtChar(f: string, i: nat, t: string, k: nat)
    requires At(f, i, t) && k < |t|
    ensures i + k < |f| && f[i + k] == t[k]
  {
    assert f[i..i + |t|][k] == f[i + k];
  }

  lemma ConversionEnds(c: char)
    requires c in "dioxXucspn%"
    ensures Ends(c)
  {
    var k :| 0 <= k < |"dioxXucspn%"| && "dioxXucspn%"[k] == c;
  }

  lemma EndIsNoPart(c: char)
    requires Ends(c)
    ensures c !in {'*', '.', 'h', 'l', 'j', 'z', 't', 'L'} && !IsFlag(c) && !IsDigit(10, c)
  {
    var parts := "-+ #0123456789*.hljztL";
    assert parts[0] == '-' && parts[1] == '+' && parts[2] == ' ' && parts[3] == '#' && parts[4] == '0';
    assert parts[5] == '1' && parts[6] == '2' && parts[7] == '3' && parts[8] == '4' && parts[9] == '5';
    assert parts[10] == '6' && parts[11] == '7' && parts[12] == '8' && parts[13] == '9' && parts[14] == '*';
    assert parts[15] == '.' && parts[16] == 'h' && parts[17] == 'l' && parts[18] == 'j' && parts[19] == 'z';
    assert parts[20] == 't' && parts[21] == 'L';
  }

  lemma AcceptsFromLength(f: string, i: nat, d: Directive, s: Spec, args: seq<Arg>)
    requires CStr(f) && At(f, i, FromLength(d)) && PartsFit(d) && Ends(d.conv)
    ensures i + |d.length| < |f| && f[i + |d.length|] == d.conv
    ensures f[i] !in {'*', '.'} && !IsFlag(f[i]) && !IsDigit(10, f[i])
    ensures ParseLength(f, i, s, args) == ParseConv(f, i + |d.length|, ApplyLength(s, d.length), args)
  {
    var n := |d.length|;
    EndIsNoPart(d.conv);
    AtChar(f, i, FromLength(d), n);
    if n > 0 {
      AtChar(f, i, FromLength(d), 0);
    }
    if n > 1 {
      AtChar(f, i, FromLength(d), 1);
    }
    hide At, RunEnd, Value, WidthFits, PrecisionFits, ParseConv, Ends;
  }

  /** A precision is read up to the text of the length, whose first character belongs to no precision. */
  lemma AcceptsPrecision(f: string, i: nat, p: Option<Amount>, s: Spec, args: seq<Arg>)
    requires CStr(f) && At(f, i, PrecisionText(p)) && PrecisionFits(p)
    requires
      var e := i + |PrecisionText(p)|;
      e < |f| && f[e] !in {'*', '.'} && !IsDigit(10, f[e])
    ensures i < |f| && f[i] != '*' && (p.Some? ==> f[i] == '.')
    ensures
      var (s', args') := ApplyPrecision(s, p, args);
      ParsePrecision(f, i, s, args) == ParseLength(f, i + |PrecisionText(p)|, s', args')
  {
    PeriodText(p);
    hide ParseLength, ParsePrecision, Value, RunEnd, At, CStr, IsDigit, DecimalFits, StarPrecision, NextInt, Rest;
    match p {
      case None => AcceptsNoPrecision(f, i, s, args);
      case Some(Nothing) => AcceptsPeriod(f, i, s, args);
      case Some(Star) => AcceptsPeriodStar(f, i, s, args);
      case Some(Decimal(t)) => AcceptsPeriodDigits(f, i, t, s, args);
    }
  }

  lemma PeriodText(p: Option<Amount>)
    ensures PrecisionText(Some(Nothing)) == "." && PrecisionText(Some(Star)) == ".*"
  {
    assert "." + "" == "." && "." + "*" == ".*";
  }

  lemma AcceptsNoPrecision(f: string, i: nat, s: Spec, args: seq<Arg>)
    requires CStr(f) && i < |f| && f[i] != '.'
    ensures ParsePrecision(f, i, s, args) == ParseLength(f, i, s, args)
  {
    hide ParseLength, Value, RunEnd;
  }

  lemma AcceptsPeriod(f: string, i: nat, s: Spec, args: seq<Arg>)
    requires CStr(f) && At(f, i, ".") && i + 1 < |f| && f[i + 1] != '*' && !IsDigit(10, f[i + 1])
    ensures f[i] == '.'
    ensures ParsePrecision(f, i, s, args) == ParseLength(f, i + 1, s.(precisionSet := true, precision := 0), args)
  {
    AtChar(f, i, ".", 0);
    hide ParseLength, Value, RunEnd, At;
  }

  lemma AcceptsPeriodStar(f: string, i: nat, s: Spec, args: seq<Arg>)
    requires CStr(f) && At(f, i, ".*") && i + 2 < |f|
    ensures f[i] == '.'
    ensures ParsePrecision(f, i, s, args) == ParseLength(f, i + 2, StarPrecision(s, NextInt(args)), Rest(args))
  {
    AtChar(f, i, ".*", 0);
    AtChar(f, i, ".*", 1);
    hide ParseLength, Value, RunEnd, At, StarPrecision, NextInt, Rest;
  }

  lemma AcceptsPeriodDigits(f: string, i: nat, t: string, s: Spec, args: seq<Arg>)
    requires CStr(f) && At(f, i, "." + t) && DecimalFits(t) && i + 1 + |t| < |f| && !IsDigit(10, f[i + 1 + |t|])
    ensures f[i] == '.' && Value(10, t) <= INT_MAX
    ensures ParsePrecision(f, i, s, args) ==
      ParseLength(f, i + 1 + |t|, s.(precisionSet := true, precision := Value(10, t)), args)
  {
    hide ParseLength, Value, RunEnd, At, CStr, IsDigit, DecimalFits;
    PeriodSplit(f, i, t);
    DecimalAt(f, i + 1, t);
  }

  lemma PeriodSplit(f: string, i: nat, t: string)
    ensures At(f, i, "." + t) <==> i < |f| && f[i] == '.' && At(f, i + 1, t)
  {
    AtSplit(f, i, ".", t);
    assert i < |f| ==> f[i..i + 1] == [f[i]];
  }

  lemma DecimalAt(f: string, i: nat, t: string)
    requires At(f, i, t) && DecimalFits(t) && i + |t| < |f| && !IsDigit(10, f[i + |t|])
    ensures RunEnd(10, f, i) == i + |t| && f[i..i + |t|] == t && f[i] == t[0] && '0' <= f[i] <= '9'
    ensures Value(10, t) <= INT_MAX
  {
    DigitsAt(f, i, t);
    hide Value;
  }

  lemma DigitsAt(f: string, i: nat, t: string)
    requires At(f, i, t) && t != "" && AllDigits(10, t) && i + |t| < |f| && !IsDigit(10, f[i + |t|])
    ensures RunEnd(10, f, i) == i + |t| && f[i..i + |t|] == t && f[i] == t[0] && '0' <= f[i] <= '9'
  {
    hide Value;
    assert forall k :: i <= k < i + |t| ==> f[k] == f[i..i + |t|][k - i];
    RunEndsAt(10, f, i, i + |t|);
  }

  lemma AcceptsFromPrecision(f: string, i: nat, d: Directive, s: Spec, args: seq<Arg>)
    requires CStr(f) && At(f, i, FromPrecision(d)) && PartsFit(d) && Ends(d.conv)
    ensures i < |f| && f[i] != '*' && !IsFlag(f[i]) && !IsDigit(10, f[i])
    ensures
      var (s', args') := ApplyPrecision(s, d.precision, args);
      var e := i + |FromPrecision(d)| - 1;
      i <= e < |f| && f[e] == d.conv
      && ParsePrecision(f, i, s, args) == ParseConv(f, e, ApplyLength(s', d.length), args')
  {
    FromLengthSize(d);
    hide ParseLength, ParsePrecision, ParseConv, ApplyPrecision, ApplyLength, FromLength, At, Ends;
    var text := PrecisionText(d.precision);
    AtSplit(f, i, text, FromLength(d));
    var (s', args') := ApplyPrecision(s, d.precision, args);
    AcceptsFromLength(f, i + |text|, d, s', args');
    AcceptsPrecision(f, i, d.precision, s, args);
  }

  /** A width is read up to the text of the precision, which begins with no digit. */
  lemma AcceptsWidth(f: string, i: nat, w: Amount, s: Spec, args: seq<Arg>)
    requires CStr(f) && At(f, i, AmountText(w)) && WidthFits(w)
    requires
      var e := i + |AmountText(w)|;
      e < |f| && f[e] != '*' && !IsDigit(10, f[e]) && !IsFlag(f[e])
    ensures i < |f| && !IsFlag(f[i])
    ensures
      var (s', args') := ApplyWidth(s, w, args);
      ParseWidth(f, i, s, args) == ParsePrecision(f, i + |AmountText(w)|, s', args')
  {
    hide ParsePrecision;
    match w {
      case Nothing =>
      case Star => assert f[i] == f[i..i + 1][0] == '*';
      case Decimal(t) => DecimalAt(f, i, t);
    }
  }

  lemma AcceptsFromWidth(f: string, i: nat, d: Directive, s: Spec, args: seq<Arg>)
    requires CStr(f) && At(f, i, FromWidth(d)) && PartsFit(d) && Ends(d.conv)
    ensures i < |f| && !IsFlag(f[i])
    ensures
      var (s1, args1) := ApplyWidth(s, d.width, args);
      var (s2, args2) := ApplyPrecision(s1, d.precision, args1);
      var e := i + |FromWidth(d)| - 1;
      i <= e < |f| && f[e] == d.conv
      && ParseWidth(f, i, s, args) == ParseConv(f, e, ApplyLength(s2, d.length), args2)
  {
    hide ParsePrecision, ParseWidth, ParseConv, ApplyWidth, ApplyPrecision, ApplyLength, FromPrecision, At, Ends;
    var text := AmountText(d.width);
    AtSplit(f, i, text, FromPrecision(d));
    var (s1, args1) := ApplyWidth(s, d.width, args);
    AcceptsFromPrecision(f, i + |text|, d, s1, args1);
    AcceptsWidth(f, i, d.width, s, args);
  }

  lemma {:induction false} AcceptsFlags(f: string, i: nat, flags: string, s: Spec, args: seq<Arg>)
    requires CStr(f) && At(f, i, flags) && i + |flags| < |f| && !IsFlag(f[i + |flags|])
    requires forall k :: 0 <= k < |flags| ==> IsFlag(flags[k])
    ensures ParseFlags(f, i, s, args) == ParseWidth(f, i + |flags|, ApplyFlags(s, flags), args)
    decreases |flags|
  {
    hide ParseWidth;
    if flags != "" {
      AtSplit(f, i, [flags[0]], flags[1..]);
      assert [flags[0]] + flags[1..] == flags;
      assert f[i] == f[i..i + 1][0] == flags[0];
      AcceptsFlags(f, i + 1, flags[1..], SetFlag(s, flags[0]), args);
    }
  }

  lemma FromLengthSize(d: Directive)
    ensures |FromLength(d)| == |d.length| + 1
  {
  }

  /** Whatever character ends the text, the parser takes it for the conversion. */
  lemma ReadsToTheEnd(f: string, i: nat, d: Directive, args: seq<Arg>)
    requires CStr(f) && PartsFit(d) && Ends(d.conv) && At(f, i, Render(d))
    ensures
      var (s1, args1) := ApplyWidth(ApplyFlags(NO_SPEC, d.flags), d.width, args);
      var (s2, args2) := ApplyPrecision(s1, d.precision, args1);
      var e := i + |Render(d)| - 1;
      i <= e < |f| && f[e] == d.conv
      && ParseSpec(f, i, args) == ParseConv(f, e, ApplyLength(s2, d.length), args2)
  {
    hide ParseWidth, ParseFlags, ParseConv, ApplyFlags, ApplyWidth, ApplyPrecision, ApplyLength, FromWidth, At, Ends;
    AtSplit(f, i, d.flags, FromWidth(d));
    AcceptsFromWidth(f, i + |d.flags|, d, ApplyFlags(NO_SPEC, d.flags), args);
    AcceptsFlags(f, i, d.flags, NO_SPEC, args);
  }

  /** Parsing the text of a directive gives its meaning and uses up exactly that text. */
  lemma AcceptsDirective(f: string, i: nat, d: Directive, args: seq<Arg>)
    requires CStr(f) && WellFormed(d) && At(f, i, Render(d))
    ensures i < |f|
    ensures ParseSpec(f, i, args) == Good(Meaning(d, args).0, i + |Render(d)|, Meaning(d, args).1)
  {
    ConversionEnds(d.conv);
    ReadsToTheEnd(f, i, d, args);
    hide ParseSpec, Render, ApplyFlags, ApplyWidth, ApplyPrecision, ApplyLength, At, Ends, ConvOf;
  }

  /** Any other character that cannot belong to a part before it is refused in the place of the conversion. */
  lemma OtherCharacterFails(f: string, i: nat, d: Directive, args: seq<Arg>)
    requires CStr(f) && PartsFit(d) && Ends(d.conv) && d.conv !in "dioxXucspn%" && At(f, i, Render(d))
    ensures i < |f| && ParseSpec(f, i, args) == Bad(EINVAL)
  {
    ReadsToTheEnd(f, i, d, args);
    ConvOfIsDenoted(d.conv);
    hide ParseSpec, Render, ApplyFlags, ApplyWidth, ApplyPrecision, ApplyLength, At, Ends, ConvOf;
  }

  /** The digits of a number that is no int. */
  predicate TooLarge(t: string) {
    t != "" && AllDigits(10, t) && Value(10, t) > 0x7FFF_FFFF
  }

  /** A width that is no int is a range error, whatever follows its digits. */
  lemma LargeWidthFails(f: string, i: nat, flags: string, t: string, args: seq<Arg>)
    requires CStr(f) && At(f, i, flags + t) && (forall k :: 0 <= k < |flags| ==> IsFlag(flags[k]))
    requires TooLarge(t) && t[0] != '0'
    requires var e := i + |flags| + |t|; e < |f| && !IsDigit(10, f[e])
    ensures ParseSpec(f, i, args) == Bad(ERANGE)
  {
    AtSplit(f, i, flags, t);
    DigitsAt(f, i + |flags|, t);
    hide ParseFlags, ParsePrecision, Value, RunEnd, ApplyFlags, At;
    AcceptsFlags(f, i, flags, NO_SPEC, args);
  }

  /** So is a precision. */
  lemma LargePrecisionFails(f: string, i: nat, flags: string, w: Amount, t: string, args: seq<Arg>)
    requires CStr(f) && At(f, i, flags + (AmountText(w) + ("." + t)))
    requires (forall k :: 0 <= k < |flags| ==> IsFlag(flags[k])) && WidthFits(w) && TooLarge(t)
    requires var e := i + |flags| + |AmountText(w)| + 1 + |t|; e < |f| && !IsDigit(10, f[e])
    ensures ParseSpec(f, i, args) == Bad(ERANGE)
  {
    hide ParseFlags, ParseWidth, ParsePrecision, ApplyFlags, ApplyWidth, At, WidthFits, TooLarge, AmountText, CStr,
      IsDigit, Ends;
    var (j, s, width) := (i + |flags|, ApplyFlags(NO_SPEC, flags), AmountText(w));
    AtSplit(f, i, flags, width + ("." + t));
    AtSplit(f, j, width, "." + t);
    PrecisionFails(f, j + |width|, t, ApplyWidth(s, w, args).0, ApplyWidth(s, w, args).1);
    AcceptsWidth(f, j, w, s, args);
    AcceptsFlags(f, i, flags, NO_SPEC, args);
  }

  lemma PrecisionFails(f: string, i: nat, t: string, s: Spec, args: seq<Arg>)
    requires CStr(f) && At(f, i, "." + t) && TooLarge(t) && i + 1 + |t| < |f| && !IsDigit(10, f[i + 1 + |t|])
    ensures f[i] == '.' && !IsDigit(10, f[i]) && !IsFlag(f[i])
    ensures ParsePrecision(f, i, s, args) == Bad(ERANGE)
  {
    PeriodSplit(f, i, t);
    DigitsAt(f, i + 1, t);
    hide ParseLength, Value, RunEnd, At;
  }

  // ----- What the meaning is, part by part -----

  /** `r` is `s` with the flags set that stand in `flags`. */
  ghost predicate FlagsSay(s: Spec, flags: string, r: Spec) {
    && r == s.(flagMinus := r.flagMinus, flagPlus := r.flagPlus, flagSpace := r.flagSpace, flagZero := r.flagZero,
               flagNumber := r.flagNumber)
    && r.flagMinus == (s.flagMinus || '-' in flags) && r.flagPlus == (s.flagPlus || '+' in flags)
    && r.flagSpace == (s.flagSpace || ' ' in flags) && r.flagZero == (s.flagZero || '0' in flags)
    && r.flagNumber == (s.flagNumber || '#' in flags)
  }

  lemma {:induction false} FlagsMean(s: Spec, flags: string)
    ensures FlagsSay(s, flags, ApplyFlags(s, flags))
    decreases |flags|
  {
    hide FlagsSay, SetFlag;
    if flags == "" {
      NoFlagsSay(s);
    } else {
      FlagsMean(SetFlag(s, flags[0]), flags[1..]);
      OneFlagSays(s, flags[0]);
      MoreFlagsSay(s, flags, SetFlag(s, flags[0]), ApplyFlags(s, flags));
    }
  }

  lemma NoFlagsSay(s: Spec)
    ensures FlagsSay(s, "", s)
  {
  }

  lemma OneFlagSays(s: Spec, c: char)
    ensures FlagsSay(s, [c], SetFlag(s, c))
  {
    assert '-' in [c] <==> c == '-';
    assert '+' in [c] <==> c == '+';
    assert ' ' in [c] <==> c == ' ';
    assert '0' in [c] <==> c == '0';
    assert '#' in [c] <==> c == '#';
  }

  lemma MoreFlagsSay(s: Spec, flags: string, s1: Spec, r: Spec)
    requires flags != "" && FlagsSay(s, [flags[0]], s1) && FlagsSay(s1, flags[1..], r)
    ensures FlagsSay(s, flags, r)
  {
    InTail(flags, '-');
    InTail(flags, '+');
    InTail(flags, ' ');
    InTail(flags, '0');
    InTail(flags, '#');
  }

  lemma InTail(flags: string, c: char)
    requires flags != ""
    ensures c in flags <==> c in [flags[0]] || c in flags[1..]
  {
    assert flags == [flags[0]] + flags[1..];
  }

  /** What the directive says of the width, given the int that a star takes; a negative one is a - flag. */
  ghost predicate WidthSays(s: Spec, w: Amount, arg: int, r: Spec)
    requires WidthFits(w)
  {
    && r == s.(widthSet := !w.Nothing? || s.widthSet, width := r.width,
               flagMinus := s.flagMinus || (w.Star? && arg < 0))
    && match w
       case Nothing => r.width == s.width
       case Star => r.width == if arg < 0 && arg != INT_MIN then 0 - arg else arg
       case Decimal(t) => r.width == Value(10, t)
  }

  lemma WidthMeans(s: Spec, w: Amount, args: seq<Arg>)
    requires WidthFits(w)
    ensures WidthSays(s, w, ToInt32(NextWord(args)), ApplyWidth(s, w, args).0)
    ensures ApplyWidth(s, w, args).1 == if w.Star? then Rest(args) else args
  {
    hide Value, ToInt32, NextWord, Rest, DecimalFits;
  }

  /** The same of the precision; a negative one is none. */
  ghost predicate PrecisionSays(s: Spec, p: Option<Amount>, arg: int, r: Spec)
    requires PrecisionFits(p)
  {
    && r == s.(precisionSet := r.precisionSet, precision := r.precision)
    && match p
       case None => r == s
       case Some(Nothing) => r.precisionSet && r.precision == 0
       case Some(Star) => if arg < 0 then !r.precisionSet else r.precisionSet && r.precision == arg
       case Some(Decimal(t)) => r.precisionSet && r.precision == Value(10, t)
  }

  lemma PrecisionMeans(s: Spec, p: Option<Amount>, args: seq<Arg>)
    requires PrecisionFits(p)
    ensures PrecisionSays(s, p, ToInt32(NextWord(args)), ApplyPrecision(s, p, args).0)
    ensures ApplyPrecision(s, p, args).1 == if p == Some(Star) then Rest(args) else args
  {
    hide Value, ToInt32, NextWord, Rest, DecimalFits;
  }

  /** The meaning from the text: the flags that stand in it, the stars' ints in order, the length, the conversion. */
  ghost predicate Says(d: Directive, args: seq<Arg>, s: Spec, rest: seq<Arg>, s1: Spec, s2: Spec, s3: Spec)
    requires PartsFit(d)
  {
    var args1 := if d.width.Star? then Rest(args) else args;
    && FlagsSay(NO_SPEC, d.flags, s1)
    && WidthSays(s1, d.width, ToInt32(NextWord(args)), s2)
    && PrecisionSays(s2, d.precision, ToInt32(NextWord(args1)), s3)
    && rest == (if d.precision == Some(Star) then Rest(args1) else args1)
    && s == s3.(length := s.length, conv := s.conv)
    && s.length == (if d.length == "hh" then LengthHh else if d.length == "h" then LengthH else LengthNone)
    && Denotes(d.conv, s.conv)
  }

  lemma MeaningIs(d: Directive, args: seq<Arg>) returns (s1: Spec, s2: Spec, s3: Spec)
    requires WellFormed(d)
    ensures Says(d, args, Meaning(d, args).0, Meaning(d, args).1, s1, s2, s3)
  {
    var args1;
    s1 := ApplyFlags(NO_SPEC, d.flags);
    s2, args1 := ApplyWidth(s1, d.width, args).0, ApplyWidth(s1, d.width, args).1;
    s3 := ApplyPrecision(s2, d.precision, args1).0;
    hide ApplyFlags, ApplyWidth, ApplyPrecision, ApplyLength, FlagsSay, WidthSays, PrecisionSays, Denotes, ConvMeant,
      PartsFit, WidthFits, PrecisionFits, NextWord, ToInt32;
    FlagsMean(NO_SPEC, d.flags);
    WidthMeans(s1, d.width, args);
    PrecisionMeans(s2, d.precision, args1);
    FlagsKeepLength(NO_SPEC, d.flags);
    WidthKeepsLength(s1, d.width, args);
    PrecisionKeepsLength(s2, d.precision, args1);
    LengthAndConvMean(s3, d);
  }

  lemma LengthAndConvMean(s: Spec, d: Directive)
    requires WellFormed(d) && s.length == LengthNone
    ensures var r := ApplyLength(s, d.length).(conv := ConvMeant(d.conv));
      && r == s.(length := r.length, conv := r.conv) && Denotes(d.conv, r.conv)
      && r.length == (if d.length == "hh" then LengthHh else if d.length == "h" then LengthH else LengthNone)
  {
    LengthMeans(s, d.length);
    ConvMeantIsDenoted(d.conv);
    hide *;
  }

  lemma LengthMeans(s: Spec, length: string)
    requires s.length == LengthNone
    ensures var r := ApplyLength(s, length);
      && r == s.(length := r.length)
      && r.length == (if length == "hh" then LengthHh else if length == "h" then LengthH else LengthNone)
  {
  }

  lemma ConvMeantIsDenoted(c: char)
    requires c in "dioxXucspn%"
    ensures Denotes(c, ConvMeant(c))
  {
    ConvOfIsDenoted(c);
    hide Denotes, ConvOf;
  }

  // ----- Whatever is accepted is a well-formed directive -----

  lemma StandsAt(f: string, i: nat, t: string)
    requires i + |t| <= |f| && forall k :: 0 <= k < |t| ==> f[i + k] == t[k]
    ensures At(f, i, t)
  {
    forall k | 0 <= k < |t|
      ensures f[i..i + |t|][k] == t[k]
    {
      assert f[i + k] == t[k];
    }
  }

  lemma SoundLength(f: string, i: nat, s: Spec, args: seq<Arg>) returns (length: string, e: nat)
    requires CStr(f) && i < |f| && ParseLength(f, i, s, args).Good?
    ensures IsLength(length) && At(f, i, length) && e == i + |length| < |f| && f[e] in "dioxXucspn%"
    ensures ParseLength(f, i, s, args).end == e + 1
  {
    hide ConvOf;
    length := match f[i]
      case 'h' => if f[i + 1] == 'h' then "hh" else "h"
      case 'l' => if f[i + 1] == 'l' then "ll" else "l"
      case 'j' => "j" case 'z' => "z" case 't' => "t" case 'L' => "L"
      case _ => "";
    e := i + |length|;
    StandsAt(f, i, length);
    ConvOfIsDenoted(f[e]);
  }

  lemma SoundPrecision(f: string, i: nat, s: Spec, args: seq<Arg>)
    returns (p: Option<Amount>, s': Spec, args': seq<Arg>, e: nat)
    requires CStr(f) && i < |f| && ParsePrecision(f, i, s, args).Good?
    ensures PrecisionFits(p) && At(f, i, PrecisionText(p)) && e == i + |PrecisionText(p)| < |f|
    ensures ParsePrecision(f, i, s, args) == ParseLength(f, e, s', args')
  {
    hide ParseLength, Value, RunEnd, IsDigit, AllDigits, StarPrecision, NextInt, Rest, At, DecimalFits;
    e, s', args' := i, s, args;
    if f[i] != '.' {
      p := None;
      AtNothing(f, i);
    } else if f[i + 1] == '*' {
      p, e, s', args' := Some(Star), i + 2, StarPrecision(s, NextInt(args)), Rest(args);
      PeriodSplit(f, i, "*");
      AtOne(f, i + 1);
    } else if '0' <= f[i + 1] <= '9' {
      var t;
      e, t := SoundDecimal(f, i + 1);
      p, s' := Some(Decimal(t)), s.(precisionSet := true, precision := Value(10, t));
      PeriodSplit(f, i, t);
    } else {
      p, e, s' := Some(Nothing), i + 1, s.(precisionSet := true, precision := 0);
      PeriodSplit(f, i, "");
      AtNothing(f, i + 1);
    }
  }

  lemma AtNothing(f: string, i: nat)
    requires i <= |f|
    ensures At(f, i, "")
  {
  }

  lemma AtOne(f: string, i: nat)
    requires i < |f|
    ensures At(f, i, [f[i]])
  {
  }

  /** The digits that a number begins with. */
  lemma SoundDecimal(f: string, i: nat) returns (e: nat, t: string)
    requires CStr(f) && i < |f| && '0' <= f[i] <= '9'
    ensures e == RunEnd(10, f, i) == i + |t| < |f| && t == f[i..e] && At(f, i, t) && t[0] == f[i]
    ensures t != "" && AllDigits(10, t) && (Value(10, t) <= INT_MAX ==> DecimalFits(t))
  {
    hide Value;
    RunIsNotEmpty(f, i);
    e := RunEnd(10, f, i);
    t := f[i..e];
  }

  lemma RunIsNotEmpty(f: string, i: nat)
    requires CStr(f) && i < |f| && '0' <= f[i] <= '9'
    ensures i < RunEnd(10, f, i) < |f|
  {
    var e := RunEnd(10, f, i);
    assert IsDigit(10, f[i]);
    forall k | i <= k < e
      ensures IsDigit(10, f[k])
    {
      assert f[i..e][k - i] == f[k];
    }
  }

  lemma SoundWidth(f: string, i: nat, s: Spec, args: seq<Arg>)
    returns (w: Amount, s': Spec, args': seq<Arg>, e: nat)
    requires CStr(f) && i < |f| && ParseWidth(f, i, s, args).Good?
    ensures WidthFits(w) && At(f, i, AmountText(w)) && e == i + |AmountText(w)| < |f|
    ensures ParseWidth(f, i, s, args) == ParsePrecision(f, e, s', args')
  {
    hide ParsePrecision, Value, RunEnd, IsDigit, AllDigits, StarWidth, NextInt, Rest, At, DecimalFits;
    w, e, s', args' := Nothing, i, s, args;
    if f[i] == '*' {
      w, e, s', args' := Star, i + 1, StarWidth(s, NextInt(args)), Rest(args);
      AtOne(f, i);
    } else if '1' <= f[i] <= '9' {
      var t;
      e, t := SoundDecimal(f, i);
      w, s' := Decimal(t), s.(widthSet := true, width := Value(10, t));
    } else {
      AtNothing(f, i);
    }
  }

  lemma {:induction false} SoundFlags(f: string, i: nat, s: Spec, args: seq<Arg>)
    returns (flags: string, s': Spec, e: nat)
    requires CStr(f) && i < |f|
    ensures (forall k :: 0 <= k < |flags| ==> IsFlag(flags[k])) && At(f, i, flags) && e == i + |flags| < |f|
    ensures ParseFlags(f, i, s, args) == ParseWidth(f, e, s', args)
    decreases |f| - i
  {
    hide ParseWidth;
    if IsFlag(f[i]) {
      flags, s', e := SoundFlags(f, i + 1, SetFlag(s, f[i]), args);
      assert f[i..i + 1 + |flags|] == [f[i]] + flags;
      flags := [f[i]] + flags;
    } else {
      flags, s', e := "", s, i;
    }
  }

  lemma PartsMakeDirective(f: string, i: nat, d: Directive, e1: nat, e2: nat, e3: nat, e: nat)
    requires forall k :: 0 <= k < |d.flags| ==> IsFlag(d.flags[k])
    requires WidthFits(d.width) && PrecisionFits(d.precision) && IsLength(d.length) && d.conv in "dioxXucspn%"
    requires At(f, i, d.flags) && e1 == i + |d.flags|
    requires At(f, e1, AmountText(d.width)) && e2 == e1 + |AmountText(d.width)|
    requires At(f, e2, PrecisionText(d.precision)) && e3 == e2 + |PrecisionText(d.precision)|
    requires At(f, e3, d.length) && e == e3 + |d.length| < |f| && f[e] == d.conv
    ensures WellFormed(d) && At(f, i, Render(d)) && e + 1 == i + |Render(d)|
  {
    hide *;
    FlagsAndPartsFit(d);
    AtOne(f, e);
    AtBoth(f, e3, d.length, [d.conv]);
    AtBoth(f, e2, PrecisionText(d.precision), d.length + [d.conv]);
    AtBoth(f, e1, AmountText(d.width), PrecisionText(d.precision) + (d.length + [d.conv]));
    AtBoth(f, i, d.flags, AmountText(d.width) + (PrecisionText(d.precision) + (d.length + [d.conv])));
    RenderIs(d);
  }

  lemma AtBoth(f: string, i: nat, t: string, u: string)
    requires At(f, i, t) && At(f, i + |t|, u)
    ensures At(f, i, t + u)
  {
    AtSplit(f, i, t, u);
  }

  lemma RenderIs(d: Directive)
    ensures Render(d) == d.flags + (AmountText(d.width) + (PrecisionText(d.precision) + (d.length + [d.conv])))
    ensures |Render(d)| == |d.flags| + |AmountText(d.width)| + |PrecisionText(d.precision)| + |d.length| + 1
  {
    hide AmountText, PrecisionText;
  }

  lemma FlagsAndPartsFit(d: Directive)
    requires forall k :: 0 <= k < |d.flags| ==> IsFlag(d.flags[k])
    requires WidthFits(d.width) && PrecisionFits(d.precision) && IsLength(d.length) && d.conv in "dioxXucspn%"
    ensures WellFormed(d)
  {
    hide WidthFits, PrecisionFits, IsLength, ConvOf, IsFlag;
  }

  lemma AcceptedIsDirective(f: string, i: nat, args: seq<Arg>) returns (d: Directive)
    requires CStr(f) && i < |f| && ParseSpec(f, i, args).Good?
    ensures WellFormed(d) && At(f, i, Render(d))
    ensures ParseSpec(f, i, args).end == i + |Render(d)|
  {
    assert ParseSpec(f, i, args) == ParseFlags(f, i, NO_SPEC, args);
    hide *;
    var flags, s1, e1 := SoundFlags(f, i, NO_SPEC, args);
    var w, s2, args2, e2 := SoundWidth(f, e1, s1, args);
    var p, s3, args3, e3 := SoundPrecision(f, e2, s2, args2);
    var length, e := SoundLength(f, e3, s3, args3);
    d := Directive(flags, w, p, length, f[e]);
    PartsMakeDirective(f, i, d, e1, e2, e3, e);
  }

  /** The text behind a percent sign is accepted exactly when it begins with a well-formed directive. */
  lemma AcceptsExactlyDirectives(f: string, i: nat, args: seq<Arg>)
    requires CStr(f) && i < |f|
    ensures ParseSpec(f, i, args).Good? <==> exists d :: WellFormed(d) && At(f, i, Render(d))
  {
    if ParseSpec(f, i, args).Good? {
      var d := AcceptedIsDirective(f, i, args);
    }
    if d :| WellFormed(d) && At(f, i, Render(d)) {
      AcceptsDirective(f, i, d, args);
    }
  }

  // ----- Specifications as text -----

  /** A specification that a text without stars can denote. */
  predicate Writable(s: Spec) {
    && (if s.widthSet then s.width > 0 else s.width == 0)
    && (if s.precisionSet then s.precision >= 0 else s.precision == 0)
  }

  function ConvChar(conv: Conv): (c: char)
    ensures ConvOf(c) == Some(conv)
  {
    match conv
    case ConvD => 'd' case ConvO => 'o' case ConvU => 'u' case ConvX => 'x' case ConvUpperX => 'X'
    case ConvC => 'c' case ConvS => 's' case ConvP => 'p' case ConvN => 'n' case ConvPercent => '%'
  }

  function FlagText(on: bool, c: char): string { if on then [c] else "" }

  function FlagsText(s: Spec): string {
    FlagText(s.flagMinus, '-') + (FlagText(s.flagPlus, '+') + (FlagText(s.flagSpace, ' ')
    + (FlagText(s.flagZero, '0') + (FlagText(s.flagNumber, '#') + ""))))
  }

  function WidthOf(s: Spec): Amount
    requires Writable(s)
  {
    if s.widthSet then Decimal(DigitsOf(s.width, 10, false)) else Nothing
  }

  function PrecisionOf(s: Spec): Option<Amount>
    requires Writable(s)
  {
    if !s.precisionSet then None
    else if s.precision == 0 then Some(Nothing)
    else Some(Decimal(DigitsOf(s.precision, 10, false)))
  }

  function LengthText(length: Length): string {
    match length case LengthNone => "" case LengthH => "h" case LengthHh => "hh"
  }

  function DirectiveOf(s: Spec): Directive
    requires Writable(s)
  {
    Directive(FlagsText(s), WidthOf(s), PrecisionOf(s), LengthText(s.length), ConvChar(s.conv))
  }

  lemma DecimalOf(n: nat)
    requires 0 < n <= INT_MAX
    ensures
      var t := DigitsOf(n, 10, false);
      DecimalFits(t) && t[0] != '0' && Value(10, t) == n
  {
    ValueOfDigits(n, 10, false, 0);
    assert Repeat('0', 0) + DigitsOf(n, 10, false) == DigitsOf(n, 10, false);
    NoLeadingZero(n, 10, false);
  }

  lemma ApplyFlag(s: Spec, on: bool, c: char, more: string)
    ensures ApplyFlags(s, FlagText(on, c) + more) == ApplyFlags(if on then SetFlag(s, c) else s, more)
  {
    if on {
      assert ([c] + more)[1..] == more;
    } else {
      assert "" + more == more;
    }
  }

  /** The flags of `s` and nothing else. */
  function FlagsOnly(s: Spec): Spec {
    NO_SPEC.(flagMinus := s.flagMinus, flagPlus := s.flagPlus, flagSpace := s.flagSpace,
             flagZero := s.flagZero, flagNumber := s.flagNumber)
  }

  lemma FlagsTextMeans(s: Spec)
    ensures ApplyFlags(NO_SPEC, FlagsText(s)) == FlagsOnly(s)
  {
    var n := FlagText(s.flagNumber, '#') + "";
    var z := FlagText(s.flagZero, '0') + n;
    var b := FlagText(s.flagSpace, ' ') + z;
    var p := FlagText(s.flagPlus, '+') + b;
    var s1 := NO_SPEC.(flagMinus := s.flagMinus);
    var s2 := s1.(flagPlus := s.flagPlus);
    var s3 := s2.(flagSpace := s.flagSpace);
    var s4 := s3.(flagZero := s.flagZero);
    assert ApplyFlags(s4.(flagNumber := s.flagNumber), "") == FlagsOnly(s);
    hide ApplyFlags, FlagText;
    ApplyFlag(NO_SPEC, s.flagMinus, '-', p);
    ApplyFlag(s1, s.flagPlus, '+', b);
    ApplyFlag(s2, s.flagSpace, ' ', z);
    ApplyFlag(s3, s.flagZero, '0', n);
    ApplyFlag(s4, s.flagNumber, '#', "");
  }

  lemma FlagsTextIsFlags(s: Spec)
    ensures forall k :: 0 <= k < |FlagsText(s)| ==> IsFlag(FlagsText(s)[k])
  {
  }

  lemma WidthOfMeans(s: Spec, s1: Spec, args: seq<Arg>)
    requires Writable(s) && s1.width == 0 && !s1.widthSet
    ensures WidthFits(WidthOf(s))
    ensures ApplyWidth(s1, WidthOf(s), args) == (s1.(widthSet := s.widthSet, width := s.width), args)
  {
    if s.widthSet {
      DecimalOf(s.width);
    }
  }

  lemma PrecisionOfMeans(s: Spec, s1: Spec, args: seq<Arg>)
    requires Writable(s) && s1.precision == 0 && !s1.precisionSet
    ensures PrecisionFits(PrecisionOf(s))
    ensures ApplyPrecision(s1, PrecisionOf(s), args) ==
      (s1.(precisionSet := s.precisionSet, precision := s.precision), args)
  {
    if s.precisionSet && s.precision > 0 {
      DecimalOf(s.precision);
    }
  }

  lemma LengthTextMeans(s: Spec, s1: Spec)
    requires s1.length == LengthNone
    ensures IsLength(LengthText(s.length)) && ApplyLength(s1, LengthText(s.length)) == s1.(length := s.length)
  {
  }

  lemma DirectiveOfMeans(s: Spec, args: seq<Arg>)
    requires Writable(s)
    ensures WellFormed(DirectiveOf(s)) && Meaning(DirectiveOf(s), args) == (s, args)
  {
    hide FlagsText, WidthOf, PrecisionOf, LengthText, ApplyWidth, ApplyPrecision, ApplyLength, ApplyFlags,
      WidthFits, PrecisionFits, IsLength, IsFlag, ConvOf;
    var s1 := FlagsOnly(s);
    var s2 := s1.(widthSet := s.widthSet, width := s.width);
    var s3 := s2.(precisionSet := s.precisionSet, precision := s.precision);
    FlagsTextIsFlags(s);
    FlagsTextMeans(s);
    WidthOfMeans(s, s1, args);
    PrecisionOfMeans(s, s2, args);
    LengthTextMeans(s, s3);
  }

  /** Writing a specification as text and parsing it gives the specification back, from exactly that text. */
  lemma WrittenSpecReadsBack(s: Spec, f: string, i: nat, args: seq<Arg>)
    requires Writable(s) && CStr(f) && At(f, i, Render(DirectiveOf(s)))
    ensures i < |f|
    ensures ParseSpec(f, i, args) == Good(s, i + |Render(DirectiveOf(s))|, args)
  {
    DirectiveOfMeans(s, args);
    hide WellFormed, Meaning, DirectiveOf, Render, ParseSpec, At;
    AcceptsDirective(f, i, DirectiveOf(s), args);
  }

  /** The modifiers l, ll, j, z, t and L change nothing: the argument is read as an int. */
  lemma LongModifiersAreIgnored(d: Directive, args: seq<Arg>)
    requires WellFormed(d) && d.length in {"l", "ll", "j", "z", "t", "L"}
    ensures Meaning(d, args) == Meaning(d.(length := ""), args)
  {
  }

  /** Only hh and h leave a length behind. */
  lemma MeaningHasNoLength(d: Directive, args: seq<Arg>)
    requires WellFormed(d) && d.length !in {"h", "hh"}
    ensures Meaning(d, args).0.length == LengthNone && Meaning(d, args).0.conv == ConvOf(d.conv).value
  {
    hide Value, ApplyFlags, ApplyWidth, ApplyPrecision;
    var s := ApplyFlags(NO_SPEC, d.flags);
    var (s1, args1) := ApplyWidth(s, d.width, args);
    FlagsKeepLength(NO_SPEC, d.flags);
    WidthKeepsLength(s, d.width, args);
    PrecisionKeepsLength(s1, d.precision, args1);
  }

  lemma WidthKeepsLength(s: Spec, w: Amount, args: seq<Arg>)
    requires WidthFits(w)
    ensures ApplyWidth(s, w, args).0.length == s.length
  {
    hide Value, NextInt, DecimalFits;
  }

  lemma PrecisionKeepsLength(s: Spec, p: Option<Amount>, args: seq<Arg>)
    requires PrecisionFits(p)
    ensures ApplyPrecision(s, p, args).0.length == s.length
  {
    hide Value, NextInt, DecimalFits;
  }

  lemma {:induction false} FlagsKeepLength(s: Spec, flags: string)
    ensures ApplyFlags(s, flags).length == s.length
    decreases |flags|
  {
    hide SetFlag;
    if flags != "" {
      FlagKeepsLength(s, flags[0]);
      FlagsKeepLength(SetFlag(s, flags[0]), flags[1..]);
    }
  }

  lemma FlagKeepsLength(s: Spec, c: char)
    ensures SetFlag(s, c).length == s.length
  {
    match c {
      case '-' =>
      case '+' =>
      case ' ' =>
      case '0' =>
      case '#' =>
      case _ =>
    }
  }
}
