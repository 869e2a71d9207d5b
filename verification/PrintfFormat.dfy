/** The parser of conversion specifications (src/printf.c:306-498). */
module PrintfFormat {
  import opened Machine
  import opened Digits
  import opened Atoi
  import opened PrintfSink
  import opened PrintfInt

  /** The characters of a C string, without its NUL. */
  type Chars = s: string | '\0' !in s

  /** One slot of the argument list: a number, or a pointer to a string. */
  datatype Arg = Number(bits: UIntMax) | Pointer(address: UIntMax, str: Chars)

  /** The word in the next slot. Reading past the last slot is undefined in C; here it gives 0. */
  function NextWord(args: seq<Arg>): UIntMax {
    if args == [] then 0 else match args[0] case Number(bits) => bits case Pointer(address, _) => address
  }

  function NextInt(args: seq<Arg>): Int32 { ToInt32(NextWord(args)) }

  function Rest(args: seq<Arg>): seq<Arg> { if args == [] then [] else args[1..] }

  const NO_SPEC := Spec(false, false, false, false, false, false, 0, false, 0, LengthNone, ConvD)

  // ----- The grammar, one function for each part -----

  datatype Parsed = Bad(errno: Errno) | Good(spec: Spec, end: nat, rest: seq<Arg>)

  predicate IsFlag(c: char) { c in {'-', '+', ' ', '0', '#'} }

  function SetFlag(s: Spec, c: char): Spec {
    match c
    case '-' => s.(flagMinus := true)
    case '+' => s.(flagPlus := true)
    case ' ' => s.(flagSpace := true)
    case '0' => s.(flagZero := true)
    case '#' => s.(flagNumber := true)
    case _ => s
  }

  function ConvOf(c: char): Option<Conv> {
    match c
    case 'd' => Some(ConvD)
    case 'i' => Some(ConvD)
    case 'o' => Some(ConvO)
    case 'u' => Some(ConvU)
    case 'x' => Some(ConvX)
    case 'X' => Some(ConvUpperX)
    case 'c' => Some(ConvC)
    case 's' => Some(ConvS)
    case 'p' => Some(ConvP)
    case 'n' => Some(ConvN)
    case '%' => Some(ConvPercent)
    case _ => None
  }

  /** Which conversion a character asks for. */
  ghost predicate Denotes(c: char, conv: Conv) {
    match conv
    case ConvD => c == 'd' || c == 'i'
    case ConvO => c == 'o'
    case ConvU => c == 'u'
    case ConvX => c == 'x'
    case ConvUpperX => c == 'X'
    case ConvC => c == 'c'
    case ConvS => c == 's'
    case ConvP => c == 'p'
    case ConvN => c == 'n'
    case ConvPercent => c == '%'
  }

  lemma ConvOfIsDenoted(c: char)
    ensures ConvOf(c).Some? <==> c in "dioxXucspn%"
    ensures ConvOf(c).Some? ==> Denotes(c, ConvOf(c).value)
  {
    if c in "dioxXucspn%" {
      assert exists k :: 0 <= k < 11 && "dioxXucspn%"[k] == c;
    }
  }

  /** A negative argument for * is a - flag and a width; negating INT_MIN wraps around to itself. */
  function StarWidth(s: Spec, w: Int32): Spec {
    if w < 0 then s.(widthSet := true, flagMinus := true, width := if w == INT_MIN then INT_MIN else -w)
    else s.(widthSet := true, width := w)
  }

  /** A negative argument for .* is as if no precision had been given. */
  function StarPrecision(s: Spec, p: Int32): Spec { s.(precisionSet := p >= 0, precision := p) }

  function ParseFlags(f: string, i: nat, s: Spec, args: seq<Arg>): (r: Parsed)
    requires CStr(f) && i < |f|
    ensures r.Good? ==> i < r.end < |f|
    decreases |f| - i
  {
    if IsFlag(f[i]) then ParseFlags(f, i + 1, SetFlag(s, f[i]), args) else ParseWidth(f, i, s, args)
  }

  function ParseWidth(f: string, i: nat, s: Spec, args: seq<Arg>): (r: Parsed)
    requires CStr(f) && i < |f|
    ensures r.Good? ==> i < r.end < |f|
  {
    if f[i] == '*' then
      ParsePrecision(f, i + 1, StarWidth(s, NextInt(args)), Rest(args))
    else if '1' <= f[i] <= '9' then
      var e := RunEnd(10, f, i);
      var v := Value(10, f[i..e]);
      if v > INT_MAX then Bad(ERANGE)
      else ParsePrecision(f, e, s.(widthSet := true, width := v), args)
    else ParsePrecision(f, i, s, args)
  }

  function ParsePrecision(f: string, i: nat, s: Spec, args: seq<Arg>): (r: Parsed)
    requires CStr(f) && i < |f|
    ensures r.Good? ==> i < r.end < |f|
  {
    if f[i] != '.' then ParseLength(f, i, s, args)
    else if f[i + 1] == '*' then
      ParseLength(f, i + 2, StarPrecision(s, NextInt(args)), Rest(args))
    else if '0' <= f[i + 1] <= '9' then
      var e := RunEnd(10, f, i + 1);
      var v := Value(10, f[i + 1..e]);
      if v > INT_MAX then Bad(ERANGE)
      else ParseLength(f, e, s.(precisionSet := true, precision := v), args)
    else ParseLength(f, i + 1, s.(precisionSet := true, precision := 0), args)
  }

  /** The length modifiers other than h and hh are accepted and leave no trace. */
  function ParseLength(f: string, i: nat, s: Spec, args: seq<Arg>): (r: Parsed)
    requires CStr(f) && i < |f|
    ensures r.Good? ==> i < r.end < |f|
  {
    match f[i]
    case 'h' =>
      if f[i + 1] == 'h' then ParseConv(f, i + 2, s.(length := LengthHh), args)
      else ParseConv(f, i + 1, s.(length := LengthH), args)
    case 'l' => ParseConv(f, if f[i + 1] == 'l' then i + 2 else i + 1, s, args)
    case 'j' => ParseConv(f, i + 1, s, args)
    case 'z' => ParseConv(f, i + 1, s, args)
    case 't' => ParseConv(f, i + 1, s, args)
    case 'L' => ParseConv(f, i + 1, s, args)
    case _ => ParseConv(f, i, s, args)
  }

  function ParseConv(f: string, i: nat, s: Spec, args: seq<Arg>): (r: Parsed)
    requires CStr(f) && i < |f|
    ensures r.Good? ==> r.end == i + 1 < |f|
  {
    match ConvOf(f[i])
    case None => Bad(EINVAL)
    case Some(conv) => Good(s.(conv := conv), i + 1, args)
  }

  /** The specification behind a percent sign. */
  function ParseSpec(f: string, i: nat, args: seq<Arg>): (r: Parsed)
    requires CStr(f) && i < |f|
    ensures r.Good? ==> i < r.end < |f|
  {
    ParseFlags(f, i, NO_SPEC, args)
  }

  /** An accepted specification ends in the character of its conversion; else one that is none stands somewhere. */
  ghost predicate Denoted(f: string, i: nat, r: Parsed) {
    match r
    case Good(s, e, _) => i < e <= |f| && Denotes(f[e - 1], s.conv)
    case Bad(error) => error == EINVAL ==> exists e :: i <= e < |f| && f[e] !in "dioxXucspn%"
  }

  lemma ConvIsDenoted(f: string, i: nat, s: Spec, args: seq<Arg>)
    requires CStr(f) && i < |f|
    ensures Denoted(f, i, ParseConv(f, i, s, args))
    ensures ParseConv(f, i, s, args) == Bad(EINVAL) <==> f[i] !in "dioxXucspn%"
  {
    ConvOfIsDenoted(f[i]);
    hide Denotes, ConvOf;
  }

  lemma DenotedFurther(f: string, i: nat, j: nat, r: Parsed)
    requires i <= j && Denoted(f, j, r)
    ensures Denoted(f, i, r)
  {
    hide Denotes;
  }

  lemma LengthIsDenoted(f: string, i: nat, s: Spec, args: seq<Arg>)
    requires CStr(f) && i < |f|
    ensures Denoted(f, i, ParseLength(f, i, s, args))
  {
    forall s', j: nat | i <= j < |f|
      ensures Denoted(f, i, ParseConv(f, j, s', args))
    {
      ConvIsDenoted(f, j, s', args);
      DenotedFurther(f, i, j, ParseConv(f, j, s', args));
    }
    hide ParseConv, Denoted;
  }

  lemma PrecisionIsDenoted(f: string, i: nat, s: Spec, args: seq<Arg>)
    requires CStr(f) && i < |f|
    ensures Denoted(f, i, ParsePrecision(f, i, s, args))
  {
    forall s', j: nat, args' | i <= j < |f|
      ensures Denoted(f, i, ParseLength(f, j, s', args'))
    {
      LengthIsDenoted(f, j, s', args');
      DenotedFurther(f, i, j, ParseLength(f, j, s', args'));
    }
    assert Denoted(f, i, Bad(ERANGE));
    hide ParseLength, Denoted, Value;
  }

  lemma WidthIsDenoted(f: string, i: nat, s: Spec, args: seq<Arg>)
    requires CStr(f) && i < |f|
    ensures Denoted(f, i, ParseWidth(f, i, s, args))
  {
    forall s', j: nat, args' | i <= j < |f|
      ensures Denoted(f, i, ParsePrecision(f, j, s', args'))
    {
      PrecisionIsDenoted(f, j, s', args');
      DenotedFurther(f, i, j, ParsePrecision(f, j, s', args'));
    }
    assert Denoted(f, i, Bad(ERANGE));
    hide ParsePrecision, Denoted, Value;
  }

  lemma {:induction false} FlagsAreDenoted(f: string, i: nat, s: Spec, args: seq<Arg>)
    requires CStr(f) && i < |f|
    ensures Denoted(f, i, ParseFlags(f, i, s, args))
    decreases |f| - i
  {
    hide Denoted, ParseWidth;
    if IsFlag(f[i]) {
      FlagsAreDenoted(f, i + 1, SetFlag(s, f[i]), args);
      DenotedFurther(f, i, i + 1, ParseFlags(f, i + 1, SetFlag(s, f[i]), args));
    } else {
      WidthIsDenoted(f, i, s, args);
    }
  }

  lemma SpecIsDenoted(f: string, i: nat, args: seq<Arg>)
    requires CStr(f) && i < |f|
    ensures Denoted(f, i, ParseSpec(f, i, args))
  {
    FlagsAreDenoted(f, i, NO_SPEC, args);
    hide Denoted, ParseFlags;
  }

  // ----- The code -----

  /** What is left to parse when the loop is at `stage`. */
  function ParseFrom(stage: int, f: string, i: nat, s: Spec, args: seq<Arg>): Parsed
    requires CStr(f) && i < |f|
  {
    match stage
    case 0 => ParseFlags(f, i, s, args)
    case 1 => ParseWidth(f, i, s, args)
    case 2 => ParsePrecision(f, i, s, args)
    case 3 => ParseLength(f, i, s, args)
    case _ => ParseConv(f, i, s, args)
  }

  /** A number in the format, through strtol; None when an int cannot hold it. */
  method ReadNumber(f: string, i: nat) returns (v: Option<Int32>, e: nat)
    requires CStr(f) && i < |f| && '0' <= f[i] <= '9'
    ensures e == RunEnd(10, f, i) && i < e < |f|
    ensures v == if Value(10, f[i..e]) > INT_MAX then None else Some(Value(10, f[i..e]))
  {
    var r := Strtol(f, i, 10, INTMAX_MAX, INTMAX_MIN);
    PlainNumber(f, i);
    hide StrtolSpec, Value, RunEnd;
    e := r.end.value;
    if r.value > INT_MAX {
      v := None;
    } else {
      v := Some(r.value);
    }
  }

  /** strtol on digits without a sign. */
  lemma PlainNumber(f: string, i: nat)
    requires CStr(f) && i < |f| && '0' <= f[i] <= '9'
    ensures var (v, e) := (Value(10, f[i..RunEnd(10, f, i)]), RunEnd(10, f, i));
      i < e < |f| && StrtolSpec(f, i, 10, INTMAX_MAX, INTMAX_MIN) ==
        StrtoResult(Min(v, INTMAX_MAX), Some(e), if v > INTMAX_MAX then Some(ERANGE) else None)
  {
    PlainScan(f, i);
    ClampedScan(f, i, Value(10, f[i..RunEnd(10, f, i)]), RunEnd(10, f, i));
    hide *;
  }

  lemma ClampedScan(f: string, i: nat, v: nat, e: nat)
    requires CStr(f) && i < |f| && ScanInteger(f, i, 10) == Scan(Pos, v, e)
    ensures StrtolSpec(f, i, 10, INTMAX_MAX, INTMAX_MIN) ==
      StrtoResult(Min(v, INTMAX_MAX), Some(e), if v > INTMAX_MAX then Some(ERANGE) else None)
  {
    hide ScanInteger;
  }

  lemma PlainScan(f: string, i: nat)
    requires CStr(f) && i < |f| && '0' <= f[i] <= '9'
    ensures i < RunEnd(10, f, i) < |f|
    ensures ScanInteger(f, i, 10) == Scan(Pos, Value(10, f[i..RunEnd(10, f, i)]), RunEnd(10, f, i))
  {
    NumberStart(f, i);
    if f[i] == '0' {
      LeadingZero(10, f, i);
    }
    hide CStr, AfterSign, SignOf, DigitsStart, ResolvedBase, RunEnd, Value;
  }

  /** Neither white space nor a sign comes before the digits, and one leading zero may be passed over. */
  lemma NumberStart(f: string, i: nat)
    requires CStr(f) && i < |f| && '0' <= f[i] <= '9'
    ensures AfterSign(f, i) == i && SignOf(f, i) == Pos && ResolvedBase(f, i, 10) == 10
    ensures DigitsStart(f, i, 10) == (if f[i] == '0' then i + 1 else i) < |f|
    ensures i < RunEnd(10, f, i) < |f|
  {
    assert IsDigit(10, f[i]);
    hide CStr;
  }

  /** What a stage does with the current character: leave it to the next stage, use it up, or fail. */
  datatype Outcome = Skip | Next | Fail

  /** The width stage, on the character just before `i`. */
  method WidthStage(f: string, i: nat, s: Spec, args: seq<Arg>)
    returns (o: Outcome, spec: Spec, pos: nat, rest: seq<Arg>)
    requires CStr(f) && 0 < i < |f|
    ensures i - 1 < pos < |f|
    ensures o == Skip ==> spec == s && pos == i && rest == args
    ensures ParseWidth(f, i - 1, s, args) ==
      match o case Fail => Bad(ERANGE) case Next => ParsePrecision(f, pos, spec, rest)
      case Skip => ParsePrecision(f, i - 1, s, args)
  {
    hide ParsePrecision, Value, RunEnd, AllDigits;
    o, spec, pos, rest := Next, s, i, args;
    var c := f[i - 1];
    if c == '*' {
      var w := NextInt(args);
      rest := Rest(args);
      spec := spec.(width := w, widthSet := true);
      if spec.width < 0 {
        spec := spec.(flagMinus := true, width := if w == INT_MIN then INT_MIN else -w);
      }
      assert spec == StarWidth(s, w);
    } else if '1' <= c <= '9' {
      spec := spec.(widthSet := true);
      pos := pos - 1;
      var v;
      v, pos := ReadNumber(f, pos);
      if v.None? {
        o := Fail;
      } else {
        spec := spec.(width := v.value);
      }
    } else {
      o := Skip;
    }
  }

  /** The precision stage, on the character just before `i`. */
  method PrecisionStage(f: string, i: nat, s: Spec, args: seq<Arg>)
    returns (o: Outcome, spec: Spec, pos: nat, rest: seq<Arg>)
    requires CStr(f) && 0 < i < |f|
    ensures i - 1 < pos < |f|
    ensures o == Skip ==> spec == s && pos == i && rest == args
    ensures ParsePrecision(f, i - 1, s, args) ==
      match o case Fail => Bad(ERANGE) case Next => ParseLength(f, pos, spec, rest)
      case Skip => ParseLength(f, i - 1, s, args)
  {
    hide ParseLength, Value, RunEnd, AllDigits;
    o, spec, pos, rest := Next, s, i, args;
    if f[i - 1] == '.' {
      spec := spec.(precisionSet := true);
      var next := f[pos];
      if next == '*' {
        pos := pos + 1;
        spec := spec.(precision := NextInt(args));
        rest := Rest(args);
        if spec.precision < 0 {
          spec := spec.(precisionSet := false);
        }
      } else if '0' <= next <= '9' {
        var v;
        v, pos := ReadNumber(f, pos);
        if v.None? {
          o := Fail;
        } else {
          spec := spec.(precision := v.value);
        }
      } else {
        spec := spec.(precision := 0);
      }
    } else {
      o := Skip;
    }
  }

  /** The length stage, on the character just before `i`. Every modifier but h and hh stores its
      enumerator in conv, which the last stage overwrites. */
  method LengthStage(f: string, i: nat, s: Spec, args: seq<Arg>)
    returns (o: Outcome, spec: Spec, pos: nat)
    requires CStr(f) && 0 < i < |f|
    ensures o != Fail && i - 1 < pos < |f|
    ensures o == Skip ==> spec == s && pos == i
    ensures ParseLength(f, i - 1, s, args) ==
      if o == Next then ParseConv(f, pos, spec, args) else ParseConv(f, i - 1, s, args)
  {
    LengthIs(f, i, s, args);
    ConvIsOverwritten(f, i, s, args);
    ConvIsOverwritten(f, i + 1, s, args);
    hide ParseConv, ParseLength;
    o, spec, pos := Next, s, i;
    match f[i - 1] {
      case 'h' =>
        if f[pos] == 'h' {
          pos := pos + 1;
          spec := spec.(length := LengthHh);
        } else {
          spec := spec.(length := LengthH);
        }
      case 'l' =>
        if f[pos] == 'l' {
          pos := pos + 1;
          spec := spec.(conv := ConvUpperX);
        } else {
          spec := spec.(conv := ConvX);
        }
      case 'j' => spec := spec.(conv := ConvC);
      case 'z' => spec := spec.(conv := ConvS);
      case 't' => spec := spec.(conv := ConvP);
      case 'L' => spec := spec.(conv := ConvN);
      case _ => o := Skip;
    }
  }

  lemma LengthIs(f: string, i: nat, s: Spec, args: seq<Arg>)
    requires CStr(f) && 0 < i < |f|
    ensures var c := f[i - 1];
      ParseLength(f, i - 1, s, args) ==
        if c == 'h' && f[i] == 'h' then ParseConv(f, i + 1, s.(length := LengthHh), args)
        else if c == 'h' then ParseConv(f, i, s.(length := LengthH), args)
        else if c == 'l' && f[i] == 'l' then ParseConv(f, i + 1, s, args)
        else if c in "ljztL" then ParseConv(f, i, s, args)
        else ParseConv(f, i - 1, s, args)
  {
    hide ParseConv;
  }

  lemma ConvIsOverwritten(f: string, i: nat, s: Spec, args: seq<Arg>)
    requires CStr(f) && i <= |f|
    ensures i < |f| ==> forall conv :: ParseConv(f, i, s.(conv := conv), args) == ParseConv(f, i, s, args)
  {
  }

  lemma NulFails(stage: int, f: string, i: nat, s: Spec, args: seq<Arg>)
    requires CStr(f) && i < |f| && f[i] == '\0'
    ensures ParseFrom(stage, f, i, s, args) == Bad(EINVAL)
  {
  }

  function ResultOf(s: Spec, e: nat, rest: seq<Arg>, errno: Option<Errno>): Parsed {
    if errno.Some? then Bad(errno.value) else Good(s, e, rest)
  }

  /** The loop over the stages. */
  method ParseStages(f: string, i: nat, args: seq<Arg>)
    returns (spec: Spec, pos: nat, rest: seq<Arg>, errno: Option<Errno>)
    requires CStr(f) && i < |f|
    ensures ResultOf(spec, pos, rest, errno) == ParseSpec(f, i, args)
  {
    hide ParseWidth, ParsePrecision, ParseLength;
    ghost var all := ParseSpec(f, i, args);
    spec, pos, rest, errno := NO_SPEC, i, args, None;
    var stage := 0;
    while stage < 5
      invariant stage in {0, 2, 3, 4, 5} && i <= pos < |f| && errno == None
      invariant if stage == 5 then all == Good(spec, pos, rest) else all == ParseFrom(stage, f, pos, spec, rest)
      decreases 5 - stage, |f| - pos
    {
      var c := f[pos];
      if c == '\0' {
        NulFails(stage, f, pos, spec, rest);
        errno := Some(EINVAL);
        return;
      }
      pos := pos + 1;
      var o;
      if stage == 0 {
        if IsFlag(c) {
          spec := SetFlag(spec, c);
          continue;
        }
        stage := stage + 1;
        assert all == ParseFrom(1, f, pos - 1, spec, rest);
      }
      if stage == 1 {
        stage := stage + 1;
        o, spec, pos, rest := WidthStage(f, pos, spec, rest);
        if o == Fail {
          errno := Some(ERANGE);
          return;
        }
        if o == Next {
          continue;
        }
        assert all == ParseFrom(2, f, pos - 1, spec, rest);
      }
      if stage == 2 {
        stage := stage + 1;
        o, spec, pos, rest := PrecisionStage(f, pos, spec, rest);
        if o == Fail {
          errno := Some(ERANGE);
          return;
        }
        if o == Next {
          continue;
        }
        assert all == ParseFrom(3, f, pos - 1, spec, rest);
      }
      if stage == 3 {
        stage := stage + 1;
        o, spec, pos := LengthStage(f, pos, spec, rest);
        if o == Next {
          continue;
        }
        assert all == ParseFrom(4, f, pos - 1, spec, rest);
      }
      stage := stage + 1;
      var conv := ConvOf(c);
      if conv.None? {
        errno := Some(EINVAL);
        return;
      }
      spec := spec.(conv := conv.value);
    }
  }

  /** Also says which conversion the last character asks for, or that one stands there that is no conversion. */
  method VprintfParseSpec(info: VprintfInfo, f: string, i: nat, args: seq<Arg>)
    returns (spec: Spec, pos: nat, rest: seq<Arg>, errno: Option<Errno>)
    requires CStr(f) && i < |f| && info.Valid() && info.rc == OK
    modifies info`rc
    ensures info.Valid()
    ensures match ParseSpec(f, i, args)
      case Good(s, e, a) => info.rc == OK && spec == s && pos == e && rest == a && errno == None
      case Bad(error) => info.rc == ERR && errno == Some(error)
    ensures errno == None ==> i < pos <= |f| && Denotes(f[pos - 1], spec.conv)
    ensures errno == Some(EINVAL) ==> exists e :: i <= e < |f| && f[e] !in "dioxXucspn%"
  {
    SpecIsDenoted(f, i, args);
    hide ParseSpec, Denotes;
    spec, pos, rest, errno := ParseStages(f, i, args);
    if errno.Some? {
      info.rc := ERR;
    }
  }
}
