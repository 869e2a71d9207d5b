/** The printf driver and vsnprintf (src/printf.c:500-769). */
module Printf {
  import opened Machine
  import opened PrintfSink
  import opened PrintfInt
  import opened PrintfFormat
  import opened Sequences

  // ----- What a conversion prints -----

  function NextStr(args: seq<Arg>): Option<Chars> {
    if args != [] && args[0].Pointer? then Some(args[0].str) else None
  }

  function Signed(low: int, size: int): int { if low < size / 2 then low else low - size }

  /** The low `size` values of a word, read as a signed number, as a 64-bit word. */
  function SignExtend(word: UIntMax, size: int): UIntMax
    requires 2 <= size <= TWO_32
  {
    Signed(word % size, size) % TWO_64
  }

  function SignedArg(length: Length, args: seq<Arg>): UIntMax {
    match length
    case LengthHh => SignExtend(NextWord(args), 0x100)
    case LengthH => SignExtend(NextWord(args), 0x1_0000)
    case LengthNone => SignExtend(NextWord(args), TWO_32)
  }

  function UnsignedArg(length: Length, args: seq<Arg>): UIntMax {
    match length
    case LengthHh => NextWord(args) % 0x100
    case LengthH => NextWord(args) % 0x1_0000
    case LengthNone => NextWord(args) % TWO_32
  }

  function CharArg(args: seq<Arg>): char { (NextWord(args) % 0x100) as char }

  /** A text in a field: blanks up to the width, on the right under the - flag. */
  function InField(s: Spec, text: string): string {
    var blanks := Repeat(' ', FieldWidth(s) - |text|);
    if s.flagMinus then text + blanks else blanks + text
  }

  /** The precision limits how much of a string is printed. */
  function Limited(s: Spec, text: string): string {
    if s.precisionSet && 0 <= s.precision < |text| then text[..s.precision] else text
  }

  function StringText(s: Spec, str: Option<Chars>): string {
    InField(s, Limited(s, if str.None? then "(NULL)" else str.value))
  }

  function PointerText(s: Spec, address: UIntMax): string {
    if address == 0 then InField(s, Limited(s, "(nil)"))
    else IntLayout(s.(flagNumber := true, conv := ConvX), address)
  }

  /** What one conversion prints and which arguments it leaves. */
  function Convert(s: Spec, args: seq<Arg>): (string, seq<Arg>) {
    match s.conv
    case ConvPercent => ("%", args)
    case ConvC => (InField(s, [CharArg(args)]), Rest(args))
    case ConvS => (StringText(s, NextStr(args)), Rest(args))
    case ConvD => (IntLayout(s, SignedArg(s.length, args)), Rest(args))
    case ConvP => (PointerText(s, NextWord(args)), Rest(args))
    case ConvN => ("", Rest(args))
    case _ => (IntLayout(s, UnsignedArg(s.length, args)), Rest(args))
  }

  /** %n: the count of characters written before it, modulo the width of size_t, goes to an address. */
  datatype Store = Store(address: UIntMax, length: Length, count: SizeT) {
    /** What the object there holds then: the count cut to its type. */
    function Value(): int {
      match length
      case LengthHh => Signed(count % 0x100, 0x100)
      case LengthH => Signed(count % 0x1_0000, 0x1_0000)
      case LengthNone => Signed(count % TWO_32, TWO_32)
    }
  }

  function StoresOf(s: Spec, args: seq<Arg>): seq<Store> {
    if s.conv == ConvN then [Store(NextWord(args), s.length, 0)] else []
  }

  /** The same stores behind `n` more characters. */
  function Shift(stores: seq<Store>, n: nat): (r: seq<Store>)
    ensures |r| == |stores|
  {
    seq(|stores|, i requires 0 <= i < |stores| => stores[i].(count := (n + stores[i].count) % TWO_64))
  }

  /** The output of a format: its text and stores, up to the first specification in error, and the arguments left. */
  datatype Output = Output(text: string, stores: seq<Store>, ok: bool, rest: seq<Arg>) {
    function Prepend(t: string, before: seq<Store>): Output {
      this.(text := t + text, stores := before + Shift(stores, |t|))
    }
  }

  function Print(f: string, i: nat, args: seq<Arg>): Output
    requires CStr(f) && i < |f|
    decreases |f| - i
  {
    if f[i] == '\0' then Output("", [], true, args)
    else if f[i] != '%' then Print(f, i + 1, args).Prepend([f[i]], [])
    else
      match ParseSpec(f, i + 1, args)
      case Bad(_) => Output("", [], false, args)
      case Good(s, e, rest) =>
        var (text, rest') := Convert(s, rest);
        Print(f, e, rest').Prepend(text, StoresOf(s, rest))
  }

  /** The whole output of a format string. */
  function FullOutput(f: string, args: seq<Arg>): Output
    requires CStr(f)
  {
    Print(f, 0, args)
  }

  // ----- What section 7.21.6.1 of ISO/IEC 9899:2011 says of each conversion -----

  /** `v` is the argument converted to signed char, short or int. */
  ghost predicate AsSigned(length: Length, word: UIntMax, v: int) {
    match length
    case LengthHh => -0x80 <= v < 0x80 && (v - word) % 0x100 == 0
    case LengthH => -0x8000 <= v < 0x8000 && (v - word) % 0x1_0000 == 0
    case LengthNone => -0x8000_0000 <= v < 0x8000_0000 && (v - word) % 0x1_0000_0000 == 0
  }

  /** `v` is the argument converted to unsigned char, unsigned short or unsigned int. */
  ghost predicate AsUnsigned(length: Length, word: UIntMax, v: int) {
    match length
    case LengthHh => 0 <= v < 0x100 && (word - v) % 0x100 == 0
    case LengthH => 0 <= v < 0x1_0000 && (word - v) % 0x1_0000 == 0
    case LengthNone => 0 <= v < 0x1_0000_0000 && (word - v) % 0x1_0000_0000 == 0
  }

  /** `text` is at least as wide as the field asks: `inner`, and blanks in front, or behind under the - flag. */
  ghost predicate Fielded(s: Spec, inner: string, text: string) {
    var width := if s.widthSet then s.width else 0;
    && |text| == (if width > |inner| then width else |inner|)
    && if s.flagMinus
       then inner <= text && forall i :: |inner| <= i < |text| ==> text[i] == ' '
       else text[|text| - |inner|..] == inner && forall i :: 0 <= i < |text| - |inner| ==> text[i] == ' '
  }

  /** As much of `str` as the precision allows. */
  ghost predicate CutTo(s: Spec, str: string, inner: string) {
    inner <= str && |inner| == if s.precisionSet && 0 <= s.precision < |str| then s.precision else |str|
  }

  ghost predicate FieldedCut(s: Spec, str: string, text: string) {
    exists inner: string :: CutTo(s, str, inner) && Fielded(s, inner, text)
  }

  ghost predicate Prints(s: Spec, args: seq<Arg>, text: string) {
    var word := if args == [] then 0 else if args[0].Number? then args[0].bits else args[0].address;
    match s.conv
    case ConvPercent => text == "%"
    case ConvN => text == ""
    case ConvC => exists c: char :: c as int == word % 0x100 && Fielded(s, [c], text)
    case ConvS =>
      FieldedCut(s, if args != [] && args[0].Pointer? then args[0].str else "(NULL)", text)
    case ConvP =>
      if word == 0 then FieldedCut(s, "(nil)", text)
      else LaidOut(s.(flagNumber := true, conv := ConvX), word, text)
    case ConvD => exists w: UIntMax :: AsSigned(s.length, word, ToIntMax(w)) && LaidOut(s, w, text)
    case _ => exists w: UIntMax :: AsUnsigned(s.length, word, w) && LaidOut(s, w, text)
  }

  lemma FieldIsFielded(s: Spec, text: string)
    ensures Fielded(s, text, InField(s, text))
  {
    assert |InField(s, text)| == Max(|text|, FieldWidth(s));
  }

  lemma LimitedIsCut(s: Spec, str: string)
    ensures CutTo(s, str, Limited(s, str))
  {
  }

  lemma SignedIsConverted(length: Length, args: seq<Arg>)
    ensures AsSigned(length, NextWord(args), ToIntMax(SignedArg(length, args)))
  {
    hide SignExtend, ToIntMax, NextWord;
    match length {
      case LengthHh => SignExtended(NextWord(args), 0x100);
      case LengthH => SignExtended(NextWord(args), 0x1_0000);
      case LengthNone => SignExtended(NextWord(args), TWO_32);
    }
  }

  lemma SignExtended(word: UIntMax, size: int)
    requires size == 0x100 || size == 0x1_0000 || size == TWO_32
    ensures var v := ToIntMax(SignExtend(word, size)); 0 - size / 2 <= v < size / 2 && (v - word) % size == 0
  {
    SignedPart(word, size);
    WordOf(Signed(word % size, size));
    hide ToIntMax, Signed;
  }

  lemma SignedPart(word: nat, size: int)
    requires size == 0x100 || size == 0x1_0000 || size == TWO_32
    ensures var v := Signed(word % size, size); 0 - size / 2 <= v < size / 2 && (v - word) % size == 0
  {
    var wraps := if word % size < size / 2 then 0 else -1;
    Parts(word, size);
    Times(wraps, 0 - word / size, size);
    Multiple(wraps - word / size, size);
  }

  /** What %n leaves in the object is the count converted to its type. */
  lemma StoredIsConverted(st: Store)
    ensures AsSigned(st.length, st.count, st.Value())
  {
    hide Signed;
    match st.length {
      case LengthHh => SignedPart(st.count, 0x100);
      case LengthH => SignedPart(st.count, 0x1_0000);
      case LengthNone => SignedPart(st.count, TWO_32);
    }
  }

  /** Only %n stores, and it stores how much has been written at the address that its argument is. */
  ghost predicate Stored(s: Spec, args: seq<Arg>, written: nat, stores: seq<Store>) {
    var word := if args == [] then 0 else if args[0].Number? then args[0].bits else args[0].address;
    && |stores| == (if s.conv == ConvN then 1 else 0)
    && forall st :: st in stores ==>
         && st.address == word && st.count == written % 0x1_0000_0000_0000_0000
         && AsSigned(s.length, st.count, st.Value())
  }

  lemma ConvertStores(s: Spec, args: seq<Arg>, written: nat)
    ensures Stored(s, args, written, Shift(StoresOf(s, args), written))
  {
    if s.conv == ConvN {
      StoredIsConverted(Store(NextWord(args), s.length, written % TWO_64));
    }
    hide AsSigned, Store.Value;
  }

  lemma WordOf(v: int)
    requires -TWO_31 <= v < TWO_31
    ensures ToIntMax(v % TWO_64) == v
  {
  }

  lemma Parts(word: nat, size: int)
    requires size > 0
    ensures word == word / size * size + word % size && 0 <= word % size < size
  {
  }

  lemma Times(x: int, y: int, size: int)
    ensures (x + y) * size == x * size + y * size
  {
  }

  lemma Multiple(k: int, size: int)
    requires size == 0x100 || size == 0x1_0000 || size == TWO_32
    ensures k * size % size == 0
  {
    if size == 0x100 {
      assert k * 0x100 % 0x100 == 0;
    } else if size == 0x1_0000 {
      assert k * 0x1_0000 % 0x1_0000 == 0;
    } else {
      assert k * TWO_32 % TWO_32 == 0;
    }
  }

  lemma UnsignedIsConverted(length: Length, args: seq<Arg>)
    ensures AsUnsigned(length, NextWord(args), UnsignedArg(length, args))
  {
    hide NextWord;
    match length {
      case LengthHh => RestIsMultiple(NextWord(args), 0x100);
      case LengthH => RestIsMultiple(NextWord(args), 0x1_0000);
      case LengthNone => RestIsMultiple(NextWord(args), TWO_32);
    }
  }

  lemma RestIsMultiple(word: nat, size: int)
    requires size == 0x100 || size == 0x1_0000 || size == TWO_32
    ensures 0 <= word % size < size && (word - word % size) % size == 0
  {
    Parts(word, size);
    Multiple(word / size, size);
  }

  /** Every conversion prints what the standard says. */
  lemma ConvertPrints(s: Spec, args: seq<Arg>)
    ensures Prints(s, args, Convert(s, args).0)
  {
    match s.conv {
      case ConvPercent =>
      case ConvN =>
      case ConvC => CharacterPrints(s, args);
      case ConvS => StringPrints(s, args);
      case ConvP => PointerPrints(s, args);
      case ConvD =>
        SignedIsConverted(s.length, args);
        LayoutIsLaidOut(s, SignedArg(s.length, args));
      case _ =>
        UnsignedIsConverted(s.length, args);
        LayoutIsLaidOut(s, UnsignedArg(s.length, args));
    }
    hide Fielded, FieldedCut, InField, Limited, LaidOut, IntLayout, AsSigned, AsUnsigned, SignedArg, UnsignedArg,
      ToIntMax, StringText, PointerText, CharArg;
  }

  lemma CharacterPrints(s: Spec, args: seq<Arg>)
    requires s.conv == ConvC
    ensures Prints(s, args, Convert(s, args).0)
  {
    hide Fielded, InField, StringText, PointerText, IntLayout, LaidOut, SignedArg, UnsignedArg, FieldedCut, AsSigned,
      AsUnsigned;
    FieldIsFielded(s, [CharArg(args)]);
  }

  lemma FieldOfCut(s: Spec, str: string)
    ensures FieldedCut(s, str, InField(s, Limited(s, str)))
  {
    LimitedIsCut(s, str);
    FieldIsFielded(s, Limited(s, str));
    hide Fielded, CutTo, InField, Limited;
  }

  lemma StringPrints(s: Spec, args: seq<Arg>)
    requires s.conv == ConvS
    ensures Prints(s, args, Convert(s, args).0)
  {
    FieldOfCut(s, if args != [] && args[0].Pointer? then args[0].str else "(NULL)");
    hide FieldedCut, InField, Limited;
  }

  lemma PointerPrints(s: Spec, args: seq<Arg>)
    requires s.conv == ConvP
    ensures Prints(s, args, Convert(s, args).0)
  {
    FieldOfCut(s, "(nil)");
    LayoutIsLaidOut(s.(flagNumber := true, conv := ConvX), NextWord(args));
    hide FieldedCut, InField, Limited, LaidOut, IntLayout;
  }

  // ----- The code -----

  method ConvCharacter(info: VprintfInfo, s: Spec, c: char)
    requires info.Valid() && info.rc == OK && info.Fits(|InField(s, [c])|)
    modifies info, info.buffer
    ensures info.Valid() && info.rc == OK && info.out == old(info.out) + InField(s, [c])
  {
    ghost var before := info.out;
    var hasPadding := s.widthSet && s.width > 1;
    if hasPadding {
      if !s.flagMinus {
        info.Padding(' ', s.width - 1);
      }
      info.WriteStr([c]);
      if s.flagMinus {
        info.Padding(' ', s.width - 1);
      }
    } else {
      info.WriteStr([c]);
    }
    FieldWritten(before, info.out, s, [c], hasPadding);
  }

  /** Writing the blanks and the text in the order of the flag writes the field. */
  lemma FieldWritten(before: string, after: string, s: Spec, text: string, hasPadding: bool)
    requires hasPadding <==> s.widthSet && s.width > |text|
    requires
      var blanks := Repeat(' ', s.width - |text|);
      after == if !hasPadding then before + text
               else if s.flagMinus then (before + text) + blanks
               else (before + blanks) + text
    ensures after == before + InField(s, text)
  {
    var blanks := Repeat(' ', FieldWidth(s) - |text|);
    Associate(before, text, blanks);
    Associate(before, blanks, text);
    assert !hasPadding ==> blanks == "" && text + "" == text && "" + text == text;
  }

  lemma FieldSize(s: Spec, text: string)
    ensures |InField(s, text)| == Max(|text|, FieldWidth(s))
  {
  }

  method ConvString(info: VprintfInfo, s: Spec, str: Option<Chars>)
    requires info.Valid() && info.rc == OK && info.Fits(|StringText(s, str)|)
    modifies info, info.buffer
    ensures info.Valid() && info.rc == OK && info.out == old(info.out) + StringText(s, str)
  {
    hide VprintfInfo.Valid, InField, Repeat;
    ghost var before := info.out;
    var text: string := if str.None? then "(NULL)" else str.value;
    var strLen := |text|;
    var len := if s.precisionSet && s.precision >= 0 && s.precision < strLen then s.precision else strLen;
    var hasPadding := s.widthSet && s.width >= 0 && s.width > len;
    assert text[..len] == Limited(s, text);
    FieldSize(s, text[..len]);
    if hasPadding {
      if !s.flagMinus {
        info.Padding(' ', s.width - len);
      }
      info.WriteStr(text[..len]);
      if s.flagMinus {
        info.Padding(' ', s.width - len);
      }
    } else {
      info.WriteStr(text[..len]);
    }
    FieldWritten(before, info.out, s, text[..len], hasPadding);
  }

  method ConvPointer(info: VprintfInfo, s: Spec, address: UIntMax)
    requires info.Valid() && info.rc == OK && info.Fits(|PointerText(s, address)|)
    modifies info, info.buffer
    ensures info.Valid() && info.rc == OK && info.out == old(info.out) + PointerText(s, address)
  {
    if address == 0 {
      ConvString(info, s, Some("(nil)"));
      return;
    }
    OutputInt(info, s.(flagNumber := true, conv := ConvX), address);
  }

  method WriteSpec(info: VprintfInfo, s: Spec, args: seq<Arg>) returns (rest: seq<Arg>, stores: seq<Store>)
    requires info.Valid() && info.rc == OK && info.Fits(|Convert(s, args).0|)
    modifies info, info.buffer
    ensures info.Valid() && info.rc == OK
    ensures info.out == old(info.out) + Convert(s, args).0 && rest == Convert(s, args).1
    ensures stores == Shift(StoresOf(s, args), |old(info.out)|)
    ensures Stored(s, args, |old(info.out)|, stores)
    ensures Prints(s, args, info.out[|old(info.out)|..])
    ensures rest == if s.conv == ConvPercent || args == [] then args else args[1..]
  {
    ConvertPrints(s, args);
    ConvertStores(s, args, |info.out|);
    hide Prints, Stored;
    rest, stores := Rest(args), [];
    match s.conv {
      case ConvPercent =>
        info.WriteStr("%");
        rest := args;
      case ConvC => ConvCharacter(info, s, CharArg(args));
      case ConvS => ConvString(info, s, NextStr(args));
      case ConvD => OutputInt(info, s, SignedArg(s.length, args));
      case ConvP => ConvPointer(info, s, NextWord(args));
      case ConvN =>
        stores := [Store(NextWord(args), s.length, info.written)];
      case _ => OutputInt(info, s, UnsignedArg(s.length, args));
    }
  }

  lemma PrependTwice(o: Output, a: string, sa: seq<Store>, b: string, sb: seq<Store>)
    ensures o.Prepend(b, sb).Prepend(a, sa) == o.Prepend(a + b, sa + Shift(sb, |a|))
  {
    assert a + (b + o.text) == (a + b) + o.text;
    ShiftTwice(sb, o.stores, |a|, |b|);
    Associate(sa, Shift(sb, |a|), Shift(o.stores, |a| + |b|));
  }

  lemma ShiftTwice(sb: seq<Store>, so: seq<Store>, m: nat, n: nat)
    ensures Shift(sb + Shift(so, n), m) == Shift(sb, m) + Shift(so, m + n)
  {
    var l, r := Shift(sb + Shift(so, n), m), Shift(sb, m) + Shift(so, m + n);
    forall i | 0 <= i < |l|
      ensures l[i] == r[i]
    {
      if i >= |sb| {
        var count := so[i - |sb|].count;
        SumsAgree(m, n, count);
      }
    }
  }

  lemma SumsAgree(m: nat, n: nat, c: nat)
    ensures (m + (n + c) % TWO_64) % TWO_64 == (m + n + c) % TWO_64
  {
    var q, r := (n + c) / TWO_64, (n + c) % TWO_64;
    var q', r' := (m + r) / TWO_64, (m + r) % TWO_64;
    RemainderOf(m + n + c, q + q', r');
  }

  lemma RemainderOf(a: int, q: int, r: int)
    requires a == q * TWO_64 + r && 0 <= r < TWO_64
    ensures a % TWO_64 == r
  {
  }

  lemma NothingStored(stores: seq<Store>, n: nat)
    ensures stores + Shift([], n) == stores
  {
    assert Shift([], n) == [];
  }

  /** One more character of a literal run. */
  lemma LiteralStep(f: string, start: nat, pos: nat, args: seq<Arg>, before: string, stores: seq<Store>)
    requires CStr(f) && start <= pos < |f| && f[pos] != '\0' && f[pos] != '%'
    ensures Print(f, pos, args).Prepend(before + f[start..pos], stores) ==
      Print(f, pos + 1, args).Prepend(before + f[start..pos + 1], stores)
  {
    PrintLiteral(f, pos, args);
    hide *;
    LiteralGrows(f, start, pos, before);
    PrependTwice(Print(f, pos + 1, args), before + f[start..pos], stores, [f[pos]], []);
    NothingStored(stores, |before + f[start..pos]|);
  }

  lemma LiteralGrows(f: string, start: nat, pos: nat, before: string)
    requires start <= pos < |f|
    ensures before + f[start..pos + 1] == (before + f[start..pos]) + [f[pos]]
  {
  }

  lemma PrintLiteral(f: string, pos: nat, args: seq<Arg>)
    requires CStr(f) && pos < |f| && f[pos] != '\0' && f[pos] != '%'
    ensures pos + 1 < |f| && Print(f, pos, args) == Print(f, pos + 1, args).Prepend([f[pos]], [])
  {
    hide ParseSpec, Convert, Shift;
  }

  /** One conversion. */
  lemma ConversionStep(f: string, pos: nat, args: seq<Arg>, before: string, stores: seq<Store>)
    requires CStr(f) && pos < |f| && f[pos] == '%'
    ensures pos + 1 < |f|
    ensures match ParseSpec(f, pos + 1, args)
      case Bad(_) => Print(f, pos, args).Prepend(before, stores) == Output(before, stores, false, args)
      case Good(s, e, rest) =>
        Print(f, pos, args).Prepend(before, stores) ==
          Print(f, e, Convert(s, rest).1).Prepend(before + Convert(s, rest).0,
                                                  stores + Shift(StoresOf(s, rest), |before|))
  {
    hide ParseSpec, Convert, Shift, StoresOf;
    match ParseSpec(f, pos + 1, args) {
      case Bad(_) =>
        NothingStored(stores, |before|);
        assert before + "" == before;
      case Good(s, e, rest) =>
        PrependTwice(Print(f, e, Convert(s, rest).1), before, stores, Convert(s, rest).0, StoresOf(s, rest));
    }
  }

  method WriteLiteral(info: VprintfInfo, f: string, start: nat, pos: nat)
    requires info.Valid() && start <= pos <= |f| && info.Fits(pos - start)
    modifies info, info.buffer
    ensures info.Valid() && info.out == old(info.out) + f[start..pos] && info.rc == old(info.rc)
  {
    if start != pos {
      info.WriteStr(f[start..pos]);
    }
  }

  /** The loop over the format; a run of literal characters is written when a conversion or the end comes. */
  method VprintfLoop(info: VprintfInfo, f: string, args: seq<Arg>) returns (stores: seq<Store>)
    requires CStr(f) && info.Valid() && info.rc == OK && info.out == ""
    requires info.Fits(|FullOutput(f, args).text|)
    modifies info, info.buffer
    ensures info.Valid() && info.out == FullOutput(f, args).text && stores == FullOutput(f, args).stores
    ensures info.rc == if FullOutput(f, args).ok then OK else ERR
  {
    hide VprintfInfo.Valid, Print, ParseSpec, Convert, Shift, StoresOf, Prints, Denotes;
    ghost var all := Print(f, 0, args);
    var start, pos, rest := 0, 0, args;
    stores := [];
    NothingBefore(all);
    assert "" + f[0..0] == "";
    while info.rc == OK && f[pos] != '\0'
      invariant start <= pos < |f| && info.Valid()
      invariant info.rc == OK || info.rc == ERR
      invariant info.rc == ERR ==> all == Output(info.out, stores, false, all.rest)
      invariant info.rc == OK ==> all == Print(f, pos, rest).Prepend(info.out + f[start..pos], stores)
      decreases |f| - pos, info.rc == OK
    {
      if f[pos] == '%' {
        ConversionStep(f, pos, rest, info.out + f[start..pos], stores);
        WriteLiteral(info, f, start, pos);
        pos := pos + 1;
        var spec, e, left, errno := VprintfParseSpec(info, f, pos, rest);
        if info.rc == OK {
          var stored;
          rest, stored := WriteSpec(info, spec, left);
          stores := stores + stored;
          pos, start := e, e;
          assert info.out + f[start..pos] == info.out;
        }
      } else {
        LiteralStep(f, start, pos, rest, info.out, stores);
        pos := pos + 1;
      }
    }
    if info.rc == OK {
      PrintEnd(f, pos, rest, info.out + f[start..pos], stores);
      WriteLiteral(info, f, start, pos);
    }
  }

  lemma NothingBefore(o: Output)
    ensures o.Prepend("", []) == o
  {
    assert "" + o.text == o.text;
    forall i | 0 <= i < |o.stores|
      ensures Shift(o.stores, 0)[i] == o.stores[i]
    {
    }
    assert [] + Shift(o.stores, 0) == o.stores;
  }

  lemma PrintEnd(f: string, pos: nat, args: seq<Arg>, before: string, stores: seq<Store>)
    requires CStr(f) && pos < |f| && f[pos] == '\0'
    ensures Print(f, pos, args).Prepend(before, stores) == Output(before, stores, true, args)
  {
    NothingStored(stores, |before|);
    assert before + "" == before;
  }

  /** Also gives what %n has stored. */
  method VprintfShared(info: VprintfInfo, f: string, args: seq<Arg>) returns (ret: Int32, stores: seq<Store>)
    requires CStr(f) && info.Valid() && info.rc == OK && info.out == ""
    requires info.Fits(|FullOutput(f, args).text|)
    modifies info, info.buffer
    ensures info.Valid() && info.out == FullOutput(f, args).text && stores == FullOutput(f, args).stores
    ensures ret == if FullOutput(f, args).ok then ToInt32(|FullOutput(f, args).text|) else -1
    ensures FullOutput(f, args).ok && |FullOutput(f, args).text| <= 0x7FFF_FFFF ==> ret == |FullOutput(f, args).text|
  {
    hide Print;
    ToInt32IsCongruent(|FullOutput(f, args).text|);
    stores := VprintfLoop(info, f, args);
    if info.rc == ERR {
      return -1, stores;
    }
    Truncates(|info.out|);
    return ToInt32(info.written), stores;
  }

  lemma Truncates(n: nat)
    ensures ToInt32(n % TWO_64) == ToInt32(n)
  {
    assert TWO_64 == TWO_32 * TWO_32;
    assert n == (n / TWO_64) * TWO_32 * TWO_32 + n % TWO_64;
    assert n % TWO_32 == (n % TWO_64) % TWO_32;
  }

  /** What vsnprintf leaves in a buffer of `n` bytes. */
  function Cut(text: string, n: nat, before: string): string
    requires n <= |before| || |text| < |before|
  {
    if n == 0 then before
    else
      var kept := Min(|text|, n - 1);
      text[..kept] + "\0" + before[kept + 1..]
  }

  lemma TerminatedCut(text: string, n: nat, before: string)
    requires 0 < n && (n <= |before| || |text| < |before|)
    ensures
      var kept := Min(|text|, n - 1);
      (text[..kept] + before[kept..])[kept := '\0'] == Cut(text, n, before)
  {
  }

  lemma CutHolds(text: string, n: nat, before: string, after: string)
    requires (n <= |before| || |text| < |before|) && after == Cut(text, n, before)
    ensures if n == 0 then after == before
      else
        var kept := if |text| < n then |text| else n - 1;
        && |after| == |before|
        && after[..kept] == text[..kept] && after[kept] == '\0' && after[kept + 1..] == before[kept + 1..]
  {
  }

  /** `n` bytes may be used; a larger `n` than the buffer's does no harm when the output and its NUL fit. */
  method Vsnprintf(buffer: array<char>, n: SizeT, f: string, args: seq<Arg>)
    returns (ret: Int32, stores: seq<Store>)
    requires CStr(f) && (n <= buffer.Length || |FullOutput(f, args).text| < buffer.Length)
    modifies buffer
    ensures buffer[..] == Cut(FullOutput(f, args).text, n, old(buffer[..])) && stores == FullOutput(f, args).stores
    ensures n == 0 ==> buffer[..] == old(buffer[..])
    ensures n > 0 ==>
      var text := FullOutput(f, args).text;
      var kept := if |text| < n then |text| else n - 1;
      buffer[..kept] == text[..kept] && buffer[kept] == '\0' && buffer[kept + 1..] == old(buffer[kept + 1..])
    ensures ret == if FullOutput(f, args).ok then ToInt32(|FullOutput(f, args).text|) else -1
    ensures FullOutput(f, args).ok && |FullOutput(f, args).text| <= 0x7FFF_FFFF ==> ret == |FullOutput(f, args).text|
  {
    hide FullOutput;
    var info := new VprintfInfo(buffer, if n == 0 then 0 else n - 1);
    ret, stores := VprintfShared(info, f, args);
    ghost var text, written := FullOutput(f, args).text, buffer[..];
    if n > 0 {
      var at := n - info.bufSize - 1;
      buffer[at] := '\0';
      assert buffer[..] == written[at := '\0'];
      TerminatedCut(text, n, old(buffer[..]));
    }
    CutHolds(text, n, old(buffer[..]), buffer[..]);
    hide Cut;
  }

  /** vsprintf passes SIZE_MAX; the buffer gets the whole output when it has room for it and the NUL. */
  method Vsprintf(buffer: array<char>, f: string, args: seq<Arg>) returns (ret: Int32, stores: seq<Store>)
    requires CStr(f) && |FullOutput(f, args).text| < buffer.Length < TWO_64
    modifies buffer
    ensures
      var text := FullOutput(f, args).text;
      buffer[..] == text + "\0" + old(buffer[|text| + 1..]) && stores == FullOutput(f, args).stores
    ensures ret == if FullOutput(f, args).ok then ToInt32(|FullOutput(f, args).text|) else -1
    ensures FullOutput(f, args).ok && |FullOutput(f, args).text| <= 0x7FFF_FFFF ==> ret == |FullOutput(f, args).text|
  {
    hide FullOutput;
    ret, stores := Vsnprintf(buffer, UINTMAX_MAX, f, args);
    NothingCut(FullOutput(f, args).text, UINTMAX_MAX, old(buffer[..]));
  }

  lemma NothingCut(text: string, n: nat, before: string)
    requires |text| < |before| && |text| < n
    ensures Cut(text, n, before) == text + "\0" + before[|text| + 1..]
  {
    assert text[..|text|] == text;
  }
}
