/** Formats compose: printing a concatenation prints the parts one after the other. */
module PrintfConcat {
  import opened Machine
  import opened Digits
  import opened PrintfInt
  import opened PrintfFormat
  import opened PrintfGrammar
  import opened Printf

  function Terminated(t: Chars): (f: string)
    ensures CStr(f) && |f| == |t| + 1 && f[..|t|] == t
  {
    t + "\0"
  }

  /** A specification that is accepted in one format is accepted with the same meaning wherever its text stands. */
  lemma ParseIsLocal(f: string, i: nat, g: string, j: nat, args: seq<Arg>)
    requires CStr(f) && i < |f| && CStr(g) && ParseSpec(f, i, args).Good?
    requires At(g, j, f[i..ParseSpec(f, i, args).end])
    ensures j < |g|
    ensures ParseSpec(g, j, args) == ParseSpec(f, i, args).(end := j + ParseSpec(f, i, args).end - i)
  {
    var d := AcceptedIsDirective(f, i, args);
    assert f[i..ParseSpec(f, i, args).end] == Render(d);
    hide ParseSpec, At, Render, WellFormed, Meaning;
    AcceptsDirective(f, i, d, args);
    AcceptsDirective(g, j, d, args);
  }

  /** Up to its end, a format prints the same whatever is appended to it. */
  lemma {:induction false} PrintOfPrefix(a: Chars, b: Chars, k: nat, args: seq<Arg>)
    requires k <= |a| && Print(Terminated(a), k, args).ok
    ensures
      var first := Print(Terminated(a), k, args);
      Print(Terminated(a + b), k, args) == Print(Terminated(a + b), |a|, first.rest).Prepend(first.text, first.stores)
    decreases |a| - k
  {
    hide ParseSpec, Convert, Shift, StoresOf;
    var f, g := Terminated(a), Terminated(a + b);
    var first := Print(f, k, args);
    var last := Print(g, |a|, first.rest);
    assert g[..|a|] == f[..|a|] == a;
    assert k < |a| ==> f[k] == a[k] == g[k];
    if k == |a| {
      NothingBefore(last);
    } else if f[k] != '%' {
      PrintOfPrefix(a, b, k + 1, args);
      PrependTwice(last, [f[k]], [], Print(f, k + 1, args).text, Print(f, k + 1, args).stores);
    } else {
      var parsed := ParseSpec(f, k + 1, args);
      assert parsed.Good?;
      var e := parsed.end;
      assert f[k + 1..e] == a[k + 1..e] == g[k + 1..e];
      ParseIsLocal(f, k + 1, g, k + 1, args);
      var (text, rest) := Convert(parsed.spec, parsed.rest);
      PrintOfPrefix(a, b, e, rest);
      PrependTwice(last, text, StoresOf(parsed.spec, parsed.rest), Print(f, e, rest).text, Print(f, e, rest).stores);
    }
  }

  /** What a format prints from some point on does not depend on what stands before that point. */
  lemma {:induction false} PrintOfSuffix(a: Chars, b: Chars, k: nat, args: seq<Arg>)
    requires k <= |b|
    ensures Print(Terminated(a + b), |a| + k, args) == Print(Terminated(b), k, args)
    decreases |b| - k
  {
    hide ParseSpec, Convert, Shift, StoresOf;
    var f, g := Terminated(b), Terminated(a + b);
    assert g[|a|..] == f;
    assert forall x :: k <= x < |f| ==> f[x] == g[|a|..][x] == g[|a| + x];
    if f[k] == '\0' {
    } else if f[k] != '%' {
      PrintOfSuffix(a, b, k + 1, args);
    } else {
      SuffixParse(a, b, k + 1, args);
      var parsed := ParseSpec(f, k + 1, args);
      if parsed.Good? {
        var (_, rest) := Convert(parsed.spec, parsed.rest);
        PrintOfSuffix(a, b, parsed.end, rest);
      }
    }
  }

  lemma SuffixParse(a: Chars, b: Chars, k: nat, args: seq<Arg>)
    requires k <= |b|
    ensures
      var parsed, moved := ParseSpec(Terminated(b), k, args), ParseSpec(Terminated(a + b), |a| + k, args);
      if parsed.Good? then moved == parsed.(end := |a| + parsed.end) else moved.Bad?
  {
    hide ParseSpec;
    var f, g := Terminated(b), Terminated(a + b);
    assert g[|a|..] == f;
    if ParseSpec(f, k, args).Good? {
      var e := ParseSpec(f, k, args).end;
      assert g[|a| + k..|a| + e] == g[|a|..][k..e];
      ParseIsLocal(f, k, g, |a| + k, args);
    } else if ParseSpec(g, |a| + k, args).Good? {
      var e := ParseSpec(g, |a| + k, args).end;
      assert g[|a| + k..e] == g[|a|..][k..e - |a|];
      ParseIsLocal(g, |a| + k, f, k, args);
    }
  }

  /** A complete format followed by any other prints the first text and then the second on the arguments left. */
  lemma PrintOfConcatenation(a: Chars, b: Chars, args: seq<Arg>)
    requires FullOutput(Terminated(a), args).ok
    ensures
      var first := FullOutput(Terminated(a), args);
      FullOutput(Terminated(a + b), args) == FullOutput(Terminated(b), first.rest).Prepend(first.text, first.stores)
  {
    hide Print, Terminated;
    PrintOfPrefix(a, b, 0, args);
    PrintOfSuffix(a, b, 0, FullOutput(Terminated(a), args).rest);
  }

  /** After a complete format %n stores how many characters that has printed, if an int can hold it. */
  lemma CountsWhatIsBefore(a: Chars, b: Chars, args: seq<Arg>)
    requires FullOutput(Terminated(a), args).ok
    ensures
      var (first, all) := (FullOutput(Terminated(a), args), FullOutput(Terminated(a + ("%n" + b)), args));
      && first.stores < all.stores
      && var store := all.stores[|first.stores|];
         store.address == NextWord(first.rest) && store.Value() == ToInt32(|first.text|)
  {
    var first := FullOutput(Terminated(a), args);
    var second := FullOutput(Terminated("%n" + b), first.rest);
    PrintOfConcatenation(a, "%n" + b, args);
    StoresFirst(b, first.rest);
    hide FullOutput, Terminated;
    Truncates(|first.text|);
    assert Shift(second.stores, |first.text|)[0] ==
      second.stores[0].(count := (|first.text| + second.stores[0].count) % TWO_64);
  }

  lemma StoresFirst(b: Chars, args: seq<Arg>)
    ensures
      var stores := FullOutput(Terminated("%n" + b), args).stores;
      stores != [] && stores[0] == Store(NextWord(args), LengthNone, 0)
  {
    var f := Terminated("%n" + b);
    assert f[0] == '%' && f[1] == 'n';
    ParsesCount(f, args);
    hide ParseSpec, Terminated, Shift;
  }

  lemma ParsesCount(f: string, args: seq<Arg>)
    requires CStr(f) && |f| > 1 && f[1] == 'n'
    ensures ParseSpec(f, 1, args) == Good(NO_SPEC.(conv := ConvN), 2, args)
  {
  }

  // ----- What every format prints, from its pieces -----

  /** A text without a percent sign prints itself. */
  lemma {:induction false} TextPrintsItself(a: Chars, k: nat, args: seq<Arg>)
    requires k <= |a| && '%' !in a
    ensures Print(Terminated(a), k, args) == Output(a[k..], [], true, args)
    decreases |a| - k
  {
    hide ParseSpec, Convert, Shift;
    var f := Terminated(a);
    assert k < |a| ==> f[k] == f[..|a|][k] == a[k];
    if k < |a| {
      TextPrintsItself(a, k + 1, args);
      assert a[k..] == [a[k]] + a[k + 1..];
      NothingStored([], 1);
    }
  }

  /** A directive alone prints what its meaning converts its arguments to. */
  lemma DirectivePrints(d: Directive, args: seq<Arg>)
    requires WellFormed(d)
    ensures
      var (s, rest) := Meaning(d, args);
      '\0' !in Render(d)
      && FullOutput(Terminated("%" + Render(d)), args) ==
        Output(Convert(s, rest).0, StoresOf(s, rest), true, Convert(s, rest).1)
  {
    NoNulInside(d);
    hide *;
    var f := Terminated("%" + Render(d));
    PercentText(Render(d));
    AcceptsDirective(f, 1, d, args);
    OnlyDirective(f, args, Meaning(d, args).0, 1 + |Render(d)|, Meaning(d, args).1);
  }

  lemma PercentText(text: Chars)
    ensures var f := Terminated("%" + text);
      |f| == |text| + 2 && f[0] == '%' && At(f, 1, text) && f[1 + |text|] == '\0'
  {
    var f := Terminated("%" + text);
    assert f == ("%" + text) + "\0";
    assert f[1..1 + |text|] == text;
  }

  lemma OnlyDirective(f: string, args: seq<Arg>, s: Spec, e: nat, rest: seq<Arg>)
    requires CStr(f) && |f| > 1 && f[0] == '%' && e < |f| && f[e] == '\0' && ParseSpec(f, 1, args) == Good(s, e, rest)
    ensures FullOutput(f, args) == Output(Convert(s, rest).0, StoresOf(s, rest), true, Convert(s, rest).1)
  {
    hide ParseSpec, Convert, StoresOf, Shift;
    PrintEnds(f, e, Convert(s, rest).1);
    NothingStored(StoresOf(s, rest), |Convert(s, rest).0|);
    assert Convert(s, rest).0 + "" == Convert(s, rest).0;
  }

  lemma PrintEnds(f: string, i: nat, args: seq<Arg>)
    requires CStr(f) && i < |f| && f[i] == '\0'
    ensures Print(f, i, args) == Output("", [], true, args)
  {
  }

  lemma NoNulInside(d: Directive)
    requires WellFormed(d)
    ensures '\0' !in Render(d)
  {
    AmountHasNoNul(d.width);
    if d.precision.Some? {
      AmountHasNoNul(d.precision.value);
    }
    ConversionEnds(d.conv);
    hide Value;
  }

  lemma AmountHasNoNul(a: Amount)
    requires a.Decimal? ==> DecimalFits(a.digits)
    ensures '\0' !in AmountText(a)
  {
    hide Value;
    if a.Decimal? {
      forall k | 0 <= k < |a.digits|
        ensures a.digits[k] != '\0'
      {
        assert IsDigit(10, a.digits[k]);
      }
    }
  }

  /** Behind a complete format, a percent sign without a directive ends the output, in error. */
  lemma BadDirectiveStops(a: Chars, b: Chars, args: seq<Arg>)
    requires FullOutput(Terminated(a), args).ok && b != "" && b[0] == '%'
    requires var first := FullOutput(Terminated(a), args); ParseSpec(Terminated(b), 1, first.rest).Bad?
    ensures
      var (first, all) := (FullOutput(Terminated(a), args), FullOutput(Terminated(a + b), args));
      !all.ok && all.text == first.text && all.stores == first.stores
  {
    var first := FullOutput(Terminated(a), args);
    PrintOfConcatenation(a, b, args);
    assert Terminated(b)[0] == '%';
    hide ParseSpec, Terminated;
    NothingStored(first.stores, |first.text|);
    assert first.text + "" == first.text;
  }
}
