/** What the ignored length modifiers do to the printed text (src/printf.c:429-444, src/printf.c:495-562). */
module PrintfLength {
  import opened Machine
  import opened Atoi
  import opened PrintfInt
  import opened PrintfFormat
  import opened PrintfGrammar
  import opened Printf
  import opened RoundTrip

  /** No two words are laid out alike, since the reader tells them apart. */
  lemma LayoutIsInjective(s: Spec, a: UIntMax, b: UIntMax)
    requires IsIntConv(s.conv) && IntLayout(s, a) == IntLayout(s, b)
    ensures a == b
  {
    SameText(s, a, b);
    if s.conv == ConvD {
      hide *;
      SignedRoundTrip(s, a);
      SignedRoundTrip(s, b);
      ReadBackIs(StrtolSpec(Text(s, a), 0, 10, INTMAX_MAX, INTMAX_MIN), ToIntMax(a), DigitText(s, a),
                 |Text(s, a)| - 1 - RightBlanks(s, a));
      ReadBackIs(StrtolSpec(Text(s, b), 0, 10, INTMAX_MAX, INTMAX_MIN), ToIntMax(b), DigitText(s, b),
                 |Text(s, b)| - 1 - RightBlanks(s, b));
      SignedWord(a, b);
    } else {
      OwnBaseReads(s);
      var base := Base(s.conv);
      hide *;
      UnsignedRoundTrip(s, a, base);
      UnsignedRoundTrip(s, b, base);
      ReadBackIs(StrtoulSpec(Text(s, a), 0, base, UINTMAX_MAX), a, DigitText(s, a),
                 |Text(s, a)| - 1 - RightBlanks(s, a));
      ReadBackIs(StrtoulSpec(Text(s, b), 0, base, UINTMAX_MAX), b, DigitText(s, b),
                 |Text(s, b)| - 1 - RightBlanks(s, b));
    }
  }

  lemma SameText(s: Spec, a: UIntMax, b: UIntMax)
    requires IntLayout(s, a) == IntLayout(s, b)
    ensures Text(s, a) == Text(s, b)
  {
  }

  lemma ReadBackIs(r: StrtoResult, v: int, digits: string, end: int)
    requires ReadBack(r, v, digits, end)
    ensures r.value == v
  {
  }

  lemma SignedWord(a: UIntMax, b: UIntMax)
    requires ToIntMax(a) == ToIntMax(b)
    ensures a == b
  {
  }

  lemma OwnBaseReads(s: Spec)
    ensures ReadableBase(s, Base(s.conv))
  {
  }

  /** The value fits int for d and unsigned int for the other conversions. */
  predicate FitsInt(conv: Conv, word: UIntMax) {
    if conv == ConvD then INT_MIN <= ToIntMax(word) <= INT_MAX else word < TWO_32
  }

  /** The word that a conversion without a length takes from its slot. */
  function IntArg(conv: Conv, word: UIntMax): UIntMax {
    if conv == ConvD then SignExtend(word, TWO_32) else word % TWO_32
  }

  lemma IntArgIsWord(conv: Conv, word: UIntMax)
    ensures IntArg(conv, word) == word <==> FitsInt(conv, word)
  {
  }

  lemma ConvertsIntArg(s: Spec, args: seq<Arg>)
    requires IsIntConv(s.conv) && s.length == LengthNone
    ensures Convert(s, args).0 == IntLayout(s, IntArg(s.conv, NextWord(args)))
  {
    hide IntLayout, SignExtend, NextWord;
  }

  /**
    * With l, ll, j, z or t the argument is a whole word, yet it is read as an int: what is printed is the word's text
    * if and only if its value fits the 32-bit type.
    */
  lemma LongPrintsRightIfFits(d: Directive, args: seq<Arg>)
    requires WellFormed(d) && d.length in {"l", "ll", "j", "z", "t"} && IsIntConv(ConvMeant(d.conv))
    ensures var (s, rest) := Meaning(d, args);
      Convert(s, rest).0 == IntLayout(s, NextWord(rest)) <==> FitsInt(s.conv, NextWord(rest))
  {
    var (s, rest) := Meaning(d, args);
    MeaningHasNoLength(d, args);
    hide *;
    var word := NextWord(rest);
    ConvertsIntArg(s, rest);
    IntArgIsWord(s.conv, word);
    if IntLayout(s, IntArg(s.conv, word)) == IntLayout(s, word) {
      LayoutIsInjective(s, IntArg(s.conv, word), word);
    }
  }
}
