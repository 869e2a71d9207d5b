/** The machine integers, the C string and the C operators that the other modules rely on (x86-64, LP64). */
module Machine {

  const TWO_31: int := 0x8000_0000
  const TWO_32: int := 0x1_0000_0000
  const TWO_63: int := 0x8000_0000_0000_0000
  const TWO_64: int := 0x1_0000_0000_0000_0000

  // A variable of one of these types is checked against its range at every assignment.
  type Int32 = x: int | -TWO_31 <= x < TWO_31
  type IntMax = x: int | -TWO_63 <= x < TWO_63
  type UIntMax = x: int | 0 <= x < TWO_64
  type SizeT = x: int | 0 <= x < TWO_64

  const INT_MAX: Int32 := 0x7FFF_FFFF
  const INT_MIN: Int32 := -0x8000_0000
  const INTMAX_MAX: IntMax := 0x7FFF_FFFF_FFFF_FFFF
  const INTMAX_MIN: IntMax := -0x8000_0000_0000_0000
  const UINTMAX_MAX: UIntMax := 0xFFFF_FFFF_FFFF_FFFF

  datatype Option<+T> = None | Some(value: T)

  datatype Errno = EINVAL | ERANGE

  /** A C string: its characters and one NUL, which is the last element. */
  predicate CStr(s: string) {
    |s| > 0 && s[|s| - 1] == '\0' && forall i :: 0 <= i < |s| - 1 ==> s[i] != '\0'
  }

  function Min(a: int, b: int): int { if a <= b then a else b }

  function Max(a: int, b: int): int { if a >= b then a else b }

  function Abs(x: int): nat { if x < 0 then -x else x }

  lemma QuotientBounds(a: nat, b: int)
    requires b > 0
    ensures 0 <= a / b <= a
  {
    ProductBound(a / b, b);
  }

  lemma ProductBound(q: int, b: int)
    requires b > 0
    ensures q >= 0 ==> q <= q * b
    ensures q < 0 ==> q * b <= q
  {
  }

  /** C's `/`, which truncates toward zero. */
  function TruncDiv(a: int, b: int): (q: int)
    requires b > 0
    ensures a >= 0 ==> 0 <= q <= a
    ensures a <= 0 ==> a <= q <= 0
  {
    QuotientBounds(Abs(a), b);
    if a >= 0 then a / b else -(-a / b)
  }

  /** C's `%`, whose result has the sign of the dividend. */
  function TruncMod(a: int, b: int): (r: int)
    requires b > 0
    ensures -b < r < b && a == TruncDiv(a, b) * b + r
    ensures a >= 0 ==> r >= 0
    ensures a <= 0 ==> r <= 0
  {
    if a >= 0 then a % b else -(-a % b)
  }

  /** Reinterprets the low 32 bits of a word as an int. */
  function ToInt32(bits: int): Int32 {
    var low := bits % TWO_32;
    if low < TWO_31 then low else low - TWO_32
  }

  /** The int that differs from the word by a multiple of 2^32; a word that is one already stays as it is. */
  lemma ToInt32IsCongruent(bits: int)
    ensures (ToInt32(bits) - bits) % 0x1_0000_0000 == 0
    ensures -0x8000_0000 <= bits <= 0x7FFF_FFFF ==> ToInt32(bits) == bits
  {
    var q := bits / TWO_32;
    assert bits == q * TWO_32 + bits % TWO_32;
    assert ToInt32(bits) - bits == (if bits % TWO_32 < TWO_31 then 0 - q else 0 - q - 1) * TWO_32;
  }

  /** Reinterprets a 64-bit word as an intmax_t. */
  function ToIntMax(bits: UIntMax): IntMax {
    if bits < TWO_63 then bits else bits - TWO_64
  }

  /** A string of `n` copies of `c`; empty when `n` is not positive. */
  function Repeat(c: char, n: int): (r: string)
    ensures |r| == Max(n, 0)
    ensures forall i :: 0 <= i < |r| ==> r[i] == c
  {
    if n <= 0 then "" else seq(n, _ => c)
  }

  /** memcpy into the middle of a buffer. */
  method CopyInto<T>(dest: array<T>, at: nat, src: seq<T>)
    requires at + |src| <= dest.Length
    modifies dest
    ensures dest[..] == old(dest[..at]) + src + old(dest[at + |src|..])
  {
    for k := 0 to |src|
      invariant dest[..at] == old(dest[..at])
      invariant dest[at..at + k] == src[..k]
      invariant dest[at + k..] == old(dest[at + k..])
    {
      dest[at + k] := src[k];
      assert dest[at..at + k + 1] == dest[at..at + k] + [src[k]];
    }
    assert dest[..] == dest[..at] + dest[at..at + |src|] + dest[at + |src|..];
  }
}
