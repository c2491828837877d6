/**
 Printing integers: sign, base prefix, padding and digits, and the proof that the number
 parsers read the same number back.
 */
module FormatInt {
  import opened Common
  import opened NumberText
  import opened Bits

  datatype Flags = Flags(zero: bool, minus: bool, plus: bool, space: bool, hash: bool, signed: bool, upper: bool)

  /** The character of a digit, from the table for its case; letters are lower case unless `upper`. */
  function Digit(d: nat, upper: bool): (c: char)
    requires d < 16
    ensures DigitValue(c) == d && c != 'x' && c != 'X'
    ensures if d < 10 then '0' <= c <= '9' else if upper then 'A' <= c <= 'F' else 'a' <= c <= 'f'
  {
    DigitValueIs(if upper then UPPER_DIGITS[d] else LOWER_DIGITS[d], d);
    DigitCase(d);
    if upper then UPPER_DIGITS[d] else LOWER_DIGITS[d]
  }

  lemma DigitCase(d: nat)
    requires d < 16
    ensures if d < 10 then '0' <= LOWER_DIGITS[d] <= '9' else 'a' <= LOWER_DIGITS[d] <= 'f'
    ensures if d < 10 then '0' <= UPPER_DIGITS[d] <= '9' else 'A' <= UPPER_DIGITS[d] <= 'F'
  {
  }

  function Pow(b: nat, n: nat): (r: nat)
    requires b >= 1
    ensures r >= 1
  {
    if n == 0 then 1 else Positive(b, Pow(b, n - 1)); b * Pow(b, n - 1)
  }

  lemma Positive(x: nat, y: nat)
    requires x >= 1 && y >= 1
    ensures x * y >= 1
  {
  }

  /** `v` with `n` digits, with leading zeros. */
  function DigitsOf(v: nat, base: nat, n: nat, upper: bool): (s: seq<char>)
    requires 2 <= base <= 16
    ensures |s| == n && forall i :: 0 <= i < n ==> IsDigit(s[i], base) && s[i] != 'x' && s[i] != 'X'
  {
    if n == 0 then []
    else
      DivNat(v, base);
      DigitsOf(v / base, base, n - 1, upper) + [Digit(v % base, upper)]
  }

  /** How many digits `v` needs, at least one. */
  function NumDigits(v: nat, base: nat): (n: nat)
    requires base >= 2
    ensures n >= 1
  {
    if v < base then 1
    else
      DivShrinks(v, base);
      1 + NumDigits(v / base, base)
  }

  lemma DivShrinks(v: nat, b: nat)
    requires 2 <= b <= v
    ensures 0 < v / b < v
  {
    DivBelow(v, b, 1);
    DivBelow(v, b, v);
    MulAtLeast(v, b - 1);
    assert b * v == v + v * (b - 1);
  }

  /** Division by the base, as digits come off a number. */
  lemma DivBelow(v: nat, b: nat, p: nat)
    requires b >= 1
    ensures 0 <= v / b <= v && (v / b < p <==> v < b * p)
    ensures v == (v / b) * b + v % b
  {
    DivNat(v, b);
    QuotientBelow(b, v / b, v % b, p);
    assert (v / b) * b >= v / b by {
      MulGrows(v / b, b);
    }
  }

  lemma {:induction false} DigitsSuffice(v: nat, base: nat)
    requires base >= 2
    ensures v < Pow(base, NumDigits(v, base))
  {
    if v >= base {
      DivShrinks(v, base);
      DigitsSuffice(v / base, base);
      DivBelow(v, base, Pow(base, NumDigits(v / base, base)));
    } else {
      assert Pow(base, 1) == base * Pow(base, 0);
    }
  }

  /** Fewer would not do. */
  lemma {:induction false} DigitsNeeded(v: nat, base: nat)
    requires base >= 2 && NumDigits(v, base) > 1
    ensures Pow(base, NumDigits(v, base) - 1) <= v
  {
    DivShrinks(v, base);
    if NumDigits(v / base, base) > 1 {
      DigitsNeeded(v / base, base);
    }
    DivBelow(v, base, Pow(base, NumDigits(v / base, base) - 1));
    assert Pow(base, 1) == base * Pow(base, 0);
  }

  lemma {:induction false} PowGrows(b: nat, m: nat, n: nat)
    requires b >= 1 && m <= n
    ensures Pow(b, m) <= Pow(b, n)
  {
    if m < n {
      PowGrows(b, m, n - 1);
      assert b * Pow(b, n - 1) >= Pow(b, n - 1);
    }
  }

  /** The digits written denote the value. */
  lemma {:induction false} DigitsDenote(v: nat, base: nat, n: nat, upper: bool)
    requires 2 <= base <= 16 && v < Pow(base, n)
    ensures Value(DigitsOf(v, base, n, upper), base) == v
  {
    if n > 0 {
      DivBelow(v, base, Pow(base, n - 1));
      DigitsDenote(v / base, base, n - 1, upper);
      ValueOfLast(DigitsOf(v / base, base, n - 1, upper), Digit(v % base, upper), base);
    }
  }

  lemma ValueOfLast(d: seq<char>, c: char, base: nat)
    requires IsDigit(c, base) && forall i :: 0 <= i < |d| ==> IsDigit(d[i], base)
    ensures Value(d + [c], base) == Value(d, base) * base + DigitValue(c)
  {
    assert (d + [c])[..|d|] == d;
  }

  /** The parts of the text. */
  function Sign(neg: bool, f: Flags): (s: seq<char>) {
    if neg then "-" else if f.plus then "+" else if f.space then " " else ""
  }

  function BasePrefix(f: Flags, base: nat): (s: seq<char>) {
    if !f.hash then "" else if base == 16 then (if f.upper then "0X" else "0x") else if base == 8 then "0" else ""
  }

  /** What fills a field of `width` around `nchar` characters, if the condition holds. */
  function Padding(condition: bool, c: char, width: int, nchar: int): (s: seq<char>)
    ensures |s| == if condition then Max(0, width - nchar) else 0
    ensures forall i :: 0 <= i < |s| ==> s[i] == c
  {
    if condition then seq(Max(0, width - nchar), _ => c) else []
  }

  /** The text of magnitude `v` with sign `neg` in `nd` digits and `nchar` characters without padding. */
  function Layout(neg: bool, v: nat, nd: nat, nchar: int, f: Flags, base: nat, width: int): (s: seq<char>)
    requires 2 <= base <= 16
  {
    Padding(!f.minus && !f.zero, ' ', width, nchar) + Sign(neg, f) + BasePrefix(f, base)
    + Padding(!f.minus && f.zero, '0', width, nchar) + DigitsOf(v, base, nd, f.upper)
      + Padding(f.minus, ' ', width, nchar)
  }

  /** The text of magnitude `v` with sign `neg`. */
  function Text(neg: bool, v: nat, f: Flags, base: nat, width: int, precision: int): (s: seq<char>)
    requires 2 <= base <= 16
  {
    Layout(neg, v, Max(NumDigits(v, base), precision), NumChars(neg, v, f, base, precision), f, base, width)
  }

  /** How many characters the number takes without padding. */
  function NumChars(neg: bool, v: nat, f: Flags, base: nat, precision: int): (n: int)
    requires base >= 2
  {
    Max(NumDigits(v, base), precision) + |Sign(neg, f)| + |BasePrefix(f, base)|
  }

  /**
   The text is as wide as asked for, or as wide as the number needs: its digits, at least
   `precision` of them, one place for a sign or space, and with `hash` a prefix.
   */
  lemma TextWidth(neg: bool, v: nat, f: Flags, base: nat, width: int, precision: int)
    requires 2 <= base <= 16
    ensures |Text(neg, v, f, base, width, precision)|
            == Max(width, Max(NumDigits(v, base), precision) + (if neg || f.plus || f.space then 1 else 0)
                          + (if f.hash && base == 16 then 2 else if f.hash && base == 8 then 1 else 0))
  {
  }

  predicate LowerLetter(c: char) {
    'a' <= c <= 'z'
  }

  predicate UpperLetter(c: char) {
    'A' <= c <= 'Z'
  }

  lemma {:induction false} DigitsCase(v: nat, base: nat, n: nat, upper: bool)
    requires 2 <= base <= 16
    ensures forall c :: c in DigitsOf(v, base, n, upper) ==> !(if upper then LowerLetter(c) else UpperLetter(c))
  {
    if n > 0 {
      DivNat(v, base);
      DigitsCase(v / base, base, n - 1, upper);
    }
  }

  /** All letters, digits and prefix, are upper case with `upper`, and lower case without. */
  lemma TextCase(neg: bool, v: nat, f: Flags, base: nat, width: int, precision: int)
    requires 2 <= base <= 16
    ensures forall c :: c in Text(neg, v, f, base, width, precision) ==>
      !(if f.upper then LowerLetter(c) else UpperLetter(c))
  {
    hide DigitsOf, Padding;
    DigitsCase(v, base, Max(NumDigits(v, base), precision), f.upper);
  }

  /* ---- The code ---- */

  /** Pads the output, if the condition holds and the field is wider than the number. */
  method PutPadding(out: seq<char>, condition: bool, c: char, width: int, nchar: int) returns (r: seq<char>)
    ensures r == out + Padding(condition, c, width, nchar)
  {
    r := out;
    if condition && width > nchar {
      for left := width - nchar downto 0
        invariant r == out + seq(width - nchar - left, _ => c)
      {
        r := r + [c];
      }
    }
  }

  method CountDigits(v: nat, base: nat) returns (n: nat)
    requires base >= 2
    ensures n == NumDigits(v, base)
  {
    n := 1;
    DivNat(v, base);
    var t: nat := v / base;
    DivBelow(v, base, 1);
    while t != 0
      invariant t != 0 ==> n + NumDigits(t, base) == NumDigits(v, base)
      invariant t == 0 ==> n == NumDigits(v, base)
      decreases t
    {
      n := n + 1;
      DivBelow(t, base, 1);
      DivBelow(t, base, t);
      MulAtLeast(t, base - 1);
      t := t / base;
    }
  }

  /** Fills the digit buffer from its end. */
  method FillDigits(str: array<char>, v: nat, base: nat, n: nat, upper: bool)
    requires 2 <= base <= 16 && n <= str.Length
    modifies str
    ensures str[..n] == DigitsOf(v, base, n, upper)
  {
    var k, t: nat := n, v;
    while k > 0
      invariant 0 <= k <= n && DigitsOf(v, base, n, upper) == DigitsOf(t, base, k, upper) + str[k..n]
    {
      k := k - 1;
      str[k] := Digit(t % base, upper);
      DivNat(t, base);
      t := t / base;
    }
  }

  /** How many characters the number takes without padding, counted as the code does. */
  method CountChars(ndigits: int, neg: bool, f: Flags, base: nat) returns (nchar: int)
    ensures nchar == ndigits + |Sign(neg, f)| + |BasePrefix(f, base)|
  {
    nchar := ndigits;
    if neg || f.plus || f.space {
      nchar := nchar + 1;
    }
    if f.hash {
      if base == 16 {
        nchar := nchar + 2;
      } else if base == 8 {
        nchar := nchar + 1;
      }
    }
  }

  /** The digits through the 64 places of the local buffer. */
  method PutDigits(out: seq<char>, v: nat, base: nat, ndigits: nat, upper: bool) returns (r: seq<char>)
    requires 2 <= base <= 16 && ndigits <= 64
    ensures r == out + DigitsOf(v, base, ndigits, upper)
  {
    var str := new char[64](_ => '\0');
    FillDigits(str, v, base, ndigits, upper);
    r := out + str[..ndigits];
  }

  /**
   Emits the text of a 64-bit value, read as signed when the flags say so. The least signed
   value has no defined negation.
   */
  method FormatInt(value: nat, f: Flags, base: nat, width: int, precision: int) returns (out: seq<char>)
    requires value < U64_LIMIT && 2 <= base <= 16 && precision <= 64
    requires f.signed ==> value != I64_LIMIT
    ensures out == Text(IsNegative(value, f), Magnitude(value, f), f, base, width, precision)
  {
    hide Layout, NumDigits, Sign, BasePrefix;
    var v, neg := value, false;
    if f.signed && value >= I64_LIMIT {
      v, neg := U64_LIMIT - value, true;
    }
    var ndigits := CountDigits(v, base);
    NumDigitsBound(v, base);
    if ndigits < precision {
      ndigits := precision;
    }
    var nchar := CountChars(ndigits, neg, f, base);
    out := Emit(neg, v, ndigits, nchar, f, base, width);
  }

  /** The parts in their order. */
  method Emit(neg: bool, v: nat, ndigits: nat, nchar: int, f: Flags, base: nat, width: int) returns (out: seq<char>)
    requires 2 <= base <= 16 && ndigits <= 64
    ensures out == Layout(neg, v, ndigits, nchar, f, base, width)
  {
    hide DigitsOf, Padding, Sign, BasePrefix;
    out := PutPadding([], !f.minus && !f.zero, ' ', width, nchar);
    out := PutSign(out, neg, f);
    out := PutBasePrefix(out, f, base);
    out := PutPadding(out, !f.minus && f.zero, '0', width, nchar);
    out := PutDigits(out, v, base, ndigits, f.upper);
    out := PutPadding(out, f.minus, ' ', width, nchar);
  }

  /** The sign of a 64-bit value as the flags read it. */
  predicate IsNegative(value: nat, f: Flags) {
    f.signed && value >= I64_LIMIT
  }

  /** Its magnitude. */
  function Magnitude(value: nat, f: Flags): (v: nat)
    requires value < U64_LIMIT
  {
    if IsNegative(value, f) then U64_LIMIT - value else value
  }

  method PutSign(out: seq<char>, neg: bool, f: Flags) returns (r: seq<char>)
    ensures r == out + Sign(neg, f)
  {
    r := out;
    if neg {
      r := r + ['-'];
    } else if f.plus {
      r := r + ['+'];
    } else if f.space {
      r := r + [' '];
    }
  }

  method PutBasePrefix(out: seq<char>, f: Flags, base: nat) returns (r: seq<char>)
    ensures r == out + BasePrefix(f, base)
  {
    r := out;
    if f.hash {
      if base == 16 {
        r := r + ['0'];
        r := r + [if f.upper then 'X' else 'x'];
      } else if base == 8 {
        r := r + ['0'];
      }
    }
  }

  /** The digit buffer is large enough: a 64-bit value has at most 64 digits, from base 8 on at most 22. */
  lemma NumDigitsBound(v: nat, base: nat)
    requires v < U64_LIMIT && base >= 2
    ensures NumDigits(v, base) <= 64 && (base >= 8 ==> NumDigits(v, base) <= 22)
  {
    Powers();
    DigitsAtMost(v, 2, base, 64);
    if base >= 8 {
      DigitsAtMost(v, 8, base, 22);
    }
  }

  lemma Powers()
    ensures Pow(2, 64) == U64_LIMIT <= Pow(8, 22)
  {
    assert Pow(2, 8) == 0x100;
    PowAdd(2, 8, 8);
    PowAdd(2, 16, 16);
    PowAdd(2, 32, 32);
    PowAdd(8, 8, 8);
    PowAdd(8, 16, 6);
    assert Pow(8, 6) == 0x4_0000 && Pow(8, 8) == 0x100_0000;
  }

  lemma Associate(x: int, y: int, z: int)
    ensures x * (y * z) == (x * y) * z
  {
  }

  lemma {:induction false} PowAdd(b: nat, m: nat, n: nat)
    requires b >= 1
    ensures Pow(b, m + n) == Pow(b, m) * Pow(b, n)
  {
    if m > 0 {
      PowAdd(b, m - 1, n);
      Associate(b, Pow(b, m - 1), Pow(b, n));
    }
  }

  lemma {:induction false} DigitsAtMost(v: nat, least: nat, base: nat, n: nat)
    requires 2 <= least <= base && n >= 1 && v < Pow(least, n)
    ensures NumDigits(v, base) <= n
  {
    if v >= base {
      assert Pow(least, 1) == least * Pow(least, 0) == least;
      DivBelow(v, base, Pow(least, n - 1));
      DigitsAtMost(v / base, least, base, n - 1) by {
        SmallerBase(least, base, Pow(least, n - 1));
        assert n > 1;
      }
    }
  }

  lemma SmallerBase(least: nat, base: nat, p: nat)
    requires base >= least
    ensures least * p <= base * p
  {
    assert base * p == least * p + (base - least) * p;
  }
}
