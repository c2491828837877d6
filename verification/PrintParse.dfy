/**
 Parsing undoes printing: the text of every 64-bit number, with any flags, width and
 precision, is read back as the same number exactly if nothing but a sign the parser knows
 stands before the number.
 */
module PrintParse {
  import opened Common
  import opened NumberText
  import opened FormatInt
  import opened IoBuffer
  import opened Strtox

  predicate PrintBase(base: nat) {
    2 <= base <= 16
  }

  /** The field starts with spaces. */
  predicate PaddedLeft(f: Flags, width: int, nchar: int) {
    !f.minus && !f.zero && width > nchar
  }

  /** The text starts with a space, as padding or instead of a sign. */
  predicate SpaceFirst(neg: bool, f: Flags, width: int, nchar: int) {
    (f.space && !f.plus && !neg) || PaddedLeft(f, width, nchar)
  }

  /** What follows the sign. */
  function Body(v: nat, nd: nat, nchar: int, f: Flags, base: nat, width: int): (s: seq<char>)
    requires 2 <= base <= 16
  {
    BasePrefix(f, base) + Padding(!f.minus && f.zero, '0', width, nchar) + DigitsOf(v, base, nd, f.upper)
    + Padding(f.minus, ' ', width, nchar)
  }

  lemma LayoutParts(neg: bool, v: nat, nd: nat, nchar: int, f: Flags, base: nat, width: int)
    requires 2 <= base <= 16
    ensures Layout(neg, v, nd, nchar, f, base, width)
         == Padding(!f.minus && !f.zero, ' ', width, nchar) + (Sign(neg, f) + Body(v, nd, nchar, f, base, width))
  {
    hide DigitsOf, Padding, Sign, BasePrefix;
  }

  /** The digit run ends where spaces or the input's end follow it. */
  lemma RunEnds(d: seq<char>, tail: seq<char>, base: nat)
    requires base <= 16 && (forall i :: 0 <= i < |d| ==> IsDigit(d[i], base)) && forall i :: 0 <= i < |tail| ==>
      tail[i] == ' '
    ensures DigitCount(d + tail, base) == |d|
  {
    var s := d + tail;
    assert forall i :: 0 <= i < |d| ==> s[i] == d[i];
    assert |d| < |s| ==> s[|d|] == tail[0];
  }

  /** The parser takes a hexadecimal prefix and no other for one. */
  lemma PrefixTaken(p: seq<char>, d: seq<char>, base: nat)
    requires PrintBase(base) && d != [] && (|d| >= 2 ==> d[1] != 'x' && d[1] != 'X')
    requires p == [] || (base == 16 && (p == "0x" || p == "0X"))
    ensures Prefix(p + d, base) == (base, |p|)
  {
    if p == [] {
      assert p + d == d;
    }
  }

  /** An optional hexadecimal prefix, digits, and spaces: the parser takes just the digits. */
  lemma PrefixAndDigits(p: seq<char>, d: seq<char>, tail: seq<char>, base: nat)
    requires PrintBase(base) && d != []
    requires forall i :: 0 <= i < |d| ==> IsDigit(d[i], base) && d[i] != 'x' && d[i] != 'X'
    requires forall i :: 0 <= i < |tail| ==> tail[i] == ' '
    requires p == [] || (base == 16 && (p == "0x" || p == "0X"))
    ensures Prefix(p + (d + tail), base) == (base, |p|) && Digits(p + (d + tail), base) == d
  {
    hide DigitValue, Prefix, IsDigit;
    var s := p + (d + tail);
    assert |d| >= 2 ==> (d + tail)[1] == d[1];
    assert |d| == 1 && tail != [] ==> (d + tail)[1] == tail[0];
    PrefixTaken(p, d + tail, base);
    assert s[|p|..] == d + tail;
    RunEnds(d, tail, base);
    assert DigitsFrom(s, base, |p|) == d;
  }

  /** The prefix the parser skips. */
  function HexPrefix(f: Flags, base: nat): (s: seq<char>) {
    if base == 16 then BasePrefix(f, base) else ""
  }

  /** The zeros before the digits: the prefix of base 8 and the padding. */
  function Zeros(nchar: int, f: Flags, base: nat, width: int): (s: seq<char>)
    ensures forall i :: 0 <= i < |s| ==> s[i] == '0'
  {
    (if base == 16 then "" else BasePrefix(f, base)) + Padding(!f.minus && f.zero, '0', width, nchar)
  }

  lemma BodyParts(v: nat, nd: nat, nchar: int, f: Flags, base: nat, width: int)
    requires 2 <= base <= 16
    ensures Body(v, nd, nchar, f, base, width)
         == HexPrefix(f, base)
           + (Zeros(nchar, f, base, width) + DigitsOf(v, base, nd, f.upper) + Padding(f.minus, ' ', width, nchar))
  {
    hide DigitsOf, Padding, BasePrefix;
  }

  /** What follows the sign is read as the magnitude. */
  lemma BodyReads(v: nat, nd: nat, nchar: int, f: Flags, base: nat, width: int)
    requires PrintBase(base) && v < U64_LIMIT && nd >= 1 && v < Pow(base, nd)
    ensures ParseUnsigned(Body(v, nd, nchar, f, base, width), base) == Number(v)
  {
    var p, z := HexPrefix(f, base), Zeros(nchar, f, base, width);
    assert p == [] || (base == 16 && (p == "0x" || p == "0X"));
    assert forall i :: 0 <= i < |z| ==> z[i] == '0';
    var d := DigitsOf(v, base, nd, f.upper);
    var tail := Padding(f.minus, ' ', width, nchar);
    hide DigitsOf, Padding, HexPrefix, Zeros, Body, Value, Digits, Prefix, Pow;
    BodyParts(v, nd, nchar, f, base, width);
    DigitsDenote(v, base, nd, f.upper);
    ValueOfZeros(z, d, base);
    assert forall i :: 0 <= i < |z + d| ==> IsDigit((z + d)[i], base) && (z + d)[i] != 'x' && (z + d)[i] != 'X';
    PrefixAndDigits(p, z + d, tail, base);
  }

  /** Text that does not start with a digit is read as 0. */
  lemma NoDigits(p: seq<char>, base: nat)
    requires PrintBase(base) && p != [] && DigitValue(p[0]) < 0
    ensures ParseUnsigned(p, base) == Number(0)
  {
    assert DigitValue('0') == 0;
    hide DigitValue;
    assert p[0..] == p;
  }

  /** The magnitude fits the digits that are printed. */
  lemma Fits(v: nat, base: nat, precision: int)
    requires base >= 2
    ensures v < Pow(base, Max(NumDigits(v, base), precision))
  {
    DigitsSuffice(v, base);
    PowGrows(base, NumDigits(v, base), Max(NumDigits(v, base), precision));
  }

  /**
   The unsigned parser reads back an unsigned number exactly if neither a sign, a space nor
   left padding stands before it, or the number is 0.
   */
  lemma UnsignedRoundTrip(v: nat, f: Flags, base: nat, width: int, precision: int)
    requires PrintBase(base) && v < U64_LIMIT
    ensures ParseUnsigned(Text(false, v, f, base, width, precision), base) == Number(v)
       <==> v == 0 || !(f.plus || f.space || PaddedLeft(f, width, NumChars(false, v, f, base, precision)))
  {
    var nd, nchar := Max(NumDigits(v, base), precision), NumChars(false, v, f, base, precision);
    var s, body := Text(false, v, f, base, width, precision), Body(v, nd, nchar, f, base, width);
    TextParts(false, v, nd, nchar, f, base, width);
    if f.plus || f.space || PaddedLeft(f, width, nchar) {
      assert s[0] == ' ' || s[0] == '+';
      NoDigits(s, base);
    } else {
      Fits(v, base, precision);
      BodyReads(v, nd, nchar, f, base, width);
      assert s == body;
    }
  }

  /**
   The signed parser reads back a signed number, a sign included, exactly if no space stands
   before it, or the number is 0.
   */
  lemma SignedRoundTrip(value: nat, f: Flags, base: nat, width: int, precision: int)
    requires PrintBase(base) && value < U64_LIMIT && value != I64_LIMIT && f.signed
    ensures var neg, v := IsNegative(value, f), Magnitude(value, f);
            && var text := Text(neg, v, f, base, width, precision);
            && var spaced := SpaceFirst(neg, f, width, NumChars(neg, v, f, base, precision));
            (ParseSigned(text, base) == Signed(AsSigned(value)) <==> value == 0 || !spaced)
  {
    hide Text, NumChars, ParseSigned, SpaceFirst;
    TextReads(IsNegative(value, f), Magnitude(value, f), f, base, width, precision);
  }

  /** What the signed parser makes of a printed magnitude. */
  lemma TextReads(neg: bool, v: nat, f: Flags, base: nat, width: int, precision: int)
    requires PrintBase(base) && v < I64_LIMIT
    ensures ParseSigned(Text(neg, v, f, base, width, precision), base)
         == Signed(if SpaceFirst(neg, f, width, NumChars(neg, v, f, base, precision)) then 0 else if neg then 0 - v
           else v)
  {
    var nd, nchar := Max(NumDigits(v, base), precision), NumChars(neg, v, f, base, precision);
    TextParts(neg, v, nd, nchar, f, base, width);
    Fits(v, base, precision);
    BodyReads(v, nd, nchar, f, base, width);
    hide Body, NumDigits, NumChars, Layout, Pow, ParseSigned, ParseUnsigned;
    if SpaceFirst(neg, f, width, nchar) {
      SpacesRead(Text(neg, v, f, base, width, precision), base);
    } else {
      SignedReads(Sign(neg, f), Body(v, nd, nchar, f, base, width), v, base);
    }
  }

  /** Spaces first, or the sign and the body. */
  lemma TextParts(neg: bool, v: nat, nd: nat, nchar: int, f: Flags, base: nat, width: int)
    requires 2 <= base <= 16 && nd >= 1
    ensures var s, body := Layout(neg, v, nd, nchar, f, base, width), Body(v, nd, nchar, f, base, width);
            && s != []
            && (SpaceFirst(neg, f, width, nchar) ==> s[0] == ' ')
            && (!SpaceFirst(neg, f, width, nchar) ==> s == Sign(neg, f) + body)
            && body != [] && body[0] != '-' && body[0] != '+'
  {
    LayoutParts(neg, v, nd, nchar, f, base, width);
    BodyStarts(v, nd, nchar, f, base, width);
    hide Body, Layout, DigitsOf;
  }

  lemma SpacesRead(s: seq<char>, base: nat)
    requires PrintBase(base) && s != [] && s[0] == ' '
    ensures ParseSigned(s, base) == Signed(0)
  {
    NoDigits(s, base);
  }

  /** A sign and an unsigned number. */
  lemma SignedReads(sign: seq<char>, body: seq<char>, v: nat, base: nat)
    requires (sign == "" || sign == "+" || sign == "-") && v < I64_LIMIT && ParseUnsigned(body, base) == Number(v)
    requires body != [] && body[0] != '-' && body[0] != '+'
    ensures ParseSigned(sign + body, base) == Signed(if sign == "-" then 0 - v else v)
  {
    assert if sign == [] then sign + body == body else (sign + body)[1..] == body;
  }

  lemma BodyStarts(v: nat, nd: nat, nchar: int, f: Flags, base: nat, width: int)
    requires 2 <= base <= 16 && nd >= 1
    ensures var s := Body(v, nd, nchar, f, base, width); s != [] && s[0] != '-' && s[0] != '+'
  {
    var d := DigitsOf(v, base, nd, f.upper);
    assert IsDigit(d[0], base);
    BodyParts(v, nd, nchar, f, base, width);
  }

  /* ---- Reading back with base 0 ---- */

  /** The parser with base 0 takes a leading 0 for base 8; the 0 does not change what base 8 reads. */
  lemma LeadingZeroRead(s: seq<char>)
    requires s != [] && s[0] == '0' && !(|s| >= 2 && (s[1] == 'x' || s[1] == 'X'))
    ensures ParseUnsigned(s, 0) == ParseFrom(s, 8, 0)
  {
    var d, e := DigitsFrom(s, 8, 0), DigitsFrom(s, 8, 1);
    assert s[0..] == s;
    assert DigitCount(s, 8) == 1 + DigitCount(s[1..], 8);
    assert d == [s[0]] + e;
    ValueOfZeros([s[0]], e, 8);
  }

  /** A number of more than one digit has a smaller value, or none of all its digits, in base 8. */
  lemma {:induction false} OctalBelow(d: seq<char>)
    requires forall i :: 0 <= i < |d| ==> IsDigit(d[i], 10)
    ensures Value(d[..DigitCount(d, 8)], 8) <= Value(d, 10)
    ensures Value(d, 10) >= 8 ==> Value(d[..DigitCount(d, 8)], 8) < Value(d, 10)
  {
    var n := DigitCount(d, 8);
    hide DigitValue;
    if d == [] {
    } else if n == |d| {
      assert d[..n] == d;
      var init := d[..n - 1];
      CountPrefix(d, 8);
      OctalBelow(init);
      assert init[..n - 1] == init;
    } else {
      var init := d[..|d| - 1];
      CountOfInit(d, 8);
      OctalBelow(init);
      assert init[..n] == d[..n];
      assert Value(d, 10) == Value(init, 10) * 10 + DigitValue(d[|d| - 1]);
      if Value(init, 10) == 0 {
        assert IsDigit(d[|d| - 1], 10);
      }
    }
  }

  lemma CountIs(d: seq<char>, b: nat, n: nat)
    requires n <= |d| && (forall i :: 0 <= i < n ==> IsDigit(d[i], b)) && (n < |d| ==> !IsDigit(d[n], b))
    ensures DigitCount(d, b) == n
  {
  }

  lemma CountPrefix(d: seq<char>, b: nat)
    requires d != [] && DigitCount(d, b) == |d|
    ensures DigitCount(d[..|d| - 1], b) == |d| - 1
  {
    CountIs(d[..|d| - 1], b, |d| - 1);
  }

  lemma CountOfInit(d: seq<char>, b: nat)
    requires d != [] && DigitCount(d, b) < |d|
    ensures DigitCount(d[..|d| - 1], b) == DigitCount(d, b)
  {
    var n := DigitCount(d, b);
    CountIs(d[..|d| - 1], b, n);
  }

  /** The first digit is 0 if there are more places than digits, or the number is 0. */
  lemma {:induction false} FirstDigit(v: nat, base: nat, n: nat, upper: bool)
    requires 2 <= base <= 16 && n >= 1 && v < Pow(base, n)
    ensures DigitsOf(v, base, n, upper)[0] == '0' <==> n > NumDigits(v, base) || v == 0
    decreases n
  {
    DivBelow(v, base, Pow(base, n - 1));
    if n == 1 {
      assert Pow(base, 0) == 1;
      assert DigitsOf(v, base, 1, upper) == [Digit(v % base, upper)];
      DivBelow(v, base, 1);
    } else {
      FirstDigit(v / base, base, n - 1, upper);
      DivBelow(v, base, 1);
    }
  }

  /** Zeros stand before the decimal digits of `v`. */
  predicate ZeroFirst(v: nat, f: Flags, width: int, precision: int) {
    precision > NumDigits(v, 10) || (!f.minus && f.zero && width > NumChars(false, v, f, 10, precision))
  }

  /** A text of `z` zeros and digits and then spaces. */
  lemma DecimalText(v: nat, f: Flags, width: int, precision: int)
    requires !(f.plus || f.space || PaddedLeft(f, width, NumChars(false, v, f, 10, precision)))
    ensures var nd, nchar := Max(NumDigits(v, 10), precision), NumChars(false, v, f, 10, precision);
            Text(false, v, f, 10, width, precision)
            == Zeros(nchar, f, 10, width) + DigitsOf(v, 10, nd, f.upper) + Padding(f.minus, ' ', width, nchar)
  {
    var nd, nchar := Max(NumDigits(v, 10), precision), NumChars(false, v, f, 10, precision);
    TextParts(false, v, nd, nchar, f, 10, width);
    BodyParts(v, nd, nchar, f, 10, width);
  }

  /** Below 8 base 8 reads the same. */
  lemma {:induction false} OctalSame(d: seq<char>)
    requires (forall i :: 0 <= i < |d| ==> IsDigit(d[i], 10)) && Value(d, 10) < 8
    ensures DigitCount(d, 8) == |d| && Value(d, 8) == Value(d, 10)
  {
    hide DigitValue;
    if d != [] {
      var init, last := d[..|d| - 1], d[|d| - 1];
      assert Value(d, 10) == Value(init, 10) * 10 + DigitValue(last);
      assert IsDigit(last, 10);
      OctalSame(init);
      assert forall i :: 0 <= i < |init| ==> d[i] == init[i] && IsDigit(init[i], 8);
      CountIs(d, 8, |d|);
    }
  }

  /** Spaces behind digits do not count as digits. */
  lemma CountBeforeSpaces(d: seq<char>, tail: seq<char>, b: nat)
    requires b <= 16 && forall i :: 0 <= i < |tail| ==> tail[i] == ' '
    ensures DigitCount(d + tail, b) == DigitCount(d, b)
  {
    var s, n := d + tail, DigitCount(d, b);
    assert forall i :: 0 <= i < |d| ==> s[i] == d[i];
    assert n == |d| < |s| ==> s[n] == tail[0];
    CountIs(s, b, n);
  }

  lemma NoX(d: seq<char>, tail: seq<char>)
    requires d != [] && forall i :: 0 <= i < |d| ==> IsDigit(d[i], 10)
    requires forall i :: 0 <= i < |tail| ==> tail[i] == ' '
    ensures var s := d + tail; !(|s| >= 2 && (s[1] == 'x' || s[1] == 'X'))
  {
    var s := d + tail;
    assert |d| >= 2 ==> s[1] == d[1] && IsDigit(d[1], 10);
    assert |d| == 1 < |s| ==> s[1] == tail[0];
  }

  /** What base 0 makes of digits after a 0 and spaces: their part before an 8 or 9, in base 8. */
  lemma ReadsOctal(d: seq<char>, tail: seq<char>)
    requires d != [] && (forall i :: 0 <= i < |d| ==> IsDigit(d[i], 10)) && d[0] == '0' && Value(d, 10) < U64_LIMIT
    requires forall i :: 0 <= i < |tail| ==> tail[i] == ' '
    ensures ParseUnsigned(d + tail, 0) == Number(Value(d[..DigitCount(d, 8)], 8))
  {
    hide DigitValue, IsDigit, Value, DigitCount, Prefix, ParseUnsigned;
    NoX(d, tail);
    var s, n := d + tail, DigitCount(d, 8);
    assert s[0] == d[0] && s[0..] == s;
    LeadingZeroRead(s);
    CountBeforeSpaces(d, tail, 8);
    assert DigitsFrom(s, 8, 0) == d[..n];
    OctalBelow(d);
  }

  /** What base 0 makes of decimal digits and spaces. */
  lemma ReadsDecimal(d: seq<char>, tail: seq<char>, v: nat)
    requires d != [] && (forall i :: 0 <= i < |d| ==> IsDigit(d[i], 10)) && Value(d, 10) == v < U64_LIMIT
    requires forall i :: 0 <= i < |tail| ==> tail[i] == ' '
    ensures ParseUnsigned(d + tail, 0) == Number(v) <==> v < 8 || d[0] != '0'
  {
    hide DigitValue, IsDigit, Value, DigitCount;
    if d[0] == '0' {
      ReadsOctal(d, tail);
      OctalBelow(d);
      if v < 8 {
        OctalSame(d);
        assert d[..|d|] == d;
      }
    } else {
      NoX(d, tail);
      var s := d + tail;
      assert s[0] == d[0] && s[0..] == s;
      CountIs(d, 10, |d|);
      CountBeforeSpaces(d, tail, 10);
      assert DigitsFrom(s, 10, 0) == d;
    }
  }

  /** With base 0 a decimal number is read back unless zeros before it make it an octal one. */
  lemma DecimalRead(v: nat, f: Flags, width: int, precision: int)
    requires v < U64_LIMIT && !(f.plus || f.space || PaddedLeft(f, width, NumChars(false, v, f, 10, precision)))
    ensures ParseUnsigned(Text(false, v, f, 10, width, precision), 0) == Number(v)
       <==> v < 8 || !ZeroFirst(v, f, width, precision)
  {
    hide Text, DigitsOf, Value, Pow, NumDigits, NumChars, ParseUnsigned;
    var nd, nchar := Max(NumDigits(v, 10), precision), NumChars(false, v, f, 10, precision);
    var s := Text(false, v, f, 10, width, precision);
    var z, d, tail := Zeros(nchar, f, 10, width), DigitsOf(v, 10, nd, f.upper), Padding(f.minus, ' ', width, nchar);
    Fits(v, 10, precision);
    DecimalText(v, f, width, precision);
    FirstDigit(v, 10, nd, f.upper);
    DigitsDenote(v, 10, nd, f.upper);
    ValueOfZeros(z, d, 10);
    ZeroAtFront(z, d);
    ReadsDecimal(z + d, tail, v);
  }

  lemma ZeroAtFront(z: seq<char>, d: seq<char>)
    requires d != [] && forall i :: 0 <= i < |z| ==> z[i] == '0'
    ensures (z + d)[0] == '0' <==> z != [] || d[0] == '0'
  {
  }

  /** With base 0 a prefix printed with `hash` says the base. */
  lemma PrefixedRead(v: nat, f: Flags, base: nat, width: int, precision: int)
    requires f.hash && (base == 8 || base == 16)
    requires !(f.plus || f.space || PaddedLeft(f, width, NumChars(false, v, f, base, precision)))
    ensures var s := Text(false, v, f, base, width, precision); ParseUnsigned(s, 0) == ParseUnsigned(s, base)
  {
    var nd, nchar := Max(NumDigits(v, base), precision), NumChars(false, v, f, base, precision);
    TextParts(false, v, nd, nchar, f, base, width);
    assert Text(false, v, f, base, width, precision) == Body(v, nd, nchar, f, base, width);
    hide Text, NumDigits, NumChars;
    if base == 8 {
      OctalPrefix(v, nd, nchar, f, width);
    } else {
      HexPrefixTaken(v, nd, nchar, f, width);
    }
  }

  lemma OctalPrefix(v: nat, nd: nat, nchar: int, f: Flags, width: int)
    requires f.hash && nd >= 1
    ensures var s := Body(v, nd, nchar, f, 8, width); ParseUnsigned(s, 0) == ParseUnsigned(s, 8)
  {
    var s := Body(v, nd, nchar, f, 8, width);
    var z, d := Padding(!f.minus && f.zero, '0', width, nchar), DigitsOf(v, 8, nd, f.upper);
    hide DigitsOf, Padding, ParseFrom;
    assert s == ['0'] + (z + d + Padding(f.minus, ' ', width, nchar));
    assert s[1] == if z != [] then z[0] else d[0];
    LeadingZeroRead(s);
  }

  lemma HexPrefixTaken(v: nat, nd: nat, nchar: int, f: Flags, width: int)
    requires f.hash && nd >= 1
    ensures var s := Body(v, nd, nchar, f, 16, width); ParseUnsigned(s, 0) == ParseUnsigned(s, 16)
  {
    var s := Body(v, nd, nchar, f, 16, width);
    hide DigitsOf, Padding, ParseFrom;
    assert s[0] == '0' && s[1] == if f.upper then 'X' else 'x';
  }

  /**
   With base 0 the parser reads an unsigned number back, printed with its prefix in base 8 or 16
   or in base 10, exactly if neither a sign, a space nor left padding stands before it and no zero
   before a decimal number of more than one octal digit, or the number is 0.
   */
  lemma GuessedRoundTrip(v: nat, f: Flags, base: nat, width: int, precision: int)
    requires v < U64_LIMIT && (base == 10 || (f.hash && (base == 8 || base == 16)))
    ensures ParseUnsigned(Text(false, v, f, base, width, precision), 0) == Number(v)
       <==> v == 0 || (!(f.plus || f.space || PaddedLeft(f, width, NumChars(false, v, f, base, precision)))
                       && (base == 10 ==> v < 8 || !ZeroFirst(v, f, width, precision)))
  {
    hide Text, NumChars, ParseUnsigned, PaddedLeft, ZeroFirst;
    if f.plus || f.space || PaddedLeft(f, width, NumChars(false, v, f, base, precision)) {
      NotDigitFirst(v, f, base, width, precision);
    } else if base == 10 {
      DecimalRead(v, f, width, precision);
    } else {
      PrefixedRead(v, f, base, width, precision);
      UnsignedRoundTrip(v, f, base, width, precision);
    }
  }

  /** Behind a sign or a space the parser finds no digit. */
  lemma NotDigitFirst(v: nat, f: Flags, base: nat, width: int, precision: int)
    requires PrintBase(base) && (f.plus || f.space || PaddedLeft(f, width, NumChars(false, v, f, base, precision)))
    ensures ParseUnsigned(Text(false, v, f, base, width, precision), 0) == Number(0)
  {
    var nd, nchar := Max(NumDigits(v, base), precision), NumChars(false, v, f, base, precision);
    var s := Text(false, v, f, base, width, precision);
    TextParts(false, v, nd, nchar, f, base, width);
    assert s[0] == ' ' || s[0] == '+';
    hide Text, NumDigits, NumChars;
    assert s[0..] == s && DigitValue(s[0]) < 0;
  }

  /** Printing a number and reading it back through a buffered stream. */
  method PrintThenParse(value: nat, f: Flags, base: nat, width: int, precision: int, bufSize: nat, slop: nat)
    returns (status: Status, result: nat)
    requires PrintBase(base) && value < U64_LIMIT && precision <= 64 && !f.signed && bufSize > 2
    requires !f.plus && !f.space && !PaddedLeft(f, width, NumChars(false, value, f, base, precision))
    ensures status == Success && result == value
  {
    hide Text, ParseFrom, Leaves;
    var text := FormatInt.FormatInt(value, f, base, width, precision);
    var io := new IoBuffer(FullyBuffered, bufSize, slop, true, text, []);
    ghost var lost;
    status, result, lost := Strtoull(io, base);
    assert !lost;
    UnsignedRoundTrip(value, f, base, width, precision);
  }

  /** The same with the base left to the parser. */
  method PrintThenGuess(value: nat, f: Flags, base: nat, width: int, precision: int, bufSize: nat, slop: nat)
    returns (status: Status, result: nat)
    requires value < U64_LIMIT && precision <= 64 && !f.signed && bufSize > 2
    requires base == 10 || (f.hash && (base == 8 || base == 16))
    requires !f.plus && !f.space && !PaddedLeft(f, width, NumChars(false, value, f, base, precision))
    requires base == 10 ==> value < 8 || !ZeroFirst(value, f, width, precision)
    ensures status == Success && result == value
  {
    hide Text, ParseFrom, Leaves;
    var text := FormatInt.FormatInt(value, f, base, width, precision);
    var io := new IoBuffer(FullyBuffered, bufSize, slop, true, text, []);
    ghost var lost;
    status, result, lost := Strtoull(io, 0);
    assert !lost;
    GuessedRoundTrip(value, f, base, width, precision);
  }

  /** The same with a sign. */
  method PrintThenParseSigned(value: nat, f: Flags, base: nat, width: int, precision: int, bufSize: nat, slop: nat)
    returns (status: Status, result: int)
    requires PrintBase(base) && value < U64_LIMIT && value != I64_LIMIT && precision <= 64 && f.signed && bufSize > 2
    requires !SpaceFirst(IsNegative(value, f), f, width,
      NumChars(IsNegative(value, f), Magnitude(value, f), f, base, precision))
    ensures status == Success && result == AsSigned(value)
  {
    hide Text, ParseSigned, SignedStart, SpaceFirst, NumChars;
    var text := FormatInt.FormatInt(value, f, base, width, precision);
    var io := new IoBuffer(FullyBuffered, bufSize, slop, true, text, []);
    ghost var lost;
    status, result, lost := Strtoll(io, base);
    assert !lost;
    SignedKept(text, base);
    SignedRoundTrip(value, f, base, width, precision);
  }
}
