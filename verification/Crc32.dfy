/**
 The checksum of a decompressed file: a table loop that takes each byte as two nibbles,
 proved to compute the reflected CRC-32 of section 8 of RFC 1952, which divides one bit at
 a time.
 */
module Crc32 {
  import opened Polynomial

  /* ---- The definition, one bit at a time ---- */

  /** One division step by the polynomial 0xEDB88320. */
  function Step(crc: bv32): (r: bv32) {
    if crc & 1 == 1 then (crc >> 1) ^ 0xEDB88320 else crc >> 1
  }

  function Steps(crc: bv32, n: nat): (r: bv32)
    decreases n
  {
    if n == 0 then crc else Steps(Step(crc), n - 1)
  }

  /** A byte as a register value. */
  function Widen(b: bv8): (r: bv32) {
    b as bv32
  }

  /** One byte into the register. */
  function Take(crc: bv32, b: bv8): (r: bv32) {
    Steps(crc ^ Widen(b), 8)
  }

  /** The register after the bytes of `buffer`, starting from `crc`. */
  function Register(crc: bv32, buffer: seq<bv8>): (r: bv32) {
    if buffer == [] then crc
    else
      var n := |buffer| - 1;
      Take(Register(crc, buffer[..n]), buffer[n])
  }

  function Flip(c: bv32): (r: bv32) {
    c ^ 0xFFFFFFFF
  }

  /** CRC-32: the register starts and ends complemented. */
  function Crc(buffer: seq<bv8>): (r: bv32) {
    Flip(Register(0xFFFFFFFF, buffer))
  }

  /* ---- The table ---- */

  const TABLE: seq<bv32> := [
    0x00000000, 0x1DB71064, 0x3B6E20C8, 0x26D930AC, 0x76DC4190,
    0x6B6B51F4, 0x4DB26158, 0x5005713C, 0xEDB88320, 0xF00F9344,
    0xD6D6A3E8, 0xCB61B38C, 0x9B64C2B0, 0x86D3D2D4, 0xA00AE278,
    0xBDBDF21C
  ]

  function Xor(x: bv32, y: bv32): (r: bv32) {
    x ^ y
  }

  function Low(c: bv32): (x: bv32) {
    c & 0x0F
  }

  lemma LowIndex(c: bv32)
    ensures Low(c) <= 15 && Low(c) as int < 16
  {
    assert c & 0x0F <= 15;
  }

  function High(c: bv32): (y: bv32) {
    c & 0xFFFFFFF0
  }

  function Half(c: bv32): (h: bv32) {
    c >> 1
  }

  function Rest(c: bv32): (r: bv32) {
    c >> 4
  }

  /** A table step: look up the low nibble, shift the rest down. */
  function NibbleStep(crc: bv32): (r: bv32) {
    LowIndex(crc);
    Xor(TABLE[Low(crc) as int], Rest(crc))
  }

  lemma StepTwice(c: bv32)
    ensures Steps(c, 4) == Step(Step(Step(Step(c))))
  {
    assert Steps(c, 4) == Steps(Step(c), 3);
    assert Steps(Step(c), 3) == Steps(Step(Step(c)), 2);
    assert Steps(Step(Step(c)), 2) == Steps(Step(Step(Step(c))), 1);
  }

  lemma ShiftXor(x: bv32, y: bv32)
    ensures (x ^ y) >> 1 == (x >> 1) ^ (y >> 1)
    ensures (x ^ y) & 1 == (x & 1) ^ (y & 1)
  {
  }

  lemma LowBit(x: bv32)
    ensures x & 1 == 0 || x & 1 == 1
  {
  }

  lemma XorTogether(a: bv32, b: bv32, p: bv32)
    ensures (a ^ p) ^ b == (a ^ b) ^ p && a ^ (b ^ p) == (a ^ b) ^ p && (a ^ p) ^ (b ^ p) == a ^ b
  {
  }

  /** A division step is linear. */
  lemma StepLinear(x: bv32, y: bv32)
    ensures Step(Xor(x, y)) == Xor(Step(x), Step(y))
  {
    ShiftXor(x, y);
    LowBit(x);
    LowBit(y);
    XorTogether(x >> 1, y >> 1, 0xEDB88320);
  }

  lemma {:induction false} StepsLinear(x: bv32, y: bv32, n: nat)
    ensures Steps(Xor(x, y), n) == Xor(Steps(x, n), Steps(y, n))
    decreases n
  {
    hide Step, Xor;
    if n > 0 {
      StepLinear(x, y);
      StepsLinear(Step(x), Step(y), n - 1);
    }
  }

  predicate Even(y: bv32) {
    y & 1 == 0
  }

  /** Without a low bit division only shifts. */
  lemma StepShifts(y: bv32)
    requires Even(y)
    ensures Step(y) == Half(y)
  {
  }

  lemma Nibbles(c: bv32)
    ensures c == Xor(Low(c), High(c))
  {
  }

  lemma HighEven(c: bv32)
    ensures Even(High(c)) && Even(Half(High(c)))
  {
  }

  lemma HigherEven(c: bv32)
    ensures Even(Half(Half(High(c)))) && Even(Half(Half(Half(High(c)))))
  {
  }

  lemma FourHalves(c: bv32)
    ensures Half(Half(Half(Half(High(c))))) == Rest(c)
  {
  }

  /** The low nibble and the rest can be divided separately; the rest is only shifted. */
  lemma FourSteps(c: bv32)
    ensures Steps(c, 4) == Xor(Steps(Low(c), 4), Rest(c))
  {
    hide Step, Steps, Xor, Low, High, Half, Rest, Even;
    Nibbles(c);
    HighEven(c);
    HigherEven(c);
    FourHalves(c);
    var y := High(c);
    StepsLinear(Low(c), y, 4);
    StepTwice(y);
    StepShifts(y);
    StepShifts(Half(y));
    StepShifts(Half(Half(y)));
    StepShifts(Half(Half(Half(y))));
  }

  /** Each table entry is its index divided four times. */
  lemma TableEntry(x: bv32)
    requires x <= 15
    ensures x as int < 16 && TABLE[x as int] == Step(Step(Step(Step(x))))
  {
    if x == 0 { } else if x == 1 { } else if x == 2 { } else if x == 3 { }
    else if x == 4 { } else if x == 5 { } else if x == 6 { } else if x == 7 { }
    else if x == 8 { } else if x == 9 { } else if x == 10 { } else if x == 11 { }
    else if x == 12 { } else if x == 13 { } else if x == 14 { } else { assert x == 15; }
  }

  lemma TableSteps(c: bv32)
    ensures Low(c) as int < 16 && TABLE[Low(c) as int] == Steps(Low(c), 4)
  {
    hide Step, Low;
    LowIndex(c);
    TableEntry(Low(c));
    StepTwice(Low(c));
  }

  /** A table step is four division steps. */
  lemma NibbleIsFourSteps(c: bv32)
    ensures NibbleStep(c) == Steps(c, 4)
  {
    hide Step, Steps, Xor, Low, Rest;
    FourSteps(c);
    TableSteps(c);
  }

  lemma {:induction false} StepsAdd(c: bv32, a: nat, b: nat)
    ensures Steps(c, a + b) == Steps(Steps(c, a), b)
    decreases a
  {
    if a > 0 {
      StepsAdd(Step(c), a - 1, b);
    }
  }

  lemma TwoNibbles(c: bv32)
    ensures NibbleStep(NibbleStep(c)) == Steps(c, 8)
  {
    hide NibbleStep, Steps;
    StepsAdd(c, 4, 4);
    NibbleIsFourSteps(c);
    NibbleIsFourSteps(NibbleStep(c));
  }

  /** The loop body: two table steps. */
  function TakeNibbles(crc: bv32, b: bv8): (r: bv32)
    ensures r == Take(crc, b)
  {
    hide Widen, Steps, NibbleStep;
    TwoNibbles(crc ^ Widen(b));
    NibbleStep(NibbleStep(crc ^ Widen(b)))
  }

  /* ---- What is computed: a remainder of polynomials ---- */

  predicate Odd(r: bv32) {
    r & 1 == 1
  }

  /** The `n` low bits of a register from bit 0 up, which is the coefficient of the highest degree. */
  function Coeffs(r: bv32, n: nat): (p: Poly)
    ensures |p| == n
    decreases n
  {
    if n == 0 then [] else [Odd(r)] + Coeffs(Half(r), n - 1)
  }

  /** The register without its `n` low bits. */
  function Shifted(r: bv32, n: nat): (s: bv32)
    decreases n
  {
    if n == 0 then r else Shifted(Half(r), n - 1)
  }

  /** The `n` low bits of a byte, in the order in which they travel: bit 0 first. */
  function ByteBits(b: bv8, n: nat): (p: Poly)
    ensures |p| == n
    decreases n
  {
    if n == 0 then [] else [b & 1 == 1] + ByteBits(b >> 1, n - 1)
  }

  function Message(buffer: seq<bv8>): (p: Poly)
    ensures |p| == 8 * |buffer|
  {
    if buffer == [] then []
    else
      var n := |buffer| - 1;
      Message(buffer[..n]) + ByteBits(buffer[n], 8)
  }

  /** The message times x^32, with its first 32 coefficients complemented. */
  function Dividend(buffer: seq<bv8>): (p: Poly)
    ensures |p| == 8 * |buffer| + 32
  {
    Sum(Ones(32) + Zeros(8 * |buffer|), Message(buffer) + Zeros(32))
  }

  /** The complement of `c` is what division of the complemented message by the generator leaves. */
  ghost predicate IsCrc(buffer: seq<bv8>, c: bv32) {
    IsRemainder(Dividend(buffer), Sum(Coeffs(c, 32), Ones(32)))
  }

  /** The register after the coefficients of `m`, one at a time. */
  function Feed(crc: bv32, m: Poly): (r: bv32)
    decreases |m|
  {
    if m == [] then crc
    else
      var n := |m| - 1;
      Step(Xor(Feed(crc, m[..n]), if m[n] then 1 else 0))
  }

  lemma {:induction false} FeedConcat(crc: bv32, a: Poly, b: Poly)
    ensures Feed(crc, a + b) == Feed(Feed(crc, a), b)
    decreases |b|
  {
    if b == [] {
      assert a + b == a;
    } else {
      var n := |b| - 1;
      FeedConcat(crc, a, b[..n]);
      assert (a + b)[..|a| + n] == a + b[..n];
    }
  }

  lemma {:induction false} CoeffsMore(r: bv32, n: nat)
    ensures Coeffs(r, n + 1) == Coeffs(r, n) + [Odd(Shifted(r, n))]
    ensures Shifted(r, n + 1) == Half(Shifted(r, n))
    decreases n
  {
    hide Odd, Half;
    if n > 0 {
      CoeffsMore(Half(r), n - 1);
    }
  }

  lemma OddXor(x: bv32, y: bv32)
    ensures Odd(Xor(x, y)) == (Odd(x) != Odd(y)) && Half(Xor(x, y)) == Xor(Half(x), Half(y))
  {
    ShiftXor(x, y);
    LowBit(x);
    LowBit(y);
  }

  lemma {:induction false} CoeffsXor(x: bv32, y: bv32, n: nat)
    ensures Coeffs(Xor(x, y), n) == Sum(Coeffs(x, n), Coeffs(y, n))
    decreases n
  {
    hide Odd, Half, Xor;
    if n > 0 {
      OddXor(x, y);
      CoeffsXor(Half(x), Half(y), n - 1);
    }
  }

  function LowPart(s: bv32): (l: bv32) {
    if Odd(s) then 1 else 0
  }

  function HighPart(s: bv32): (h: bv32) {
    s & 0xFFFFFFFE
  }

  lemma BothParts(s: bv32)
    ensures s == Xor(LowPart(s), HighPart(s))
  {
    LowPartIs(s);
    TwoParts(s);
    hide LowPart;
  }

  lemma LowPartIs(s: bv32)
    ensures LowPart(s) == s & 1
  {
    LowBit(s);
  }

  lemma TwoParts(s: bv32)
    ensures s == (s & 1) ^ (s & 0xFFFFFFFE)
  {
  }

  lemma HighPartShifts(s: bv32)
    ensures Even(HighPart(s)) && Half(HighPart(s)) == Half(s)
  {
    assert s & 0xFFFFFFFE & 1 == 0;
    assert (s & 0xFFFFFFFE) >> 1 == s >> 1;
  }

  lemma XorGroups(f: bv32, l: bv32, h: bv32)
    ensures Xor(f, Xor(l, h)) == Xor(Xor(f, l), h)
  {
  }

  /** A division step takes the low bit of what is still to come. */
  lemma StepSplit(f: bv32, s: bv32)
    ensures Step(Xor(f, s)) == Xor(Step(Xor(f, LowPart(s))), Half(s))
  {
    hide Step, Xor, LowPart, HighPart, Half, Even;
    BothParts(s);
    HighPartShifts(s);
    XorGroups(f, LowPart(s), HighPart(s));
    StepLinear(Xor(f, LowPart(s)), HighPart(s));
    StepShifts(HighPart(s));
  }

  /** Adding many bits at once and dividing is adding one bit before each division step. */
  lemma {:induction false} StepsFeed(x: bv32, w: bv32, n: nat)
    ensures Steps(Xor(x, w), n) == Xor(Feed(x, Coeffs(w, n)), Shifted(w, n))
    decreases n
  {
    hide Step, Xor, Half, Odd, Coeffs;
    if n == 0 {
      assert Coeffs(w, 0) == [];
    } else {
      var m := n - 1;
      StepsFeed(x, w, m);
      CoeffsMore(w, m);
      StepsAdd(Xor(x, w), m, 1);
      var f, s := Feed(x, Coeffs(w, m)), Shifted(w, m);
      OneStep(Xor(f, s));
      StepSplit(f, s);
      FeedMore(x, Coeffs(w, m), Odd(s));
    }
  }

  lemma OneStep(c: bv32)
    ensures Steps(c, 1) == Step(c)
  {
  }

  lemma FeedMore(x: bv32, m: Poly, b: bool)
    ensures Feed(x, m + [b]) == Step(Xor(Feed(x, m), if b then 1 else 0))
  {
    hide Step, Xor;
    assert (m + [b])[..|m|] == m;
  }

  /** A byte as a register has just the byte's bits. */
  lemma {:induction false} WidenBits(b: bv8, n: nat)
    ensures Coeffs(Widen(b), n) == ByteBits(b, n) && Shifted(Widen(b), n) == Widen(ByteRest(b, n))
    decreases n
  {
    if n > 0 {
      WidenHalf(b);
      hide Widen, Odd, Half;
      WidenBits(b >> 1, n - 1);
    }
  }

  function ByteRest(b: bv8, n: nat): (r: bv8)
    decreases n
  {
    if n == 0 then b else ByteRest(b >> 1, n - 1)
  }

  lemma WidenHalf(b: bv8)
    ensures Half(Widen(b)) == Widen(b >> 1) && (Odd(Widen(b)) <==> b & 1 == 1)
  {
  }

  lemma EightBits(b: bv8)
    ensures ByteRest(b, 8) == 0 && Widen(0) == 0
  {
    assert ByteRest(b, 8) == ByteRest(b >> 1 >> 1 >> 1 >> 1, 4);
    assert b >> 1 >> 1 >> 1 >> 1 >> 1 >> 1 >> 1 >> 1 == 0;
  }

  lemma TakeFeeds(crc: bv32, b: bv8)
    ensures Take(crc, b) == Feed(crc, ByteBits(b, 8))
  {
    hide Steps, Feed, Coeffs, Shifted, Widen, ByteBits, ByteRest;
    StepsFeed(crc, Widen(b), 8);
    WidenBits(b, 8);
    EightBits(b);
  }

  lemma {:induction false} RegisterFeeds(crc: bv32, buffer: seq<bv8>)
    ensures Register(crc, buffer) == Feed(crc, Message(buffer))
  {
    if buffer != [] {
      hide Take, Feed, ByteBits;
      var n := |buffer| - 1;
      RegisterFeeds(crc, buffer[..n]);
      TakeFeeds(Register(crc, buffer[..n]), buffer[n]);
      FeedConcat(crc, Message(buffer[..n]), ByteBits(buffer[n], 8));
    }
  }

  lemma {:induction false} CoeffsConcat(r: bv32, a: nat, b: nat)
    ensures Coeffs(r, a + b) == Coeffs(r, a) + Coeffs(Shifted(r, a), b)
    ensures Shifted(r, a + b) == Shifted(Shifted(r, a), b)
    decreases a
  {
    hide Odd, Half;
    if a > 0 {
      CoeffsConcat(Half(r), a - 1, b);
    }
  }

  lemma FourCoeffs(r: bv32)
    ensures Coeffs(r, 4) == [Odd(r), Odd(Half(r)), Odd(Half(Half(r))), Odd(Half(Half(Half(r))))]
    ensures Shifted(r, 4) == Half(Half(Half(Half(r))))
  {
    hide Odd, Half;
    var h := Half(r);
    assert Coeffs(r, 4) == [Odd(r)] + Coeffs(h, 3) && Shifted(r, 4) == Shifted(h, 3);
    assert Coeffs(h, 3) == [Odd(h)] + Coeffs(Half(h), 2);
  }

  lemma NibbleShift(r: bv32)
    ensures Shifted(r, 4) == r >> 4
  {
    FourCoeffs(r);
    assert ((r >> 1) >> 1) >> 1 >> 1 == r >> 4;
  }

  /** All 32 bits shifted out leave nothing. */
  lemma NothingLeft(r: bv32)
    ensures Shifted(r, 32) == 0
  {
    hide Shifted;
    CoeffsConcat(r, 4, 4);
    CoeffsConcat(r, 8, 4);
    CoeffsConcat(r, 12, 4);
    CoeffsConcat(r, 16, 4);
    CoeffsConcat(r, 20, 4);
    CoeffsConcat(r, 24, 4);
    CoeffsConcat(r, 28, 4);
    forall x: bv32 ensures Shifted(x, 4) == x >> 4 {
      NibbleShift(x);
    }
    assert r >> 4 >> 4 >> 4 >> 4 >> 4 >> 4 >> 4 >> 4 == 0;
  }

  /** Four coefficients are those of a hexadecimal digit; the rest follows. */
  lemma DigitCoeffs(r: bv32, n: nat, b0: bool, b1: bool, b2: bool, b3: bool)
    requires b0 == (r & 1 == 1) && b1 == (r & 2 == 2) && b2 == (r & 4 == 4) && b3 == (r & 8 == 8)
    ensures Coeffs(r, 4 + n) == [b0, b1, b2, b3] + Coeffs(r >> 4, n)
  {
    LowBits(r);
    hide Odd, Half, Coeffs, Shifted;
    CoeffsConcat(r, 4, n);
    FourCoeffs(r);
    NibbleShift(r);
  }

  lemma LowBits(r: bv32)
    ensures Odd(r) == (r & 1 == 1) && Odd(Half(r)) == (r & 2 == 2)
    ensures Odd(Half(Half(r))) == (r & 4 == 4) && Odd(Half(Half(Half(r)))) == (r & 8 == 8)
  {
  }

  /** The polynomial of the register's division step, digit by digit. */
  lemma PolynomialDigits(f: bool, t: bool)
    requires !f && t
    ensures Coeffs(0xEDB88320, 32)
            == [f, f, f, f] + ([f, t, f, f] + ([t, t, f, f] + ([f, f, f, t]
            + ([f, f, f, t] + ([t, t, f, t] + ([t, f, t, t] + [f, t, t, t]))))))
  {
    hide Coeffs;
    DigitCoeffs(0xEDB88320, 28, f, f, f, f);
    DigitCoeffs(0xEDB8832, 24, f, t, f, f);
    DigitCoeffs(0xEDB883, 20, t, t, f, f);
    DigitCoeffs(0xEDB88, 16, f, f, f, t);
    DigitCoeffs(0xEDB8, 12, f, f, f, t);
    DigitCoeffs(0xEDB, 8, t, t, f, t);
    DigitCoeffs(0xED, 4, t, f, t, t);
    DigitCoeffs(0xE, 0, f, t, t, t);
    assert Coeffs(0, 0) == [];
  }

  /** It is the generator. */
  lemma GeneratorCoeffs()
    ensures Coeffs(0xEDB88320, 32) == Generator()[1..] && Generator()[0]
  {
    hide Coeffs;
    PolynomialDigits(false, true);
    forall i | 0 <= i < 32 ensures Generator()[1..][i] == Coeffs(0xEDB88320, 32)[i] {
    }
  }

  lemma FirstCoeff(r: bv32, n: nat)
    ensures Coeffs(r, n + 1) == [Odd(r)] + Coeffs(Half(r), n)
  {
  }

  /** Halving a register moves its coefficients up by one degree. */
  lemma HalfCoeffs(r: bv32)
    ensures Coeffs(Half(r), 32) == Coeffs(r, 32)[1..] + [false] && Coeffs(r, 32)[0] == Odd(r)
  {
    hide Coeffs, Half, Odd;
    CoeffsMore(r, 32);
    FirstCoeff(r, 32);
    NothingLeft(r);
    FirstCoeff(r, 31);
    ZeroEven();
    assert Coeffs(Half(r), 32) == Coeffs(r, 33)[1..];
  }

  lemma ZeroEven()
    ensures !Odd(0)
  {
  }

  /** Adding a coefficient to the register. */
  lemma AddedBit(r: bv32, b: bool)
    ensures var x := Xor(r, if b then 1 else 0); Odd(x) == (Odd(r) != b) && Half(x) == Half(r)
  {
    LowBit(r);
  }

  /** One coefficient is divided: the step takes it and the highest of the register off. */
  lemma StepDivides(r: bv32, b: bool)
    ensures var c, next := Coeffs(r, 32)[0] != b, Coeffs(Step(Xor(r, if b then 1 else 0)), 32);
            [c] + Coeffs(r, 32)[1..] + [false] == Sum(Scaled(c), [false] + next)
  {
    hide Coeffs, Half, Odd, Generator, Step, Xor;
    AddedBit(r, b);
    HalfCoeffs(r);
    var x := Xor(r, if b then 1 else 0);
    StepOf(x);
    var h, c, next := Coeffs(Half(x), 32), Coeffs(r, 32)[0] != b, Coeffs(Step(x), 32);
    assert [c] + Coeffs(r, 32)[1..] + [false] == [c] + h;
    if c {
      GeneratorCoeffs();
      CoeffsXor(Half(x), 0xEDB88320, 32);
      assert next == Sum(h, Generator()[1..]);
      assert [c] + h == Sum(Generator(), [false] + next);
    } else {
      assert next == h;
      assert [c] + h == Sum(Zeros(33), [false] + next);
    }
  }

  lemma StepOf(x: bv32)
    ensures Step(x) == if Odd(x) then Xor(Half(x), 0xEDB88320) else Half(x)
  {
  }

  /** Feeding the coefficients `m` leaves a remainder of what is fed and the register, aligned with it. */
  lemma {:induction false} FeedDivides(crc: bv32, m: Poly) returns (q: Poly)
    ensures Quotient(Sum(Coeffs(crc, 32) + Zeros(|m|), m + Zeros(32)), q, Coeffs(Feed(crc, m), 32))
    decreases |m|
  {
    hide Coeffs, Step, Xor, Quotient, Generator, Scaled;
    if m == [] {
      q := [];
      FeedNone(crc);
    } else {
      var n := |m| - 1;
      var init, b := m[..n], m[n];
      q := FeedDivides(crc, init);
      var r := Feed(crc, init);
      StepDivides(r, b);
      var p := Sum(Coeffs(crc, 32) + Zeros(n), init + Zeros(32));
      var p' := Sum(Coeffs(crc, 32) + Zeros(n + 1), m + Zeros(32));
      assert Grown(p, b, p');
      QuotientMore(p, q, Coeffs(r, 32), b, p', Coeffs(Feed(crc, m), 32));
      q := q + [Coeffs(r, 32)[0] != b];
    }
  }

  lemma FeedNone(crc: bv32)
    ensures Quotient(Sum(Coeffs(crc, 32) + Zeros(0), [] + Zeros(32)), [], Coeffs(Feed(crc, []), 32))
  {
    hide Coeffs;
    var c := Coeffs(crc, 32);
    assert Sum(Sum(c + Zeros(0), [] + Zeros(32)), Zeros(0) + c) == Zeros(32);
  }

  lemma OnesCoeffs()
    ensures Coeffs(0xFFFFFFFF, 32) == Ones(32)
  {
    hide Coeffs;
    var t := true;
    DigitCoeffs(0xFFFFFFFF, 28, t, t, t, t);
    DigitCoeffs(0xFFFFFFF, 24, t, t, t, t);
    DigitCoeffs(0xFFFFFF, 20, t, t, t, t);
    DigitCoeffs(0xFFFFF, 16, t, t, t, t);
    DigitCoeffs(0xFFFF, 12, t, t, t, t);
    DigitCoeffs(0xFFF, 8, t, t, t, t);
    DigitCoeffs(0xFF, 4, t, t, t, t);
    DigitCoeffs(0xF, 0, t, t, t, t);
  }

  lemma NoBits(r: bv32)
    requires !Odd(r) && Half(r) == 0
    ensures r == 0
  {
    LowBit(r);
  }

  /** A register without coefficients is 0. */
  lemma {:induction false} NoCoeffs(r: bv32, n: nat)
    requires Coeffs(r, n) == Zeros(n) && Shifted(r, n) == 0
    ensures r == 0
    decreases n
  {
    hide Odd, Half;
    if n > 0 {
      assert Coeffs(r, n)[0] == Odd(r);
      assert Coeffs(r, n)[1..] == Coeffs(Half(r), n - 1);
      NoCoeffs(Half(r), n - 1);
      NoBits(r);
    }
  }

  /** A register is determined by its coefficients. */
  lemma CoeffsInjective(x: bv32, y: bv32)
    requires Coeffs(x, 32) == Coeffs(y, 32)
    ensures x == y
  {
    hide Coeffs, Shifted;
    CoeffsXor(x, y, 32);
    NothingLeft(Xor(x, y));
    NoCoeffs(Xor(x, y), 32);
  }

  /** The register is the remainder. */
  lemma RegisterRemains(buffer: seq<bv8>)
    ensures IsRemainder(Dividend(buffer), Coeffs(Register(0xFFFFFFFF, buffer), 32))
  {
    hide Coeffs, Feed, Register, Message, Quotient;
    RegisterFeeds(0xFFFFFFFF, buffer);
    OnesCoeffs();
    var q := FeedDivides(0xFFFFFFFF, Message(buffer));
  }

  /**
   CRC-32 is the remainder: `c` is the checksum of the buffer exactly if its complement is what
   division of the complemented message by the generator leaves.
   */
  lemma CrcIff(buffer: seq<bv8>, c: bv32)
    ensures IsCrc(buffer, c) <==> c == Crc(buffer)
  {
    hide Flip, Coeffs, Register, Dividend, IsRemainder;
    var r := Register(0xFFFFFFFF, buffer);
    RegisterRemains(buffer);
    Complement(c);
    Complemented(c, r);
    if IsCrc(buffer, c) {
      RemainderUnique(Dividend(buffer), Coeffs(r, 32), Coeffs(Flip(c), 32));
      CoeffsInjective(r, Flip(c));
    }
  }

  lemma Complemented(c: bv32, r: bv32)
    ensures Flip(c) == r <==> c == Flip(r)
  {
    FlipTwice(c);
    FlipTwice(r);
    hide Flip;
  }

  lemma FlipTwice(c: bv32)
    ensures Flip(Flip(c)) == c
  {
  }

  lemma Complement(c: bv32)
    ensures Coeffs(Flip(c), 32) == Sum(Coeffs(c, 32), Ones(32))
  {
    hide Coeffs;
    OnesCoeffs();
    CoeffsXor(c, 0xFFFFFFFF, 32);
  }

  lemma EmptyCrc()
    ensures Crc([]) == 0
  {
  }

  /** The table loop computes the CRC of every buffer, the empty one included. */
  method UpdateCrc32(buffer: seq<bv8>) returns (r: bv32)
    ensures r == Crc(buffer) && IsCrc(buffer, r)
  {
    CrcIff(buffer, Crc(buffer));
    hide IsCrc;
    assert Register(0xFFFFFFFF, buffer[..0]) == 0xFFFFFFFF;
    hide Take;
    var crc: bv32 := 0xFFFFFFFF;
    if |buffer| == 0 {
      EmptyCrc();
      return 0;
    }
    for n := 0 to |buffer|
      invariant crc == Register(0xFFFFFFFF, buffer[..n])
    {
      assert buffer[..n + 1][..n] == buffer[..n];
      crc := TakeNibbles(crc, buffer[n]);
    }
    assert buffer[..|buffer|] == buffer;
    r := crc ^ 0xFFFFFFFF;
  }
}
