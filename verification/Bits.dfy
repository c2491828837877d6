/**
 Bits as the inflate decoder reads them: powers of two, the value of a bit string in
 either bit order, the C bit operators on unsigned integers, and the bit stream of a
 byte buffer (section 3.1.1 of RFC 1951: least significant bit of each byte first).
 */
module Bits {

  type bit = x: int | 0 <= x < 2
  type byte = x: int | 0 <= x < 256
  type u16 = x: int | 0 <= x < 0x1_0000
  type u32 = x: int | 0 <= x < 0x1_0000_0000

  function Pow2(n: nat): (r: nat)
    ensures r >= 1
  {
    if n == 0 then 1 else 2 * Pow2(n - 1)
  }

  lemma {:induction false} Pow2Add(a: nat, b: nat)
    ensures Pow2(a + b) == Pow2(a) * Pow2(b)
  {
    if a == 0 {
    } else {
      Pow2Add(a - 1, b);
      assert Pow2(a + b) == 2 * Pow2(a - 1 + b);
      DoubleProduct(Pow2(a - 1), Pow2(b));
    }
  }

  lemma {:induction false} Pow2Monotone(a: nat, b: nat)
    requires a <= b
    ensures Pow2(a) <= Pow2(b)
  {
    if a < b {
      Pow2Monotone(a, b - 1);
    }
  }

  /* ---- Bit strings as numbers ---- */

  /** The number a bit string denotes when its first bit is the least significant. */
  function LsbValue(b: seq<bit>): (r: nat)
  {
    if b == [] then 0 else b[0] + 2 * LsbValue(b[1..])
  }

  /** The number a bit string denotes when its first bit is the most significant. */
  function MsbValue(b: seq<bit>): (r: nat)
  {
    if b == [] then 0 else 2 * MsbValue(b[..|b| - 1]) + b[|b| - 1]
  }

  /** The `n` low bits of `v`, least significant first. */
  function LsbBits(v: nat, n: nat): (b: seq<bit>)
    ensures |b| == n
  {
    if n == 0 then [] else [v % 2] + LsbBits(v / 2, n - 1)
  }

  /** The `n` low bits of `v`, most significant first. */
  function MsbBits(v: nat, n: nat): (b: seq<bit>)
    ensures |b| == n
  {
    if n == 0 then [] else MsbBits(v / 2, n - 1) + [v % 2]
  }

  lemma {:induction false} LsbRoundTrip(v: nat, n: nat)
    requires v < Pow2(n)
    ensures LsbValue(LsbBits(v, n)) == v
  {
    if n > 0 {
      LsbRoundTrip(v / 2, n - 1);
      assert LsbBits(v, n)[1..] == LsbBits(v / 2, n - 1);
    }
  }

  lemma {:induction false} MsbRoundTrip(v: nat, n: nat)
    requires v < Pow2(n)
    ensures MsbValue(MsbBits(v, n)) == v
  {
    if n > 0 {
      MsbRoundTrip(v / 2, n - 1);
      assert MsbBits(v, n)[..n - 1] == MsbBits(v / 2, n - 1);
    }
  }

  lemma {:induction false} LsbBitsOfValue(b: seq<bit>)
    ensures LsbBits(LsbValue(b), |b|) == b
  {
    if b != [] {
      LsbBitsOfValue(b[1..]);
    }
  }

  lemma {:induction false} LsbBound(b: seq<bit>)
    ensures LsbValue(b) < Pow2(|b|)
  {
    if b != [] {
      LsbBound(b[1..]);
    }
  }

  lemma {:induction false} MsbBound(b: seq<bit>)
    ensures MsbValue(b) < Pow2(|b|)
  {
    if b != [] {
      MsbBound(b[..|b| - 1]);
    }
  }

  /** Bit strings of one length are determined by their values. */
  lemma {:induction false} MsbInjective(a: seq<bit>, b: seq<bit>)
    requires |a| == |b| && MsbValue(a) == MsbValue(b)
    ensures a == b
  {
    if a != [] {
      MsbInjective(a[..|a| - 1], b[..|b| - 1]);
      assert a == a[..|a| - 1] + [a[|a| - 1]];
      assert b == b[..|b| - 1] + [b[|b| - 1]];
    }
  }

  lemma {:induction false} LsbConcat(a: seq<bit>, b: seq<bit>)
    ensures LsbValue(a + b) == LsbValue(a) + Pow2(|a|) * LsbValue(b)
  {
    if a == [] {
      assert a + b == b;
    } else {
      LsbConcat(a[1..], b);
      assert (a + b)[1..] == a[1..] + b;
      DoubleProduct(Pow2(|a| - 1), LsbValue(b));
    }
  }

  /** Splitting a value at bit `n`: the mask keeps the first `n` bits, the shift drops them. */
  lemma {:induction false} LsbSplit(b: seq<bit>, n: nat)
    requires n <= |b|
    ensures LsbValue(b) % Pow2(n) == LsbValue(b[..n])
    ensures LsbValue(b) / Pow2(n) == LsbValue(b[n..])
  {
    assert b == b[..n] + b[n..];
    LsbConcat(b[..n], b[n..]);
    LsbBound(b[..n]);
    DivModUnique(LsbValue(b), Pow2(n), LsbValue(b[n..]), LsbValue(b[..n]));
  }

  lemma MulAtLeast(m: int, d: int)
    requires m > 0
    ensures d >= 1 ==> m * d >= m
    ensures d <= -1 ==> m * d <= -m
  {
  }

  lemma MulCancel(p: nat, y: int, z: int)
    requires p > 0
    ensures p * y < p * z <==> y < z
  {
    assert p * (z - y) == p * z - p * y;
    MulAtLeast(p, z - y);
  }

  lemma DoubleProduct(p: int, x: int)
    ensures (2 * p) * x == 2 * (p * x)
  {
  }

  lemma Distribute(x: int, y: int, p: int)
    ensures (x + y) * p == x * p + y * p
  {
  }

  lemma DivModUnique(x: nat, m: nat, q: nat, r: nat)
    requires m > 0 && r < m && x == r + m * q
    ensures x / m == q && x % m == r
  {
    assert m * (x / m - q) == m * (x / m) - m * q;
    MulAtLeast(m, x / m - q);
  }

  lemma QuotientBelow(b: nat, q: nat, r: nat, p: nat)
    requires r < b
    ensures q < p <==> q * b + r < b * p
  {
    MulAtLeast(b, p - q);
    assert b * (p - q) == b * p - q * b;
    if p == q {
      assert b * p == q * b;
    }
  }

  lemma ModDouble(a: nat, m: nat)
    requires m > 0
    ensures a % (2 * m) == a % 2 + 2 * ((a / 2) % m)
  {
    var h := a / 2;
    assert 2 * m * (h / m) == 2 * (m * (h / m));
    DivModUnique(a, 2 * m, h / m, a % 2 + 2 * (h % m));
  }

  /* ---- The C operators on unsigned integers ---- */

  /** `a | b`. */
  function BitOr(a: nat, b: nat): (r: nat)
    decreases a + b
  {
    if a == 0 then b
    else if b == 0 then a
    else (if a % 2 == 1 || b % 2 == 1 then 1 else 0) + 2 * BitOr(a / 2, b / 2)
  }

  /** `a & b`. */
  function BitAnd(a: nat, b: nat): (r: nat)
    decreases a + b
  {
    if a == 0 || b == 0 then 0
    else (if a % 2 == 1 && b % 2 == 1 then 1 else 0) + 2 * BitAnd(a / 2, b / 2)
  }

  /** Bit `k` of `a`. */
  function BitAt(a: nat, k: nat): (b: bit)
    decreases k
  {
    if k == 0 then a % 2 else BitAt(a / 2, k - 1)
  }

  lemma {:induction false} ZeroBits(k: nat)
    ensures BitAt(0, k) == 0
  {
    if k > 0 {
      ZeroBits(k - 1);
    }
  }

  /** A bit of `a | b` is set exactly if it is in `a` or in `b`. */
  lemma {:induction false} OrBit(a: nat, b: nat, k: nat)
    ensures BitAt(BitOr(a, b), k) == 1 <==> BitAt(a, k) == 1 || BitAt(b, k) == 1
    decreases k
  {
    ZeroBits(k);
    if a != 0 && b != 0 && k > 0 {
      OrBit(a / 2, b / 2, k - 1);
      assert BitOr(a, b) / 2 == BitOr(a / 2, b / 2);
    }
  }

  /** A bit of `a & b` is set exactly if it is in both. */
  lemma {:induction false} AndBit(a: nat, b: nat, k: nat)
    ensures BitAt(BitAnd(a, b), k) == 1 <==> BitAt(a, k) == 1 && BitAt(b, k) == 1
    decreases k
  {
    ZeroBits(k);
    if a != 0 && b != 0 && k > 0 {
      AndBit(a / 2, b / 2, k - 1);
      assert BitAnd(a, b) / 2 == BitAnd(a / 2, b / 2);
    }
  }

  /** `(u32)x << n`. */
  function ShiftLeft32(x: nat, n: nat): (r: u32) {
    (x * Pow2(n)) % 0x1_0000_0000
  }

  /** `x >> n`. */
  function ShiftRight(x: nat, n: nat): (r: nat) {
    DivNat(x, Pow2(n));
    x / Pow2(n)
  }

  lemma DivNat(x: nat, m: nat)
    requires m > 0
    ensures x / m >= 0
  {
    if x / m < 0 {
      MulAtLeast(m, x / m);
    }
  }

  /** Or-ing in bits above the accumulated ones is an addition. */
  lemma {:induction false} OrIsAdd(a: nat, b: nat, n: nat)
    requires a < Pow2(n)
    ensures BitOr(a, b * Pow2(n)) == a + b * Pow2(n)
  {
    if a != 0 && b != 0 {
      assert n > 0;
      DoubleProduct(Pow2(n - 1), b);
      OrIsAdd(a / 2, b, n - 1);
    }
  }

  /** Masking with `(1 << n) - 1` is the remainder modulo `1 << n`. */
  lemma {:induction false} MaskIsMod(a: nat, n: nat)
    ensures BitAnd(a, Pow2(n) - 1) == a % Pow2(n)
  {
    if a != 0 && n != 0 {
      MaskIsMod(a / 2, n - 1);
      ModDouble(a, Pow2(n - 1));
      assert (2 * Pow2(n - 1) - 1) / 2 == Pow2(n - 1) - 1;
    }
  }

  /* ---- The bit stream of a byte buffer ---- */

  /** All bits of `src` in stream order. */
  function BitsOf(src: seq<byte>): (b: seq<bit>)
    ensures |b| == 8 * |src|
  {
    if src == [] then [] else BitsOf(src[..|src| - 1]) + LsbBits(src[|src| - 1], 8)
  }

  lemma {:induction false} BitsOfByte(src: seq<byte>, k: nat)
    requires k < |src|
    ensures BitsOf(src)[8 * k..8 * k + 8] == LsbBits(src[k], 8)
  {
    var init := src[..|src| - 1];
    if k == |src| - 1 {
      assert BitsOf(src)[8 * k..8 * k + 8] == LsbBits(src[k], 8);
    } else {
      BitsOfByte(init, k);
      assert BitsOf(src)[8 * k..8 * k + 8] == BitsOf(init)[8 * k..8 * k + 8];
    }
  }

  /** A byte is the value of its eight stream bits. */
  lemma ByteIsValue(src: seq<byte>, k: nat)
    requires k < |src|
    ensures LsbValue(BitsOf(src)[8 * k..8 * k + 8]) == src[k]
  {
    BitsOfByte(src, k);
    assert Pow2(8) == 256;
    LsbRoundTrip(src[k], 8);
  }

  /** `e` is written at bit position `pos` of `s`. */
  predicate At(s: seq<bit>, pos: nat, e: seq<bit>) {
    pos + |e| <= |s| && s[pos..pos + |e|] == e
  }

  lemma AtSplit(s: seq<bit>, pos: nat, a: seq<bit>, b: seq<bit>)
    requires At(s, pos, a + b)
    ensures At(s, pos, a) && At(s, pos + |a|, b)
  {
    assert s[pos..pos + |a|] == (a + b)[..|a|];
    assert s[pos + |a|..pos + |a| + |b|] == (a + b)[|a|..];
  }

  /** A bit string packed into bytes, the last byte filled with zero bits. */
  function Pack(b: seq<bit>): (src: seq<byte>)
    decreases |b|
  {
    if b == [] then []
    else if |b| <= 8 then
      LsbBound(b); Pow2Monotone(|b|, 8); assert Pow2(8) == 256;
      [LsbValue(b)]
    else
      LsbBound(b[..8]); assert Pow2(8) == 256;
      [LsbValue(b[..8])] + Pack(b[8..])
  }

  lemma {:induction false} BitsOfCons(x: byte, rest: seq<byte>)
    ensures BitsOf([x] + rest) == LsbBits(x, 8) + BitsOf(rest)
  {
    hide LsbBits;
    var s := [x] + rest;
    if rest == [] {
      assert s[..|s| - 1] == [];
    } else {
      BitsOfCons(x, rest[..|rest| - 1]);
      assert s[..|s| - 1] == [x] + rest[..|rest| - 1];
    }
  }

  lemma {:induction false} LsbBitsPrefix(b: seq<bit>, n: nat)
    requires |b| <= n
    ensures b <= LsbBits(LsbValue(b), n)
  {
    if b != [] {
      LsbBitsPrefix(b[1..], n - 1);
      assert b == [b[0]] + b[1..];
    }
  }

  /** Packing keeps the bits: the buffer's stream starts with them. */
  lemma {:induction false} PackRoundTrip(b: seq<bit>)
    ensures b <= BitsOf(Pack(b))
    decreases |b|
  {
    hide LsbBits, LsbValue, BitsOf;
    if b == [] {
    } else if |b| <= 8 {
      LsbBitsPrefix(b, 8);
      BitsOfCons(Pack(b)[0], []);
      assert Pack(b) == [Pack(b)[0]] + [];
    } else {
      PackRoundTrip(b[8..]);
      LsbBitsPrefix(b[..8], 8);
      BitsOfCons(Pack(b)[0], Pack(b[8..]));
      assert b == b[..8] + b[8..];
    }
  }
}
