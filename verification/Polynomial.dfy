/**
 Polynomials over the field of two elements, as lists of coefficients from the highest degree
 down, and division by the generator of CRC-32 (section 8 of RFC 1952).
 */
module Polynomial {

  type Poly = seq<bool>

  function Zeros(n: nat): (p: Poly)
    ensures |p| == n && forall i :: 0 <= i < n ==> !p[i]
  {
    seq(n, _ => false)
  }

  function Ones(n: nat): (p: Poly)
    ensures |p| == n && forall i :: 0 <= i < n ==> p[i]
  {
    seq(n, _ => true)
  }

  /** The sum of two polynomials of one length, which is also their difference. */
  function Sum(a: Poly, b: Poly): (c: Poly)
    requires |a| == |b|
    ensures |c| == |a| && forall i :: 0 <= i < |a| ==> c[i] == (a[i] != b[i])
  {
    seq(|a|, i requires 0 <= i < |a| => a[i] != b[i])
  }

  /** The degrees that occur in the generator. */
  const DEGREES: seq<nat> := [32, 26, 23, 22, 16, 12, 11, 10, 8, 7, 5, 4, 2, 1, 0]

  function Generator(): (g: Poly)
    ensures |g| == 33 && forall i :: 0 <= i < 33 ==> g[i] == (32 - i in DEGREES)
  {
    seq(33, i requires 0 <= i < 33 => 32 - i in DEGREES)
  }

  /** The generator times a constant. */
  function Scaled(c: bool): (p: Poly)
    ensures |p| == 33 && forall i :: 0 <= i < 33 ==> p[i] == (c && Generator()[i])
  {
    if c then Generator() else Zeros(33)
  }

  /** `q` times the generator: the last coefficient of `q` adds the generator itself. */
  function Times(q: Poly): (p: Poly)
    ensures |p| == |q| + 32
  {
    if q == [] then Zeros(32)
    else
      var n := |q| - 1;
      Sum(Times(q[..n]) + [false], Zeros(n) + Scaled(q[n]))
  }

  /** `r` is what division of `p` by the generator leaves: they differ by a multiple of it. */
  ghost predicate IsRemainder(p: Poly, r: Poly) {
    |r| == 32 && |p| >= 32 && exists q :: Quotient(p, q, r)
  }

  predicate Quotient(p: Poly, q: Poly, r: Poly) {
    |r| == 32 && |p| == |q| + 32 && Sum(p, Zeros(|q|) + r) == Times(q)
  }

  /** `p` times x, plus the coefficient `b` at degree 32. */
  ghost predicate Grown(p: Poly, b: bool, p': Poly) {
    && |p| >= 32 && |p'| == |p| + 1
    && forall j :: 0 <= j < |p'| ==> p'[j] == ((j < |p| && p[j]) != (j == |p| - 32 && b))
  }

  /** Dividing one coefficient more: the remainder times x, without the generator if it has degree 32. */
  lemma QuotientMore(p: Poly, q: Poly, r: Poly, b: bool, p': Poly, r': Poly)
    requires Quotient(p, q, r) && Grown(p, b, p') && |r'| == 32
    requires var c := r[0] != b; [c] + r[1..] + [false] == Sum(Scaled(c), [false] + r')
    ensures Quotient(p', q + [r[0] != b], r')
  {
    var n, c := |q|, r[0] != b;
    var q' := q + [c];
    assert q'[..n] == q;
    var d, e := [c] + r[1..] + [false], Zeros(n + 1) + r';
    hide Scaled, Generator, Times;
    assert Times(q') == Sum(Times(q) + [false], Zeros(n) + Scaled(c)) by {
      TimesMore(q, c);
    }
    forall j | 0 <= j < n + 33 ensures Sum(p', e)[j] == Times(q')[j] {
      if j < n + 32 {
        assert Times(q)[j] == (p[j] != (Zeros(n) + r)[j]);
      }
      if j >= n {
        assert d[j - n] == (Scaled(c)[j - n] != ([false] + r')[j - n]);
        assert j - n > 0 ==> e[j] == r'[j - n - 1];
      }
    }
  }

  lemma TimesMore(q: Poly, c: bool)
    ensures Times(q + [c]) == Sum(Times(q) + [false], Zeros(|q|) + Scaled(c))
  {
    assert (q + [c])[..|q|] == q;
  }

  lemma {:induction false} TimesLinear(a: Poly, b: Poly)
    requires |a| == |b|
    ensures Times(Sum(a, b)) == Sum(Times(a), Times(b))
  {
    if a != [] {
      var n := |a| - 1;
      TimesLinear(a[..n], b[..n]);
      assert Sum(a, b)[..n] == Sum(a[..n], b[..n]);
    }
  }

  /** A multiple of the generator without coefficients above degree 31 is zero. */
  lemma {:induction false} SmallMultiple(q: Poly)
    requires forall i :: 0 <= i < |q| ==> !Times(q)[i]
    ensures Times(q) == Zeros(|q| + 32)
  {
    if q != [] {
      var n := |q| - 1;
      var lower := Times(q[..n]);
      assert Scaled(q[n])[0] == q[n];
      hide Scaled, Generator;
      forall i | 0 <= i < n ensures !lower[i] {
        assert Times(q)[i] == lower[i];
      }
      SmallMultiple(q[..n]);
      assert Times(q)[n] == q[n];
    }
  }

  /** Division leaves one remainder only. */
  lemma RemainderUnique(p: Poly, r: Poly, s: Poly)
    requires IsRemainder(p, r) && IsRemainder(p, s)
    ensures r == s
  {
    var a :| Quotient(p, a, r);
    var b :| Quotient(p, b, s);
    var n := |a|;
    TimesLinear(a, b);
    var d := Times(Sum(a, b));
    forall i | 0 <= i < |p| ensures d[i] == ((Zeros(n) + r)[i] != (Zeros(n) + s)[i]) {
      assert Times(a)[i] == (p[i] != (Zeros(n) + r)[i]);
      assert Times(b)[i] == (p[i] != (Zeros(n) + s)[i]);
    }
    SmallMultiple(Sum(a, b));
    forall i | 0 <= i < 32 ensures r[i] == s[i] {
      assert (Zeros(n) + r)[n + i] == r[i] && (Zeros(n) + s)[n + i] == s[i];
    }
  }
}
