/**
 Canonical Huffman codes (section 3.2.2 of RFC 1951): the code the standard assigns to
 each symbol of a length vector, and the level-by-level search the decoder performs, with
 the proof that the search returns a symbol exactly when the stream continues with that
 symbol's code.
 */
module Huffman {
  import opened Bits
  import opened Stream

  const MAX_BITS: nat := 16

  /** Code lengths, indexed by symbol; 0 means the symbol has no code. */
  type Lengths = s: seq<nat> | forall i :: 0 <= i < |s| ==> s[i] < MAX_BITS

  /** How many symbols have length `l`. */
  function Count(lengths: Lengths, l: nat): (c: nat)
    ensures c <= |lengths|
  {
    if lengths == [] then 0
    else Count(lengths[..|lengths| - 1], l) + (if lengths[|lengths| - 1] == l then 1 else 0)
  }

  /** How many codes end at level `l`: length 0 gives no code. */
  function Leaves(lengths: Lengths, l: nat): (c: nat) {
    if l == 0 then 0 else Count(lengths, l)
  }

  /** How many symbols with the same length precede `s`. */
  function Rank(lengths: Lengths, s: nat): (c: nat)
    requires s < |lengths|
  {
    Count(lengths[..s], lengths[s])
  }

  /** The smallest code of length `l` (step 2 of section 3.2.2). */
  function FirstCode(lengths: Lengths, l: nat): (c: nat) {
    if l == 0 then 0 else 2 * (FirstCode(lengths, l - 1) + Leaves(lengths, l - 1))
  }

  /** The code of symbol `s` (step 3 of section 3.2.2). */
  function Code(lengths: Lengths, s: nat): (c: nat)
    requires s < |lengths|
  {
    FirstCode(lengths, lengths[s]) + Rank(lengths, s)
  }

  /** The symbol of length `l` that has `r` predecessors of that length. */
  function Nth(lengths: Lengths, l: nat, r: nat): (s: nat)
    requires r < Count(lengths, l)
    ensures s < |lengths| && lengths[s] == l && Rank(lengths, s) == r
  {
    var init := lengths[..|lengths| - 1];
    if r < Count(init, l) then
      var s := Nth(init, l, r);
      assert lengths[..s] == init[..s];
      s
    else |init|
  }

  lemma {:induction false} CountPrefix(lengths: Lengths, s: nat, l: nat)
    requires s <= |lengths|
    ensures Count(lengths[..s], l) <= Count(lengths, l)
  {
    if s == |lengths| {
      assert lengths[..s] == lengths;
    } else {
      var init := lengths[..|lengths| - 1];
      CountPrefix(init, s, l);
      assert init[..s] == lengths[..s];
    }
  }

  lemma CountStep(lengths: Lengths, s: nat, l: nat)
    requires s < |lengths|
    ensures Count(lengths[..s + 1], l) == Count(lengths[..s], l) + (if lengths[s] == l then 1 else 0)
  {
    assert lengths[..s + 1][..s] == lengths[..s];
  }

  /** A symbol's rank is below the number of symbols that share its length. */
  lemma RankBound(lengths: Lengths, s: nat)
    requires s < |lengths|
    ensures Rank(lengths, s) < Count(lengths, lengths[s])
  {
    CountStep(lengths, s, lengths[s]);
    CountPrefix(lengths, s + 1, lengths[s]);
  }

  /** Length and rank determine the symbol. */
  lemma RankInjective(lengths: Lengths, s: nat, t: nat)
    requires s < |lengths| && t < |lengths|
    requires lengths[s] == lengths[t] && Rank(lengths, s) == Rank(lengths, t)
    ensures s == t
  {
    if s < t {
      RankBelow(lengths, s, t);
    } else if t < s {
      RankBelow(lengths, t, s);
    }
  }

  lemma RankBelow(lengths: Lengths, s: nat, t: nat)
    requires s < t < |lengths| && lengths[s] == lengths[t]
    ensures Rank(lengths, s) < Rank(lengths, t)
  {
    CountStep(lengths, s, lengths[s]);
    CountPrefix(lengths[..t], s + 1, lengths[s]);
    assert lengths[..t][..s + 1] == lengths[..s + 1];
  }

  lemma NthOfRank(lengths: Lengths, s: nat)
    requires s < |lengths|
    ensures Rank(lengths, s) < Count(lengths, lengths[s])
    ensures Nth(lengths, lengths[s], Rank(lengths, s)) == s
  {
    RankBound(lengths, s);
    RankInjective(lengths, s, Nth(lengths, lengths[s], Rank(lengths, s)));
  }

  /* ---- The decoder's search ---- */

  /**
   The search from level `l` on: `offs` is the number read so far minus the codes and
   subtrees to the left of it on level `l - 1`.
   */
  function DecodeFrom(s: seq<bit>, pos: nat, lengths: Lengths, l: nat, offs: nat): (r: Parse<nat>)
    ensures !r.Undefined?
    ensures r.Parsed? ==> r.value < |lengths| && pos < r.pos <= |s|
    ensures r.Failed? ==> r.error != ErrNone
    decreases MAX_BITS - l
  {
    if l >= MAX_BITS then Failed(ErrSymbol)
    else if pos >= |s| then Failed(ErrOverflow)
    else
      var o := 2 * offs + s[pos];
      if o < Count(lengths, l) then Parsed(Nth(lengths, l, o), pos + 1)
      else DecodeFrom(s, pos + 1, lengths, l + 1, o - Count(lengths, l))
  }

  function DecodeSymbol(s: seq<bit>, pos: nat, lengths: Lengths): (r: Parse<nat>)
    ensures !r.Undefined?
    ensures r.Parsed? ==> r.value < |lengths| && pos < r.pos <= |s|
    ensures r.Failed? ==> r.error != ErrNone
  {
    DecodeFrom(s, pos, lengths, 1, 0)
  }

  /** The stream continues with the code of `x`, most significant bit first. */
  predicate Matches(s: seq<bit>, pos: nat, lengths: Lengths, x: nat) {
    x < |lengths| && lengths[x] > 0 && pos + lengths[x] <= |s|
    && MsbValue(s[pos..pos + lengths[x]]) == Code(lengths, x)
  }

  /** The number read down to level `l` lies right of every code on levels up to `l`. */
  predicate Beyond(s: seq<bit>, pos: nat, lengths: Lengths, l: nat, offs: nat) {
    pos + l <= |s|
    && MsbValue(s[pos..pos + l]) == offs + FirstCode(lengths, l) + Leaves(lengths, l)
  }

  lemma MsbStep(s: seq<bit>, pos: nat, k: nat, l: nat)
    requires pos + k < |s| && l == k + 1
    ensures MsbValue(s[pos..pos + l]) == 2 * MsbValue(s[pos..pos + k]) + s[pos + k]
  {
    assert s[pos..pos + l][..k] == s[pos..pos + k];
  }

  lemma FirstCodeStep(lengths: Lengths, k: nat, l: nat)
    requires l == k + 1
    ensures FirstCode(lengths, l) == 2 * (FirstCode(lengths, k) + Leaves(lengths, k))
  {
  }

  /** Reading one more bit: the number read, relative to the first code of the next level. */
  lemma BeyondStep(s: seq<bit>, pos: nat, lengths: Lengths, l: nat, offs: nat)
    requires l >= 1 && Beyond(s, pos, lengths, l - 1, offs) && pos + l - 1 < |s|
    ensures MsbValue(s[pos..pos + l]) == 2 * offs + s[pos + l - 1] + FirstCode(lengths, l)
  {
    hide MsbValue, Leaves, FirstCode;
    MsbStep(s, pos, l - 1, l);
    FirstCodeStep(lengths, l - 1, l);
  }

  lemma {:induction false} SearchSound(s: seq<bit>, pos: nat, lengths: Lengths, l: nat, offs: nat)
    requires l >= 1 && Beyond(s, pos, lengths, l - 1, offs)
    ensures var r := DecodeFrom(s, pos + l - 1, lengths, l, offs);
            && (r.Parsed? ==> Matches(s, pos, lengths, r.value) && r.pos == pos + lengths[r.value])
            && (r == Failed(ErrSymbol) && l <= MAX_BITS ==> pos + 15 <= |s|)
            && (r == Failed(ErrOverflow) ==> pos + 15 > |s|)
    decreases MAX_BITS - l
  {
    hide MsbValue, FirstCode, Nth, Count;
    if l < MAX_BITS && pos + l - 1 < |s| {
      BeyondStep(s, pos, lengths, l, offs);
      var o := 2 * offs + s[pos + l - 1];
      if o >= Count(lengths, l) {
        SearchSound(s, pos, lengths, l + 1, o - Count(lengths, l));
      }
    }
  }

  /** Codes of length `m` start right of everything on the shorter level `l`. */
  lemma {:induction false} FirstCodeGrows(lengths: Lengths, l: nat, m: nat)
    requires l < m
    ensures FirstCode(lengths, m) >= Pow2(m - l) * (FirstCode(lengths, l) + Leaves(lengths, l))
  {
    if m > l + 1 {
      FirstCodeGrows(lengths, l, m - 1);
      DoubleProduct(Pow2(m - 1 - l), FirstCode(lengths, l) + Leaves(lengths, l));
    }
  }

  lemma {:induction false} MsbPrefix(b: seq<bit>, l: nat)
    requires l <= |b|
    ensures MsbValue(b) < Pow2(|b| - l) * (MsbValue(b[..l]) + 1)
  {
    if l == |b| {
      assert b[..l] == b;
    } else {
      MsbPrefix(b[..|b| - 1], l);
      assert b[..|b| - 1][..l] == b[..l];
      DoubleProduct(Pow2(|b| - 1 - l), MsbValue(b[..l]) + 1);
    }
  }

  /** Above its own level, the path of a code passes right of all codes. */
  lemma PathPassesRight(s: seq<bit>, pos: nat, lengths: Lengths, x: nat, l: nat)
    requires Matches(s, pos, lengths, x) && l < lengths[x]
    ensures MsbValue(s[pos..pos + l]) >= FirstCode(lengths, l) + Leaves(lengths, l)
  {
    hide MsbValue, FirstCode, Pow2, Count;
    var m := lengths[x];
    var b := s[pos..pos + m];
    FirstCodeGrows(lengths, l, m);
    MsbPrefix(b, l);
    assert b[..l] == s[pos..pos + l];
    MulCancel(Pow2(m - l), FirstCode(lengths, l) + Leaves(lengths, l), MsbValue(b[..l]) + 1);
  }

  lemma {:induction false} SearchComplete(s: seq<bit>, pos: nat, lengths: Lengths, x: nat, l: nat, offs: nat)
    requires Matches(s, pos, lengths, x) && 1 <= l <= lengths[x]
    requires Beyond(s, pos, lengths, l - 1, offs)
    ensures DecodeFrom(s, pos + l - 1, lengths, l, offs) == Parsed(x, pos + lengths[x])
    decreases lengths[x] - l
  {
    hide MsbValue, FirstCode, Nth, Count;
    BeyondStep(s, pos, lengths, l, offs);
    var o := 2 * offs + s[pos + l - 1];
    if l == lengths[x] {
      NthOfRank(lengths, x);
    } else {
      PathPassesRight(s, pos, lengths, x, l);
      SearchComplete(s, pos, lengths, x, l + 1, o - Count(lengths, l));
    }
  }

  /** Decoding returns a symbol exactly when its code comes next, and takes just the code. */
  lemma DecodeIffCode(s: seq<bit>, pos: nat, lengths: Lengths, x: nat)
    requires pos <= |s|
    ensures Matches(s, pos, lengths, x)
            <==> DecodeSymbol(s, pos, lengths).Parsed? && DecodeSymbol(s, pos, lengths).value == x
    ensures Matches(s, pos, lengths, x) ==> DecodeSymbol(s, pos, lengths).pos == pos + lengths[x]
  {
    assert s[pos..pos] == [];
    SearchSound(s, pos, lengths, 1, 0);
    if Matches(s, pos, lengths, x) {
      SearchComplete(s, pos, lengths, x, 1, 0);
    }
  }

  /**
   When no code comes next the decoder reports it: a bad symbol when fifteen bits were
   there to look at, an overflow when the input ended first.
   */
  lemma DecodeFailsIffNoCode(s: seq<bit>, pos: nat, lengths: Lengths)
    requires pos <= |s|
    ensures DecodeSymbol(s, pos, lengths).Failed? <==> forall x :: !Matches(s, pos, lengths, x)
    ensures DecodeSymbol(s, pos, lengths) == Failed(ErrSymbol)
            <==> pos + 15 <= |s| && forall x :: !Matches(s, pos, lengths, x)
    ensures DecodeSymbol(s, pos, lengths) == Failed(ErrOverflow)
            <==> pos + 15 > |s| && forall x :: !Matches(s, pos, lengths, x)
  {
    assert s[pos..pos] == [];
    SearchSound(s, pos, lengths, 1, 0);
    forall x ensures Matches(s, pos, lengths, x) ==> DecodeSymbol(s, pos, lengths).Parsed? {
      DecodeIffCode(s, pos, lengths, x);
    }
    DecodeErrors(s, pos, lengths, 1, 0);
  }

  lemma {:induction false} DecodeErrors(s: seq<bit>, pos: nat, lengths: Lengths, l: nat, offs: nat)
    ensures var r := DecodeFrom(s, pos, lengths, l, offs);
            r.Failed? ==> r.error == ErrSymbol || r.error == ErrOverflow
    decreases MAX_BITS - l
  {
    if l < MAX_BITS && pos < |s| && 2 * offs + s[pos] >= Count(lengths, l) {
      DecodeErrors(s, pos + 1, lengths, l + 1, 2 * offs + s[pos] - Count(lengths, l));
    }
  }

  /** No code is the prefix of another: two symbols never match at one place. */
  lemma PrefixFree(s: seq<bit>, pos: nat, lengths: Lengths, x: nat, y: nat)
    requires pos <= |s| && Matches(s, pos, lengths, x) && Matches(s, pos, lengths, y)
    ensures x == y
  {
    DecodeIffCode(s, pos, lengths, x);
    DecodeIffCode(s, pos, lengths, y);
  }

  /* ---- Which length vectors give a code ---- */

  /** The share of the code space one symbol takes, in units of 2^-15. */
  function Share(l: nat): (w: nat)
    requires l < MAX_BITS
  {
    if l == 0 then 0 else Pow2(15 - l)
  }

  /** The Kraft sum of the symbols with lengths up to `m`, in units of 2^-15. */
  function KraftUpTo(lengths: Lengths, m: nat): (w: nat) {
    if lengths == [] then 0
    else
      var last := lengths[|lengths| - 1];
      KraftUpTo(lengths[..|lengths| - 1], m) + (if last <= m then Share(last) else 0)
  }

  /** The Kraft inequality. */
  predicate Kraft(lengths: Lengths) {
    KraftUpTo(lengths, 15) <= Pow2(15)
  }

  /** The code of `x` can be written with its length many bits. */
  predicate Encodable(lengths: Lengths, x: nat) {
    x < |lengths| && lengths[x] > 0 && Code(lengths, x) < Pow2(lengths[x])
  }

  lemma {:induction false} KraftLevel(lengths: Lengths, m: nat)
    requires 0 < m < MAX_BITS
    ensures KraftUpTo(lengths, m) == KraftUpTo(lengths, m - 1) + Count(lengths, m) * Pow2(15 - m)
  {
    if lengths != [] {
      var init := lengths[..|lengths| - 1];
      KraftLevel(init, m);
      Distribute(Count(init, m), 1, Pow2(15 - m));
    }
  }

  lemma {:induction false} KraftZero(lengths: Lengths)
    ensures KraftUpTo(lengths, 0) == 0
  {
    if lengths != [] {
      KraftZero(lengths[..|lengths| - 1]);
    }
  }

  lemma FillStep(x: nat, c: nat, p: nat)
    ensures x * (2 * p) + c * p == (2 * x + c) * p
  {
    Distribute(2 * x, c, p);
    Distribute(x, x, p);
  }

  /** The first code of length `m` that no symbol down to level `m` uses. */
  function Fill(lengths: Lengths, m: nat): (c: nat) {
    FirstCode(lengths, m) + Leaves(lengths, m)
  }

  /** The codes down to level `m` fill the code space up to the first free code there. */
  lemma {:induction false} KraftIsFill(lengths: Lengths, m: nat)
    requires m < MAX_BITS
    ensures KraftUpTo(lengths, m) == Fill(lengths, m) * Pow2(15 - m)
  {
    if m == 0 {
      KraftZero(lengths);
    } else {
      KraftIsFill(lengths, m - 1);
      KraftLevel(lengths, m);
      FillStep(Fill(lengths, m - 1), Count(lengths, m), Pow2(15 - m));
    }
  }

  lemma {:induction false} KraftMonotone(lengths: Lengths, m: nat, k: nat)
    requires m <= k
    ensures KraftUpTo(lengths, m) <= KraftUpTo(lengths, k)
  {
    if lengths != [] {
      KraftMonotone(lengths[..|lengths| - 1], m, k);
    }
  }

  lemma FitsScaled(w: nat, x: nat, m: nat, k: nat)
    requires w == x * Pow2(k)
    ensures w <= Pow2(m + k) <==> x <= Pow2(m)
  {
    Pow2Add(m, k);
    MulCancel(Pow2(k), Pow2(m), x);
  }

  lemma FillFits(lengths: Lengths, m: nat)
    requires m < MAX_BITS
    ensures KraftUpTo(lengths, m) <= Pow2(15) <==> Fill(lengths, m) <= Pow2(m)
  {
    KraftIsFill(lengths, m);
    FitsScaled(KraftUpTo(lengths, m), Fill(lengths, m), m, 15 - m);
  }

  /** The shortest level at which the codes no longer fit. */
  lemma {:induction false} OverfullLevel(lengths: Lengths, m: nat) returns (l: nat)
    requires m < MAX_BITS && FirstCode(lengths, m) + Leaves(lengths, m) > Pow2(m)
    ensures 0 < l <= m && FirstCode(lengths, l) <= Pow2(l) < FirstCode(lengths, l) + Leaves(lengths, l)
  {
    if FirstCode(lengths, m) <= Pow2(m) {
      l := m;
    } else {
      l := OverfullLevel(lengths, m - 1);
    }
  }

  /** Every symbol that has a length can be written exactly when the Kraft inequality holds. */
  lemma KraftIffEncodable(lengths: Lengths)
    ensures Kraft(lengths)
            <==> forall x :: 0 <= x < |lengths| && lengths[x] > 0 ==> Encodable(lengths, x)
  {
    if Kraft(lengths) {
      forall x | 0 <= x < |lengths| && lengths[x] > 0 ensures Encodable(lengths, x) {
        KraftMonotone(lengths, lengths[x], 15);
        FillFits(lengths, lengths[x]);
        RankBound(lengths, x);
      }
    } else {
      FillFits(lengths, 15);
      var l := OverfullLevel(lengths, 15);
      var x := Nth(lengths, l, Count(lengths, l) - 1);
      assert !Encodable(lengths, x);
    }
  }

  /* ---- Writing codes ---- */

  /** The code of `x` as the bits that go into the stream. */
  function CodeBits(lengths: Lengths, x: nat): (b: seq<bit>)
    requires x < |lengths|
    ensures |b| == lengths[x]
  {
    MsbBits(Code(lengths, x), lengths[x])
  }

  /** Decoding undoes writing a code. */
  lemma DecodeWritten(s: seq<bit>, pos: nat, lengths: Lengths, x: nat)
    requires Encodable(lengths, x) && At(s, pos, CodeBits(lengths, x))
    ensures DecodeSymbol(s, pos, lengths) == Parsed(x, pos + lengths[x])
  {
    MsbRoundTrip(Code(lengths, x), lengths[x]);
    DecodeIffCode(s, pos, lengths, x);
  }
}
