/**
 The decoder's Huffman tables: how many symbols each code length has, and the symbols
 sorted by code length. `Build` fills them from a length vector by a counting sort;
 `BuildFixedLiteral` and `BuildFixedDistance` write out the tables of the fixed codes.
 */
module HuffmanTables {
  import opened Bits
  import opened Huffman

  const MAX_SYMBOLS: nat := 288
  const MAX_DISTANCE: nat := 32

  /** How many codes are shorter than `l`. */
  function Below(lengths: Lengths, l: nat): (c: nat) {
    if l == 0 then 0 else Below(lengths, l - 1) + Leaves(lengths, l - 1)
  }

  lemma {:induction false} BelowMonotone(lengths: Lengths, l: nat, m: nat)
    requires l < m
    ensures Below(lengths, l) + Leaves(lengths, l) <= Below(lengths, m)
  {
    if l + 1 < m {
      BelowMonotone(lengths, l, m - 1);
    }
  }

  lemma {:induction false} BelowStep(lengths: Lengths, l: nat)
    requires lengths != []
    ensures var n := |lengths| - 1;
            Below(lengths, l) == Below(lengths[..n], l) + (if 0 < lengths[n] < l then 1 else 0)
  {
    if l > 0 {
      BelowStep(lengths, l - 1);
    }
  }

  lemma {:induction false} BelowTotal(lengths: Lengths, l: nat)
    ensures Below(lengths, l) <= |lengths|
  {
    if lengths == [] {
      BelowEmpty(l);
    } else {
      BelowTotal(lengths[..|lengths| - 1], l);
      BelowStep(lengths, l);
    }
  }

  lemma {:induction false} BelowEmpty(l: nat)
    ensures Below([], l) == 0
  {
    if l > 0 {
      BelowEmpty(l - 1);
    }
  }

  /** Where the sort puts symbol `x`: after all shorter codes and all its predecessors. */
  function Slot(lengths: Lengths, x: nat): (k: nat)
    requires x < |lengths|
  {
    Below(lengths, lengths[x]) + Rank(lengths, x)
  }

  lemma SlotBound(lengths: Lengths, x: nat)
    requires x < |lengths| && lengths[x] > 0
    ensures Slot(lengths, x) < Below(lengths, lengths[x] + 1) <= |lengths|
  {
    RankBound(lengths, x);
    BelowTotal(lengths, lengths[x] + 1);
  }

  /** No two coded symbols share a slot, so the sort is a permutation of them. */
  lemma SlotInjective(lengths: Lengths, x: nat, y: nat)
    requires x < |lengths| && y < |lengths| && lengths[x] > 0 && lengths[y] > 0
    requires Slot(lengths, x) == Slot(lengths, y)
    ensures x == y
  {
    RankBound(lengths, x);
    RankBound(lengths, y);
    if lengths[x] < lengths[y] {
      BelowMonotone(lengths, lengths[x], lengths[y]);
    } else if lengths[y] < lengths[x] {
      BelowMonotone(lengths, lengths[y], lengths[x]);
    } else {
      RankInjective(lengths, x, y);
    }
  }

  class Tree {
    const blCount: array<u16>
    const sortedSymbols: array<u16>

    ghost predicate Shaped() {
      blCount.Length == MAX_BITS && sortedSymbols.Length == MAX_SYMBOLS && blCount != sortedSymbols
    }

    /** The counts are those of `lengths`. */
    ghost predicate Counts(lengths: Lengths)
      requires Shaped()
      reads blCount
    {
      forall l :: 0 <= l < MAX_BITS ==> blCount[l] == Leaves(lengths, l)
    }

    /** The symbols below `n` that have a code are in their slots. */
    ghost predicate Sorted(lengths: Lengths, n: nat)
      requires Shaped()
      reads sortedSymbols
    {
      n <= |lengths| <= MAX_SYMBOLS
      && forall x :: 0 <= x < n && lengths[x] > 0 ==>
           Slot(lengths, x) < MAX_SYMBOLS && sortedSymbols[Slot(lengths, x)] == x
    }

    /** The tables are those of the length vector `lengths`. */
    ghost predicate For(lengths: Lengths)
      reads blCount, sortedSymbols
    {
      Shaped() && Counts(lengths) && Sorted(lengths, |lengths|)
    }

    constructor ()
      ensures Shaped() && fresh(blCount) && fresh(sortedSymbols)
    {
      blCount := new u16[MAX_BITS];
      sortedSymbols := new u16[MAX_SYMBOLS];
    }

    /** Clears the counts, then counts the symbols of each length. */
    method CountLengths(lengths: Lengths)
      requires Shaped() && |lengths| <= MAX_SYMBOLS
      modifies blCount
      ensures Counts(lengths)
    {
      for it := 0 to MAX_BITS
        invariant forall l :: 0 <= l < it ==> blCount[l] == 0
      {
        blCount[it] := 0;
      }
      for it := 0 to |lengths|
        invariant forall l :: 0 <= l < MAX_BITS ==> blCount[l] == Count(lengths[..it], l)
      {
        forall l | 0 <= l < MAX_BITS
          ensures Count(lengths[..it + 1], l) == Count(lengths[..it], l) + (if lengths[it] == l then 1 else 0)
        {
          CountStep(lengths, it, l);
        }
        blCount[lengths[it]] := blCount[lengths[it]] + 1;
      }
      assert lengths[..|lengths|] == lengths;
      blCount[0] := 0;
    }

    /** Running totals of the counts: where each length's symbols start. */
    method Offsets(lengths: Lengths) returns (offs: array<u16>)
      requires Shaped() && Counts(lengths) && |lengths| <= MAX_SYMBOLS
      ensures fresh(offs) && offs.Length == MAX_BITS
      ensures forall l :: 0 <= l < MAX_BITS ==> offs[l] == Below(lengths, l)
    {
      offs := new u16[MAX_BITS];
      var sum: u16 := 0;
      for it := 0 to MAX_BITS
        invariant sum == Below(lengths, it)
        invariant forall l :: 0 <= l < it ==> offs[l] == Below(lengths, l)
        invariant Counts(lengths)
      {
        offs[it] := sum;
        BelowTotal(lengths, it + 1);
        sum := sum + blCount[it];
      }
    }

    /** `offs` holds the next free place of each length when the symbols below `n` are placed. */
    ghost predicate NextFree(lengths: Lengths, offs: array<u16>, n: nat)
      reads offs
    {
      n <= |lengths| <= MAX_SYMBOLS && offs.Length == MAX_BITS
      && forall l :: 0 < l < MAX_BITS ==> offs[l] == Below(lengths, l) + Count(lengths[..n], l)
    }

    /** Writing symbol `n` to its slot leaves the earlier symbols in theirs. */
    lemma SlotIsFree(lengths: Lengths, n: nat)
      requires n < |lengths| <= MAX_SYMBOLS && lengths[n] > 0
      ensures Slot(lengths, n) < MAX_SYMBOLS
      ensures forall x :: 0 <= x < n && lengths[x] > 0 ==> Slot(lengths, x) != Slot(lengths, n)
    {
      SlotBound(lengths, n);
      forall x | 0 <= x < n && lengths[x] > 0 ensures Slot(lengths, x) != Slot(lengths, n) {
        if Slot(lengths, x) == Slot(lengths, n) {
          SlotInjective(lengths, x, n);
        }
      }
    }

    lemma NextFreeStep(lengths: Lengths, n: nat)
      requires n < |lengths|
      ensures forall l :: 0 < l < MAX_BITS ==>
        Count(lengths[..n + 1], l) == Count(lengths[..n], l) + (if l == lengths[n] then 1 else 0)
    {
      forall l | 0 < l < MAX_BITS
        ensures Count(lengths[..n + 1], l) == Count(lengths[..n], l) + (if l == lengths[n] then 1 else 0)
      {
        CountStep(lengths, n, l);
      }
    }

    /** Puts each symbol that has a code at the next free place of its length. */
    method Place(lengths: Lengths, offs: array<u16>)
      requires Shaped() && offs != blCount && offs != sortedSymbols && NextFree(lengths, offs, 0)
      modifies sortedSymbols, offs
      ensures Sorted(lengths, |lengths|)
    {
      for it := 0 to |lengths|
        invariant Sorted(lengths, it) && NextFree(lengths, offs, it)
      {
        NextFreeStep(lengths, it);
        var l := lengths[it];
        if l != 0 {
          SlotIsFree(lengths, it);
          sortedSymbols[offs[l]] := it;
          offs[l] := offs[l] + 1;
        }
      }
    }

    /** Builds the tables of a length vector. */
    method Build(lengths: Lengths)
      requires Shaped() && |lengths| <= MAX_SYMBOLS
      modifies blCount, sortedSymbols
      ensures For(lengths)
    {
      CountLengths(lengths);
      var offs := Offsets(lengths);
      Place(lengths, offs);
    }

    lemma CountAt(lengths: Lengths, l: nat)
      requires For(lengths) && 0 < l < MAX_BITS
      ensures Shaped() && |lengths| <= MAX_SYMBOLS && blCount[l] == Count(lengths, l)
    {
    }

    /** The symbol the search finds `offs` places into level `l`. */
    lemma SymbolAt(lengths: Lengths, l: nat, offs: nat)
      requires For(lengths) && 0 < l < MAX_BITS && offs < Count(lengths, l)
      ensures Shaped() && Below(lengths, l) + offs < MAX_SYMBOLS
      ensures sortedSymbols[Below(lengths, l) + offs] == Nth(lengths, l, offs)
    {
      var x := Nth(lengths, l, offs);
      assert Slot(lengths, x) == Below(lengths, l) + offs;
    }

    /* ---- The fixed codes ---- */

    method Clear()
      requires Shaped()
      modifies blCount
      ensures forall l :: 0 <= l < MAX_BITS ==> blCount[l] == 0
    {
      for it := 0 to MAX_BITS
        invariant forall l :: 0 <= l < it ==> blCount[l] == 0
      {
        blCount[it] := 0;
      }
    }

    /** Writes the consecutive symbols `first`, `first + 1`, ... at `start`. */
    method PutRun(start: nat, first: nat, n: nat)
      requires Shaped() && start + n <= MAX_SYMBOLS && first + n <= MAX_SYMBOLS
      modifies sortedSymbols
      ensures forall k :: 0 <= k < MAX_SYMBOLS ==>
        sortedSymbols[k] == if start <= k < start + n then first + (k - start) else old(sortedSymbols[k])
    {
      for it := 0 to n
        invariant forall k :: 0 <= k < MAX_SYMBOLS ==>
          sortedSymbols[k] == if start <= k < start + it then first + (k - start) else old(sortedSymbols[k])
      {
        sortedSymbols[start + it] := first + it;
      }
    }

    /** The literal/length tables of section 3.2.6 of RFC 1951. */
    method BuildFixedLiteral()
      requires Shaped()
      modifies blCount, sortedSymbols
      ensures For(FixedLiteral())
    {
      Clear();
      blCount[7] := 24;
      blCount[8] := 152;
      blCount[9] := 112;
      PutRun(0, 256, 24);
      PutRun(24, 0, 144);
      PutRun(24 + 144, 280, 8);
      PutRun(24 + 144 + 8, 144, 112);
      FixedLiteralCounts();
      forall x | 0 <= x < 288 ensures Slot(FixedLiteral(), x) == FixedSlot(x) {
        FixedLiteralSlot(x);
      }
    }

    /** The distance tables of section 3.2.6 of RFC 1951. */
    method BuildFixedDistance()
      requires Shaped()
      modifies blCount, sortedSymbols
      ensures For(FixedDistance())
    {
      Clear();
      blCount[5] := 32;
      PutRun(0, 0, 32);
      FixedDistanceTables();
    }
  }

  /** `n` symbols of length `v`. */
  function Run(v: nat, n: nat): (s: Lengths)
    requires v < MAX_BITS
    ensures |s| == n && forall i :: 0 <= i < n ==> s[i] == v
  {
    seq(n, _ => v)
  }

  /** The fixed literal/length code lengths (section 3.2.6 of RFC 1951). */
  function FixedLiteral(): (s: Lengths)
    ensures |s| == 288
  {
    Run(8, 144) + Run(9, 112) + Run(7, 24) + Run(8, 8)
  }

  /** The fixed distance code lengths (section 3.2.6 of RFC 1951). */
  function FixedDistance(): (s: Lengths)
    ensures |s| == 32
  {
    Run(5, 32)
  }

  lemma {:induction false} CountRun(v: nat, n: nat, l: nat)
    requires v < MAX_BITS
    ensures Count(Run(v, n), l) == if l == v then n else 0
  {
    if n > 0 {
      CountRun(v, n - 1, l);
      assert Run(v, n)[..n - 1] == Run(v, n - 1);
    }
  }

  lemma {:induction false} CountConcat(a: Lengths, b: Lengths, l: nat)
    ensures Count(a + b, l) == Count(a, l) + Count(b, l)
  {
    if b == [] {
      assert a + b == a;
    } else {
      CountConcat(a, b[..|b| - 1], l);
      assert (a + b)[..|a + b| - 1] == a + b[..|b| - 1];
    }
  }

  lemma CountRuns(a: nat, b: nat, c: nat, d: nat, l: nat)
    ensures Count(Run(8, a) + Run(9, b) + Run(7, c) + Run(8, d), l)
            == (if l == 7 then c else if l == 8 then a + d else if l == 9 then b else 0)
  {
    CountConcat(Run(8, a) + Run(9, b) + Run(7, c), Run(8, d), l);
    CountConcat(Run(8, a) + Run(9, b), Run(7, c), l);
    CountConcat(Run(8, a), Run(9, b), l);
    CountRun(8, a, l);
    CountRun(9, b, l);
    CountRun(7, c, l);
    CountRun(8, d, l);
  }

  lemma FixedLiteralCounts()
    ensures forall l :: 0 <= l < MAX_BITS ==>
      Leaves(FixedLiteral(), l) == (if l == 7 then 24 else if l == 8 then 152 else if l == 9 then 112 else 0)
  {
    forall l | 0 <= l < MAX_BITS
      ensures Leaves(FixedLiteral(), l) == (if l == 7 then 24 else if l == 8 then 152 else if l == 9 then 112 else 0)
    {
      CountRuns(144, 112, 24, 8, l);
    }
  }

  /** Where the fixed table holds symbol `x`. */
  function FixedSlot(x: nat): (k: nat) {
    if x < 144 then 24 + x
    else if x < 256 then 24 + 144 + 8 + (x - 144)
    else if x < 280 then x - 256
    else 24 + 144 + (x - 280)
  }

  /** A prefix of the fixed lengths is again a list of four runs. */
  lemma FixedPrefix(x: nat)
    requires x < 288
    ensures FixedLiteral()[..x] ==
            if x < 144 then Run(8, x) + Run(9, 0) + Run(7, 0) + Run(8, 0)
            else if x < 256 then Run(8, 144) + Run(9, x - 144) + Run(7, 0) + Run(8, 0)
            else if x < 280 then Run(8, 144) + Run(9, 112) + Run(7, x - 256) + Run(8, 0)
            else Run(8, 144) + Run(9, 112) + Run(7, 24) + Run(8, x - 280)
  {
  }

  lemma FixedRank(x: nat)
    requires x < 288
    ensures FixedLiteral()[x] == if x < 144 then 8 else if x < 256 then 9 else if x < 280 then 7 else 8
    ensures Rank(FixedLiteral(), x) ==
            if x < 144 then x else if x < 256 then x - 144 else if x < 280 then x - 256 else 144 + (x - 280)
  {
    FixedPrefix(x);
    var l := FixedLiteral()[x];
    if x < 144 {
      CountRuns(x, 0, 0, 0, l);
    } else if x < 256 {
      CountRuns(144, x - 144, 0, 0, l);
    } else if x < 280 {
      CountRuns(144, 112, x - 256, 0, l);
    } else {
      CountRuns(144, 112, 24, x - 280, l);
    }
  }

  lemma {:induction false} FixedBelow(l: nat)
    requires l < MAX_BITS
    ensures Below(FixedLiteral(), l) == (if l <= 7 then 0 else if l == 8 then 24 else if l == 9 then 176 else 288)
  {
    FixedLiteralCounts();
    if l > 0 {
      FixedBelow(l - 1);
    }
  }

  /** The written-out table holds each symbol where the counting sort would put it. */
  lemma FixedLiteralSlot(x: nat)
    requires x < 288
    ensures Slot(FixedLiteral(), x) == FixedSlot(x)
  {
    FixedRank(x);
    FixedBelow(7);
    FixedBelow(8);
    FixedBelow(9);
  }

  lemma {:induction false} FixedDistanceBelow(l: nat)
    requires l <= 5
    ensures Below(FixedDistance(), l) == 0
  {
    if l > 0 {
      FixedDistanceBelow(l - 1);
      CountRun(5, 32, l - 1);
    }
  }

  lemma FixedDistanceTables()
    ensures forall l :: 0 <= l < MAX_BITS ==> Leaves(FixedDistance(), l) == if l == 5 then 32 else 0
    ensures forall x :: 0 <= x < 32 ==> Slot(FixedDistance(), x) == x
  {
    forall l | 0 <= l < MAX_BITS ensures Leaves(FixedDistance(), l) == if l == 5 then 32 else 0 {
      CountRun(5, 32, l);
    }
    forall x | 0 <= x < 32 ensures Slot(FixedDistance(), x) == x {
      FixedDistanceBelow(5);
      CountRun(5, x, 5);
      assert FixedDistance()[..x] == Run(5, x);
    }
  }
}
