/**
 Removing memory from the map. The map itself comes out right; the total size is charged
 with the region that moved into the freed slot, and the dead slots are no longer below
 the end of the list when the last region goes.
 */
module MemblockRemove {
  import opened Common
  import opened MemblockSpec
  import opened MemblockIsolate
  import opened MemblockUpdate
  import opened MemblockFill
  import opened MemblockCut
  import opened Memblock

  /** `t` is `s` without the addresses of the range. */
  ghost predicate Cleared(s: seq<Region>, t: seq<Region>, base: nat, end: nat) {
    forall a: int :: Lookup(t, a) == if base <= a < end then None else Lookup(s, a)
  }

  /** What removing regions `start` to `end - 1` subtracts from the total size. */
  function Charged(s: seq<Region>, start: nat, end: nat): (c: nat)
    requires start <= end <= |s|
  {
    if end < |s| then (end - start) * s[end].size else Sum(s[start..end])
  }

  /** What removing a range subtracts from the total size, as a function of the map. */
  function Charge(s: seq<Region>, base: nat, end: nat): (c: nat)
    requires base <= end
  {
    var t := CutBoth(s, base, end);
    BeforeMonotone(t, base, end);
    Charged(t, Before(t, base), Before(t, end))
  }

  /** How much memory of the range is mapped. */
  function SizeIn(s: seq<Region>, base: nat, end: nat): (c: nat)
    requires base <= end
  {
    var t := CutBoth(s, base, end);
    BeforeMonotone(t, base, end);
    Sum(t[Before(t, base)..Before(t, end)])
  }

  lemma {:induction false} BeforeMonotone(s: seq<Region>, a: nat, b: nat)
    requires a <= b
    ensures Before(s, a) <= Before(s, b)
  {
    if s != [] && s[0].base < a {
      BeforeMonotone(s[1..], a, b);
    }
  }

  function Without(s: seq<Region>, start: nat, end: nat): (t: seq<Region>)
    requires start <= end <= |s|
  {
    s[..start] + s[end..]
  }

  lemma WithoutSum(s: seq<Region>, start: nat, end: nat)
    requires start <= end <= |s|
    ensures Sum(Without(s, start, end)) == Sum(s) - Sum(s[start..end])
  {
    hide Sum;
    SumConcat(s[..start], s[end..]);
    SumConcat(s[..start], s[start..end]);
    SumConcat(s[..start] + s[start..end], s[end..]);
    assert s == s[..start] + s[start..end] + s[end..];
  }

  /** Removing the isolated regions clears exactly the range and leaves a normal form. */
  lemma WithoutIsCleared(s0: seq<Region>, s: seq<Region>, base: nat, end: nat, st: nat, en: nat)
    requires Ordered(s) && SameMap(s0, s) && Isolated(s, base, end, st, en) && CutsOnly(s, base, end) && base < end
    ensures var t := Without(s, st, en); Normal(t) && Cleared(s0, t, base, end)
  {
    var t := Without(s, st, en);
    WithoutOrdered(s, st, en);
    forall k | 0 <= k < |t| - 1 ensures !Mergeable(t[k], t[k + 1]) {
      WithoutMerged(s, base, end, st, en, k);
    }
    forall a: int ensures Lookup(t, a) == if base <= a < end then None else Lookup(s0, a) {
      assert Lookup(s0, a) == Lookup(s, a);
      WithoutLookup(s, base, end, st, en, a);
    }
  }

  lemma WithoutOrdered(s: seq<Region>, st: nat, en: nat)
    requires Ordered(s) && st <= en <= |s|
    ensures Ordered(Without(s, st, en)) && |Without(s, st, en)| == |s| - (en - st)
    ensures forall k :: 0 <= k < |s| - (en - st) ==> Without(s, st, en)[k] == if k < st then s[k] else s[k + (en - st)]
  {
  }

  lemma OutsideNotMergeable(s: seq<Region>, base: nat, end: nat, st: nat, en: nat, k: nat)
    requires Ordered(s) && Isolated(s, base, end, st, en) && CutsOnly(s, base, end) && base < end
    requires k + 1 < |s| && (k + 1 < st || en <= k)
    ensures !Mergeable(s[k], s[k + 1])
  {
    hide Ordered, Isolated, CutsOnly;
    if Mergeable(s[k], s[k + 1]) {
      IsolatedCuts(s, base, end, st, en, k);
    }
  }

  /** The regions around the removed ones do not abut. */
  lemma GapNotMergeable(s: seq<Region>, st: nat, en: nat)
    requires Ordered(s) && 0 < st < en < |s|
    ensures !Mergeable(s[st - 1], s[en])
  {
    assert End(s[st - 1]) <= s[st].base < End(s[st]) <= s[en].base;
  }

  lemma WithoutAt(s: seq<Region>, st: nat, en: nat, k: nat)
    requires st <= en <= |s| && k < |s| - (en - st)
    ensures k < |Without(s, st, en)| && Without(s, st, en)[k] == if k < st then s[k] else s[k + (en - st)]
  {
  }

  lemma WithoutMerged(s: seq<Region>, base: nat, end: nat, st: nat, en: nat, k: nat)
    requires Ordered(s) && Isolated(s, base, end, st, en) && CutsOnly(s, base, end) && base < end
    requires k + 1 < |Without(s, st, en)|
    ensures !Mergeable(Without(s, st, en)[k], Without(s, st, en)[k + 1])
  {
    hide Ordered, CutsOnly;
    WithoutAt(s, st, en, k);
    WithoutAt(s, st, en, k + 1);
    if k + 1 == st {
      GapNotMergeable(s, st, en);
    } else {
      OutsideNotMergeable(s, base, end, st, en, if k < st then k else k + (en - st));
    }
  }

  lemma WithoutLookup(s: seq<Region>, base: nat, end: nat, st: nat, en: nat, a: int)
    requires Ordered(s) && Isolated(s, base, end, st, en)
    ensures Lookup(Without(s, st, en), a) == if base <= a < end then None else Lookup(s, a)
  {
    hide Without;
    var t, d := Without(s, st, en), en - st;
    WithoutOrdered(s, st, en);
    var i := Where(t, a);
    if i >= 0 {
      var j := if i < st then i else i + d;
      WithoutAt(s, st, en, i);
      LookupAt(s, j, a);
      assert Apart(s[j], base, end);
    } else if !(base <= a < end) {
      forall k | 0 <= k < |s| ensures !Covers(s[k], a) {
        if st <= k < en {
          assert Inside(s[k], base, end);
        } else {
          WithoutAt(s, st, en, if k < st then k else k - d);
        }
      }
      LookupOutside(s, a);
    }
  }

  /** Removes region `i`, and subtracts the size found at slot `i` afterwards. */
  method RemoveRegion(m: MemBlock, i: nat)
    requires i < m.n <= m.regions.Length
    modifies m, m.regions
    ensures m.n == old(m.n) - 1 && m.Live() == old(m.Live())[..i] + old(m.Live())[i + 1..]
    ensures forall k :: m.n <= k < m.regions.Length ==> m.regions[k] == old(m.regions[k])
    ensures m.size
      == Wrap(old(m.size) - (if i + 1 < old(m.n) then old(m.regions[i + 1]).size else old(m.regions[i]).size))
  {
    ghost var t := m.Live()[..i] + m.Live()[i + 1..];
    m.CloseGap(i);
    assert forall k :: 0 <= k < m.n ==> m.regions[k] == t[k];
    m.size := Wrap(m.size - m.regions[i].size);
  }

  lemma WrapTwice(a: int, x: int, y: int)
    ensures Wrap(Wrap(a - x) - y) == Wrap(a - (x + y))
  {
  }

  lemma ChargedStep(s: seq<Region>, i: nat, end: nat)
    requires i < end <= |s|
    ensures Charged(s, i, end) == Charged(s, i + 1, end) + (if end < |s| then s[end].size else s[i].size)
  {
    if end < |s| {
      assert (end - i) * s[end].size == (end - (i + 1)) * s[end].size + s[end].size;
    } else {
      assert s[i..end][1..] == s[i + 1..end];
    }
  }

  /** Removing one more region in front of those removed already. */
  lemma WithoutStep(s: seq<Region>, i: nat, end: nat)
    requires i < end <= |s|
    ensures var t := Without(s, i + 1, end);
            && |t| == |s| - (end - i - 1) && t[i] == s[i] && (end < |s| ==> t[i + 1] == s[end])
            && t[|t| - 1] == (if end < |s| then s[|s| - 1] else s[i])
            && t[..i] + t[i + 1..] == Without(s, i, end)
  {
  }

  /** What the removed slots hold: the old last region, or, if that is gone, what they held. */
  ghost predicate Slots(m: MemBlock, s: seq<Region>, before: seq<Region>, end: nat)
    reads m, m.regions
  {
    && |before| == m.regions.Length && m.n <= |s| <= m.regions.Length && end <= |s|
    && (forall k :: |s| <= k < m.regions.Length ==> m.regions[k] == before[k])
    && (forall k :: m.n <= k < |s| ==> m.regions[k] == if end < |s| then s[|s| - 1] else s[k])
  }

  /** The regions `i` to `end - 1` of `s` have been removed. */
  ghost predicate Removed(m: MemBlock, s: seq<Region>, before: seq<Region>, total: u64, i: nat, end: nat)
    reads m, m.regions
  {
    && i <= end <= |s| && m.n == |s| - (end - i) <= m.regions.Length
    && m.Live() == Without(s, i, end) && Slots(m, s, before, end)
    && m.size == Wrap(total - Charged(s, i, end))
  }

  method RemoveOne(m: MemBlock, i: nat, ghost end: nat, ghost s: seq<Region>, ghost before: seq<Region>,
                   ghost total: u64)
    requires Removed(m, s, before, total, i + 1, end)
    modifies m, m.regions
    ensures Removed(m, s, before, total, i, end)
  {
    hide Charged, Without, Wrap;
    ChargedStep(s, i, end);
    WithoutStep(s, i, end);
    WrapTwice(total, Charged(s, i + 1, end), if end < |s| then s[end].size else s[i].size);
    assert i + 1 == m.n <==> end == |s|;
    assert m.regions[i] == m.Live()[i] && (i + 1 < m.n ==> m.regions[i + 1] == m.Live()[i + 1]);
    assert m.regions[m.n - 1] == m.Live()[m.n - 1];
    RemoveRegion(m, i);
  }

  /** Removes the regions `start` to `end - 1`, the last one first. */
  method RemoveRegions(m: MemBlock, start: nat, end: nat)
    requires start <= end <= m.n <= m.regions.Length
    modifies m, m.regions
    ensures Removed(m, old(m.Live()), old(m.regions[..]), old(m.size), start, end)
  {
    ghost var s := m.Live();
    ghost var before := m.regions[..];
    assert Without(s, end, end) == s;
    assert Removed(m, s, before, m.size, end, end);
    hide Removed;
    for i := end downto start
      invariant Removed(m, s, before, old(m.size), i, end)
    {
      RemoveOne(m, i, end, s, before, old(m.size));
    }
  }

  /** The last region is removed exactly when the range reaches the end of the map. */
  lemma LastRemoved(s: seq<Region>, base: nat, end: nat, st: nat, en: nat)
    requires Ordered(s) && s != [] && Isolated(s, base, end, st, en)
    ensures st < en == |s| <==> base < End(s[|s| - 1]) <= end
  {
    var r := s[|s| - 1];
    assert if st <= |s| - 1 < en then Inside(r, base, end) else Apart(r, base, end);
  }

  /** With the last region kept, the dead slots stay below the end of the list. */
  lemma DeadKept(m: MemBlock, s: seq<Region>, before: seq<Region>, total: u64, st: nat, en: nat)
    requires Removed(m, s, before, total, st, en) && Ordered(s) && s != [] && (en < |s| || st == en)
    requires forall k :: |s| <= k < |before| ==> before[k].base < End(s[|s| - 1])
    ensures m.n > 0 && m.Top() == End(s[|s| - 1]) && m.DeadBelow()
  {
    hide Charged;
    assert m.regions[m.n - 1] == m.Live()[m.n - 1] == s[|s| - 1];
  }

  /** With the last region removed, the slot after the list starts at or above its end. */
  lemma DeadLost(m: MemBlock, s: seq<Region>, before: seq<Region>, total: u64, st: nat, en: nat)
    requires Removed(m, s, before, total, st, en) && Ordered(s) && 0 < st < en == |s|
    ensures m.n == st && !m.DeadBelow() && m.regions[m.n].base >= m.Top()
  {
    hide Charged;
    assert m.regions[m.n - 1] == m.Live()[m.n - 1] == s[st - 1];
    assert m.regions[m.n] == s[st];
  }

  /** No region moves up. */
  lemma TopKept(m: MemBlock, s: seq<Region>, st: nat, en: nat)
    requires Ordered(s) && st <= en <= |s| && m.n <= m.regions.Length && m.Live() == Without(s, st, en)
    ensures m.n > 0 ==> s != [] && m.Top() <= End(s[|s| - 1])
  {
    if m.n > 0 {
      WithoutAt(s, st, en, m.n - 1);
      assert m.regions[m.n - 1] == m.Live()[m.n - 1];
    }
  }

  lemma RemovedMap(s0: seq<Region>, cut: seq<Region>, base: nat, length: nat, st: nat, en: nat)
    requires Ordered(cut) && SameMap(s0, cut) && st <= en <= |cut|
    requires length == 0 ==> st == en == 0 && Merged(cut)
    requires length > 0 ==> Isolated(cut, base, base + length, st, en) && CutsOnly(cut, base, base + length)
    ensures Normal(Without(cut, st, en)) && Cleared(s0, Without(cut, st, en), base, base + length)
  {
    if length == 0 {
      assert Without(cut, 0, 0) == cut;
    } else {
      WithoutIsCleared(s0, cut, base, base + length, st, en);
    }
  }

  /** When the dead slots stay below the end of the list. */
  lemma DeadIff(m: MemBlock, s: seq<Region>, before: seq<Region>, total: u64, base: nat, length: nat, st: nat, en: nat)
    requires Removed(m, s, before, total, st, en) && Ordered(s) && s != []
    requires if length == 0 then st == en == 0 else Isolated(s, base, base + length, st, en)
    requires forall k :: |s| <= k < |before| ==> before[k].base < End(s[|s| - 1])
    ensures length == 0 || !(base < End(s[|s| - 1]) <= base + length) ==> m.DeadBelow()
    ensures length > 0 && base < End(s[|s| - 1]) <= base + length && m.n > 0 ==> !m.DeadBelow()
  {
    hide Ordered, Charged, Wrap, MemBlock.DeadBelow;
    if length > 0 {
      LastRemoved(s, base, base + length, st, en);
    }
    if st == en || en < |s| {
      DeadKept(m, s, before, total, st, en);
    } else if st > 0 {
      DeadLost(m, s, before, total, st, en);
    }
  }

  /** The regions that are removed, and what is charged for them, are functions of the map. */
  lemma RemovedSize(s0: seq<Region>, cut: seq<Region>, base: nat, length: nat, start: nat, end: nat)
    requires Normal(s0) && Ordered(cut) && SameMap(s0, cut) && Sum(cut) == Sum(s0) && start <= end <= |cut|
    requires length == 0 ==> start == end == 0
    requires length > 0 ==> Isolated(cut, base, base + length, start, end) && CutsOnly(cut, base, base + length)
    ensures Charged(cut, start, end) == Charge(s0, base, base + length)
    ensures Sum(Without(cut, start, end)) == Sum(s0) - SizeIn(s0, base, base + length)
  {
    hide Ordered, Sum, Without, SameMap, CutsOnly, Isolated, CutBoth, Merged;
    WithoutSum(cut, start, end);
    if length > 0 {
      IsolatedIsCut(s0, cut, base, base + length, start, end);
    }
    EmptyCharge(cut, start, end);
    var t := CutBoth(s0, base, base + length);
    EmptyCharge(t, Before(t, base), Before(t, base));
  }

  lemma EmptyCharge(s: seq<Region>, start: nat, end: nat)
    requires start <= end <= |s|
    ensures start == end ==> Charged(s, start, end) == Sum(s[start..end]) == 0
  {
  }

  /** The range takes away the end of the list. */
  ghost predicate TakesEnd(m: MemBlock, base: nat, length: nat)
    requires m.n <= m.regions.Length
    reads m, m.regions
  {
    length > 0 && base < m.Top() <= base + length
  }

  /** The map goes on unchanged across `base`. */
  predicate SplitsRegion(s: seq<Region>, base: nat) {
    Lookup(s, base).Some? && Lookup(s, base - 1) == Lookup(s, base)
  }

  /** In a list that is cut at `base`, two regions that meet there can be merged just if the map goes on across it. */
  lemma MergeableAtCut(s0: seq<Region>, s: seq<Region>, base: nat, end: nat, st: nat, en: nat)
    requires Ordered(s) && SameMap(s0, s) && Isolated(s, base, end, st, en) && base < end && 0 < st < en
    ensures Mergeable(s[st - 1], s[st]) <==> SplitsRegion(s0, base)
  {
    assert Apart(s[st - 1], base, end) && Inside(s[st], base, end) && End(s[st - 1]) <= s[st].base;
    assert Lookup(s0, base) == Lookup(s, base) && Lookup(s0, base - 1) == Lookup(s, base - 1);
    if Mergeable(s[st - 1], s[st]) {
      LookupAt(s, st, base);
      LookupAt(s, st - 1, base - 1);
    }
    if SplitsRegion(s0, base) {
      var i := Where(s, base);
      var j := Where(s, base - 1);
      assert forall k :: 0 <= k < |s| ==> if st <= k < en then Inside(s[k], base, end) else Apart(s[k], base, end);
      assert forall k :: 0 <= k < st - 1 ==> End(s[k]) <= s[st - 1].base;
      assert forall k :: st < k < |s| ==> End(s[st]) <= s[k].base;
      assert i == st && j == st - 1;
    }
  }

  lemma TotalBelow(s: seq<Region>)
    requires Ordered(s) && (s != [] ==> End(s[|s| - 1]) < ADDRESS_LIMIT)
    ensures Sum(s) < ADDRESS_LIMIT
  {
    if s != [] {
      SumBound(s);
    }
  }

  /** When the end of the list is removed the first dead slot holds the first region that went. */
  lemma EndTaken(m: MemBlock, s0: seq<Region>, s: seq<Region>, before: seq<Region>, total: u64, base: nat, length: nat,
                 st: nat, en: nat)
    requires Removed(m, s, before, total, st, en) && Ordered(s) && s != [] && SameMap(s0, s)
    requires if length == 0 then st == en == 0 else Isolated(s, base, base + length, st, en)
    requires length > 0 && base < End(s[|s| - 1]) <= base + length && m.n > 0
    ensures m.n < m.regions.Length && (Mergeable(m.regions[m.n - 1], m.regions[m.n]) <==> SplitsRegion(s0, base))
  {
    hide Ordered, Charged, Wrap, SameMap, SplitsRegion, Isolated;
    LastRemoved(s, base, base + length, st, en);
    MergeableAtCut(s0, s, base, base + length, st, en);
    assert m.regions[m.n - 1] == m.Live()[m.n - 1] == s[st - 1];
    assert m.regions[m.n] == s[st];
  }

  /** Removing after isolating, for the map `s0`. */
  method RemoveIsolated(m: MemBlock, ghost base: nat, ghost length: nat, start: nat, end: nat, ghost s0: seq<Region>)
    requires m.Valid() && start <= end <= m.n && Normal(s0) && SameMap(s0, m.Live()) && Sum(m.Live()) == Sum(s0)
    requires length == 0 ==> start == end == 0 && Merged(m.Live())
    requires length > 0 ==>
      Isolated(m.Live(), base, base + length, start, end) && CutsOnly(m.Live(), base, base + length)
    modifies m, m.regions
    ensures m.Valid() && Merged(m.Live()) && Cleared(s0, m.Live(), base, base + length)
    ensures m.size == Wrap(old(m.size) - Charge(s0, base, base + length))
    ensures Sum(m.Live()) == Sum(s0) - SizeIn(s0, base, base + length)
    ensures old(m.DeadBelow()) && !old(TakesEnd(m, base, length)) ==> m.DeadBelow()
    ensures old(m.DeadBelow()) && old(TakesEnd(m, base, length)) && m.n > 0 ==> !m.DeadBelow()
    ensures old(TakesEnd(m, base, length)) && m.n > 0 ==>
      && m.n < m.regions.Length
      && (Mergeable(m.regions[m.n - 1], m.regions[m.n]) <==> SplitsRegion(s0, base))
  {
    hide Ordered, SameMap, Sum, Charged, Charge, SizeIn, CutsOnly, Wrap, Isolated, Cleared, Without, Merged,
      SplitsRegion;
    ghost var cut := m.Live();
    RemovedMap(s0, cut, base, length, start, end);
    RemovedSize(s0, cut, base, length, start, end);
    ghost var before := m.regions[..];
    RemoveRegions(m, start, end);
    TopKept(m, cut, start, end);
    if cut != [] && old(m.DeadBelow()) {
      DeadIff(m, cut, before, old(m.size), base, length, start, end);
    }
    if old(TakesEnd(m, base, length)) && m.n > 0 {
      EndTaken(m, s0, cut, before, old(m.size), base, length, start, end);
    }
  }

  /**
   Unmaps the mapped addresses of a range. The memory map and its normal form come out
   right in every state; what is subtracted from the total size is `Charge`, not the
   size of what is removed, and the dead slots stay harmless exactly if the range does
   not take the last region away.
   */
  method Remove(m: MemBlock, base: nat, length: nat) returns (status: Status)
    requires m.Valid() && Merged(m.Live()) && base + length < ADDRESS_LIMIT
    modifies m, m.regions
    ensures status == if length > 0 && old(m.n) + 2 > m.regions.Length then NoSpace else Success
    ensures status == NoSpace ==> m.n == old(m.n) && m.regions[..] == old(m.regions[..]) && m.size == old(m.size)
    ensures m.Valid() && Merged(m.Live())
    ensures status == Success ==>
      && Cleared(old(m.Live()), m.Live(), base, base + length)
      && Sum(m.Live()) == Sum(old(m.Live())) - SizeIn(old(m.Live()), base, base + length)
      && m.size == Wrap(old(m.size) - Charge(old(m.Live()), base, base + length))
    ensures status == Success && old(m.size == Sum(m.Live())) ==>
      (m.size == Sum(m.Live()) <==> ChargesRight(old(m.Live()), base, base + length))
    ensures old(m.DeadBelow()) && (status == NoSpace || !old(TakesEnd(m, base, length))) ==> m.DeadBelow()
    ensures status == Success && old(m.DeadBelow()) && old(TakesEnd(m, base, length)) && m.n > 0 ==> !m.DeadBelow()
    ensures status == Success && old(TakesEnd(m, base, length)) && m.n > 0 ==>
      && m.n < m.regions.Length
      && (Mergeable(m.regions[m.n - 1], m.regions[m.n]) <==> SplitsRegion(old(m.Live()), base))
  {
    hide Ordered, SameMap, Sum, Charge, SizeIn, ChargesRight, CutsOnly, Wrap, Without, Isolated, Cleared, SplitsRegion;
    var start, end;
    status, start, end := m.IsolateRange(base, length);
    if status == Success {
      TotalBelow(old(m.Live()));
      SizeRightIff(old(m.Live()), base, base + length);
      RemoveIsolated(m, base, length, start, end, old(m.Live()));
    }
  }

  /**
   The removal of a range charges what it removes: nothing is removed, or nothing lies
   behind it, or the region behind has the right size by chance.
   */
  predicate ChargesRight(s: seq<Region>, base: nat, end: nat)
    requires base <= end
  {
    var t := CutBoth(s, base, end);
    var i, j := Before(t, base), Before(t, end);
    i == j || j == |t| || Wrap((j - i) * t[j].size) == SizeIn(s, base, end)
  }

  /** The size stays the sum of the regions exactly in these cases. */
  lemma SizeRightIff(s: seq<Region>, base: nat, end: nat)
    requires Normal(s) && Sum(s) < ADDRESS_LIMIT && base <= end
    ensures Wrap(Sum(s) - Charge(s, base, end)) == Sum(s) - SizeIn(s, base, end) <==> ChargesRight(s, base, end)
  {
    hide CutBoth, Before, Sum, Charged, Wrap, Normal, Ordered, Merged;
    var t := CutBoth(s, base, end);
    MappedPart(s, base, end);
    BeforeMonotone(t, base, end);
    ChargedCases(t, Before(t, base), Before(t, end), Sum(s));
  }

  lemma Balance(total: nat, charge: nat, removed: nat)
    requires removed <= total < ADDRESS_LIMIT
    ensures Wrap(total - charge) == total - removed <==> Wrap(charge) == removed
  {
  }

  lemma ChargedCases(t: seq<Region>, i: nat, j: nat, total: nat)
    requires i <= j <= |t| && Sum(t[i..j]) <= total < ADDRESS_LIMIT
    ensures Wrap(total - Charged(t, i, j)) == total - Sum(t[i..j])
            <==> i == j || j == |t| || Wrap((j - i) * t[j].size) == Sum(t[i..j])
  {
    EmptyCharge(t, i, j);
    Balance(total, Charged(t, i, j), Sum(t[i..j]));
    hide Sum, Wrap;
  }

  /** No more is mapped in a range than in all. */
  lemma MappedPart(s: seq<Region>, base: nat, end: nat)
    requires Normal(s) && base <= end
    ensures SizeIn(s, base, end) <= Sum(s)
  {
    var c, t := Cut(s, base), CutBoth(s, base, end);
    hide Ordered, Sum, Cut;
    assert CutsOnly(s, base, end);
    CutKeeps(s, base, base, end);
    CutKeeps(c, end, base, end);
    BeforeMonotone(t, base, end);
    WithoutSum(t, Before(t, base), Before(t, end));
  }

  /** With nothing mapped after the range the charge is right. */
  lemma ChargeAtTop(s: seq<Region>, base: nat, end: nat)
    requires Normal(s) && base <= end && forall k :: 0 <= k < |s| ==> End(s[k]) <= end
    ensures ChargesRight(s, base, end) && Charge(s, base, end) == SizeIn(s, base, end)
  {
    var c, t := Cut(s, base), CutBoth(s, base, end);
    hide Cut, Charged, Sum;
    assert CutsOnly(s, base, end);
    CutKeeps(s, base, base, end);
    CutKeeps(c, end, base, end);
    BeforeMonotone(t, base, end);
    var j := Before(t, end);
    if j < |t| {
      var a := t[j].base;
      LookupAt(t, j, a);
      assert Lookup(s, a) == Lookup(c, a) && Lookup(c, a) == Lookup(t, a);
      var i := Where(s, a);
      assert false;
    }
    ChargedAll(t, Before(t, base));
  }

  lemma ChargedAll(s: seq<Region>, start: nat)
    requires start <= |s|
    ensures Charged(s, start, |s|) == Sum(s[start..|s|])
  {
  }

  /** Removing the first 4K of a 12K region subtracts the 8K that stay. */
  lemma ChargeWrong()
    ensures var s := [Region(0x1000, 0x3000, -1, 0)];
            Normal(s) && Charge(s, 0x1000, 0x2000) == 0x2000 && SizeIn(s, 0x1000, 0x2000) == 0x1000
  {
    var r, lo, hi := Region(0x1000, 0x3000, -1, 0), Region(0x1000, 0x1000, -1, 0), Region(0x2000, 0x2000, -1, 0);
    var s, t := [r], [lo, hi];
    assert s[1..] == [] && t[1..] == [hi] && [hi][1..] == [];
    assert StraddleAt(s, 0x1000) == 1 && Cut(s, 0x1000) == s;
    assert StraddleAt(s, 0x2000) == 0 && Cut(s, 0x2000) == t;
    assert Before(t, 0x1000) == 0 && Before(t, 0x2000) == 1;
    assert t[0..1] == [lo] && [lo][1..] == [];
  }

  /* ---- Runs that fail ---- */

  /** Without attributes of note. */
  function Plain(base: nat, size: nat): (r: Region) {
    Region(base, size, -1, MEMBLOCK_NONE)
  }

  /**
   A run after which the comparison with the first dead slot would find a match: adding
   memory and removing its upper half.
   */
  method DeadSlotRun() returns (m: MemBlock)
    ensures fresh(m) && fresh(m.regions) && m.Valid() && Merged(m.Live()) && m.regions.Length == 8 && !m.DeadBelow()
    ensures m.Live() == [Plain(0x1000, 0x1000)] && Mergeable(m.regions[0], m.regions[1])
  {
    hide Ordered, Merged, Sum, SizeIn, Charge, ChargesRight, SplitsRegion, Cleared, Filled, DeadBelowIn;
    m := new MemBlock(8);
    m.RoomSuffices(0x1000, 0x2000, Attr(-1, MEMBLOCK_NONE));
    var added := m.AddRange(0x1000, 0x2000, -1, MEMBLOCK_NONE);
    OneRegion(m.Live(), Plain(0x1000, 0x2000));
    WillSplit();
    var status := Remove(m, 0x2000, 0x1000);
    LowerHalf(m.Live());
  }

  lemma WillSplit()
    ensures SplitsRegion([Plain(0x1000, 0x2000)], 0x2000) && TopOf([Plain(0x1000, 0x2000)]) == 0x3000
  {
  }

  lemma LowerHalf(t: seq<Region>)
    requires Normal(t) && Cleared([Plain(0x1000, 0x2000)], t, 0x2000, 0x3000)
    ensures t == [Plain(0x1000, 0x1000)]
  {
    assert [Plain(0x1000, 0x2000)][1..] == [];
    assert Filled([], t, 0x1000, 0x2000, Attr(-1, MEMBLOCK_NONE));
    OneRegion(t, Plain(0x1000, 0x1000));
  }

  /** Setting the node that the region has already: nothing can be merged but the dead slot. */
  method DeadMatchRun() returns (m: MemBlock, status: Status)
    ensures fresh(m) && status == DeadMatch
  {
    m := DeadSlotRun();
    DeadMatchNext(m.regions[..]);
    assert m.regions[..][..m.n] == m.Live();
    status := m.SetNodeRange(0x1000, 0x1000, -1);
  }

  lemma DeadMatchNext(slots: seq<Region>)
    requires |slots| == 8 && slots[..1] == [Plain(0x1000, 0x1000)] && Mergeable(slots[0], slots[1])
    ensures ChangeOutcome(slots, 1, 0x1000, 0x1000, SetNode(-1)) == DeadMatch
  {
    var r := Plain(0x1000, 0x1000);
    var s := [r];
    assert slots[0] == slots[..1][0] && s[1..] == [];
    assert Cut(s, 0x1000) == s && Cut(s, 0x2000) == s;
    assert Before(s, 0x1000) == 0 && Before(s, 0x2000) == 1;
    assert ChangeList(s, 0, 1, SetNode(-1)) == s;
  }

  /** Adding apart from what is there until the array is full: merging reads behind it. */
  method FullArrayRun() returns (m: MemBlock, status: Status)
    ensures fresh(m) && m.regions.Length == 2 && status == ReadsBehind
  {
    m := new MemBlock(2);
    m.RoomSuffices(0x1000, 0x1000, Attr(-1, MEMBLOCK_NONE));
    status := m.AddRange(0x1000, 0x1000, -1, MEMBLOCK_NONE);
    OneRegion(m.Live(), Plain(0x1000, 0x1000));
    BehindTwo(m.regions[..]);
    status := m.AddRange(0x3000, 0x1000, -1, MEMBLOCK_NONE);
  }

  lemma BehindTwo(slots: seq<Region>)
    requires |slots| == 2 && slots[..1] == [Plain(0x1000, 0x1000)]
    ensures AddOutcome(slots, 1, 0x3000, 0x1000, Attr(-1, MEMBLOCK_NONE)) == ReadsBehind
  {
    var s, attr := slots[..1], Attr(-1, MEMBLOCK_NONE);
    assert s[1..] == [];
    assert FillList([], 0x3000, 0x4000, attr) == [Plain(0x3000, 0x1000)];
    assert FillList(s, 0x3000, 0x4000, attr) == [Plain(0x1000, 0x1000), Plain(0x3000, 0x1000)];
  }
}
