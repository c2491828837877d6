/**
 The scan of `isolate_range` over the list of regions: what is known after the regions
 before `i` were looked at, how each step of the scan keeps it, and what it gives at the
 end. `low` and `high` say whether the regions at the two ends of the range were split.
 */
module MemblockIsolate {
  import opened MemblockSpec

  /** Neighbours can be merged only where the range starts or ends. */
  predicate CutsOnly(s: seq<Region>, base: nat, end: nat) {
    forall k :: 0 <= k < |s| - 1 && Mergeable(s[k], s[k + 1]) ==> s[k + 1].base == base || s[k + 1].base == end
  }

  /** Region `r` lies inside the range. */
  predicate Inside(r: Region, base: nat, end: nat) {
    base <= r.base && End(r) <= end
  }

  /** Region `r` has no address in the range. */
  predicate Apart(r: Region, base: nat, end: nat) {
    End(r) <= base || r.base >= end
  }

  /** The regions inside the range are `st` to `en - 1`; the others are apart from it. */
  predicate Isolated(s: seq<Region>, base: nat, end: nat, st: nat, en: nat) {
    && st <= en <= |s| && (st == en ==> en == 0)
    && forall k :: 0 <= k < |s| ==> if st <= k < en then Inside(s[k], base, end) else Apart(s[k], base, end)
  }

  /** The state of the scan before region `i`. */
  predicate Scan(s: seq<Region>, i: nat, base: nat, end: nat, st: nat, en: nat, low: bool, high: bool) {
    && i <= |s| && (if en == 0 then st == 0 else st < en == i)
    && (forall k :: 0 <= k < i ==> if st <= k < en then Inside(s[k], base, end) else End(s[k]) <= base)
    && (low ==> forall k :: i <= k < |s| ==> base <= s[k].base)
    && (high ==> s != [] && end <= s[|s| - 1].base
                 && forall k :: i <= k < |s| ==> End(s[k]) <= end || end <= s[k].base)
  }

  /** The list with region `i` split at `a`. */
  function SplitList(s: seq<Region>, i: nat, a: nat): (t: seq<Region>)
    requires i < |s| && s[i].base < a < End(s[i])
    ensures |t| == |s| + 1
    ensures forall k :: 0 <= k < |t| ==>
      t[k] == if k < i then s[k] else if k == i then s[i].(size := a - s[i].base)
              else if k == i + 1 then s[i].(base := a, size := End(s[i]) - a) else s[k - 1]
  {
    s[..i] + [s[i].(size := a - s[i].base), s[i].(base := a, size := End(s[i]) - a)] + s[i + 1..]
  }

  lemma SplitCuts(s: seq<Region>, i: nat, a: nat, base: nat, end: nat)
    requires CutsOnly(s, base, end) && i < |s| && s[i].base < a < End(s[i]) && (a == base || a == end)
    ensures CutsOnly(SplitList(s, i, a), base, end)
  {
    var t := SplitList(s, i, a);
    forall k | 0 <= k < |t| - 1 && Mergeable(t[k], t[k + 1])
      ensures t[k + 1].base == base || t[k + 1].base == end
    {
      if k < i {
        assert Mergeable(s[k], s[k + 1]);
      } else if k > i {
        assert Mergeable(s[k - 1], s[k]);
      }
    }
  }

  lemma AfterInside(s: seq<Region>, i: nat, base: nat, end: nat, st: nat, en: nat, low: bool, high: bool)
    requires Scan(s, i, base, end, st, en, low, high) && Ordered(s) && i < |s| && en > 0
    ensures s[i].base > base
  {
    assert End(s[i - 1]) <= s[i].base;
    assert Inside(s[i - 1], base, end);
  }

  lemma ScanSkip(s: seq<Region>, i: nat, base: nat, end: nat, st: nat, en: nat, low: bool, high: bool)
    requires Scan(s, i, base, end, st, en, low, high) && Ordered(s) && i < |s| && End(s[i]) <= base
    ensures en == 0 && Scan(s, i + 1, base, end, st, en, low, high)
  {
    if en > 0 {
      AfterInside(s, i, base, end, st, en, low, high);
    }
  }

  /** Splitting off the part below the range. */
  lemma ScanLow(s: seq<Region>, i: nat, base: nat, end: nat, st: nat, en: nat, low: bool, high: bool)
    requires Scan(s, i, base, end, st, en, low, high) && Ordered(s) && i < |s|
    requires s[i].base < base < End(s[i])
    ensures !low && en == 0 && Scan(SplitList(s, i, base), i + 1, base, end, st, en, true, high)
  {
    if en > 0 {
      AfterInside(s, i, base, end, st, en, low, high);
    }
    var t := SplitList(s, i, base);
    forall k | i + 1 <= k < |t| ensures base <= t[k].base {
      assert k > i + 1 ==> End(s[i]) <= s[k - 1].base;
    }
    if high {
      forall k | i + 1 <= k < |t| ensures End(t[k]) <= end || end <= t[k].base {
        assert End(s[k - 1]) <= end || end <= s[k - 1].base;
      }
      assert t[|t| - 1].base >= s[|s| - 1].base;
    }
  }

  /** Splitting off the part above the range. */
  lemma ScanHigh(s: seq<Region>, i: nat, base: nat, end: nat, st: nat, en: nat, low: bool, high: bool)
    requires Scan(s, i, base, end, st, en, low, high) && Ordered(s) && i < |s|
    requires base <= s[i].base < end < End(s[i])
    ensures !high && Scan(SplitList(s, i, end), i, base, end, st, en, low, true)
  {
    var t := SplitList(s, i, end);
    forall k | i <= k < |t| ensures base <= t[k].base && (End(t[k]) <= end || end <= t[k].base) {
      assert k > i + 1 ==> End(s[i]) <= s[k - 1].base;
    }
    assert t[|t| - 1].base >= end;
  }

  lemma ScanInside(s: seq<Region>, i: nat, base: nat, end: nat, st: nat, en: nat, low: bool, high: bool)
    requires Scan(s, i, base, end, st, en, low, high) && Ordered(s) && i < |s| && Inside(s[i], base, end)
    ensures Scan(s, i + 1, base, end, if en == 0 then i else st, i + 1, low, high)
  {
  }

  /** When the scan stops, the range is isolated; a split at its end leaves a region after it. */
  lemma ScanEnd(s: seq<Region>, i: nat, base: nat, end: nat, st: nat, en: nat, low: bool, high: bool)
    requires Scan(s, i, base, end, st, en, low, high) && Ordered(s) && (i < |s| ==> s[i].base >= end)
    ensures Isolated(s, base, end, st, en)
    ensures high && base < end ==> en < |s|
  {
    forall k | i <= k < |s| ensures s[k].base >= end {
      assert k > i ==> End(s[i]) <= s[k].base;
    }
  }

  /** Then only the neighbours around the isolated regions can be merged. */
  lemma IsolatedCuts(s: seq<Region>, base: nat, end: nat, st: nat, en: nat, k: nat)
    requires Ordered(s) && Isolated(s, base, end, st, en) && CutsOnly(s, base, end) && base < end
    requires k + 1 < |s| && Mergeable(s[k], s[k + 1])
    ensures st <= k + 1 && k < en
  {
    if s[k + 1].base == base {
      assert st <= k + 1 < en;
    } else {
      assert st <= k < en;
    }
  }
}
