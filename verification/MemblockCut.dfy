/**
 A map cut at the two ends of a range, as a function of the map: which regions there are
 and which of them lie inside the range. What the isolating scan leaves is that list.
 */
module MemblockCut {
  import opened MemblockSpec
  import opened MemblockIsolate

  /** No region extends across `a`. */
  predicate Whole(s: seq<Region>, a: nat) {
    forall k :: 0 <= k < |s| ==> !Straddles(s[k], a)
  }

  predicate Straddles(r: Region, a: nat) {
    r.base < a < End(r)
  }

  /** The first region that extends across `a`, or the length of the list. */
  function StraddleAt(s: seq<Region>, a: nat): (i: nat)
    ensures i <= |s| && (i < |s| ==> Straddles(s[i], a)) && (i == |s| ==> Whole(s, a))
  {
    if s == [] then 0 else if Straddles(s[0], a) then 0 else 1 + StraddleAt(s[1..], a)
  }

  /** The list with the region that extends across `a` split there. */
  function Cut(s: seq<Region>, a: nat): (t: seq<Region>) {
    var i := StraddleAt(s, a);
    if i < |s| then SplitList(s, i, a) else s
  }

  /** The map cut at both ends of a range. */
  function CutBoth(s: seq<Region>, base: nat, end: nat): (t: seq<Region>) {
    Cut(Cut(s, base), end)
  }

  /** How many regions start below `a`. */
  function Before(s: seq<Region>, a: nat): (n: nat)
    ensures n <= |s| && (forall k :: 0 <= k < n ==> s[k].base < a) && (n < |s| ==> s[n].base >= a)
  {
    if s == [] || s[0].base >= a then 0 else 1 + Before(s[1..], a)
  }

  /** Cutting changes nothing but that no region extends across the cut. */
  lemma CutKeeps(s: seq<Region>, a: nat, base: nat, end: nat)
    requires Ordered(s) && CutsOnly(s, base, end) && (a == base || a == end)
    ensures var t := Cut(s, a); Ordered(t) && SameMap(s, t) && Sum(t) == Sum(s) && CutsOnly(t, base, end)
    ensures forall b :: Whole(s, b) || b == a ==> Whole(Cut(s, a), b)
  {
    var i := StraddleAt(s, a);
    if i < |s| {
      var t := SplitList(s, i, a);
      hide Ordered, SameMap, Sum, CutsOnly, Whole;
      SplitAt(s, i, a);
      SplitCuts(s, i, a, base, end);
      forall b | Whole(s, b) || b == a ensures Whole(t, b) {
        SplitWhole(s, i, a, b);
      }
      assert s[..i] + [s[i].(size := a - s[i].base), s[i].(base := a, size := End(s[i]) - a)] + s[i + 1..] == t;
    }
  }

  lemma SplitWhole(s: seq<Region>, i: nat, a: nat, b: nat)
    requires Ordered(s) && i < |s| && Straddles(s[i], a) && (Whole(s, b) || a == b)
    ensures Whole(SplitList(s, i, a), b)
  {
    var t := SplitList(s, i, a);
    forall k | 0 <= k < |t| ensures !Straddles(t[k], b) {
      if a == b {
        assert k < i ==> End(s[k]) <= s[i].base;
        assert k > i + 1 ==> End(s[i]) <= s[k - 1].base;
      } else {
        assert !Straddles(s[i], b);
        assert k > i + 1 ==> !Straddles(s[k - 1], b);
      }
    }
  }

  /** Lists of one map that are cut at the same places start with the same region. */
  lemma CutFirst(s: seq<Region>, t: seq<Region>, base: nat, end: nat)
    requires Ordered(s) && Ordered(t) && SameMap(s, t) && s != [] && t != [] && s[0].base == t[0].base
    requires CutsOnly(s, base, end) && Whole(t, base) && Whole(t, end)
    ensures AttrOf(s[0]) == AttrOf(t[0]) && End(s[0]) >= End(t[0])
  {
    LookupAt(s, 0, s[0].base);
    LookupAt(t, 0, s[0].base);
    assert Lookup(s, s[0].base) == Lookup(t, s[0].base);
    if End(s[0]) < End(t[0]) {
      var a := End(s[0]);
      LookupAt(t, 0, a);
      assert Lookup(s, a) == Lookup(t, a);
      MappedAfterFirst(s);
      assert Mergeable(s[0], s[1]) && Straddles(t[0], a);
    }
  }

  lemma {:induction false} CutUnique(s: seq<Region>, t: seq<Region>, base: nat, end: nat)
    requires Ordered(s) && Ordered(t) && SameMap(s, t)
    requires CutsOnly(s, base, end) && Whole(s, base) && Whole(s, end)
    requires CutsOnly(t, base, end) && Whole(t, base) && Whole(t, end)
    ensures s == t
    decreases |s|
  {
    if s == [] {
      if t != [] {
        SameStart(t, s);
      }
    } else {
      SameStart(s, t);
      SameStart(t, s);
      CutFirst(s, t, base, end);
      CutFirst(t, s, base, end);
      SameTail(s, t);
      CutTail(s, base, end);
      CutTail(t, base, end);
      CutUnique(s[1..], t[1..], base, end);
      assert s == [s[0]] + s[1..] && t == [t[0]] + t[1..];
    }
  }

  lemma CutTail(s: seq<Region>, base: nat, end: nat)
    requires Ordered(s) && s != [] && CutsOnly(s, base, end) && Whole(s, base) && Whole(s, end)
    ensures Ordered(s[1..]) && CutsOnly(s[1..], base, end) && Whole(s[1..], base) && Whole(s[1..], end)
  {
    var t := s[1..];
    forall k | 0 <= k < |t| - 1 && Mergeable(t[k], t[k + 1]) ensures t[k + 1].base == base || t[k + 1].base == end {
      assert Mergeable(s[k + 1], s[k + 2]);
    }
  }

  /** What the scan leaves is the list cut at both ends, and the regions inside are counted right. */
  lemma IsolatedIsCut(s0: seq<Region>, s: seq<Region>, base: nat, end: nat, st: nat, en: nat)
    requires Normal(s0) && Ordered(s) && SameMap(s0, s) && base < end
    requires Isolated(s, base, end, st, en) && CutsOnly(s, base, end)
    ensures s == CutBoth(s0, base, end)
    ensures if st < en then st == Before(s, base) && en == Before(s, end) else Before(s, base) == Before(s, end)
  {
    assert CutsOnly(s0, base, end);
    var t, u := Cut(s0, base), CutBoth(s0, base, end);
    CutKeeps(s0, base, base, end);
    CutKeeps(t, end, base, end);
    assert SameMap(s, u) by {
      forall a: int ensures Lookup(s, a) == Lookup(u, a) {
        assert Lookup(s0, a) == Lookup(s, a) && Lookup(s0, a) == Lookup(t, a) && Lookup(t, a) == Lookup(u, a);
      }
    }
    IsolatedWhole(s, base, end, st, en);
    CutUnique(s, u, base, end);
    InsideCount(s, base, end, st, en);
  }

  lemma IsolatedWhole(s: seq<Region>, base: nat, end: nat, st: nat, en: nat)
    requires Isolated(s, base, end, st, en) && base < end
    ensures Whole(s, base) && Whole(s, end)
  {
    forall k | 0 <= k < |s| ensures !Straddles(s[k], base) && !Straddles(s[k], end) {
      assert if st <= k < en then Inside(s[k], base, end) else Apart(s[k], base, end);
    }
  }

  lemma InsideCount(s: seq<Region>, base: nat, end: nat, st: nat, en: nat)
    requires Ordered(s) && Isolated(s, base, end, st, en) && base < end
    ensures if st < en then st == Before(s, base) && en == Before(s, end) else Before(s, base) == Before(s, end)
  {
    var i, j := Before(s, base), Before(s, end);
    assert forall k :: 0 <= k < |s| ==> if st <= k < en then Inside(s[k], base, end) else Apart(s[k], base, end);
    if st < en {
      assert Inside(s[st], base, end) && Inside(s[en - 1], base, end);
      assert st > 0 ==> End(s[st - 1]) <= s[st].base && Apart(s[st - 1], base, end);
      assert en < |s| ==> End(s[en - 1]) <= s[en].base && Apart(s[en], base, end);
      BeforeIs(s, base, st);
      BeforeIs(s, end, en);
    } else {
      assert i < |s| ==> Apart(s[i], base, end);
      BeforeIs(s, end, i);
    }
  }

  lemma BeforeIs(s: seq<Region>, a: nat, n: nat)
    requires Ordered(s) && n <= |s| && (n > 0 ==> s[n - 1].base < a) && (n < |s| ==> s[n].base >= a)
    ensures Before(s, a) == n
  {
    forall k | 0 <= k < n ensures s[k].base < a {
      assert s[k].size > 0 && (k < n - 1 ==> End(s[k]) <= s[n - 1].base);
    }
    forall k | n <= k < |s| ensures s[k].base >= a {
      assert s[n].size > 0 && (n < k ==> End(s[n]) <= s[k].base);
    }
  }
}
