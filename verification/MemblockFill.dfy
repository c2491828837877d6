/**
 The scan of `add_range` over the list of regions: it walks the list with a rising address
 `b` below which the range is mapped, and inserts a region into each gap it meets.
 */
module MemblockFill {
  import opened Common
  import opened MemblockSpec

  /** `t` maps what `s` maps, and the rest of the range to `attr`. */
  ghost predicate Filled(s: seq<Region>, t: seq<Region>, base: nat, end: nat, attr: Attr) {
    forall a: int :: Lookup(t, a) ==
      if Lookup(s, a).Some? then Lookup(s, a) else if base <= a < end then Some(attr) else None
  }

  /** How many gaps of the range from `b` to `end` the regions leave. */
  function Gaps(s: seq<Region>, b: nat, end: nat): (g: nat)
    decreases |s|
  {
    if b >= end then 0
    else if s == [] || s[0].base >= end then 1
    else if End(s[0]) <= b then Gaps(s[1..], b, end)
    else (if s[0].base > b then 1 else 0) + Gaps(s[1..], Min(End(s[0]), end), end)
  }

  /** The region inserted for the gap from `b` to `e`. */
  function Piece(b: nat, e: nat, attr: Attr): (r: Region)
    requires b <= e
  {
    Region(b, e - b, attr.nid, attr.flags)
  }

  /** The list with a region for each gap of the range from `b` to `end`. */
  function FillList(s: seq<Region>, b: nat, end: nat, attr: Attr): (t: seq<Region>)
    ensures |t| == |s| + Gaps(s, b, end)
    decreases |s|
  {
    if b >= end then s
    else if s == [] || s[0].base >= end then [Piece(b, end, attr)] + s
    else if End(s[0]) <= b then [s[0]] + FillList(s[1..], b, end, attr)
    else
      (if s[0].base > b then [Piece(b, s[0].base, attr)] else [])
      + [s[0]] + FillList(s[1..], Min(End(s[0]), end), end, attr)
  }

  /** Filling what is left of `s` from region `i` on makes `u`. */
  ghost predicate FillsTo(u: seq<Region>, s: seq<Region>, i: nat, b: nat, end: nat, attr: Attr) {
    i <= |s| && u == s[..i] + FillList(s[i..], b, end, attr)
  }

  /** The state of the scan before region `i`: the range is filled up to `b`. */
  ghost predicate Filling(s0: seq<Region>, s: seq<Region>, i: nat, base: nat, b: nat, end: nat, attr: Attr) {
    && base <= b <= end && i <= |s| && Ordered(s)
    && Filled(s0, s, base, b, attr)
    && (b < end ==> forall k :: 0 <= k < i ==> End(s[k]) <= b)
  }

  lemma FillSkip(s0: seq<Region>, s: seq<Region>, i: nat, base: nat, b: nat, end: nat, attr: Attr)
    requires Filling(s0, s, i, base, b, end, attr) && i < |s| && s[i].base < end && End(s[i]) <= b
    ensures Filling(s0, s, i + 1, base, b, end, attr)
  {
  }

  /** The addresses from `b` to the end of a region that contains `b` are mapped already. */
  lemma FilledPast(s0: seq<Region>, s: seq<Region>, i: nat, base: nat, b: nat, b': nat, attr: Attr)
    requires Ordered(s) && Filled(s0, s, base, b, attr) && i < |s| && s[i].base <= b <= b' <= End(s[i])
    ensures Filled(s0, s, base, b', attr)
  {
    forall a: int ensures Lookup(s, a) ==
      if Lookup(s0, a).Some? then Lookup(s0, a) else if base <= a < b' then Some(attr) else None
    {
      assert Lookup(s, a) == if Lookup(s0, a).Some? then Lookup(s0, a) else if base <= a < b then Some(attr) else None;
      if b <= a < b' {
        LookupAt(s, i, a);
      }
    }
  }

  lemma FillPass(s0: seq<Region>, s: seq<Region>, i: nat, base: nat, b: nat, end: nat, attr: Attr)
    requires Filling(s0, s, i, base, b, end, attr) && i < |s| && s[i].base < end && s[i].base <= b < End(s[i])
    ensures Filling(s0, s, i + 1, base, Min(End(s[i]), end), end, attr)
  {
    FilledPast(s0, s, i, base, b, Min(End(s[i]), end), attr);
    assert forall k :: 0 <= k < i ==> End(s[k]) <= s[i].base;
  }

  /** Filling a gap that ends at `e`, the start of region `i` or the end of the range. */
  lemma FillGap(s0: seq<Region>, s: seq<Region>, i: nat, base: nat, b: nat, e: nat, end: nat, attr: Attr)
    requires Filling(s0, s, i, base, b, end, attr) && b < e <= end
    requires i < |s| ==> e <= s[i].base
    ensures var t := Insert(s, i, Piece(b, e, attr));
            Filling(s0, t, i + 1, base, e, end, attr) && Sum(t) == Sum(s) + (e - b)
  {
    var r := Piece(b, e, attr);
    var t := Insert(s, i, r);
    InsertAt(s, i, r);
    forall a: int ensures Lookup(t, a) ==
      if Lookup(s0, a).Some? then Lookup(s0, a) else if base <= a < e then Some(attr) else None
    {
      assert Lookup(s, a) == if Lookup(s0, a).Some? then Lookup(s0, a) else if base <= a < b then Some(attr) else None;
      if b <= a < e {
        GapUnmapped(s, i, b, e, a);
      }
    }
    assert e < end ==> forall k :: 0 <= k < i + 1 ==> End(t[k]) <= e;
  }

  lemma GapUnmapped(s: seq<Region>, i: nat, b: nat, e: nat, a: int)
    requires Ordered(s) && i <= |s| && (forall k :: 0 <= k < i ==> End(s[k]) <= b) && (i < |s| ==> e <= s[i].base)
    requires b <= a < e
    ensures Lookup(s, a) == None
  {
    forall k | 0 <= k < |s| ensures !Covers(s[k], a) {
      assert k > i ==> End(s[i]) <= s[k].base;
    }
    LookupOutside(s, a);
  }

  /** A gap before region `i`, then the region itself. */
  lemma FillBefore(s0: seq<Region>, s: seq<Region>, i: nat, base: nat, b: nat, end: nat, attr: Attr)
    requires Filling(s0, s, i, base, b, end, attr) && i < |s| && b < s[i].base < end
    ensures var t := Insert(s, i, Piece(b, s[i].base, attr));
            var b' := Min(End(s[i]), end);
            Filling(s0, t, i + 1, base, b', end, attr) && Sum(t) == Sum(s) + (s[i].base - b)
  {
    var t := Insert(s, i, Piece(b, s[i].base, attr));
    FillGap(s0, s, i, base, b, s[i].base, end, attr);
    FilledPast(s0, t, i + 1, base, s[i].base, Min(End(s[i]), end), attr);
  }

  /* ---- The list the scan makes ---- */

  lemma FillsSkip(u: seq<Region>, s: seq<Region>, i: nat, b: nat, end: nat, attr: Attr)
    requires FillsTo(u, s, i, b, end, attr) && i < |s| && b <= end && s[i].base < end && End(s[i]) <= b
    ensures FillsTo(u, s, i + 1, b, end, attr)
  {
    assert s[i..][1..] == s[i + 1..];
    assert s[..i] + [s[i]] == s[..i + 1];
  }

  lemma FillsPass(u: seq<Region>, s: seq<Region>, i: nat, b: nat, end: nat, attr: Attr)
    requires FillsTo(u, s, i, b, end, attr) && i < |s| && s[i].base < end && s[i].base <= b < End(s[i])
    ensures FillsTo(u, s, i + 1, Max(b, Min(End(s[i]), end)), end, attr)
  {
    assert s[i..][1..] == s[i + 1..];
    assert s[..i] + [s[i]] == s[..i + 1];
  }

  /** A gap before region `i` needs one more region; then region `i` is passed. */
  lemma FillsBefore(u: seq<Region>, s: seq<Region>, i: nat, b: nat, end: nat, attr: Attr)
    requires FillsTo(u, s, i, b, end, attr) && i < |s| && b < s[i].base < end && s[i].size > 0
    ensures FillsTo(u, Insert(s, i, Piece(b, s[i].base, attr)), i + 1, Min(End(s[i]), end), end, attr)
    ensures |u| > |s|
  {
    hide FillList;
    var p := Piece(b, s[i].base, attr);
    var t := Insert(s, i, p);
    assert t[i + 1..] == s[i..] && t[..i + 1] == s[..i] + [p];
    FillHead(s[i..], b, end, attr);
  }

  /** A gap before the first region is filled; what remains is filled from that region's end on. */
  lemma FillHead(v: seq<Region>, b: nat, end: nat, attr: Attr)
    requires v != [] && b < v[0].base < end && v[0].size > 0
    ensures FillList(v, b, end, attr) == [Piece(b, v[0].base, attr)] + FillList(v, Min(End(v[0]), end), end, attr)
    ensures |FillList(v, Min(End(v[0]), end), end, attr)| >= |v|
  {
    assert v == [v[0]] + v[1..];
  }

  lemma FillsEnd(u: seq<Region>, s: seq<Region>, i: nat, b: nat, end: nat, attr: Attr)
    requires FillsTo(u, s, i, b, end, attr) && (i < |s| ==> s[i].base >= end)
    ensures u == if b < end then Insert(s, i, Piece(b, end, attr)) else s
  {
    assert s[..i] + s[i..] == s;
  }

  /** The map of one added range. */
  lemma OneRegion(s: seq<Region>, r: Region)
    requires Normal(s) && Filled([], s, r.base, End(r), AttrOf(r)) && r.size > 0
    ensures s == [r]
  {
    forall a: int ensures Lookup(s, a) == Lookup([r], a) {
      assert [r][1..] == [];
    }
    NormalFormUnique(s, [r]);
  }
}
