/**
 The physical memory map as a mathematical object: a list of regions stands for a partial
 function from addresses to attributes (node and flags). Lists that are ordered, without
 overlap and without mergeable neighbours are a normal form: one list per function.
 */
module MemblockSpec {
  import opened Common

  datatype Region = Region(base: nat, size: nat, nid: int, flags: bv32)

  datatype Attr = Attr(nid: int, flags: bv32)

  const MEMBLOCK_NONE: bv32 := 0x0
  const MEMBLOCK_RESERVED: bv32 := 0xFFFF

  /** Physical addresses and sizes are 64-bit. */
  const ADDRESS_LIMIT: nat := 0x1_0000_0000_0000_0000

  /** The address after the region. */
  function End(r: Region): (e: nat) {
    r.base + r.size
  }

  function AttrOf(r: Region): (t: Attr) {
    Attr(r.nid, r.flags)
  }

  predicate Covers(r: Region, a: int) {
    r.base <= a < End(r)
  }

  /* ---- The map a list stands for ---- */

  /** The attributes of address `a`, if it is mapped. */
  function Lookup(s: seq<Region>, a: int): (t: Option<Attr>) {
    if s == [] then None
    else if Covers(s[0], a) then Some(AttrOf(s[0]))
    else Lookup(s[1..], a)
  }

  /** Regions are not empty, ascend, and do not overlap. */
  predicate Ordered(s: seq<Region>) {
    && (forall i :: 0 <= i < |s| ==> s[i].size > 0)
    && (forall i, j :: 0 <= i < j < |s| ==> End(s[i]) <= s[j].base)
  }

  /** Two neighbours that could be one region. */
  predicate Mergeable(x: Region, y: Region) {
    End(x) == y.base && AttrOf(x) == AttrOf(y)
  }

  predicate Merged(s: seq<Region>) {
    forall i :: 0 <= i < |s| - 1 ==> !Mergeable(s[i], s[i + 1])
  }

  /** The normal form. */
  predicate Normal(s: seq<Region>) {
    Ordered(s) && Merged(s)
  }

  lemma {:induction false} LookupConcat(x: seq<Region>, y: seq<Region>, a: int)
    ensures Lookup(x + y, a) == if Lookup(x, a).Some? then Lookup(x, a) else Lookup(y, a)
  {
    if x == [] {
      assert x + y == y;
    } else {
      LookupConcat(x[1..], y, a);
      assert (x + y)[1..] == x[1..] + y;
    }
  }

  /** Which region maps `a`; -1 if none does. */
  lemma {:induction false} Where(s: seq<Region>, a: int) returns (i: int)
    ensures -1 <= i < |s|
    ensures i == -1 ==> Lookup(s, a) == None && forall k :: 0 <= k < |s| ==> !Covers(s[k], a)
    ensures i >= 0 ==> Covers(s[i], a) && Lookup(s, a) == Some(AttrOf(s[i]))
  {
    if s == [] {
      i := -1;
    } else if Covers(s[0], a) {
      i := 0;
    } else {
      i := Where(s[1..], a);
      assert forall k :: 1 <= k < |s| ==> s[k] == s[1..][k - 1];
      if i >= 0 {
        i := i + 1;
      }
    }
  }

  /** In an ordered list the region that contains an address decides it. */
  lemma LookupAt(s: seq<Region>, i: nat, a: int)
    requires Ordered(s) && i < |s| && Covers(s[i], a)
    ensures Lookup(s, a) == Some(AttrOf(s[i]))
  {
    var j := Where(s, a);
  }

  lemma LookupOutside(s: seq<Region>, a: int)
    requires forall k :: 0 <= k < |s| ==> !Covers(s[k], a)
    ensures Lookup(s, a) == None
  {
    var j := Where(s, a);
  }

  /* ---- One list per map ---- */

  ghost predicate SameMap(s: seq<Region>, t: seq<Region>) {
    forall a: int :: Lookup(s, a) == Lookup(t, a)
  }

  /** Lists of one map start at the same address. */
  lemma SameStart(s: seq<Region>, t: seq<Region>)
    requires Ordered(s) && Ordered(t) && SameMap(s, t) && s != []
    ensures t != [] && t[0].base <= s[0].base
  {
    LookupAt(s, 0, s[0].base);
    var j := Where(t, s[0].base);
    assert j >= 0;
    assert j > 0 ==> End(t[0]) <= t[j].base;
  }

  /** ... and their first regions end at the same address. */
  lemma SameFirst(s: seq<Region>, t: seq<Region>)
    requires Normal(s) && Normal(t) && SameMap(s, t) && s != [] && t != [] && s[0].base == t[0].base
    ensures AttrOf(s[0]) == AttrOf(t[0]) && End(s[0]) >= End(t[0])
  {
    LookupAt(s, 0, s[0].base);
    LookupAt(t, 0, s[0].base);
    assert Lookup(s, s[0].base) == Lookup(t, s[0].base);
    if End(s[0]) < End(t[0]) {
      var a := End(s[0]);
      LookupAt(t, 0, a);
      assert Lookup(s, a) == Lookup(t, a);
      MappedAfterFirst(s);
    }
  }

  /** If the address after the first region is mapped, the second region starts there. */
  lemma MappedAfterFirst(s: seq<Region>)
    requires Ordered(s) && s != [] && Lookup(s, End(s[0])).Some?
    ensures |s| > 1 && s[1].base == End(s[0]) && Lookup(s, End(s[0])) == Some(AttrOf(s[1]))
  {
    assert forall k :: 1 < k < |s| ==> End(s[1]) <= s[k].base;
    var j := Where(s, End(s[0]));
    assert j >= 1;
  }

  lemma SameTail(s: seq<Region>, t: seq<Region>)
    requires Ordered(s) && Ordered(t) && SameMap(s, t) && s != [] && t != [] && s[0] == t[0]
    ensures SameMap(s[1..], t[1..])
  {
    forall a: int ensures Lookup(s[1..], a) == Lookup(t[1..], a) {
      assert Lookup(s, a) == Lookup(t, a);
      if Covers(s[0], a) {
        LookupOutside(s[1..], a);
        LookupOutside(t[1..], a);
      }
    }
  }

  /** Two normal lists with the same map are the same list. */
  lemma {:induction false} NormalFormUnique(s: seq<Region>, t: seq<Region>)
    requires Normal(s) && Normal(t) && SameMap(s, t)
    ensures s == t
    decreases |s|
  {
    if s == [] {
      if t != [] {
        SameStart(t, s);
      }
    } else {
      SameStart(s, t);
      SameStart(t, s);
      SameFirst(s, t);
      SameFirst(t, s);
      SameTail(s, t);
      NormalFormUnique(s[1..], t[1..]);
      assert s == [s[0]] + s[1..] && t == [t[0]] + t[1..];
    }
  }

  /* ---- Sizes ---- */

  function Sum(s: seq<Region>): (n: nat) {
    if s == [] then 0 else s[0].size + Sum(s[1..])
  }

  lemma {:induction false} SumConcat(x: seq<Region>, y: seq<Region>)
    ensures Sum(x + y) == Sum(x) + Sum(y)
  {
    if x == [] {
      assert x + y == y;
    } else {
      SumConcat(x[1..], y);
      assert (x + y)[1..] == x[1..] + y;
    }
  }

  /** The sizes of an ordered list add up to no more than its last address. */
  lemma {:induction false} SumBound(s: seq<Region>)
    requires Ordered(s) && s != []
    ensures s[0].base + Sum(s) <= End(s[|s| - 1])
  {
    if |s| > 1 {
      SumBound(s[1..]);
    } else {
      assert s[1..] == [];
    }
  }

  /* ---- Replacing a part of a list ---- */

  /** Replacing the middle of a list by one with the same map keeps the map and the sizes' sum. */
  lemma Replace(x: seq<Region>, m: seq<Region>, m': seq<Region>, y: seq<Region>)
    requires SameMap(m, m')
    ensures SameMap(x + m + y, x + m' + y)
    ensures Sum(x + m' + y) - Sum(x + m + y) == Sum(m') - Sum(m)
  {
    forall a: int ensures Lookup(x + m + y, a) == Lookup(x + m' + y, a) {
      assert Lookup(m, a) == Lookup(m', a);
      LookupConcat(x + m, y, a);
      LookupConcat(x, m, a);
      LookupConcat(x + m', y, a);
      LookupConcat(x, m', a);
    }
    SumConcat(x + m, y);
    SumConcat(x, m);
    SumConcat(x + m', y);
    SumConcat(x, m');
  }

  /** Two halves and their union have the same map. */
  lemma HalvesSameMap(x: Region, y: Region, xy: Region)
    requires Mergeable(x, y) && xy == x.(size := x.size + y.size)
    ensures SameMap([x, y], [xy]) && Sum([x, y]) == Sum([xy])
  {
    forall a: int ensures Lookup([x, y], a) == Lookup([xy], a) {
      assert [x, y][1..] == [y] && [y][1..] == [] && [xy][1..] == [];
    }
    assert [x, y][1..] == [y] && [y][1..] == [] && [xy][1..] == [];
  }

  lemma OrderedConcat(x: seq<Region>, y: seq<Region>)
    requires Ordered(x) && Ordered(y)
    requires x != [] && y != [] ==> End(x[|x| - 1]) <= y[0].base
    ensures Ordered(x + y)
  {
    var t := x + y;
    forall k, l | 0 <= k < l < |t| ensures End(t[k]) <= t[l].base {
      if k < |x| <= l {
        assert k < |x| - 1 ==> End(x[k]) <= x[|x| - 1].base;
        assert l > |x| ==> End(y[0]) <= y[l - |x|].base;
      }
    }
  }

  lemma OrderedSlice(s: seq<Region>, i: nat, j: nat)
    requires Ordered(s) && i <= j <= |s|
    ensures Ordered(s[i..j])
  {
  }

  /** An ordered list with regions `i` to `j - 1` replaced by `m`, which lies in between. */
  lemma OrderedReplace(s: seq<Region>, i: nat, j: nat, m: seq<Region>)
    requires Ordered(s) && i <= j <= |s| && Ordered(m) && m != []
    requires i > 0 ==> End(s[i - 1]) <= m[0].base
    requires j < |s| ==> End(m[|m| - 1]) <= s[j].base
    ensures Ordered(s[..i] + m + s[j..])
  {
    OrderedSlice(s, 0, i);
    OrderedSlice(s, j, |s|);
    assert s[0..i] == s[..i] && s[j..|s|] == s[j..];
    hide Ordered;
    OrderedConcat(s[..i], m);
    OrderedConcat(s[..i] + m, s[j..]);
  }

  /** The list with regions `i` and `i + 1` made one. */
  function Joined(s: seq<Region>, i: nat): (t: seq<Region>)
    requires i + 1 < |s|
    ensures |t| == |s| - 1
    ensures forall k :: 0 <= k < |t| ==>
      t[k] == if k < i then s[k] else if k == i then s[i].(size := s[i].size + s[i + 1].size) else s[k + 1]
  {
    s[..i] + [s[i].(size := s[i].size + s[i + 1].size)] + s[i + 2..]
  }

  /** Replacing two mergeable neighbours by their union. */
  lemma MergeAt(s: seq<Region>, i: nat)
    requires Ordered(s) && i + 1 < |s| && Mergeable(s[i], s[i + 1])
    ensures var t := Joined(s, i); Ordered(t) && SameMap(s, t) && Sum(t) == Sum(s)
  {
    ReplacePair(s, i, s[i].(size := s[i].size + s[i + 1].size));
  }

  lemma ReplacePair(s: seq<Region>, i: nat, xy: Region)
    requires Ordered(s) && i + 1 < |s| && Mergeable(s[i], s[i + 1]) && xy == s[i].(size := s[i].size + s[i + 1].size)
    ensures var t := s[..i] + [xy] + s[i + 2..]; Ordered(t) && SameMap(s, t) && Sum(t) == Sum(s)
  {
    OrderedReplace(s, i, i + 2, [xy]);
    hide Ordered, SameMap, Sum;
    HalvesSameMap(s[i], s[i + 1], xy);
    Replace(s[..i], [s[i], s[i + 1]], [xy], s[i + 2..]);
    assert s == s[..i] + [s[i], s[i + 1]] + s[i + 2..];
  }

  /** Splitting a region at an address inside it. */
  lemma SplitAt(s: seq<Region>, i: nat, a: nat)
    requires Ordered(s) && i < |s| && s[i].base < a < End(s[i])
    ensures var lo := s[i].(size := a - s[i].base);
            var hi := s[i].(base := a, size := End(s[i]) - a);
            var t := s[..i] + [lo, hi] + s[i + 1..];
            Ordered(t) && SameMap(s, t) && Sum(t) == Sum(s)
  {
    var lo := s[i].(size := a - s[i].base);
    var hi := s[i].(base := a, size := End(s[i]) - a);
    OrderedReplace(s, i, i + 1, [lo, hi]);
    hide Ordered, SameMap, Sum;
    HalvesSameMap(lo, hi, s[i]);
    Replace(s[..i], [lo, hi], [s[i]], s[i + 1..]);
    assert s == s[..i] + [s[i]] + s[i + 1..];
    SameMapSymmetric(s[..i] + [lo, hi] + s[i + 1..], s);
  }

  lemma SameMapSymmetric(s: seq<Region>, t: seq<Region>)
    requires SameMap(s, t)
    ensures SameMap(t, s)
  {
  }

  /** The list with region `r` at `i`. */
  function Insert(s: seq<Region>, i: nat, r: Region): (t: seq<Region>)
    requires i <= |s|
    ensures |t| == |s| + 1
    ensures forall k :: 0 <= k < |t| ==> t[k] == if k < i then s[k] else if k == i then r else s[k - 1]
  {
    s[..i] + [r] + s[i..]
  }

  /** Inserting a region into a gap maps exactly its addresses. */
  lemma InsertAt(s: seq<Region>, i: nat, r: Region)
    requires Ordered(s) && i <= |s| && r.size > 0
    requires i > 0 ==> End(s[i - 1]) <= r.base
    requires i < |s| ==> End(r) <= s[i].base
    ensures var t := Insert(s, i, r);
            && Ordered(t) && Sum(t) == Sum(s) + r.size
            && forall a: int :: Lookup(t, a) == if Covers(r, a) then Some(AttrOf(r)) else Lookup(s, a)
  {
    hide Ordered, Sum, Lookup, Covers;
    assert s == s[..i] + s[i..];
    OneOrdered(r);
    OrderedReplace(s, i, i, [r]);
    InsertBetween(s[..i], r, s[i..]);
  }

  lemma InsertBetween(x: seq<Region>, r: Region, y: seq<Region>)
    requires Ordered(x + [r] + y)
    ensures Sum(x + [r] + y) == Sum(x + y) + r.size
    ensures forall a: int :: Lookup(x + [r] + y, a) == if Covers(r, a) then Some(AttrOf(r)) else Lookup(x + y, a)
  {
    hide Ordered, Sum, Lookup, Covers;
    SumInsert(x, r, y);
    LookupsInsert(x, r, y);
  }

  lemma OneOrdered(r: Region)
    requires r.size > 0
    ensures Ordered([r])
  {
  }

  lemma LookupsInsert(x: seq<Region>, r: Region, y: seq<Region>)
    requires Ordered(x + [r] + y)
    ensures forall a: int :: Lookup(x + [r] + y, a) == if Covers(r, a) then Some(AttrOf(r)) else Lookup(x + y, a)
  {
    hide Ordered, Lookup, Covers;
    forall a: int ensures Lookup(x + [r] + y, a) == if Covers(r, a) then Some(AttrOf(r)) else Lookup(x + y, a) {
      LookupInsert(x, r, y, a);
    }
  }

  lemma SumInsert(x: seq<Region>, r: Region, y: seq<Region>)
    ensures Sum(x + [r] + y) == Sum(x + y) + r.size
  {
    SumConcat(x, y);
    SumConcat(x + [r], y);
    SumConcat(x, [r]);
    assert [r][1..] == [];
  }

  lemma LookupInsert(x: seq<Region>, r: Region, y: seq<Region>, a: int)
    requires Ordered(x + [r] + y)
    ensures Lookup(x + [r] + y, a) == if Covers(r, a) then Some(AttrOf(r)) else Lookup(x + y, a)
  {
    if Covers(r, a) {
      assert (x + [r] + y)[|x|] == r;
      LookupAt(x + [r] + y, |x|, a);
    } else {
      hide Ordered;
      LookupConcat(x + [r], y, a);
      LookupConcat(x, [r], a);
      LookupConcat(x, y, a);
    }
  }
}
