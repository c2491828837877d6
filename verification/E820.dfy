/**
 The firmware's memory map: entries are appended, consecutive entries that continue each
 other are merged in place, and the usable ones become the physical memory map.
 */
module E820 {
  import opened Common
  import opened MemblockSpec
  import opened MemblockFill
  import opened MemblockGrowth
  import opened Memblock

  const E820_MAX_ENTRIES := 128
  const E820_TYPE_RAM := 1

  datatype Entry = Entry(start: nat, size: nat, kind: int)

  function Limit(e: Entry): (a: nat) {
    e.start + e.size
  }

  predicate Holds(e: Entry, a: int) {
    e.start <= a < Limit(e)
  }

  /** The type of an address: that of the first entry that holds it. */
  function TypeAt(s: seq<Entry>, a: int): (k: Option<int>) {
    if s == [] then None else if Holds(s[0], a) then Some(s[0].kind) else TypeAt(s[1..], a)
  }

  /** `y` continues `x`. */
  predicate Continues(x: Entry, y: Entry) {
    x.kind == y.kind && Limit(x) == y.start
  }

  /** What compaction keeps. */
  ghost predicate Keeps(s: seq<Entry>, t: seq<Entry>) {
    SameTypes(s, t) && (Separate(s) ==> Separate(t)) && (InSpace(s) ==> InSpace(t))
  }

  lemma SameTypesReflexive(s: seq<Entry>)
    ensures SameTypes(s, s)
  {
  }

  lemma KeepsTransitive(s: seq<Entry>, t: seq<Entry>, u: seq<Entry>)
    requires Keeps(s, t) && Keeps(t, u)
    ensures Keeps(s, u)
  {
    hide Separate, InSpace, Total;
    forall a: int ensures TypeAt(s, a) == TypeAt(u, a) {
      assert TypeAt(s, a) == TypeAt(t, a);
    }
    forall a: int, kind: int ensures Has(s, kind, a) == Has(u, kind, a) {
      assert Has(s, kind, a) == Has(t, kind, a);
    }
  }

  lemma OneIsCompact(s: seq<Entry>)
    requires |s| == 1
    ensures Compact(s)
  {
  }

  /** No entry has the type of the one before it and starts where that ends. */
  predicate Compact(s: seq<Entry>) {
    forall i :: 0 <= i < |s| - 1 ==> s[i].kind != s[i + 1].kind || s[i].start + s[i].size != s[i + 1].start
  }

  function Total(s: seq<Entry>): (n: nat) {
    if s == [] then 0 else s[0].size + Total(s[1..])
  }

  /** Some entry of type `kind` holds the address. */
  predicate Has(s: seq<Entry>, kind: int, a: int) {
    s != [] && ((s[0].kind == kind && Holds(s[0], a)) || Has(s[1..], kind, a))
  }

  /** Same types everywhere, by first entry and by any entry, and the same amount of memory listed. */
  ghost predicate SameTypes(s: seq<Entry>, t: seq<Entry>) {
    && Total(s) == Total(t)
    && (forall a: int :: TypeAt(s, a) == TypeAt(t, a))
    && (forall a: int, kind: int :: Has(s, kind, a) == Has(t, kind, a))
  }

  /** No address is in both entries. */
  predicate Disjoint(x: Entry, y: Entry) {
    x.size == 0 || y.size == 0 || Limit(x) <= y.start || Limit(y) <= x.start
  }

  lemma DisjointIff(x: Entry, y: Entry)
    ensures Disjoint(x, y) <==> forall a: int :: !(Holds(x, a) && Holds(y, a))
  {
    if !Disjoint(x, y) {
      var a := if x.start < y.start then y.start else x.start;
      assert Holds(x, a) && Holds(y, a);
    }
  }

  predicate Separate(s: seq<Entry>) {
    forall i, j :: 0 <= i < j < |s| ==> Disjoint(s[i], s[j])
  }

  /** Entries lie below the end of the address space. */
  predicate InSpace(s: seq<Entry>) {
    forall i :: 0 <= i < |s| ==> Limit(s[i]) < ADDRESS_LIMIT
  }

  lemma MergeKeepsInSpace(x: seq<Entry>, e: Entry, f: Entry, y: seq<Entry>)
    requires Continues(e, f) && InSpace(x + [e, f] + y)
    ensures InSpace(x + [e.(size := e.size + f.size)] + y)
  {
    var s, t, k := x + [e, f] + y, x + [e.(size := e.size + f.size)] + y, |x|;
    assert s[k + 1] == f;
    assert forall i :: 0 <= i < k ==> t[i] == s[i];
    assert forall i :: k < i < |t| ==> t[i] == s[i + 1];
  }

  lemma MergeKeepsSeparate(x: seq<Entry>, e: Entry, f: Entry, y: seq<Entry>)
    requires Continues(e, f) && Separate(x + [e, f] + y)
    ensures Separate(x + [e.(size := e.size + f.size)] + y)
  {
    var s, t, k := x + [e, f] + y, x + [e.(size := e.size + f.size)] + y, |x|;
    assert s[k] == e && s[k + 1] == f;
    assert forall i :: 0 <= i < k ==> t[i] == s[i];
    assert forall i :: k < i < |t| ==> t[i] == s[i + 1];
    forall i, j | 0 <= i < j < |t| ensures Disjoint(t[i], t[j]) {
      if j < k {
        assert Disjoint(s[i], s[j]);
      } else if i < j == k {
        assert Disjoint(s[i], s[k]) && Disjoint(s[i], s[k + 1]);
      } else if i < k < j {
        assert Disjoint(s[i], s[j + 1]);
      } else if i == k {
        assert Disjoint(s[k], s[j + 1]) && Disjoint(s[k + 1], s[j + 1]);
      } else {
        assert Disjoint(s[i + 1], s[j + 1]);
      }
    }
  }

  lemma {:induction false} TypeConcat(x: seq<Entry>, y: seq<Entry>, kind: int, a: int)
    ensures TypeAt(x + y, a) == if TypeAt(x, a).Some? then TypeAt(x, a) else TypeAt(y, a)
    ensures Has(x + y, kind, a) == (Has(x, kind, a) || Has(y, kind, a))
    ensures Total(x + y) == Total(x) + Total(y)
  {
    if x == [] {
      assert x + y == y;
    } else {
      TypeConcat(x[1..], y, kind, a);
      assert (x + y)[1..] == x[1..] + y;
    }
  }

  /** Merging an entry with the one that continues it, whatever else the table holds. */
  lemma MergeKeepsTypes(x: seq<Entry>, e: Entry, f: Entry, y: seq<Entry>)
    requires Continues(e, f)
    ensures SameTypes(x + [e, f] + y, x + [e.(size := e.size + f.size)] + y)
  {
    var m := [e.(size := e.size + f.size)];
    forall a: int ensures TypeAt(x + [e, f] + y, a) == TypeAt(x + m + y, a) {
      MergedPair(e, f, 0, a);
      ReplaceType(x, [e, f], m, y, 0, a);
    }
    forall a: int, kind: int ensures Has(x + [e, f] + y, kind, a) == Has(x + m + y, kind, a) {
      MergedPair(e, f, kind, a);
      ReplaceType(x, [e, f], m, y, kind, a);
    }
    MergedPair(e, f, 0, 0);
    ReplaceType(x, [e, f], m, y, 0, 0);
  }

  lemma MergedPair(e: Entry, f: Entry, kind: int, a: int)
    requires Continues(e, f)
    ensures var m := [e.(size := e.size + f.size)];
            TypeAt([e, f], a) == TypeAt(m, a) && Has([e, f], kind, a) == Has(m, kind, a) && Total([e, f]) == Total(m)
  {
    assert [e, f][1..] == [f] && [f][1..] == [] && [e.(size := e.size + f.size)][1..] == [];
  }

  lemma ReplaceType(x: seq<Entry>, m: seq<Entry>, m': seq<Entry>, y: seq<Entry>, kind: int, a: int)
    requires TypeAt(m, a) == TypeAt(m', a) && Has(m, kind, a) == Has(m', kind, a) && Total(m) == Total(m')
    ensures TypeAt(x + m + y, a) == TypeAt(x + m' + y, a) && Total(x + m + y) == Total(x + m' + y)
    ensures Has(x + m + y, kind, a) == Has(x + m' + y, kind, a)
  {
    hide TypeAt, Has, Total;
    TypeConcat(x + m, y, kind, a);
    TypeConcat(x, m, kind, a);
    TypeConcat(x + m', y, kind, a);
    TypeConcat(x, m', kind, a);
  }

  class Table {
    const entries: array<Entry>
    var n: nat

    ghost predicate Valid()
      reads this, entries
    {
      n <= entries.Length == E820_MAX_ENTRIES
    }

    ghost function Listed(): (s: seq<Entry>)
      requires Valid()
      reads this, entries
    {
      entries[..n]
    }

    constructor ()
      ensures Valid() && Listed() == [] && fresh(entries)
    {
      entries := new Entry[E820_MAX_ENTRIES](_ => Entry(0, 0, 0));
      n := 0;
    }

    /** Appends an entry; a full table ignores it. */
    method RangeAdd(e: Entry)
      requires Valid()
      modifies this`n, entries
      ensures Valid()
      ensures Listed() == if old(n) == E820_MAX_ENTRIES then old(Listed()) else old(Listed()) + [e]
    {
      if n != E820_MAX_ENTRIES {
        entries[n] := e;
        n := n + 1;
      }
    }

    /** One entry of the compaction: `idx` is the last entry kept so far. */
    method UpdateStep(idx: nat, cur: nat) returns (idx': nat)
      requires Valid() && idx < cur < n && Compact(entries[..idx + 1])
      modifies entries
      ensures idx <= idx' <= idx + 1 && Compact(entries[..idx' + 1])
      ensures Keeps(old(entries[..idx + 1] + entries[cur..n]), entries[..idx' + 1] + entries[cur + 1..n])
    {
      var e, f := entries[idx], entries[cur];
      ghost var x, y := entries[..idx], entries[cur + 1..n];
      assert entries[..idx + 1] + entries[cur..n] == x + [e, f] + y;
      if e.kind == f.kind && e.start + e.size == f.start {
        entries[idx] := e.(size := e.size + f.size);
        idx' := idx;
        MergeKeepsTypes(x, e, f, y);
        if Separate(x + [e, f] + y) {
          MergeKeepsSeparate(x, e, f, y);
        }
        if InSpace(x + [e, f] + y) {
          MergeKeepsInSpace(x, e, f, y);
        }
        assert entries[..idx' + 1] == x + [e.(size := e.size + f.size)];
      } else {
        idx' := idx + 1;
        entries[idx'] := f;
        assert entries[..idx' + 1] == x + [e, f];
      }
    }

    /**
     Merges consecutive entries in place. Whatever the table holds, overlapping entries
     included, every address keeps its type, and nothing is left to merge.
     */
    method Update()
      requires Valid()
      modifies this`n, entries
      ensures Valid() && n <= old(n) && Compact(Listed()) && Keeps(old(Listed()), Listed())
    {
      if n == 0 {
        return;
      }
      hide SameTypes, Separate, InSpace, Compact;
      ghost var s := Listed();
      var idx := 0;
      assert entries[..1] + entries[1..n] == s;
      OneIsCompact(entries[..1]);
      SameTypesReflexive(s);
      for cur := 1 to n
        invariant Valid() && n == old(n) && idx < cur <= n && Compact(entries[..idx + 1])
        invariant Keeps(s, entries[..idx + 1] + entries[cur..n])
      {
        ghost var t := entries[..idx + 1] + entries[cur..n];
        idx := UpdateStep(idx, cur);
        KeepsTransitive(s, t, entries[..idx + 1] + entries[cur + 1..n]);
      }
      assert entries[..idx + 1] + entries[n..n] == entries[..idx + 1];
      n := idx + 1;
    }
  }

  /* ---- Usable memory ---- */

  /** Some usable entry holds the address. */
  predicate IsRam(s: seq<Entry>, a: int) {
    Has(s, E820_TYPE_RAM, a)
  }

  /** How many entries are usable. */
  function RamCount(s: seq<Entry>): (n: nat) {
    if s == [] then 0 else RamCount(s[..|s| - 1]) + if s[|s| - 1].kind == E820_TYPE_RAM then 1 else 0
  }

  lemma {:induction false} RamCountPrefix(s: seq<Entry>, i: nat)
    requires i <= |s|
    ensures RamCount(s[..i]) <= RamCount(s)
  {
    if i < |s| {
      RamCountPrefix(s[..|s| - 1], i);
      assert s[..|s| - 1][..i] == s[..i];
    } else {
      assert s[..i] == s;
    }
  }

  /** With entries that do not overlap, usable is a matter of type alone. */
  lemma {:induction false} RamIsType(s: seq<Entry>, a: int)
    requires Separate(s)
    ensures IsRam(s, a) <==> TypeAt(s, a) == Some(E820_TYPE_RAM)
  {
    if s != [] {
      RamIsType(s[1..], a);
      if Holds(s[0], a) {
        NotTwice(s, a);
      }
    }
  }

  lemma NotTwice(s: seq<Entry>, a: int)
    requires Separate(s) && s != [] && Holds(s[0], a)
    ensures !IsRam(s[1..], a)
  {
    forall i | 0 <= i < |s[1..]| ensures !Holds(s[1..][i], a) {
      assert Disjoint(s[0], s[i + 1]);
    }
    NotHeld(s[1..], a);
  }

  lemma {:induction false} NotHeld(s: seq<Entry>, a: int)
    requires forall i :: 0 <= i < |s| && s[i].kind == E820_TYPE_RAM ==> !Holds(s[i], a)
    ensures !IsRam(s, a)
  {
    if s != [] {
      assert forall i :: 0 <= i < |s[1..]| ==> s[1..][i] == s[i + 1];
      NotHeld(s[1..], a);
    }
  }

  /** The map holds exactly the usable memory of the entries, on no node and not reserved. */
  ghost predicate MapsRam(m: seq<Region>, s: seq<Entry>) {
    forall a: int :: Lookup(m, a) == if IsRam(s, a) then Some(Attr(-1, MEMBLOCK_NONE)) else None
  }

  /* ---- Adding the usable entries ---- */

  /** Adding one more usable entry. */
  lemma OneMore(m: seq<Region>, m': seq<Region>, s: seq<Entry>, i: nat)
    requires i < |s| && MapsRam(m, s[..i])
    requires if s[i].kind == E820_TYPE_RAM then Filled(m, m', s[i].start, Limit(s[i]), Attr(-1, MEMBLOCK_NONE))
      else m' == m
    ensures MapsRam(m', s[..i + 1])
  {
    forall a: int ensures Lookup(m', a) == if IsRam(s[..i + 1], a) then Some(Attr(-1, MEMBLOCK_NONE)) else None {
      assert Lookup(m, a) == if IsRam(s[..i], a) then Some(Attr(-1, MEMBLOCK_NONE)) else None;
      RamStep(s, i, a);
    }
  }

  lemma RamStep(s: seq<Entry>, i: nat, a: int)
    requires i < |s|
    ensures IsRam(s[..i + 1], a) <==> IsRam(s[..i], a) || (s[i].kind == E820_TYPE_RAM && Holds(s[i], a))
  {
    assert s[..i + 1] == s[..i] + [s[i]] && [s[i]][1..] == [];
    TypeConcat(s[..i], [s[i]], E820_TYPE_RAM, a);
  }

  /** An entry that overlaps none before it is unmapped so far. */
  lemma StillFree(m: seq<Region>, s: seq<Entry>, i: nat)
    requires i < |s| && Separate(s) && MapsRam(m, s[..i]) && Ordered(m) && s[i].size > 0
    ensures Gaps(m, s[i].start, Limit(s[i])) == 1
  {
    forall a: int | s[i].start <= a < Limit(s[i]) ensures Lookup(m, a) == None {
      assert forall k :: 0 <= k < i ==> s[..i][k] == s[k] && Disjoint(s[k], s[i]);
      NotHeld(s[..i], a);
    }
    FreeIsOneGap(m, s[i].start, Limit(s[i]));
  }

  /** The array is large enough: one slot more than usable entries, or two for each if they overlap. */
  ghost predicate Enough(s: seq<Entry>, max: nat) {
    (Separate(s) && RamCount(s) < max) || 2 * RamCount(s) <= max
  }

  /** The entries before `i` have been added. */
  ghost predicate SetUp(m: MemBlock, s: seq<Entry>, i: nat)
    requires i <= |s|
    reads m, m.regions
  {
    && m.Tidy() && m.n <= RamCount(s[..i]) && MapsRam(m.Live(), s[..i])
    && m.Drift() == 0
  }

  lemma RoomForEntry(m: MemBlock, s: seq<Entry>, i: nat)
    requires i < |s| && SetUp(m, s, i) && Enough(s, m.regions.Length) && s[i].kind == E820_TYPE_RAM
    ensures m.n < RamCount(s) && m.RoomFor(s[i].start, s[i].size)
  {
    hide Separate, MapsRam, Ordered, Merged, Gaps, MemBlock.DeadBelow, MemBlock.Drift;
    assert s[..i + 1][..i] == s[..i];
    RamCountPrefix(s, i + 1);
    if s[i].size > 0 {
      GapsOfEntry(m.Live(), s, i);
    }
  }

  lemma GapsOfEntry(m: seq<Region>, s: seq<Entry>, i: nat)
    requires i < |s| && MapsRam(m, s[..i]) && Ordered(m) && s[i].size > 0
    ensures Gaps(m, s[i].start, Limit(s[i])) <= if Separate(s) || m == [] then 1 else |m| + 1
  {
    hide Separate, MapsRam, Ordered, Gaps;
    GapsBound(m, s[i].start, Limit(s[i]));
    if Separate(s) {
      StillFree(m, s, i);
    }
  }

  method SetupEntry(m: MemBlock, e: Entry, ghost s: seq<Entry>, ghost i: nat)
    requires InSpace(s) && Enough(s, m.regions.Length) && i < |s| && e == s[i] && SetUp(m, s, i)
    modifies m, m.regions
    ensures SetUp(m, s, i + 1)
  {
    hide Filled, MapsRam, Separate, Ordered, Merged;
    ghost var before := m.Live();
    assert s[..i + 1][..i] == s[..i];
    if e.kind == E820_TYPE_RAM {
      RoomForEntry(m, s, i);
      m.RoomSuffices(e.start, e.size, Attr(-1, MEMBLOCK_NONE));
      var added := m.AddRange(e.start, e.size, -1, MEMBLOCK_NONE);
      OneMore(before, m.Live(), s, i);
      AttrOfRam(m.Live(), s[..i + 1]);
      OneRegionMore(before, m.Live(), e.start, Limit(e), Attr(-1, MEMBLOCK_NONE));
    } else {
      OneMore(before, m.Live(), s, i);
    }
  }

  lemma AttrOfRam(m: seq<Region>, s: seq<Entry>)
    requires MapsRam(m, s)
    ensures forall a: int :: Lookup(m, a) == None || Lookup(m, a) == Some(Attr(-1, MEMBLOCK_NONE))
  {
  }

  /**
   Adds the usable entries to an empty map, overlapping ones included. The map then holds
   exactly the usable memory, and its size is the sum of its regions.
   */
  method MemblockSetup(t: Table, m: MemBlock)
    requires t.Valid() && InSpace(t.Listed()) && m.Tidy() && m.Live() == [] && m.size == 0
    requires Enough(t.Listed(), m.regions.Length)
    modifies m, m.regions
    ensures m.Tidy() && MapsRam(m.Live(), t.Listed()) && m.n <= RamCount(t.Listed())
    ensures m.size == Sum(m.Live())
  {
    hide SetUp, InSpace, Enough;
    ghost var s := t.Listed();
    SetUpNone(m, s);
    for i := 0 to t.n
      invariant t.Valid() && t.Listed() == s && SetUp(m, s, i)
    {
      SetupEntry(m, t.entries[i], s, i);
    }
    assert s[..t.n] == s;
    SetUpAll(m, s);
  }

  lemma SetUpNone(m: MemBlock, s: seq<Entry>)
    requires m.Tidy() && m.Live() == [] && m.size == 0
    ensures SetUp(m, s, 0)
  {
  }

  lemma SetUpAll(m: MemBlock, s: seq<Entry>)
    requires SetUp(m, s, |s|)
    ensures m.Tidy() && m.n <= RamCount(s) && MapsRam(m.Live(), s) && m.size == Sum(m.Live())
  {
    assert s[..|s|] == s;
    m.DriftIsZero();
  }

  lemma {:induction false} RamCountBound(s: seq<Entry>)
    ensures RamCount(s) <= |s|
  {
    if s != [] {
      RamCountBound(s[..|s| - 1]);
    }
  }

  lemma KeptPrefix(list: seq<Entry>)
    ensures InSpace(list) ==> InSpace(Kept(list))
    ensures Separate(list) ==> Separate(Kept(list))
  {
  }

  /** What a table of 128 entries keeps of the firmware's list. */
  function Kept(list: seq<Entry>): (s: seq<Entry>)
    ensures |s| <= E820_MAX_ENTRIES
  {
    if |list| <= 128 then list else list[..128]
  }

  /** The table of the firmware's list. */
  method ReadList(list: seq<Entry>) returns (t: Table)
    ensures fresh(t) && fresh(t.entries) && t.Valid() && t.Listed() == Kept(list)
  {
    t := new Table();
    for i := 0 to |list|
      invariant fresh(t) && fresh(t.entries) && t.Valid() && t.Listed() == Kept(list[..i])
    {
      t.RangeAdd(list[i]);
      assert list[..i + 1] == list[..i] + [list[i]];
    }
    assert list[..|list|] == list;
  }

  /**
   The whole way from the firmware's list to the memory map: it holds just the addresses
   that some usable entry kept of the list holds, which without overlap are those of usable
   type, which is type 1.
   */
  method FromFirmware(list: seq<Entry>, max: nat) returns (m: MemBlock)
    requires InSpace(list) && max > if Separate(list) then E820_MAX_ENTRIES else 2 * E820_MAX_ENTRIES - 1
    ensures fresh(m) && m.Tidy() && m.size == Sum(m.Live())
    ensures MapsRam(m.Live(), Kept(list))
    ensures Separate(list) ==> forall a: int ::
      Lookup(m.Live(), a)
      == if TypeAt(Kept(list), a) == Some(1) then Some(Attr(-1, MEMBLOCK_NONE)) else None
  {
    hide Separate, InSpace, TypeAt, Has, Kept, Sum, Ordered, Merged;
    var t := ReadList(list);
    KeptPrefix(list);
    t.Update();
    RamCountBound(t.Listed());
    m := new MemBlock(max);
    MemblockSetup(t, m);
    SameRam(m.Live(), t.Listed(), Kept(list));
    if Separate(list) {
      forall a: int ensures Lookup(m.Live(), a)
        == if TypeAt(Kept(list), a) == Some(E820_TYPE_RAM) then Some(Attr(-1, MEMBLOCK_NONE)) else None
      {
        RamIsType(Kept(list), a);
        assert IsRam(Kept(list), a) == Has(Kept(list), E820_TYPE_RAM, a);
      }
    }
  }

  lemma SameRam(m: seq<Region>, s: seq<Entry>, t: seq<Entry>)
    requires MapsRam(m, s) && SameTypes(t, s)
    ensures MapsRam(m, t)
  {
    forall a: int ensures Lookup(m, a) == if IsRam(t, a) then Some(Attr(-1, MEMBLOCK_NONE)) else None {
      assert Has(t, E820_TYPE_RAM, a) == Has(s, E820_TYPE_RAM, a);
    }
  }
}
