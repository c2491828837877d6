/**
 The direct mapping of all memory: every range of whole page frames of the memory map is
 mapped, segment by segment, at `PAGE_OFFSET`, and nothing else changes.
 */
module DirectMapInit {
  import opened Common
  import opened PageWalk
  import opened DirectMapSpec
  import opened DirectMapTiling
  import opened DirectMap
  import opened MemblockSpec
  import opened Memblock

  /** Frames the direct mapping has room for. */
  const MAX_PFN: nat := KERNEL_MAP - PAGE_OFFSET

  /**
   Which entries lead where: the direct mapping is the top table's last entry without the last two
   entries below it, which are the kernel's and the fixed mappings'.
   */
  lemma Windows(v: nat)
    requires v < Size(4)
    ensures PAGE_OFFSET <= v < KERNEL_MAP <==> Index(3, v) == 511 && Index(2, v) < 510
    ensures KERNEL_MAP <= v < FIXMAP_DIRECTORY <==> Index(3, v) == 511 && Index(2, v) == 510
    ensures FIXMAP_DIRECTORY <= v <==> Index(3, v) == 511 && Index(2, v) == 511
  {
    var top, rest := v / 0x800_0000, v % 0x800_0000;
    assert top < 512;
    assert v / 0x4_0000 == 512 * top + rest / 0x4_0000;
    assert rest / 0x4_0000 < 512;
    assert Index(2, v) == rest / 0x4_0000;
  }

  lemma OffsetAligned(x: nat, ps: nat)
    requires ps <= 2 && x % Size(ps) == 0
    ensures (PAGE_OFFSET + x) % Size(ps) == 0
  {
    if ps == 0 {
    } else if ps == 1 {
    } else {
    }
  }

  /** From `before` to `after` at most `budget` tables were taken, and fewer on failure. */
  predicate Within(before: nat, after: nat, budget: nat, ok: bool) {
    before <= after <= before + budget && (ok || after < before + budget)
  }

  /** Pages that lie in one larger page still do behind the offset; large ones share their top entry. */
  lemma OffsetBlock(g: Segment)
    requires SegmentOk(g) && g.end < MAX_PFN && (g.ps < 2 ==> OneBlock(g.ps, g.start, g.end))
    ensures OneBlock(g.ps, PAGE_OFFSET + g.start, PAGE_OFFSET + g.end)
  {
    if g.ps == 0 {
      OffsetUnit(g.start, 512);
      OffsetUnit(g.end - 1, 512);
    } else if g.ps == 1 {
      OffsetUnit(g.start, 0x4_0000);
      OffsetUnit(g.end - 1, 0x4_0000);
    } else {
      InTop(g.start);
      InTop(g.end - 1);
    }
  }

  lemma OffsetUnit(x: nat, unit: nat)
    requires unit == 512 || unit == 0x4_0000
    ensures (PAGE_OFFSET + x) / unit == PAGE_OFFSET / unit + x / unit
  {
  }

  lemma InTop(x: nat)
    requires x < MAX_PFN
    ensures (PAGE_OFFSET + x) / 0x800_0000 == 511
  {
  }

  /** Maps one segment of frames, from the top level down. */
  method PhysicalMappingInit(p: PageTables, g: Segment) returns (ok: bool)
    requires p.Valid() && SegmentOk(g) && g.end < MAX_PFN
    requires p.Free(p.root, PAGE_OFFSET + g.start, PAGE_OFFSET + g.end)
    modifies p
    ensures p.Done(old(p.mem), old(p.layout), 3, p.root, PAGE_OFFSET + g.start, PAGE_OFFSET + g.end, ok)
    ensures (g.ps < 2 ==> OneBlock(g.ps, g.start, g.end)) ==> Within(old(p.nextPage), p.nextPage, 3 - g.ps, ok)
  {
    hide Inv, OneBlock;
    OffsetAligned(g.start, g.ps);
    OffsetAligned(g.end, g.ps);
    if g.ps < 2 ==> OneBlock(g.ps, g.start, g.end) {
      OffsetBlock(g);
    }
    ok := p.InitLevel(3, p.root, PAGE_OFFSET + g.start, PAGE_OFFSET + g.end, g.ps);
  }

  lemma {:induction false} TilesAscend(s: seq<Segment>, from: nat, to: nat)
    requires Tiles(s, from, to)
    ensures from <= to && (s != [] ==> s[0].end <= to)
  {
    if s != [] {
      TilesAscend(s[1..], s[0].end, to);
    }
  }

  /** Maps a range of frames with the pages that fit best. */
  method MapRange(p: PageTables, start: nat, limit: nat) returns (ok: bool)
    requires p.Valid() && start < limit < MAX_PFN
    requires p.Free(p.root, PAGE_OFFSET + start, PAGE_OFFSET + limit)
    modifies p
    ensures p.Done(old(p.mem), old(p.layout), 3, p.root, PAGE_OFFSET + start, PAGE_OFFSET + limit, ok)
    ensures Within(old(p.nextPage), p.nextPage, RANGE_TABLES, ok)
  {
    hide Inv, Segments, PageTables.Done, PageTables.Free, Tiles, OneBlock, Compact, Tiling;
    var segments := Segments(start, limit);
    SegmentsTile(start, limit);
    SegmentsBudget(start, limit);
    ghost var m0, y0, before := p.mem, p.layout, p.nextPage;
    TilingStart(p, segments, start, limit);
    RangeFree(p, start, limit);
    ok := true;
    var k := 0;
    while ok && k < |segments|
      invariant 0 <= k <= |segments| && Tiling(p, m0, y0, before, segments, k, start, limit, ok)
    {
      ok := MapNext(p, segments, k, start, limit, m0, y0, before);
      k := k + 1;
    }
    TilingEnd(p, m0, y0, before, segments, k, start, limit, ok);
  }

  lemma RangeFree(p: PageTables, start: nat, limit: nat)
    requires p.Valid() && p.Free(p.root, PAGE_OFFSET + start, PAGE_OFFSET + limit)
    ensures |p.mem| == |p.layout.level| == |p.layout.base| && p.root < |p.mem|
    ensures forall v: nat :: PAGE_OFFSET + start <= v < PAGE_OFFSET + limit && InTable(p.layout, p.root, v) ==>
      Translate(p.mem, p.layout, p.root, v) == None
  {
  }

  /** The segments before `k` are mapped, up to the start of segment `k`. */
  ghost predicate Tiling(p: PageTables, m0: Memory, y0: Layout, before: nat, segments: seq<Segment>, k: nat, start: nat,
                         limit: nat, ok: bool)
    requires k <= |segments|
    reads p
  {
    var at := if k < |segments| then segments[k].start else limit;
    && before <= p.nextPage && start <= at
    && if ok then
         && Tiles(segments[k..], at, limit) && p.Done(m0, y0, 3, p.root, PAGE_OFFSET + start, PAGE_OFFSET + at, true)
         && p.nextPage + Budget(segments[k..]) <= before + Budget(segments)
       else
         && p.Done(m0, y0, 3, p.root, PAGE_OFFSET + start, PAGE_OFFSET + limit, false)
         && p.nextPage < before + Budget(segments)
  }

  lemma TilingStart(p: PageTables, segments: seq<Segment>, start: nat, limit: nat)
    requires p.Valid() && Tiles(segments, start, limit) && start < limit < MAX_PFN
    ensures Tiling(p, p.mem, p.layout, p.nextPage, segments, 0, start, limit, true)
  {
    assert segments[0..] == segments;
    ExtendsRefl(p.mem, p.layout, PAGE_OFFSET + start, PAGE_OFFSET + start);
  }

  lemma TilingEnd(p: PageTables, m0: Memory, y0: Layout, before: nat, segments: seq<Segment>, k: nat, start: nat,
                  limit: nat, ok: bool)
    requires k <= |segments| && Tiling(p, m0, y0, before, segments, k, start, limit, ok) && (ok ==> k == |segments|)
    ensures p.Done(m0, y0, 3, p.root, PAGE_OFFSET + start, PAGE_OFFSET + limit, ok)
    ensures Within(before, p.nextPage, Budget(segments), ok)
  {
    hide Inv, PageTables.Done;
  }

  /** Maps segment `k`. */
  method MapNext(p: PageTables, segments: seq<Segment>, k: nat, ghost start: nat, ghost limit: nat, ghost m0: Memory,
                 ghost y0: Layout, ghost before: nat)
    returns (ok: bool)
    requires k < |segments| && Tiling(p, m0, y0, before, segments, k, start, limit, true) && Compact(segments)
    requires |m0| == |y0.level| == |y0.base| && p.root < |m0| && start < limit < MAX_PFN
    requires forall v: nat :: PAGE_OFFSET + start <= v < PAGE_OFFSET + limit && InTable(y0, p.root, v) ==>
      Translate(m0, y0, p.root, v) == None
    modifies p
    ensures Tiling(p, m0, y0, before, segments, k + 1, start, limit, ok)
  {
    hide Inv, PageTables.Done, Tiles, OneBlock, Translate, InTable, Budget;
    var g := segments[k];
    NextTile(segments, k, limit);
    ok := MapSegment(p, g, start, limit, m0, y0);
  }

  /** The next segment and those after it. */
  lemma NextTile(segments: seq<Segment>, k: nat, limit: nat)
    requires k < |segments| && Tiles(segments[k..], segments[k].start, limit)
    ensures var g := segments[k];
            && SegmentOk(g) && g.end <= limit && g in segments
              && Budget(segments[k..]) == 3 - g.ps + Budget(segments[k + 1..])
            && g.end == (if k + 1 < |segments| then segments[k + 1].start else limit)
            && Tiles(segments[k + 1..], g.end, limit)
  {
    var rest := segments[k..];
    TilesFirst(rest, segments[k].start, limit);
    assert rest[0] == segments[k] && rest[1..] == segments[k + 1..];
    if k + 1 < |segments| {
      assert segments[k + 1..][0] == segments[k + 1];
    }
  }

  lemma TilesFirst(s: seq<Segment>, from: nat, to: nat)
    requires Tiles(s, from, to) && s != []
    ensures SegmentOk(s[0]) && s[0].start == from && Tiles(s[1..], s[0].end, to) && s[0].end <= to
  {
    TilesAscend(s, from, to);
  }

  /** So many tables can be missing for one range of frames. */
  const RANGE_TABLES: nat := 11

  /** The next segment of a range of which the frames before it are mapped. */
  method MapSegment(p: PageTables, g: Segment, ghost start: nat, ghost limit: nat, ghost m0: Memory, ghost y0: Layout)
    returns (ok: bool)
    requires SegmentOk(g) && start <= g.start && g.end <= limit < MAX_PFN
    requires p.Done(m0, y0, 3, p.root, PAGE_OFFSET + start, PAGE_OFFSET + g.start, true)
    requires |m0| == |y0.level| == |y0.base| && p.root < |m0|
    requires forall v: nat :: PAGE_OFFSET + start <= v < PAGE_OFFSET + limit && InTable(y0, p.root, v) ==>
      Translate(m0, y0, p.root, v) == None
    modifies p
    ensures ok ==> p.Done(m0, y0, 3, p.root, PAGE_OFFSET + start, PAGE_OFFSET + g.end, true)
    ensures !ok ==> p.Done(m0, y0, 3, p.root, PAGE_OFFSET + start, PAGE_OFFSET + limit, false)
    ensures (g.ps < 2 ==> OneBlock(g.ps, g.start, g.end)) ==> Within(old(p.nextPage), p.nextPage, 3 - g.ps, ok)
  {
    ghost var m1, y1 := p.mem, p.layout;
    FreeAfter(m0, y0, m1, y1, p.root, PAGE_OFFSET + start, PAGE_OFFSET + g.start, PAGE_OFFSET + limit);
    hide Inv, MappedIn, Grew, Translate, OneBlock;
    ok := PhysicalMappingInit(p, g);
    var lo, mid, hi := PAGE_OFFSET + start, PAGE_OFFSET + g.start, PAGE_OFFSET + g.end;
    GrewTwice(m0, y0, m1, y1, p.mem, p.layout, 3, lo, mid, hi, if ok then hi else PAGE_OFFSET + limit);
    if ok {
      GrewMapped(m1, y1, p.mem, p.layout, 3, p.root, lo, mid, hi);
    }
  }

  /* ---- The ranges of the memory map ---- */

  /** `PFN_UP`; the sum in it wraps for addresses in the last page of the address space. */
  function PfnUp(x: nat): (f: nat) {
    PagesUp(x) % (ADDRESS_LIMIT / 4096)
  }

  lemma PfnUpBelow(x: nat)
    requires x + 4095 < ADDRESS_LIMIT
    ensures PfnUp(x) == PagesUp(x)
  {
    assert PagesUp(x) < 0x10_0000_0000_0000 == ADDRESS_LIMIT / 4096;
  }

  function PfnDown(x: nat): (f: nat) {
    x / 4096
  }

  /** A region with at least one whole page frame, on node `nid` if that is not -1. */
  predicate Yields(r: Region, nid: int) {
    PfnUp(r.base) < PfnDown(End(r)) && (nid == -1 || nid == r.nid)
  }

  /** Frame `f` is one of those the code takes for region `r`. */
  predicate HasFrame(r: Region, f: nat) {
    PfnUp(r.base) <= f < PfnDown(End(r))
  }

  /** Region `r` has all 4096 addresses of frame `f`. */
  predicate WholeFrame(r: Region, f: nat) {
    r.base <= 4096 * f && 4096 * f + 4096 <= End(r)
  }

  /** The frames the code takes are exactly the whole ones, unless rounding the start up wraps. */
  lemma FramesWhole(r: Region, f: nat)
    requires r.base + 4095 < ADDRESS_LIMIT
    ensures HasFrame(r, f) <==> WholeFrame(r, f)
  {
    PfnUpBelow(r.base);
  }

  /** Frame `f` lies in some region as a whole. */
  predicate InFrames(s: seq<Region>, f: nat) {
    exists k :: 0 <= k < |s| && WholeFrame(s[k], f)
  }

  /** All addresses of frame `f` are mapped with the same attributes. */
  ghost predicate Uniform(s: seq<Region>, f: nat) {
    exists t: Attr :: AllHave(s, f, t)
  }

  ghost predicate AllHave(s: seq<Region>, f: nat, t: Attr) {
    forall a: nat :: a / 4096 == f ==> Lookup(s, a) == Some(t)
  }

  /** What starts where a region ends, or before, is the next region. */
  lemma NextAtEnd(s: seq<Region>, k: nat, j: nat)
    requires Ordered(s) && k < j < |s| && s[j].base <= End(s[k])
    ensures j == k + 1
  {
    var n := k + 1;
    assert End(s[k]) <= s[n].base && s[n].size > 0;
  }

  /** In a map in normal form the frames that lie in a region are those of uniform attributes. */
  lemma InFramesIff(s: seq<Region>, f: nat)
    requires Normal(s)
    ensures InFrames(s, f) <==> Uniform(s, f)
  {
    if InFrames(s, f) {
      var k :| 0 <= k < |s| && WholeFrame(s[k], f);
      forall a: nat | a / 4096 == f ensures Lookup(s, a) == Some(AttrOf(s[k])) {
        LookupAt(s, k, a);
      }
      assert AllHave(s, f, AttrOf(s[k]));
    }
    if Uniform(s, f) {
      var t :| AllHave(s, f, t);
      var first: nat := 4096 * f;
      assert first / 4096 == f;
      var k := Where(s, first);
      if !WholeFrame(s[k], f) {
        var e := End(s[k]);
        assert e / 4096 == f && (e - 1) / 4096 == f;
        LookupAt(s, k, e - 1);
        var j := Where(s, e);
        LookupAt(s, j, e);
        NextAtEnd(s, k, j);
        assert Mergeable(s[k], s[j]);
        assert false;
      }
    }
  }

  /** Every address of the region's frames belongs to the region. */
  ghost predicate FramesInside(r: Region) {
    forall f, a: nat :: HasFrame(r, f) && a / 4096 == f ==> Covers(r, a)
  }

  /** A region's frames are its own exactly if rounding its start up does not wrap. */
  lemma FramesInsideIff(r: Region)
    requires r.size > 0 && End(r) < ADDRESS_LIMIT
    ensures FramesInside(r) <==> r.base + 4095 < ADDRESS_LIMIT
  {
    if r.base + 4095 < ADDRESS_LIMIT {
      PfnUpBelow(r.base);
    } else {
      assert PagesUp(r.base) == ADDRESS_LIMIT / 4096;
      var a: nat := 0;
      assert HasFrame(r, 0) && a / 4096 == 0 && !Covers(r, a);
    }
  }

  /** The next region after `from` that yields frames; -1 when there is none. */
  method NextMemPfnRange(m: MemBlock, from: int, nid: int) returns (i: int, start: nat, end: nat)
    requires m.Valid() && -1 <= from < m.n
    ensures i == -1 ==> forall k :: from < k < m.n ==> !Yields(m.regions[k], nid)
    ensures i != -1 ==>
      && from < i < m.n && Yields(m.regions[i], nid)
      && start == PfnUp(m.regions[i].base) && end == PfnDown(End(m.regions[i]))
      && forall k :: from < k < i ==> !Yields(m.regions[k], nid)
  {
    i, start, end := from + 1, 0, 0;
    while i < m.n
      invariant from < i <= m.n && forall k :: from < k < i ==> !Yields(m.regions[k], nid)
    {
      var r := m.regions[i];
      if PfnUp(r.base) < PfnDown(r.base + r.size) && (nid == -1 || nid == r.nid) {
        return i, PfnUp(r.base), PfnDown(r.base + r.size);
      }
      i := i + 1;
    }
    i := -1;
  }

  /** Nothing is mapped in the direct mapping yet. */
  ghost predicate Untouched(p: PageTables)
    requires p.root < |p.layout.level|
    reads p
  {
    forall v: nat :: PAGE_OFFSET <= v < KERNEL_MAP ==> Translate(p.mem, p.layout, p.root, v) == None
  }

  /** The tables start out with nothing in the direct mapping. */
  lemma InitiallyUntouched(kernelPmd: seq<Entry>, fixmap0: seq<Entry>, fixmap1: seq<Entry>, v: nat)
    requires PagesOnly(kernelPmd) && PagesOnly(fixmap0) && PagesOnly(fixmap1) && PAGE_OFFSET <= v < KERNEL_MAP
    ensures Translate(InitialMemory(kernelPmd, fixmap0, fixmap1), InitialLayout(), 0, v) == None
  {
    var mem := InitialMemory(kernelPmd, fixmap0, fixmap1);
    assert Index(3, v) == 511 && Index(2, v) < 510;
    assert mem[0][511] == Table(1) && mem[1][Index(2, v)] == Absent;
  }

  /** What page `v` translates to once the frames of `s` are mapped. */
  function Expected(s: seq<Region>, before: Option<nat>, v: nat): (f: Option<nat>) {
    if PAGE_OFFSET <= v < KERNEL_MAP && InFrames(s, v - PAGE_OFFSET) then Some(v - PAGE_OFFSET) else before
  }

  /** Exactly the frames of the regions `s` have been mapped since `m0`. */
  ghost predicate MappedRegions(m0: Memory, y0: Layout, mem: Memory, y: Layout, root: nat, s: seq<Region>)
    requires root < |y0.level| && root < |y.level|
  {
    forall v: nat :: v < Size(4) ==>
      Translate(mem, y, root, v) == Expected(s, Translate(m0, y0, root, v), v)
  }

  /** Regions before `k` have no frame of region `k`. */
  lemma FramesDisjoint(s: seq<Region>, k: nat, f: nat)
    requires Ordered(s) && k < |s| && WholeFrame(s[k], f)
    ensures !InFrames(s[..k], f)
  {
    forall j | 0 <= j < k ensures !WholeFrame(s[..k][j], f) {
      assert End(s[j]) <= s[k].base;
    }
  }

  lemma InFramesStep(s: seq<Region>, k: nat, f: nat)
    requires k < |s|
    ensures InFrames(s[..k + 1], f) <==> InFrames(s[..k], f) || WholeFrame(s[k], f)
  {
    var t := s[..k + 1];
    if InFrames(s[..k], f) {
      var j :| 0 <= j < k && WholeFrame(s[..k][j], f);
      assert WholeFrame(t[j], f);
    }
    if WholeFrame(s[k], f) {
      assert WholeFrame(t[k], f);
    }
    if InFrames(t, f) {
      var j :| 0 <= j < |t| && WholeFrame(t[j], f);
      assert j < k ==> WholeFrame(s[..k][j], f);
    }
  }

  /** No region starts where rounding up wraps. */
  predicate NoWrap(s: seq<Region>) {
    forall k :: 0 <= k < |s| ==> s[k].base + 4095 < ADDRESS_LIMIT
  }

  lemma BelowTop(s: seq<Region>, i: nat)
    requires Ordered(s) && i < |s|
    ensures PfnDown(End(s[i])) <= PfnDown(End(s[|s| - 1]))
  {
    assert i < |s| - 1 ==> End(s[i]) <= s[|s| - 1].base;
  }

  lemma TopNoWrap(s: seq<Region>)
    requires Ordered(s) && PfnDown(TopOf(s)) < MAX_PFN
    ensures NoWrap(s)
  {
    forall k | 0 <= k < |s| ensures s[k].base + 4095 < ADDRESS_LIMIT {
      BelowTop(s, k);
    }
  }

  /** Regions without whole frames do not change what is expected. */
  lemma {:induction false} SkipRegions(s: seq<Region>, from: nat, to: nat, f: nat)
    requires from <= to <= |s| && NoWrap(s) && forall k :: from <= k < to ==> !Yields(s[k], -1)
    ensures InFrames(s[..from], f) <==> InFrames(s[..to], f)
  {
    hide InFrames, WholeFrame;
    if from < to {
      SkipRegions(s, from, to - 1, f);
      InFramesStep(s, to - 1, f);
      FramesWhole(s[to - 1], f);
    }
  }

  /** The frames of region `k` are free while only earlier regions are mapped. */
  lemma RegionFree(m0: Memory, y0: Layout, p: PageTables, s: seq<Region>, k: nat)
    requires p.Valid() && p.root < |y0.level| && k < |s| && Ordered(s) && PfnDown(End(s[k])) < MAX_PFN
    requires MappedRegions(m0, y0, p.mem, p.layout, p.root, s[..k])
    requires forall v: nat :: PAGE_OFFSET <= v < KERNEL_MAP ==> Translate(m0, y0, p.root, v) == None
    ensures p.Free(p.root, PAGE_OFFSET + PfnUp(s[k].base), PAGE_OFFSET + PfnDown(End(s[k])))
  {
    assert p.root < |p.layout.level| == |p.layout.base|;
    hide Inv, Translate, Ordered, InFrames;
    forall v: nat | PAGE_OFFSET + PfnUp(s[k].base) <= v < PAGE_OFFSET + PfnDown(End(s[k]))
      ensures Translate(p.mem, p.layout, p.root, v) == None
    {
      FramesDisjoint(s, k, v - PAGE_OFFSET);
      assert Translate(m0, y0, p.root, v) == None;
    }
  }

  /** Mapping region `k` after the earlier ones. */
  lemma RegionMapped(m0: Memory, y0: Layout, m1: Memory, y1: Layout, p: PageTables, s: seq<Region>, k: nat)
    requires p.root < |y0.level| && p.root < |m1| == |y1.level| == |y1.base| && y1.level[p.root] == 3
    requires y1.base[p.root] == 0
    requires k < |s| && MappedRegions(m0, y0, m1, y1, p.root, s[..k]) && PfnDown(End(s[k])) < MAX_PFN
    requires p.Done(m1, y1, 3, p.root, PAGE_OFFSET + PfnUp(s[k].base), PAGE_OFFSET + PfnDown(End(s[k])), true)
    ensures MappedRegions(m0, y0, p.mem, p.layout, p.root, s[..k + 1])
  {
    var lo, hi := PAGE_OFFSET + PfnUp(s[k].base), PAGE_OFFSET + PfnDown(End(s[k]));
    forall v: nat | v < Size(4)
      ensures Translate(p.mem, p.layout, p.root, v) == Expected(s[..k + 1], Translate(m0, y0, p.root, v), v)
    {
      KeptAt(m1, y1, p.mem, p.layout, lo, hi, p.root, v);
      assert Translate(p.mem, p.layout, p.root, v) == Translate(p.mem, y1, p.root, v);
      assert Translate(m1, y1, p.root, v) == Expected(s[..k], Translate(m0, y0, p.root, v), v);
      if v >= PAGE_OFFSET {
        InFramesStep(s, k, v - PAGE_OFFSET);
      }
      if lo <= v < hi {
        assert MapsOwn(p.mem, p.layout, p.root, v);
      }
    }
  }

  lemma SkipMapped(m0: Memory, y0: Layout, p: PageTables, s: seq<Region>, from: nat, to: nat)
    requires p.root < |y0.level| && p.root < |p.layout.level| && from <= to <= |s| && NoWrap(s)
    requires MappedRegions(m0, y0, p.mem, p.layout, p.root, s[..from])
    requires forall k :: from <= k < to ==> !Yields(s[k], -1)
    ensures MappedRegions(m0, y0, p.mem, p.layout, p.root, s[..to])
  {
    hide InFrames;
    forall v: nat | v < Size(4)
      ensures Translate(p.mem, p.layout, p.root, v) == Expected(s[..to], Translate(m0, y0, p.root, v), v)
    {
      if v >= PAGE_OFFSET {
        SkipRegions(s, from, to, v - PAGE_OFFSET);
      }
    }
  }

  /** Pages outside the direct mapping translate as they did. */
  ghost predicate Outside(m0: Memory, y0: Layout, p: PageTables)
    requires p.root < |y0.level| && p.root < |p.layout.level|
    reads p
  {
    forall v: nat :: v < Size(4) && !(PAGE_OFFSET <= v < KERNEL_MAP) ==>
      Translate(p.mem, p.layout, p.root, v) == Translate(m0, y0, p.root, v)
  }

  lemma NothingMapped(m0: Memory, y0: Layout, root: nat)
    requires root < |y0.level|
    ensures MappedRegions(m0, y0, m0, y0, root, [])
  {
    forall v: nat | v < Size(4)
      ensures Translate(m0, y0, root, v) == Expected([], Translate(m0, y0, root, v), v)
    {
    }
  }

  lemma StillOutside(m0: Memory, y0: Layout, m1: Memory, y1: Layout, p: PageTables, lo: nat, hi: nat)
    requires p.root < |y0.level| && p.root < |m1| == |y1.level| == |y1.base| && y1.level[p.root] == 3
    requires y1.base[p.root] == 0
    requires PAGE_OFFSET <= lo && hi <= KERNEL_MAP && Extends(m1, y1, p.mem, p.layout, lo, hi)
    requires forall v: nat :: v < Size(4) && !(PAGE_OFFSET <= v < KERNEL_MAP) ==>
      Translate(m1, y1, p.root, v) == Translate(m0, y0, p.root, v)
    ensures p.root < |p.layout.level| && Outside(m0, y0, p)
  {
    forall v: nat | v < Size(4) && !(PAGE_OFFSET <= v < KERNEL_MAP)
      ensures p.root < |p.layout.level| && Translate(p.mem, p.layout, p.root, v) == Translate(m0, y0, p.root, v)
    {
      KeptAt(m1, y1, p.mem, p.layout, lo, hi, p.root, v);
      assert Translate(p.mem, p.layout, p.root, v) == Translate(p.mem, y1, p.root, v);
    }
  }

  /** Maps the frames of region `i` when those of the earlier regions are mapped. */
  method MapRegion(m: MemBlock, p: PageTables, ghost i: nat, start: nat, end: nat, ghost m0: Memory, ghost y0: Layout)
    returns (ok: bool)
    requires m.Valid() && p.Valid() && i < m.n && PfnDown(m.Top()) < MAX_PFN && p.root < |y0.level|
    requires start == PfnUp(m.regions[i].base) && end == PfnDown(End(m.regions[i])) && Yields(m.regions[i], -1)
    requires forall v: nat :: PAGE_OFFSET <= v < KERNEL_MAP ==> Translate(m0, y0, p.root, v) == None
    requires MappedRegions(m0, y0, p.mem, p.layout, p.root, m.Live()[..i]) && Outside(m0, y0, p)
    modifies p
    ensures p.Valid() && Outside(m0, y0, p)
    ensures ok ==> MappedRegions(m0, y0, p.mem, p.layout, p.root, m.Live()[..i + 1])
    ensures !ok ==> p.nextPage + 1 >= p.brkPages
    ensures Within(old(p.nextPage), p.nextPage, RANGE_TABLES, ok)
  {
    ghost var m1, y1, s := p.mem, p.layout, m.Live();
    assert |m1| == |y1.level| == |y1.base|;
    BelowTop(s, i);
    RegionFree(m0, y0, p, s, i);
    hide Inv, Ordered, MappedRegions, PageTables.Free, Grew, MappedIn;
    ok := MapRange(p, start, end);
    if ok {
      RegionMapped(m0, y0, m1, y1, p, s, i);
    }
    GrewExtends(m1, y1, p.mem, p.layout, PAGE_OFFSET + start, PAGE_OFFSET + end);
    StillOutside(m0, y0, m1, y1, p, PAGE_OFFSET + start, PAGE_OFFSET + end);
  }

  lemma GrewExtends(m1: Memory, y1: Layout, m2: Memory, y2: Layout, lo: nat, hi: nat)
    requires Grew(m1, y1, m2, y2, 3, lo, hi)
    ensures Extends(m1, y1, m2, y2, lo, hi)
  {
  }

  /** The state of the loop over the regions; `i` is the next one, or -1. */
  ghost predicate Progress(m: MemBlock, p: PageTables, m0: Memory, y0: Layout, i: int, start: nat, end: nat, ok: bool)
    reads m, m.regions, p
  {
    && m.n <= m.regions.Length && p.Valid() && p.root < |y0.level| && Outside(m0, y0, p) && -1 <= i < m.n
    && (i >= 0 ==> start == PfnUp(m.regions[i].base) && end == PfnDown(End(m.regions[i])) && Yields(m.regions[i], -1))
    && if ok then MappedRegions(m0, y0, p.mem, p.layout, p.root, m.Live()[..if i < 0 then m.n else i])
       else p.nextPage + 1 >= p.brkPages
  }

  lemma ProgressEnd(m: MemBlock, p: PageTables, m0: Memory, y0: Layout, i: int, start: nat, end: nat, ok: bool)
    requires Progress(m, p, m0, y0, i, start, end, ok) && (ok ==> i < 0)
    ensures p.Valid() && p.root < |y0.level| && Outside(m0, y0, p)
    ensures ok ==> m.n <= m.regions.Length && MappedRegions(m0, y0, p.mem, p.layout, p.root, m.Live())
    ensures !ok ==> p.nextPage + 1 >= p.brkPages
  {
    assert m.Live()[..m.n] == m.Live();
  }

  method FirstRegion(m: MemBlock, p: PageTables) returns (i: int, start: nat, end: nat)
    requires m.Valid() && p.Valid() && NoWrap(m.Live())
    ensures Progress(m, p, p.mem, p.layout, i, start, end, true) && -1 <= i < m.n
  {
    i, start, end := NextMemPfnRange(m, -1, -1);
    NothingMapped(p.mem, p.layout, p.root);
    hide Inv, Ordered, MappedRegions, Yields, Translate;
    SkipMapped(p.mem, p.layout, p, m.Live(), 0, if i < 0 then m.n else i);
  }

  /** One turn of the loop: maps region `i` and finds the next one. */
  method NextRegion(m: MemBlock, p: PageTables, iIn: nat, startIn: nat, endIn: nat, ghost m0: Memory, ghost y0: Layout)
    returns (ok: bool, i: int, start: nat, end: nat)
    requires m.Valid() && PfnDown(m.Top()) < MAX_PFN && NoWrap(m.Live())
    requires Progress(m, p, m0, y0, iIn, startIn, endIn, true)
    requires forall v: nat :: PAGE_OFFSET <= v < KERNEL_MAP ==>
      p.root < |y0.level| && Translate(m0, y0, p.root, v) == None
    modifies p
    ensures Progress(m, p, m0, y0, i, start, end, ok)
    ensures (ok ==> i == -1 || i > iIn) && iIn < m.n && -1 <= i < m.n
    ensures Within(old(p.nextPage), p.nextPage, RANGE_TABLES, ok)
  {
    hide Identity, Busy, Ordered, MappedRegions, Outside, Yields, Translate;
    i, start, end := iIn, startIn, endIn;
    ok := MapRegion(m, p, i, start, end, m0, y0);
    if ok {
      i, start, end := NextMemPfnRange(m, i, -1);
      SkipMapped(m0, y0, p, m.Live(), iIn + 1, if i < 0 then m.n else i);
    }
  }

  /**
   Maps all whole frames of the memory map. When the kernel does not stop for lack of pages
   for tables, a page of the direct mapping translates to its frame exactly if that frame
   belongs to the memory map; pages of the kernel map, the fixed mappings and everything
   else keep their translations, also when the kernel does stop.
   */
  method InitRangeMemoryMapping(m: MemBlock, p: PageTables) returns (ok: bool)
    requires m.Valid() && p.Valid() && Untouched(p) && PfnDown(m.Top()) < MAX_PFN
    modifies p
    ensures p.Valid()
    ensures ok ==> MappedRegions(old(p.mem), old(p.layout), p.mem, p.layout, p.root, m.Live())
    ensures Outside(old(p.mem), old(p.layout), p)
    ensures !ok ==> p.nextPage + 1 >= p.brkPages
    ensures old(p.nextPage) + RANGE_TABLES * m.n < p.brkPages ==> ok
    ensures ok ==> p.nextPage <= old(p.nextPage) + RANGE_TABLES * m.n
  {
    ghost var m0, y0, before := p.mem, p.layout, p.nextPage;
    TopNoWrap(m.Live());
    var i, start, end := FirstRegion(m, p);
    hide MemBlock.Valid, PageTables.Valid, NoWrap, Untouched, Progress, MappedRegions, Outside;
    ok := true;
    while ok && i >= 0
      invariant Progress(m, p, m0, y0, i, start, end, ok) && -1 <= i < m.n
      invariant if ok then p.nextPage <= before + RANGE_TABLES * (if i < 0 then m.n else i)
                else p.nextPage < before + RANGE_TABLES * m.n
      decreases ok, if i < 0 then 0 else m.n - i
    {
      ok, i, start, end := NextRegion(m, p, i, start, end, m0, y0);
    }
    ProgressEnd(m, p, m0, y0, i, start, end, ok);
  }

  /**
   The direct mapping from the tables the kernel starts with: a page of the direct mapping
   translates to its frame if the frame belongs to the memory map, and to nothing otherwise;
   the kernel map and the fixed mappings translate as the initial tables did. In a map in normal
   form the frames mapped are those whose addresses are all mapped alike.
   */
  method InitMemMapping(m: MemBlock, kernelPmd: seq<Entry>, fixmap0: seq<Entry>, fixmap1: seq<Entry>, brkPages: nat)
    returns (p: PageTables, ok: bool)
    requires PagesOnly(kernelPmd) && PagesOnly(fixmap0) && PagesOnly(fixmap1)
    requires m.Valid() && PfnDown(m.Top()) < MAX_PFN
    ensures fresh(p) && p.Valid()
    ensures ok ==> forall v: nat :: PAGE_OFFSET <= v < KERNEL_MAP ==>
      Translate(p.mem, p.layout, p.root, v)
      == if InFrames(m.Live(), v - PAGE_OFFSET) then Some(v - PAGE_OFFSET) else None
    ensures ok && Merged(m.Live()) ==> forall v: nat :: PAGE_OFFSET <= v < KERNEL_MAP ==>
      Translate(p.mem, p.layout, p.root, v)
      == if Uniform(m.Live(), v - PAGE_OFFSET) then Some(v - PAGE_OFFSET) else None
    ensures forall v: nat :: KERNEL_MAP <= v < Size(4) ==>
      Translate(p.mem, p.layout, p.root, v)
        == Translate(InitialMemory(kernelPmd, fixmap0, fixmap1), InitialLayout(), 0, v)
    ensures RANGE_TABLES * m.n < brkPages ==> ok
  {
    p := new PageTables(kernelPmd, fixmap0, fixmap1, brkPages);
    ghost var m0, y0 := p.mem, p.layout;
    hide Inv, InFrames, Uniform, Ordered, Merged, Translate;
    forall v: nat | PAGE_OFFSET <= v < KERNEL_MAP ensures Translate(p.mem, p.layout, p.root, v) == None {
      InitiallyUntouched(kernelPmd, fixmap0, fixmap1, v);
    }
    ok := InitRangeMemoryMapping(m, p);
    if Merged(m.Live()) {
      forall f: nat ensures InFrames(m.Live(), f) <==> Uniform(m.Live(), f) {
        InFramesIff(m.Live(), f);
      }
    }
  }
}
