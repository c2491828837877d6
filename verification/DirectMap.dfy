/**
 Building the direct mapping: one routine per table level walks the entries that cover a
 range of pages, writes large pages on the level of their size, and allocates lower tables
 where none exist. The four routines of the kernel differ only in the level, so they are
 one method here. The assertions in it are the kernel's own and are proved never to fail;
 running out of pages for tables stops the kernel, which `ok == false` stands for.
 */
module DirectMap {
  import opened Common
  import opened PageWalk
  import opened DirectMapSpec
  import opened DirectMapTiling

  /** A page aligned to 2^(9 ps) that is in an entry of level `ps` starts it, and the range goes to its end. */
  lemma AlignedEntry(l: nat, a: nat, v: nat, end: nat)
    requires l <= 2 && a % Size(l) == 0 && a <= v < a + Size(l) && v % Size(l) == 0 && end % Size(l) == 0 && v < end
    ensures v == a && end >= a + Size(l)
  {
    if l == 0 {
    } else if l == 1 {
    } else {
    }
  }

  /** Entry boundaries of a level are aligned to every smaller page size. */
  lemma BoundaryAligned(l: nat, ps: nat, a: nat)
    requires ps <= l <= 3 && a % Size(l) == 0
    ensures (a + Size(l)) % Size(ps) == 0
  {
    if l == 0 {
    } else if l == 1 {
    } else if l == 2 {
      if ps == 0 { } else if ps == 1 { } else { }
    } else {
      if ps == 0 { } else if ps == 1 { } else if ps == 2 { } else { }
    }
  }

  /** Page `v` is mapped to its own frame through table `t`. */
  predicate MapsOwn(mem: Memory, y: Layout, t: nat, v: nat)
    requires t < |y.level|
  {
    PAGE_OFFSET <= v && Translate(mem, y, t, v) == Some(v - PAGE_OFFSET)
  }

  /** Pages from `lo` to `hi` are mapped to their own frames through table `t`. */
  ghost predicate MappedIn(mem: Memory, y: Layout, t: nat, lo: nat, hi: nat)
    requires t < |y.level|
  {
    forall v: nat :: lo <= v < hi ==> MapsOwn(mem, y, t, v)
  }

  /** Mapped pages stay mapped, so two adjacent mapped ranges are one. */
  lemma MappedGrow(m1: Memory, y1: Layout, m2: Memory, y2: Layout, t: nat, lo: nat, mid: nat, hi: nat)
    requires t < |m1| && Extends(m1, y1, m2, y2, mid, hi) && MappedIn(m1, y1, t, lo, mid)
    requires MappedIn(m2, y2, t, mid, hi)
    requires y1.base[t] <= lo && mid <= y1.base[t] + Size(y1.level[t] + 1)
    ensures MappedIn(m2, y2, t, lo, hi)
  {
    forall v: nat | lo <= v < hi ensures MapsOwn(m2, y2, t, v) {
      if v < mid {
        KeptAt(m1, y1, m2, y2, mid, hi, t, v);
        assert MapsOwn(m1, y1, t, v);
        assert Translate(m2, y2, t, v) == Translate(m2, y1, t, v);
      }
    }
  }

  /** The heap grew by translations of pages from `lo` to `hi`, written to tables up to level `l`. */
  ghost predicate Grew(mem0: Memory, y0: Layout, mem: Memory, y: Layout, l: nat, lo: nat, hi: nat) {
    && Extends(mem0, y0, mem, y, lo, hi)
    && (forall r :: 0 <= r < |mem0| && y0.level[r] > l ==> r < |mem| && mem[r] == mem0[r])
  }

  lemma GrewTwice(m0: Memory, y0: Layout, m1: Memory, y1: Layout, m2: Memory, y2: Layout, l: nat, lo: nat, mid: nat,
                  hi: nat, top: nat)
    requires Grew(m0, y0, m1, y1, l, lo, mid) && Grew(m1, y1, m2, y2, l, mid, hi) && lo <= mid <= hi <= top
    ensures Grew(m0, y0, m2, y2, l, lo, top)
  {
    ExtendsTrans(m0, y0, m1, y1, m2, y2, lo, mid, mid, hi, lo, top);
    forall r | 0 <= r < |m0| && y0.level[r] > l ensures r < |m2| && m2[r] == m0[r] {
      ExtendsLayout(m0, y0, m1, y1, lo, mid, r);
    }
  }

  /** Pages beyond those mapped so far are as free as they were. */
  lemma FreeAfter(m0: Memory, y0: Layout, m1: Memory, y1: Layout, t: nat, lo: nat, mid: nat, end: nat)
    requires t < |m0| && Extends(m0, y0, m1, y1, lo, mid) && lo <= mid
    requires forall v: nat :: lo <= v < end && InTable(y0, t, v) ==> Translate(m0, y0, t, v) == None
    ensures forall v: nat :: mid <= v < end && InTable(y1, t, v) ==> Translate(m1, y1, t, v) == None
  {
    forall v: nat | mid <= v < end && InTable(y1, t, v) ensures Translate(m1, y1, t, v) == None {
      KeptAt(m0, y0, m1, y1, lo, mid, t, v);
    }
  }

  /** The next entry starts where this one ends; the last one ends with the table. */
  lemma NextEntry(y: Layout, t: nat, i: nat, v: nat)
    requires t < |y.level| == |y.base| && TableOk(y, t) && i < PTRS && InEntry(y, t, i, v)
    ensures NextBoundary(y.level[t], v) == EntryStart(y, t, i) + Size(y.level[t])
    ensures i + 1 < PTRS ==> InEntry(y, t, i + 1, EntryStart(y, t, i) + Size(y.level[t]))
    ensures i + 1 == PTRS ==> EntryStart(y, t, i) + Size(y.level[t]) == y.base[t] + Size(y.level[t] + 1)
    ensures EntryStart(y, t, i) + Size(y.level[t]) <= y.base[t] + Size(y.level[t] + 1)
  {
    EntryInTable(y, t, i, v);
    IndexIsEntry(y, t, v);
    EntryUnique(y.level[t], y.base[t], i, Index(y.level[t], v), v);
    BoundaryIs(y.level[t], y.base[t], v);
    EntrySteps(y.level[t], i);
  }

  lemma EntrySteps(l: nat, i: nat)
    requires l <= 3 && i < PTRS
    ensures (i + 1) * Size(l) == i * Size(l) + Size(l) <= Size(l + 1)
    ensures i + 1 == PTRS ==> i * Size(l) + Size(l) == Size(l + 1)
  {
    if l == 0 {
    } else if l == 1 {
    } else if l == 2 {
    } else {
    }
  }

  /** A table without lower tables. */
  predicate PagesOnly(p: seq<Entry>) {
    |p| == PTRS && forall i :: 0 <= i < PTRS ==> !p[i].Table?
  }

  /** Top table, kernel level-2 table, kernel image, fixed-mapping directory and its two tables. */
  function InitialMemory(kernelPmd: seq<Entry>, fixmap0: seq<Entry>, fixmap1: seq<Entry>): (mem: Memory) {
    [NewTable()[511 := Table(1)],
     NewTable()[510 := Table(2)][511 := Table(3)],
     kernelPmd,
     NewTable()[510 := Table(4)][511 := Table(5)],
     fixmap0,
     fixmap1]
  }

  const FIXMAP_DIRECTORY: nat := KERNEL_MAP + 0x4_0000

  function InitialLayout(): (y: Layout) {
    Layout([3, 2, 1, 1, 0, 0],
           [0, PAGE_OFFSET, KERNEL_MAP, FIXMAP_DIRECTORY, FIXMAP_DIRECTORY + 510 * 512, FIXMAP_DIRECTORY + 511 * 512])
  }

  /** The entries of the initial upper tables. */
  lemma InitialEntries(kernelPmd: seq<Entry>, fixmap0: seq<Entry>, fixmap1: seq<Entry>)
    ensures var mem := InitialMemory(kernelPmd, fixmap0, fixmap1);
            && |mem| == 6 && |mem[0]| == |mem[1]| == |mem[3]| == PTRS
            && mem[0][511] == Table(1) && mem[1][510] == Table(2) && mem[1][511] == Table(3)
            && mem[2] == kernelPmd && mem[3][510] == Table(4) && mem[3][511] == Table(5)
            && mem[4] == fixmap0 && mem[5] == fixmap1
  {
  }

  lemma KernelIndices(i: nat, o: nat)
    requires i < PTRS && o < 512
    ensures var v := KERNEL_MAP + 512 * i + o;
            Index(3, v) == 511 && Index(2, v) == 510 && Index(1, v) == i && v % Size(1) == o
  {
    var v := KERNEL_MAP + 512 * i + o;
    assert v / 512 == KERNEL_MAP / 512 + i && v % 512 == o;
    assert v / 0x4_0000 == 511 * 512 + 510 && v / 0x800_0000 == 511;
  }

  /** In the kernel map a page walks to its place in the 2 MiB page of the kernel image's table. */
  lemma KernelWalk(kernelPmd: seq<Entry>, fixmap0: seq<Entry>, fixmap1: seq<Entry>, i: nat, o: nat)
    requires PagesOnly(kernelPmd) && i < PTRS && o < 512
    ensures Walk(InitialMemory(kernelPmd, fixmap0, fixmap1), 0, 3, KERNEL_MAP + 512 * i + o)
            == if kernelPmd[i].Leaf? then Some(kernelPmd[i].frame + o) else None
  {
    hide InitialMemory, Index, Size;
    var mem, v := InitialMemory(kernelPmd, fixmap0, fixmap1), KERNEL_MAP + 512 * i + o;
    InitialEntries(kernelPmd, fixmap0, fixmap1);
    KernelIndices(i, o);
    WalkDown(mem, 0, 3, v, 1);
    WalkDown(mem, 1, 2, v, 2);
  }

  /** The walk of a page whose entry in the fixed mappings' directory is the table `t`. */
  lemma FixmapWalk(kernelPmd: seq<Entry>, fixmap0: seq<Entry>, fixmap1: seq<Entry>, v: nat, t: nat, k: nat)
    requires |fixmap0| == |fixmap1| == PTRS && (t == 4 || t == 5)
    requires Index(3, v) == 511 && Index(2, v) == 511 && Index(1, v) == 506 + t && Index(0, v) == k
    ensures var p := if t == 4 then fixmap0 else fixmap1;
            Walk(InitialMemory(kernelPmd, fixmap0, fixmap1), 0, 3, v)
            == if p[k].Leaf? then Some(p[k].frame) else None
  {
    hide InitialMemory, Index;
    var mem := InitialMemory(kernelPmd, fixmap0, fixmap1);
    InitialEntries(kernelPmd, fixmap0, fixmap1);
    WalkDown(mem, 0, 3, v, 1);
    WalkDown(mem, 1, 2, v, 3);
    WalkDown(mem, 3, 1, v, t);
  }

  lemma InitialShape(kernelPmd: seq<Entry>, fixmap0: seq<Entry>, fixmap1: seq<Entry>)
    requires PagesOnly(kernelPmd) && PagesOnly(fixmap0) && PagesOnly(fixmap1)
    ensures Shape(InitialMemory(kernelPmd, fixmap0, fixmap1), InitialLayout())
  {
    var mem, y := InitialMemory(kernelPmd, fixmap0, fixmap1), InitialLayout();
    forall t | 0 <= t < |mem| ensures |mem[t]| == PTRS && TableOk(y, t) {
    }
    forall t, i | 0 <= t < |mem| && 0 <= i < PTRS ensures EntryOk(mem, y, t, mem[t][i], i) {
    }
  }

  lemma InitialInv(kernelPmd: seq<Entry>, fixmap0: seq<Entry>, fixmap1: seq<Entry>)
    requires PagesOnly(kernelPmd) && PagesOnly(fixmap0) && PagesOnly(fixmap1)
    ensures Inv(InitialMemory(kernelPmd, fixmap0, fixmap1), InitialLayout())
  {
    InitialShape(kernelPmd, fixmap0, fixmap1);
    var mem, y := InitialMemory(kernelPmd, fixmap0, fixmap1), InitialLayout();
    forall t, i | 0 <= t < |mem| && 0 <= i < PTRS && mem[t][i] != Absent
      ensures t == 0 || EntryStart(y, t, i) >= KERNEL_MAP
    {
    }
  }

  /** The tables the kernel starts with; the `k`-th page for tables becomes the `k`-th after them. */
  const INITIAL_TABLES: nat := 6

  /**
   Tables taken, from `before` to `after`: never any at the pages' own level, and for pages
   that lie in one larger page at most one for each level in between, one less on failure.
   */
  ghost predicate Spent(before: nat, after: nat, l: nat, ps: nat, lo: nat, end: nat, ok: bool)
    requires ps <= l
  {
    && before <= after && (ps == l ==> ok && after == before)
    && (OneBlock(ps, lo, end) ==> after <= before + (l - ps) && (ok || after < before + (l - ps)))
  }

  /** The same inside a level's loop, before page `v`. */
  ghost predicate Spending(before: nat, after: nat, l: nat, ps: nat, start: nat, end: nat, v: nat, ok: bool)
    requires ps <= l
  {
    && Spent(before, after, l, ps, start, end, ok) && (v == start ==> after == before)
    && (v != start && ps != l && OneBlock(ps, start, end) && ok ==> v >= end)
  }

  /** A range in one larger page is over at the first boundary of that level. */
  lemma BlockEnds(l: nat, ps: nat, v: nat, end: nat)
    requires ps < l <= 3 && OneBlock(ps, v, end)
    ensures NextBoundary(l, v) >= end
  {
    Coarser(v);
    Coarser(end - 1);
  }

  lemma Coarser(v: nat)
    ensures v / 0x4_0000 == (v / 512) / 512 && v / 0x800_0000 == (v / 0x4_0000) / 512
  {
  }

  lemma SpendingStep(before: nat, mid: nat, after: nat, l: nat, ps: nat, start: nat, end: nat, v: nat, ok: bool)
    requires ps <= l <= 3 && Spending(before, mid, l, ps, start, end, v, true) && start <= v < end
    requires Spent(mid, after, l, ps, v, end, ok) && NextBoundary(l, v) > v
    ensures Spending(before, after, l, ps, start, end, NextBoundary(l, v), ok)
  {
    hide OneBlock, NextBoundary;
    if ps < l && OneBlock(ps, start, end) {
      BlockEnds(l, ps, start, end);
    }
  }

  lemma BoundaryAbove(l: nat, v: nat)
    requires l <= 3
    ensures NextBoundary(l, v) > v
  {
  }

  class PageTables {
    const root: nat
    const brkPages: nat
    var mem: Memory
    var nextPage: nat
    ghost var layout: Layout

    ghost predicate Valid()
      reads this
    {
      && Inv(mem, layout) && root < |mem| && layout.level[root] == 3 && layout.base[root] == 0
      && |mem| == INITIAL_TABLES + nextPage
    }

    /**
     The tables when the mapping starts: the top table links the kernel's level-2 table in
     its last entry, whose last two entries are the kernel image and the fixed mappings.
     */
    constructor (kernelPmd: seq<Entry>, fixmap0: seq<Entry>, fixmap1: seq<Entry>, brkPages: nat)
      requires PagesOnly(kernelPmd) && PagesOnly(fixmap0) && PagesOnly(fixmap1)
      ensures Valid() && mem == InitialMemory(kernelPmd, fixmap0, fixmap1) && layout == InitialLayout()
      ensures this.brkPages == brkPages && nextPage == 0
    {
      root, this.brkPages, nextPage := 0, brkPages, 0;
      mem, layout := InitialMemory(kernelPmd, fixmap0, fixmap1), InitialLayout();
      InitialInv(kernelPmd, fixmap0, fixmap1);
    }

    /** `alloc_pages(1)`: the next page for tables, zeroed. */
    method AllocPage(ghost l: nat, ghost base: nat) returns (ok: bool, u: nat)
      requires Valid() && l <= 3 && base % Size(l + 1) == 0
      modifies this
      ensures Valid()
      ensures ok <==> old(nextPage) + 1 < brkPages
      ensures nextPage == old(nextPage) + if ok then 1 else 0
      ensures !ok ==> mem == old(mem) && layout == old(layout)
      ensures ok ==>
        && u == |old(mem)| && mem == old(mem) + [NewTable()] && layout == Extend(old(layout), l, base)
        && Extends(old(mem), old(layout), mem, layout, 0, 0)
        && forall v: nat :: Translate(mem, layout, u, v) == None
    {
      if nextPage + 1 >= brkPages {
        return false, 0;
      }
      NewTableKeeps(mem, layout, l, base);
      hide Inv, Extends, Walk;
      ok, u := true, |mem|;
      mem := mem + [NewTable()];
      layout := Extend(layout, l, base);
      nextPage := nextPage + 1;
    }

    /** Pages from `lo` to `hi` that table `t` covers are not mapped. */
    ghost predicate Free(t: nat, lo: nat, hi: nat)
      requires t < |layout.level| == |layout.base|
      reads this
    {
      forall v: nat :: lo <= v < hi && InTable(layout, t, v) ==> Translate(mem, layout, t, v) == None
    }

    /** Pages from `lo` to `hi` are mapped to their own frames through table `t`. */
    ghost predicate Mapped(t: nat, lo: nat, hi: nat)
      requires t < |layout.level|
      reads this
    {
      MappedIn(mem, layout, t, lo, hi)
    }

    /** Writes a large or small page at its own level. */
    method PutLeaf(l: nat, t: nat, i: nat, v: nat, ghost end: nat)
      requires Valid() && l <= 2 && t < |mem| && layout.level[t] == l && i < PTRS && InEntry(layout, t, i, v)
      requires PAGE_OFFSET <= v < end <= KERNEL_MAP && v % Size(l) == 0 && end % Size(l) == 0
      requires Free(t, v, end)
      modifies this`mem
      ensures Valid() && Extends(old(mem), layout, mem, layout, v, EntryStart(layout, t, i) + Size(l))
      ensures Mapped(t, v, EntryStart(layout, t, i) + Size(l))
      ensures forall r :: 0 <= r < |mem| && layout.level[r] > l ==> mem[r] == old(mem)[r]
    {
      ghost var hi := EntryStart(layout, t, i) + Size(l);
      ShapeAt(mem, layout, t);
      EntryAligned(layout, t, i);
      AlignedEntry(l, EntryStart(layout, t, i), v, end);
      forall w: nat | InEntry(layout, t, i, w) ensures InTable(layout, t, w) {
        EntryInTable(layout, t, i, w);
      }
      UnmappedEntry(mem, layout, t, i, v, end);
      assert mem[t][i] == Absent;
      var e := Leaf(v - PAGE_OFFSET);
      forall w: nat | InEntry(layout, t, i, w) ensures WalkEntry(mem, e, l, w) == Some(w - PAGE_OFFSET) {
        LeafMaps(layout, t, i, mem, w);
      }
      WriteKeeps(mem, layout, t, i, e, v, hi);
      WriteMaps(mem, layout, t, i, e, v, hi);
      hide Inv, Extends, Walk, EntryStart;
      mem := Write(mem, t, i, e);
    }

    /** The pages of a lower table are free or mapped as seen from the table above. */
    lemma SeenThrough(t: nat, i: nat, u: nat, v: nat)
      requires Valid() && t < |mem| && i < PTRS && mem[t][i] == Table(u) && u < |mem| && InTable(layout, u, v)
      ensures 0 < layout.level[t] && layout.level[u] == layout.level[t] - 1
      ensures InEntry(layout, t, i, v) && InTable(layout, t, v)
      ensures Translate(mem, layout, t, v) == Translate(mem, layout, u, v)
    {
      ShapeAt(mem, layout, t);
      assert EntryOk(mem, layout, t, mem[t][i], i);
      EntryInTable(layout, t, i, v);
      ThroughTable(mem, layout, t, i, v);
    }

    /** Where the pages of entry `i` that a range up to `end` maps stop. */
    ghost function Stop(t: nat, i: nat, end: nat): (hi: nat)
      requires t < |layout.level| == |layout.base|
      reads this
    {
      Min(end, EntryStart(layout, t, i) + Size(layout.level[t]))
    }

    /** What mapping the pages from `lo` to `hi` through the level-`l` table `t` has done. */
    ghost predicate Done(mem0: Memory, layout0: Layout, l: nat, t: nat, lo: nat, hi: nat, ok: bool)
      reads this
    {
      && Valid() && t < |mem0| && Grew(mem0, layout0, mem, layout, l, lo, hi) && t < |layout.level|
      && (if ok then Mapped(t, lo, hi) else nextPage + 1 >= brkPages)
    }

    /** The entry is a table already: maps the pages below it. */
    method Descend(l: nat, t: nat, i: nat, v: nat, end: nat, ps: nat) returns (ok: bool)
      requires Valid() && ps < l <= 3 && ps <= 2 && t < |mem| && layout.level[t] == l && i < PTRS
      requires InEntry(layout, t, i, v)
      requires PAGE_OFFSET <= v < end <= KERNEL_MAP && v % Size(ps) == 0 && end % Size(ps) == 0
      requires Free(t, v, end) && mem[t][i].Table?
      modifies this
      ensures Done(old(mem), old(layout), l, t, v, old(Stop(t, i, end)), ok)
      ensures Spent(old(nextPage), nextPage, l - 1, ps, v, end, ok)
      decreases l, 0
    {
      var u := mem[t][i].index;
      ShapeAt(mem, layout, t);
      assert EntryOk(mem, layout, t, mem[t][i], i);
      assert InTable(layout, u, v);
      forall w: nat | v <= w < end && InTable(layout, u, w) ensures Translate(mem, layout, u, w) == None {
        SeenThrough(t, i, u, w);
      }
      ghost var hi := Stop(t, i, end);
      ok := InitLevel(l - 1, u, v, end, ps);
      if ok {
        forall w: nat | v <= w < hi ensures MapsOwn(mem, layout, t, w) {
          assert MapsOwn(mem, layout, u, w);
          SeenThrough(t, i, u, w);
        }
      }
    }

    /** Linking a filled lower table at an absent entry. */
    method Link(l: nat, t: nat, i: nat, u: nat, ghost v: nat, ghost hi: nat)
      requires Valid() && 0 < l <= 3 && t < |mem| && layout.level[t] == l && i < PTRS && InEntry(layout, t, i, v)
      requires mem[t][i] == Absent && EntryOk(mem, layout, t, Table(u), i)
      requires PAGE_OFFSET <= v < hi <= EntryStart(layout, t, i) + Size(l) && Mapped(u, v, hi)
      requires forall w: nat :: InTable(layout, u, w) && !(v <= w < hi) ==> Translate(mem, layout, u, w) == None
      modifies this`mem
      ensures Valid() && Extends(old(mem), layout, mem, layout, v, hi) && Mapped(t, v, hi)
      ensures forall r :: 0 <= r < |mem| && layout.level[r] > l ==> mem[r] == old(mem)[r]
    {
      var e := Table(u);
      forall w: nat | InEntry(layout, t, i, w)
        ensures WalkEntry(mem, e, l, w) == if v <= w < hi then Some(w - PAGE_OFFSET) else None
      {
        assert InTable(layout, u, w);
        assert v <= w < hi ==> MapsOwn(mem, layout, u, w);
        assert WalkEntry(mem, e, l, w) == Translate(mem, layout, u, w);
      }
      WriteKeeps(mem, layout, t, i, e, v, hi);
      WriteMaps(mem, layout, t, i, e, v, hi);
      hide Inv, Extends, Walk, EntryStart, EntryOk;
      mem := Write(mem, t, i, e);
    }

    /** The entry is absent: allocates a table, fills it, and links it. */
    method Grow(l: nat, t: nat, i: nat, v: nat, end: nat, ps: nat) returns (ok: bool)
      requires Valid() && ps < l <= 3 && ps <= 2 && t < |mem| && layout.level[t] == l && i < PTRS
      requires InEntry(layout, t, i, v)
      requires PAGE_OFFSET <= v < end <= KERNEL_MAP && v % Size(ps) == 0 && end % Size(ps) == 0
      requires mem[t][i] == Absent
      modifies this
      ensures Done(old(mem), old(layout), l, t, v, old(Stop(t, i, end)), ok)
      ensures Spent(old(nextPage), nextPage, l, ps, v, end, ok)
      decreases l, 0
    {
      ghost var m0, y0, hi := mem, layout, Stop(t, i, end);
      ShapeAt(mem, layout, t);
      EntryAligned(layout, t, i);
      var u;
      ok, u := AllocPage(l - 1, EntryStart(layout, t, i));
      if !ok {
        ExtendsRefl(m0, y0, v, hi);
        return;
      }
      ghost var m1, y1 := mem, layout;
      assert InTable(layout, u, v) && m1[t] == m0[t];
      ok := InitLevel(l - 1, u, v, end, ps);
      GrownTable(m1, y1, u, v, hi);
      hide Inv, Extends, Walk, Identity, Busy;
      ExtendsTrans(m0, y0, m1, y1, mem, layout, 0, 0, v, hi, v, hi);
      assert mem[t] == m1[t];
      if ok {
        ghost var m2 := mem;
        Link(l, t, i, u, v, hi);
        ExtendsTrans(m0, y0, m2, layout, mem, layout, v, hi, v, hi, v, hi);
      }
    }

    /** A new table maps nothing outside the range it was filled for. */
    lemma GrownTable(m1: Memory, y1: Layout, u: nat, v: nat, hi: nat)
      requires u < |m1| && Extends(m1, y1, mem, layout, v, hi) && forall w: nat :: Translate(m1, y1, u, w) == None
      ensures u < |layout.level| == |layout.base| && layout.level[u] == y1.level[u] && layout.base[u] == y1.base[u]
      ensures forall w: nat :: InTable(layout, u, w) && !(v <= w < hi) ==> Translate(mem, layout, u, w) == None
    {
      forall w: nat | InTable(layout, u, w) && !(v <= w < hi) ensures Translate(mem, layout, u, w) == None {
        KeptAt(m1, y1, mem, layout, v, hi, u, w);
      }
    }

    /** One entry of a level's loop. */
    method MapEntry(l: nat, t: nat, i: nat, v: nat, end: nat, ps: nat) returns (ok: bool)
      requires Valid() && ps <= l <= 3 && ps <= 2 && t < |mem| && layout.level[t] == l && i < PTRS
      requires InEntry(layout, t, i, v)
      requires PAGE_OFFSET <= v < end <= KERNEL_MAP && v % Size(ps) == 0 && end % Size(ps) == 0
      requires Free(t, v, end)
      modifies this
      ensures Done(old(mem), old(layout), l, t, v, old(Stop(t, i, end)), ok)
      ensures Spent(old(nextPage), nextPage, l, ps, v, end, ok)
      decreases l, 1
    {
      NothingThere(l, t, i, v, end, ps);
      if mem[t][i] != Absent {
        assert ps != l;
        assert !mem[t][i].Leaf?;
        ok := Descend(l, t, i, v, end, ps);
      } else if ps == l {
        PutLeaf(l, t, i, v, end);
        ok := true;
      } else {
        ok := Grow(l, t, i, v, end, ps);
      }
    }

    /** What makes the kernel's assertions hold: a free entry is no page, and no table at its own level. */
    lemma NothingThere(l: nat, t: nat, i: nat, v: nat, end: nat, ps: nat)
      requires Valid() && ps <= l <= 3 && ps <= 2 && t < |mem| && layout.level[t] == l && i < PTRS
      requires InEntry(layout, t, i, v)
      requires v < end <= KERNEL_MAP && v % Size(ps) == 0 && end % Size(ps) == 0 && Free(t, v, end)
      ensures !mem[t][i].Leaf? && (ps == l ==> mem[t][i] == Absent)
      ensures ps == l ==> Stop(t, i, end) == EntryStart(layout, t, i) + Size(l)
    {
      ShapeAt(mem, layout, t);
      EntryAligned(layout, t, i);
      forall w: nat | InEntry(layout, t, i, w) ensures InTable(layout, t, w) {
        EntryInTable(layout, t, i, w);
      }
      if ps == l {
        AlignedEntry(l, EntryStart(layout, t, i), v, end);
      }
      UnmappedEntry(mem, layout, t, i, v, end);
    }

    /** The state of a level's loop: pages below `v` are mapped, entry `i` is next. */
    ghost predicate AtEntry(mem0: Memory, layout0: Layout, l: nat, t: nat, start: nat, end: nat, ps: nat, i: nat,
                            v: nat)
      reads this
    {
      && Done(mem0, layout0, l, t, start, Min(v, end), true)
      && |mem0| == |layout0.level| == |layout0.base| && t < |mem| && layout.level[t] == l
        && layout.base[t] == layout0.base[t]
      && start <= v && v % Size(ps) == 0 && i <= PTRS
      && (if i < PTRS then InEntry(layout, t, i, v) else v == layout.base[t] + Size(l + 1))
    }

    /** One turn of a level's loop. */
    method NextInLevel(l: nat, t: nat, i: nat, v: nat, ghost start: nat, end: nat, ps: nat, ghost mem0: Memory,
                       ghost layout0: Layout)
      returns (ok: bool)
      requires AtEntry(mem0, layout0, l, t, start, end, ps, i, v) && i < PTRS && v < end
      requires ps <= l <= 3 && ps <= 2 && PAGE_OFFSET <= start < end <= KERNEL_MAP && end % Size(ps) == 0
      requires InTable(layout0, t, start)
      requires forall w: nat :: start <= w < end && InTable(layout0, t, w) ==> Translate(mem0, layout0, t, w) == None
      modifies this
      ensures ok ==> AtEntry(mem0, layout0, l, t, start, end, ps, i + 1, NextBoundary(l, v))
      ensures !ok ==> Done(mem0, layout0, l, t, start, Min(end, layout0.base[t] + Size(l + 1)), false)
      ensures Spent(old(nextPage), nextPage, l, ps, v, end, ok)
      decreases l, 2
    {
      ghost var m1, y1, hi := mem, layout, Stop(t, i, end);
      EntryReady(l, t, i, v, start, end, ps, mem0, layout0);
      hide Inv, Grew, MappedIn, Size, EntryStart, NextBoundary, PageTables.Free, InTable;
      ok := MapEntry(l, t, i, v, end, ps);
      GrewLayout(m1, y1, mem, layout, l, v, hi, t);
      GrewTwice(mem0, layout0, m1, y1, mem, layout, l, start, v, hi,
                if ok then hi else Min(end, layout0.base[t] + Size(l + 1)));
      if ok {
        GrewMapped(m1, y1, mem, layout, l, t, start, v, hi);
        SameEntries(y1, layout, t, i + 1, NextBoundary(l, v));
      }
    }

    /** What the loop state says about its next entry. */
    lemma EntryReady(l: nat, t: nat, i: nat, v: nat, start: nat, end: nat, ps: nat, mem0: Memory, layout0: Layout)
      requires AtEntry(mem0, layout0, l, t, start, end, ps, i, v) && i < PTRS && v < end
      requires ps <= l <= 3 && ps <= 2 && end % Size(ps) == 0 && InTable(layout0, t, start)
      requires forall w: nat :: start <= w < end && InTable(layout0, t, w) ==> Translate(mem0, layout0, t, w) == None
      ensures Free(t, v, end) && layout.base[t] <= start
      ensures NextBoundary(l, v) == EntryStart(layout, t, i) + Size(l) > v && NextBoundary(l, v) % Size(ps) == 0
      ensures Stop(t, i, end) == Min(NextBoundary(l, v), end) && NextBoundary(l, v) <= layout.base[t] + Size(l + 1)
      ensures if i + 1 < PTRS then InEntry(layout, t, i + 1, NextBoundary(l, v))
        else NextBoundary(l, v) == layout.base[t] + Size(l + 1)
    {
      ShapeAt(mem, layout, t);
      EntryAligned(layout, t, i);
      BoundaryAligned(l, ps, EntryStart(layout, t, i));
      NextEntry(layout, t, i, v);
      FreeAfter(mem0, layout0, mem, layout, t, start, v, end);
    }

    /** Maps the pages from `start` up to `end`, as far as table `t` covers them. */
    method InitLevel(l: nat, t: nat, start: nat, end: nat, ps: nat) returns (ok: bool)
      requires Valid() && ps <= l <= 3 && ps <= 2 && t < |mem| && layout.level[t] == l && InTable(layout, t, start)
      requires PAGE_OFFSET <= start < end <= KERNEL_MAP && start % Size(ps) == 0 && end % Size(ps) == 0
      requires Free(t, start, end)
      modifies this
      ensures Done(old(mem), old(layout), l, t, start, old(Min(end, layout.base[t] + Size(l + 1))), ok)
      ensures Spent(old(nextPage), nextPage, l, ps, start, end, ok)
      decreases l, 3
    {
      var i: nat, v: nat := Index(l, start), start;
      ghost var m0, y0, before := mem, layout, nextPage;
      FirstEntry(l, t, start, end, ps);
      hide PageTables.AtEntry, PageTables.Done, PageTables.Valid, NextBoundary, Translate, InTable, OneBlock;
      ok := true;
      while ok && i < PTRS && v < end
        invariant t < |y0.level| == |y0.base|
        invariant ok ==> AtEntry(m0, y0, l, t, start, end, ps, i, v)
        invariant !ok ==> Done(m0, y0, l, t, start, Min(end, y0.base[t] + Size(l + 1)), false)
        invariant start <= v && Spending(before, nextPage, l, ps, start, end, v, ok)
        decreases ok, PTRS - i
      {
        ghost var mid := nextPage;
        ok := NextInLevel(l, t, i, v, start, end, ps, m0, y0);
        BoundaryAbove(l, v);
        SpendingStep(before, mid, nextPage, l, ps, start, end, v, ok);
        v := NextBoundary(l, v);
        i := i + 1;
      }
      if ok {
        LastEntry(l, t, start, end, ps, i, v, m0, y0);
      }
    }

    lemma FirstEntry(l: nat, t: nat, start: nat, end: nat, ps: nat)
      requires Valid() && l <= 3 && t < |mem| && layout.level[t] == l && InTable(layout, t, start)
      requires start < end && start % Size(ps) == 0
      ensures AtEntry(mem, layout, l, t, start, end, ps, Index(l, start), start)
    {
      ShapeAt(mem, layout, t);
      IndexIsEntry(layout, t, start);
      ExtendsRefl(mem, layout, start, start);
    }

    lemma LastEntry(l: nat, t: nat, start: nat, end: nat, ps: nat, i: nat, v: nat, mem0: Memory, layout0: Layout)
      requires AtEntry(mem0, layout0, l, t, start, end, ps, i, v) && (i >= PTRS || v >= end) && l <= 3
      ensures Done(mem0, layout0, l, t, start, Min(end, layout0.base[t] + Size(l + 1)), true)
    {
      if i < PTRS {
        ShapeAt(mem, layout, t);
        EntryInTable(layout, t, i, v);
      }
    }
  }

  lemma GrewLayout(mem: Memory, y: Layout, mem': Memory, y': Layout, l: nat, lo: nat, hi: nat, t: nat)
    requires Grew(mem, y, mem', y', l, lo, hi) && t < |mem|
    ensures t < |mem'| == |y'.level| == |y'.base| && y'.level[t] == y.level[t] && y'.base[t] == y.base[t]
    ensures |mem| <= |mem'|
  {
  }

  lemma GrewMapped(m1: Memory, y1: Layout, m2: Memory, y2: Layout, l: nat, t: nat, lo: nat, mid: nat, hi: nat)
    requires t < |m1| && Grew(m1, y1, m2, y2, l, mid, hi) && t < |y1.level| && MappedIn(m1, y1, t, lo, mid)
    requires t < |y2.level| && MappedIn(m2, y2, t, mid, hi)
    requires t < |y1.base| && y1.base[t] <= lo && mid <= y1.base[t] + Size(y1.level[t] + 1)
    ensures MappedIn(m2, y2, t, lo, hi)
  {
    MappedGrow(m1, y1, m2, y2, t, lo, mid, hi);
  }

  lemma SameEntries(y: Layout, y': Layout, t: nat, i: nat, v: nat)
    requires t < |y.level| == |y.base| && t < |y'.level| == |y'.base| && y'.level[t] == y.level[t]
    requires y'.base[t] == y.base[t]
    ensures InEntry(y, t, i, v) <==> InEntry(y', t, i, v)
  {
  }

  lemma ExtendsLayout(mem: Memory, y: Layout, mem': Memory, y': Layout, lo: nat, hi: nat, t: nat)
    requires Extends(mem, y, mem', y', lo, hi) && t < |mem|
    ensures t < |mem'| == |y'.level| == |y'.base| && y'.level[t] == y.level[t] && y'.base[t] == y.base[t]
    ensures |mem| <= |mem'|
    ensures forall r :: 0 <= r < |mem| ==> y'.level[r] == y.level[r]
  {
  }

  /** The written pages are mapped through the table they were written to. */
  lemma WriteMaps(mem: Memory, y: Layout, t: nat, i: nat, e: Entry, lo: nat, hi: nat)
    requires Shape(mem, y) && t < |mem| && i < PTRS && EntryOk(mem, y, t, e, i) && PAGE_OFFSET <= lo
    requires forall v: nat :: lo <= v < hi ==>
      InEntry(y, t, i, v) && WalkEntry(mem, e, y.level[t], v) == Some(v - PAGE_OFFSET)
    ensures forall v: nat :: lo <= v < hi ==> Translate(Write(mem, t, i, e), y, t, v) == Some(v - PAGE_OFFSET)
  {
    forall v: nat | lo <= v < hi ensures Translate(Write(mem, t, i, e), y, t, v) == Some(v - PAGE_OFFSET) {
      ShapeAt(mem, y, t);
      EntryInTable(y, t, i, v);
      ThroughTable(mem, y, t, i, v);
      WrittenEntry(mem, y, t, i, e, v);
    }
  }
}
