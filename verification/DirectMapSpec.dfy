/**
 The direct mapping of physical memory as an invariant of the page tables: below the kernel
 map every page is mapped to itself less the offset, and no table below is there for
 nothing. A step of the mapping only adds such translations.
 */
module DirectMapSpec {
  import opened Common
  import opened PageWalk

  /** The first page of the direct mapping (`PAGE_OFFSET`) and of the kernel map. */
  const PAGE_OFFSET: nat := 0xF_F800_0000
  const KERNEL_MAP: nat := 0xF_FFF8_0000

  /** Pages mapped below the kernel map are at their own frame. */
  predicate Identity(mem: Memory, y: Layout)
    requires Shape(mem, y)
  {
    forall t, i :: 0 <= t < |mem| && 0 <= i < PTRS && mem[t][i].Leaf? && EntryStart(y, t, i) < KERNEL_MAP ==>
      EntryStart(y, t, i) == mem[t][i].frame + PAGE_OFFSET
  }

  /** Some page of entry `i` of table `t` is mapped through the lower table `u`. */
  ghost predicate Used(mem: Memory, y: Layout, t: nat, i: nat, u: nat)
    requires t < |y.level| == |y.base| && y.level[t] > 0
  {
    exists v: nat :: InEntry(y, t, i, v) && Walk(mem, u, y.level[t] - 1, v).Some?
  }

  /** Entry `i` of table `t` links a table of the direct mapping. */
  predicate Linked(mem: Memory, y: Layout, t: nat, i: nat)
    requires t < |mem| == |y.level| == |y.base| && i < |mem[t]|
  {
    mem[t][i].Table? && 0 < y.level[t] < 3 && EntryStart(y, t, i) < KERNEL_MAP
  }

  /** Below the kernel map every table that is linked has a mapped page. */
  ghost predicate Busy(mem: Memory, y: Layout)
    requires Shape(mem, y)
  {
    forall t, i :: 0 <= t < |mem| && 0 <= i < PTRS && Linked(mem, y, t, i) ==> Used(mem, y, t, i, mem[t][i].index)
  }

  ghost predicate Inv(mem: Memory, y: Layout) {
    Shape(mem, y) && Identity(mem, y) && Busy(mem, y)
  }

  /** The translation of page `v` from table `r`. */
  function Translate(mem: Memory, y: Layout, r: nat, v: nat): (f: Option<nat>)
    requires r < |y.level|
  {
    Walk(mem, r, y.level[r], v)
  }

  /** Page `v` keeps its translation, or is newly mapped to its own frame. */
  predicate Kept(mem: Memory, mem': Memory, y: Layout, r: nat, v: nat, lo: nat, hi: nat)
    requires r < |y.level|
  {
    || Translate(mem', y, r, v) == Translate(mem, y, r, v)
    || (lo <= v < hi && PAGE_OFFSET <= v && Translate(mem, y, r, v) == None
        && Translate(mem', y, r, v) == Some(v - PAGE_OFFSET))
  }

  /** The tables grew, and no translation changed except for new ones between `lo` and `hi`. */
  ghost predicate Extends(mem: Memory, y: Layout, mem': Memory, y': Layout, lo: nat, hi: nat) {
    && |mem| == |y.level| == |y.base| && |mem'| == |y'.level| == |y'.base|
    && y.level <= y'.level && y.base <= y'.base
    && forall r, v: nat :: 0 <= r < |mem| && InTable(y, r, v) ==> Kept(mem, mem', y, r, v, lo, hi)
  }

  lemma ExtendsRefl(mem: Memory, y: Layout, lo: nat, hi: nat)
    requires |mem| == |y.level| == |y.base|
    ensures Extends(mem, y, mem, y, lo, hi)
  {
  }

  /** Two growing steps are one, over any range that includes both. */
  lemma ExtendsTrans(m0: Memory, y0: Layout, m1: Memory, y1: Layout, m2: Memory, y2: Layout,
                     lo1: nat, hi1: nat, lo2: nat, hi2: nat, lo: nat, hi: nat)
    requires Extends(m0, y0, m1, y1, lo1, hi1) && Extends(m1, y1, m2, y2, lo2, hi2)
    requires lo1 >= hi1 || lo <= lo1 <= hi1 <= hi
    requires lo2 >= hi2 || lo <= lo2 <= hi2 <= hi
    ensures Extends(m0, y0, m2, y2, lo, hi)
  {
    forall r, v: nat | 0 <= r < |m0| && InTable(y0, r, v) ensures Kept(m0, m2, y0, r, v, lo, hi) {
      assert Kept(m0, m1, y0, r, v, lo1, hi1);
      assert InTable(y1, r, v);
      assert Kept(m1, m2, y1, r, v, lo2, hi2);
    }
  }

  lemma KeptAt(mem: Memory, y: Layout, mem': Memory, y': Layout, lo: nat, hi: nat, r: nat, v: nat)
    requires Extends(mem, y, mem', y', lo, hi) && r < |mem| && InTable(y, r, v)
    ensures Kept(mem, mem', y, r, v, lo, hi) && y'.level[r] == y.level[r] && y'.base[r] == y.base[r] && r < |mem'|
  {
  }

  /* ---- Mapping one page of a level ---- */

  /** Page `v` starts an entry of a level-`l` table, and ends with the next boundary. */
  lemma EntryAligned(y: Layout, t: nat, i: nat)
    requires t < |y.level| == |y.base| && TableOk(y, t)
    ensures EntryStart(y, t, i) % Size(y.level[t]) == 0
  {
    var l := y.level[t];
    if l == 0 {
    } else if l == 1 {
    } else if l == 2 {
    } else {
    }
  }

  lemma OffsetIn(l: nat, a: nat, v: nat)
    requires l <= 3 && a % Size(l) == 0 && a <= v < a + Size(l)
    ensures v % Size(l) == v - a
  {
    if l == 0 {
    } else if l == 1 {
    } else if l == 2 {
    } else {
    }
  }

  /** A leaf entry at its own frame maps each of its pages to its own frame. */
  lemma LeafMaps(y: Layout, t: nat, i: nat, mem: Memory, v: nat)
    requires t < |y.level| == |y.base| && TableOk(y, t) && y.level[t] < 3 && InEntry(y, t, i, v)
    requires EntryStart(y, t, i) >= PAGE_OFFSET
    ensures WalkEntry(mem, Leaf(EntryStart(y, t, i) - PAGE_OFFSET), y.level[t], v) == Some(v - PAGE_OFFSET)
  {
    EntryAligned(y, t, i);
    OffsetIn(y.level[t], EntryStart(y, t, i), v);
  }

  /** A table entry translates as the table below it. */
  lemma ThroughTable(mem: Memory, y: Layout, t: nat, i: nat, v: nat)
    requires Shape(mem, y) && t < |mem| && i < PTRS && InEntry(y, t, i, v) && InTable(y, t, v)
    ensures Index(y.level[t], v) == i
    ensures Translate(mem, y, t, v) == WalkEntry(mem, mem[t][i], y.level[t], v)
  {
    ShapeAt(mem, y, t);
    IndexIsEntry(y, t, v);
    EntryUnique(y.level[t], y.base[t], i, Index(y.level[t], v), v);
    WalkIsEntry(mem, y, t, v);
  }

  lemma EntryInTable(y: Layout, t: nat, i: nat, v: nat)
    requires t < |y.level| == |y.base| && TableOk(y, t) && i < PTRS && InEntry(y, t, i, v)
    ensures InTable(y, t, v)
  {
    var l := y.level[t];
    if l == 0 {
    } else if l == 1 {
    } else if l == 2 {
    } else {
    }
  }

  /** An entry none of whose pages is mapped is absent, or a table that maps none of them. */
  lemma UnmappedEntry(mem: Memory, y: Layout, t: nat, i: nat, lo: nat, hi: nat)
    requires Inv(mem, y) && t < |mem| && i < PTRS && EntryStart(y, t, i) < KERNEL_MAP
    requires lo < hi && InEntry(y, t, i, lo)
    requires forall v: nat :: lo <= v < hi && InEntry(y, t, i, v) ==> Translate(mem, y, t, v) == None
    ensures !mem[t][i].Leaf?
    ensures lo == EntryStart(y, t, i) && hi >= lo + Size(y.level[t]) && y.level[t] < 3 ==> mem[t][i] == Absent
  {
    ShapeAt(mem, y, t);
    EntryInTable(y, t, i, lo);
    ThroughTable(mem, y, t, i, lo);
    assert EntryOk(mem, y, t, mem[t][i], i);
    if mem[t][i].Table? && lo == EntryStart(y, t, i) && hi >= lo + Size(y.level[t]) && y.level[t] < 3 {
      assert Used(mem, y, t, i, mem[t][i].index);
      var v: nat :| InEntry(y, t, i, v) && Walk(mem, mem[t][i].index, y.level[t] - 1, v).Some?;
      EntryInTable(y, t, i, v);
      ThroughTable(mem, y, t, i, v);
    }
  }

  /** Writing an entry that maps exactly the pages from `lo` to `hi` keeps the invariant. */
  lemma WriteKeeps(mem: Memory, y: Layout, t: nat, i: nat, e: Entry, lo: nat, hi: nat)
    requires Inv(mem, y) && t < |mem| && i < PTRS && mem[t][i] == Absent && EntryOk(mem, y, t, e, i)
    requires e.Leaf? && EntryStart(y, t, i) < KERNEL_MAP ==> EntryStart(y, t, i) == e.frame + PAGE_OFFSET
    requires PAGE_OFFSET <= lo < hi && InEntry(y, t, i, lo)
    requires forall v: nat :: InEntry(y, t, i, v) ==>
      WalkEntry(mem, e, y.level[t], v) == if lo <= v < hi then Some(v - PAGE_OFFSET) else None
    ensures Inv(Write(mem, t, i, e), y) && Extends(mem, y, Write(mem, t, i, e), y, lo, hi)
  {
    var mem': Memory := Write(mem, t, i, e);
    WriteShape(mem, y, t, i, e);
    WriteExtends(mem, y, t, i, e, lo, hi);
    forall r, j | 0 <= r < |mem'| && 0 <= j < PTRS && mem'[r][j].Leaf? && EntryStart(y, r, j) < KERNEL_MAP
      ensures EntryStart(y, r, j) == mem'[r][j].frame + PAGE_OFFSET
    {
      WriteAt(mem, t, i, e, r, j);
    }
    forall r, j | 0 <= r < |mem'| && 0 <= j < PTRS && Linked(mem', y, r, j)
      ensures Used(mem', y, r, j, mem'[r][j].index)
    {
      WriteAt(mem, t, i, e, r, j);
      if r == t && j == i {
        UsedAfterLink(mem, y, t, i, e, lo);
      } else {
        assert Used(mem, y, r, j, mem[r][j].index);
        UsedAfterExtends(mem, y, mem', y, lo, hi, r, j);
      }
    }
  }

  lemma WriteExtends(mem: Memory, y: Layout, t: nat, i: nat, e: Entry, lo: nat, hi: nat)
    requires Shape(mem, y) && t < |mem| && i < PTRS && mem[t][i] == Absent && EntryOk(mem, y, t, e, i)
    requires PAGE_OFFSET <= lo
    requires forall v: nat :: InEntry(y, t, i, v) ==>
      WalkEntry(mem, e, y.level[t], v) == if lo <= v < hi then Some(v - PAGE_OFFSET) else None
    ensures Extends(mem, y, Write(mem, t, i, e), y, lo, hi)
  {
    var mem': Memory := Write(mem, t, i, e);
    forall r, v: nat | 0 <= r < |mem| && InTable(y, r, v) ensures Kept(mem, mem', y, r, v, lo, hi) {
      WriteWalk(mem, y, t, i, e, r, v);
    }
  }

  lemma UsedAfterLink(mem: Memory, y: Layout, t: nat, i: nat, e: Entry, v: nat)
    requires Shape(mem, y) && t < |mem| && i < PTRS && EntryOk(mem, y, t, e, i) && e.Table? && y.level[t] > 0
    requires InEntry(y, t, i, v) && WalkEntry(mem, e, y.level[t], v).Some?
    ensures Used(Write(mem, t, i, e), y, t, i, e.index)
  {
    ShapeAt(mem, y, t);
    WriteBelow(mem, y, t, i, e, e.index, v);
    assert InEntry(y, t, i, v) && Walk(Write(mem, t, i, e), e.index, y.level[t] - 1, v).Some?;
  }

  /** A used table stays used when translations are only added. */
  lemma UsedAfterExtends(mem: Memory, y: Layout, mem': Memory, y': Layout, lo: nat, hi: nat, r: nat, j: nat)
    requires Shape(mem, y) && Extends(mem, y, mem', y', lo, hi) && r < |mem| && j < PTRS && mem[r][j].Table?
    requires y.level[r] > 0 && Used(mem, y, r, j, mem[r][j].index)
    ensures Used(mem', y', r, j, mem[r][j].index)
  {
    var u := mem[r][j].index;
    ShapeAt(mem, y, r);
    assert EntryOk(mem, y, r, mem[r][j], j);
    var v: nat :| InEntry(y, r, j, v) && Walk(mem, u, y.level[r] - 1, v).Some?;
    assert InTable(y, u, v);
    KeptAt(mem, y, mem', y', lo, hi, u, v);
    assert InEntry(y', r, j, v) && Walk(mem', u, y'.level[r] - 1, v).Some?;
  }

  /* ---- Adding a table ---- */

  lemma NewTableKeeps(mem: Memory, y: Layout, l: nat, base: nat)
    requires Inv(mem, y) && l <= 3 && base % Size(l + 1) == 0
    ensures Inv(mem + [NewTable()], Extend(y, l, base))
    ensures Extends(mem, y, mem + [NewTable()], Extend(y, l, base), 0, 0)
    ensures forall v: nat :: Translate(mem + [NewTable()], Extend(y, l, base), |mem|, v) == None
  {
    var mem': Memory, y' := mem + [NewTable()], Extend(y, l, base);
    ExtendShape(mem, y, l, base);
    forall r, v: nat | 0 <= r < |mem| && InTable(y, r, v) ensures Kept(mem, mem', y, r, v, 0, 0) {
      ExtendWalk(mem, y, r, v);
    }
    forall r, j | 0 <= r < |mem'| && 0 <= j < PTRS && mem'[r][j].Leaf? && EntryStart(y', r, j) < KERNEL_MAP
      ensures EntryStart(y', r, j) == mem'[r][j].frame + PAGE_OFFSET
    {
      assert r < |mem| && mem'[r][j] == mem[r][j] && EntryStart(y, r, j) == EntryStart(y', r, j);
    }
    forall r, j | 0 <= r < |mem'| && 0 <= j < PTRS && Linked(mem', y', r, j)
      ensures Used(mem', y', r, j, mem'[r][j].index)
    {
      assert r < |mem| && mem'[r][j] == mem[r][j] && EntryStart(y, r, j) == EntryStart(y', r, j);
      UsedAfterExtends(mem, y, mem', y', 0, 0, r, j);
    }
  }
}
