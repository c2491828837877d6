/**
 Four-level page tables: a heap of tables of 512 entries, and the walk the hardware does
 over them (section 4.5 of volume 3A of the Intel SDM). Addresses are page numbers: virtual
 page numbers of 36 bits, physical frame numbers. A table of level 0 holds entries for
 single pages, of level 1 for 2 MiB, of level 2 for 1 GiB, of level 3 for 512 GiB.
 */
module PageWalk {
  import opened Bits
  import opened Common

  /** A page-table entry: not present, a page that starts at a frame, or a lower table. */
  datatype Entry = Absent | Leaf(frame: nat) | Table(index: nat)

  const PTRS: nat := 512

  /** How many pages an entry of a level-`l` table covers. */
  function Size(l: nat): (n: nat)
    ensures n > 0
  {
    if l == 0 then 1
    else if l == 1 then 512
    else if l == 2 then 0x4_0000
    else if l == 3 then 0x800_0000
    else 0x10_0000_0000
  }

  /** The index into a level-`l` table that page `v` selects. */
  function Index(l: nat, v: nat): (i: nat)
    ensures i < PTRS
  {
    if l == 0 then v % 512
    else if l == 1 then (v / 512) % 512
    else if l == 2 then (v / 0x4_0000) % 512
    else (v / 0x800_0000) % 512
  }

  /** Start of the next entry's pages at level `l`. */
  function NextBoundary(l: nat, v: nat): (b: nat)
    requires l <= 3
  {
    if l == 0 then v + 1
    else if l == 1 then (v / 512 + 1) * 512
    else if l == 2 then (v / 0x4_0000 + 1) * 0x4_0000
    else (v / 0x800_0000 + 1) * 0x800_0000
  }

  type Memory = seq<seq<Entry>>

  /** The frame that page `v` translates to, from the level-`l` table `t` on. */
  function Walk(mem: Memory, t: nat, l: nat, v: nat): (f: Option<nat>)
    decreases l
  {
    if t >= |mem| || |mem[t]| != PTRS || l > 3 then None
    else
      match mem[t][Index(l, v)]
      case Absent => None
      case Leaf(frame) => if l == 3 then None else Some(frame + v % Size(l))
      case Table(u) => if l == 0 then None else Walk(mem, u, l - 1, v)
  }

  /** A walk goes on in the lower table. */
  lemma WalkDown(mem: Memory, t: nat, l: nat, v: nat, u: nat)
    requires t < |mem| && |mem[t]| == PTRS && 0 < l <= 3 && mem[t][Index(l, v)] == Table(u)
    ensures Walk(mem, t, l, v) == Walk(mem, u, l - 1, v)
  {
  }

  /* ---- Which pages a table and its entries cover ---- */

  /** For each table of the heap, its level and the first page it covers. */
  datatype Layout = Layout(level: seq<nat>, base: seq<nat>)

  /** The first page of entry `i` of table `t`. */
  function EntryStart(y: Layout, t: nat, i: nat): (v: nat)
    requires t < |y.level| == |y.base|
  {
    y.base[t] + i * Size(y.level[t])
  }

  /** Page `v` is among those table `t` covers. */
  predicate InTable(y: Layout, t: nat, v: nat)
    requires t < |y.level| == |y.base|
  {
    y.base[t] <= v < y.base[t] + Size(y.level[t] + 1)
  }

  /** Page `v` is among those entry `i` of table `t` covers. */
  predicate InEntry(y: Layout, t: nat, i: nat, v: nat)
    requires t < |y.level| == |y.base|
  {
    EntryStart(y, t, i) <= v < EntryStart(y, t, i) + Size(y.level[t])
  }

  predicate TableOk(y: Layout, t: nat)
    requires t < |y.level| == |y.base|
  {
    y.level[t] <= 3 && y.base[t] % Size(y.level[t] + 1) == 0
  }

  /** In the heap, entries point to tables of the next lower level that cover their pages. */
  predicate EntryOk(mem: Memory, y: Layout, t: nat, e: Entry, i: nat)
    requires |mem| == |y.level| == |y.base| && t < |mem|
  {
    match e
    case Absent => true
    case Leaf(_) => y.level[t] < 3
    case Table(u) => 0 < y.level[t] && u < |mem| && y.level[u] == y.level[t] - 1 && y.base[u] == EntryStart(y, t, i)
  }

  predicate Shape(mem: Memory, y: Layout) {
    && |mem| == |y.level| == |y.base|
    && (forall t :: 0 <= t < |mem| ==> |mem[t]| == PTRS && TableOk(y, t))
    && (forall t, i :: 0 <= t < |mem| && 0 <= i < PTRS ==> EntryOk(mem, y, t, mem[t][i], i))
  }

  /** The index selects the entry that covers the page. */
  lemma IndexIsEntry(y: Layout, t: nat, v: nat)
    requires t < |y.level| == |y.base| && TableOk(y, t) && InTable(y, t, v)
    ensures InEntry(y, t, Index(y.level[t], v), v)
  {
    IndexAt(y.level[t], y.base[t], v);
  }

  lemma IndexAt(l: nat, base: nat, v: nat)
    requires l <= 3 && base % Size(l + 1) == 0 && base <= v < base + Size(l + 1)
    ensures base + Index(l, v) * Size(l) <= v < base + Index(l, v) * Size(l) + Size(l)
  {
    if l == 0 {
    } else if l == 1 {
      IndexAt1(base, v);
    } else if l == 2 {
      IndexAt2(base, v);
    } else {
      IndexAt3(base, v);
    }
  }

  lemma IndexAt1(base: nat, v: nat)
    requires base % 0x4_0000 == 0 && base <= v < base + 0x4_0000
    ensures base + Index(1, v) * 512 <= v < base + Index(1, v) * 512 + 512
  {
    var t, d := base / 0x4_0000, (v - base) / 512;
    assert base == 0x4_0000 * t && v / 512 == 512 * t + d;
    assert (512 * t + d) % 512 == d;
  }

  lemma IndexAt2(base: nat, v: nat)
    requires base % 0x800_0000 == 0 && base <= v < base + 0x800_0000
    ensures base + Index(2, v) * 0x4_0000 <= v < base + Index(2, v) * 0x4_0000 + 0x4_0000
  {
    var t, d := base / 0x800_0000, (v - base) / 0x4_0000;
    assert base == 0x800_0000 * t && v / 0x4_0000 == 512 * t + d;
    assert (512 * t + d) % 512 == d;
  }

  lemma IndexAt3(base: nat, v: nat)
    requires base % 0x10_0000_0000 == 0 && base <= v < base + 0x10_0000_0000
    ensures base + Index(3, v) * 0x800_0000 <= v < base + Index(3, v) * 0x800_0000 + 0x800_0000
  {
    var t, d := base / 0x10_0000_0000, (v - base) / 0x800_0000;
    assert base == 0x10_0000_0000 * t && v / 0x800_0000 == 512 * t + d;
    assert (512 * t + d) % 512 == d;
  }

  /** Only one entry covers a page. */
  lemma EntryUnique(l: nat, base: nat, i: nat, j: nat, v: nat)
    requires base + i * Size(l) <= v < base + i * Size(l) + Size(l)
    requires base + j * Size(l) <= v < base + j * Size(l) + Size(l)
    ensures i == j
  {
    if l == 0 {
    } else if l == 1 {
    } else if l == 2 {
    } else if l == 3 {
    } else {
    }
  }

  lemma BoundaryIs(l: nat, base: nat, v: nat)
    requires l <= 3 && base % Size(l + 1) == 0 && base <= v < base + Size(l + 1)
    ensures NextBoundary(l, v) == base + Index(l, v) * Size(l) + Size(l)
  {
    IndexAt(l, base, v);
    var k := base / Size(l + 1);
    if l == 0 {
    } else if l == 1 {
      MultipleBoundary(512, 512 * k + Index(1, v), v);
    } else if l == 2 {
      MultipleBoundary(0x4_0000, 512 * k + Index(2, v), v);
    } else {
      MultipleBoundary(0x800_0000, 512 * k + Index(3, v), v);
    }
  }

  lemma MultipleBoundary(unit: nat, q: nat, v: nat)
    requires unit > 0 && q * unit <= v < q * unit + unit
    ensures (v / unit + 1) * unit == q * unit + unit
  {
    DivModUnique(v, unit, q, v - q * unit);
  }

  /* ---- Writing an entry ---- */

  /** The frame that page `v` translates to through entry `e` of a level-`l` table. */
  function WalkEntry(mem: Memory, e: Entry, l: nat, v: nat): (f: Option<nat>) {
    match e
    case Absent => None
    case Leaf(frame) => if l >= 3 then None else Some(frame + v % Size(l))
    case Table(u) => if l == 0 || l > 3 then None else Walk(mem, u, l - 1, v)
  }

  lemma WalkIsEntry(mem: Memory, y: Layout, t: nat, v: nat)
    requires Shape(mem, y) && t < |mem|
    ensures Walk(mem, t, y.level[t], v) == WalkEntry(mem, mem[t][Index(y.level[t], v)], y.level[t], v)
  {
    assert TableOk(y, t);
  }

  function Write(mem: Memory, t: nat, i: nat, e: Entry): (r: Memory)
    requires t < |mem| && i < |mem[t]|
    ensures |r| == |mem|
  {
    mem[t := mem[t][i := e]]
  }

  /** A write only touches its entry. */
  lemma WriteAt(mem: Memory, t: nat, i: nat, e: Entry, r: nat, j: nat)
    requires t < |mem| && i < |mem[t]| && r < |mem| && j < |mem[r]|
    ensures |Write(mem, t, i, e)[r]| == |mem[r]|
    ensures Write(mem, t, i, e)[r][j] == if r == t && j == i then e else mem[r][j]
  {
  }

  lemma WriteShape(mem: Memory, y: Layout, t: nat, i: nat, e: Entry)
    requires Shape(mem, y) && t < |mem| && i < PTRS && EntryOk(mem, y, t, e, i)
    ensures Shape(Write(mem, t, i, e), y)
  {
    var mem' := Write(mem, t, i, e);
    forall r | 0 <= r < |mem'| ensures |mem'[r]| == PTRS && TableOk(y, r) {
    }
    forall r, j | 0 <= r < |mem'| && 0 <= j < PTRS ensures EntryOk(mem', y, r, mem'[r][j], j) {
      WriteAt(mem, t, i, e, r, j);
      assert EntryOk(mem, y, r, mem[r][j], j);
    }
  }

  /** The table an entry points to covers the pages of the entry. */
  lemma LowerTable(mem: Memory, y: Layout, r: nat, v: nat)
    requires Shape(mem, y) && r < |mem| && InTable(y, r, v)
    ensures var e := mem[r][Index(y.level[r], v)];
            e.Table? ==>
              0 < y.level[r] && e.index < |mem| && y.level[e.index] == y.level[r] - 1 && InTable(y, e.index, v)
  {
    var i := Index(y.level[r], v);
    assert TableOk(y, r);
    IndexIsEntry(y, r, v);
    assert EntryOk(mem, y, r, mem[r][i], i);
  }

  /** A walk that starts below the written table does not see the write. */
  lemma {:induction false} WriteBelow(mem: Memory, y: Layout, t: nat, i: nat, e: Entry, r: nat, v: nat)
    requires Shape(mem, y) && t < |mem| && i < PTRS && r < |mem| && InTable(y, r, v) && y.level[r] < y.level[t]
    ensures Walk(Write(mem, t, i, e), r, y.level[r], v) == Walk(mem, r, y.level[r], v)
    decreases y.level[r]
  {
    hide Shape, InTable;
    LowerTable(mem, y, r, v);
    ShapeAt(mem, y, r);
    ShapeAt(mem, y, t);
    var x := mem[r][Index(y.level[r], v)];
    WriteAt(mem, t, i, e, r, Index(y.level[r], v));
    if x.Table? {
      WriteBelow(mem, y, t, i, e, x.index, v);
    }
  }

  lemma ShapeAt(mem: Memory, y: Layout, t: nat)
    requires Shape(mem, y) && t < |mem|
    ensures |mem| == |y.level| == |y.base| && |mem[t]| == PTRS && TableOk(y, t)
  {
  }

  /** Filling an absent entry adds the translations of its pages, to every table above. */
  lemma {:induction false} WriteWalk(mem: Memory, y: Layout, t: nat, i: nat, e: Entry, r: nat, v: nat)
    requires Shape(mem, y) && t < |mem| && i < PTRS && r < |mem| && InTable(y, r, v)
    requires mem[t][i] == Absent && EntryOk(mem, y, t, e, i)
    ensures var mem' := Write(mem, t, i, e);
            || Walk(mem', r, y.level[r], v) == Walk(mem, r, y.level[r], v)
            || (InEntry(y, t, i, v) && Walk(mem, r, y.level[r], v) == None
                && Walk(mem', r, y.level[r], v) == WalkEntry(mem, e, y.level[t], v))
    decreases y.level[r]
  {
    hide Shape, InTable, EntryOk;
    LowerTable(mem, y, r, v);
    ShapeAt(mem, y, r);
    ShapeAt(mem, y, t);
    WriteAt(mem, t, i, e, r, Index(y.level[r], v));
    var x := mem[r][Index(y.level[r], v)];
    if r == t && Index(y.level[r], v) == i {
      IndexIsEntry(y, t, v);
      WrittenEntry(mem, y, t, i, e, v);
    } else if x.Table? {
      WriteWalk(mem, y, t, i, e, x.index, v);
    }
  }

  lemma WrittenEntry(mem: Memory, y: Layout, t: nat, i: nat, e: Entry, v: nat)
    requires Shape(mem, y) && t < |mem| && i < PTRS && InTable(y, t, v) && Index(y.level[t], v) == i
    requires EntryOk(mem, y, t, e, i)
    ensures Walk(Write(mem, t, i, e), t, y.level[t], v) == WalkEntry(mem, e, y.level[t], v)
  {
    ShapeAt(mem, y, t);
    IndexIsEntry(y, t, v);
    if e.Table? {
      assert y.level[e.index] + 1 == y.level[t];
      WriteBelow(mem, y, t, i, e, e.index, v);
    }
  }

  /* ---- A new table ---- */

  function NewTable(): (p: seq<Entry>)
    ensures |p| == PTRS && forall i :: 0 <= i < PTRS ==> p[i] == Absent
  {
    seq(PTRS, _ => Absent)
  }

  function Extend(y: Layout, l: nat, base: nat): (r: Layout) {
    Layout(y.level + [l], y.base + [base])
  }

  lemma ExtendShape(mem: Memory, y: Layout, l: nat, base: nat)
    requires Shape(mem, y) && l <= 3 && base % Size(l + 1) == 0
    ensures Shape(mem + [NewTable()], Extend(y, l, base))
  {
    var mem', y' := mem + [NewTable()], Extend(y, l, base);
    forall t | 0 <= t < |mem'| ensures |mem'[t]| == PTRS && TableOk(y', t) {
      assert t < |mem| ==> TableOk(y, t);
    }
    forall t, i | 0 <= t < |mem'| && 0 <= i < PTRS ensures EntryOk(mem', y', t, mem'[t][i], i) {
      assert t < |mem| ==> EntryOk(mem, y, t, mem[t][i], i);
    }
  }

  /** Adding a table changes no walk, and nothing is mapped through the new one. */
  lemma {:induction false} ExtendWalk(mem: Memory, y: Layout, r: nat, v: nat)
    requires Shape(mem, y) && r < |mem| && InTable(y, r, v)
    ensures Walk(mem + [NewTable()], r, y.level[r], v) == Walk(mem, r, y.level[r], v)
    ensures forall l :: Walk(mem + [NewTable()], |mem|, l, v) == None
    decreases y.level[r]
  {
    hide Shape, InTable;
    LowerTable(mem, y, r, v);
    ShapeAt(mem, y, r);
    var x := mem[r][Index(y.level[r], v)];
    assert (mem + [NewTable()])[r] == mem[r];
    if x.Table? {
      ExtendWalk(mem, y, x.index, v);
    }
  }
}
