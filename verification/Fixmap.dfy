/**
 Temporary fixed mappings: 512 page slots, a table that holds at the first slot of each
 mapping how many slots it takes, and one page-table entry per slot. A request takes the
 lowest run of free slots.
 */
module Fixmap {
  import opened Common
  import opened PageWalk
  import opened DirectMap

  const SLOTS: nat := 512

  /** The virtual page of slot 0 (`FIX_BITMAP_BEGIN`); slots ascend. */
  const FIRST_PAGE: nat := 0xF_FFFF_FC00

  /* ---- Slots ---- */

  /** Slot `k` belongs to the mapping that starts at slot `s`. */
  predicate Holds(table: seq<int>, s: nat, k: nat) {
    s < |table| && table[s] != -1 && s <= k < s + table[s]
  }

  predicate IsFree(table: seq<int>, k: nat) {
    forall s :: 0 <= s < |table| ==> !Holds(table, s, k)
  }

  /** Mappings stay inside the table and none starts inside another. */
  predicate Consistent(table: seq<int>) {
    forall s :: 0 <= s < |table| && table[s] != -1 ==>
      1 <= table[s] <= |table| - s && forall k :: s < k < s + table[s] ==> table[k] == -1
  }

  /** The `n` slots from `start` on exist and are free. */
  predicate FreeRun(table: seq<int>, start: nat, n: nat) {
    start + n <= |table| && forall k :: start <= k < start + n ==> IsFree(table, k)
  }

  /** The lowest of the runs of `n` free slots starts at `start`. */
  predicate LowestRun(table: seq<int>, start: nat, n: nat) {
    FreeRun(table, start, n) && forall s :: 0 <= s < start ==> !FreeRun(table, s, n)
  }

  /** The table has no run of `n` free slots. */
  ghost predicate NoRun(table: seq<int>, n: nat) {
    forall s :: 0 <= s ==> !FreeRun(table, s, n)
  }

  /** No slot is in two mappings. */
  lemma MappingsDisjoint(table: seq<int>, s: nat, t: nat, k: nat)
    requires Consistent(table) && Holds(table, s, k) && Holds(table, t, k)
    ensures s == t
  {
  }

  /** Slot `i` is not inside a mapping: it starts one or is free. */
  predicate Boundary(table: seq<int>, i: nat) {
    forall s :: 0 <= s < |table| && s < i ==> !Holds(table, s, i)
  }

  /** A boundary without an entry of its own is free, and the next slot is a boundary. */
  lemma FreeBoundary(table: seq<int>, i: nat)
    requires Consistent(table) && i < |table| && Boundary(table, i) && table[i] == -1
    ensures IsFree(table, i) && Boundary(table, i + 1)
  {
    var next := i + 1;
    forall s | 0 <= s < |table| && s < next ensures !Holds(table, s, next) {
      assert !Holds(table, s, i);
    }
  }

  /** The slot after a mapping is a boundary. */
  lemma AfterMapping(table: seq<int>, i: nat)
    requires Consistent(table) && i < |table| && Boundary(table, i) && table[i] != -1
    ensures Boundary(table, i + table[i])
  {
    var e := i + table[i];
    forall s | 0 <= s < |table| && s < e ensures !Holds(table, s, e) {
      assert s < i ==> !Holds(table, s, i);
    }
  }

  /** What the search for free slots ends with. */
  datatype Found = At(start: nat) | ReadsPastTable

  /**
   The search stops at the lowest run of `n` free slots. When there is none it reads the
   entry after the last one, because its bounds check lets the index reach the table's size.
   */
  method FindFreeRange(mapping: array<int>, nrPages: nat) returns (r: Found)
    requires mapping.Length == SLOTS && Consistent(mapping[..]) && nrPages > 0
    ensures r.At? ==> LowestRun(mapping[..], r.start, nrPages)
    ensures r.ReadsPastTable? <==> NoRun(mapping[..], nrPages)
  {
    ghost var table := mapping[..];
    var n, i, start := 0, 0, 0;
    while n < nrPages
      invariant 0 <= start && 0 <= n <= nrPages && i == start + n <= SLOTS && Boundary(table, i)
      invariant forall k :: start <= k < i ==> IsFree(table, k)
      invariant forall s :: 0 <= s < start ==> !FreeRun(table, s, nrPages)
      decreases SLOTS - i
    {
      if i == SLOTS {
        forall s | 0 <= s ensures !FreeRun(table, s, nrPages) {
        }
        return ReadsPastTable;
      }
      if mapping[i] != -1 {
        AfterMapping(table, i);
        assert Holds(table, i, i);
        forall s | 0 <= s < i + mapping[i] ensures !FreeRun(table, s, nrPages) {
          if s >= start {
            Blocked(table, s, i, nrPages);
          }
        }
        n := 0;
        i := i + mapping[i];
        start := i;
      } else {
        FreeBoundary(table, i);
        n := n + 1;
        i := i + 1;
      }
    }
    assert FreeRun(table, start, nrPages);
    return At(start);
  }

  /** A run cannot start inside a mapping, nor run into it. */
  lemma Blocked(table: seq<int>, s: nat, i: nat, n: nat)
    requires Consistent(table) && i < |table| && table[i] != -1 && s < i + table[i] && n > 0
    requires s < i ==> i < s + n
    ensures !FreeRun(table, s, n)
  {
    var k := if s < i then i else s;
    assert Holds(table, i, k);
    assert !IsFree(table, k);
  }

  /* ---- Mapping and unmapping ---- */

  /** How many page frames the bytes from `phys` on touch. */
  function PagesOf(phys: nat, size: nat): (n: nat) {
    PagesUp(phys + size) - phys / 4096
  }

  /** The virtual address of byte `offset` of slot `k`. */
  function Address(k: nat, offset: nat): (v: nat) {
    (FIRST_PAGE + k) * 4096 + offset
  }

  /** Byte `k` after `phys` lies in frame `q`. */
  predicate LiesIn(phys: nat, k: nat, q: nat) {
    (phys + k) / 4096 == q
  }

  /** Those are exactly the frames the bytes lie in. */
  lemma PagesTouched(phys: nat, size: nat, q: nat)
    requires size > 0
    ensures phys / 4096 <= q < phys / 4096 + PagesOf(phys, size) <==> exists k: nat :: k < size && LiesIn(phys, k, q)
  {
    if phys / 4096 <= q < phys / 4096 + PagesOf(phys, size) {
      var k: nat := if phys / 4096 == q then 0 else 4096 * q - phys;
      assert k < size && LiesIn(phys, k, q);
    }
  }

  lemma SlotIndices(k: nat)
    requires k < 1024
    ensures var v := FIRST_PAGE + k;
            && Index(3, v) == 511 && Index(2, v) == 511 && Index(1, v) == (if k < 512 then 510 else 511)
            && Index(0, v) == k % 512
  {
    var v := FIRST_PAGE + k;
    assert v / 512 == FIRST_PAGE / 512 + k / 512;
    assert v / 0x4_0000 == 511 * 512 + 511 && v / 0x800_0000 == 511;
  }

  /** The page of slot `k` is the one the walk from the top table finds in entry `k` of the slots' table. */
  lemma WalkOfSlot(kernelPmd: seq<Entry>, slots: seq<Entry>, fixmap1: seq<Entry>, k: nat)
    requires |slots| == |fixmap1| == PTRS && k < SLOTS
    ensures Walk(InitialMemory(kernelPmd, slots, fixmap1), 0, 3, FIRST_PAGE + k)
            == if slots[k].Leaf? then Some(slots[k].frame) else None
  {
    hide InitialMemory, Index, Walk;
    SlotIndices(k);
    FixmapWalk(kernelPmd, slots, fixmap1, FIRST_PAGE + k, 4, k);
  }

  /** The pages behind the slots are those of the other table, for permanent mappings. */
  lemma WalkOfPermanent(kernelPmd: seq<Entry>, slots: seq<Entry>, fixmap1: seq<Entry>, k: nat)
    requires |slots| == |fixmap1| == PTRS && k < PTRS
    ensures Walk(InitialMemory(kernelPmd, slots, fixmap1), 0, 3, FIRST_PAGE + SLOTS + k)
            == if fixmap1[k].Leaf? then Some(fixmap1[k].frame) else None
  {
    hide InitialMemory, Index, Walk;
    SlotIndices(SLOTS + k);
    FixmapWalk(kernelPmd, slots, fixmap1, FIRST_PAGE + SLOTS + k, 5, k);
  }

  class FixMap {
    const mapping: array<int>
    const ptes: array<Entry>

    /** A slot's entry is present exactly while the slot belongs to a mapping. */
    ghost predicate Valid()
      reads mapping, ptes
    {
      && mapping.Length == SLOTS && ptes.Length == SLOTS && Consistent(mapping[..])
      && forall k :: 0 <= k < SLOTS ==> (ptes[k] == Absent <==> IsFree(mapping[..], k))
    }

    constructor ()
      ensures Valid() && fresh(mapping) && fresh(ptes)
      ensures forall k :: 0 <= k < SLOTS ==> mapping[k] == -1 && ptes[k] == Absent
    {
      mapping := new int[SLOTS](_ => -1);
      ptes := new Entry[SLOTS](_ => Absent);
    }

    /** The physical address of a virtual address in the slots' pages, through the slots' entries. */
    ghost function Translate(v: nat): (p: Option<nat>)
      requires ptes.Length == SLOTS
      reads ptes
    {
      var page := v / 4096;
      if FIRST_PAGE <= page < FIRST_PAGE + SLOTS && ptes[page - FIRST_PAGE].Leaf?
      then Some(ptes[page - FIRST_PAGE].frame * 4096 + v % 4096) else None
    }

    /** That is the walk over the kernel's tables with the slots' entries in their place. */
    lemma TranslateIsWalk(kernelPmd: seq<Entry>, fixmap1: seq<Entry>, v: nat)
      requires ptes.Length == SLOTS && |fixmap1| == PTRS && FIRST_PAGE <= v / 4096 < FIRST_PAGE + SLOTS
      ensures Translate(v) == match Walk(InitialMemory(kernelPmd, ptes[..], fixmap1), 0, 3, v / 4096)
                              case Some(frame) => Some(frame * 4096 + v % 4096)
                              case None => None
    {
      hide Walk, InitialMemory;
      WalkOfSlot(kernelPmd, ptes[..], fixmap1, v / 4096 - FIRST_PAGE);
    }

    /** Points the slots from `start` on at consecutive frames. */
    method SetSlots(start: nat, n: nat, frame: nat)
      requires start + n <= SLOTS == ptes.Length
      modifies ptes
      ensures forall k :: 0 <= k < SLOTS ==>
        ptes[k] == if start <= k < start + n then Leaf(frame + (k - start)) else old(ptes[k])
    {
      for i := 0 to n
        invariant forall k :: 0 <= k < SLOTS ==>
          ptes[k] == if start <= k < start + i then Leaf(frame + (k - start)) else old(ptes[k])
      {
        ptes[start + i] := Leaf(frame + i);
      }
    }

    method ClearSlots(start: nat, n: nat)
      requires start + n <= SLOTS == ptes.Length
      modifies ptes
      ensures forall k :: 0 <= k < SLOTS ==> ptes[k] == if start <= k < start + n then Absent else old(ptes[k])
    {
      for i := 0 to n
        invariant forall k :: 0 <= k < SLOTS ==> ptes[k] == if start <= k < start + i then Absent else old(ptes[k])
      {
        ptes[start + i] := Absent;
      }
    }

    /**
     Maps the physical bytes from `phys` on. Null for an empty or too large request; when no
     run of free slots is long enough the search leaves its table, so that is required.
     Otherwise each of the bytes is at its place from the returned address on, and the other
     slots are as before.
     */
    method Ioremap(phys: nat, size: nat) returns (v: Option<nat>)
      requires Valid()
      requires 0 < size && PagesOf(phys, size) <= SLOTS ==> !NoRun(mapping[..], PagesOf(phys, size))
      modifies mapping, ptes
      ensures Valid()
      ensures v == None <==> size == 0 || PagesOf(phys, size) > SLOTS
      ensures v == None ==> mapping[..] == old(mapping[..]) && ptes[..] == old(ptes[..])
      ensures v.Some? ==>
        exists start :: 0 <= start && MapsAt(old(mapping[..]), old(ptes[..]), start, phys, size, v.value)
    {
      if size == 0 {
        return None;
      }
      var offset, frame := phys % 4096, phys / 4096;
      var nrPages := PagesOf(phys, size);
      if nrPages > SLOTS {
        return None;
      }
      PagesPositive(phys, size);
      ghost var run :| 0 <= run && FreeRun(mapping[..], run, nrPages);
      var r := FindFreeRange(mapping, nrPages);
      assert FreeRun(mapping[..], run, nrPages);
      var start := r.start;
      ghost var table := mapping[..];
      mapping[start] := nrPages;
      assert mapping[..] == table[start := nrPages];
      SetSlots(start, nrPages, frame);
      ReserveRun(table, start, nrPages);
      v := Some(Address(start, offset));
      assert MapsAt(table, old(ptes[..]), start, phys, size, v.value);
    }

    /** The lowest free run now holds the mapping of `phys`, at `v`. */
    ghost predicate MapsAt(table: seq<int>, before: seq<Entry>, start: nat, phys: nat, size: nat, v: nat)
      reads mapping, ptes
    {
      var n := PagesOf(phys, size);
      && mapping.Length == SLOTS == |table| && ptes.Length == SLOTS == |before| && n >= 1
      && LowestRun(table, start, n) && mapping[..] == table[start := n] && v == Address(start, phys % 4096)
      && forall k :: 0 <= k < SLOTS ==>
           ptes[k] == if start <= k < start + n then Leaf(phys / 4096 + (k - start)) else before[k]
    }

    /**
     Removes the mapping at `v`. Nothing happens for null, for an address outside the slots
     (as the code sees it: also behind the start of the last one), or when the slot does not
     hold a mapping of that many pages.
     */
    method Iounmap(v: nat, size: nat)
      requires Valid()
      modifies mapping, ptes
      ensures Valid()
      ensures !Unmaps(old(mapping[..]), v, size) ==> mapping[..] == old(mapping[..]) && ptes[..] == old(ptes[..])
      ensures Unmaps(old(mapping[..]), v, size) ==>
        var k := v / 4096 - FIRST_PAGE;
        && mapping[..] == old(mapping[..])[k := -1]
        && forall j :: 0 <= j < SLOTS ==> ptes[j] == if k <= j < k + old(mapping[k]) then Absent else old(ptes[j])
    {
      if v == 0 {
        return;
      }
      if v < Address(0, 0) || v > Address(SLOTS - 1, 0) {
        return;
      }
      var k, offset := v / 4096 - FIRST_PAGE, v % 4096;
      var nrPages := PagesUp(offset + size);
      if mapping[k] != nrPages {
        return;
      }
      ghost var table := mapping[..];
      ClearSlots(k, nrPages);
      mapping[k] := -1;
      assert mapping[..] == table[k := -1];
      ReleaseRun(table, k);
    }

    /**
     Mapping and unmapping again restores both tables, except exactly when the mapping is
     unaligned and starts in the last slot, whose addresses the bounds check turns away.
     */
    method MapThenUnmap(phys: nat, size: nat) returns (v: Option<nat>)
      requires Valid()
      requires 0 < size && PagesOf(phys, size) <= SLOTS ==> !NoRun(mapping[..], PagesOf(phys, size))
      modifies mapping, ptes
      ensures Valid()
      ensures v == None <==> size == 0 || PagesOf(phys, size) > SLOTS
      ensures v.Some? ==> exists start: nat ::
          LowestRun(old(mapping[..]), start, PagesOf(phys, size)) && v.value == Address(start, phys % 4096)
      ensures mapping[..] == old(mapping[..]) && ptes[..] == old(ptes[..])
              <==> v == None || v.value / 4096 < FIRST_PAGE + SLOTS - 1 || phys % 4096 == 0
    {
      v := Ioremap(phys, size);
      if v.Some? {
        ghost var start :| 0 <= start && MapsAt(old(mapping[..]), old(ptes[..]), start, phys, size, v.value);
        ghost var table := mapping[..];
        SamePages(start, phys, size);
        Iounmap(v.value, size);
        assert old(IsFree(mapping[..], start));
        StartsHere(old(mapping[..]), start);
        if Unmaps(table, v.value, size) {
          assert mapping[..] == old(mapping[..]);
          assert ptes[..] == old(ptes[..]);
        } else {
          assert mapping[start] == table[start];
        }
      }
    }

    /** Each byte of a mapping translates to its physical byte. */
    lemma BytesTranslate(table: seq<int>, before: seq<Entry>, start: nat, phys: nat, size: nat, v: nat, k: nat)
      requires MapsAt(table, before, start, phys, size, v) && k < size
      ensures Translate(v + k) == Some(phys + k)
    {
      var o := phys % 4096 + k;
      ByteInSlot(start, phys, size, k);
      assert ptes[start + o / 4096] == Leaf(phys / 4096 + o / 4096);
    }
  }

  /** The call removes a mapping. */
  predicate Unmaps(table: seq<int>, v: nat, size: nat)
    requires |table| == SLOTS
  {
    && Address(0, 0) <= v <= Address(SLOTS - 1, 0)
    && table[v / 4096 - FIRST_PAGE] == PagesUp(v % 4096 + size)
  }

  lemma SamePages(start: nat, phys: nat, size: nat)
    ensures var v := Address(start, phys % 4096);
            v / 4096 == FIRST_PAGE + start && v % 4096 == phys % 4096 && PagesUp(v % 4096 + size) == PagesOf(phys, size)
  {
  }

  /** Releasing a mapping frees exactly its slots. */
  lemma ReleaseRun(table: seq<int>, s: nat)
    requires Consistent(table) && s < |table| && table[s] != -1
    ensures var t := table[s := -1];
            Consistent(t) && forall k :: 0 <= k < |table| ==>
              (IsFree(t, k) <==> IsFree(table, k) || s <= k < s + table[s])
  {
    var t := table[s := -1];
    forall k | 0 <= k < |table| ensures IsFree(t, k) <==> IsFree(table, k) || s <= k < s + table[s] {
      if IsFree(t, k) {
        forall r | 0 <= r < |table| ensures Holds(table, r, k) ==> r == s {
          assert !Holds(t, r, k);
        }
      } else {
        var r :| 0 <= r < |t| && Holds(t, r, k);
        assert Holds(table, r, k);
      }
    }
  }

  lemma StartsHere(table: seq<int>, k: nat)
    requires Consistent(table) && k < |table|
    ensures table[k] != -1 ==> Holds(table, k, k)
  {
  }

  lemma PagesPositive(phys: nat, size: nat)
    requires size > 0
    ensures PagesOf(phys, size) >= 1
  {
  }

  lemma ByteInSlot(start: nat, phys: nat, size: nat, k: nat)
    requires k < size
    ensures var o := phys % 4096 + k;
            && o / 4096 < PagesOf(phys, size)
            && (Address(start, phys % 4096) + k) / 4096 == FIRST_PAGE + start + o / 4096
            && (phys / 4096 + o / 4096) * 4096 + (Address(start, phys % 4096) + k) % 4096 == phys + k
  {
  }

  /** Reserving a free run makes exactly its slots taken. */
  lemma ReserveRun(table: seq<int>, start: nat, n: nat)
    requires Consistent(table) && n > 0 && FreeRun(table, start, n)
    ensures var t := table[start := n];
            Consistent(t) && forall k :: 0 <= k < |table| ==>
              (IsFree(t, k) <==> IsFree(table, k) && !(start <= k < start + n))
  {
    var t := table[start := n];
    forall k | start <= k < start + n ensures table[k] == -1 {
      assert IsFree(table, k);
      StartsHere(table, k);
    }
    forall s | 0 <= s < |t| && t[s] != -1
      ensures 1 <= t[s] <= |t| - s && forall k :: s < k < s + t[s] ==> t[k] == -1
    {
      assert IsFree(table, start);
      assert s != start ==> !Holds(table, s, start);
    }
    forall k | 0 <= k < |table| ensures IsFree(t, k) <==> IsFree(table, k) && !(start <= k < start + n) {
      if IsFree(t, k) {
        assert !Holds(t, start, k);
        forall s | 0 <= s < |table| ensures !Holds(table, s, k) {
          assert !Holds(t, s, k);
        }
      } else {
        var s :| 0 <= s < |t| && Holds(t, s, k);
        assert s == start || Holds(table, s, k);
      }
    }
  }
}
