/**
 Allocating physical memory: a first-fit search for an aligned block of free memory, which
 is then marked reserved, and its inverse.
 */
module MemblockAlloc {
  import opened Bits
  import opened Common
  import opened MemblockSpec
  import opened MemblockUpdate
  import opened MemblockCut
  import opened Memblock

  /** `clamp`. */
  function Clamp(x: nat, low: nat, high: nat): (m: nat) {
    Min(Max(x, low), high)
  }

  /* ---- Alignment ---- */

  /** `ALIGN_KERNEL`: adds `align - 1` modulo 2^64 and clears the low bits. */
  function AlignUp(x: nat, align: nat): (r: int)
    requires align > 0
  {
    var y := Wrap(x + (align - 1));
    y - BitAnd(y, align - 1)
  }

  /** For a power of two this is the next multiple, or 0 if that is beyond the address space. */
  lemma AlignUpIs(x: nat, k: nat)
    requires k < 64 && x < ADDRESS_LIMIT
    ensures var a, r := Pow2(k), AlignUp(x, Pow2(k));
            if x + a <= ADDRESS_LIMIT then x <= r < x + a && r % a == 0 else r == 0
  {
    hide Pow2, BitAnd, Wrap;
    MaskIsMod(Wrap(x + (Pow2(k) - 1)), k);
    Pow2Monotone(k, 64);
    Pow2At64();
    Rounded(x, Pow2(k));
  }

  lemma Rounded(x: nat, a: nat)
    requires 0 < a <= ADDRESS_LIMIT && x < ADDRESS_LIMIT
    ensures var y := Wrap(x + (a - 1));
            if x + a <= ADDRESS_LIMIT then x <= y - y % a < x + a && (y - y % a) % a == 0 else y - y % a == 0
  {
    var y := Wrap(x + (a - 1));
    if x + a <= ADDRESS_LIMIT {
      RoundDown(y, a);
    } else {
      DivModUnique(y, a, 0, y);
    }
  }

  lemma Pow2At64()
    ensures Pow2(64) == ADDRESS_LIMIT
  {
    hide Pow2;
    Pow2At8();
    Pow2Add(8, 8);
    assert Pow2(16) == 0x1_0000;
    Pow2Add(16, 16);
    assert Pow2(32) == 0x1_0000_0000;
    Pow2Add(32, 32);
  }

  lemma Pow2At8()
    ensures Pow2(8) == 256
  {
  }

  lemma RoundDown(y: nat, a: nat)
    requires a > 0
    ensures y - a < y - y % a <= y && (y - y % a) % a == 0
  {
    var q := y / a;
    assert y - y % a == 0 + a * q;
    DivNat(y, a);
    DivModUnique(y - y % a, a, q, 0);
  }

  /** No multiple of `a` lies between `x` and its rounding. */
  lemma NextMultiple(x: nat, r: nat, q: nat, a: nat)
    requires a > 0 && r % a == 0 && q % a == 0 && x <= q && r < x + a
    ensures r <= q
  {
    var i, j := r / a, q / a;
    assert r == a * i && q == a * j;
    assert a * (i - j) == a * i - a * j;
    MulAtLeast(a, i - j);
  }

  /* ---- The search ---- */

  /** What is searched for; `align` is a power of two and `nid` -1 stands for any node. */
  datatype Want = Want(size: nat, align: nat, low: nat, high: nat, nid: int, flags: bv32)

  predicate Allowed(r: Region, w: Want) {
    r.flags == w.flags && (w.nid == -1 || w.nid == r.nid)
  }

  /** A block at `p` inside region `r` that satisfies the request. */
  predicate Suits(r: Region, w: Want, p: int)
    requires w.align > 0
  {
    && Allowed(r, w) && p % w.align == 0
    && Max(r.base, w.low) <= p && p + w.size <= Min(End(r), w.high) && p < Min(End(r), w.high)
  }

  /** The candidate the search computes in region `r`. */
  function Candidate(r: Region, w: Want): (b: int)
    requires w.align > 0
  {
    AlignUp(Clamp(r.base, w.low, w.high), w.align)
  }

  predicate Hit(r: Region, w: Want)
    requires w.align > 0
  {
    var b, e := Candidate(r, w), Clamp(End(r), w.low, w.high);
    b < e && e - b >= w.size
  }

  /** The request's numbers are those of the address space. */
  ghost predicate WantOk(w: Want, k: nat) {
    k < 64 && w.align == Pow2(k) && w.low <= w.high < ADDRESS_LIMIT
  }

  /** A region that is passed over has no suitable block. */
  lemma MissMeansNone(r: Region, w: Want, k: nat, q: int)
    requires WantOk(w, k) && !Hit(r, w)
    ensures !Suits(r, w, q)
  {
    var x := Clamp(r.base, w.low, w.high);
    AlignUpIs(x, k);
    if Suits(r, w, q) && x + w.align <= ADDRESS_LIMIT {
      NextMultiple(x, Candidate(r, w), q, w.align);
    }
  }

  /** A region that is taken gives its lowest suitable block. */
  lemma HitIsLowest(r: Region, w: Want, k: nat)
    requires WantOk(w, k) && Hit(r, w) && Allowed(r, w) && Candidate(r, w) != 0
    ensures Suits(r, w, Candidate(r, w))
    ensures forall q :: Suits(r, w, q) ==> Candidate(r, w) <= q
  {
    var x := Clamp(r.base, w.low, w.high);
    AlignUpIs(x, k);
    forall q | Suits(r, w, q) ensures Candidate(r, w) <= q {
      NextMultiple(x, Candidate(r, w), q, w.align);
    }
  }

  /** No multiple of the alignment lies in the last part of the address space. */
  lemma LastMultiple(q: nat, k: nat)
    requires k < 64 && q < ADDRESS_LIMIT && q % Pow2(k) == 0
    ensures q + Pow2(k) <= ADDRESS_LIMIT
  {
    hide Pow2;
    Pow2At64();
    Pow2Add(k, 64 - k);
    MultiplesApart(q, Pow2(k), Pow2(64 - k));
  }

  lemma MultiplesApart(q: nat, a: nat, j: nat)
    requires a > 0 && q % a == 0 && q < a * j
    ensures q + a <= a * j
  {
    var i := q / a;
    assert q == a * i;
    MulCancel(a, i, j);
    MulCancel(a, j, i + 1);
    assert a * (i + 1) == a * i + a;
  }

  /** No region of the list has a suitable block. */
  ghost predicate NoneSuits(s: seq<Region>, w: Want)
    requires w.align > 0
  {
    forall j, q :: 0 <= j < |s| ==> !Suits(s[j], w, q)
  }

  /** `p` is suitable, and the lowest such block. */
  ghost predicate Lowest(s: seq<Region>, w: Want, p: int)
    requires w.align > 0
  {
    && (exists i :: 0 <= i < |s| && Suits(s[i], w, p))
    && (forall j, q :: 0 <= j < |s| && Suits(s[j], w, q) ==> p <= q)
  }

  /** The first hit of an ordered list gives the lowest block of the whole list. */
  lemma FirstHit(s: seq<Region>, i: nat, w: Want, k: nat)
    requires Ordered(s) && i < |s| && WantOk(w, k) && NoneSuits(s[..i], w)
    requires Hit(s[i], w) && Allowed(s[i], w) && Candidate(s[i], w) != 0
    ensures Lowest(s, w, Candidate(s[i], w))
  {
    HitIsLowest(s[i], w, k);
    hide Candidate, Hit;
    forall j, q | 0 <= j < |s| && Suits(s[j], w, q) ensures Candidate(s[i], w) <= q {
      assert j > i ==> End(s[i]) <= s[j].base;
    }
  }

  /** The request as the search clamps it: never below the first page. */
  function Clamped(size: nat, align: nat, start: nat, end: nat, nid: int, flags: bv32): (w: Want)
    ensures w.align == align && w.low > 0 && w.low <= w.high
  {
    var low := Max(start, PAGE_SIZE);
    Want(size, align, low, Max(low, end), nid, flags)
  }

  /**
   The block of `size` bytes at `p` is what the caller asked for: within the caller's bounds, not
   in the first page, aligned, and in region `r`, which has those flags and, unless any node will
   do, is on that node.
   */
  predicate Fits(r: Region, size: nat, align: nat, start: nat, end: nat, nid: int, flags: bv32, p: int)
    requires align > 0
  {
    && r.flags == flags && (nid == -1 || r.nid == nid)
    && start <= p && 4096 <= p && p + size <= end && p < end && p % align == 0
    && r.base <= p && p + size <= End(r) && p < End(r)
  }

  /** `p` is the lowest block the caller asked for. */
  ghost predicate LowestFit(s: seq<Region>, size: nat, align: nat, start: nat, end: nat, nid: int, flags: bv32, p: int)
    requires align > 0
  {
    && (exists i :: 0 <= i < |s| && Fits(s[i], size, align, start, end, nid, flags, p))
    && (forall j, q :: 0 <= j < |s| && Fits(s[j], size, align, start, end, nid, flags, q) ==> p <= q)
  }

  /** There is no block the caller asked for. */
  ghost predicate NoneFits(s: seq<Region>, size: nat, align: nat, start: nat, end: nat, nid: int, flags: bv32)
    requires align > 0
  {
    forall j, q :: 0 <= j < |s| ==> !Fits(s[j], size, align, start, end, nid, flags, q)
  }

  /** Clamping neither adds nor loses blocks. */
  lemma ClampedSuits(r: Region, size: nat, align: nat, start: nat, end: nat, nid: int, flags: bv32, p: int)
    requires align > 0
    ensures Suits(r, Clamped(size, align, start, end, nid, flags), p)
            <==> Fits(r, size, align, start, end, nid, flags, p)
  {
  }

  /** The lowest block of the clamped request is the lowest one the caller asked for. */
  lemma ClampedLowest(s: seq<Region>, size: nat, align: nat, start: nat, end: nat, nid: int, flags: bv32, p: int)
    requires align > 0
    ensures Lowest(s, Clamped(size, align, start, end, nid, flags), p)
            <==> LowestFit(s, size, align, start, end, nid, flags, p)
    ensures NoneSuits(s, Clamped(size, align, start, end, nid, flags))
            <==> NoneFits(s, size, align, start, end, nid, flags)
  {
    forall r, q: int
      ensures Suits(r, Clamped(size, align, start, end, nid, flags), q)
              <==> Fits(r, size, align, start, end, nid, flags, q)
    {
      ClampedSuits(r, size, align, start, end, nid, flags, q);
    }
    hide Suits, Fits, Clamped;
  }

  /** One region: whether the search ends there, and with what. */
  method FindInRegion(r: Region, w: Want, ghost s: seq<Region>, ghost i: nat, ghost k: nat)
    returns (found: bool, p: int)
    requires w.align > 0 && w.low > 0 && WantOk(w, k) && Ordered(s) && i < |s| && r == s[i] && NoneSuits(s[..i], w)
    requires End(s[|s| - 1]) < ADDRESS_LIMIT
    ensures !found ==> NoneSuits(s[..i + 1], w)
    ensures found && p != 0 ==> Lowest(s, w, p)
    ensures found && p == 0 ==> NoneSuits(s, w)
  {
    hide Suits, Hit, Candidate, Ordered, NoneSuits, Lowest;
    found, p := false, 0;
    if r.flags == w.flags && (w.nid == -1 || w.nid == r.nid) {
      var rBase, rEnd := Clamp(r.base, w.low, w.high), Clamp(r.base + r.size, w.low, w.high);
      var base := AlignUp(rBase, w.align);
      HitMeaning(r, w);
      if base < rEnd && rEnd - base >= w.size {
        if base != 0 {
          FirstHit(s, i, w, k);
        } else {
          WrapMeansNone(s, i, w, k);
        }
        return true, base;
      }
    }
    NoneStep(s, i, w, k);
  }

  /** Looks through the regions in order; 0 means that nothing was found. */
  method FindInRangeNode(m: MemBlock, size: nat, align: nat, start: nat, end: nat, nid: int, flags: bv32, ghost k: nat)
    returns (p: int)
    requires m.Valid() && k < 64 && align == Pow2(k) && start < ADDRESS_LIMIT && end < ADDRESS_LIMIT
    ensures p != 0 ==> Lowest(m.Live(), Clamped(size, align, start, end, nid, flags), p)
    ensures p == 0 ==> NoneSuits(m.Live(), Clamped(size, align, start, end, nid, flags))
    ensures if p != 0 then LowestFit(m.Live(), size, align, start, end, nid, flags, p)
            else NoneFits(m.Live(), size, align, start, end, nid, flags)
  {
    hide LowestFit, NoneFits, Fits;
    p := Search(m, size, align, start, end, nid, flags, k);
    ClampedLowest(m.Live(), size, align, start, end, nid, flags, p);
  }

  /** The search itself, for the clamped request. */
  method Search(m: MemBlock, size: nat, align: nat, start: nat, end: nat, nid: int, flags: bv32, ghost k: nat)
    returns (p: int)
    requires m.Valid() && k < 64 && align == Pow2(k) && start < ADDRESS_LIMIT && end < ADDRESS_LIMIT
    ensures p != 0 ==> Lowest(m.Live(), Clamped(size, align, start, end, nid, flags), p)
    ensures p == 0 ==> NoneSuits(m.Live(), Clamped(size, align, start, end, nid, flags))
  {
    var w := Clamped(size, align, start, end, nid, flags);
    ghost var s := m.Live();
    assert NoneSuits(s[..0], w);
    hide NoneSuits, Lowest;
    for i := 0 to m.n
      invariant NoneSuits(s[..i], w)
    {
      var found;
      found, p := FindInRegion(m.regions[i], w, s, i, k);
      if found {
        return;
      }
    }
    assert s[..m.n] == s;
    return 0;
  }

  lemma HitMeaning(r: Region, w: Want)
    requires w.align > 0
    ensures Candidate(r, w) == AlignUp(Clamp(r.base, w.low, w.high), w.align)
    ensures var b, e := Candidate(r, w), Clamp(End(r), w.low, w.high); Hit(r, w) <==> b < e && e - b >= w.size
  {
  }

  /** When rounding wraps in one region there is no block in it, nor in the regions above. */
  lemma WrapMeansNone(s: seq<Region>, i: nat, w: Want, k: nat)
    requires WantOk(w, k) && w.low > 0 && Ordered(s) && i < |s| && Candidate(s[i], w) == 0 && NoneSuits(s[..i], w)
    requires Hit(s[i], w)
    ensures NoneSuits(s, w)
  {
    var x := Clamp(s[i].base, w.low, w.high);
    AlignUpIs(x, k);
    assert forall j :: 0 <= j < i ==> s[..i][j] == s[j];
    assert forall j :: i < j < |s| ==> End(s[i]) <= s[j].base;
    forall j, q | 0 <= j < |s| ensures !Suits(s[j], w, q) {
      if j >= i && Suits(s[j], w, q) {
        LastMultiple(q, k);
      }
    }
  }

  lemma NoneStep(s: seq<Region>, i: nat, w: Want, k: nat)
    requires i < |s| && WantOk(w, k) && NoneSuits(s[..i], w) && !(Allowed(s[i], w) && Hit(s[i], w))
    ensures NoneSuits(s[..i + 1], w)
  {
    var t := s[..i + 1];
    forall j, q | 0 <= j < |t| ensures !Suits(t[j], w, q) {
      if j < i {
        assert s[..i][j] == s[j];
      } else if !Hit(s[i], w) {
        MissMeansNone(s[i], w, k, q);
      }
    }
  }

  /* ---- Allocating and freeing ---- */

  /** Every address of a found block was mapped, free, and of one allowed node. */
  lemma BlockIsFree(s: seq<Region>, w: Want, p: nat, a: int)
    requires w.align > 0 && Ordered(s) && Lowest(s, w, p) && p <= a < p + w.size
    ensures Lookup(s, a).Some? && Lookup(s, a).value.flags == w.flags
    ensures w.nid != -1 ==> Lookup(s, a).value.nid == w.nid
  {
    var i :| 0 <= i < |s| && Suits(s[i], w, p);
    LookupAt(s, i, a);
  }

  /** A block lies inside the clamped bounds and is aligned. */
  lemma BlockInBounds(s: seq<Region>, w: Want, p: int)
    requires w.align > 0 && Lowest(s, w, p)
    ensures w.low <= p && p + w.size <= w.high && p % w.align == 0
  {
  }

  /** Once it is marked, every address of a block of free memory has just the reserved flags, all sixteen. */
  lemma BlockMarked(s: seq<Region>, t: seq<Region>, w: Want, p: nat, a: int)
    requires w.align > 0 && Ordered(s) && w.flags == MEMBLOCK_NONE && Lowest(s, w, p) && p <= a < p + w.size
    requires Updated(s, t, p, p + w.size, SetFlags(MEMBLOCK_RESERVED))
    ensures Lookup(s, a).Some? && Lookup(t, a) == Some(Attr(Lookup(s, a).value.nid, 0xFFFF))
  {
    hide Lookup, Lowest, Ordered;
    BlockIsFree(s, w, p, a);
  }

  /** `p` is the lowest block on the node asked for, or, if that has none and need not have, on any node. */
  ghost predicate Chosen(s: seq<Region>, w: Want, exactNid: bool, p: int)
    requires w.align > 0
  {
    if !NoneSuits(s, w) then Lowest(s, w, p) else !exactNid && Lowest(s, w.(nid := -1), p)
  }

  /** No node allowed has a block. */
  ghost predicate NoneAllowed(s: seq<Region>, w: Want, exactNid: bool)
    requires w.align > 0
  {
    NoneSuits(s, w) && (exactNid || NoneSuits(s, w.(nid := -1)))
  }

  /** What marking the found block comes to: nothing when none was found. */
  function ReserveOutcome(slots: seq<Region>, m: nat, q: int, size: nat): (status: Status)
    requires m <= |slots|
  {
    if q <= 0 then Success else ChangeOutcome(slots, m, q, size, SetFlags(MEMBLOCK_RESERVED))
  }

  /** A state of the array. */
  datatype Snapshot = Snapshot(live: seq<Region>, slots: seq<Region>, n: nat, top: nat, total: int)

  ghost function SnapshotOf(m: MemBlock): (s: Snapshot)
    requires m.n <= m.regions.Length
    reads m, m.regions
  {
    Snapshot(m.Live(), m.regions[..], m.n, m.Top(), m.size)
  }

  /**
   Finds a block, preferably on node `nid`, and marks it reserved. `q` is the block found, 0
   just if no node allowed has one. The result is that block if marking it goes well, and 0,
   with an unchanged array, if there is none or no room to split regions.
   */
  method Alloc(m: MemBlock, size: nat, align: nat, start: nat, end: nat, nid: int, exactNid: bool, ghost k: nat)
    returns (p: nat, status: Status, ghost q: nat)
    requires m.Valid() && Merged(m.Live()) && k < 64 && align == Pow2(k) && start < ADDRESS_LIMIT && end < ADDRESS_LIMIT
    modifies m, m.regions
    ensures q == 0 <==> NoneAllowed(old(m.Live()), Clamped(size, align, start, end, nid, MEMBLOCK_NONE), exactNid)
    ensures q != 0 ==> Chosen(old(m.Live()), Clamped(size, align, start, end, nid, MEMBLOCK_NONE), exactNid, q)
    ensures Granted(old(m.Live()), size, align, start, end, nid, exactNid, q)
    ensures Reserved(m, old(SnapshotOf(m)), p, q, size, status)
    ensures old(m.DeadBelow()) ==> status == Success && m.DeadBelow()
  {
    hide Lowest, NoneSuits, Granted, Updated, Pow2, Sum, Ordered, Merged, ChangeOutcome, Reserved, TopOf, DeadBelowIn;
    p, status, q := TryAlloc(m, size, align, start, end, nid, k);
    ReservedFacts(m, old(SnapshotOf(m)), p, q, size, status);
    if status == Success && p == 0 && nid != -1 && !exactNid {
      ghost var r;
      assert m.Live() == m.regions[..][..m.n];
      p, status, r := TryAlloc(m, size, align, start, end, -1, k);
      if q == 0 {
        q := r;
      } else {
        StillNoRoom(m, old(SnapshotOf(m)), p, q, r, size, status);
      }
    }
    ChosenGranted(old(m.Live()), size, align, start, end, nid, exactNid, q);
  }

  /**
   In the caller's terms: `q` is the lowest free block within the bounds on the node asked for; if
   that has none, and any other will do, on any node; and 0 if there is none at all.
   */
  ghost predicate Granted(s: seq<Region>, size: nat, align: nat, start: nat, end: nat, nid: int, exactNid: bool, q: nat)
    requires align > 0
  {
    if !NoneFits(s, size, align, start, end, nid, MEMBLOCK_NONE) then
      q > 0 && LowestFit(s, size, align, start, end, nid, MEMBLOCK_NONE, q)
    else if !exactNid && !NoneFits(s, size, align, start, end, -1, MEMBLOCK_NONE) then
      q > 0 && LowestFit(s, size, align, start, end, -1, MEMBLOCK_NONE, q)
    else q == 0
  }

  /** That is the block chosen for the clamped request. */
  lemma ChosenGranted(s: seq<Region>, size: nat, align: nat, start: nat, end: nat, nid: int, exactNid: bool, q: nat)
    requires align > 0
    requires q == 0 <==> NoneAllowed(s, Clamped(size, align, start, end, nid, MEMBLOCK_NONE), exactNid)
    requires q != 0 ==> Chosen(s, Clamped(size, align, start, end, nid, MEMBLOCK_NONE), exactNid, q)
    ensures Granted(s, size, align, start, end, nid, exactNid, q)
  {
    hide Lowest, NoneSuits, LowestFit, NoneFits;
    var w := Clamped(size, align, start, end, nid, MEMBLOCK_NONE);
    ClampedLowest(s, size, align, start, end, nid, MEMBLOCK_NONE, q);
    ClampedLowest(s, size, align, start, end, -1, MEMBLOCK_NONE, q);
    if !NoneSuits(s, w.(nid := -1)) && q == 0 {
      assert NoneSuits(s, w) ==> exactNid;
    }
  }

  /** After an attempt on the block `q`: what the array, whose state before is given, has become. */
  ghost predicate Reserved(m: MemBlock, was: Snapshot, p: nat, q: nat, size: nat, status: Status)
    reads m, m.regions
  {
    && was.n <= |was.slots| && var outcome := ReserveOutcome(was.slots, was.n, q, size);
    && status == (if outcome == DeadMatch then DeadMatch else Success)
    && p == (if outcome == Success then q else 0)
    && (status == Success ==>
          && m.Valid() && Merged(m.Live()) && m.Top() == was.top && m.n <= was.n + 2
          && m.size == was.total && Sum(m.Live()) == Sum(was.live)
          && if p == 0 then m.n == was.n && m.regions[..] == was.slots
             else Updated(was.live, m.Live(), p, p + size, SetFlags(MEMBLOCK_RESERVED)))
  }

  lemma ReservedFacts(m: MemBlock, was: Snapshot, p: nat, q: nat, size: nat, status: Status)
    requires Reserved(m, was, p, q, size, status)
    ensures q == 0 ==> p == 0 && status == Success
    ensures status == Success ==> m.Valid() && Merged(m.Live())
    ensures status == Success && p == 0 ==>
      m.n == was.n && m.regions[..] == was.slots && m.Top() == was.top && m.size == was.total
    ensures was.n <= |was.slots|
    ensures p == 0 && q != 0 && status == Success ==> ReserveOutcome(was.slots, was.n, q, size) == NoSpace
  {
    hide Ordered, Merged, Sum, Updated, ChangeOutcome;
    if q > 0 {
      OutcomeCases(was.slots, was.n, q, size, SetFlags(MEMBLOCK_RESERVED));
    }
  }

  lemma LowestSuits(s: seq<Region>, w: Want, p: int)
    requires w.align > 0 && Lowest(s, w, p)
    ensures !NoneSuits(s, w)
  {
    var i :| 0 <= i < |s| && Suits(s[i], w, p);
  }

  /** One attempt: find, then reserve. */
  method TryAlloc(m: MemBlock, size: nat, align: nat, start: nat, end: nat, nid: int, ghost k: nat)
    returns (p: nat, status: Status, ghost q: nat)
    requires m.Valid() && Merged(m.Live()) && k < 64 && align == Pow2(k) && start < ADDRESS_LIMIT && end < ADDRESS_LIMIT
    modifies m, m.regions
    ensures q == 0 <==> NoneSuits(old(m.Live()), Clamped(size, align, start, end, nid, MEMBLOCK_NONE))
    ensures q != 0 ==> Lowest(old(m.Live()), Clamped(size, align, start, end, nid, MEMBLOCK_NONE), q)
    ensures Reserved(m, old(SnapshotOf(m)), p, q, size, status)
    ensures old(m.DeadBelow()) ==> status == Success && m.DeadBelow()
  {
    hide NoneSuits, Updated, Pow2, Ordered, Sum, Merged, ChangeOutcome, TopOf, DeadBelowIn;
    var found := FindInRangeNode(m, size, align, start, end, nid, MEMBLOCK_NONE, k);
    p, status, q := 0, Success, 0;
    if found == 0 {
      return;
    }
    BlockInBounds(m.Live(), Clamped(size, align, start, end, nid, MEMBLOCK_NONE), found);
    LowestSuits(m.Live(), Clamped(size, align, start, end, nid, MEMBLOCK_NONE), found);
    hide Lowest;
    q := found;
    OutcomeCases(m.regions[..], m.n, q, size, SetFlags(MEMBLOCK_RESERVED));
    status := m.SetClrFlag(found, size, true, MEMBLOCK_RESERVED);
    p := if status == Success then found else 0;
    if status == NoSpace {
      assert m.Live() == m.regions[..][..m.n];
      status := Success;
    }
  }

  lemma OutcomeCases(slots: seq<Region>, m: nat, base: nat, length: nat, c: Change)
    requires m <= |slots|
    ensures var o := ChangeOutcome(slots, m, base, length, c); o == Success || o == NoSpace || o == DeadMatch
  {
    hide CutBoth, Before, DeadMatches;
  }

  /** A second attempt after a first one without room has none either. */
  lemma StillNoRoom(m: MemBlock, was: Snapshot, p: nat, q: nat, r: nat, size: nat, status: Status)
    requires Reserved(m, was, p, r, size, status) && q > 0
    requires ReserveOutcome(was.slots, was.n, q, size) == NoSpace
    ensures Reserved(m, was, p, q, size, status)
  {
    hide Ordered, Merged, Sum, Updated, CutBoth, Before, DeadMatches;
    OutcomeNoSpace(was.slots, was.n, q, size, SetFlags(MEMBLOCK_RESERVED));
    if r > 0 {
      OutcomeNoSpace(was.slots, was.n, r, size, SetFlags(MEMBLOCK_RESERVED));
    }
  }

  /** Clears the reserved mark. The error of a full array is dropped. */
  method Free(m: MemBlock, base: nat, size: nat) returns (status: Status)
    requires m.Valid() && Merged(m.Live()) && base + size < ADDRESS_LIMIT
    modifies m, m.regions
    ensures status == ChangeOutcome(old(m.regions[..]), old(m.n), base, size, ClearFlags(MEMBLOCK_RESERVED))
    ensures old(m.DeadBelow()) ==> status != DeadMatch
    ensures status != DeadMatch ==>
      && m.Valid() && Merged(m.Live()) && (old(m.DeadBelow()) ==> m.DeadBelow()) && m.Top() == old(m.Top())
      && m.n <= old(m.n) + 2 && m.size == old(m.size) && Sum(m.Live()) == Sum(old(m.Live()))
    ensures status == Success ==> Updated(old(m.Live()), m.Live(), base, base + size, ClearFlags(MEMBLOCK_RESERVED))
    ensures status == NoSpace ==> m.n == old(m.n) && m.regions[..] == old(m.regions[..])
  {
    hide Updated, ChangeOutcome, Ordered, Merged, Sum, TopOf, DeadBelowIn;
    status := m.SetClrFlag(base, size, false, MEMBLOCK_RESERVED);
  }
}
