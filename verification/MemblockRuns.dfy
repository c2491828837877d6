/**
 Whole runs of the allocator: what any sequence of allocations and releases leaves behind,
 and that releasing an allocation restores the array.
 */
module MemblockRuns {
  import opened Bits
  import opened Common
  import opened MemblockSpec
  import opened MemblockUpdate
  import opened MemblockFill
  import opened Memblock
  import opened MemblockAlloc

  datatype Block = Block(base: nat, size: nat)

  predicate In(b: Block, a: int) {
    b.base <= a < b.base + b.size
  }

  predicate InSome(live: seq<Block>, a: int) {
    exists j :: 0 <= j < |live| && In(live[j], a)
  }

  /** No address is in two blocks. */
  ghost predicate Disjoint(live: seq<Block>) {
    forall i, j, a: int :: 0 <= i < j < |live| && In(live[i], a) ==> !In(live[j], a)
  }

  /** A block consists of free memory of the map `s`. */
  ghost predicate WasFree(s: seq<Region>, b: Block) {
    forall a: int :: In(b, a) ==> Lookup(s, a).Some? && Lookup(s, a).value.flags == MEMBLOCK_NONE
  }

  /** `t` is `s0` with exactly the addresses of the live blocks reserved. */
  ghost predicate Reserves(s0: seq<Region>, t: seq<Region>, live: seq<Block>) {
    forall a: int :: Lookup(t, a) ==
      if InSome(live, a) then ApplyMapped(SetFlags(MEMBLOCK_RESERVED), Lookup(s0, a)) else Lookup(s0, a)
  }

  /** The live blocks are disjoint, were free, and are just what is reserved. */
  ghost predicate Holds(s0: seq<Region>, t: seq<Region>, live: seq<Block>) {
    && Disjoint(live) && Reserves(s0, t, live)
    && forall j :: 0 <= j < |live| ==> WasFree(s0, live[j]) && live[j].base + live[j].size < ADDRESS_LIMIT
  }

  lemma ReservedIsNotFree(f: bv32)
    ensures f | MEMBLOCK_RESERVED != MEMBLOCK_NONE
    ensures f == MEMBLOCK_NONE ==> (f | MEMBLOCK_RESERVED) & !MEMBLOCK_RESERVED == f
  {
  }

  lemma InSomeExtended(live: seq<Block>, b: Block, a: int)
    ensures InSome(live + [b], a) <==> InSome(live, a) || In(b, a)
  {
    var t := live + [b];
    if InSome(live, a) {
      var j :| 0 <= j < |live| && In(live[j], a);
      assert In(t[j], a);
    }
    if In(b, a) {
      assert In(t[|live|], a);
    }
    if InSome(t, a) {
      var j :| 0 <= j < |t| && In(t[j], a);
      assert j < |live| ==> In(live[j], a);
    }
  }

  /** Free memory of the current map is outside all live blocks and was free before. */
  lemma FreeIsNew(s0: seq<Region>, t: seq<Region>, live: seq<Block>, a: int)
    requires Holds(s0, t, live) && Lookup(t, a).Some? && Lookup(t, a).value.flags == MEMBLOCK_NONE
    ensures !InSome(live, a) && Lookup(s0, a) == Lookup(t, a)
  {
    hide Disjoint, InSome;
    assert Lookup(t, a) ==
      if InSome(live, a) then ApplyMapped(SetFlags(MEMBLOCK_RESERVED), Lookup(s0, a)) else Lookup(s0, a);
    if Lookup(s0, a).Some? {
      ReservedIsNotFree(Lookup(s0, a).value.flags);
    }
  }

  /** An allocation adds one block to the live ones. */
  lemma AllocHolds(s0: seq<Region>, t: seq<Region>, u: seq<Region>, live: seq<Block>, b: Block)
    requires Holds(s0, t, live) && WasFree(t, b) && b.base + b.size < ADDRESS_LIMIT
    requires Updated(t, u, b.base, b.base + b.size, SetFlags(MEMBLOCK_RESERVED))
    ensures Holds(s0, u, live + [b])
  {
    hide ApplyMapped;
    var live' := live + [b];
    forall a: int | In(b, a) ensures !InSome(live, a) && Lookup(s0, a) == Lookup(t, a) {
      FreeIsNew(s0, t, live, a);
    }
    assert WasFree(s0, b);
    forall i, j, a: int | 0 <= i < j < |live'| && In(live'[i], a) ensures !In(live'[j], a) {
      if j == |live| {
        assert InSome(live, a);
      }
    }
    AllocReserves(s0, t, u, live, b);
  }

  lemma AllocReserves(s0: seq<Region>, t: seq<Region>, u: seq<Region>, live: seq<Block>, b: Block)
    requires Reserves(s0, t, live) && Updated(t, u, b.base, b.base + b.size, SetFlags(MEMBLOCK_RESERVED))
    requires forall a: int :: In(b, a) ==> !InSome(live, a) && Lookup(s0, a) == Lookup(t, a)
    ensures Reserves(s0, u, live + [b])
  {
    hide ApplyMapped, InSome;
    var c := SetFlags(MEMBLOCK_RESERVED);
    forall a: int
      ensures Lookup(u, a) == if InSome(live + [b], a) then ApplyMapped(c, Lookup(s0, a)) else Lookup(s0, a)
    {
      InSomeExtended(live, b, a);
      assert Lookup(t, a) == if InSome(live, a) then ApplyMapped(c, Lookup(s0, a)) else Lookup(s0, a);
      assert Lookup(u, a) == if b.base <= a < b.base + b.size then ApplyMapped(c, Lookup(t, a)) else Lookup(t, a);
      assert In(b, a) <==> b.base <= a < b.base + b.size;
    }
  }

  lemma InSomeDropped(live: seq<Block>, i: nat, a: int)
    requires i < |live| && Disjoint(live)
    ensures InSome(Drop(live, i), a) <==> InSome(live, a) && !In(live[i], a)
  {
    var r := Drop(live, i);
    if InSome(r, a) {
      var k :| 0 <= k < |r| && In(r[k], a);
      assert In(live[if k < i then k else k + 1], a);
    }
    if InSome(live, a) && !In(live[i], a) {
      var k :| 0 <= k < |live| && In(live[k], a);
      assert In(r[if k < i then k else k - 1], a);
    }
  }

  /** A release takes one block away. */
  lemma FreeHolds(s0: seq<Region>, t: seq<Region>, u: seq<Region>, live: seq<Block>, i: nat)
    requires Holds(s0, t, live) && i < |live|
    requires Updated(t, u, live[i].base, live[i].base + live[i].size, ClearFlags(MEMBLOCK_RESERVED))
    ensures Holds(s0, u, Drop(live, i))
  {
    FreeReserves(s0, t, u, live, i);
    hide Reserves, Updated, ApplyMapped;
    var r := Drop(live, i);
    forall j, k, a: int | 0 <= j < k < |r| && In(r[j], a) ensures !In(r[k], a) {
      assert In(live[if j < i then j else j + 1], a);
    }
  }

  lemma FreeReserves(s0: seq<Region>, t: seq<Region>, u: seq<Region>, live: seq<Block>, i: nat)
    requires Holds(s0, t, live) && i < |live|
    requires Updated(t, u, live[i].base, live[i].base + live[i].size, ClearFlags(MEMBLOCK_RESERVED))
    ensures Reserves(s0, u, Drop(live, i))
  {
    hide InSome, Disjoint;
    var b := live[i];
    forall a: int ensures Lookup(u, a) ==
      if InSome(Drop(live, i), a) then ApplyMapped(SetFlags(MEMBLOCK_RESERVED), Lookup(s0, a)) else Lookup(s0, a)
    {
      InSomeDropped(live, i, a);
      assert Lookup(t, a) ==
        if InSome(live, a) then ApplyMapped(SetFlags(MEMBLOCK_RESERVED), Lookup(s0, a)) else Lookup(s0, a);
      assert Lookup(u, a) == if b.base <= a < b.base + b.size
        then ApplyMapped(ClearFlags(MEMBLOCK_RESERVED), Lookup(t, a)) else Lookup(t, a);
      if In(b, a) {
        InOne(live, i, a);
        assert Lookup(s0, a).Some? && Lookup(s0, a).value.flags == MEMBLOCK_NONE;
        ReservedIsNotFree(Lookup(s0, a).value.flags);
      }
    }
  }

  lemma InOne(live: seq<Block>, i: nat, a: int)
    requires i < |live| && In(live[i], a)
    ensures InSome(live, a)
  {
  }

  /* ---- Runs ---- */

  datatype Request =
    | Allocate(size: nat, k: nat, start: nat, end: nat, nid: int, exactNid: bool)
    | Release(i: nat)

  /** A request an API caller may make: the alignment is 2^k. */
  predicate RequestOk(r: Request) {
    r.Allocate? ==> r.k < 64 && r.start < ADDRESS_LIMIT && r.end < ADDRESS_LIMIT
  }

  /** What a request asks the search for. */
  function Wanted(r: Request): (w: Want)
    requires r.Allocate?
    ensures w.align > 0
  {
    Clamped(r.size, Pow2(r.k), r.start, r.end, r.nid, MEMBLOCK_NONE)
  }

  /** A found block as a live block. */
  lemma FoundBlock(s: seq<Region>, w: Want, exactNid: bool, p: int)
    requires w.align > 0 && Ordered(s) && Chosen(s, w, exactNid, p) && p >= 0
    requires w.flags == MEMBLOCK_NONE && w.high < ADDRESS_LIMIT
    ensures WasFree(s, Block(p, w.size)) && p + w.size < ADDRESS_LIMIT
  {
    hide Lowest, NoneSuits, Ordered;
    var v := if Lowest(s, w, p) then w else w.(nid := -1);
    BlockInBounds(s, v, p);
    forall a: int | In(Block(p, w.size), a)
      ensures Lookup(s, a).Some? && Lookup(s, a).value.flags == MEMBLOCK_NONE
    {
      BlockIsFree(s, v, p, a);
    }
  }

  /** The blocks held and the map, between two requests. */
  datatype Served = Served(live: seq<Block>, memory: seq<Region>)

  /** No block is granted: the nodes allowed have none, or an array of `max` slots no room to split. */
  ghost predicate Refused(r: Request, max: nat, s: seq<Region>)
    requires r.Allocate?
  {
    (r.size > 0 && |s| + 2 > max) || NoneAllowed(s, Wanted(r), r.exactNid)
  }

  /** The block at `p` is the one the request asks for, and is reserved. */
  ghost predicate Grants(r: Request, s: seq<Region>, t: seq<Region>, p: nat)
    requires r.Allocate?
  {
    && Chosen(s, Wanted(r), r.exactNid, p) && WasFree(s, Block(p, r.size))
    && Updated(s, t, p, p + r.size, SetFlags(MEMBLOCK_RESERVED))
  }

  /** A block can be given back: regions need not be split, or can be. */
  predicate CanRelease(b: Block, max: nat, s: seq<Region>) {
    b.size == 0 || |s| + 2 <= max
  }

  /** What a request does. */
  ghost predicate Serves(r: Request, max: nat, s: Served, t: Served) {
    match r
    case Allocate(size, _, _, _, _, _) =>
      if Refused(r, max, s.memory) then t == s
      else exists p: nat :: Grants(r, s.memory, t.memory, p) && t.live == s.live + [Block(p, size)]
    case Release(i) =>
      if i < |s.live| && CanRelease(s.live[i], max, s.memory) then
        && t.live == Drop(s.live, i)
        && Updated(s.memory, t.memory, s.live[i].base, s.live[i].base + s.live[i].size, ClearFlags(MEMBLOCK_RESERVED))
      else t == s
  }

  /** The block the allocator returns joins the live ones. */
  method ServeAlloc(m: MemBlock, r: Request, ghost live: seq<Block>, ghost s0: seq<Region>)
    returns (p: nat, ghost live': seq<Block>)
    requires m.Tidy() && r.Allocate? && RequestOk(r) && Holds(s0, m.Live(), live)
    modifies m, m.regions
    ensures m.Tidy() && Holds(s0, m.Live(), live') && m.n <= old(m.n) + 2
    ensures m.size == old(m.size) && Sum(m.Live()) == Sum(old(m.Live()))
    ensures p == 0 <==> Refused(r, m.regions.Length, old(m.Live()))
    ensures p == 0 ==> m.Live() == old(m.Live())
    ensures p != 0 ==> Grants(r, old(m.Live()), m.Live(), p)
    ensures live' == if p == 0 then live else live + [Block(p, r.size)]
  {
    hide Holds, Updated, WasFree, Ordered, Lowest, NoneSuits, Merged, Sum, Pow2, ChangeOutcome, DeadBelowIn, TopOf;
    ghost var t, slots, n := m.Live(), m.regions[..], m.n;
    var status;
    ghost var q;
    p, status, q := Alloc(m, r.size, Pow2(r.k), r.start, r.end, r.nid, r.exactNid, r.k);
    RoomDecides(slots, n, q, r.size);
    live' := live;
    if p != 0 {
      FoundBlock(t, Wanted(r), r.exactNid, p);
      AllocHolds(s0, t, m.Live(), live, Block(p, r.size));
      live' := live + [Block(p, r.size)];
    } else {
      assert m.Live() == m.regions[..][..m.n];
    }
  }

  lemma RoomDecides(slots: seq<Region>, n: nat, q: nat, size: nat)
    requires n <= |slots|
    ensures q > 0 ==> (ReserveOutcome(slots, n, q, size) == NoSpace <==> size > 0 && n + 2 > |slots|)
    ensures var o := ReserveOutcome(slots, n, q, size); o == Success || o == NoSpace || o == DeadMatch
  {
    hide ChangeOutcome;
    OutcomeCases(slots, n, q, size, SetFlags(MEMBLOCK_RESERVED));
    OutcomeNoSpace(slots, n, q, size, SetFlags(MEMBLOCK_RESERVED));
  }

  lemma BlockBelow(s0: seq<Region>, t: seq<Region>, live: seq<Block>, i: nat)
    requires Holds(s0, t, live) && i < |live|
    ensures live[i].base + live[i].size < ADDRESS_LIMIT
  {
  }

  /** A released block leaves the live ones, unless the array is too full to split regions. */
  method ServeRelease(m: MemBlock, b: Block, ghost i: nat, ghost live: seq<Block>, ghost s0: seq<Region>)
    returns (ghost live': seq<Block>)
    requires m.Tidy() && Holds(s0, m.Live(), live) && i < |live| && live[i] == b
    modifies m, m.regions
    ensures m.Tidy() && Holds(s0, m.Live(), live')
    ensures m.size == old(m.size) && Sum(m.Live()) == Sum(old(m.Live()))
    ensures live' == if CanRelease(b, m.regions.Length, old(m.Live())) then Drop(live, i) else live
    ensures if CanRelease(b, m.regions.Length, old(m.Live()))
            then Updated(old(m.Live()), m.Live(), b.base, b.base + b.size, ClearFlags(MEMBLOCK_RESERVED))
            else m.Live() == old(m.Live())
  {
    hide Holds, Updated, Ordered, Merged, Sum, ChangeOutcome, DeadBelowIn, TopOf, In;
    ghost var t := m.Live();
    BlockBelow(s0, t, live, i);
    OutcomeNoSpace(m.regions[..], m.n, b.base, b.size, ClearFlags(MEMBLOCK_RESERVED));
    OutcomeCases(m.regions[..], m.n, b.base, b.size, ClearFlags(MEMBLOCK_RESERVED));
    ghost var status := Free(m, b.base, b.size);
    if status == Success {
      FreeHolds(s0, t, m.Live(), live, i);
      live' := Drop(live, i);
    } else {
      live' := live;
      assert m.Live() == m.regions[..][..m.n];
    }
  }

  /** The states between the requests: each comes from the one before by its request. */
  ghost predicate ServedAll(requests: seq<Request>, max: nat, states: seq<Served>) {
    |states| >= 1 && |states| <= |requests| + 1
    && forall k :: 0 <= k < |states| - 1 ==> Serves(requests[k], max, states[k], states[k + 1])
  }

  lemma ServedMore(requests: seq<Request>, max: nat, states: seq<Served>, t: Served)
    requires ServedAll(requests, max, states) && |states| <= |requests|
    requires Serves(requests[|states| - 1], max, states[|states| - 1], t)
    ensures ServedAll(requests, max, states + [t])
  {
    hide Serves;
  }

  lemma ServedNone(requests: seq<Request>, max: nat, s: Served)
    ensures ServedAll(requests, max, [s])
  {
  }

  /**
   Any sequence of requests; `Release(i)` gives back the `i`-th block held, if there is one.
   Each request does what `Serves` says. At the end the held blocks are disjoint, consist of
   memory that was free at the start, and the map differs from the one at the start exactly
   by their reservation.
   */
  method Run(m: MemBlock, requests: seq<Request>) returns (live: seq<Block>, ghost states: seq<Served>)
    requires m.Tidy() && forall i :: 0 <= i < |requests| ==> RequestOk(requests[i])
    modifies m, m.regions
    ensures m.Tidy() && Holds(old(m.Live()), m.Live(), live)
    ensures m.size == old(m.size) && Sum(m.Live()) == Sum(old(m.Live()))
    ensures |states| == |requests| + 1 && ServedAll(requests, m.regions.Length, states)
    ensures states[0] == Served([], old(m.Live())) && states[|requests|] == Served(live, m.Live())
  {
    hide Holds, MemBlock.Tidy, Sum, Serves, ServedAll, CanRelease;
    TidyBounds(m);
    ghost var s0 := m.Live();
    live, states := [], [Served([], s0)];
    NothingYet(s0);
    ServedNone(requests, m.regions.Length, states[0]);
    for k := 0 to |requests|
      invariant m.n <= m.regions.Length && m.Tidy() && Holds(s0, m.Live(), live)
      invariant m.size == old(m.size) && Sum(m.Live()) == Sum(s0)
      invariant |states| == k + 1 && ServedAll(requests, m.regions.Length, states)
      invariant states[0] == Served([], s0) && states[k] == Served(live, m.Live())
    {
      live := ServeOne(m, requests[k], live, s0);
      ServedMore(requests, m.regions.Length, states, Served(live, m.Live()));
      states := states + [Served(live, m.Live())];
    }
  }

  lemma TidyBounds(m: MemBlock)
    requires m.Tidy()
    ensures m.n <= m.regions.Length
  {
  }

  method ServeOne(m: MemBlock, r: Request, live: seq<Block>, ghost s0: seq<Region>) returns (live': seq<Block>)
    requires m.Tidy() && RequestOk(r) && Holds(s0, m.Live(), live)
    modifies m, m.regions
    ensures m.Tidy() && m.n <= m.regions.Length && Holds(s0, m.Live(), live')
    ensures m.size == old(m.size) && Sum(m.Live()) == Sum(old(m.Live()))
    ensures Serves(r, m.regions.Length, Served(live, old(m.Live())), Served(live', m.Live()))
  {
    hide Holds, Sum, Ordered, Merged, MemBlock.DeadBelow, Grants, Refused, Updated;
    live' := live;
    if r.Allocate? {
      var p;
      ghost var held;
      p, held := ServeAlloc(m, r, live, s0);
      if p != 0 {
        live' := live + [Block(p, r.size)];
      }
    } else if r.i < |live| {
      var b, can := live[r.i], live[r.i].size == 0 || m.n + 2 <= m.regions.Length;
      ghost var held := ServeRelease(m, b, r.i, live, s0);
      if can {
        live' := Drop(live, r.i);
      }
    }
  }

  /** While a block that is not empty is held, the map is another one. */
  lemma HeldDiffers(s0: seq<Region>, t: seq<Region>, b: Block)
    requires Holds(s0, t, [b]) && b.size > 0
    ensures t != s0
  {
    assert In([b][0], b.base);
    assert Lookup(t, b.base) == ApplyMapped(SetFlags(MEMBLOCK_RESERVED), Lookup(s0, b.base));
    ReservedIsNotFree(Lookup(s0, b.base).value.flags);
  }

  /**
   Allocating a block and freeing it again: `p` is the block, `between` the map in between,
   of `mid` regions. The live array is restored exactly if there was nothing to give back or
   freeing still had two slots to split regions; otherwise the block stays reserved.
   */
  method AllocThenFree(m: MemBlock, r: Request) returns (p: nat, mid: nat, ghost between: seq<Region>)
    requires m.Tidy() && r.Allocate? && RequestOk(r)
    modifies m, m.regions
    ensures m.Tidy() && Normal(between) && |between| == mid <= old(m.n) + 2
    ensures p == 0 <==> Refused(r, m.regions.Length, old(m.Live()))
    ensures if p == 0 then between == old(m.Live()) else Grants(r, old(m.Live()), between, p)
    ensures m.Live()
         == if p == 0 || CanRelease(Block(p, r.size), m.regions.Length, between) then old(m.Live()) else between
    ensures m.Live() == old(m.Live()) <==> p == 0 || r.size == 0 || mid + 2 <= m.regions.Length
  {
    hide Holds, Ordered, Merged, Sum, Refused, Grants, MemBlock.DeadBelow, MemBlock.Top, Updated;
    ghost var s0 := m.Live();
    ghost var live;
    NothingYet(s0);
    p, live := ServeAlloc(m, r, [], s0);
    mid, between := m.n, m.Live();
    if p != 0 {
      assert live == [Block(p, r.size)];
      live := ServeRelease(m, Block(p, r.size), 0, live, s0);
      assert live == [] || live == [Block(p, r.size)];
    }
    Restored(s0, m.Live(), live);
  }

  lemma NothingYet(s: seq<Region>)
    ensures Holds(s, s, [])
  {
  }

  lemma Restored(s0: seq<Region>, t: seq<Region>, live: seq<Block>)
    requires Normal(s0) && Normal(t) && Holds(s0, t, live) && |live| <= 1 && (live != [] ==> live[0].size > 0)
    ensures t == s0 <==> live == []
  {
    if live == [] {
      NothingHeld(s0, t);
      NormalFormUnique(t, s0);
    } else {
      assert live == [live[0]];
      HeldDiffers(s0, t, live[0]);
    }
  }

  lemma NothingHeld(s0: seq<Region>, t: seq<Region>)
    requires Holds(s0, t, [])
    ensures SameMap(t, s0)
  {
    forall a: int ensures Lookup(t, a) == Lookup(s0, a) {
      assert !InSome([], a);
    }
  }

  /**
   An allocation that cannot be given back: with three slots and one region, a block in the
   middle of the region takes the two free slots, and stays reserved.
   */
  method StuckBlock() returns (m: MemBlock, p: nat, ghost before: seq<Region>)
    ensures fresh(m) && m.Tidy() && m.regions.Length == 3 && before == [Region(0x1000, 0xF000, -1, MEMBLOCK_NONE)]
    ensures p != 0 && m.Live() != before && Lookup(m.Live(), p) == Some(Attr(-1, MEMBLOCK_RESERVED))
  {
    hide Ordered, Merged, Sum, Updated, Filled, Holds, ChangeOutcome, DeadBelowIn, TopOf;
    m := new MemBlock(3);
    m.RoomSuffices(0x1000, 0xF000, Attr(-1, MEMBLOCK_NONE));
    var added := m.AddRange(0x1000, 0xF000, -1, MEMBLOCK_NONE);
    before := [Region(0x1000, 0xF000, -1, MEMBLOCK_NONE)];
    OneRegion(m.Live(), before[0]);
    var r := Allocate(0x1000, 12, 0x4000, 0x8000, -1, false);
    MiddleFits(r);
    ghost var slots := m.regions[..];
    var status;
    ghost var q;
    p, status, q := Alloc(m, r.size, Pow2(12), r.start, r.end, r.nid, r.exactNid, 12);
    RoomDecides(slots, 1, q, r.size);
    MiddleTaken(before, m.Live(), p, r);
    OutcomeNoSpace(m.regions[..], m.n, p, r.size, ClearFlags(MEMBLOCK_RESERVED));
    ghost var freed := Free(m, p, r.size);
    assert freed == NoSpace && m.Live() == m.regions[..][..m.n];
  }

  lemma MiddleFits(r: Request)
    requires r == Allocate(0x1000, 12, 0x4000, 0x8000, -1, false)
    ensures Pow2(12) == 0x1000 && !NoneSuits([Region(0x1000, 0xF000, -1, MEMBLOCK_NONE)], Wanted(r))
    ensures RequestOk(r)
  {
    assert Pow2(12) == 0x1000;
    assert Suits([Region(0x1000, 0xF000, -1, MEMBLOCK_NONE)][0], Wanted(r), 0x4000);
  }

  /** With a block reserved in it, the region's map takes more than one region. */
  lemma MiddleTaken(s: seq<Region>, t: seq<Region>, p: nat, r: Request)
    requires r == Allocate(0x1000, 12, 0x4000, 0x8000, -1, false) && s == [Region(0x1000, 0xF000, -1, MEMBLOCK_NONE)]
    requires Ordered(t) && p != 0 && Chosen(s, Wanted(r), false, p)
    requires Updated(s, t, p, p + 0x1000, SetFlags(MEMBLOCK_RESERVED))
    ensures |t| >= 2 && t != s && Lookup(t, p) == Some(Attr(-1, MEMBLOCK_RESERVED))
  {
    assert s[1..] == [];
    assert Wanted(r).(nid := -1) == Wanted(r);
    BlockInBounds(s, Wanted(r), p);
    assert Lookup(t, p) == Some(Attr(-1, MEMBLOCK_RESERVED)) by {
      assert Lookup(s, p) == Some(Attr(-1, MEMBLOCK_NONE));
    }
    assert Lookup(t, 0x1000) == Lookup(s, 0x1000) == Some(Attr(-1, MEMBLOCK_NONE));
    var i := Where(t, p);
    var j := Where(t, 0x1000);
  }
}
