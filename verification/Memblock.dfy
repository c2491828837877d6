/**
 The memory map as the kernel keeps it: a fixed array of regions of which the first `n`
 are live, changed in place by shifting, splitting and merging. The slots from `n` on are
 dead but keep whatever was last written to them, and merging may look at the first of
 them, so they are part of the model.
 */
module Memblock {
  import opened Common
  import opened MemblockSpec
  import opened MemblockIsolate
  import opened MemblockUpdate
  import opened MemblockFill
  import opened MemblockCut

  /**
   How an operation goes. Besides success and the error of a full array: the assertion of a
   full array stops the kernel; merging looks at the slot behind the array; merging finds a
   match in the first dead slot, and moves memory it must not.
   */
  datatype Status = Success | NoSpace | Halts | ReadsBehind | DeadMatch

  type u64 = x: int | 0 <= x < ADDRESS_LIMIT

  /** Unsigned 64-bit arithmetic. */
  function Wrap(x: int): (r: u64) {
    x % ADDRESS_LIMIT
  }

  lemma WrapDifference(x: int, y: int, d: int)
    ensures Wrap(Wrap(x + d) - (y + d)) == Wrap(x - y)
  {
  }

  lemma WrapBack(x: u64, d: nat)
    ensures Wrap(Wrap(x - d) + d) == x
  {
  }

  /** No mergeable neighbours except possibly `start - 1, start` up to `end - 1, end`. */
  predicate MergedOutside(s: seq<Region>, start: nat, end: nat) {
    forall k :: 0 <= k < |s| - 1 && (k + 1 < start || end <= k) ==> !Mergeable(s[k], s[k + 1])
  }

  lemma SameMapReflexive(s: seq<Region>)
    ensures SameMap(s, s)
  {
  }

  lemma SameMapTransitive(s: seq<Region>, t: seq<Region>, u: seq<Region>)
    requires SameMap(s, t) && SameMap(t, u)
    ensures SameMap(s, u)
  {
    forall a: int ensures Lookup(s, a) == Lookup(u, a) {
      assert Lookup(s, a) == Lookup(t, a);
    }
  }

  lemma MergedStart(s: seq<Region>, start: nat, end: nat)
    requires MergedOutside(s, start, end)
    ensures MergedOutside(s, if start == 0 then 1 else start, end)
  {
  }

  lemma MergedNext(s: seq<Region>, i: nat, end: nat)
    requires MergedOutside(s, i + 1, end) && (i + 1 < |s| ==> !Mergeable(s[i], s[i + 1]))
    ensures MergedOutside(s, i + 2, end)
  {
  }

  lemma MergedEnd(s: seq<Region>, i: nat)
    requires MergedOutside(s, i + 1, i)
    ensures Merged(s)
  {
  }

  /** Merging `i` and `i + 1` leaves the neighbours outside the range as they were. */
  lemma MergedAfterMerge(s: seq<Region>, i: nat, end: nat)
    requires i + 1 < |s| && i < end && MergedOutside(s, i + 1, end) && Mergeable(s[i], s[i + 1])
    ensures MergedOutside(Joined(s, i), i + 1, end - 1)
  {
    var t := Joined(s, i);
    forall k | 0 <= k < |t| - 1 && (k + 1 < i + 1 || end - 1 <= k) ensures !Mergeable(t[k], t[k + 1]) {
      if k + 1 < i + 1 {
        assert !Mergeable(s[k], s[k + 1]);
      } else {
        assert !Mergeable(s[k + 1], s[k + 2]);
      }
    }
  }

  /** Inserting after the mergeable part extends it to the new region. */
  lemma InsertMerged(s: seq<Region>, i: nat, r: Region, start: nat, end: nat)
    requires i <= |s| && start <= i && end <= i && MergedOutside(s, start, end)
    ensures MergedOutside(Insert(s, i, r), start, i + 1)
  {
    var t := Insert(s, i, r);
    forall k | 0 <= k < |t| - 1 && (k + 1 < start || i + 1 <= k) ensures !Mergeable(t[k], t[k + 1]) {
      if k + 1 < start {
        assert !Mergeable(s[k], s[k + 1]);
      } else {
        assert !Mergeable(s[k - 1], s[k]);
      }
    }
  }

  /** The part of the list that may have to be merged after inserting a region. */
  lemma InsertedMerged(s: seq<Region>, c: AddCursor, r: Region)
    requires c.i <= |s| && (c.start == -1 ==> Merged(s))
    requires c.start != -1 ==> 0 <= c.start < c.end <= c.i && MergedOutside(s, c.start, c.end)
    ensures MergedOutside(Insert(s, c.i, r), if c.start == -1 then c.i else c.start, c.i + 1)
  {
    hide Merged, MergedOutside;
    if c.start == -1 {
      MergedIsOutside(s, c.i, c.i);
      InsertMerged(s, c.i, r, c.i, c.i);
    } else {
      InsertMerged(s, c.i, r, c.start, c.end);
    }
  }

  /** Where the list ends after an insertion. */
  lemma InsertedTop(s: seq<Region>, i: nat, r: Region)
    requires i <= |s| && Ordered(Insert(s, i, r))
    ensures var t := Insert(s, i, r);
            && End(t[|s|]) == (if i == |s| then End(r) else End(s[|s| - 1]))
            && Sum(t) <= End(t[|s|]) && End(t[|s|]) > 0
            && (s != [] ==> End(s[|s| - 1]) <= End(t[|s|]))
  {
    var t := Insert(s, i, r);
    SumBound(t);
    if s != [] && i == |s| {
      assert End(t[|s| - 1]) <= t[|s|].base;
    }
  }

  /** A filled range ends at or below the end of the list. */
  lemma FilledTop(s: seq<Region>, t: seq<Region>, base: nat, end: nat, attr: Attr)
    requires Filled(s, t, base, end, attr) && Ordered(t) && base < end
    ensures t != [] && End(t[|t| - 1]) >= end
  {
    assert Lookup(t, end - 1) ==
      if Lookup(s, end - 1).Some? then Lookup(s, end - 1) else if base <= end - 1 < end then Some(attr) else None;
    var j := Where(t, end - 1);
    assert j < |t| - 1 ==> End(t[j]) <= t[|t| - 1].base;
  }

  lemma FilledSame(s0: seq<Region>, s: seq<Region>, t: seq<Region>, base: nat, end: nat, attr: Attr)
    requires Filled(s0, s, base, end, attr) && SameMap(s, t)
    ensures Filled(s0, t, base, end, attr)
  {
    forall a: int ensures Lookup(t, a) ==
      if Lookup(s0, a).Some? then Lookup(s0, a) else if base <= a < end then Some(attr) else None
    {
      assert Lookup(s, a) == Lookup(t, a);
    }
  }

  lemma MergedIsOutside(s: seq<Region>, start: nat, end: nat)
    requires Merged(s)
    ensures MergedOutside(s, start, end)
  {
  }

  lemma LastNotEmpty(s: seq<Region>)
    requires Ordered(s) && s != []
    ensures s[|s| - 1].base < End(s[|s| - 1])
  {
  }

  /** What an isolating scan started with: the regions, all slots, the size, and the range. */
  datatype Frame = Frame(s: seq<Region>, slots: seq<Region>, size: u64, base: nat, last: nat)

  /** The next region to look at, and the regions found inside the range. */
  datatype Cursor = Cursor(i: nat, start: nat, end: nat)

  /** Which ends of the range have been split off a region. */
  datatype Splits = Splits(low: bool, high: bool)

  /** The address after the last region of a list. */
  function TopOf(s: seq<Region>): (e: nat) {
    if s == [] then 0 else End(s[|s| - 1])
  }

  /**
   How merging the first `m` of the slots up to region `end` ends: when it goes up to the
   end of the list and has nothing to merge, its last comparison is with slot `m`.
   */
  function MergeEnd(slots: seq<Region>, m: nat, end: nat): (status: Status)
    requires m <= |slots|
  {
    if end == 0 || end < m || !Merged(slots[..m]) then Success
    else if m == |slots| then ReadsBehind
    else if m > 0 && Mergeable(slots[m - 1], slots[m]) then DeadMatch
    else Success
  }

  /** Dead slots start below the end of the list; before the first region all are zero. */
  predicate DeadBelowIn(slots: seq<Region>, m: nat)
    requires m <= |slots|
  {
    forall k :: m <= k < |slots| ==> if m == 0 then slots[k].base == 0 else slots[k].base < TopOf(slots[..m])
  }

  /** With the dead slots below the end no dead slot matches. */
  lemma NoDeadMatch(slots: seq<Region>, m: nat, end: nat)
    requires m <= |slots| && DeadBelowIn(slots, m)
    ensures MergeEnd(slots, m, end) != DeadMatch
  {
  }

  /** What a filling scan started with, and the list it makes. */
  datatype AddFrame =
    AddFrame(u: seq<Region>, s: seq<Region>, slots: seq<Region>, base: nat, last: nat, attr: Attr, drift: u64)

  predicate FrameOk(f: AddFrame, length: nat) {
    |f.s| <= |f.slots| == length && f.s == f.slots[..|f.s|] && |f.s| <= |f.u|
  }

  /** The next region, the address filled up to, and the regions to merge; `start` is -1 before the first. */
  datatype AddCursor = AddCursor(i: nat, b: nat, start: int, end: nat)

  /**
   How filling a range into the list `u` goes, by the array before; `over` when the range goes
   beyond the end: too few slots, or nothing to merge and no slot, or a match, behind.
   */
  function FillOutcome(u: seq<Region>, slots: seq<Region>, over: bool): (status: Status) {
    if |u| > |slots| then Halts
    else if !over || u == [] || !Merged(u) then Success
    else if |u| == |slots| then ReadsBehind
    else if Mergeable(u[|u| - 1], slots[|u|]) then DeadMatch
    else Success
  }

  function AddOutcome(slots: seq<Region>, m: nat, base: nat, length: nat, attr: Attr): (status: Status)
    requires m <= |slots|
  {
    if length == 0 then Success
    else if m == 0 then if slots == [] then ReadsBehind else Success
    else FillOutcome(FillList(slots[..m], base, base + length, attr), slots, TopOf(slots[..m]) < base + length)
  }

  lemma HaltsFull(u: seq<Region>, slots: seq<Region>, over: bool)
    requires |u| > |slots|
    ensures FillOutcome(u, slots, over) == Halts
  {
  }

  /** What merging meets after filling is what the array before says. */
  lemma MergeIsFill(f: AddFrame, slots: seq<Region>, end: nat)
    requires |f.u| <= |slots| == |f.slots| && slots[..|f.u|] == f.u && 0 < end <= |f.u|
    requires end == |f.u| <==> TopOf(f.s) < f.last
    requires forall k :: |f.u| <= k < |slots| ==> slots[k] == f.slots[k]
    ensures MergeEnd(slots, |f.u|, end) == FillOutcome(f.u, f.slots, TopOf(f.s) < f.last)
  {
    hide Merged, Mergeable;
    assert f.u[|f.u| - 1] == slots[|f.u| - 1];
  }

  lemma NothingFilled(s: seq<Region>, base: nat, attr: Attr)
    ensures Filled(s, s, base, base, attr) && Gaps(s, base, base) == 0
  {
  }

  lemma OneGap(b: nat, end: nat)
    requires b < end
    ensures Gaps([], b, end) == 1
  {
  }

  /** A range beyond the end of the list is filled up to its end. */
  lemma {:induction false} FillEnds(s: seq<Region>, b: nat, end: nat, attr: Attr)
    requires Ordered(s) && b < end && TopOf(s) < end
    ensures var u := FillList(s, b, end, attr); u != [] && End(u[|u| - 1]) == end
    decreases |s|
  {
    hide Ordered, FillList;
    if s == [] {
      FillNone(b, end, attr);
    } else {
      TailOf(s);
      FillEnds(s[1..], Max(b, End(s[0])), end, attr);
      FillTail(s, b, end, attr);
    }
  }

  lemma FillNone(b: nat, end: nat, attr: Attr)
    requires b < end
    ensures FillList([], b, end, attr) == [Piece(b, end, attr)]
  {
  }

  lemma FillTail(s: seq<Region>, b: nat, end: nat, attr: Attr)
    requires s != [] && b < end && s[0].base < End(s[0]) < end
    ensures var u, v := FillList(s, b, end, attr), FillList(s[1..], Max(b, End(s[0])), end, attr);
            v != [] ==> u != [] && u[|u| - 1] == v[|v| - 1]
  {
  }

  lemma TailOf(s: seq<Region>)
    requires Ordered(s) && s != []
    ensures Ordered(s[1..]) && s[0].base < End(s[0]) <= TopOf(s) && TopOf(s[1..]) <= TopOf(s)
  {
    assert s[0].size > 0;
    if |s| > 1 {
      assert End(s[0]) <= s[|s| - 1].base && s[1..][|s| - 2] == s[|s| - 1];
      assert s[|s| - 1].size > 0;
    }
  }

  lemma NotEmptyAt(s: seq<Region>, i: nat)
    requires Ordered(s) && i < |s|
    ensures s[i].size > 0
  {
  }

  function ChangeOf(on: bool, flags: bv32): (c: Change) {
    if on then SetFlags(flags) else ClearFlags(flags)
  }

  /**
   What setting or clearing flags on a range means for one of its addresses: those flags are all
   on or all off, the other flags and the node are as before.
   */
  lemma FlagBits(s: seq<Region>, t: seq<Region>, base: nat, end: nat, on: bool, flags: bv32, a: int)
    requires Updated(s, t, base, end, ChangeOf(on, flags)) && base <= a < end && Lookup(s, a).Some?
    ensures Lookup(t, a).Some? && Lookup(t, a).value.nid == Lookup(s, a).value.nid
    ensures if on then AllOn(Lookup(t, a).value.flags, flags) else AllOff(Lookup(t, a).value.flags, flags)
    ensures DifferIn(Lookup(t, a).value.flags, Lookup(s, a).value.flags, flags)
  {
    hide Lookup, Apply, AllOn, AllOff, DifferIn;
    if on {
      SetBits(Lookup(s, a).value, flags);
    } else {
      ClearBits(Lookup(s, a).value, flags);
    }
  }

  /**
   How changing the range goes, by the array before: no room to split regions; or the range
   takes the last region in, nothing can be merged afterwards, and the last region matches
   the dead slot behind the cut list.
   */
  function ChangeOutcome(slots: seq<Region>, m: nat, base: nat, length: nat, c: Change): (status: Status)
    requires m <= |slots|
  {
    if length > 0 && m + 2 > |slots| then NoSpace
    else
      var u := CutBoth(slots[..m], base, base + length);
      var i, j := Before(u, base), Before(u, base + length);
      if length > 0 && i < j == |u| < |slots| && DeadMatches(ChangeList(u, i, j, c), slots[|u|]) then DeadMatch
      else Success
  }

  /** A merged list whose last region the dead slot continues. */
  predicate DeadMatches(t: seq<Region>, dead: Region) {
    t != [] && Merged(t) && Mergeable(t[|t| - 1], dead)
  }

  lemma OutcomeNoSpace(slots: seq<Region>, m: nat, base: nat, length: nat, c: Change)
    requires m <= |slots|
    ensures ChangeOutcome(slots, m, base, length, c) == NoSpace <==> length > 0 && m + 2 > |slots|
  {
    hide CutBoth, Before, DeadMatches;
  }

  /** What merging meets after the change is what the array before says. */
  lemma OutcomeOf(slots0: seq<Region>, m: nat, slots: seq<Region>, s: seq<Region>, base: nat, length: nat, start: nat,
                  end: nat, c: Change)
    requires m <= |slots0| == |slots| && |s| <= |slots| && Normal(slots0[..m]) && Ordered(s) && SameMap(slots0[..m], s)
    requires length == 0 ==> start == end == 0
    requires length > 0 ==>
      && m + 2 <= |slots| && Isolated(s, base, base + length, start, end) && CutsOnly(s, base, base + length)
      && (end > 0 ==> end < |slots|)
    requires start <= end <= |s| && slots[..|s|] == ChangeList(s, start, end, c)
    requires forall k :: |s| <= k < |slots| ==> slots[k] == slots0[k]
    ensures MergeEnd(slots, |s|, end) == ChangeOutcome(slots0, m, base, length, c)
    ensures MergeEnd(slots, |s|, end) == Success || MergeEnd(slots, |s|, end) == DeadMatch
  {
    hide Ordered, SameMap, CutsOnly, Isolated, CutBoth, Before, Changed, Merged, Mergeable;
    if length > 0 {
      IsolatedIsCut(slots0[..m], s, base, base + length, start, end);
      IsolatedOrder(s, base, base + length, start, end);
      var t := ChangeList(s, start, end, c);
      assert |s| > 0 ==> slots[|s| - 1] == t[|s| - 1];
    }
  }

  lemma IsolatedOrder(s: seq<Region>, base: nat, end: nat, st: nat, en: nat)
    requires Isolated(s, base, end, st, en)
    ensures st == en ==> en == 0
  {
  }

  /** Dead slots below the end stay so when only the live regions change, up to the same end. */
  lemma DeadStay(slots0: seq<Region>, m: nat, slots: seq<Region>, n: nat)
    requires m <= n <= |slots0| == |slots| && TopOf(slots0[..m]) <= TopOf(slots[..n]) && Ordered(slots[..n])
    requires forall k :: n <= k < |slots| ==> slots[k] == slots0[k]
    ensures DeadBelowIn(slots0, m) ==> DeadBelowIn(slots, n)
  {
    if n > 0 {
      LastNotEmpty(slots[..n]);
    }
  }

  lemma NoDeadMatchIf(slots: seq<Region>, m: nat, end: nat)
    requires m <= |slots|
    ensures DeadBelowIn(slots, m) ==> MergeEnd(slots, m, end) != DeadMatch
  {
    if DeadBelowIn(slots, m) {
      NoDeadMatch(slots, m, end);
    }
  }

  /** A pair that could be merged was not yet merged. */
  lemma NotMerged(s: seq<Region>, i: nat)
    requires i + 1 < |s| && Mergeable(s[i], s[i + 1])
    ensures !Merged(s)
  {
  }

  lemma AllMerged(s: seq<Region>, i: nat, end: nat)
    requires i + 1 == |s| && end <= |s| && MergedOutside(s, i + 1, end)
    ensures Merged(s)
  {
  }

  class MemBlock {
    const regions: array<Region>
    var n: nat
    var size: u64

    ghost function Live(): (s: seq<Region>)
      requires n <= regions.Length
      reads this, regions
    {
      regions[..n]
    }

    /** The address after the last live region. */
    ghost function Top(): (e: nat)
      requires n <= regions.Length
      reads this, regions
    {
      TopOf(Live())
    }

    /** The live regions are ordered and lie below the end of the address space. */
    ghost predicate Valid()
      reads this, regions
    {
      n <= regions.Length && Ordered(Live()) && Top() < ADDRESS_LIMIT
    }

    /**
     Dead slots start below the end of the last live region, so that region never abuts
     the dead slot after it. Before the first region is added all slots are zero.
     */
    ghost predicate DeadBelow()
      requires n <= regions.Length
      reads this, regions
    {
      DeadBelowIn(regions[..], n)
    }

    /** What every operation keeps, but for a removal of the end of the list. */
    ghost predicate Tidy()
      reads this, regions
    {
      Valid() && DeadBelow() && Merged(Live())
    }

    /** How far the total size is from the sum of the regions, modulo 2^64. */
    ghost function Drift(): (d: u64)
      requires n <= regions.Length
      reads this, regions
    {
      Wrap(size - Sum(Live()))
    }

    /** Without drift the total size is the sum of the regions. */
    lemma DriftIsZero()
      requires Valid()
      ensures Drift() == 0 <==> size == Sum(Live())
    {
      if Live() != [] {
        SumBound(Live());
      }
    }

    /** The zeroed array. */
    constructor (max: nat)
      ensures Tidy() && Live() == [] && size == 0 && fresh(regions) && regions.Length == max
    {
      regions := new Region[max](_ => Region(0, 0, 0, 0));
      n, size := 0, 0;
    }

    /** Makes room at `i` by moving everything one up, and writes the region there. */
    method InsertRegion(i: nat, r: Region)
      requires i <= n < regions.Length
      modifies this, regions
      ensures n == old(n) + 1 && size == Wrap(old(size) + r.size) && Live() == Insert(old(Live()), i, r)
      ensures forall k :: n <= k < regions.Length ==> regions[k] == old(regions[k])
    {
      ghost var t := Insert(Live(), i, r);
      OpenGap(i, r);
      n := n + 1;
      size := Wrap(size + r.size);
      assert forall k :: 0 <= k < n ==> regions[k] == t[k];
    }

    /** Moves the live regions from `i` on one up and writes the region into the gap. */
    method OpenGap(i: nat, r: Region)
      requires i <= n < regions.Length
      modifies regions
      ensures forall k :: 0 <= k < i ==> regions[k] == old(regions[k])
      ensures regions[i] == r && forall k :: i < k <= n ==> regions[k] == old(regions[k - 1])
      ensures forall k :: n < k < regions.Length ==> regions[k] == old(regions[k])
    {
      forall k | i < k <= n {
        regions[k] := regions[k - 1];
      }
      regions[i] := r;
    }

    /** Moves everything after slot `j` one down; the last slot keeps its contents and is dead. */
    method CloseGap(j: nat)
      requires j < n <= regions.Length
      modifies this`n, regions
      ensures n == old(n) - 1
      ensures forall k :: 0 <= k < n ==> regions[k] == if k < j then old(regions[k]) else old(regions[k + 1])
      ensures forall k :: n <= k < regions.Length ==> regions[k] == old(regions[k])
    {
      forall k | j <= k < n - 1 {
        regions[k] := regions[k + 1];
      }
      n := n - 1;
    }

    /** Adds the size of region `i + 1` to region `i` and closes the gap. */
    method JoinSlots(i: nat)
      requires i + 1 < n <= regions.Length
      modifies this`n, regions
      ensures n == old(n) - 1 && Live() == Joined(old(Live()), i)
      ensures forall k :: n <= k < regions.Length ==> regions[k] == old(regions[k])
    {
      ghost var t := Joined(Live(), i);
      regions[i] := regions[i].(size := regions[i].size + regions[i + 1].size);
      CloseGap(i + 1);
      assert forall k :: 0 <= k < n ==> regions[k] == t[k];
    }

    /** Merging the mergeable live regions `i` and `i + 1`. */
    method MergePair(i: nat)
      requires Valid() && i + 1 < n && Mergeable(regions[i], regions[i + 1])
      modifies this`n, regions
      ensures n == old(n) - 1 > 0 && Valid() && Top() == old(Top())
      ensures Live() == Joined(old(Live()), i)
      ensures SameMap(old(Live()), Live()) && Sum(Live()) == Sum(old(Live()))
      ensures regions[n].base < Top() && forall k :: n <= k < regions.Length ==> regions[k] == old(regions[k])
    {
      hide Ordered, SameMap, Sum;
      MergeAt(Live(), i);
      LastNotEmpty(Live());
      ghost var s := Live();
      JoinSlots(i);
      assert regions[n - 1] == Live()[n - 1];
    }

    /** `Mergeable`, as the code compares it, does not hold with a dead slot below the end of the list. */
    lemma DeadNeverMerges(i: nat)
      requires Valid() && DeadBelow() && i < n && i + 1 < regions.Length && Mergeable(regions[i], regions[i + 1])
      ensures i + 1 < n
    {
    }

    /**
     One comparison of `merge_regions`: merges region `i + 1` into region `i` if they abut
     and agree. Slot `i + 1` may be the first dead slot, or the one behind the array.
     */
    method MergeStep(i: nat) returns (status: Status, merged: bool)
      requires Valid() && i < n
      modifies this`n, regions
      ensures status == if i + 1 == regions.Length then ReadsBehind
                        else if i + 1 == old(n) && Mergeable(old(regions[i]), old(regions[i + 1])) then DeadMatch
                        else Success
      ensures merged <==> i + 1 < old(n) && Mergeable(old(regions[i]), old(regions[i + 1]))
      ensures !merged ==> n == old(n) && regions[..] == old(regions[..])
      ensures merged ==>
        && n == old(n) - 1 > 0 && Live() == Joined(old(Live()), i) && regions[n].base < Top()
        && forall k :: n <= k < regions.Length ==> regions[k] == old(regions[k])
      ensures Valid() && Top() == old(Top())
      ensures SameMap(old(Live()), Live()) && Sum(Live()) == Sum(old(Live()))
    {
      hide Ordered, SameMap, Sum, Joined;
      status, merged := Success, false;
      SameMapReflexive(Live());
      if i + 1 == regions.Length {
        return ReadsBehind, false;
      }
      var curr, next := regions[i], regions[i + 1];
      if curr.base + curr.size != next.base || curr.nid != next.nid || curr.flags != next.flags {
        return;
      }
      if i + 1 == n {
        return DeadMatch, false;
      }
      MergePair(i);
      merged := true;
    }

    /**
     The merging loop before comparing region `i` with the next one, up to region `end`. It
     started with the array `slots`, of which `m` regions were live, and went up to `end0`.
     Unless something was merged, nothing has changed.
     */
    ghost predicate Merging(slots: seq<Region>, m: nat, end0: nat, i: nat, end: nat)
      reads this, regions
    {
      && Valid() && n <= m <= |slots| == regions.Length && Top() == TopOf(slots[..m])
      && i <= end <= n && n - end == m - end0
      && SameMap(slots[..m], Live()) && Sum(Live()) == Sum(slots[..m]) && MergedOutside(Live(), i + 1, end)
      && (n == m ==> regions[..] == slots && (i == n > 0 ==> MergeEnd(slots, m, end0) == Success))
      && (n < m ==> n > 0 && !Merged(slots[..m]))
      && (forall k :: n <= k < m ==> regions[k].base < Top())
      && (forall k :: m <= k < regions.Length ==> regions[k] == slots[k])
    }

    /** One round of the merging loop. */
    method MergeNext(i: nat, end: nat, ghost slots: seq<Region>, ghost m: nat, ghost end0: nat)
      returns (status: Status, merged: bool)
      requires Merging(slots, m, end0, i, end) && i < end
      modifies this`n, regions
      ensures status == Success ==>
        if merged then Merging(slots, m, end0, i, end - 1) else Merging(slots, m, end0, i + 1, end)
      ensures status != Success ==> status == MergeEnd(slots, m, end0) && n == m && regions[..] == slots
    {
      hide Ordered, SameMap, Sum, Merged, MergedOutside, Joined;
      ghost var before := Live();
      ghost var was := n;
      assert n == m ==> before == slots[..m];
      if i + 1 == n {
        LoopEnd(slots, m, end0, i, end);
      }
      status, merged := MergeStep(i);
      SameMapTransitive(slots[..m], before, Live());
      if merged {
        MergedAfterMerge(before, i, end);
        NotMerged(before, i);
      } else if status == Success {
        assert Live() == before;
        MergedNext(Live(), i, end);
      }
    }

    /** What the last comparison of the loop finds. */
    lemma LoopEnd(slots: seq<Region>, m: nat, end0: nat, i: nat, end: nat)
      requires Merging(slots, m, end0, i, end) && i < end && i + 1 == n
      ensures end0 == m && (n < m ==> n < regions.Length && !Mergeable(regions[i], regions[n]))
      ensures n == m ==> MergeEnd(slots, m, end0) == if n == regions.Length then ReadsBehind
                                                     else if Mergeable(regions[i], regions[n]) then DeadMatch
                                                     else Success
    {
      if n == m {
        assert regions[..][..m] == Live();
        AllMerged(Live(), i, end);
      }
    }

    /**
     Merges the regions from `start - 1` to `end`. Comparing only these suffices when no
     two other neighbours can be merged. Up to the end of the list, and with nothing to
     merge, the comparisons go beyond it; that is when a dead slot can match.
     */
    method MergeRegions(start: nat, end: nat) returns (status: Status)
      requires Valid() && start <= end <= n && MergedOutside(Live(), start, end)
      modifies this`n, regions
      ensures status == MergeEnd(old(regions[..]), old(n), end)
      ensures status == Success ==>
        && Valid() && Merged(Live()) && Top() == old(Top()) && n <= old(n) && (old(DeadBelow()) ==> DeadBelow())
        && SameMap(old(Live()), Live()) && Sum(Live()) == Sum(old(Live()))
      ensures status != Success ==> n == old(n) && regions[..] == old(regions[..])
    {
      hide Ordered, SameMap, Sum, MergedOutside, Merged, MemBlock.Merging;
      MergeStart(start, end);
      ghost var slots, m := regions[..], n;
      var i, endRegion := start, end;
      if i != 0 {
        i := i - 1;
      }
      while i < endRegion
        invariant 0 <= i <= endRegion <= end && Merging(slots, m, end, i, endRegion)
        decreases endRegion - i
      {
        var merged;
        status, merged := MergeNext(i, endRegion, slots, m, end);
        if status != Success {
          return;
        }
        if merged {
          endRegion := endRegion - 1;
        } else {
          i := i + 1;
        }
      }
      MergeDone(slots, m, end, i);
      status := Success;
    }

    lemma MergeStart(start: nat, end: nat)
      requires Valid() && start <= end <= n && MergedOutside(Live(), start, end)
      ensures Merging(regions[..], n, end, if start == 0 then 0 else start - 1, end)
    {
      assert regions[..][..n] == Live();
      SameMapReflexive(Live());
      MergedStart(Live(), start, end);
    }

    lemma MergeDone(slots: seq<Region>, m: nat, end0: nat, i: nat)
      requires Merging(slots, m, end0, i, i)
      ensures Valid() && Merged(Live()) && Top() == TopOf(slots[..m]) && n <= m <= |slots|
      ensures SameMap(slots[..m], Live()) && Sum(Live()) == Sum(slots[..m]) && MergeEnd(slots, m, end0) == Success
      ensures DeadBelowIn(slots, m) ==> DeadBelow()
    {
      MergedEnd(Live(), i);
    }

    /** Splits live region `i` at address `a`: the low part stays at `i`. */
    method SplitRegion(i: nat, a: nat)
      requires Valid() && i < n < regions.Length && regions[i].base < a < End(regions[i])
      modifies this, regions
      ensures n == old(n) + 1 && Valid() && Top() == old(Top()) && size == old(size)
      ensures Live() == SplitList(old(Live()), i, a)
      ensures forall k :: n <= k < regions.Length ==> regions[k] == old(regions[k])
      ensures SameMap(old(Live()), Live()) && Sum(Live()) == Sum(old(Live()))
    {
      hide Ordered, SameMap, Sum;
      SplitAt(Live(), i, a);
      var r := regions[i];
      regions[i] := r.(base := a, size := r.size - (a - r.base));
      size := Wrap(size - (a - r.base));
      WrapBack(old(size), a - r.base);
      InsertRegion(i, r.(size := a - r.base));
      assert Live() == SplitList(old(Live()), i, a);
    }

    /** The invariant of the isolating scan: what it started with, where it is, and what was split. */
    ghost predicate Isolating(f: Frame, c: Cursor, x: Splits)
      reads this, regions
    {
      && Valid() && Top() == TopOf(f.s) && size == f.size && |f.slots| == regions.Length
      && n == |f.s| + (if x.low then 1 else 0) + (if x.high then 1 else 0)
      && SameMap(f.s, Live()) && Sum(Live()) == Sum(f.s)
      && Scan(Live(), c.i, f.base, f.last, c.start, c.end, x.low, x.high) && CutsOnly(Live(), f.base, f.last)
      && forall k :: n <= k < regions.Length ==> regions[k] == f.slots[k]
    }

    /** Splitting region `i` at `a` while isolating a range. */
    method IsolateSplit(i: nat, a: nat, ghost s: seq<Region>)
      requires Valid() && i < n < regions.Length && regions[i].base < a < End(regions[i])
      requires SameMap(s, Live()) && Sum(Live()) == Sum(s)
      modifies this, regions
      ensures Valid() && Top() == old(Top()) && size == old(size) && n == old(n) + 1
      ensures Live() == SplitList(old(Live()), i, a)
      ensures SameMap(s, Live()) && Sum(Live()) == Sum(s)
      ensures forall k :: n <= k < regions.Length ==> regions[k] == old(regions[k])
    {
      hide Ordered, SameMap, Sum;
      SplitRegion(i, a);
      SameMapTransitive(s, old(Live()), Live());
    }

    /** The region overlaps the start of the range: its part below is split off. */
    method IsolateLow(c: Cursor, base: nat, ghost f: Frame, ghost x: Splits)
      requires Isolating(f, c, x) && c.i < n && |f.s| + 2 <= regions.Length && base == f.base
      requires regions[c.i].base < base < End(regions[c.i])
      modifies this, regions
      ensures !x.low && Isolating(f, c.(i := c.i + 1), x.(low := true))
    {
      hide Ordered, SameMap, Sum, Scan, CutsOnly, SplitList;
      ScanLow(Live(), c.i, f.base, f.last, c.start, c.end, x.low, x.high);
      SplitCuts(Live(), c.i, base, f.base, f.last);
      IsolateSplit(c.i, base, f.s);
    }

    /** The region overlaps the end of the range: its part above is split off. */
    method IsolateHigh(c: Cursor, last: nat, ghost f: Frame, ghost x: Splits)
      requires Isolating(f, c, x) && c.i < n && |f.s| + 2 <= regions.Length && last == f.last
      requires f.base <= regions[c.i].base < last < End(regions[c.i])
      modifies this, regions
      ensures !x.high && Isolating(f, c, x.(high := true))
    {
      hide Ordered, SameMap, Sum, Scan, CutsOnly, SplitList;
      ScanHigh(Live(), c.i, f.base, f.last, c.start, c.end, x.low, x.high);
      SplitCuts(Live(), c.i, last, f.base, f.last);
      IsolateSplit(c.i, last, f.s);
    }

    /** The region is not split: it ends before the range, or lies inside it. */
    lemma IsolatePass(f: Frame, c: Cursor, x: Splits)
      requires Isolating(f, c, x) && c.i < n
      requires End(regions[c.i]) <= f.base || Inside(regions[c.i], f.base, f.last)
      ensures End(regions[c.i]) <= f.base ==> Isolating(f, c.(i := c.i + 1), x)
      ensures End(regions[c.i]) > f.base ==>
        Isolating(f, Cursor(c.i + 1, if c.end == 0 then c.i else c.start, c.i + 1), x)
    {
      hide Ordered, SameMap, Sum, Scan, CutsOnly;
      if End(regions[c.i]) <= f.base {
        ScanSkip(Live(), c.i, f.base, f.last, c.start, c.end, x.low, x.high);
      } else {
        ScanInside(Live(), c.i, f.base, f.last, c.start, c.end, x.low, x.high);
      }
    }

    /** One region of the isolating scan; `more` is false when the scan is over. */
    method IsolateStep(c: Cursor, base: nat, last: nat, ghost f: Frame, ghost x: Splits)
      returns (more: bool, d: Cursor, ghost y: Splits)
      requires c.i < n <= regions.Length && Isolating(f, c, x) && base == f.base && last == f.last
      requires base < last && |f.s| + 2 <= regions.Length
      modifies this, regions
      ensures Isolating(f, d, y)
      ensures !more ==> d.i < n <= regions.Length && regions[d.i].base >= last
      ensures more ==>
        || (!x.low && y == x.(low := true)) || (!x.high && y == x.(high := true))
        || (y == x && n == old(n) && d.i == c.i + 1)
    {
      hide MemBlock.Isolating;
      more, d, y := true, c, x;
      var r := regions[c.i];
      if r.base >= last {
        more := false;
        return;
      }
      if r.base + r.size <= base {
        IsolatePass(f, c, x);
        d := c.(i := c.i + 1);
      } else if r.base < base {
        IsolateLow(c, base, f, x);
        d, y := c.(i := c.i + 1), x.(low := true);
      } else if r.base + r.size > last {
        IsolateHigh(c, last, f, x);
        y := x.(high := true);
      } else {
        IsolatePass(f, c, x);
        d := Cursor(c.i + 1, if c.end == 0 then c.i else c.start, c.i + 1);
      }
    }

    /**
     Splits the regions at the two ends of the range, so that every region lies inside it
     or apart from it, and returns which lie inside. The map and the dead slots do not
     change. When the last region lies inside there is still a slot behind it.
     */
    method IsolateRange(base: nat, length: nat) returns (status: Status, start: nat, end: nat)
      requires Valid() && Merged(Live()) && base + length < ADDRESS_LIMIT
      modifies this, regions
      ensures status == if length > 0 && old(n) + 2 > regions.Length then NoSpace else Success
      ensures status == NoSpace || length == 0 ==> n == old(n) && regions[..] == old(regions[..]) && start == end == 0
      ensures Valid() && (old(DeadBelow()) ==> DeadBelow()) && Top() == old(Top()) && size == old(size)
      ensures old(n) <= n <= old(n) + 2
      ensures forall k :: n <= k < regions.Length ==> regions[k] == old(regions[k])
      ensures SameMap(old(Live()), Live()) && Sum(Live()) == Sum(old(Live()))
      ensures start <= end <= n && (end > 0 ==> end < regions.Length)
      ensures status == Success && length > 0 ==>
        Isolated(Live(), base, base + length, start, end) && CutsOnly(Live(), base, base + length)
    {
      hide Ordered, Sum, Merged;
      start, end := 0, 0;
      SameMapReflexive(Live());
      if length == 0 {
        return Success, 0, 0;
      }
      if n + 2 > regions.Length {
        return NoSpace, 0, 0;
      }
      status := Success;
      start, end := IsolateScan(base, base + length);
    }

    /** Before the first region. */
    lemma IsolateStart(base: nat, last: nat)
      requires Valid() && Merged(Live())
      ensures Isolating(Frame(Live(), regions[..], size, base, last), Cursor(0, 0, 0), Splits(false, false))
    {
      SameMapReflexive(Live());
    }

    /** The scan of `isolate_range` over all regions. */
    method IsolateScan(base: nat, last: nat) returns (start: nat, end: nat)
      requires Valid() && Merged(Live()) && base < last && n + 2 <= regions.Length
      modifies this, regions
      ensures Valid() && (old(DeadBelow()) ==> DeadBelow()) && Top() == old(Top()) && size == old(size)
      ensures old(n) <= n <= old(n) + 2
      ensures forall k :: n <= k < regions.Length ==> regions[k] == old(regions[k])
      ensures SameMap(old(Live()), Live()) && Sum(Live()) == Sum(old(Live()))
      ensures start <= end <= n && (end > 0 ==> end < regions.Length)
      ensures Isolated(Live(), base, last, start, end) && CutsOnly(Live(), base, last)
    {
      hide Ordered, SameMap, Sum, CutsOnly, MemBlock.Isolating;
      ghost var f, x := Frame(Live(), regions[..], size, base, last), Splits(false, false);
      var c, more := Cursor(0, 0, 0), true;
      IsolateStart(base, last);
      while more && c.i < n
        invariant n <= regions.Length && Isolating(f, c, x)
        invariant !more ==> c.i < n && regions[c.i].base >= last
        decreases more, !x.low, !x.high, n - c.i
      {
        more, c, x := IsolateStep(c, base, last, f, x);
        IsolatingBounds(f, c, x);
      }
      start, end := c.start, c.end;
      IsolateEnd(f, c, x);
    }

    lemma IsolatingBounds(f: Frame, c: Cursor, x: Splits)
      requires Isolating(f, c, x)
      ensures n <= regions.Length
    {
    }

    lemma IsolateEnd(f: Frame, c: Cursor, x: Splits)
      requires Isolating(f, c, x) && f.base < f.last && |f.s| + 2 <= regions.Length && f.s == f.slots[..|f.s|]
      requires n <= regions.Length && (c.i < n ==> regions[c.i].base >= f.last)
      ensures Valid() && (DeadBelowIn(f.slots, |f.s|) ==> DeadBelow()) && Top() == TopOf(f.s) && size == f.size
      ensures |f.s| <= n <= |f.s| + 2 && forall k :: n <= k < regions.Length ==> regions[k] == f.slots[k]
      ensures SameMap(f.s, Live()) && Sum(Live()) == Sum(f.s)
      ensures c.start <= c.end <= n && (c.end > 0 ==> c.end < regions.Length)
      ensures Isolated(Live(), f.base, f.last, c.start, c.end) && CutsOnly(Live(), f.base, f.last)
    {
      hide SameMap, Sum, CutsOnly;
      ScanEnd(Live(), c.i, f.base, f.last, c.start, c.end, x.low, x.high);
    }

    /** The isolated regions as a range's change finds them. */
    ghost predicate Ready(s: seq<Region>, base: nat, length: nat, start: nat, end: nat) {
      && Ordered(s) && start <= end <= |s| && (end > 0 ==> end < regions.Length)
      && if length == 0 then start == end == 0 && Merged(s)
         else Isolated(s, base, base + length, start, end) && CutsOnly(s, base, base + length)
    }

    /** Changing isolated regions updates the map and leaves little to merge. */
    lemma ChangeReady(s: seq<Region>, base: nat, length: nat, start: nat, end: nat, c: Change)
      requires Ready(s, base, length, start, end)
      ensures var t := ChangeList(s, start, end, c);
              && Ordered(t) && Sum(t) == Sum(s) && MergedOutside(t, start, end)
              && Updated(s, t, base, base + length, c)
    {
      hide SameMap, Sum, Changed, Apply;
      var t := ChangeList(s, start, end, c);
      ChangeKeepsShape(s, start, end, c);
      if length == 0 {
        assert t == s;
      } else {
        ChangeIsUpdate(s, base, base + length, start, end, c);
        forall k | 0 <= k < |t| - 1 && (k + 1 < start || end <= k) ensures !Mergeable(t[k], t[k + 1]) {
          ChangeKeepsMerged(s, base, base + length, start, end, c, k);
        }
      }
    }

    /** After isolating and changing: merging makes it the updated map in normal form. */
    method MergeChanged(base: nat, length: nat, start: nat, end: nat, ghost s0: seq<Region>, ghost s: seq<Region>,
                        ghost c: Change)
      returns (status: Status)
      requires n == |s| <= regions.Length && Ready(s, base, length, start, end)
      requires Live() == ChangeList(s, start, end, c) && Top() < ADDRESS_LIMIT
      requires SameMap(s0, s) && Sum(s) == Sum(s0)
      modifies this`n, regions
      ensures status == MergeEnd(old(regions[..]), old(n), end)
      ensures status == Success ==>
        && Valid() && Merged(Live()) && (old(DeadBelow()) ==> DeadBelow()) && Top() == old(Top())
        && Sum(Live()) == Sum(s0) && n <= old(n) && Updated(s0, Live(), base, base + length, c)
    {
      hide Ordered, SameMap, Sum, CutsOnly, Updated, Changed, Merged, MergedOutside, Isolated, MergeEnd, DeadBelowIn;
      ghost var t := Live();
      assert Valid() by {
        ChangeReady(s, base, length, start, end, c);
      }
      ChangeReady(s, base, length, start, end, c);
      status := MergeRegions(start, end);
      if status == Success {
        UpdatedSame(s0, s, t, Live(), base, base + length, c);
      }
    }

    /** Sets or clears the flags of the live regions `start` to `end - 1`. */
    method ChangeFlags(start: nat, end: nat, on: bool, flags: bv32)
      requires start <= end <= n <= regions.Length
      modifies regions
      ensures Live() == ChangeList(old(Live()), start, end, if on then SetFlags(flags) else ClearFlags(flags))
      ensures Top() == old(Top()) && forall k :: n <= k < regions.Length ==> regions[k] == old(regions[k])
    {
      hide Changed;
      ghost var c := if on then SetFlags(flags) else ClearFlags(flags);
      for i := start to end
        invariant forall k :: 0 <= k < regions.Length ==>
          regions[k] == if start <= k < i then Changed(c, old(regions[k])) else old(regions[k])
      {
        regions[i] := FlagsChanged(regions[i], on, flags);
      }
    }

    static function FlagsChanged(r: Region, on: bool, flags: bv32): (q: Region)
      ensures q == Changed(if on then SetFlags(flags) else ClearFlags(flags), r)
    {
      if on then r.(flags := r.flags | flags) else r.(flags := r.flags & !flags)
    }

    /** Sets the node of the live regions `start` to `end - 1`. */
    method ChangeNode(start: nat, end: nat, nid: int)
      requires start <= end <= n <= regions.Length
      modifies regions
      ensures Live() == ChangeList(old(Live()), start, end, SetNode(nid))
      ensures Top() == old(Top()) && forall k :: n <= k < regions.Length ==> regions[k] == old(regions[k])
    {
      for i := start to end
        invariant forall k :: 0 <= k < regions.Length ==>
          regions[k] == if start <= k < i then Changed(SetNode(nid), old(regions[k])) else old(regions[k])
      {
        regions[i] := regions[i].(nid := nid);
      }
    }

    /**
     Sets or clears flags on all mapped addresses of a range; when the array is too full to
     split regions it changes nothing. The outcome is that of `ChangeOutcome`.
     */
    method SetClrFlag(base: nat, length: nat, on: bool, flags: bv32) returns (status: Status)
      requires Valid() && Merged(Live()) && base + length < ADDRESS_LIMIT
      modifies this, regions
      ensures status == ChangeOutcome(old(regions[..]), old(n), base, length, ChangeOf(on, flags))
      ensures old(DeadBelow()) ==> status != DeadMatch
      ensures status == NoSpace ==> n == old(n) && regions[..] == old(regions[..]) && size == old(size)
      ensures status != DeadMatch ==>
        && Valid() && Merged(Live()) && (old(DeadBelow()) ==> DeadBelow()) && Top() == old(Top()) && n <= old(n) + 2
        && size == old(size) && Sum(Live()) == Sum(old(Live()))
      ensures status == Success ==>
        Updated(old(Live()), Live(), base, base + length, ChangeOf(on, flags))
    {
      hide Ordered, SameMap, Sum, CutsOnly, Updated, Changed, Isolated, Merged, DeadBelowIn, ChangeOutcome, MergeEnd,
           TopOf;
      var start, end;
      status, start, end := IsolateRange(base, length);
      assert old(regions[..])[..old(n)] == old(Live());
      OutcomeNoSpace(old(regions[..]), old(n), base, length, ChangeOf(on, flags));
      if status == NoSpace {
        assert Live() == regions[..][..n];
        return;
      }
      ghost var s := Live();
      ChangeFlags(start, end, on, flags);
      ghost var slots := regions[..];
      assert slots[..n] == Live();
      ChangeKeepsShape(s, start, end, ChangeOf(on, flags));
      DeadStay(old(regions[..]), old(n), slots, n);
      NoDeadMatchIf(slots, n, end);
      status := MergeChanged(base, length, start, end, old(Live()), s, ChangeOf(on, flags));
      OutcomeOf(old(regions[..]), old(n), slots, s, base, length, start, end, ChangeOf(on, flags));
    }

    /**
     Sets the node of all mapped addresses of a range; when the array is too full to split
     regions it changes nothing. The outcome is that of `ChangeOutcome`.
     */
    method SetNodeRange(base: nat, length: nat, nid: int) returns (status: Status)
      requires Valid() && Merged(Live()) && base + length < ADDRESS_LIMIT
      modifies this, regions
      ensures status == ChangeOutcome(old(regions[..]), old(n), base, length, SetNode(nid))
      ensures old(DeadBelow()) ==> status != DeadMatch
      ensures status == NoSpace ==> n == old(n) && regions[..] == old(regions[..]) && size == old(size)
      ensures status != DeadMatch ==>
        && Valid() && Merged(Live()) && (old(DeadBelow()) ==> DeadBelow()) && Top() == old(Top()) && n <= old(n) + 2
        && size == old(size) && Sum(Live()) == Sum(old(Live()))
      ensures status == Success ==> Updated(old(Live()), Live(), base, base + length, SetNode(nid))
    {
      hide Ordered, SameMap, Sum, CutsOnly, Updated, Changed, Isolated, Merged, DeadBelowIn, ChangeOutcome, MergeEnd,
           TopOf;
      var start, end;
      status, start, end := IsolateRange(base, length);
      assert old(regions[..])[..old(n)] == old(Live());
      OutcomeNoSpace(old(regions[..]), old(n), base, length, SetNode(nid));
      if status == NoSpace {
        assert Live() == regions[..][..n];
        return;
      }
      ghost var s := Live();
      ChangeNode(start, end, nid);
      ghost var slots := regions[..];
      assert slots[..n] == Live();
      ChangeKeepsShape(s, start, end, SetNode(nid));
      DeadStay(old(regions[..]), old(n), slots, n);
      NoDeadMatchIf(slots, n, end);
      status := MergeChanged(base, length, start, end, old(Live()), s, SetNode(nid));
      OutcomeOf(old(regions[..]), old(n), slots, s, base, length, start, end, SetNode(nid));
    }

    /** Free slots enough for one region per gap, and one to look at behind a new last region. */
    ghost predicate RoomFor(base: nat, length: nat)
      requires n <= regions.Length
      reads this, regions
    {
      length > 0 ==>
        n + Gaps(Live(), base, base + length) + (if n > 0 && Top() < base + length then 1 else 0) <= regions.Length
    }

    /** What the filling scan keeps: it started as `f` says and is at `c`. */
    ghost predicate Adding(f: AddFrame, c: AddCursor)
      reads this, regions
    {
      && Valid() && Drift() == f.drift && 0 < n && Top() == TopOf(f.s) && FrameOk(f, regions.Length)
      && Filling(f.s, Live(), c.i, f.base, c.b, f.last, f.attr) && FillsTo(f.u, Live(), c.i, c.b, f.last, f.attr)
      && (c.start == -1 ==> Merged(Live()))
      && (c.start != -1 ==> 0 <= c.start < c.end <= c.i && c.end < n && MergedOutside(Live(), c.start, c.end))
      && forall k :: n <= k < regions.Length ==> regions[k] == f.slots[k]
    }

    /** Inserts a region into a gap of the range. */
    method InsertPiece(i: nat, b: nat, e: nat, attr: Attr, ghost top: nat)
      requires Valid() && i <= n < regions.Length && b < e < ADDRESS_LIMIT
      requires top == if i == n then e else Top()
      requires Ordered(Insert(Live(), i, Piece(b, e, attr)))
      requires Sum(Insert(Live(), i, Piece(b, e, attr))) == Sum(Live()) + (e - b)
      modifies this, regions
      ensures n == old(n) + 1 && Live() == Insert(old(Live()), i, Piece(b, e, attr))
      ensures Valid() && Top() == top && Drift() == old(Drift())
      ensures forall k :: n <= k < regions.Length ==> regions[k] == old(regions[k])
    {
      hide Ordered, Sum, Wrap;
      InsertedTop(Live(), i, Piece(b, e, attr));
      WrapDifference(size, Sum(Live()), e - b);
      InsertRegion(i, Piece(b, e, attr));
      assert regions[n - 1] == Live()[n - 1];
    }

    /** A gap before region `i`: a new region fills it. */
    method AddBefore(c: AddCursor, last: nat, attr: Attr, ghost f: AddFrame) returns (status: Status, d: AddCursor)
      requires Adding(f, c) && c.i < n && last == f.last < ADDRESS_LIMIT && attr == f.attr
      requires c.b < regions[c.i].base < last
      modifies this, regions
      ensures status == Success || (status == Halts && |f.u| > regions.Length)
      ensures status == Success ==>
        Adding(f, d) && d.i == c.i + 1 && d.b == Min(End(old(regions[c.i])), last) > c.b
    {
      hide Ordered, Sum, Filled, Merged, MergedOutside, Gaps, FillsTo;
      status, d := Success, c;
      ghost var s := Live();
      ghost var r := Piece(c.b, regions[c.i].base, attr);
      NotEmptyAt(s, c.i);
      FillsBefore(f.u, s, c.i, c.b, last, attr);
      if n == regions.Length {
        return Halts, c;
      }
      FillBefore(f.s, s, c.i, f.base, c.b, last, attr);
      InsertedMerged(s, c, r);
      var b' := Min(regions[c.i].base + regions[c.i].size, last);
      InsertPiece(c.i, c.b, regions[c.i].base, attr, Top());
      d := AddCursor(c.i + 1, b', if c.start == -1 then c.i else c.start, c.i + 1);
    }

    /** One region of the filling scan. */
    method AddStep(c: AddCursor, last: nat, attr: Attr, ghost f: AddFrame) returns (status: Status, d: AddCursor)
      requires Adding(f, c) && c.i < n && last == f.last < ADDRESS_LIMIT && attr == f.attr && regions[c.i].base < last
      modifies this, regions
      ensures status == Success || (status == Halts && |f.u| > regions.Length)
      ensures status == Success ==>
        Adding(f, d) && d.i == c.i + 1 && d.b <= last && (d.b > c.b || (d.b == c.b && n == old(n)))
    {
      hide Ordered, Sum, Filled, Merged, MergedOutside, Gaps, FillsTo;
      status, d := Success, c;
      var r := regions[c.i];
      if r.base + r.size <= c.b {
        FillSkip(f.s, Live(), c.i, f.base, c.b, last, attr);
        FillsSkip(f.u, Live(), c.i, c.b, last, attr);
        d := c.(i := c.i + 1);
      } else if r.base > c.b {
        status, d := AddBefore(c, last, attr, f);
      } else {
        FillPass(f.s, Live(), c.i, f.base, c.b, last, attr);
        FillsPass(f.u, Live(), c.i, c.b, last, attr);
        d := c.(i := c.i + 1, b := Min(r.base + r.size, last));
      }
    }

    /** The part of the range left after the scan. */
    method AddRest(c: AddCursor, last: nat, attr: Attr, ghost f: AddFrame)
      returns (status: Status, start: int, end: nat)
      requires Adding(f, c) && c.i <= n && last == f.last < ADDRESS_LIMIT && attr == f.attr
      requires c.b < last && (c.i < n ==> regions[c.i].base >= last)
      modifies this, regions
      ensures status == if |f.u| > regions.Length then Halts else Success
      ensures status == Success ==>
        AllFilled(f, start, end)
    {
      hide Ordered, Sum, Filled, Merged, MergedOutside, FillsTo;
      status, start, end := Success, c.start, c.end;
      ghost var s := Live();
      FillsEnd(f.u, s, c.i, c.b, last, attr);
      if n == regions.Length {
        return Halts, start, end;
      }
      LastBelow(f, c);
      FillGap(f.s, s, c.i, f.base, c.b, last, last, attr);
      InsertedMerged(s, c, Piece(c.b, last, attr));
      InsertPiece(c.i, c.b, last, attr, if c.i == n then last else Top());
      start := if c.start == -1 then c.i else c.start;
      end := c.i + 1;
    }

    /** The scan reaches the end of the list just when the range goes beyond it. */
    lemma LastBelow(f: AddFrame, c: AddCursor)
      requires Adding(f, c) && c.b < f.last && (c.i < n ==> regions[c.i].base >= f.last)
      ensures c.i == n <==> Top() < f.last
    {
      assert Live()[n - 1].size > 0;
      assert c.i < n - 1 ==> End(Live()[c.i]) <= Live()[n - 1].base;
    }

    /** All gaps are filled; the regions from `start` to `end` are new or between new ones. */
    ghost predicate AllFilled(f: AddFrame, start: int, end: nat)
      reads this, regions
    {
      && Valid() && Drift() == f.drift && Live() == f.u && n == |f.u| && FrameOk(f, regions.Length)
      && Top() == (if TopOf(f.s) < f.last then f.last else TopOf(f.s)) && Filled(f.s, Live(), f.base, f.last, f.attr)
      && (start == -1 ==> Merged(Live()))
      && (start == -1 ==> TopOf(f.s) >= f.last)
      && (start != -1 ==>
            0 <= start < end <= n && (end == n <==> TopOf(f.s) < f.last) && MergedOutside(Live(), start, end))
      && forall k :: n <= k < regions.Length ==> regions[k] == f.slots[k]
    }

    /** The first region of an empty map. */
    method AddFirst(base: nat, length: nat, attr: Attr)
      requires Valid() && n == 0 < regions.Length && length > 0 && base + length < ADDRESS_LIMIT
      modifies this, regions
      ensures Valid() && Live() == [Piece(base, base + length, attr)] && Drift() == 0 && Top() == base + length
      ensures Merged(Live()) && (old(DeadBelow()) ==> DeadBelow())
      ensures Filled([], Live(), base, base + length, attr)
    {
      hide DeadBelowIn;
      ghost var slots := regions[..];
      regions[0] := Region(base, length, attr.nid, attr.flags);
      n, size := 1, length;
      assert Live() == [Piece(base, base + length, attr)];
      assert Live()[1..] == [] && regions[..][..1] == Live();
      assert Sum(Live()) == length && size - Sum(Live()) == 0;
      DeadStay(slots, 0, regions[..], 1);
    }

    /** The loop of `add_range` over the regions that start below the end of the range. */
    method AddScan(base: nat, last: nat, attr: Attr, ghost f: AddFrame) returns (status: Status, c: AddCursor)
      requires Valid() && Merged(Live()) && 0 < n && base < last < ADDRESS_LIMIT && f == FrameFor(base, last, attr)
      modifies this, regions
      ensures status == Success || (status == Halts && |f.u| > regions.Length)
      ensures status == Success ==> Adding(f, c) && c.b <= last && (c.i < n ==> regions[c.i].base >= last)
    {
      hide MemBlock.Adding, Ordered, Sum, Merged, Gaps, FillList, MemBlock.FrameFor;
      status, c := Success, AddCursor(0, base, -1, 0);
      AddStart(base, last, attr);
      AddingBounds(f, c);
      while c.i < n && regions[c.i].base < last
        invariant status == Success && Adding(f, c) && c.b <= last && c.i <= n <= regions.Length
        decreases last - c.b, n - c.i
      {
        status, c := AddStep(c, last, attr, f);
        if status != Success {
          return;
        }
        AddingBounds(f, c);
      }
    }

    ghost function FrameFor(base: nat, last: nat, attr: Attr): (f: AddFrame)
      requires n <= regions.Length
      reads this, regions
    {
      AddFrame(FillList(Live(), base, last, attr), Live(), regions[..], base, last, attr, Drift())
    }

    lemma AddStart(base: nat, last: nat, attr: Attr)
      requires Valid() && Merged(Live()) && 0 < n && base < last
      ensures Adding(FrameFor(base, last, attr), AddCursor(0, base, -1, 0))
      ensures FrameFor(base, last, attr).last == last && FrameFor(base, last, attr).attr == attr
    {
      assert Live()[0..] == Live() && Live()[..0] == [];
    }

    lemma AddingBounds(f: AddFrame, c: AddCursor)
      requires Adding(f, c)
      ensures c.i <= n <= regions.Length == |f.slots|
    {
    }

    /** With nothing left to fill the list is complete, and the range ends at or below its end. */
    lemma NothingLeft(f: AddFrame, c: AddCursor)
      requires Adding(f, c) && c.b == f.last > f.base && (c.i < n ==> regions[c.i].base >= f.last)
      ensures AllFilled(f, c.start, c.end)
    {
      hide Sum, Merged, MergedOutside;
      FillsEnd(f.u, Live(), c.i, c.b, f.last, f.attr);
      FilledTop(f.s, Live(), f.base, f.last, f.attr);
    }

    /** The code after the loop: the rest of the range, then merging. */
    method AddFinish(c: AddCursor, last: nat, attr: Attr, ghost f: AddFrame) returns (status: Status)
      requires Adding(f, c) && f.base < last == f.last < ADDRESS_LIMIT && attr == f.attr && c.b <= last
      requires c.i < n ==> regions[c.i].base >= last
      modifies this, regions
      ensures status == FillOutcome(f.u, f.slots, TopOf(f.s) < last)
      ensures |f.s| <= |f.slots| && DeadBelowIn(f.slots, |f.s|) ==> status != DeadMatch
      ensures status == Success ==> Added(f)
    {
      hide Ordered, Sum, Merged, MergedOutside, Filled, FillsTo, FillOutcome, DeadBelowIn, MemBlock.Adding,
           MemBlock.AllFilled, MemBlock.Added;
      var start, end;
      AddingBounds(f, c);
      if c.b < last {
        status, start, end := AddRest(c, last, attr, f);
        if status != Success {
          HaltsFull(f.u, f.slots, TopOf(f.s) < last);
          return;
        }
      } else {
        NothingLeft(f, c);
        start, end := c.start, c.end;
      }
      if start != -1 {
        status := MergeAdded(start, end, f);
      } else {
        status := Success;
        NothingAdded(f, end);
      }
    }

    /** The range is filled, in normal form. */
    ghost predicate Added(f: AddFrame)
      reads this, regions
    {
      && Valid() && Merged(Live()) && Drift() == f.drift && Filled(f.s, Live(), f.base, f.last, f.attr) && n <= |f.u|
      && Top() == (if TopOf(f.s) < f.last then f.last else TopOf(f.s))
      && |f.s| <= |f.slots| && (DeadBelowIn(f.slots, |f.s|) ==> DeadBelow())
    }

    lemma NothingAdded(f: AddFrame, end: nat)
      requires AllFilled(f, -1, end)
      ensures Added(f) && FillOutcome(f.u, f.slots, TopOf(f.s) < f.last) == Success
    {
      hide Filled, Sum, Merged;
      assert regions[..][..n] == Live();
      DeadStay(f.slots, |f.s|, regions[..], n);
    }

    /** Merging after the filling scan. */
    method MergeAdded(start: int, end: nat, ghost f: AddFrame) returns (status: Status)
      requires start != -1 && AllFilled(f, start, end)
      modifies this`n, regions
      ensures status == FillOutcome(f.u, f.slots, TopOf(f.s) < f.last)
      ensures DeadBelowIn(f.slots, |f.s|) ==> status != DeadMatch
      ensures status == Success ==> Added(f)
    {
      hide Ordered, Sum, Merged, MergedOutside, Filled, SameMap, DeadBelowIn, MergeEnd, FillOutcome;
      ghost var s, slots := Live(), regions[..];
      assert slots[..n] == s;
      DeadStay(f.slots, |f.s|, slots, n);
      MergeIsFill(f, slots, end);
      NoDeadMatchIf(slots, n, end);
      status := MergeRegions(start, end);
      if status == Success {
        FilledSame(f.s, s, Live(), f.base, f.last, f.attr);
      }
    }

    /**
     Maps the unmapped addresses of a range, region by region of the existing map, and
     leaves the mapped ones alone. The outcome is that of `AddOutcome`.
     */
    method AddRange(base: nat, length: nat, nid: int, flags: bv32) returns (status: Status)
      requires Valid() && Merged(Live()) && base + length < ADDRESS_LIMIT
      modifies this, regions
      ensures status == AddOutcome(old(regions[..]), old(n), base, length, Attr(nid, flags))
      ensures old(DeadBelow()) ==> status != DeadMatch
      ensures status == Success ==>
        && Valid() && Merged(Live()) && (old(DeadBelow()) ==> DeadBelow())
        && Filled(old(Live()), Live(), base, base + length, Attr(nid, flags))
        && Top() == (if length > 0 && base + length > old(Top()) then base + length else old(Top()))
        && n <= old(n) + Gaps(old(Live()), base, base + length)
        && Drift() == if old(n) == 0 && length > 0 then 0 else old(Drift())
    {
      hide Ordered, Sum, Merged, Filled, FillList, Gaps, FillOutcome, DeadBelowIn, MemBlock.Adding;
      status := Success;
      assert regions[..][..n] == Live();
      if length == 0 {
        NothingFilled(Live(), base, Attr(nid, flags));
        return;
      }
      var last, attr := base + length, Attr(nid, flags);
      if n == 0 {
        if regions.Length == 0 {
          return ReadsBehind;
        }
        AddFirst(base, length, attr);
        OneGap(base, last);
        return;
      }
      ghost var f := FrameFor(base, last, attr);
      var c;
      status, c := AddScan(base, last, attr, f);
      if status != Success {
        HaltsFull(f.u, f.slots, TopOf(f.s) < last);
        return;
      }
      status := AddFinish(c, last, attr, f);
    }

    /** With room for the regions and a slot behind the last, and no dead slot above, adding succeeds. */
    lemma RoomSuffices(base: nat, length: nat, attr: Attr)
      requires Tidy() && RoomFor(base, length)
      ensures AddOutcome(regions[..], n, base, length, attr) == Success
    {
      hide Sum, Merged, Gaps;
      assert regions[..][..n] == Live();
      if length > 0 && n == 0 {
        OneGap(base, base + length);
        assert Live() == [];
      } else if length > 0 {
        var u := FillList(Live(), base, base + length, attr);
        if Top() < base + length {
          FillEnds(Live(), base, base + length, attr);
          assert regions[|u|].base < Top();
        }
      }
    }
  }
}
