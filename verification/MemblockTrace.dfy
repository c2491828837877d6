/**
 Runs of all operations from the zeroed array. Each state is in normal form and comes from
 the one before by the pointwise update its operation stands for; a run ends early only
 where the state and the operation say that the code fails.
 */
module MemblockTrace {
  import opened Bits
  import opened MemblockSpec
  import opened MemblockUpdate
  import opened MemblockFill
  import opened MemblockCut
  import opened Memblock
  import opened MemblockAlloc
  import opened MemblockRemove
  import opened MemblockRuns

  datatype Op =
    | Add(base: nat, length: nat, nid: int, flags: bv32)
    | Flags(base: nat, length: nat, on: bool, flags: bv32)
    | Node(base: nat, length: nat, nid: int)
    | Take(request: Request)
    | Give(base: nat, length: nat)
    | Unmap(base: nat, length: nat)

  ghost predicate OpOk(op: Op) {
    match op
    case Take(r) => r.Allocate? && RequestOk(r)
    case _ => op.base + op.length < ADDRESS_LIMIT
  }

  /** The array, how many of its regions are live, and the total size. */
  datatype State = State(slots: seq<Region>, n: nat, size: u64)

  function LiveOf(s: State): (live: seq<Region>) {
    if s.n <= |s.slots| then s.slots[..s.n] else []
  }

  ghost function Now(m: MemBlock): (s: State)
    reads m, m.regions
  {
    State(m.regions[..], m.n, m.size)
  }

  ghost predicate StateOk(s: State) {
    s.n <= |s.slots| && Normal(LiveOf(s)) && TopOf(LiveOf(s)) < ADDRESS_LIMIT
  }

  /** All dead slots lie below the end of the list. */
  ghost predicate DeadOk(s: State) {
    s.n <= |s.slots| && DeadBelowIn(s.slots, s.n)
  }

  function DriftOf(s: State): (d: u64) {
    Wrap(s.size - Sum(LiveOf(s)))
  }

  /* ---- What an operation does ---- */

  /** Some block is found for the request, and marking it goes wrong. */
  ghost predicate TakeFails(r: Request, s: State)
    requires r.Allocate? && s.n <= |s.slots|
  {
    exists q: nat ::
      q > 0 && Chosen(LiveOf(s), Wanted(r), r.exactNid, q) && ReserveOutcome(s.slots, s.n, q, r.size) == DeadMatch
  }

  /** How an operation goes, as a function of the state. */
  ghost function OutcomeIn(op: Op, s: State): (status: Status)
    requires OpOk(op) && s.n <= |s.slots|
  {
    match op
    case Add(b, l, nid, f) => AddOutcome(s.slots, s.n, b, l, Attr(nid, f))
    case Flags(b, l, on, f) => ChangeOutcome(s.slots, s.n, b, l, ChangeOf(on, f))
    case Node(b, l, nid) => ChangeOutcome(s.slots, s.n, b, l, SetNode(nid))
    case Take(r) => if TakeFails(r, s) then DeadMatch else Success
    case Give(b, l) => ChangeOutcome(s.slots, s.n, b, l, ClearFlags(MEMBLOCK_RESERVED))
    case Unmap(b, l) => if l > 0 && s.n + 2 > |s.slots| then NoSpace else Success
  }

  /** The kernel stops, or the code goes on with what it must not. */
  predicate Fails(status: Status) {
    status == Halts || status == ReadsBehind || status == DeadMatch
  }

  /** The pointwise update of a range; no memory comes or goes. */
  ghost predicate Changes(s: State, t: State, base: nat, length: nat, c: Change) {
    && Updated(LiveOf(s), LiveOf(t), base, base + length, c)
    && t.size == s.size && Sum(LiveOf(t)) == Sum(LiveOf(s))
  }

  /** What an operation that goes well, or finds no room, makes of the live regions and the size. */
  ghost predicate Does(op: Op, s: State, t: State)
    requires OpOk(op) && s.n <= |s.slots|
  {
    var full := OutcomeIn(op, s) == NoSpace;
    match op
    case Add(b, l, nid, f) =>
      && Filled(LiveOf(s), LiveOf(t), b, b + l, Attr(nid, f))
      && DriftOf(t) == (if s.n == 0 && l > 0 then 0 else DriftOf(s))
    case Flags(b, l, on, f) => if full then t == s else Changes(s, t, b, l, ChangeOf(on, f))
    case Node(b, l, nid) => if full then t == s else Changes(s, t, b, l, SetNode(nid))
    case Take(r) =>
      if Refused(r, |s.slots|, LiveOf(s)) then t == s
      else t.size == s.size && Sum(LiveOf(t)) == Sum(LiveOf(s)) && exists p: nat :: Grants(r, LiveOf(s), LiveOf(t), p)
    case Give(b, l) => if full then t == s else Changes(s, t, b, l, ClearFlags(MEMBLOCK_RESERVED))
    case Unmap(b, l) =>
      if full then t == s
      else
        && Cleared(LiveOf(s), LiveOf(t), b, b + l) && t.size == Wrap(s.size - Charge(LiveOf(s), b, b + l))
        && Sum(LiveOf(t)) == Sum(LiveOf(s)) - SizeIn(LiveOf(s), b, b + l)
  }

  /** The operation removes the end of the map. */
  ghost predicate RemovesEnd(op: Op, s: State) {
    && OpOk(op) && s.n <= |s.slots| && op.Unmap? && OutcomeIn(op, s) == Success
    && op.length > 0 && op.base < TopOf(LiveOf(s)) <= op.base + op.length
  }

  /** One step of a run. */
  ghost predicate Step(op: Op, s: State, t: State) {
    && OpOk(op) && StateOk(s) && StateOk(t) && |t.slots| == |s.slots|
    && !Fails(OutcomeIn(op, s)) && Does(op, s, t)
    && (DeadOk(s) && !RemovesEnd(op, s) ==> DeadOk(t))
  }

  ghost predicate Trace(ops: seq<Op>, max: nat, states: seq<State>) {
    && 1 <= |states| <= |ops| + 1
    && StateOk(states[0]) && |states[0].slots| == max && states[0].n == states[0].size == 0 && DeadOk(states[0])
    && forall k :: 0 <= k < |states| - 1 ==> Step(ops[k], states[k], states[k + 1])
  }

  lemma TraceStart(ops: seq<Op>, s: State)
    requires StateOk(s) && s.n == s.size == 0 && DeadOk(s)
    ensures Trace(ops, |s.slots|, [s])
  {
  }

  lemma TraceMore(ops: seq<Op>, max: nat, states: seq<State>, t: State)
    requires Trace(ops, max, states) && |states| <= |ops| && Step(ops[|states| - 1], states[|states| - 1], t)
    ensures Trace(ops, max, states + [t])
  {
    hide Step, StateOk, DeadOk;
  }

  /** Every state of a run is in normal form. */
  lemma {:induction false} TraceOk(ops: seq<Op>, max: nat, states: seq<State>, k: nat)
    requires Trace(ops, max, states) && k < |states|
    ensures StateOk(states[k]) && |states[k].slots| == max
  {
    hide StateOk, DeadOk, Does;
    if k > 0 {
      TraceOk(ops, max, states, k - 1);
      assert Step(ops[k - 1], states[k - 1], states[k]);
    }
  }

  /** As long as no removal takes the end of the map, the dead slots stay below it. */
  lemma {:induction false} DeadThrough(ops: seq<Op>, max: nat, states: seq<State>, k: nat)
    requires Trace(ops, max, states) && k < |states|
    requires forall j :: 0 <= j < k ==> Step(ops[j], states[j], states[j + 1]) && !RemovesEnd(ops[j], states[j])
    ensures DeadOk(states[k])
  {
    hide DeadOk, StateOk, Does, RemovesEnd;
    if k > 0 {
      DeadThrough(ops, max, states, k - 1);
      assert Step(ops[k - 1], states[k - 1], states[k]);
    }
  }

  /* ---- The total size ---- */

  /** A removal that charges what it removes. */
  ghost predicate WellCharged(op: Op, s: State) {
    op.Unmap? && OpOk(op) && s.n <= |s.slots| && OutcomeIn(op, s) == Success ==>
      ChargesRight(LiveOf(s), op.base, op.base + op.length)
  }

  lemma RightCharge(s: State, t: State, base: nat, end: nat)
    requires base <= end && ChargesRight(LiveOf(s), base, end)
    requires t.size == Wrap(s.size - Charge(LiveOf(s), base, end))
    requires Sum(LiveOf(t)) == Sum(LiveOf(s)) - SizeIn(LiveOf(s), base, end)
    ensures DriftOf(t) == DriftOf(s)
  {
    hide CutBoth, Before, Sum, Wrap, LiveOf;
    var u := CutBoth(LiveOf(s), base, end);
    BeforeMonotone(u, base, end);
    EmptyCharge(u, Before(u, base), Before(u, end));
    SameDrift(s.size, Sum(LiveOf(s)), Charge(LiveOf(s), base, end), SizeIn(LiveOf(s), base, end));
  }

  lemma SameDrift(size: u64, sum: int, charge: nat, removed: nat)
    requires charge == removed || Wrap(charge) == removed
    ensures Wrap(Wrap(size - charge) - (sum - removed)) == Wrap(size - sum)
  {
  }

  /** Without a mischarged removal the total size has no drift at any time. */
  lemma {:induction false} NoDrift(ops: seq<Op>, max: nat, states: seq<State>, k: nat)
    requires Trace(ops, max, states) && k < |states|
    requires forall j :: 0 <= j < k ==> Step(ops[j], states[j], states[j + 1]) && WellCharged(ops[j], states[j])
    ensures DriftOf(states[k]) == 0
  {
    hide DriftOf, WellCharged, StateOk, DeadOk, Step;
    if k == 0 {
      EmptyDrift(states[0]);
    } else {
      NoDrift(ops, max, states, k - 1);
      StepDrift(ops[k - 1], states[k - 1], states[k]);
    }
  }

  lemma EmptyDrift(s: State)
    requires s.n == s.size == 0
    ensures DriftOf(s) == 0
  {
  }

  lemma StepDrift(op: Op, s: State, t: State)
    requires Step(op, s, t) && WellCharged(op, s) && DriftOf(s) == 0
    ensures DriftOf(t) == 0
  {
    hide Filled, Updated, Cleared, ChargesRight, Charge, SizeIn, Refused, Wrap, AddOutcome, ChangeOutcome, LiveOf,
         DeadOk, RemovesEnd, TakeFails, Grants, Normal;
    if op.Unmap? && OutcomeIn(op, s) == Success {
      RightCharge(s, t, op.base, op.base + op.length);
    }
  }

  /* ---- Runs ---- */

  lemma StateIs(m: MemBlock)
    ensures StateOk(Now(m)) <==> m.Valid() && Merged(m.Live())
    ensures m.n <= m.regions.Length ==> LiveOf(Now(m)) == m.Live() && (DeadOk(Now(m)) <==> m.DeadBelow())
  {
    if m.n <= m.regions.Length {
      assert m.regions[..][..m.n] == m.Live();
    }
  }

  lemma AddCases(slots: seq<Region>, n: nat, base: nat, length: nat, attr: Attr)
    requires n <= |slots|
    ensures AddOutcome(slots, n, base, length, attr) != NoSpace
  {
    hide FillList, Merged;
  }

  method PerformAdd(m: MemBlock, op: Op) returns (status: Status)
    requires StateOk(Now(m)) && OpOk(op) && op.Add?
    modifies m, m.regions
    ensures status == OutcomeIn(op, old(Now(m)))
    ensures !Fails(status) ==> Step(op, old(Now(m)), Now(m))
    ensures old(DeadOk(Now(m))) ==> status != DeadMatch
  {
    hide Ordered, Merged, Sum, Filled, AddOutcome, DeadBelowIn, Wrap, TopOf, Normal, LiveOf, StateOk, DeadOk, Gaps;
    ghost var s := Now(m);
    StateIs(m);
    AddCases(s.slots, s.n, op.base, op.length, Attr(op.nid, op.flags));
    status := m.AddRange(op.base, op.length, op.nid, op.flags);
    if status == Success {
      StateIs(m);
      assert DriftOf(s) == old(m.Drift()) && DriftOf(Now(m)) == m.Drift();
    }
  }

  method PerformFlags(m: MemBlock, op: Op) returns (status: Status)
    requires StateOk(Now(m)) && OpOk(op) && op.Flags?
    modifies m, m.regions
    ensures status == OutcomeIn(op, old(Now(m)))
    ensures !Fails(status) ==> Step(op, old(Now(m)), Now(m))
    ensures old(DeadOk(Now(m))) ==> status != DeadMatch
  {
    hide Ordered, Merged, Sum, Updated, ChangeOutcome, DeadBelowIn, TopOf, Normal, LiveOf, StateOk, DeadOk;
    ghost var s := Now(m);
    StateIs(m);
    OutcomeCases(s.slots, s.n, op.base, op.length, ChangeOf(op.on, op.flags));
    status := m.SetClrFlag(op.base, op.length, op.on, op.flags);
    StateIs(m);
  }

  method PerformNode(m: MemBlock, op: Op) returns (status: Status)
    requires StateOk(Now(m)) && OpOk(op) && op.Node?
    modifies m, m.regions
    ensures status == OutcomeIn(op, old(Now(m)))
    ensures !Fails(status) ==> Step(op, old(Now(m)), Now(m))
    ensures old(DeadOk(Now(m))) ==> status != DeadMatch
  {
    hide Ordered, Merged, Sum, Updated, ChangeOutcome, DeadBelowIn, TopOf, Normal, LiveOf, StateOk, DeadOk;
    ghost var s := Now(m);
    StateIs(m);
    OutcomeCases(s.slots, s.n, op.base, op.length, SetNode(op.nid));
    status := m.SetNodeRange(op.base, op.length, op.nid);
    StateIs(m);
  }

  method PerformGive(m: MemBlock, op: Op) returns (status: Status)
    requires StateOk(Now(m)) && OpOk(op) && op.Give?
    modifies m, m.regions
    ensures status == OutcomeIn(op, old(Now(m)))
    ensures !Fails(status) ==> Step(op, old(Now(m)), Now(m))
    ensures old(DeadOk(Now(m))) ==> status != DeadMatch
  {
    hide Ordered, Merged, Sum, Updated, ChangeOutcome, DeadBelowIn, TopOf, Normal, LiveOf, StateOk, DeadOk;
    ghost var s := Now(m);
    StateIs(m);
    OutcomeCases(s.slots, s.n, op.base, op.length, ClearFlags(MEMBLOCK_RESERVED));
    status := Free(m, op.base, op.length);
    StateIs(m);
  }

  method PerformTake(m: MemBlock, op: Op) returns (status: Status)
    requires StateOk(Now(m)) && OpOk(op) && op.Take?
    modifies m, m.regions
    ensures status == OutcomeIn(op, old(Now(m)))
    ensures !Fails(status) ==> Step(op, old(Now(m)), Now(m))
    ensures old(DeadOk(Now(m))) ==> status != DeadMatch
  {
    hide Ordered, Merged, Sum, Updated, ChangeOutcome, DeadBelowIn, TopOf, Normal, LiveOf, StateOk, DeadOk, Pow2,
         Chosen, NoneAllowed, Clamped;
    ghost var s := Now(m);
    var r := op.request;
    StateIs(m);
    var p;
    ghost var q;
    p, status, q := Alloc(m, r.size, Pow2(r.k), r.start, r.end, r.nid, r.exactNid, r.k);
    StateIs(m);
    WhenTakeFails(r, s, q);
    RoomDecides(s.slots, s.n, q, r.size);
    if p != 0 {
      FoundIn(r, s, p);
      assert Grants(r, LiveOf(s), LiveOf(Now(m)), p);
    }
  }

  lemma FoundIn(r: Request, s: State, p: nat)
    requires r.Allocate? && RequestOk(r) && StateOk(s) && Chosen(LiveOf(s), Wanted(r), r.exactNid, p)
    ensures WasFree(LiveOf(s), Block(p, r.size))
  {
    hide Chosen, Pow2, WasFree, Ordered, Merged;
    FoundBlock(LiveOf(s), Wanted(r), r.exactNid, p);
  }

  /** Only one block can be chosen, so it decides. */
  lemma WhenTakeFails(r: Request, s: State, q: nat)
    requires r.Allocate? && s.n <= |s.slots|
    requires q == 0 <==> NoneAllowed(LiveOf(s), Wanted(r), r.exactNid)
    requires q != 0 ==> Chosen(LiveOf(s), Wanted(r), r.exactNid, q)
    ensures TakeFails(r, s) <==> ReserveOutcome(s.slots, s.n, q, r.size) == DeadMatch
  {
    hide ChangeOutcome, Clamped, Pow2, LiveOf;
    forall p: nat | p > 0 && Chosen(LiveOf(s), Wanted(r), r.exactNid, p) ensures p == q {
      ChosenOnce(LiveOf(s), Wanted(r), r.exactNid, p, q);
    }
  }

  lemma ChosenOnce(s: seq<Region>, w: Want, exactNid: bool, p: int, q: int)
    requires w.align > 0 && Chosen(s, w, exactNid, p)
    requires q == 0 <==> NoneAllowed(s, w, exactNid)
    requires q != 0 ==> Chosen(s, w, exactNid, q)
    ensures p == q
  {
    if !NoneSuits(s, w) {
      LowestOnce(s, w, p, q);
    } else {
      LowestSuits(s, w.(nid := -1), p);
      LowestOnce(s, w.(nid := -1), p, q);
    }
  }

  lemma LowestOnce(s: seq<Region>, w: Want, p: int, q: int)
    requires w.align > 0 && Lowest(s, w, p) && Lowest(s, w, q)
    ensures p == q
  {
    var i :| 0 <= i < |s| && Suits(s[i], w, p);
    var j :| 0 <= j < |s| && Suits(s[j], w, q);
  }

  method PerformUnmap(m: MemBlock, op: Op) returns (status: Status)
    requires StateOk(Now(m)) && OpOk(op) && op.Unmap?
    modifies m, m.regions
    ensures status == OutcomeIn(op, old(Now(m)))
    ensures !Fails(status) ==> Step(op, old(Now(m)), Now(m))
    ensures old(DeadOk(Now(m))) ==> status != DeadMatch
  {
    hide Ordered, Merged, Sum, Cleared, Charge, SizeIn, ChargesRight, SplitsRegion, Wrap, DeadBelowIn, Normal, LiveOf,
         StateOk, DeadOk;
    StateIs(m);
    status := Remove(m, op.base, op.length);
    StateIs(m);
  }

  /** One operation: it goes as the state says, and makes a step of a run if it does not fail. */
  method Perform(m: MemBlock, op: Op) returns (status: Status)
    requires StateOk(Now(m)) && OpOk(op)
    modifies m, m.regions
    ensures status == OutcomeIn(op, old(Now(m)))
    ensures !Fails(status) ==> Step(op, old(Now(m)), Now(m))
    ensures old(DeadOk(Now(m))) ==> status != DeadMatch
  {
    hide StateOk, OpOk, DeadOk, OutcomeIn, Step;
    match op
    case Add(_, _, _, _) => status := PerformAdd(m, op);
    case Flags(_, _, _, _) => status := PerformFlags(m, op);
    case Node(_, _, _) => status := PerformNode(m, op);
    case Take(_) => status := PerformTake(m, op);
    case Give(_, _) => status := PerformGive(m, op);
    case Unmap(_, _) => status := PerformUnmap(m, op);
  }

  /**
   Every run from the zeroed array makes a trace. It performs all operations, or stops at the
   first that fails, as that operation and the last state say. Until the end of the map is
   removed no dead slot can match; the total size is the sum of the regions until a removal
   is charged wrong.
   */
  method AnyRun(max: nat, ops: seq<Op>) returns (m: MemBlock, stop: Status, ghost states: seq<State>)
    requires forall k :: 0 <= k < |ops| ==> OpOk(ops[k])
    ensures fresh(m) && m.regions.Length == max && Trace(ops, max, states)
    ensures 1 <= |states| <= |ops| + 1
    ensures |states| == |ops| + 1 ==> !Fails(stop) && states[|ops|] == Now(m)
    ensures |states| <= |ops| ==> Fails(stop) && StateOk(states[|states| - 1])
    ensures |states| <= |ops| ==> stop == OutcomeIn(ops[|states| - 1], states[|states| - 1])
    ensures SlotsSafe(ops, states) ==> DeadOk(states[|states| - 1]) && stop != DeadMatch
    ensures SizesSafe(ops, states) ==> DriftOf(states[|states| - 1]) == 0
  {
    hide StateOk, DeadOk, OutcomeIn, Step, Trace, SlotsSafe, SizesSafe;
    m := new MemBlock(max);
    StartOk(m);
    states, stop := [Now(m)], Success;
    TraceStart(ops, Now(m));
    var k := 0;
    while k < |ops| && !Fails(stop)
      invariant fresh(m) && fresh(m.regions) && m.regions.Length == max && 0 <= k <= |ops|
      invariant Trace(ops, max, states) && 1 <= |states| == if Fails(stop) then k else k + 1
      invariant StateOk(states[|states| - 1])
      invariant if Fails(stop) then k > 0 && Failed(ops, states, stop) else states[k] == Now(m)
    {
      stop := Perform(m, ops[k]);
      if !Fails(stop) {
        TraceMore(ops, max, states, Now(m));
        states := states + [Now(m)];
        StepOk(ops[k], states[k], states[k + 1]);
      }
      k := k + 1;
    }
    EndOk(ops, max, states, stop);
  }

  /** The operation at which a run ends fails in its last state. */
  ghost predicate Failed(ops: seq<Op>, states: seq<State>, stop: Status) {
    && 1 <= |states| <= |ops| && OpOk(ops[|states| - 1]) && StateOk(states[|states| - 1])
    && stop == OutcomeIn(ops[|states| - 1], states[|states| - 1])
    && (DeadOk(states[|states| - 1]) ==> stop != DeadMatch)
  }

  /** No operation of the run has removed the end of the map. */
  ghost predicate SlotsSafe(ops: seq<Op>, states: seq<State>) {
    |states| <= |ops| + 1 && forall j :: 0 <= j < |states| - 1 ==> !RemovesEnd(ops[j], states[j])
  }

  /** Every removal of the run was charged right. */
  ghost predicate SizesSafe(ops: seq<Op>, states: seq<State>) {
    |states| <= |ops| + 1 && forall j :: 0 <= j < |states| - 1 ==> WellCharged(ops[j], states[j])
  }

  lemma StartOk(m: MemBlock)
    requires m.Tidy() && m.Live() == [] && m.size == 0
    ensures StateOk(Now(m)) && DeadOk(Now(m)) && m.n == 0
  {
    StateIs(m);
  }

  lemma StepOk(op: Op, s: State, t: State)
    requires Step(op, s, t)
    ensures StateOk(t)
  {
  }

  lemma EndOk(ops: seq<Op>, max: nat, states: seq<State>, stop: Status)
    requires Trace(ops, max, states) && (Fails(stop) ==> Failed(ops, states, stop))
    ensures SlotsSafe(ops, states) ==> DeadOk(states[|states| - 1]) && stop != DeadMatch
    ensures SizesSafe(ops, states) ==> DriftOf(states[|states| - 1]) == 0
  {
    hide StateOk, DeadOk, OutcomeIn, RemovesEnd, WellCharged, DriftOf;
    if SlotsSafe(ops, states) {
      DeadThrough(ops, max, states, |states| - 1);
    }
    if SizesSafe(ops, states) {
      NoDrift(ops, max, states, |states| - 1);
    }
  }
}
