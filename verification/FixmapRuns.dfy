/**
 Whole runs of mapping and unmapping: the mappings that are live at any time take disjoint
 slots, and every byte of each is where its address says.
 */
module FixmapRuns {
  import opened Common
  import opened PageWalk
  import opened Fixmap

  /** The `size` bytes from `phys` on, mapped from slot `start` on. */
  datatype Mapping = Mapping(start: nat, phys: nat, size: nat)

  function Slots(m: Mapping): (n: nat) {
    PagesOf(m.phys, m.size)
  }

  function AddressOf(m: Mapping): (v: nat) {
    Address(m.start, m.phys % 4096)
  }

  predicate InSlot(m: Mapping, k: nat) {
    m.start <= k < m.start + Slots(m)
  }

  /** The entry a mapping puts into slot `k`. */
  function EntryFor(m: Mapping, k: nat): (e: Entry)
    requires m.start <= k
  {
    Leaf(m.phys / 4096 + (k - m.start))
  }

  /** The slot table and the page-table entries hold the mapping. */
  ghost predicate Stands(table: seq<int>, ptes: seq<Entry>, m: Mapping) {
    && |table| == SLOTS == |ptes| && m.size > 0 && 1 <= Slots(m) <= SLOTS - m.start
    && table[m.start] == Slots(m)
    && forall k: nat :: InSlot(m, k) ==> ptes[k] == EntryFor(m, k)
  }

  /** The live mappings stand in different slots, and the slot table holds no others. */
  ghost predicate Lives(table: seq<int>, ptes: seq<Entry>, live: seq<Mapping>) {
    && |table| == SLOTS == |ptes| && Consistent(table)
    && (forall j :: 0 <= j < |live| ==> Stands(table, ptes, live[j]))
    && (forall i, j :: 0 <= i < j < |live| ==> live[i].start != live[j].start)
    && (forall s: nat :: s < SLOTS && table[s] != -1 ==> StartsAt(live, s))
  }

  predicate StartsAt(live: seq<Mapping>, s: nat) {
    exists j :: 0 <= j < |live| && live[j].start == s
  }

  /** No slot is in two live mappings. */
  lemma SlotsDisjoint(table: seq<int>, ptes: seq<Entry>, live: seq<Mapping>, i: nat, j: nat, k: nat)
    requires Lives(table, ptes, live) && i < |live| && j < |live| && i != j && InSlot(live[i], k)
    ensures !InSlot(live[j], k)
  {
    assert Stands(table, ptes, live[i]) && Stands(table, ptes, live[j]);
    if InSlot(live[j], k) {
      MappingsDisjoint(table, live[i].start, live[j].start, k);
    }
  }

  /** Each byte of a live mapping translates to its physical byte. */
  lemma BytesInPlace(f: FixMap, live: seq<Mapping>, i: nat, k: nat)
    requires f.Valid() && Lives(f.mapping[..], f.ptes[..], live) && i < |live| && k < live[i].size
    ensures f.Translate(AddressOf(live[i]) + k) == Some(live[i].phys + k)
  {
    var m := live[i];
    var slot := m.start + (m.phys % 4096 + k) / 4096;
    assert Stands(f.mapping[..], f.ptes[..], m);
    hide Consistent, IsFree;
    ByteInSlot(m.start, m.phys, m.size, k);
    assert InSlot(m, slot) && f.ptes[..][slot] == EntryFor(m, slot);
  }

  /** A new mapping takes free slots, so it changes no live one. */
  lemma MapLives(table: seq<int>, ptes: seq<Entry>, table': seq<int>, ptes': seq<Entry>, live: seq<Mapping>, m: Mapping)
    requires Lives(table, ptes, live) && m.size > 0 && Slots(m) >= 1 && FreeRun(table, m.start, Slots(m))
    requires table' == table[m.start := Slots(m)] && Consistent(table') && |ptes'| == SLOTS
    requires forall k: nat :: k < SLOTS ==> ptes'[k] == if InSlot(m, k) then EntryFor(m, k) else ptes[k]
    ensures Lives(table', ptes', live + [m])
  {
    var t := live + [m];
    assert IsFree(table, m.start);
    forall j | 0 <= j < |live| ensures Stands(table', ptes', live[j]) && live[j].start != m.start {
      Untouched(table, ptes, live[j], m);
    }
    forall s: nat | s < SLOTS && table'[s] != -1 ensures StartsAt(t, s) {
      if s == m.start {
        assert t[|live|].start == s;
      } else {
        var j :| 0 <= j < |live| && live[j].start == s;
        assert t[j].start == s;
      }
    }
    forall j | 0 <= j < |t| ensures Stands(table', ptes', t[j]) {
    }
  }

  lemma Untouched(table: seq<int>, ptes: seq<Entry>, other: Mapping, m: Mapping)
    requires Stands(table, ptes, other) && FreeRun(table, m.start, Slots(m)) && Slots(m) >= 1
    ensures other.start != m.start && forall k: nat :: InSlot(other, k) ==> !InSlot(m, k)
  {
    assert IsFree(table, m.start);
    assert Holds(table, other.start, other.start);
    forall k: nat | InSlot(other, k) ensures !InSlot(m, k) {
      assert Holds(table, other.start, k);
      assert InSlot(m, k) ==> IsFree(table, k);
    }
  }

  /** Unmapping a live mapping leaves the others. */
  lemma UnmapLives(table: seq<int>, ptes: seq<Entry>, table': seq<int>, ptes': seq<Entry>, live: seq<Mapping>, i: nat)
    requires Lives(table, ptes, live) && i < |live| && |ptes'| == SLOTS && live[i].start < SLOTS
    requires table' == table[live[i].start := -1] && Consistent(table')
    requires forall k: nat :: k < SLOTS ==> ptes'[k] == if InSlot(live[i], k) then Absent else ptes[k]
    ensures Lives(table', ptes', Drop(live, i))
  {
    var t := Drop(live, i);
    forall j | 0 <= j < |t| ensures Stands(table', ptes', t[j]) {
      Spared(table, ptes, ptes', live, i, if j < i then j else j + 1);
    }
    hide Stands, Consistent;
    forall s: nat | s < SLOTS && table'[s] != -1 ensures StartsAt(t, s) {
      var j :| 0 <= j < |live| && live[j].start == s;
      assert t[if j < i then j else j - 1].start == s;
    }
  }

  lemma Spared(table: seq<int>, ptes: seq<Entry>, ptes': seq<Entry>, live: seq<Mapping>, i: nat, j: nat)
    requires Lives(table, ptes, live) && i < |live| && j < |live| && i != j && |ptes'| == SLOTS && live[i].start < SLOTS
    requires forall k: nat :: k < SLOTS ==> ptes'[k] == if InSlot(live[i], k) then Absent else ptes[k]
    ensures Stands(table[live[i].start := -1], ptes', live[j])
  {
    assert live[i].start != live[j].start && Stands(table, ptes, live[j]);
    forall k: nat | InSlot(live[j], k) ensures ptes'[k] == EntryFor(live[j], k) {
      SlotsDisjoint(table, ptes, live, j, i, k);
    }
  }

  /* ---- Runs ---- */

  datatype Op = Map(phys: nat, size: nat) | Unmap(i: nat)

  /** Both tables, and the mappings that are live. */
  datatype State = State(table: seq<int>, ptes: seq<Entry>, live: seq<Mapping>)

  ghost predicate StateOk(s: State) {
    Lives(s.table, s.ptes, s.live)
  }

  ghost function Now(f: FixMap, live: seq<Mapping>): (s: State)
    reads f.mapping, f.ptes
  {
    State(f.mapping[..], f.ptes[..], live)
  }

  /** The lowest fitting run holds the new mapping, which is appended to the live ones. */
  ghost predicate Maps(s: State, t: State, m: Mapping) {
    && LowestRun(s.table, m.start, Slots(m)) && |s.table| == |s.ptes| == |t.ptes| && Slots(m) > 0
    && t.live == s.live + [m] && t.table == s.table[m.start := Slots(m)]
    && forall k: nat :: k < |s.ptes| ==> t.ptes[k] == if InSlot(m, k) then EntryFor(m, k) else s.ptes[k]
  }

  /** The mapping's slots are free and their entries absent. */
  ghost predicate Drops(s: State, t: State, i: nat)
    requires i < |s.live|
  {
    var m := s.live[i];
    && m.start < |s.table| == |s.ptes| == |t.ptes|
    && t.live == Drop(s.live, i) && t.table == s.table[m.start := -1]
    && forall k: nat :: k < |s.ptes| ==> t.ptes[k] == if InSlot(m, k) then Absent else s.ptes[k]
  }

  /** The bounds check of the unmapping turns the mapping's address away. */
  predicate TurnedAway(m: Mapping) {
    m.start >= SLOTS - 1 && m.phys % 4096 != 0
  }

  /**
   What an operation does. An empty request, one that does not fit, and an index behind the
   live mappings leave the state as it is.
   */
  ghost predicate Step(op: Op, s: State, t: State) {
    match op
    case Map(phys, size) =>
      if size == 0 || NoRun(s.table, PagesOf(phys, size)) then t == s
      else exists start: nat :: Maps(s, t, Mapping(start, phys, size))
    case Unmap(i) =>
      if i >= |s.live| || TurnedAway(s.live[i]) then t == s else Drops(s, t, i)
  }

  ghost predicate Trace(ops: seq<Op>, states: seq<State>) {
    && |states| == |ops| + 1
    && states[0] == State(seq(SLOTS, _ => -1), seq(SLOTS, _ => Absent), [])
    && forall k :: 0 <= k < |ops| ==> Step(ops[k], states[k], states[k + 1])
  }

  /** A request that fits is mapped; the others are not made. */
  method PerformMap(f: FixMap, phys: nat, size: nat, live: seq<Mapping>) returns (after: seq<Mapping>)
    requires f.Valid() && StateOk(Now(f, live))
    modifies f.mapping, f.ptes
    ensures f.Valid() && StateOk(Now(f, after))
    ensures Step(Map(phys, size), old(Now(f, live)), Now(f, after))
  {
    ghost var s := Now(f, live);
    after := live;
    if size == 0 {
      return;
    }
    PagesPositive(phys, size);
    var r := FindFreeRange(f.mapping, PagesOf(phys, size));
    if r == ReadsPastTable {
      return;
    }
    assert Lives(s.table, s.ptes, live);
    assert FreeRun(s.table, r.start, PagesOf(phys, size));
    hide Lives, Consistent;
    var v := f.Ioremap(phys, size);
    var m := Mapping(r.start, phys, size);
    after := live + [m];
    ghost var start :| 0 <= start && f.MapsAt(s.table, s.ptes, start, phys, size, v.value);
    assert FreeRun(s.table, start, PagesOf(phys, size));
    assert start == r.start;
    MapLives(s.table, s.ptes, f.mapping[..], f.ptes[..], live, m);
    assert Maps(s, Now(f, after), m);
  }

  /** A live mapping is unmapped, unless its address is turned away. */
  method PerformUnmap(f: FixMap, i: nat, live: seq<Mapping>) returns (after: seq<Mapping>)
    requires f.Valid() && StateOk(Now(f, live))
    modifies f.mapping, f.ptes
    ensures f.Valid() && StateOk(Now(f, after))
    ensures Step(Unmap(i), old(Now(f, live)), Now(f, after))
  {
    ghost var s := Now(f, live);
    after := live;
    if i >= |live| {
      return;
    }
    var m := live[i];
    assert Stands(s.table, s.ptes, m);
    assert Lives(s.table, s.ptes, live);
    SamePages(m.start, m.phys, m.size);
    hide Lives;
    f.Iounmap(AddressOf(m), m.size);
    if !TurnedAway(m) {
      after := Drop(live, i);
      UnmapLives(s.table, s.ptes, f.mapping[..], f.ptes[..], live, i);
      assert Drops(s, Now(f, after), i);
    }
  }

  /** Any sequence of requests and unmappings: every operation makes its step. */
  method Run(ops: seq<Op>) returns (f: FixMap, live: seq<Mapping>, ghost states: seq<State>)
    ensures fresh(f) && f.Valid() && Trace(ops, states) && states[|ops|] == Now(f, live)
    ensures forall k :: 0 <= k <= |ops| ==> StateOk(states[k])
  {
    f := new FixMap();
    live := [];
    states := [Now(f, live)];
    StartOk(states[0]);
    hide StateOk, Step, Trace;
    TraceLength([], states);
    assert ops[..0] == [];
    for k := 0 to |ops|
      invariant fresh(f) && fresh(f.mapping) && fresh(f.ptes) && f.Valid()
      invariant |states| == k + 1 && Trace(ops[..k], states) && states[k] == Now(f, live)
      invariant forall j :: 0 <= j <= k ==> StateOk(states[j])
    {
      match ops[k] {
        case Map(phys, size) => live := PerformMap(f, phys, size, live);
        case Unmap(i) => live := PerformUnmap(f, i, live);
      }
      TraceMore(ops[..k], states, ops[k], Now(f, live));
      assert ops[..k + 1] == ops[..k] + [ops[k]];
      states := states + [Now(f, live)];
    }
    assert ops[..|ops|] == ops;
  }

  lemma StartOk(s: State)
    requires |s.table| == |s.ptes| == SLOTS && s.live == []
    requires forall k :: 0 <= k < SLOTS ==> s.table[k] == -1 && s.ptes[k] == Absent
    ensures StateOk(s) && Trace([], [s])
  {
    assert s.table == seq(SLOTS, _ => -1) && s.ptes == seq(SLOTS, _ => Absent);
  }

  lemma TraceLength(ops: seq<Op>, states: seq<State>)
    requires Trace(ops, states)
    ensures |states| == |ops| + 1
  {
  }

  lemma TraceMore(ops: seq<Op>, states: seq<State>, op: Op, t: State)
    requires Trace(ops, states) && Step(op, states[|ops|], t)
    ensures Trace(ops + [op], states + [t])
  {
    hide Step;
  }

  /* ---- Two runs that fail ---- */

  /** With all slots taken the search for one more leaves the table. */
  method FullTable() returns (f: FixMap, v: Option<nat>, r: Found)
    ensures fresh(f) && f.Valid() && v == Some(Address(0, 0)) && r == ReadsPastTable
  {
    f := new FixMap();
    assert FreeRun(f.mapping[..], 0, SLOTS);
    ghost var table, ptes := f.mapping[..], f.ptes[..];
    v := f.Ioremap(0, SLOTS * 4096);
    ghost var start :| 0 <= start && f.MapsAt(table, ptes, start, 0, SLOTS * 4096, v.value);
    r := FindFreeRange(f.mapping, 1);
    forall s | 0 <= s ensures !FreeRun(f.mapping[..], s, 1) {
      assert Holds(f.mapping[..], 0, s) || s >= SLOTS;
      assert s < SLOTS ==> !IsFree(f.mapping[..], s);
    }
  }

  /** An unaligned byte in the last slot: unmapping it changes nothing. */
  method LastSlotStays() returns (f: FixMap, v: Option<nat>, w: Option<nat>)
    ensures fresh(f) && f.Valid() && v == Some(Address(0, 0)) && w == Some(Address(SLOTS - 1, 1))
    ensures f.mapping[SLOTS - 1] == 1 && f.ptes[SLOTS - 1] == Leaf(0)
  {
    f := new FixMap();
    assert FreeRun(f.mapping[..], 0, SLOTS - 1);
    ghost var table, ptes := f.mapping[..], f.ptes[..];
    v := f.Ioremap(0, (SLOTS - 1) * 4096);
    ghost var start :| 0 <= start && f.MapsAt(table, ptes, start, 0, (SLOTS - 1) * 4096, v.value);
    table, ptes := f.mapping[..], f.ptes[..];
    forall s | 0 <= s < SLOTS - 1 ensures !FreeRun(table, s, 1) {
      assert Holds(table, 0, s);
      assert !IsFree(table, s);
    }
    assert FreeRun(table, SLOTS - 1, 1);
    w := f.Ioremap(1, 1);
    start :| 0 <= start && f.MapsAt(table, ptes, start, 1, 1, w.value);
    assert FreeRun(table, start, 1);
    f.Iounmap(w.value, 1);
  }
}
