/**
 Pointwise changes of the memory map: setting or clearing flags and setting the node of
 all mapped addresses of a range, as changes of the map and of the list of regions.
 */
module MemblockUpdate {
  import opened Common
  import opened MemblockSpec
  import opened MemblockIsolate

  datatype Change = SetFlags(flags: bv32) | ClearFlags(flags: bv32) | SetNode(nid: int)

  /** The attributes after a change. */
  function Apply(c: Change, t: Attr): (r: Attr) {
    match c
    case SetFlags(f) => t.(flags := t.flags | f)
    case ClearFlags(f) => t.(flags := t.flags & !f)
    case SetNode(nid) => t.(nid := nid)
  }

  predicate AllOn(x: bv32, f: bv32) {
    x & f == f
  }

  predicate AllOff(x: bv32, f: bv32) {
    x & f == 0
  }

  /** `x` and `y` differ in bits of `f` only. */
  predicate DifferIn(x: bv32, y: bv32, f: bv32) {
    (x ^ y) | f == f
  }

  /** Setting flags sets just the bits named. */
  lemma SetBits(t: Attr, f: bv32)
    ensures var r := Apply(SetFlags(f), t); AllOn(r.flags, f) && DifferIn(r.flags, t.flags, f) && r.nid == t.nid
  {
    hide AllOn, DifferIn;
    OrOn(t.flags, f);
    OrDiffers(t.flags, f);
  }

  /** Clearing flags clears just the bits named. */
  lemma ClearBits(t: Attr, f: bv32)
    ensures var r := Apply(ClearFlags(f), t); AllOff(r.flags, f) && DifferIn(r.flags, t.flags, f) && r.nid == t.nid
  {
    hide AllOff, DifferIn;
    AndOff(t.flags, f);
    AndDiffers(t.flags, f);
  }

  lemma OrOn(x: bv32, f: bv32)
    ensures AllOn(x | f, f)
  {
  }

  lemma OrDiffers(x: bv32, f: bv32)
    ensures DifferIn(x | f, x, f)
  {
  }

  lemma AndOff(x: bv32, f: bv32)
    ensures AllOff(x & !f, f)
  {
  }

  lemma AndDiffers(x: bv32, f: bv32)
    ensures DifferIn(x & !f, x, f)
  {
  }

  /** The change as a function on what an address is mapped to. */
  function ApplyMapped(c: Change, t: Option<Attr>): (r: Option<Attr>) {
    if t.Some? then Some(Apply(c, t.value)) else None
  }

  /** `t` is `s` with the mapped addresses from `base` up to `end` changed and no others. */
  ghost predicate Updated(s: seq<Region>, t: seq<Region>, base: nat, end: nat, c: Change) {
    forall a: int :: Lookup(t, a) == if base <= a < end then ApplyMapped(c, Lookup(s, a)) else Lookup(s, a)
  }

  /** A region with changed attributes. */
  function Changed(c: Change, r: Region): (q: Region)
    ensures q.base == r.base && q.size == r.size && AttrOf(q) == Apply(c, AttrOf(r))
  {
    r.(nid := Apply(c, AttrOf(r)).nid, flags := Apply(c, AttrOf(r)).flags)
  }

  /** The list with regions `st` to `en - 1` changed. */
  function ChangeList(s: seq<Region>, st: nat, en: nat, c: Change): (t: seq<Region>)
    ensures |t| == |s|
    ensures forall k :: 0 <= k < |s| ==> t[k] == if st <= k < en then Changed(c, s[k]) else s[k]
  {
    seq(|s|, k requires 0 <= k < |s| => if st <= k < en then Changed(c, s[k]) else s[k])
  }

  lemma {:induction false} SameSizes(s: seq<Region>, t: seq<Region>)
    requires |s| == |t| && forall k :: 0 <= k < |s| ==> s[k].size == t[k].size
    ensures Sum(s) == Sum(t)
  {
    if s != [] {
      SameSizes(s[1..], t[1..]);
    }
  }

  lemma ChangeKeepsShape(s: seq<Region>, st: nat, en: nat, c: Change)
    requires Ordered(s)
    ensures Ordered(ChangeList(s, st, en, c)) && Sum(ChangeList(s, st, en, c)) == Sum(s)
  {
    SameSizes(s, ChangeList(s, st, en, c));
  }

  /** Changing the isolated regions changes exactly the mapped addresses of the range. */
  lemma ChangeIsUpdate(s: seq<Region>, base: nat, end: nat, st: nat, en: nat, c: Change)
    requires Ordered(s) && Isolated(s, base, end, st, en)
    ensures Updated(s, ChangeList(s, st, en, c), base, end, c)
  {
    var t := ChangeList(s, st, en, c);
    ChangeKeepsShape(s, st, en, c);
    hide Apply;
    forall a: int
      ensures Lookup(t, a) == if base <= a < end then ApplyMapped(c, Lookup(s, a)) else Lookup(s, a)
    {
      var i := Where(s, a);
      if i >= 0 {
        assert Covers(t[i], a);
        LookupAt(t, i, a);
        assert if st <= i < en then Inside(s[i], base, end) else Apart(s[i], base, end);
      } else {
        assert forall k :: 0 <= k < |t| ==> !Covers(s[k], a);
        LookupOutside(t, a);
      }
    }
  }

  /** Outside the changed regions and their neighbours nothing can be merged. */
  lemma ChangeKeepsMerged(s: seq<Region>, base: nat, end: nat, st: nat, en: nat, c: Change, k: nat)
    requires Ordered(s) && Isolated(s, base, end, st, en) && CutsOnly(s, base, end) && base < end
    requires k + 1 < |s| && (k + 1 < st || en <= k)
    ensures !Mergeable(ChangeList(s, st, en, c)[k], ChangeList(s, st, en, c)[k + 1])
  {
    if Mergeable(s[k], s[k + 1]) {
      IsolatedCuts(s, base, end, st, en, k);
    }
  }

  /** Lists with the same map are updated alike. */
  lemma UpdatedSame(s: seq<Region>, s': seq<Region>, t: seq<Region>, t': seq<Region>, base: nat, end: nat, c: Change)
    requires SameMap(s, s') && Updated(s', t, base, end, c) && SameMap(t, t')
    ensures Updated(s, t', base, end, c)
  {
    hide ApplyMapped;
    forall a: int
      ensures Lookup(t', a) == if base <= a < end then ApplyMapped(c, Lookup(s, a)) else Lookup(s, a)
    {
      assert Lookup(s, a) == Lookup(s', a);
      assert Lookup(t, a) == Lookup(t', a);
    }
  }
}
