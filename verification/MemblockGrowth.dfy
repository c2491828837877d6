/**
 How many slots adding a range can take: the gaps it fills, and the regions that are left
 when all memory has the same attributes.
 */
module MemblockGrowth {
  import opened Common
  import opened MemblockSpec
  import opened MemblockFill

  /** A range without mapped addresses is one gap. */
  lemma {:induction false} FreeIsOneGap(s: seq<Region>, b: nat, end: nat)
    requires Ordered(s) && b < end && forall a: int :: b <= a < end ==> Lookup(s, a) == None
    ensures Gaps(s, b, end) == 1
  {
    if s != [] && s[0].base < end {
      if End(s[0]) > b {
        var a := if s[0].base < b then b else s[0].base;
        LookupAt(s, 0, a);
        assert false;
      }
      forall a: int | b <= a < end ensures Lookup(s[1..], a) == None {
        assert Lookup(s, a) == None;
      }
      FreeIsOneGap(s[1..], b, end);
    }
  }

  /** There is at most one gap more than regions. */
  lemma {:induction false} GapsBound(s: seq<Region>, b: nat, end: nat)
    ensures Gaps(s, b, end) <= |s| + 1
    decreases |s|
  {
    if b < end && s != [] && s[0].base < end {
      GapsBound(s[1..], if End(s[0]) <= b then b else Min(End(s[0]), end), end);
    }
  }

  /** Where the regions start. */
  function Starts(s: seq<Region>): (b: set<nat>) {
    set k | 0 <= k < |s| :: s[k].base
  }

  lemma {:induction false} StartsCount(s: seq<Region>)
    requires Ordered(s)
    ensures |Starts(s)| == |s|
  {
    if s != [] {
      StartsCount(s[..|s| - 1]);
      OneStartMore(s);
    }
  }

  lemma OneStartMore(s: seq<Region>)
    requires Ordered(s) && s != []
    ensures var last := s[|s| - 1].base; last !in Starts(s[..|s| - 1]) && Starts(s) == Starts(s[..|s| - 1]) + {last}
  {
    var init, last := s[..|s| - 1], s[|s| - 1];
    forall k | 0 <= k < |init| ensures init[k] == s[k] && s[k].base < last.base {
      assert s[k].size > 0 && End(s[k]) <= last.base;
    }
    hide Ordered;
    forall x | x in Starts(s) ensures x in Starts(init) + {last.base} {
      var k :| 0 <= k < |s| && s[k].base == x;
      assert k < |init| ==> init[k].base == x;
    }
    forall x | x in Starts(init) ensures x in Starts(s) {
      var k :| 0 <= k < |init| && init[k].base == x;
      assert s[k].base == x;
    }
  }

  /** A region starts after an address that is unmapped or mapped otherwise. */
  lemma StartIsEdge(t: seq<Region>, k: nat)
    requires Normal(t) && k < |t|
    ensures Lookup(t, t[k].base) == Some(AttrOf(t[k])) && Lookup(t, t[k].base - 1) != Lookup(t, t[k].base)
  {
    var x := t[k].base;
    LookupAt(t, k, x);
    var j := Where(t, x - 1);
    assert forall i :: k <= i < |t| ==> x <= t[i].base by {
      assert forall i :: k < i < |t| ==> End(t[k]) <= t[i].base;
    }
    assert forall i :: 0 <= i < k - 1 ==> End(t[i]) <= t[k - 1].base;
    if j >= 0 {
      assert j == k - 1 && End(t[j]) <= x && !Mergeable(t[j], t[k]);
    }
  }

  /** Filling a range of a map with one attribute adds at most one region. */
  lemma OneRegionMore(s: seq<Region>, t: seq<Region>, b: nat, end: nat, attr: Attr)
    requires Ordered(s) && Normal(t) && Filled(s, t, b, end, attr)
    requires forall a: int :: Lookup(t, a) == None || Lookup(t, a) == Some(attr)
    ensures |t| <= |s| + 1
  {
    forall x | x in Starts(t) ensures x in Starts(s) + {b} {
      var k :| 0 <= k < |t| && t[k].base == x;
      if x != b {
        StartIsEdge(t, k);
        OldStart(s, t, b, end, attr, x);
      }
    }
    StartsCount(s);
    StartsCount(t);
    SubsetSize(Starts(t), Starts(s) + {b});
  }

  lemma OldStart(s: seq<Region>, t: seq<Region>, b: nat, end: nat, attr: Attr, x: nat)
    requires Ordered(s) && Filled(s, t, b, end, attr) && x != b
    requires Lookup(t, x) == Some(attr) && Lookup(t, x - 1) == None
    ensures x in Starts(s)
  {
    assert Lookup(t, x - 1)
      == if Lookup(s, x - 1).Some? then Lookup(s, x - 1) else if b <= x - 1 < end then Some(attr) else None;
    assert Lookup(t, x) == if Lookup(s, x).Some? then Lookup(s, x) else if b <= x < end then Some(attr) else None;
    var i := Where(s, x);
    var j := Where(s, x - 1);
    assert !Covers(s[i], x - 1);
  }

  lemma {:induction false} SubsetSize(x: set<nat>, y: set<nat>)
    requires x <= y
    ensures |x| <= |y|
  {
    if x != {} {
      var e :| e in x;
      SubsetSize(x - {e}, y - {e});
    }
  }
}
