/**
 How a range of page frames is divided into pages: 4 KiB pages up to a 2 MiB boundary,
 2 MiB pages up to a 1 GiB boundary, 1 GiB pages, and the same back down. All numbers are
 page frames.
 */
module DirectMapTiling {
  import opened Common
  import opened PageWalk

  /** Frames `start` to `end - 1`, mapped with pages of level `ps`. */
  datatype Segment = Segment(start: nat, end: nat, ps: nat)

  const PMD: nat := 512
  const PUD: nat := 0x4_0000

  /** `ROUND_UP`, for the two page sizes. */
  function RoundUp(x: nat, unit: nat): (r: nat)
    requires unit == PMD || unit == PUD
    ensures x <= r < x + unit && r % unit == 0
  {
    if unit == PMD then
      var q := (x + 511) / 512;
      assert x <= 512 * q < x + 512 && (512 * q) % 512 == 0;
      512 * q
    else
      var q := (x + 0x3_FFFF) / 0x4_0000;
      assert x <= 0x4_0000 * q < x + 0x4_0000 && (0x4_0000 * q) % 0x4_0000 == 0;
      0x4_0000 * q
  }

  /** `ROUND_DOWN`, for the two page sizes. */
  function RoundDown(x: nat, unit: nat): (r: nat)
    requires unit == PMD || unit == PUD
    ensures r <= x < r + unit && r % unit == 0
  {
    if unit == PMD then x / 512 * 512 else x / 0x4_0000 * 0x4_0000
  }

  /** The end of a segment, or `pfn` if it is empty. */
  function After(pfn: nat, start: nat, end: nat): (r: nat) {
    if start < end then end else pfn
  }

  /** The segment, if it is not empty. */
  function Part(start: nat, end: nat, ps: nat): (s: seq<Segment>) {
    if start < end then [Segment(start, end, ps)] else []
  }

  /** The five segments of the frames from `start` to `limit`, as the kernel computes them. */
  function Segments(start: nat, limit: nat): (s: seq<Segment>) {
    var e1 := Min(RoundUp(start, PMD), limit);
    var p1 := After(start, start, e1);
    var s2, e2 := RoundUp(p1, PMD), Min(RoundUp(p1, PUD), RoundDown(limit, PMD));
    var p2 := After(p1, s2, e2);
    var s3, e3 := RoundUp(p2, PUD), RoundDown(limit, PUD);
    var p3 := After(p2, s3, e3);
    var s4, e4 := RoundUp(p3, PMD), RoundDown(limit, PMD);
    var p4 := After(p3, s4, e4);
    Part(start, e1, 0) + Part(s2, e2, 1) + Part(s3, e3, 2) + Part(s4, e4, 1) + Part(p4, limit, 0)
  }

  /** A segment is not empty and aligned to its page size. */
  predicate SegmentOk(g: Segment) {
    g.start < g.end && g.ps <= 2 && g.start % Size(g.ps) == 0 && g.end % Size(g.ps) == 0
  }

  /** The segments are aligned, and each starts where the one before ends, from `from` to `to`. */
  predicate Tiles(s: seq<Segment>, from: nat, to: nat) {
    if s == [] then from == to
    else SegmentOk(s[0]) && s[0].start == from && Tiles(s[1..], s[0].end, to)
  }

  lemma {:induction false} TilesConcat(a: seq<Segment>, b: seq<Segment>, from: nat, mid: nat, to: nat)
    requires Tiles(a, from, mid) && Tiles(b, mid, to)
    ensures Tiles(a + b, from, to)
  {
    if a == [] {
      assert a + b == b;
    } else {
      TilesConcat(a[1..], b, a[0].end, mid, to);
      assert (a + b)[1..] == a[1..] + b;
    }
  }

  lemma PieceTiles(start: nat, end: nat, ps: nat, pfn: nat)
    requires start < end ==> start == pfn && ps <= 2 && start % Size(ps) == 0 && end % Size(ps) == 0
    ensures Tiles(Part(start, end, ps), pfn, After(pfn, start, end))
  {
    if start < end {
      assert Part(start, end, ps)[1..] == [];
    }
  }

  /** Multiples of a page size are at least a page apart, and large pages hold small ones. */
  lemma Multiples(a: nat, b: nat)
    requires a % 0x4_0000 == 0
    ensures a % 512 == 0
    ensures b % 0x4_0000 == 0 && a < b ==> a + 0x4_0000 <= b
  {
    var k := a / 0x4_0000;
    assert a == 512 * (512 * k);
    if b % 0x4_0000 == 0 && a < b {
      var l := b / 0x4_0000;
      assert k < l;
    }
  }

  lemma SmallMultiples(a: nat, b: nat)
    requires a % 512 == 0 && b % 512 == 0 && a < b
    ensures a + 512 <= b
  {
  }

  /** A boundary rounds to itself. */
  lemma UpSelf(p: nat)
    ensures p % 512 == 0 ==> RoundUp(p, PMD) == p
    ensures p % 0x4_0000 == 0 ==> RoundUp(p, PUD) == p
  {
    hide RoundUp;
    if p % 512 == 0 && p < RoundUp(p, PMD) {
      SmallMultiples(p, RoundUp(p, PMD));
    }
    if p % 0x4_0000 == 0 {
      Multiples(p, RoundUp(p, PUD));
    }
  }

  /** The last 1 GiB boundary is not after the last 2 MiB boundary. */
  lemma DownTwice(p: nat)
    ensures RoundDown(p, PUD) <= RoundDown(p, PMD)
  {
    hide RoundDown;
    Multiples(RoundDown(p, PUD), 0);
    if RoundDown(p, PMD) < RoundDown(p, PUD) {
      SmallMultiples(RoundDown(p, PMD), RoundDown(p, PUD));
    }
  }

  /** A frame the segments have reached: a 2 MiB boundary, or the limit itself. */
  predicate Reached(p: nat, limit: nat) {
    p <= limit && (p % 512 == 0 || p == limit)
  }

  lemma FirstStep(start: nat, limit: nat)
    requires start <= limit
    ensures Reached(After(start, start, Min(RoundUp(start, PMD), limit)), limit)
  {
    hide RoundUp;
  }

  lemma SecondStep(p1: nat, limit: nat)
    requires Reached(p1, limit)
    ensures var s2, e2 := RoundUp(p1, PMD), Min(RoundUp(p1, PUD), RoundDown(limit, PMD));
            var p2 := After(p1, s2, e2);
            && (s2 < e2 ==> s2 == p1 && e2 % 512 == 0) && Reached(p2, limit)
            && (p2 % 0x4_0000 == 0 || p2 >= RoundDown(limit, PUD))
  {
    UpSelf(p1);
    DownTwice(limit);
    Multiples(RoundUp(p1, PUD), 0);
    hide RoundUp, RoundDown;
  }

  lemma ThirdStep(p2: nat, limit: nat)
    requires Reached(p2, limit) && (p2 % 0x4_0000 == 0 || p2 >= RoundDown(limit, PUD))
    ensures var s3, e3 := RoundUp(p2, PUD), RoundDown(limit, PUD);
            && (s3 < e3 ==> s3 == p2) && e3 % 0x4_0000 == 0
            && Reached(After(p2, s3, e3), limit) && After(p2, s3, e3) >= RoundDown(limit, PUD)
  {
    UpSelf(p2);
    Multiples(RoundDown(limit, PUD), 0);
    hide RoundUp, RoundDown;
  }

  lemma FourthStep(p3: nat, limit: nat)
    requires Reached(p3, limit)
    ensures var s4, e4 := RoundUp(p3, PMD), RoundDown(limit, PMD);
            && (s4 < e4 ==> s4 == p3) && e4 % 512 == 0
            && Reached(After(p3, s4, e4), limit) && After(p3, s4, e4) >= RoundDown(limit, PMD)
  {
    UpSelf(p3);
    hide RoundUp, RoundDown;
  }

  /** The segments are aligned to their page sizes, adjacent, and cover exactly the range. */
  lemma SegmentsTile(start: nat, limit: nat)
    requires start <= limit
    ensures Tiles(Segments(start, limit), start, limit)
  {
    hide RoundUp, RoundDown, Tiles, Part;
    var e1 := Min(RoundUp(start, PMD), limit);
    var p1 := After(start, start, e1);
    FirstStep(start, limit);
    PieceTiles(start, e1, 0, start);
    var s2, e2 := RoundUp(p1, PMD), Min(RoundUp(p1, PUD), RoundDown(limit, PMD));
    var p2 := After(p1, s2, e2);
    SecondStep(p1, limit);
    PieceTiles(s2, e2, 1, p1);
    var s3, e3 := RoundUp(p2, PUD), RoundDown(limit, PUD);
    var p3 := After(p2, s3, e3);
    ThirdStep(p2, limit);
    PieceTiles(s3, e3, 2, p2);
    var s4, e4 := RoundUp(p3, PMD), RoundDown(limit, PMD);
    var p4 := After(p3, s4, e4);
    FourthStep(p3, limit);
    PieceTiles(s4, e4, 1, p3);
    PieceTiles(p4, limit, 0, p4);
    var a, b, c, d, e := Part(start, e1, 0), Part(s2, e2, 1), Part(s3, e3, 2), Part(s4, e4, 1), Part(p4, limit, 0);
    TilesConcat(a, b, start, p1, p2);
    TilesConcat(a + b, c, start, p2, p3);
    TilesConcat(a + b + c, d, start, p3, p4);
    TilesConcat(a + b + c + d, e, start, p4, limit);
  }

  /* ---- How many tables the segments need ---- */

  /** Pages `lo` to `hi - 1` lie in one page of the next larger size. */
  predicate OneBlock(ps: nat, lo: nat, hi: nat) {
    lo < hi && lo / Size(ps + 1) == (hi - 1) / Size(ps + 1)
  }

  /** At most this many tables can be missing on the way from the top to the pages of each segment. */
  function Budget(s: seq<Segment>): (n: nat) {
    if s == [] then 0 else (if s[0].ps <= 2 then 3 - s[0].ps else 0) + Budget(s[1..])
  }

  lemma {:induction false} BudgetConcat(a: seq<Segment>, b: seq<Segment>)
    ensures Budget(a + b) == Budget(a) + Budget(b)
  {
    if a == [] {
      assert a + b == b;
    } else {
      BudgetConcat(a[1..], b);
      assert (a + b)[1..] == a[1..] + b;
    }
  }

  /** Segments of small and medium pages lie in one page of the next larger size. */
  predicate Compact(s: seq<Segment>) {
    forall g :: g in s && g.ps < 2 ==> OneBlock(g.ps, g.start, g.end)
  }

  lemma PartBudget(start: nat, end: nat, ps: nat)
    requires ps <= 2 && (start < end && ps < 2 ==> OneBlock(ps, start, end))
    ensures Budget(Part(start, end, ps)) <= 3 - ps && Compact(Part(start, end, ps))
  {
    if start < end {
      assert Part(start, end, ps)[1..] == [];
    }
  }

  lemma BelowBoundary(start: nat, end: nat)
    requires start < end
    ensures end <= RoundUp(start, PMD) || RoundDown(end, PMD) <= start ==> OneBlock(0, start, end)
    ensures end <= RoundUp(start, PUD) || RoundDown(end, PUD) <= start ==> OneBlock(1, start, end)
  {
    BlockOf(start, end, 512, RoundUp(start, PMD) / 512, RoundDown(end, PMD) / 512);
    BlockOf(start, end, 0x4_0000, RoundUp(start, PUD) / 0x4_0000, RoundDown(end, PUD) / 0x4_0000);
  }

  lemma BlockOf(lo: nat, hi: nat, unit: nat, up: nat, down: nat)
    requires (unit == 512 || unit == 0x4_0000) && lo < hi
    ensures up * unit < lo + unit && hi <= up * unit ==> lo / unit == (hi - 1) / unit
    ensures down * unit <= lo && hi < down * unit + unit ==> lo / unit == (hi - 1) / unit
  {
  }

  /** The five segments need no more than eleven tables. */
  lemma SegmentsBudget(start: nat, limit: nat)
    requires start <= limit
    ensures Budget(Segments(start, limit)) <= 11 && Compact(Segments(start, limit))
  {
    hide RoundUp, RoundDown, Part, OneBlock, Budget;
    var e1 := Min(RoundUp(start, PMD), limit);
    var p1 := After(start, start, e1);
    FirstStep(start, limit);
    FirstBlock(start, e1);
    var s2, e2 := RoundUp(p1, PMD), Min(RoundUp(p1, PUD), RoundDown(limit, PMD));
    var p2 := After(p1, s2, e2);
    SecondStep(p1, limit);
    SecondBlock(p1, e2);
    var s3, e3 := RoundUp(p2, PUD), RoundDown(limit, PUD);
    var p3 := After(p2, s3, e3);
    ThirdStep(p2, limit);
    PartBudget(s3, e3, 2);
    var s4, e4 := RoundUp(p3, PMD), RoundDown(limit, PMD);
    var p4 := After(p3, s4, e4);
    FourthStep(p3, limit);
    FourthBlock(p3, limit);
    LastBlock(p4, limit);
    var a, b, c, d, e := Part(start, e1, 0), Part(s2, e2, 1), Part(s3, e3, 2), Part(s4, e4, 1), Part(p4, limit, 0);
    BudgetConcat(a, b);
    BudgetConcat(a + b, c);
    BudgetConcat(a + b + c, d);
    BudgetConcat(a + b + c + d, e);
  }

  lemma FirstBlock(start: nat, e1: nat)
    requires e1 <= RoundUp(start, PMD)
    ensures Budget(Part(start, e1, 0)) <= 3 && Compact(Part(start, e1, 0))
  {
    hide RoundUp, Part, OneBlock, Budget, Compact;
    if start < e1 {
      BelowBoundary(start, e1);
    }
    PartBudget(start, e1, 0);
  }

  lemma SecondBlock(p1: nat, e2: nat)
    requires e2 <= RoundUp(p1, PUD) && (RoundUp(p1, PMD) < e2 ==> RoundUp(p1, PMD) == p1)
    ensures var g := Part(RoundUp(p1, PMD), e2, 1); Budget(g) <= 2 && Compact(g)
  {
    hide RoundUp, Part, OneBlock, Budget, Compact;
    if RoundUp(p1, PMD) < e2 {
      BelowBoundary(p1, e2);
    }
    PartBudget(RoundUp(p1, PMD), e2, 1);
  }

  lemma FourthBlock(p3: nat, limit: nat)
    requires p3 >= RoundDown(limit, PUD) && (RoundUp(p3, PMD) < RoundDown(limit, PMD) ==> RoundUp(p3, PMD) == p3)
    ensures var g := Part(RoundUp(p3, PMD), RoundDown(limit, PMD), 1); Budget(g) <= 2 && Compact(g)
  {
    hide RoundUp, RoundDown, Part, OneBlock, Budget, Compact;
    var e4 := RoundDown(limit, PMD);
    if RoundUp(p3, PMD) < e4 {
      DownDown(limit);
      BelowBoundary(p3, e4);
    }
    PartBudget(RoundUp(p3, PMD), e4, 1);
  }

  lemma DownDown(limit: nat)
    ensures RoundDown(RoundDown(limit, PMD), PUD) <= RoundDown(limit, PUD)
  {
    hide RoundDown;
    var x := RoundDown(RoundDown(limit, PMD), PUD);
    if RoundDown(limit, PUD) < x {
      Multiples(RoundDown(limit, PUD), x);
    }
  }

  lemma LastBlock(p4: nat, limit: nat)
    requires RoundDown(limit, PMD) <= p4
    ensures Budget(Part(p4, limit, 0)) <= 3 && Compact(Part(p4, limit, 0))
  {
    hide RoundUp, RoundDown, Part, OneBlock, Budget, Compact;
    if p4 < limit {
      BelowBoundary(p4, limit);
    }
    PartBudget(p4, limit, 0);
  }
}
