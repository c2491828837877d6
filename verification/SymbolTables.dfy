/**
 The decoder's tables of extra bits and base values for length and distance symbols, and
 the proof that they hold what the rule of section 3.2.5 of RFC 1951 gives.
 */
module SymbolTables {
  import opened Bits
  import opened InflateSpec

  /** Extra bits and base value of the length symbols 257 to 285, as the decoder tabulates them. */
  const LENGTH_BITS: seq<nat> :=
    [0, 0, 0, 0, 0, 0, 0, 0, 1, 1, 1, 1, 2, 2, 2, 2, 3, 3, 3, 3, 4, 4, 4, 4, 5, 5, 5, 5, 0]
  const LENGTH_BASE: seq<nat> :=
    [3, 4, 5, 6, 7, 8, 9, 10, 11, 13, 15, 17, 19, 23, 27, 31, 35, 43, 51, 59, 67, 83, 99, 115,
     131, 163, 195, 227, 258]

  /** Extra bits and base value of the distance symbols 0 to 29. */
  const DIST_BITS: seq<nat> :=
    [0, 0, 0, 0, 1, 1, 2, 2, 3, 3, 4, 4, 5, 5, 6, 6, 7, 7, 8, 8, 9, 9, 10, 10, 11, 11, 12, 12, 13, 13]
  const DIST_BASE: seq<nat> :=
    [1, 2, 3, 4, 5, 7, 9, 13, 17, 25, 33, 49, 65, 97, 129, 193, 257, 385, 513, 769, 1025, 1537,
     2049, 3073, 4097, 6145, 8193, 12289, 16385, 24577]

  lemma SmallPower(e: nat)
    requires e <= 5
    ensures Pow2(e) == if e == 0 then 1 else if e == 1 then 2 else if e == 2 then 4
                       else if e == 3 then 8 else if e == 4 then 16 else 32
  {
    SmallPowers();
  }

  /** Each entry of the length table starts where the previous entry's lengths end. */
  lemma LengthBaseStep(k: nat)
    requires 0 < k < NR_LENGTHS - 1
    ensures LENGTH_BASE[k] == LENGTH_BASE[k - 1] + Pow2(LengthBits(k - 1))
  {
    SmallPower(LengthBits(k - 1));
  }

  /** The length tables hold what the rule of section 3.2.5 of RFC 1951 gives. */
  lemma {:induction false} LengthTables(k: nat)
    requires k < NR_LENGTHS
    ensures LENGTH_BITS[k] == LengthBits(k) && LENGTH_BASE[k] == LengthBase(k)
  {
    if k == 28 {
      assert LENGTH_BITS[28] == 0 && LENGTH_BASE[28] == 258;
    } else {
      LengthBitsTable(k);
      if k > 0 {
        LengthTables(k - 1);
        LengthBaseStep(k);
      }
    }
  }

  lemma LengthBitsTable(k: nat)
    requires k < NR_LENGTHS
    ensures LENGTH_BITS[k] == LengthBits(k)
  {
  }

  /** Powers of two up to 2^13. */
  const POWERS: seq<nat> := [1, 2, 4, 8, 16, 32, 64, 128, 256, 512, 1024, 2048, 4096, 8192]

  lemma DistPower(e: nat)
    requires e <= 13
    ensures POWERS[e] == Pow2(e)
  {
    SmallPowers();
  }

  /** Each entry of the distance table starts where the previous entry's distances end. */
  lemma DistBaseStep(k: nat)
    requires 0 < k < NR_DISTANCES
    ensures DIST_BASE[k] == DIST_BASE[k - 1] + POWERS[DistBits(k - 1)]
  {
  }

  lemma DistBitsTable(k: nat)
    requires k < NR_DISTANCES
    ensures DIST_BITS[k] == DistBits(k)
  {
  }

  /** The distance tables hold what the rule of section 3.2.5 of RFC 1951 gives. */
  lemma {:induction false} DistTables(k: nat)
    requires k < NR_DISTANCES
    ensures DIST_BITS[k] == DistBits(k) && DIST_BASE[k] == DistBase(k)
  {
    DistBitsTable(k);
    if k == 0 {
      assert DIST_BASE[0] == 1;
    } else {
      hide DistBits;
      DistTables(k - 1);
      DistBaseStep(k);
      DistPower(DistBits(k - 1));
    }
  }

  lemma SmallPowers()
    ensures Pow2(0) == 1 && Pow2(1) == 2 && Pow2(2) == 4 && Pow2(3) == 8 && Pow2(4) == 16
    ensures Pow2(5) == 32 && Pow2(6) == 64 && Pow2(7) == 128 && Pow2(8) == 256 && Pow2(9) == 512
    ensures Pow2(10) == 1024 && Pow2(11) == 2048 && Pow2(12) == 4096 && Pow2(13) == 8192
  {
  }
}
