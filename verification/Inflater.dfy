/**
 The inflate decoder itself: a bit accumulator over the input, the two Huffman tables, and
 an output buffer that is written in place. Each method is proved to do what the function
 of the same step in `InflateSpec` says, for every input on which the code is defined.
 */
module Inflater {
  import opened Bits
  import opened Stream
  import opened Huffman
  import opened HuffmanTables
  import opened InflateSpec
  import opened SymbolTables

  lemma Pow2At15()
    ensures Pow2(15) == 0x8000
  {
    Pow2Add(7, 8);
    SmallPowers();
  }

  lemma AccumulatorFits(b: seq<bit>)
    requires |b| <= 22
    ensures LsbValue(b) < 0x40_0000
  {
    LsbBound(b);
    Pow2Monotone(|b|, 22);
    Pow2Add(11, 11);
    SmallPowers();
  }

  /** Loading a byte on top of the accumulated bits extends the bits it holds by that byte. */
  lemma LoadByte(source: seq<byte>, pos: nat, k: nat, accum: nat)
    requires k < |source| && pos <= 8 * k && 8 * k - pos <= 14
    requires accum == LsbValue(BitsOf(source)[pos..8 * k])
    ensures BitOr(accum, ShiftLeft32(source[k], 8 * k - pos)) == LsbValue(BitsOf(source)[pos..8 * (k + 1)])
    ensures LsbValue(BitsOf(source)[pos..8 * (k + 1)]) < 0x1_0000_0000
  {
    var s, n := BitsOf(source), 8 * k - pos;
    var before, next := s[pos..8 * k], s[8 * k..8 * k + 8];
    assert s[pos..8 * (k + 1)] == before + next;
    ByteIsValue(source, k);
    AddByte(before, next, source[k]);
  }

  lemma AddByte(before: seq<bit>, next: seq<bit>, b: byte)
    requires |before| <= 14 && |next| == 8 && LsbValue(next) == b
    ensures BitOr(LsbValue(before), ShiftLeft32(b, |before|)) == LsbValue(before + next) < 0x1_0000_0000
  {
    LsbConcat(before, next);
    AccumulatorFits(before + next);
    LsbBound(before);
    OrIsAdd(LsbValue(before), b, |before|);
    ShiftIsMul(b, |before|, LsbValue(before + next) - LsbValue(before));
  }

  lemma ShiftIsMul(x: nat, n: nat, y: int)
    requires y == Pow2(n) * x && y < 0x1_0000_0000
    ensures ShiftLeft32(x, n) == y == x * Pow2(n)
  {
    assert x * Pow2(n) == y;
  }

  /** Mask and shift take the first `n` accumulated bits. */
  lemma TakeBits(s: seq<bit>, pos: nat, end: nat, n: nat, accum: nat)
    requires pos + n <= end <= |s| && accum == LsbValue(s[pos..end])
    ensures BitAnd(accum, Pow2(n) - 1) == LsbValue(s[pos..pos + n]) < Pow2(n)
    ensures ShiftRight(accum, n) == LsbValue(s[pos + n..end])
  {
    var b := s[pos..end];
    assert b[..n] == s[pos..pos + n];
    assert b[n..] == s[pos + n..end];
    MaskAndShift(b, n);
  }

  lemma MaskAndShift(b: seq<bit>, n: nat)
    requires n <= |b|
    ensures BitAnd(LsbValue(b), Pow2(n) - 1) == LsbValue(b[..n]) < Pow2(n)
    ensures ShiftRight(LsbValue(b), n) == LsbValue(b[n..])
  {
    MaskIsMod(LsbValue(b), n);
    LsbSplit(b, n);
    LsbBound(b[..n]);
  }

  lemma OffsetFits(offs: nat, it: nat)
    requires 1 <= it < MAX_BITS && offs < Pow2(it - 1)
    ensures 2 * offs + 1 < Pow2(it) <= 0x8000 && Pow2(1) == 2
  {
    Pow2Monotone(it, 15);
    Pow2At15();
  }

  lemma SumFits(lengths: Lengths, it: nat)
    requires 1 <= it < MAX_BITS && |lengths| <= MAX_SYMBOLS
    ensures Below(lengths, it + 1) == Below(lengths, it) + Count(lengths, it) <= MAX_SYMBOLS
  {
    BelowTotal(lengths, it + 1);
  }

  lemma SearchStep(s: seq<bit>, pos: nat, lengths: Lengths, it: nat, offs: nat)
    requires 1 <= it < MAX_BITS
    ensures DecodeFrom(s, pos, lengths, it, offs) ==
            if pos >= |s| then Failed(ErrOverflow)
            else if 2 * offs + s[pos] < Count(lengths, it) then Parsed(Nth(lengths, it, 2 * offs + s[pos]), pos + 1)
            else DecodeFrom(s, pos + 1, lengths, it + 1, 2 * offs + s[pos] - Count(lengths, it))
  {
  }

  lemma SearchEnd(s: seq<bit>, pos: nat, lengths: Lengths, offs: nat)
    ensures DecodeFrom(s, pos, lengths, MAX_BITS, offs) == Failed(ErrSymbol)
  {
  }

  /** `get_unaligned_le16`: two bytes as a number, low byte first. */
  function Le16(lo: byte, hi: byte): (r: u16) {
    lo as int + 256 * (hi as int)
  }

  lemma TwoBytes(source: seq<byte>, k: nat)
    requires k + 1 < |source|
    ensures LsbValue(BitsOf(source)[8 * k..8 * k + 16]) == Le16(source[k], source[k + 1])
  {
    hide BitsOf, LsbValue, Pow2;
    var s := BitsOf(source);
    var lo, hi := s[8 * k..8 * k + 8], s[8 * (k + 1)..8 * (k + 1) + 8];
    assert s[8 * k..8 * k + 16] == lo + hi;
    LsbConcat(lo, hi);
    ByteIsValue(source, k);
    ByteIsValue(source, k + 1);
    assert Pow2(|lo|) == 256 by {
      SmallPowers();
    }
  }

  lemma OneBit(s: seq<bit>, pos: nat)
    ensures ReadBits(s, pos, 1) == if pos < |s| then Parsed(s[pos], pos + 1) else Failed(ErrOverflow)
  {
    if pos < |s| {
      assert s[pos..pos + 1] == [s[pos]];
      assert LsbValue([s[pos]]) == s[pos] + 2 * LsbValue([s[pos]][1..]);
    }
  }

  class Inflater {
    const source: seq<byte>
    ghost const stream: seq<bit>  // the bits of `source`
    const dest: array<byte>
    const ll: Tree
    const distance: Tree
    var inPtr: nat
    var destPos: nat
    var error: ErrorCode
    var bitAccum: u32
    var nrBits: nat
    var destSize: nat

    /** The position in the bit stream: the bytes loaded less the bits not yet taken. */
    ghost function Pos(): (p: int)
      reads this
    {
      8 * inPtr - nrBits
    }

    /** The heap objects of the tables. */
    ghost function Tables(): (r: set<object>) {
      {ll.blCount, ll.sortedSymbols, distance.blCount, distance.sortedSymbols}
    }

    /** The arrays are separate and `stream` is the input's bit stream. */
    ghost predicate Shaped() {
      && stream == BitsOf(source)
      && ll.Shaped() && distance.Shaped()
      && ll.blCount != distance.blCount && ll.blCount != distance.sortedSymbols
      && ll.sortedSymbols != distance.blCount && ll.sortedSymbols != distance.sortedSymbols
      && dest !in Tables()
    }

    /**
     Fewer than eight bits are left over between reads, and the accumulator holds just
     those bits of the stream.
     */
    ghost predicate Valid()
      reads this
    {
      && inPtr <= |source| && destPos <= dest.Length && |stream| == 8 * |source|
      && (error == ErrNone ==>
            nrBits < 8 && Pos() >= 0 && bitAccum == LsbValue(stream[Pos()..8 * inPtr]))
    }

    /** The last read ended as `p` says, with value `v`. */
    ghost predicate Did<T>(p: Parse<T>, v: T)
      reads this
    {
      if error == ErrNone then Pos() >= 0 && p == Parsed(v, Pos()) else p == Failed(error)
    }

    constructor (source: seq<byte>, dest: array<byte>)
      ensures Shaped() && Valid() && Pos() == 0 && error == ErrNone && destPos == 0 && destSize == 0
      ensures this.source == source && this.dest == dest
      ensures fresh(Tables())
    {
      this.source := source;
      stream := BitsOf(source);
      this.dest := dest;
      ll := new Tree();
      distance := new Tree();
      inPtr, destPos, destSize := 0, 0, 0;
      bitAccum, nrBits, error := 0, 0, ErrNone;
    }

    method GetBits(n: nat) returns (bits: nat)
      requires Shaped() && Valid() && n <= 15
      modifies this`inPtr, this`bitAccum, this`nrBits, this`error
      ensures Valid()
      ensures old(error) != ErrNone ==> unchanged(this) && bits == 0
      ensures old(error) == ErrNone ==> Did(ReadBits(stream, old(Pos()), n), bits)
      ensures bits < Pow2(n) && (error != ErrNone ==> bits == 0)
    {
      hide LsbValue, BitOr, BitAnd, ShiftLeft32, ShiftRight, Pow2;
      if error != ErrNone {
        return 0;
      }
      ghost var pos: nat := Pos();
      while nrBits < n
        invariant inPtr <= |source| && Pos() == pos && nrBits < n + 8 && error == ErrNone
        invariant bitAccum == LsbValue(stream[pos..8 * inPtr])
        decreases |source| - inPtr
      {
        if inPtr == |source| {
          error := ErrOverflow;
          return 0;
        }
        LoadByte(source, pos, inPtr, bitAccum);
        bitAccum := BitOr(bitAccum, ShiftLeft32(source[inPtr], nrBits));
        inPtr := inPtr + 1;
        nrBits := nrBits + 8;
      }
      TakeBits(stream, pos, 8 * inPtr, n, bitAccum);
      AccumulatorFits(stream[pos + n..8 * inPtr]);
      bits := BitAnd(bitAccum, Pow2(n) - 1);
      bitAccum := ShiftRight(bitAccum, n);
      nrBits := nrBits - n;
    }

    method GetExtraBits(n: nat, base: nat) returns (r: nat)
      requires Shaped() && Valid() && n <= 15
      modifies this`inPtr, this`bitAccum, this`nrBits, this`error
      ensures Valid()
      ensures old(error) != ErrNone ==> unchanged(this) && r == base
      ensures old(error) == ErrNone ==> Did(ReadExtra(stream, old(Pos()), n, base), r)
    {
      var bits := 0;
      if n != 0 {
        bits := GetBits(n);
      }
      r := base + bits;
    }

    /** `GetBits(1)`, in terms of the one bit it reads. */
    method GetBit() returns (b: bit)
      requires Shaped() && Valid() && error == ErrNone
      modifies this`inPtr, this`bitAccum, this`nrBits, this`error
      ensures Valid()
      ensures old(Pos()) >= |stream| ==> error == ErrOverflow && b == 0
      ensures old(Pos()) < |stream| ==> error == ErrNone && Pos() == old(Pos()) + 1 && b == stream[old(Pos())]
    {
      OneBit(stream, Pos());
      assert Pow2(1) == 2;
      b := GetBits(1);
    }

    /**
     One level of the code tree: takes a bit and finds the symbol among this level's codes,
     or steps past them.
     */
    method SearchLevel(tree: Tree, ghost lengths: Lengths, it: nat, sumIn: u16, offsIn: u16)
      returns (found: bool, symbol: u16, sum: u16, offs: u16)
      requires Shaped() && Valid() && tree.For(lengths) && error == ErrNone
      requires 1 <= it < MAX_BITS && sumIn == Below(lengths, it) && offsIn < Pow2(it - 1)
      modifies this`inPtr, this`bitAccum, this`nrBits, this`error
      ensures Valid()
      ensures !found ==> symbol == 0
      ensures found ==> error == ErrNone && Did(DecodeFrom(stream, old(Pos()), lengths, it, offsIn), symbol)
      ensures error != ErrNone ==> DecodeFrom(stream, old(Pos()), lengths, it, offsIn) == Failed(error)
      ensures !found && error == ErrNone ==>
        && sum == Below(lengths, it + 1) && offs < Pow2(it)
        && DecodeFrom(stream, Pos(), lengths, it + 1, offs) == DecodeFrom(stream, old(Pos()), lengths, it, offsIn)
    {
      hide LsbValue, DecodeFrom, Pow2, Below, Count, Nth, Tree.For;
      OffsetFits(offsIn, it);
      tree.CountAt(lengths, it);
      SumFits(lengths, it);
      SearchStep(stream, Pos(), lengths, it, offsIn);
      found, symbol, sum := false, 0, sumIn;
      var b := GetBit();
      offs := 2 * offsIn + b;
      if error != ErrNone {
        return;
      }
      if offs < tree.blCount[it] {
        tree.SymbolAt(lengths, it, offs);
        found, symbol := true, tree.sortedSymbols[sum + offs];
        return;
      }
      sum := sum + tree.blCount[it];
      offs := offs - tree.blCount[it];
    }

    /** Walks down the levels of the code tree, one bit a level. */
    method Search(tree: Tree, ghost lengths: Lengths) returns (symbol: u16)
      requires Shaped() && Valid() && tree.For(lengths) && error == ErrNone
      modifies this`inPtr, this`bitAccum, this`nrBits, this`error
      ensures Valid()
      ensures error != ErrNone ==> symbol == 0
      ensures Did(DecodeSymbol(stream, old(Pos()), lengths), symbol)
    {
      var sum: u16, offs: u16 := 0, 0;
      for it := 1 to MAX_BITS
        invariant Valid() && error == ErrNone && sum == Below(lengths, it) && offs < Pow2(it - 1)
        invariant DecodeFrom(stream, Pos(), lengths, it, offs) == DecodeSymbol(stream, old(Pos()), lengths)
      {
        var found;
        found, symbol, sum, offs := SearchLevel(tree, lengths, it, sum, offs);
        if found || error != ErrNone {
          return;
        }
      }
      SearchEnd(stream, Pos(), lengths, offs);
      error := ErrSymbol;
      return 0;
    }

    /** With an error pending, the first bit read ends the search at once. */
    method NextSymbol(tree: Tree, ghost lengths: Lengths) returns (symbol: u16)
      requires Shaped() && Valid() && tree.For(lengths)
      modifies this`inPtr, this`bitAccum, this`nrBits, this`error
      ensures Valid()
      ensures old(error) != ErrNone ==> unchanged(this) && symbol == 0
      ensures error != ErrNone ==> symbol == 0
      ensures old(error) == ErrNone ==> Did(DecodeSymbol(stream, old(Pos()), lengths), symbol)
    {
      if error != ErrNone {
        return 0;
      }
      symbol := Search(tree, lengths);
    }

    /* ---- Dynamic trees ---- */

    /** The lengths of the code-length code, each three bits, in their odd order. */
    method GetCodeLengths(lengths: array<nat>, hclen: nat)
      requires Shaped() && Valid() && error == ErrNone && 4 <= hclen <= 19
      requires lengths.Length == MAX_SYMBOLS + MAX_DISTANCE && lengths[..] == Run(0, lengths.Length)
      requires lengths !in Tables()
      modifies this`inPtr, this`bitAccum, this`nrBits, this`error, lengths
      ensures Valid()
      ensures forall k :: 0 <= k < 19 ==> lengths[k] < MAX_BITS
      ensures Did(ReadCodeLengths(stream, old(Pos()), 0, hclen, Run(0, 19)), lengths[..19])
      ensures error == ErrNone ==> SentInFields(stream, old(Pos()), hclen, lengths[..19])
    {
      assert lengths[..19] == Run(0, 19);
      assert forall k :: 0 <= k < lengths.Length ==> lengths[k] == lengths[..][k];
      ghost var want := ReadCodeLengths(stream, Pos(), 0, hclen, Run(0, 19));
      ghost var pos := Pos();
      hide LsbValue, ReadCodeLengths, Run, SentInFields;
      for it := 0 to hclen
        invariant Valid() && forall k :: 0 <= k < 19 ==> lengths[k] < MAX_BITS
        invariant CodeLengthsTo(lengths, it, hclen, want)
      {
        GetCodeLength(lengths, it, hclen, want);
      }
      if error == ErrNone {
        LastCodeLength(lengths[..19], hclen);
        CodeLengthsSent(stream, pos, hclen);
      }
    }

    lemma LastCodeLength(c: Lengths, hclen: nat)
      requires Valid() && error == ErrNone && |c| == 19 && hclen <= 19
      ensures ReadCodeLengths(stream, Pos(), hclen, hclen, c) == Parsed(c, Pos())
    {
    }

    /** The first `it` code lengths have been read; `want` is what all of them come to. */
    ghost predicate CodeLengthsTo(lengths: array<nat>, it: nat, hclen: nat, want: Parse<Lengths>)
      requires Valid() && it <= hclen <= 19 <= lengths.Length && forall k :: 0 <= k < 19 ==> lengths[k] < MAX_BITS
      reads this, lengths
    {
      if error == ErrNone then ReadCodeLengths(stream, Pos(), it, hclen, lengths[..19]) == want
        else want == Failed(error)
    }

    /** One 3-bit code length. */
    method GetCodeLength(lengths: array<nat>, it: nat, hclen: nat, ghost want: Parse<Lengths>)
      requires Shaped() && Valid() && it < hclen <= 19 <= lengths.Length && lengths !in Tables()
      requires forall k :: 0 <= k < 19 ==> lengths[k] < MAX_BITS
      requires CodeLengthsTo(lengths, it, hclen, want)
      modifies this`inPtr, this`bitAccum, this`nrBits, this`error, lengths
      ensures Valid() && forall k :: 0 <= k < 19 ==> lengths[k] < MAX_BITS
      ensures CodeLengthsTo(lengths, it + 1, hclen, want)
    {
      hide LsbValue;
      assert Pow2(3) == 8;
      ghost var before := lengths[..19];
      var v := GetBits(3);
      lengths[CODE_LENGTH_ORDER[it]] := v;
      assert lengths[..19] == before[CODE_LENGTH_ORDER[it] := v];
    }

    /** The code length that a code-length symbol stands for, and how often it is repeated. */
    method GetRun(lengths: array<nat>, it: nat, symbol: nat) returns (v: nat, n: nat)
      requires Shaped() && Valid() && error == ErrNone && symbol < 19
      requires it <= lengths.Length && forall k :: 0 <= k < it ==> lengths[k] < MAX_BITS
      modifies this`inPtr, this`bitAccum, this`nrBits, this`error
      ensures Valid()
      ensures Did(ReadRun(stream, old(Pos()), symbol, lengths[..it]), (v, n))
    {
      hide LsbValue;
      v, n := 0, 0;
      if symbol == 16 {
        if it == 0 {
          error := ErrSymbol;
          return;
        }
        v := lengths[it - 1];
        n := GetExtraBits(2, 3);
      } else if symbol == 17 {
        n := GetExtraBits(3, 3);
      } else if symbol == 18 {
        n := GetExtraBits(7, 11);
      } else {
        v, n := symbol, 1;
      }
    }

    static method Fill(lengths: array<nat>, it: nat, v: nat, n: nat)
      requires it + n <= lengths.Length && v < MAX_BITS
      modifies lengths
      ensures lengths[..it + n] == old(lengths[..it]) + Run(v, n)
    {
      for k := 0 to n
        invariant lengths[..it + k] == old(lengths[..it]) + Run(v, k)
      {
        lengths[it + k] := v;
        assert Run(v, k + 1) == Run(v, k) + [v];
        assert lengths[..it + k + 1] == lengths[..it + k] + [v];
      }
    }

    /** The code lengths of both alphabets, run by run. */
    method GetLengths(lengths: array<nat>, total: nat, ghost codes: Lengths) returns (it: nat)
      requires Shaped() && Valid() && error == ErrNone && ll.For(codes) && |codes| == 19
      requires lengths.Length == MAX_SYMBOLS + MAX_DISTANCE && lengths !in Tables()
      requires !ReadLengths(stream, Pos(), codes, total, []).Undefined?
      modifies this`inPtr, this`bitAccum, this`nrBits, this`error, lengths
      ensures Valid()
      ensures it <= lengths.Length && forall k :: 0 <= k < it ==> lengths[k] < MAX_BITS
      ensures Did(ReadLengths(stream, old(Pos()), codes, total, []), lengths[..it])
    {
      hide LsbValue, DecodeFrom, ReadRun;
      ghost var want := ReadLengths(stream, Pos(), codes, total, []);
      it := 0;
      assert lengths[..0] == [];
      while it < total
        invariant Valid() && error == ErrNone && ll.For(codes)
        invariant it <= lengths.Length && forall k :: 0 <= k < it ==> lengths[k] < MAX_BITS
        invariant ReadLengths(stream, Pos(), codes, total, lengths[..it]) == want
        decreases |stream| - Pos()
      {
        var symbol := NextSymbol(ll, codes);
        if error != ErrNone {
          return;
        }
        var v, n := GetRun(lengths, it, symbol);
        if error != ErrNone {
          return;
        }
        Fill(lengths, it, v, n);
        it := it + n;
      }
    }

    method GetCounts() returns (hlit: nat, hdist: nat, hclen: nat)
      requires Shaped() && Valid() && error == ErrNone
      modifies this`inPtr, this`bitAccum, this`nrBits, this`error
      ensures Valid()
      ensures Did(ReadCounts(stream, old(Pos())), (hlit, hdist, hclen))
    {
      hide LsbValue, Pow2;
      hlit := GetExtraBits(5, 257);
      hdist := GetExtraBits(5, 1);
      hclen := GetExtraBits(4, 4);
    }

    /** Reads a dynamic block's header: the code lengths of both trees, one after the other. */
    method GetHeader(lengths: array<nat>) returns (hlit: nat, hdist: nat)
      requires Shaped() && Valid() && error == ErrNone
      requires lengths.Length == MAX_SYMBOLS + MAX_DISTANCE && lengths[..] == Run(0, lengths.Length)
      requires lengths !in Tables()
      requires !ReadTrees(stream, Pos()).Undefined?
      modifies this`inPtr, this`bitAccum, this`nrBits, this`error, lengths, Tables()
      ensures Valid()
      ensures hlit + hdist <= lengths.Length
      ensures error == ErrNone ==> forall k :: 0 <= k < hlit + hdist ==> lengths[k] < MAX_BITS
      ensures match ReadTrees(stream, old(Pos()))
              case Parsed((l, d), p) => error == ErrNone && Pos() == p && l == lengths[..hlit]
                && d == lengths[hlit..hlit + hdist]
              case Failed(e) => error == e
              case Undefined => true
    {
      hide LsbValue, ReadCounts, ReadLengths, ReadCodeLengths, Below, Count;
      hlit, hdist := 0, 0;
      var n, m, hclen := GetCounts();
      if error != ErrNone {
        return;
      }
      GetCodeLengths(lengths, hclen);
      if error != ErrNone {
        return;
      }
      ghost var codes: Lengths := lengths[..19];
      ll.Build(lengths[..19]);
      var it := GetLengths(lengths, n + m, codes);
      if error != ErrNone {
        return;
      }
      hlit, hdist := n, m;
      assert lengths[..it][..hlit] == lengths[..hlit]
        && lengths[..it][hlit..hlit + hdist] == lengths[hlit..hlit + hdist];
    }

    /** Reads a dynamic block's header and builds both trees from it. */
    method DynamicTree() returns (ghost l: Lengths, ghost d: Lengths)
      requires Shaped() && Valid() && error == ErrNone
      requires !ReadTrees(stream, Pos()).Undefined?
      modifies this`inPtr, this`bitAccum, this`nrBits, this`error, Tables()
      ensures Valid()
      ensures Did(ReadTrees(stream, old(Pos())), (l, d))
      ensures error == ErrNone ==> ll.For(l) && distance.For(d)
    {
      hide LsbValue, ReadTrees, Below, Count;
      l, d := [], [];
      var lengths := new nat[MAX_SYMBOLS + MAX_DISTANCE](_ => 0);
      assert lengths[..] == Run(0, lengths.Length);
      var hlit, hdist := GetHeader(lengths);
      if error != ErrNone {
        return;
      }
      l, d := lengths[..hlit], lengths[hlit..hlit + hdist];
      ll.Build(lengths[..hlit]);
      distance.Build(lengths[hlit..hlit + hdist]);
    }

    /* ---- Compressed data ---- */

    /** Length and distance of a back-reference. */
    method GetMatch(symbol: u16, ghost d: Lengths) returns (length: nat, offset: nat)
      requires Shaped() && Valid() && error == ErrNone && distance.For(d) && symbol >= FIRST_LENGTH
      requires !ReadMatch(stream, Pos(), symbol, d).Undefined?
      modifies this`inPtr, this`bitAccum, this`nrBits, this`error
      ensures Valid()
      ensures Did(ReadMatch(stream, old(Pos()), symbol, d), (length, offset))
    {
      hide LsbValue, DecodeFrom, LengthBase, DistBase, ReadBits;
      var k := symbol - FIRST_LENGTH;
      LengthTables(k);
      length := GetExtraBits(LENGTH_BITS[k], LENGTH_BASE[k]);
      var dist := NextSymbol(distance, d);
      DistTables(dist);
      offset := GetExtraBits(DIST_BITS[dist], DIST_BASE[dist]);
    }

    method PutLiteral(b: byte)
      requires destPos < dest.Length
      modifies dest, this`destPos
      ensures destPos == old(destPos) + 1
      ensures dest[..destPos] == old(dest[..destPos]) + [b]
      ensures dest[destPos..] == old(dest[destPos + 1..])
    {
      dest[destPos] := b;
      destPos := destPos + 1;
    }

    /** Copies byte by byte, so that a copy may run into its own output. */
    method CopyMatch(length: nat, offset: nat)
      requires 1 <= offset <= destPos && destPos + length <= dest.Length
      modifies dest, this`destPos
      ensures destPos == old(destPos) + length
      ensures dest[..destPos] == CopyBack(old(dest[..destPos]), length, offset)
      ensures dest[destPos..] == old(dest[destPos + length..])
    {
      for it := 0 to length
        invariant destPos == old(destPos)
        invariant dest[..destPos + it] == CopyBack(old(dest[..destPos]), it, offset)
        invariant dest[destPos + length..] == old(dest[destPos + length..])
      {
        ghost var done := dest[..destPos + it];
        dest[destPos + it] := dest[destPos + it - offset];
        assert dest[..destPos + it + 1] == done + [done[|done| - offset]];
      }
      destPos := destPos + length;
    }

    /** Decoding ended as `r` says: output, position and error. */
    ghost predicate Ended(r: Outcome)
      reads this, dest
    {
      && destPos <= dest.Length && dest[..destPos] == r.out
      && if error == ErrNone then r.status == Okay && r.pos == Pos() else r.status == Error(error)
    }

    /** One symbol of a block: its end, a literal, or a back-reference. */
    method BlockItem(ghost l: Lengths, ghost d: Lengths) returns (last: bool)
      requires Shaped() && Valid() && error == ErrNone && ll.For(l) && distance.For(d)
      requires DecodeBody(stream, Pos(), l, d, dest[..destPos]).status != OutOfBounds
      requires |DecodeBody(stream, Pos(), l, d, dest[..destPos]).out| <= dest.Length
      modifies this`inPtr, this`bitAccum, this`nrBits, this`error, this`destPos, dest
      ensures Valid() && destPos >= old(destPos)
      ensures !last && error == ErrNone ==>
        && DecodeBody(stream, Pos(), l, d, dest[..destPos])
          == DecodeBody(stream, old(Pos()), l, d, old(dest[..destPos]))
        && old(Pos()) < Pos() <= |stream|
      ensures last || error != ErrNone ==> Ended(DecodeBody(stream, old(Pos()), l, d, old(dest[..destPos])))
      ensures dest[destPos..] == old(dest[..])[destPos..]
    {
      hide LsbValue, DecodeFrom, ReadMatch;
      last := false;
      var symbol := NextSymbol(ll, l);
      if error != ErrNone {
        return;
      }
      if symbol == END_OF_BLOCK {
        return true;
      }
      if symbol < END_OF_BLOCK {
        PutLiteral(symbol);
      } else {
        var length, offset := GetMatch(symbol, d);
        if error != ErrNone {
          return;
        }
        CopyMatch(length, offset);
      }
    }

    /** Decodes symbols until the end of the block. */
    method Block(ghost l: Lengths, ghost d: Lengths)
      requires Shaped() && Valid() && error == ErrNone && ll.For(l) && distance.For(d)
      requires DecodeBody(stream, Pos(), l, d, dest[..destPos]).status != OutOfBounds
      requires |DecodeBody(stream, Pos(), l, d, dest[..destPos]).out| <= dest.Length
      modifies this, dest
      ensures Valid()
      ensures Ended(DecodeBody(stream, old(Pos()), l, d, old(dest[..destPos])))
      ensures dest[destPos..] == old(dest[..])[destPos..]
      ensures error == ErrNone ==> destSize == old(destSize) + destPos - old(destPos)
    {
      hide LsbValue, DecodeBody;
      var start, last := destPos, false;
      ghost var r := DecodeBody(stream, Pos(), l, d, dest[..destPos]);
      while !last
        invariant Valid() && error == ErrNone && start <= destPos && destSize == old(destSize)
        invariant !last ==> DecodeBody(stream, Pos(), l, d, dest[..destPos]) == r
        invariant last ==> Ended(r)
        invariant dest[destPos..] == old(dest[..])[destPos..]
        decreases !last, |stream| - Pos()
      {
        last := BlockItem(l, d);
        if error != ErrNone {
          return;
        }
      }
      destSize := destSize + (destPos - start);
    }

    /* ---- Stored data ---- */

    /** Copies `length` input bytes to the output. */
    method CopyStored(length: nat)
      requires Shaped() && inPtr + length <= |source| && destPos + length <= dest.Length
      requires |stream| == 8 * |source|
      modifies dest, this`destPos, this`inPtr
      ensures inPtr == old(inPtr) + length && destPos == old(destPos) + length
      ensures dest[..destPos] == old(dest[..destPos]) + Bytes(stream, old(inPtr), length)
      ensures dest[destPos..] == old(dest[destPos + length..])
    {
      hide BitsOf, LsbValue;
      for it := 0 to length
        invariant inPtr == old(inPtr) + it && destPos == old(destPos) + it
        invariant dest[..destPos] == old(dest[..destPos]) + Bytes(stream, old(inPtr), it)
        invariant dest[old(destPos) + length..] == old(dest[destPos + length..])
      {
        ghost var done := dest[..destPos];
        ByteIsValue(source, inPtr);
        dest[destPos] := source[inPtr];
        destPos := destPos + 1;
        inPtr := inPtr + 1;
        assert dest[..destPos] == done + [source[inPtr - 1]];
      }
    }

    method StoredBlock()
      requires Shaped() && Valid() && error == ErrNone
      requires |DecodeStored(stream, Pos(), dest[..destPos]).out| <= dest.Length
      modifies this, dest
      ensures Valid()
      ensures Ended(DecodeStored(stream, old(Pos()), old(dest[..destPos])))
      ensures dest[destPos..] == old(dest[..])[destPos..]
      ensures error == ErrNone ==> destSize == old(destSize) + destPos - old(destPos)
    {
      hide BitsOf, Bytes;
      assert ByteAfter(Pos()) == inPtr;
      if |source| - inPtr < 4 {
        error := ErrOverflow;
        return;
      }
      TwoBytes(source, inPtr);
      var length := Le16(source[inPtr], source[inPtr + 1]);
      inPtr := inPtr + 4;
      if |source| - inPtr < length {
        error := ErrOverflow;
        return;
      }
      CopyStored(length);
      destSize := destSize + length;
      bitAccum := 0;
      nrBits := 0;
      assert stream[Pos()..8 * inPtr] == [];
    }

    /* ---- Blocks ---- */

    /** One block of type `kind`. */
    method AnyBlock(kind: nat)
      requires Shaped() && Valid() && error == ErrNone
      requires DecodeBlock(stream, Pos(), kind, dest[..destPos]).status != OutOfBounds
      requires |DecodeBlock(stream, Pos(), kind, dest[..destPos]).out| <= dest.Length
      modifies this, dest, Tables()
      ensures Valid()
      ensures Ended(DecodeBlock(stream, old(Pos()), kind, old(dest[..destPos])))
      ensures dest[destPos..] == old(dest[..])[destPos..]
      ensures error == ErrNone ==> destSize == old(destSize) + destPos - old(destPos)
    {
      hide LsbValue, DecodeBody, DecodeStored, ReadTrees;
      if kind == 0 {
        StoredBlock();
      } else if kind == 1 {
        ll.BuildFixedLiteral();
        distance.BuildFixedDistance();
        Block(FixedLiteral(), FixedDistance());
      } else if kind == 2 {
        ghost var l, d := DynamicTree();
        if error == ErrNone {
          Block(l, d);
        }
      } else {
        error := ErrUndefined;
      }
    }

    /** The output and the error are those of `r`. */
    ghost predicate Finished(r: Outcome)
      reads this, dest
    {
      && destPos <= dest.Length && dest[..destPos] == r.out
      && r.status == if error == ErrNone then Okay else Error(error)
    }

    /** A block's three header bits. */
    method BlockHeader() returns (final: nat, kind: nat)
      requires Shaped() && Valid() && error == ErrNone
      modifies this`inPtr, this`bitAccum, this`nrBits, this`error
      ensures Valid()
      ensures error != ErrNone ==> error == ErrOverflow && old(Pos()) + 3 > |stream|
      ensures error == ErrNone ==>
        && Pos() == old(Pos()) + 3 <= |stream|
        && final == stream[Pos() - 3] && kind == LsbValue(stream[Pos() - 2..Pos()])
    {
      hide LsbValue, Pow2;
      OneBit(stream, Pos());
      final := GetBits(1);
      kind := GetBits(2);
    }

    /** Reads a block's header bits and decodes the block. */
    method NextBlock() returns (final: nat)
      requires Shaped() && Valid() && error == ErrNone && destSize == destPos
      requires DecodeBlocks(stream, Pos(), dest[..destPos]).status != OutOfBounds
      requires |DecodeBlocks(stream, Pos(), dest[..destPos]).out| <= dest.Length
      modifies this, dest, Tables()
      ensures Valid() && destPos >= old(destPos)
      ensures final == 0 && error == ErrNone ==>
        && DecodeBlocks(stream, Pos(), dest[..destPos]) == DecodeBlocks(stream, old(Pos()), old(dest[..destPos]))
        && old(Pos()) < Pos() <= |stream|
      ensures final != 0 || error != ErrNone ==>
        Finished(DecodeBlocks(stream, old(Pos()), old(dest[..destPos])))
      ensures destPos <= dest.Length && dest[destPos..] == old(dest[..])[destPos..]
      ensures error == ErrNone ==> destSize == destPos
    {
      hide LsbValue, DecodeBlock;
      var kind;
      final, kind := BlockHeader();
      if error == ErrNone {
        AnyBlock(kind);
      }
    }

    /** All blocks, up to the final one or the first error. */
    method Blocks()
      requires Shaped() && Valid() && error == ErrNone && destSize == destPos
      requires DecodeBlocks(stream, Pos(), dest[..destPos]).status != OutOfBounds
      requires |DecodeBlocks(stream, Pos(), dest[..destPos]).out| <= dest.Length
      modifies this, dest, Tables()
      ensures Valid()
      ensures Finished(DecodeBlocks(stream, old(Pos()), old(dest[..destPos])))
      ensures dest[destPos..] == old(dest[..])[destPos..]
      ensures error == ErrNone ==> destSize == destPos
    {
      hide LsbValue, DecodeBlocks;
      ghost var r := DecodeBlocks(stream, Pos(), dest[..destPos]);
      var final := 0;
      while final == 0 && error == ErrNone
        invariant Valid()
        invariant final == 0 && error == ErrNone ==> DecodeBlocks(stream, Pos(), dest[..destPos]) == r
        invariant final != 0 || error != ErrNone ==> Finished(r)
        invariant dest[destPos..] == old(dest[..])[destPos..]
        invariant error == ErrNone ==> destSize == destPos
        decreases final == 0 && error == ErrNone, |stream| - Pos()
      {
        final := NextBlock();
      }
    }
  }

  /**
   Decompresses `source` into `dest`. The destination must hold what the stream expands to,
   and the stream must stay inside the decoder's tables and the output so far; then the
   result is exactly what `Inflate` says, on well-formed and on malformed streams.
   `destLen` keeps its value on an error.
   */
  method InflateBuffer(dest: array<byte>, destLenIn: nat, source: seq<byte>)
    returns (error: ErrorCode, destLen: nat)
    requires Inflate(source).status != OutOfBounds && |Inflate(source).out| <= dest.Length
    modifies dest
    ensures Inflate(source).status == if error == ErrNone then Okay else Error(error)
    ensures dest[..|Inflate(source).out|] == Inflate(source).out
    ensures forall k :: |Inflate(source).out| <= k < dest.Length ==> dest[k] == old(dest[k])
    ensures destLen == if error == ErrNone then |Inflate(source).out| else destLenIn
  {
    hide DecodeBlocks;
    var d := new Inflater(source, dest);
    assert dest[..0] == [];
    d.Blocks();
    destLen := if d.error == ErrNone then d.destSize else destLenIn;
    error := d.error;
    forall k | |Inflate(source).out| <= k < dest.Length ensures dest[k] == old(dest[k]) {
      assert dest[k] == dest[d.destPos..][k - d.destPos];
    }
  }
}
