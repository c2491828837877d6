/**
 What the inflate decoder computes, as functions of the bit stream. Every function follows
 one function of the decoder, including its error codes; `Undefined` marks the inputs on
 which the decoder would leave its tables or buffers.
 */
module InflateSpec {
  import opened Bits
  import opened Stream
  import opened Huffman
  import opened HuffmanTables

  const END_OF_BLOCK: nat := 256
  const FIRST_LENGTH: nat := 257

  /** The order in which the code-length code lengths are sent (section 3.2.7 of RFC 1951). */
  const CODE_LENGTH_ORDER: seq<nat> :=
    [16, 17, 18, 0, 8, 7, 9, 6, 10, 5, 11, 4, 12, 3, 13, 2, 14, 1, 15]

  const NR_LENGTHS: nat := 29
  const NR_DISTANCES: nat := 30

  /** Extra bits of length symbol `257 + k` (section 3.2.5 of RFC 1951). */
  function LengthBits(k: nat): (b: nat)
    requires k < NR_LENGTHS
    ensures b <= 5
  {
    if k < 8 || k == 28 then 0 else k / 4 - 1
  }

  /** Shortest length of symbol `257 + k`: each symbol starts where the previous one ends. */
  function LengthBase(k: nat): (b: nat)
    requires k < NR_LENGTHS
    ensures b >= 3
  {
    if k == 0 then 3 else if k == 28 then 258 else LengthBase(k - 1) + Pow2(LengthBits(k - 1))
  }

  /** Extra bits of distance symbol `k` (section 3.2.5 of RFC 1951). */
  function DistBits(k: nat): (b: nat)
    requires k < NR_DISTANCES
    ensures b <= 13
  {
    if k < 4 then 0 else k / 2 - 1
  }

  /** Shortest distance of symbol `k`. */
  function DistBase(k: nat): (b: nat)
    requires k < NR_DISTANCES
    ensures b >= 1
  {
    if k == 0 then 1 else DistBase(k - 1) + Pow2(DistBits(k - 1))
  }

  /** How decoding ended. */
  datatype Status = Okay | Error(code: ErrorCode) | OutOfBounds

  /** How decoding ended, where in the stream, and the output written until then. */
  datatype Outcome = Outcome(status: Status, pos: nat, out: seq<byte>)

  /* ---- Dynamic trees ---- */

  function ReadCodeLengths(s: seq<bit>, pos: nat, k: nat, n: nat, acc: Lengths): (r: Parse<Lengths>)
    requires k <= n <= 19 && |acc| == 19
    ensures !r.Undefined?
    ensures r.Parsed? ==> |r.value| == 19 && r.pos == pos + 3 * (n - k)
    ensures r.Parsed? && pos <= |s| ==> r.pos <= |s|
    ensures r.Failed? ==> r.error == ErrOverflow
    decreases n - k
  {
    if k == n then Parsed(acc, pos)
    else
      var (v, p) :- ReadBits(s, pos, 3);
      assert Pow2(3) == 8;
      ReadCodeLengths(s, p, k + 1, n, acc[CODE_LENGTH_ORDER[k] := v])
  }

  /** What a code-length symbol stands for: a code length and how often it is repeated. */
  function ReadRun(s: seq<bit>, pos: nat, symbol: nat, acc: Lengths): (r: Parse<(nat, nat)>)
    requires symbol < 19
    ensures !r.Undefined?
    ensures r.Parsed? ==> r.value.0 < MAX_BITS && 1 <= r.value.1 <= 138 && r.pos >= pos
    ensures r.Parsed? && pos <= |s| ==> r.pos <= |s|
    ensures r.Failed? ==> r.error != ErrNone
  {
    if symbol == 16 then
      if acc == [] then Failed(ErrSymbol)
      else
        assert Pow2(2) == 4;
        var (n, p) :- ReadExtra(s, pos, 2, 3);
        Parsed((acc[|acc| - 1], n), p)
    else if symbol == 17 then
      assert Pow2(3) == 8;
      var (n, p) :- ReadExtra(s, pos, 3, 3);
      Parsed((0, n), p)
    else if symbol == 18 then
      assert Pow2(7) == 128;
      var (n, p) :- ReadExtra(s, pos, 7, 11);
      Parsed((0, n), p)
    else Parsed((symbol, 1), pos)
  }

  /** The code lengths of both alphabets; a run may pass `total` but not the buffer's end. */
  function ReadLengths(s: seq<bit>, pos: nat, codes: Lengths, total: nat, acc: Lengths): (r: Parse<Lengths>)
    requires |codes| == 19
    ensures r.Parsed? ==> total <= |r.value| && r.pos >= pos
    ensures r.Parsed? && pos <= |s| ==> r.pos <= |s|
    ensures r.Failed? ==> r.error != ErrNone
    decreases |s| - pos
  {
    if |acc| >= total then Parsed(acc, pos)
    else
      var (symbol, p) :- DecodeSymbol(s, pos, codes);
      var ((length, n), q) :- ReadRun(s, p, symbol, acc);
      if |acc| + n > MAX_SYMBOLS + MAX_DISTANCE then Undefined
      else ReadLengths(s, q, codes, total, acc + Run(length, n))
  }

  /** HLIT, HDIST and HCLEN, with their offsets added (section 3.2.7 of RFC 1951). */
  function ReadCounts(s: seq<bit>, pos: nat): (r: Parse<(nat, nat, nat)>)
    ensures !r.Undefined?
    ensures r.Parsed? ==> 257 <= r.value.0 <= MAX_SYMBOLS && 1 <= r.value.1 <= MAX_DISTANCE && 4 <= r.value.2 <= 19
    ensures r.Parsed? ==> r.pos == pos + 14 <= |s|
    ensures r.Failed? ==> r.error != ErrNone
  {
    assert Pow2(5) == 32 && Pow2(4) == 16;
    var (hlit, p) :- ReadExtra(s, pos, 5, 257);
    var (hdist, q) :- ReadExtra(s, p, 5, 1);
    var (hclen, e) :- ReadExtra(s, q, 4, 4);
    Parsed((hlit, hdist, hclen), e)
  }

  /** The header of a dynamic block: the literal/length and the distance code lengths. */
  function ReadTrees(s: seq<bit>, pos: nat): (r: Parse<(Lengths, Lengths)>)
    ensures r.Parsed? ==> 257 <= |r.value.0| <= MAX_SYMBOLS && 1 <= |r.value.1| <= MAX_DISTANCE && r.pos >= pos
    ensures r.Parsed? ==> r.pos <= |s|
    ensures r.Failed? ==> r.error != ErrNone
  {
    var ((hlit, hdist, hclen), p) :- ReadCounts(s, pos);
    var (codes, q) :- ReadCodeLengths(s, p, 0, hclen, Run(0, 19));
    var (lengths, e) :- ReadLengths(s, q, codes, hlit + hdist, []);
    Parsed((lengths[..hlit], lengths[hlit..hlit + hdist]), e)
  }

  /**
   Where the length of code-length symbol `i` is sent (section 3.2.7 of RFC 1951): first those
   of the three repeat symbols and of 0, then those of 8, 7, 9, 6 and so on, away from 8 in
   both directions.
   */
  function Field(i: nat): (k: nat)
    requires i < 19
    ensures k < 19
  {
    if i >= 16 then i - 16
    else if i == 0 then 3
    else if i >= 8 then 4 + 2 * (i - 8)
    else 5 + 2 * (7 - i)
  }

  /** The order sends every code-length symbol in its field. */
  lemma OrderOfFields(i: nat)
    requires i < 19
    ensures CODE_LENGTH_ORDER[Field(i)] == i
  {
  }

  /** Every field belongs to one symbol. */
  lemma FieldOfOrder(k: nat)
    requires k < 19
    ensures CODE_LENGTH_ORDER[k] < 19 && Field(CODE_LENGTH_ORDER[k]) == k
  {
  }

  /** The three bits of field `k` behind position `pos`, as a number. */
  function FieldValue(s: seq<bit>, pos: nat, k: nat): (v: nat)
    requires pos + 3 * k + 3 <= |s|
  {
    var at := pos + 3 * k;
    (s[at] as int) + 2 * (s[at + 1] as int) + 4 * (s[at + 2] as int)
  }

  lemma FieldBits(s: seq<bit>, pos: nat)
    requires pos + 3 <= |s|
    ensures LsbValue(s[pos..pos + 3]) == FieldValue(s, pos, 0)
  {
    var b := s[pos..pos + 3];
    assert LsbValue(b[3..]) == 0;
    assert b[2..][1..] == b[3..] && b[1..][1..] == b[2..];
    assert LsbValue(b[2..]) == b[2] as int;
    assert LsbValue(b[1..]) == b[1] as int + 2 * LsbValue(b[2..]);
  }

  /** The first field sets one length and leaves the rest to the others. */
  lemma FirstField(s: seq<bit>, pos: nat, k: nat, n: nat, acc: Lengths)
    requires k < n <= 19 && |acc| == 19 && pos <= |s| && ReadCodeLengths(s, pos, k, n, acc).Parsed?
    ensures pos + 3 <= |s| && FieldValue(s, pos, 0) < 8
    ensures ReadCodeLengths(s, pos, k, n, acc)
            == ReadCodeLengths(s, pos + 3, k + 1, n, acc[CODE_LENGTH_ORDER[k] := FieldValue(s, pos, 0)])
  {
    hide LsbValue, FieldValue;
    assert Pow2(3) == 8;
    FieldBits(s, pos);
  }

  lemma NoFields(s: seq<bit>, pos: nat, n: nat, acc: Lengths)
    requires n <= 19 && |acc| == 19
    ensures ReadCodeLengths(s, pos, n, n, acc) == Parsed(acc, pos)
  {
  }

  lemma SameField(s: seq<bit>, pos: nat, k: nat)
    requires k > 0 && pos + 3 * k + 3 <= |s|
    ensures FieldValue(s, pos + 3, k - 1) == FieldValue(s, pos, k)
  {
  }

  /** Reading the fields `k` to `n` sets the length of each symbol sent there to its three bits. */
  lemma {:induction false} CodeLengthsInFields(s: seq<bit>, pos: nat, k: nat, n: nat, acc: Lengths, i: nat)
    requires k <= n <= 19 && |acc| == 19 && i < 19 && ReadCodeLengths(s, pos, k, n, acc).Parsed? && pos <= |s|
    ensures pos + 3 * (n - k) <= |s|
    ensures ReadCodeLengths(s, pos, k, n, acc).value[i]
            == if k <= Field(i) < n then FieldValue(s, pos, Field(i) - k) else acc[i]
    decreases n - k
  {
    hide ReadCodeLengths, Field, FieldValue;
    if k == n {
      NoFields(s, pos, n, acc);
    } else {
      FieldOfOrder(k);
      OrderOfFields(i);
      FirstField(s, pos, k, n, acc);
      CodeLengthsInFields(s, pos + 3, k + 1, n, acc[CODE_LENGTH_ORDER[k] := FieldValue(s, pos, 0)], i);
      if k < Field(i) < n {
        assert pos + 3 + 3 * (Field(i) - (k + 1)) == pos + 3 * (Field(i) - k);
        SameField(s, pos, Field(i) - k);
      }
    }
  }

  /** `c` has the first `n` fields behind `pos` as the lengths of their symbols, and 0 for the others. */
  predicate SentInFields(s: seq<bit>, pos: nat, n: nat, c: seq<nat>) {
    && |c| == 19 && pos + 3 * n <= |s|
    && forall i :: 0 <= i < 19 ==> c[i] == if Field(i) < n then FieldValue(s, pos, Field(i)) else 0
  }

  /** The code-length code has the lengths sent in its fields. */
  lemma CodeLengthsSent(s: seq<bit>, pos: nat, n: nat)
    requires n <= 19 && ReadCodeLengths(s, pos, 0, n, Run(0, 19)).Parsed? && pos <= |s|
    ensures SentInFields(s, pos, n, ReadCodeLengths(s, pos, 0, n, Run(0, 19)).value)
  {
    hide ReadCodeLengths, FieldValue, Field;
    CodeLengthsInFields(s, pos, 0, n, Run(0, 19), 0);
    forall i | 0 <= i < 19
      ensures ReadCodeLengths(s, pos, 0, n, Run(0, 19)).value[i]
              == if Field(i) < n then FieldValue(s, pos, Field(i)) else 0
    {
      CodeLengthsInFields(s, pos, 0, n, Run(0, 19), i);
    }
  }

  /* ---- Compressed data ---- */

  /** Length and distance of the back-reference that starts with length symbol `symbol`. */
  function ReadMatch(s: seq<bit>, pos: nat, symbol: nat, dl: Lengths): (r: Parse<(nat, nat)>)
    requires symbol >= FIRST_LENGTH
    ensures r.Parsed? ==> 3 <= r.value.0 && 1 <= r.value.1 && r.pos >= pos
    ensures r.Parsed? && pos <= |s| ==> r.pos <= |s|
    ensures r.Failed? ==> r.error != ErrNone
  {
    var k := symbol - FIRST_LENGTH;
    if k >= NR_LENGTHS then Undefined
    else
      var (length, p) :- ReadExtra(s, pos, LengthBits(k), LengthBase(k));
      var (d, q) :- DecodeSymbol(s, p, dl);
      if d >= NR_DISTANCES then Undefined
      else
        var (dist, e) :- ReadExtra(s, q, DistBits(d), DistBase(d));
        Parsed((length, dist), e)
  }

  /** `n` bytes appended, each a copy of the byte `dist` places before it. */
  function CopyBack(out: seq<byte>, n: nat, dist: nat): (r: seq<byte>)
    requires 1 <= dist <= |out|
    ensures |r| == |out| + n && out <= r
  {
    if n == 0 then out
    else
      var r := CopyBack(out, n - 1, dist);
      r + [r[|r| - dist]]
  }

  function DecodeBody(s: seq<bit>, pos: nat, ll: Lengths, dl: Lengths, out: seq<byte>): (r: Outcome)
    ensures out <= r.out
    ensures r.status.Okay? ==> r.pos > pos
    ensures r.status.Okay? && pos <= |s| ==> r.pos <= |s|
    ensures r.status.Error? ==> r.status.code != ErrNone
    decreases |s| - pos
  {
    match DecodeSymbol(s, pos, ll)
    case Failed(e) => Outcome(Error(e), pos, out)
    case Parsed(symbol, p) =>
      if symbol == END_OF_BLOCK then Outcome(Okay, p, out)
      else if symbol < END_OF_BLOCK then DecodeBody(s, p, ll, dl, out + [symbol])
      else
        match ReadMatch(s, p, symbol, dl)
        case Failed(e) => Outcome(Error(e), pos, out)
        case Undefined => Outcome(OutOfBounds, pos, out)
        case Parsed((length, dist), q) =>
          if dist > |out| then Outcome(OutOfBounds, pos, out)
          else DecodeBody(s, q, ll, dl, CopyBack(out, length, dist))
  }

  /* ---- Stored data ---- */

  /** The first byte boundary at or after bit position `pos`. */
  function ByteAfter(pos: nat): (k: nat)
    ensures 8 * k >= pos > 8 * k - 8
  {
    (pos + 7) / 8
  }

  /** The stream's bytes `from` to `from + n - 1`. */
  function Bytes(s: seq<bit>, from: nat, n: nat): (r: seq<byte>)
    requires 8 * (from + n) <= |s|
    ensures |r| == n
  {
    if n == 0 then []
    else
      var last := s[8 * (from + n - 1)..8 * (from + n)];
      LsbBound(last);
      assert Pow2(8) == 256;
      Bytes(s, from, n - 1) + [LsbValue(last)]
  }

  function DecodeStored(s: seq<bit>, pos: nat, out: seq<byte>): (r: Outcome)
    ensures out <= r.out
    ensures r.status.Okay? ==> pos < r.pos <= |s|
    ensures r.status.Error? ==> r.status.code != ErrNone
  {
    var k := ByteAfter(pos);
    if 8 * k + 32 > |s| then Outcome(Error(ErrOverflow), pos, out)
    else
      var length := LsbValue(s[8 * k..8 * k + 16]);
      if 8 * (k + 4 + length) > |s| then Outcome(Error(ErrOverflow), pos, out)
      else Outcome(Okay, 8 * (k + 4 + length), out + Bytes(s, k + 4, length))
  }

  /* ---- Blocks ---- */

  function DecodeBlock(s: seq<bit>, pos: nat, kind: nat, out: seq<byte>): (r: Outcome)
    ensures out <= r.out
    ensures r.status.Okay? ==> pos < r.pos
    ensures r.status.Okay? && pos <= |s| ==> r.pos <= |s|
    ensures r.status.Error? ==> r.status.code != ErrNone
  {
    if kind == 0 then DecodeStored(s, pos, out)
    else if kind == 1 then DecodeBody(s, pos, FixedLiteral(), FixedDistance(), out)
    else if kind == 2 then
      match ReadTrees(s, pos)
      case Failed(e) => Outcome(Error(e), pos, out)
      case Undefined => Outcome(OutOfBounds, pos, out)
      case Parsed((ll, dl), p) => DecodeBody(s, p, ll, dl, out)
    else Outcome(Error(ErrUndefined), pos, out)
  }

  function DecodeBlocks(s: seq<bit>, pos: nat, out: seq<byte>): (r: Outcome)
    ensures out <= r.out
    ensures r.status.Error? ==> r.status.code != ErrNone
    decreases |s| - pos
  {
    if pos + 3 > |s| then Outcome(Error(ErrOverflow), pos, out)
    else
      var kind := LsbValue(s[pos + 1..pos + 3]);
      var r := DecodeBlock(s, pos + 3, kind, out);
      if s[pos] == 1 || !r.status.Okay? then r
      else DecodeBlocks(s, r.pos, r.out)
  }

  /** Decompression of a whole buffer. */
  function Inflate(source: seq<byte>): (r: Outcome)
    ensures r.status.Error? ==> r.status.code != ErrNone
  {
    DecodeBlocks(BitsOf(source), 0, [])
  }

  /* ---- What a back-reference copies ---- */

  lemma ModMinus(k: nat, d: nat)
    requires 1 <= d <= k
    ensures (k - d) % d == k % d
  {
    assert d * (k / d - 1) == d * (k / d) - d;
    MulAtLeast(d, -(k / d));
    DivModUnique(k - d, d, k / d - 1, k % d);
  }

  /** Each copied byte equals the byte `dist` places before it. */
  lemma {:induction false} CopyBackAt(out: seq<byte>, n: nat, dist: nat, k: nat)
    requires 1 <= dist <= |out| && k < n
    ensures CopyBack(out, n, dist)[|out| + k] == CopyBack(out, n, dist)[|out| + k - dist]
  {
    if k < n - 1 {
      CopyBackAt(out, n - 1, dist, k);
    }
  }

  /**
   A copy continues the output periodically: byte `k` of the copy is byte `k mod dist` of
   the last `dist` bytes before it, also where the copy runs into its own output.
   */
  lemma {:induction false} CopyBackPeriodic(out: seq<byte>, n: nat, dist: nat, k: nat)
    requires 1 <= dist <= |out| && k < n
    ensures CopyBack(out, n, dist)[|out| + k] == out[|out| - dist + k % dist]
    decreases k
  {
    if k < dist {
      DivModUnique(k, dist, 0, k);
      CopyBackAt(out, n, dist, k);
    } else {
      hide CopyBack;
      CopyBackAt(out, n, dist, k);
      CopyBackPeriodic(out, n, dist, k - dist);
      ModMinus(k, dist);
      assert |out| + k - dist == |out| + (k - dist);
    }
  }
}
