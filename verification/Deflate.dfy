/**
 The deflate format from the writing side (sections 3.2.3 to 3.2.7 of RFC 1951): blocks of
 literals and back-references, what they expand to, and the bits that encode them. The
 round-trip theorem says that the decoder undoes the encoding of every well-formed list of
 blocks.
 */
module Deflate {
  import opened Bits
  import opened Stream
  import opened Huffman
  import opened HuffmanTables
  import opened InflateSpec
  import opened SymbolTables

  /* ---- Tokens ---- */

  datatype Token = Literal(b: byte) | Match(length: nat, dist: nat)

  /** What tokens append to the output `out`. */
  function Expand(ts: seq<Token>, out: seq<byte>): (r: seq<byte>)
    requires InRange(ts, out)
    decreases |ts|
  {
    if ts == [] then out else Expand(ts[1..], ExpandOne(ts[0], out))
  }

  function ExpandOne(t: Token, out: seq<byte>): (r: seq<byte>)
    requires OneInRange(t, out)
  {
    match t
    case Literal(b) => out + [b]
    case Match(length, dist) => CopyBack(out, length, dist)
  }

  /** A back-reference has a length and a distance the format can express. */
  predicate Sized(t: Token) {
    t.Match? ==> 3 <= t.length <= 258 && 1 <= t.dist <= 32768
  }

  /** ... and stays inside the output so far. */
  predicate OneInRange(t: Token, out: seq<byte>) {
    Sized(t) && (t.Match? ==> t.dist <= |out|)
  }

  predicate InRange(ts: seq<Token>, out: seq<byte>)
    decreases |ts|
  {
    ts == [] || (OneInRange(ts[0], out) && InRange(ts[1..], ExpandOne(ts[0], out)))
  }

  /** The last length symbol (less 257) up to `k` whose lengths start at or below `length`. */
  function LengthIndex(length: nat, k: nat): (j: nat)
    requires k < NR_LENGTHS && length >= 3
    ensures j <= k && LengthBase(j) <= length
    ensures j < k ==> length < LengthBase(j + 1)
  {
    if k == 0 || LengthBase(k) <= length then k else LengthIndex(length, k - 1)
  }

  /** The last distance symbol up to `k` whose distances start at or below `dist`. */
  function DistIndex(dist: nat, k: nat): (j: nat)
    requires k < NR_DISTANCES && dist >= 1
    ensures j <= k && DistBase(j) <= dist
    ensures j < k ==> dist < DistBase(j + 1)
  {
    if k == 0 || DistBase(k) <= dist then k else DistIndex(dist, k - 1)
  }

  function LengthSymbol(length: nat): (j: nat)
    requires length >= 3
    ensures j < NR_LENGTHS
  {
    LengthIndex(length, NR_LENGTHS - 1)
  }

  function DistSymbol(dist: nat): (j: nat)
    requires dist >= 1
    ensures j < NR_DISTANCES
  {
    DistIndex(dist, NR_DISTANCES - 1)
  }

  /** Every length of the format has a symbol whose extra bits reach it. */
  lemma LengthReached(length: nat)
    requires 3 <= length <= 258
    ensures var j := LengthSymbol(length);
            LengthBase(j) <= length < LengthBase(j) + Pow2(LengthBits(j))
  {
    hide LengthBase, LengthBits, Pow2;
    if LengthSymbol(length) == 27 {
      LastRange();
    } else {
      NextLength(LengthSymbol(length));
    }
  }

  /** Up to symbol 27 the lengths of a symbol end where those of the next start. */
  lemma NextLength(j: nat)
    requires j < NR_LENGTHS
    ensures j < 27 ==> LengthBase(j + 1) == LengthBase(j) + Pow2(LengthBits(j))
    ensures j == 28 ==> LengthBase(j) == 258 && Pow2(LengthBits(j)) == 1
  {
  }

  lemma LastRange()
    ensures LengthBase(27) == 227 && Pow2(LengthBits(27)) == 32
  {
    hide LengthBase, LengthBits, Pow2;
    LengthTables(27);
    assert LENGTH_BASE[27] == 227 && LENGTH_BITS[27] == 5;
    SmallPowers();
  }

  lemma LastDistance()
    ensures DistBase(29) == 24577 && Pow2(DistBits(29)) == 8192
  {
    hide DistBase, DistBits, Pow2;
    DistTables(29);
    assert DIST_BASE[29] == 24577 && DIST_BITS[29] == 13;
    SmallPowers();
  }

  /** Every distance of the format has a symbol whose extra bits reach it. */
  lemma DistReached(dist: nat)
    requires 1 <= dist <= 32768
    ensures var j := DistSymbol(dist);
            DistBase(j) <= dist < DistBase(j) + Pow2(DistBits(j))
  {
    if DistSymbol(dist) == 29 {
      LastDistance();
    }
  }

  /* ---- Compressed data ---- */

  /** The symbols of a token have codes that can be written. */
  predicate CanWrite(ll: Lengths, dl: Lengths, t: Token) {
    && Sized(t)
    && match t
       case Literal(b) => Encodable(ll, b)
       case Match(length, dist) =>
         Encodable(ll, FIRST_LENGTH + LengthSymbol(length)) && Encodable(dl, DistSymbol(dist))
  }

  /** The length part, then the distance part of a back-reference (section 3.2.5). */
  function EncodeLength(length: nat): (e: seq<bit>)
    requires 3 <= length
  {
    var j := LengthSymbol(length);
    LsbBits(length - LengthBase(j), LengthBits(j))
  }

  function EncodeDist(dl: Lengths, dist: nat): (e: seq<bit>)
    requires 1 <= dist && Encodable(dl, DistSymbol(dist))
  {
    var k := DistSymbol(dist);
    CodeBits(dl, k) + LsbBits(dist - DistBase(k), DistBits(k))
  }

  function EncodeToken(ll: Lengths, dl: Lengths, t: Token): (e: seq<bit>)
    requires CanWrite(ll, dl, t)
  {
    match t
    case Literal(b) => CodeBits(ll, b)
    case Match(length, dist) =>
      CodeBits(ll, FIRST_LENGTH + LengthSymbol(length)) + (EncodeLength(length) + EncodeDist(dl, dist))
  }

  /** All tokens can be written with the two codes, and so can the end of the block. */
  predicate TokensOk(ll: Lengths, dl: Lengths, ts: seq<Token>) {
    Encodable(ll, END_OF_BLOCK) && forall i :: 0 <= i < |ts| ==> CanWrite(ll, dl, ts[i])
  }

  /** The tokens' codes, then the end-of-block code. */
  function EncodeBody(ll: Lengths, dl: Lengths, ts: seq<Token>): (e: seq<bit>)
    requires TokensOk(ll, dl, ts)
  {
    if ts == [] then CodeBits(ll, END_OF_BLOCK)
    else EncodeToken(ll, dl, ts[0]) + EncodeBody(ll, dl, ts[1..])
  }

  /** Reading back a code and the extra bits after it. */
  lemma CodeThenExtra(s: seq<bit>, pos: nat, lengths: Lengths, x: nat, n: nat, base: nat, v: nat)
    requires Encodable(lengths, x) && v < Pow2(n) && At(s, pos, CodeBits(lengths, x) + LsbBits(v, n))
    ensures DecodeSymbol(s, pos, lengths) == Parsed(x, pos + lengths[x])
    ensures ReadExtra(s, pos + lengths[x], n, base) == Parsed(base + v, pos + lengths[x] + n)
  {
    hide DecodeSymbol, ReadExtra, Code, LsbBits, Pow2, MsbBits;
    AtSplit(s, pos, CodeBits(lengths, x), LsbBits(v, n));
    DecodeWritten(s, pos, lengths, x);
    ReadExtraWritten(s, pos + lengths[x], n, base, v);
  }

  lemma ReadMatchParts(s: seq<bit>, pos: nat, dl: Lengths, j: nat, u: nat, k: nat, v: nat)
    requires j < NR_LENGTHS && k < NR_DISTANCES && Encodable(dl, k)
    requires u < Pow2(LengthBits(j)) && v < Pow2(DistBits(k))
    requires At(s, pos, LsbBits(u, LengthBits(j)) + (CodeBits(dl, k) + LsbBits(v, DistBits(k))))
    ensures ReadMatch(s, pos, FIRST_LENGTH + j, dl)
            == Parsed((LengthBase(j) + u, DistBase(k) + v), pos + LengthBits(j) + dl[k] + DistBits(k))
  {
    hide DecodeSymbol, ReadExtra, LengthBase, DistBase, LengthBits, DistBits, Code, LsbBits, Pow2, MsbBits;
    AtSplit(s, pos, LsbBits(u, LengthBits(j)), CodeBits(dl, k) + LsbBits(v, DistBits(k)));
    ReadExtraWritten(s, pos, LengthBits(j), LengthBase(j), u);
    CodeThenExtra(s, pos + LengthBits(j), dl, k, DistBits(k), DistBase(k), v);
  }

  lemma ReadMatchWritten(s: seq<bit>, pos: nat, dl: Lengths, length: nat, dist: nat)
    requires Sized(Match(length, dist)) && Encodable(dl, DistSymbol(dist))
    requires At(s, pos, EncodeLength(length) + EncodeDist(dl, dist))
    ensures ReadMatch(s, pos, FIRST_LENGTH + LengthSymbol(length), dl)
            == Parsed((length, dist), pos + |EncodeLength(length)| + |EncodeDist(dl, dist)|)
  {
    hide ReadMatch, LengthSymbol, DistSymbol, LengthBase, DistBase, LengthBits, DistBits, Code, LsbBits, Pow2, MsbBits;
    LengthReached(length);
    DistReached(dist);
    var j, k := LengthSymbol(length), DistSymbol(dist);
    ReadMatchParts(s, pos, dl, j, length - LengthBase(j), k, dist - DistBase(k));
  }

  /** A code and what comes behind it. */
  lemma CodeThen(s: seq<bit>, pos: nat, lengths: Lengths, x: nat, rest: seq<bit>)
    requires Encodable(lengths, x) && At(s, pos, CodeBits(lengths, x) + rest)
    ensures DecodeSymbol(s, pos, lengths) == Parsed(x, pos + lengths[x]) && At(s, pos + lengths[x], rest)
  {
    hide DecodeSymbol, Code, MsbBits, At, Pow2;
    AtSplit(s, pos, CodeBits(lengths, x), rest);
    DecodeWritten(s, pos, lengths, x);
  }

  /** The parts of a back-reference's bits. */
  lemma MatchParts(ll: Lengths, dl: Lengths, length: nat, dist: nat)
    requires CanWrite(ll, dl, Match(length, dist))
    ensures Sized(Match(length, dist))
    ensures var x := FIRST_LENGTH + LengthSymbol(length);
            && Encodable(ll, x) && Encodable(dl, DistSymbol(dist))
            && EncodeToken(ll, dl, Match(length, dist))
              == CodeBits(ll, x) + (EncodeLength(length) + EncodeDist(dl, dist))
  {
  }

  lemma MatchWritten(s: seq<bit>, pos: nat, ll: Lengths, dl: Lengths, length: nat, dist: nat)
    requires Sized(Match(length, dist)) && CanWrite(ll, dl, Match(length, dist))
    requires At(s, pos, EncodeToken(ll, dl, Match(length, dist)))
    ensures var x := FIRST_LENGTH + LengthSymbol(length);
            && x < |ll| && DecodeSymbol(s, pos, ll) == Parsed(x, pos + ll[x])
            && ReadMatch(s, pos + ll[x], x, dl)
               == Parsed((length, dist), pos + |EncodeToken(ll, dl, Match(length, dist))|)
  {
    hide DecodeSymbol, ReadMatch, LengthSymbol, DistSymbol, EncodeLength, EncodeDist, EncodeToken, CodeBits, At, Code,
         CanWrite, Pow2;
    var x := FIRST_LENGTH + LengthSymbol(length);
    MatchParts(ll, dl, length, dist);
    CodeThen(s, pos, ll, x, EncodeLength(length) + EncodeDist(dl, dist));
    ReadMatchWritten(s, pos + ll[x], dl, length, dist);
  }

  lemma LiteralWritten(s: seq<bit>, pos: nat, ll: Lengths, dl: Lengths, b: byte, out: seq<byte>)
    requires Encodable(ll, b) && At(s, pos, CodeBits(ll, b))
    ensures DecodeBody(s, pos, ll, dl, out) == DecodeBody(s, pos + ll[b], ll, dl, out + [b])
  {
    hide DecodeSymbol, ReadMatch, CodeBits, At, Code, CopyBack;
    DecodeWritten(s, pos, ll, b);
  }

  lemma CopyWritten(s: seq<bit>, pos: nat, ll: Lengths, dl: Lengths, x: nat, p: nat, length: nat, dist: nat, q: nat,
                    out: seq<byte>)
    requires x >= FIRST_LENGTH && dist <= |out| && 1 <= dist && DecodeSymbol(s, pos, ll) == Parsed(x, p)
    requires ReadMatch(s, p, x, dl) == Parsed((length, dist), q)
    ensures DecodeBody(s, pos, ll, dl, out) == DecodeBody(s, q, ll, dl, CopyBack(out, length, dist))
  {
    hide DecodeSymbol, ReadMatch, CopyBack;
  }

  /** Decoding the bits of a token is one step of expanding it. */
  lemma TokenWritten(s: seq<bit>, pos: nat, ll: Lengths, dl: Lengths, t: Token, out: seq<byte>)
    requires CanWrite(ll, dl, t) && OneInRange(t, out) && At(s, pos, EncodeToken(ll, dl, t))
    ensures DecodeBody(s, pos, ll, dl, out)
            == DecodeBody(s, pos + |EncodeToken(ll, dl, t)|, ll, dl, ExpandOne(t, out))
  {
    hide DecodeBody, DecodeSymbol, ReadMatch, LengthSymbol, DistSymbol, CodeBits, EncodeLength, EncodeDist, CopyBack,
      At;
    match t
    case Literal(b) =>
      LiteralWritten(s, pos, ll, dl, b, out);
    case Match(length, dist) =>
      MatchTokenWritten(s, pos, ll, dl, length, dist, out);
  }

  lemma MatchTokenWritten(s: seq<bit>, pos: nat, ll: Lengths, dl: Lengths, length: nat, dist: nat, out: seq<byte>)
    requires CanWrite(ll, dl, Match(length, dist)) && OneInRange(Match(length, dist), out)
    requires At(s, pos, EncodeToken(ll, dl, Match(length, dist)))
    ensures DecodeBody(s, pos, ll, dl, out)
            == DecodeBody(s, pos + |EncodeToken(ll, dl, Match(length, dist))|, ll, dl, CopyBack(out, length, dist))
  {
    hide DecodeBody, DecodeSymbol, ReadMatch, LengthSymbol, DistSymbol, EncodeToken, CopyBack, At, CanWrite;
    var x := FIRST_LENGTH + LengthSymbol(length);
    var q := pos + |EncodeToken(ll, dl, Match(length, dist))|;
    MatchWritten(s, pos, ll, dl, length, dist);
    CopyWritten(s, pos, ll, dl, x, pos + ll[x], length, dist, q, out);
  }

  lemma EndWritten(s: seq<bit>, pos: nat, ll: Lengths, dl: Lengths, out: seq<byte>)
    requires Encodable(ll, END_OF_BLOCK) && At(s, pos, CodeBits(ll, END_OF_BLOCK))
    ensures DecodeBody(s, pos, ll, dl, out) == Outcome(Okay, pos + ll[END_OF_BLOCK], out)
  {
    hide DecodeSymbol, CodeBits, ReadMatch;
    DecodeWritten(s, pos, ll, END_OF_BLOCK);
  }

  /** Decoding a body undoes encoding it. */
  lemma {:induction false} BodyRoundTrip(s: seq<bit>, pos: nat, ll: Lengths, dl: Lengths, ts: seq<Token>,
                                         out: seq<byte>)
    requires TokensOk(ll, dl, ts) && InRange(ts, out) && At(s, pos, EncodeBody(ll, dl, ts))
    ensures DecodeBody(s, pos, ll, dl, out) == Outcome(Okay, pos + |EncodeBody(ll, dl, ts)|, Expand(ts, out))
    decreases |ts|
  {
    hide DecodeBody, EncodeToken, CanWrite, ExpandOne, OneInRange, CodeBits;
    if ts == [] {
      EndWritten(s, pos, ll, dl, out);
    } else {
      var t, rest := EncodeToken(ll, dl, ts[0]), EncodeBody(ll, dl, ts[1..]);
      AtSplit(s, pos, t, rest);
      TokenWritten(s, pos, ll, dl, ts[0], out);
      BodyRoundTrip(s, pos + |t|, ll, dl, ts[1..], ExpandOne(ts[0], out));
    }
  }

  /** The longest length has a symbol of its own, without extra bits. */
  lemma LongestLength()
    ensures LengthSymbol(258) == 28 && LengthBits(28) == 0
  {
    NextLength(28);
  }

  /** Each symbol reaches at most the largest length or distance. */
  lemma LengthRange(j: nat)
    requires j < NR_LENGTHS
    ensures LengthBase(j) + Pow2(LengthBits(j)) - 1 <= 258
  {
    hide LengthBase, LengthBits, Pow2;
    LengthTables(j);
    SmallPower(LENGTH_BITS[j]);
  }

  lemma DistRange(j: nat)
    requires j < NR_DISTANCES
    ensures DistBase(j) + Pow2(DistBits(j)) - 1 <= 32768
  {
    hide DistBase, DistBits, Pow2;
    DistTables(j);
    DistPower(DIST_BITS[j]);
  }

  /** Every back-reference that can be read is a token of the format. */
  lemma MatchSized(s: seq<bit>, pos: nat, symbol: nat, dl: Lengths)
    requires symbol >= FIRST_LENGTH && ReadMatch(s, pos, symbol, dl).Parsed?
    ensures var (length, dist) := ReadMatch(s, pos, symbol, dl).value; Sized(Match(length, dist))
  {
    hide DecodeSymbol, LengthBase, LengthBits, DistBase, DistBits, Pow2, LsbValue, ReadExtra;
    var k := symbol - FIRST_LENGTH;
    var (length, p) := ReadExtra(s, pos, LengthBits(k), LengthBase(k)).Extract();
    var (d, q) := DecodeSymbol(s, p, dl).Extract();
    LengthRange(k);
    DistRange(d);
  }

  /**
   Every body that decodes is one of tokens of the format: its output is their expansion, and no
   back-reference reaches before the start of the output.
   */
  lemma {:induction false} BodyIsTokens(s: seq<bit>, pos: nat, ll: Lengths, dl: Lengths, out: seq<byte>)
    returns (ts: seq<Token>)
    requires DecodeBody(s, pos, ll, dl, out).status.Okay?
    ensures InRange(ts, out) && DecodeBody(s, pos, ll, dl, out).out == Expand(ts, out)
    decreases |s| - pos
  {
    hide DecodeSymbol, ReadMatch, CopyBack, Sized;
    var (symbol, p) := DecodeSymbol(s, pos, ll).Extract();
    if symbol == END_OF_BLOCK {
      ts := [];
    } else if symbol < END_OF_BLOCK {
      LiteralSized(symbol);
      ts := BodyIsTokens(s, p, ll, dl, out + [symbol]);
      ts := FirstToken(Literal(symbol), ts, out);
    } else {
      var ((length, dist), q) := ReadMatch(s, p, symbol, dl).Extract();
      MatchSized(s, p, symbol, dl);
      ts := BodyIsTokens(s, q, ll, dl, CopyBack(out, length, dist));
      ts := FirstToken(Match(length, dist), ts, out);
    }
  }

  lemma LiteralSized(b: byte)
    ensures Sized(Literal(b))
  {
  }

  lemma FirstToken(t: Token, rest: seq<Token>, out: seq<byte>) returns (ts: seq<Token>)
    requires OneInRange(t, out) && InRange(rest, ExpandOne(t, out))
    ensures InRange(ts, out) && Expand(ts, out) == Expand(rest, ExpandOne(t, out))
  {
    ts := [t] + rest;
    assert ts[1..] == rest;
  }

  /* ---- Dynamic headers ---- */

  /** A code-length symbol: one length, the previous length again, or zeros. */
  datatype LengthRun = One(length: nat) | Again(n: nat) | Zeros(n: nat) | ManyZeros(n: nat)

  predicate RunOk(r: LengthRun, acc: Lengths) {
    match r
    case One(length) => length < MAX_BITS
    case Again(n) => 3 <= n <= 6 && acc != []
    case Zeros(n) => 3 <= n <= 10
    case ManyZeros(n) => 11 <= n <= 138
  }

  /** The code lengths after a run. */
  function Append(r: LengthRun, acc: Lengths): (s: Lengths)
    requires RunOk(r, acc)
    ensures |s| > |acc|
  {
    match r
    case One(length) => acc + Run(length, 1)
    case Again(n) => acc + Run(acc[|acc| - 1], n)
    case Zeros(n) => acc + Run(0, n)
    case ManyZeros(n) => acc + Run(0, n)
  }

  /** Runs that fill up exactly `total` code lengths. */
  predicate RunsOk(rs: seq<LengthRun>, acc: Lengths, total: nat)
    decreases |rs|
  {
    if rs == [] then |acc| == total
    else RunOk(rs[0], acc) && RunsOk(rs[1..], Append(rs[0], acc), total)
  }

  function Unroll(rs: seq<LengthRun>, acc: Lengths, total: nat): (s: Lengths)
    requires RunsOk(rs, acc, total)
    ensures |s| == total
    ensures |acc| <= total && (rs != [] ==> |acc| < total)
    decreases |rs|
  {
    if rs == [] then acc else Unroll(rs[1..], Append(rs[0], acc), total)
  }

  function RunSymbol(r: LengthRun): (x: nat) {
    match r
    case One(length) => length
    case Again(_) => 16
    case Zeros(_) => 17
    case ManyZeros(_) => 18
  }

  function RunExtra(r: LengthRun): (e: seq<bit>) {
    match r
    case One(_) => []
    case Again(n) => if n < 3 then [] else LsbBits(n - 3, 2)
    case Zeros(n) => if n < 3 then [] else LsbBits(n - 3, 3)
    case ManyZeros(n) => if n < 11 then [] else LsbBits(n - 11, 7)
  }

  function EncodeRun(codes: Lengths, r: LengthRun): (e: seq<bit>)
    requires Encodable(codes, RunSymbol(r))
  {
    CodeBits(codes, RunSymbol(r)) + RunExtra(r)
  }

  /** The symbols of the runs have codes. */
  predicate RunsEncodable(codes: Lengths, rs: seq<LengthRun>) {
    forall i :: 0 <= i < |rs| ==> Encodable(codes, RunSymbol(rs[i]))
  }

  function EncodeRuns(codes: Lengths, rs: seq<LengthRun>): (e: seq<bit>)
    requires RunsEncodable(codes, rs)
  {
    if rs == [] then []
    else
      assert Encodable(codes, RunSymbol(rs[0]));
      EncodeRun(codes, rs[0]) + EncodeRuns(codes, rs[1..])
  }

  lemma ReadRunWritten(s: seq<bit>, pos: nat, r: LengthRun, acc: Lengths)
    requires RunOk(r, acc) && At(s, pos, RunExtra(r))
    ensures var p := ReadRun(s, pos, RunSymbol(r), acc);
            && p.Parsed? && p.pos == pos + |RunExtra(r)|
            && Append(r, acc) == acc + Run(p.value.0, p.value.1)
  {
    hide Pow2, LsbBits, ReadExtra, At;
    SmallPowers();
    match r
    case One(length) =>
    case Again(n) => ReadExtraWritten(s, pos, 2, 3, n - 3);
    case Zeros(n) => ReadExtraWritten(s, pos, 3, 3, n - 3);
    case ManyZeros(n) => ReadExtraWritten(s, pos, 7, 11, n - 11);
  }

  /** Reading a run appends its code lengths. */
  lemma RunWritten(s: seq<bit>, pos: nat, codes: Lengths, r: LengthRun, acc: Lengths, total: nat)
    requires |codes| == 19 && |acc| < total && RunOk(r, acc) && Encodable(codes, RunSymbol(r))
    requires |Append(r, acc)| <= MAX_SYMBOLS + MAX_DISTANCE && At(s, pos, EncodeRun(codes, r))
    ensures ReadLengths(s, pos, codes, total, acc)
            == ReadLengths(s, pos + |EncodeRun(codes, r)|, codes, total, Append(r, acc))
  {
    hide DecodeSymbol, ReadRun, CodeBits, RunExtra, Append, RunOk;
    var x := RunSymbol(r);
    AtSplit(s, pos, CodeBits(codes, x), RunExtra(r));
    DecodeWritten(s, pos, codes, x);
    ReadRunWritten(s, pos + codes[x], r, acc);
  }

  lemma FirstRun(codes: Lengths, rs: seq<LengthRun>, acc: Lengths, total: nat)
    requires |codes| == 19 && RunsOk(rs, acc, total) && RunsEncodable(codes, rs) && rs != []
    ensures RunOk(rs[0], acc) && Encodable(codes, RunSymbol(rs[0])) && RunsEncodable(codes, rs[1..])
    ensures RunsOk(rs[1..], Append(rs[0], acc), total) && |acc| < |Append(rs[0], acc)| <= total
    ensures Unroll(rs, acc, total) == Unroll(rs[1..], Append(rs[0], acc), total)
    ensures EncodeRuns(codes, rs) == EncodeRun(codes, rs[0]) + EncodeRuns(codes, rs[1..])
  {
    hide EncodeRun, Append, RunOk, Encodable, RunSymbol;
    assert |Append(rs[0], acc)| <= |Unroll(rs[1..], Append(rs[0], acc), total)|;
  }

  lemma NoRuns(s: seq<bit>, pos: nat, codes: Lengths, acc: Lengths, total: nat)
    requires |codes| == 19 && total <= MAX_SYMBOLS + MAX_DISTANCE && RunsOk([], acc, total)
    ensures ReadLengths(s, pos, codes, total, acc) == Parsed(acc, pos) && Unroll([], acc, total) == acc
  {
  }

  /** Reading the lengths undoes writing the runs. */
  lemma {:induction false} RunsRoundTrip(s: seq<bit>, pos: nat, codes: Lengths, rs: seq<LengthRun>, acc: Lengths,
                                         total: nat)
    requires |codes| == 19 && total <= MAX_SYMBOLS + MAX_DISTANCE && RunsOk(rs, acc, total) && RunsEncodable(codes, rs)
    requires At(s, pos, EncodeRuns(codes, rs))
    ensures ReadLengths(s, pos, codes, total, acc)
            == Parsed(Unroll(rs, acc, total), pos + |EncodeRuns(codes, rs)|)
    decreases |rs|
  {
    hide EncodeRun, Append, RunOk, Encodable, RunSymbol, At, ReadLengths, Unroll, RunsOk, RunsEncodable;
    if rs == [] {
      NoRuns(s, pos, codes, acc, total);
    } else {
      hide EncodeRuns;
      FirstRun(codes, rs, acc, total);
      var e, next := EncodeRun(codes, rs[0]), Append(rs[0], acc);
      AtSplit(s, pos, e, EncodeRuns(codes, rs[1..]));
      RunWritten(s, pos, codes, rs[0], acc, total);
      RunsRoundTrip(s, pos + |e|, codes, rs[1..], next, total);
    }
  }

  /** The run that a code-length symbol with its extra bits stands for. */
  lemma RunRead(s: seq<bit>, pos: nat, symbol: nat, acc: Lengths) returns (r: LengthRun)
    requires symbol < 19 && ReadRun(s, pos, symbol, acc).Parsed?
    ensures RunSymbol(r) == symbol && RunOk(r, acc)
    ensures var (length, n) := ReadRun(s, pos, symbol, acc).value; Append(r, acc) == acc + Run(length, n)
  {
    hide LsbValue;
    SmallPowers();
    var (length, n) := ReadRun(s, pos, symbol, acc).value;
    r := if symbol == 16 then Again(n) else if symbol == 17 then Zeros(n) else if symbol == 18 then ManyZeros(n)
         else One(length);
  }

  lemma {:induction false} LengthsGrow(s: seq<bit>, pos: nat, codes: Lengths, total: nat, acc: Lengths)
    requires |codes| == 19 && ReadLengths(s, pos, codes, total, acc).Parsed?
    ensures |acc| <= |ReadLengths(s, pos, codes, total, acc).value|
    decreases |s| - pos
  {
    hide DecodeSymbol, ReadRun;
    if |acc| < total {
      var (symbol, p) := DecodeSymbol(s, pos, codes).Extract();
      var ((length, n), q) := ReadRun(s, p, symbol, acc).Extract();
      LengthsGrow(s, q, codes, total, acc + Run(length, n));
    }
  }

  /** A symbol that is decoded has a code that fits its length. */
  lemma DecodedEncodable(s: seq<bit>, pos: nat, lengths: Lengths)
    requires DecodeSymbol(s, pos, lengths).Parsed?
    ensures Encodable(lengths, DecodeSymbol(s, pos, lengths).value)
  {
    hide DecodeSymbol, Code;
    var x := DecodeSymbol(s, pos, lengths).value;
    DecodeIffCode(s, pos, lengths, x);
    MsbBound(s[pos..pos + lengths[x]]);
  }

  /** All lengths that can be read, and end where they should, are spelled out by some runs. */
  lemma {:induction false} LengthsAreRuns(s: seq<bit>, pos: nat, codes: Lengths, total: nat, acc: Lengths)
    returns (rs: seq<LengthRun>)
    requires |codes| == 19 && |acc| <= total
    requires ReadLengths(s, pos, codes, total, acc).Parsed? && |ReadLengths(s, pos, codes, total, acc).value| == total
    ensures RunsOk(rs, acc, total) && Unroll(rs, acc, total) == ReadLengths(s, pos, codes, total, acc).value
    ensures RunsEncodable(codes, rs)
    decreases |s| - pos
  {
    hide DecodeSymbol, ReadRun, RunOk, Append, Encodable, RunSymbol;
    if |acc| == total {
      rs := [];
    } else {
      var (symbol, p) := DecodeSymbol(s, pos, codes).Extract();
      var ((length, n), q) := ReadRun(s, p, symbol, acc).Extract();
      var r := RunRead(s, p, symbol, acc);
      DecodedEncodable(s, pos, codes);
      LengthsGrow(s, q, codes, total, acc + Run(length, n));
      var rest := LengthsAreRuns(s, q, codes, total, acc + Run(length, n));
      rs := [r] + rest;
      assert rs[1..] == rest;
    }
  }

  /** The code-length code lengths from the `k`-th on, three bits each, in their odd order. */
  function EncodeCodes(codes: Lengths, k: nat, n: nat): (e: seq<bit>)
    requires k <= n <= 19 && |codes| == 19
    ensures |e| == 3 * (n - k)
    decreases n - k
  {
    if k == n then [] else LsbBits(codes[CODE_LENGTH_ORDER[k]], 3) + EncodeCodes(codes, k + 1, n)
  }

  /** `a` and `b` agree on the lengths sent before the `k`-th and on those not among the first `n`. */
  predicate Agree(a: Lengths, b: Lengths, k: nat, n: nat) {
    && |a| == 19 && |b| == 19
    && forall j :: 0 <= j < 19 && (j < k || n <= j) ==> a[CODE_LENGTH_ORDER[j]] == b[CODE_LENGTH_ORDER[j]]
  }

  lemma AgreeAll(a: Lengths, b: Lengths, n: nat)
    requires Agree(a, b, n, n)
    ensures a == b
  {
    forall i | 0 <= i < 19 ensures a[i] == b[i] {
      OrderOfFields(i);
    }
  }

  lemma AgreeStep(a: Lengths, b: Lengths, k: nat, n: nat)
    requires k < n <= 19 && Agree(a, b, k, n)
    ensures var i := CODE_LENGTH_ORDER[k]; Agree(a[i := b[i]], b, k + 1, n)
  {
  }

  lemma {:induction false} CodesRoundTrip(s: seq<bit>, pos: nat, codes: Lengths, k: nat, n: nat, acc: Lengths)
    requires k <= n <= 19 && |acc| == 19 && |codes| == 19 && Agree(acc, codes, k, n)
    requires forall i :: 0 <= i < 19 ==> codes[i] < 8
    requires At(s, pos, EncodeCodes(codes, k, n))
    ensures ReadCodeLengths(s, pos, k, n, acc) == Parsed(codes, pos + 3 * (n - k))
    decreases n - k
  {
    hide Agree, LsbBits, LsbValue;
    if k == n {
      AgreeAll(acc, codes, n);
    } else {
      var i := CODE_LENGTH_ORDER[k];
      AtSplit(s, pos, LsbBits(codes[i], 3), EncodeCodes(codes, k + 1, n));
      SmallPowers();
      LsbRoundTrip(codes[i], 3);
      AgreeStep(acc, codes, k, n);
      CodesRoundTrip(s, pos + 3, codes, k + 1, n, acc[i := codes[i]]);
    }
  }

  /**
   What a dynamic header sends: how many lengths of each kind, the code-length code, and
   the runs that spell out the lengths.
   */
  datatype Header = Header(hlit: nat, hdist: nat, hclen: nat, codes: Lengths, runs: seq<LengthRun>)

  predicate HeaderOk(h: Header) {
    && 257 <= h.hlit <= MAX_SYMBOLS && 1 <= h.hdist <= MAX_DISTANCE && 4 <= h.hclen <= 19
    && Agree(Run(0, 19), h.codes, 0, h.hclen)
    && (forall i :: 0 <= i < 19 ==> h.codes[i] < 8)
    && RunsOk(h.runs, [], h.hlit + h.hdist)
    && RunsEncodable(h.codes, h.runs)
  }

  /** All code lengths of a header; the literal/length ones come first. */
  function AllLengths(h: Header): (s: Lengths)
    requires HeaderOk(h)
    ensures |s| == h.hlit + h.hdist
  {
    Unroll(h.runs, [], h.hlit + h.hdist)
  }

  function LiteralLengths(h: Header): (s: Lengths)
    requires HeaderOk(h)
  {
    AllLengths(h)[..h.hlit]
  }

  function DistanceLengths(h: Header): (s: Lengths)
    requires HeaderOk(h)
  {
    AllLengths(h)[h.hlit..h.hlit + h.hdist]
  }

  function EncodeCounts(h: Header): (e: seq<bit>)
    requires HeaderOk(h)
    ensures |e| == 14
  {
    LsbBits(h.hlit - 257, 5) + (LsbBits(h.hdist - 1, 5) + LsbBits(h.hclen - 4, 4))
  }

  function EncodeHeader(h: Header): (e: seq<bit>)
    requires HeaderOk(h)
  {
    EncodeCounts(h) + (EncodeCodes(h.codes, 0, h.hclen) + EncodeRuns(h.codes, h.runs))
  }

  lemma CountsRoundTrip(s: seq<bit>, pos: nat, h: Header)
    requires HeaderOk(h) && At(s, pos, EncodeCounts(h))
    ensures ReadCounts(s, pos) == Parsed((h.hlit, h.hdist, h.hclen), pos + 14)
  {
    SmallPowers();
    hide Pow2, LsbBits, ReadExtra;
    AtSplit(s, pos, LsbBits(h.hlit - 257, 5), LsbBits(h.hdist - 1, 5) + LsbBits(h.hclen - 4, 4));
    AtSplit(s, pos + 5, LsbBits(h.hdist - 1, 5), LsbBits(h.hclen - 4, 4));
    ReadExtraWritten(s, pos, 5, 257, h.hlit - 257);
    ReadExtraWritten(s, pos + 5, 5, 1, h.hdist - 1);
    ReadExtraWritten(s, pos + 10, 4, 4, h.hclen - 4);
  }

  /** Reading a dynamic header undoes writing it. */
  lemma HeaderRoundTrip(s: seq<bit>, pos: nat, h: Header)
    requires HeaderOk(h) && At(s, pos, EncodeHeader(h))
    ensures ReadTrees(s, pos) == Parsed((LiteralLengths(h), DistanceLengths(h)), pos + |EncodeHeader(h)|)
  {
    hide ReadCounts, ReadLengths, ReadCodeLengths, EncodeRuns, EncodeCodes, EncodeCounts, RunsOk, Encodable, Unroll;
    var codes, runs := EncodeCodes(h.codes, 0, h.hclen), EncodeRuns(h.codes, h.runs);
    AtSplit(s, pos, EncodeCounts(h), codes + runs);
    AtSplit(s, pos + 14, codes, runs);
    CountsRoundTrip(s, pos, h);
    CodesRoundTrip(s, pos + 14, h.codes, 0, h.hclen, Run(0, 19));
    RunsRoundTrip(s, pos + 14 + |codes|, h.codes, h.runs, [], h.hlit + h.hdist);
  }

  /** The code-length code of a header that can be read. */
  lemma CodesRead(s: seq<bit>, pos: nat, n: nat)
    requires n <= 19 && pos <= |s| && ReadCodeLengths(s, pos, 0, n, Run(0, 19)).Parsed?
    ensures var codes := ReadCodeLengths(s, pos, 0, n, Run(0, 19)).value;
            Agree(Run(0, 19), codes, 0, n) && forall i :: 0 <= i < 19 ==> codes[i] < 8
  {
    hide ReadCodeLengths, Field;
    CodeLengthsSent(s, pos, n);
    var codes := ReadCodeLengths(s, pos, 0, n, Run(0, 19)).value;
    forall j | 0 <= j < 19 && n <= j ensures codes[CODE_LENGTH_ORDER[j]] == 0 {
      FieldOfOrder(j);
    }
  }

  /**
   Every dynamic header that can be read, and whose runs end where they should, is one of those
   that can be written, with the same two trees.
   */
  lemma HeaderRead(s: seq<bit>, pos: nat) returns (h: Header)
    requires ReadTrees(s, pos).Parsed? && RunsEnd(s, pos)
    ensures HeaderOk(h) && (LiteralLengths(h), DistanceLengths(h)) == ReadTrees(s, pos).value
  {
    hide ReadCounts, ReadCodeLengths, ReadLengths, RunsOk, Unroll, Agree, RunsEncodable;
    var ((hlit, hdist, hclen), p) := ReadCounts(s, pos).Extract();
    var (codes, q) := ReadCodeLengths(s, p, 0, hclen, Run(0, 19)).Extract();
    CodesRead(s, p, hclen);
    var runs := LengthsAreRuns(s, q, codes, hlit + hdist, []);
    h := Header(hlit, hdist, hclen, codes, runs);
  }

  /** The runs of a header end exactly behind the last length. */
  predicate RunsEnd(s: seq<bit>, pos: nat)
    requires ReadTrees(s, pos).Parsed?
  {
    hide ReadCounts, ReadCodeLengths, ReadLengths;
    var ((hlit, hdist, hclen), p) := ReadCounts(s, pos).Extract();
    var (codes, q) := ReadCodeLengths(s, p, 0, hclen, Run(0, 19)).Extract();
    |ReadLengths(s, q, codes, hlit + hdist, []).value| == hlit + hdist
  }

  /* ---- Stored data ---- */

  lemma {:induction false} BytesWritten(s: seq<bit>, from: nat, data: seq<byte>)
    requires At(s, 8 * from, BitsOf(data))
    ensures Bytes(s, from, |data|) == data
    decreases |data|
  {
    if data != [] {
      hide LsbBits, Bytes, At;
      var init, last := data[..|data| - 1], data[|data| - 1];
      AtSplit(s, 8 * from, BitsOf(init), LsbBits(last, 8));
      assert data == init + [last];
      BytesWritten(s, from, init);
      LastByte(s, from, |init|, last);
    }
  }

  /** One more byte. */
  lemma LastByte(s: seq<bit>, from: nat, n: nat, x: byte)
    requires At(s, 8 * from + 8 * n, LsbBits(x, 8))
    ensures 8 * (from + n + 1) <= |s| && Bytes(s, from, n + 1) == Bytes(s, from, n) + [x]
  {
    hide LsbBits, LsbValue, Pow2;
    SmallPowers();
    LsbRoundTrip(x, 8);
    assert s[8 * (from + n)..8 * (from + n + 1)] == LsbBits(x, 8);
  }

  /* ---- Blocks ---- */

  datatype Block =
    | Stored(pad: seq<bit>, data: seq<byte>)
    | Fixed(tokens: seq<Token>)
    | Dynamic(header: Header, tokens: seq<Token>)

  /** Padding bits from `pos` to the byte boundary. */
  predicate Pads(pad: seq<bit>, pos: nat) {
    pos + |pad| == 8 * ByteAfter(pos)
  }

  /** Padding has less than eight bits and ends on a byte boundary. */
  lemma PadsIff(pad: seq<bit>, pos: nat)
    ensures Pads(pad, pos) <==> |pad| < 8 && (pos + |pad|) % 8 == 0
  {
  }

  /** The block's symbols have codes. The fixed codes can write every token of the format. */
  predicate Writable(b: Block) {
    match b
    case Stored(pad, data) => |data| < 0x1_0000
    case Fixed(tokens) => forall i :: 0 <= i < |tokens| ==> Sized(tokens[i])
    case Dynamic(h, tokens) => HeaderOk(h) && TokensOk(LiteralLengths(h), DistanceLengths(h), tokens)
  }

  /**
   A block that can be written at bit `pos` (its type bits included) when `out` has been
   produced: the padding of a stored block ends at a byte boundary, and back-references
   refer to existing output.
   */
  predicate BlockOk(b: Block, pos: nat, out: seq<byte>) {
    Writable(b) && match b
                   case Stored(pad, data) => Pads(pad, pos + 3)
                   case Fixed(tokens) => InRange(tokens, out)
                   case Dynamic(_, tokens) => InRange(tokens, out)
  }

  function ExpandBlock(b: Block, out: seq<byte>): (r: seq<byte>)
    requires b.Stored? || InRange(b.tokens, out)
  {
    match b
    case Stored(_, data) => out + data
    case Fixed(tokens) => Expand(tokens, out)
    case Dynamic(_, tokens) => Expand(tokens, out)
  }

  function Kind(b: Block): (k: nat)
    ensures k < 3
  {
    match b case Stored(_, _) => 0 case Fixed(_) => 1 case Dynamic(_, _) => 2
  }

  /** Padding, length, its complement, and the bytes (section 3.2.4). */
  function EncodeStored(pad: seq<bit>, data: seq<byte>): (e: seq<bit>)
    requires |data| < 0x1_0000
  {
    pad + (LsbBits(|data|, 16) + (LsbBits(0xFFFF - |data|, 16) + BitsOf(data)))
  }

  /** The fixed codes have a code for every symbol a token needs. */
  lemma FixedCanWrite(t: Token)
    requires Sized(t)
    ensures CanWrite(FixedLiteral(), FixedDistance(), t) && Encodable(FixedLiteral(), END_OF_BLOCK)
  {
    FixedEncodable(END_OF_BLOCK);
    match t
    case Literal(b) => FixedEncodable(b);
    case Match(length, dist) =>
      FixedEncodable(FIRST_LENGTH + LengthSymbol(length));
      FixedDistEncodable(DistSymbol(dist));
  }

  lemma FixedFirstCodes()
    ensures FirstCode(FixedLiteral(), 7) == 0 && FirstCode(FixedLiteral(), 8) == 48
    ensures FirstCode(FixedLiteral(), 9) == 400
  {
    FixedLiteralCounts();
    FixedLowCodes(7);
  }

  lemma {:induction false} FixedLowCodes(l: nat)
    requires l <= 7
    ensures FirstCode(FixedLiteral(), l) == 0
  {
    if l > 0 {
      FixedLowCodes(l - 1);
      FixedLiteralCounts();
    }
  }

  /** The fixed literal/length codes, as the table of section 3.2.6 of RFC 1951 lists them. */
  lemma FixedCode(x: nat)
    requires x < 288
    ensures FixedLiteral()[x] == (if x < 144 then 8 else if x < 256 then 9 else if x < 280 then 7 else 8)
    ensures Code(FixedLiteral(), x) == if x < 144 then 0x30 + x else if x < 256 then 0x190 + (x - 144)
                                       else if x < 280 then x - 256 else 0xC0 + (x - 280)
  {
    hide FixedLiteral, FirstCode, Rank;
    FixedRank(x);
    FixedFirstCodes();
  }

  /** The fixed distance codes are the five bits of the symbol. */
  lemma FixedDistCode(x: nat)
    requires x < 32
    ensures FixedDistance()[x] == 5 && Code(FixedDistance(), x) == x
  {
    FixedDistLowCodes(5);
    assert FixedDistance()[..x] == Run(5, x);
    CountRun(5, x, 5);
  }

  lemma FixedEncodable(x: nat)
    requires x < 288
    ensures Encodable(FixedLiteral(), x)
  {
    hide FixedLiteral, FirstCode, Rank;
    FixedRank(x);
    FixedFirstCodes();
    SmallPowers();
  }

  lemma {:induction false} FixedDistLowCodes(l: nat)
    requires l <= 5
    ensures FirstCode(FixedDistance(), l) == 0
  {
    if l > 0 {
      FixedDistLowCodes(l - 1);
      FixedDistanceTables();
    }
  }

  lemma FixedDistEncodable(x: nat)
    requires x < 32
    ensures Encodable(FixedDistance(), x)
  {
    FixedDistLowCodes(5);
    FixedDistanceTables();
    FixedDistanceBelow(5);
    SmallPowers();
  }

  lemma FixedTokensOk(ts: seq<Token>)
    requires forall i :: 0 <= i < |ts| ==> Sized(ts[i])
    ensures TokensOk(FixedLiteral(), FixedDistance(), ts)
  {
    FixedEncodable(END_OF_BLOCK);
    forall i | 0 <= i < |ts| ensures CanWrite(FixedLiteral(), FixedDistance(), ts[i]) {
      FixedCanWrite(ts[i]);
    }
  }

  /** The contents of a block, after its type bits. */
  function EncodeContents(b: Block): (e: seq<bit>)
    requires Writable(b)
  {
    match b
    case Stored(pad, data) => EncodeStored(pad, data)
    case Fixed(tokens) =>
      FixedTokensOk(tokens);
      EncodeBody(FixedLiteral(), FixedDistance(), tokens)
    case Dynamic(h, tokens) =>
      EncodeHeader(h) + EncodeBody(LiteralLengths(h), DistanceLengths(h), tokens)
  }

  /** A block: the final bit, two type bits, the contents (section 3.2.3). */
  function EncodeBlock(b: Block, final: bit): (e: seq<bit>)
    requires Writable(b)
  {
    [final] + (LsbBits(Kind(b), 2) + EncodeContents(b))
  }

  lemma StoredRoundTrip(s: seq<bit>, pos: nat, pad: seq<bit>, data: seq<byte>, out: seq<byte>)
    requires Pads(pad, pos) && |data| < 0x1_0000 && At(s, pos, EncodeStored(pad, data))
    ensures DecodeStored(s, pos, out) == Outcome(Okay, pos + |EncodeStored(pad, data)|, out + data)
  {
    hide LsbBits, LsbValue, BitsOf, Pow2, Bytes;
    var k := ByteAfter(pos);
    var len, nlen, bytes := LsbBits(|data|, 16), LsbBits(0xFFFF - |data|, 16), BitsOf(data);
    AtSplit(s, pos, pad, len + (nlen + bytes));
    AtSplit(s, 8 * k, len, nlen + bytes);
    AtSplit(s, 8 * k + 16, nlen, bytes);
    Pow2Add(8, 8);
    SmallPowers();
    LsbRoundTrip(|data|, 16);
    BytesWritten(s, k + 4, data);
  }

  /** What decoding the header and the body of a dynamic block gives. */
  lemma DynamicRoundTrip(s: seq<bit>, pos: nat, h: Header, tokens: seq<Token>, out: seq<byte>)
    requires pos >= 3 && Writable(Dynamic(h, tokens)) && InRange(tokens, out)
    requires At(s, pos, EncodeContents(Dynamic(h, tokens)))
    ensures DecodeBlock(s, pos, 2, out)
            == Outcome(Okay, pos + |EncodeContents(Dynamic(h, tokens))|, Expand(tokens, out))
  {
    hide DecodeStored, DecodeBody, ReadTrees, EncodeStored, EncodeBody, EncodeHeader, HeaderOk, TokensOk, InRange,
         At, Expand, LiteralLengths, DistanceLengths;
    var ll, dl := LiteralLengths(h), DistanceLengths(h);
    AtSplit(s, pos, EncodeHeader(h), EncodeBody(ll, dl, tokens));
    HeaderRoundTrip(s, pos, h);
    BodyRoundTrip(s, pos + |EncodeHeader(h)|, ll, dl, tokens, out);
  }

  lemma FixedRoundTrip(s: seq<bit>, pos: nat, tokens: seq<Token>, out: seq<byte>)
    requires pos >= 3 && Writable(Fixed(tokens)) && InRange(tokens, out) && At(s, pos, EncodeContents(Fixed(tokens)))
    ensures DecodeBlock(s, pos, 1, out) == Outcome(Okay, pos + |EncodeContents(Fixed(tokens))|, Expand(tokens, out))
  {
    hide DecodeStored, DecodeBody, ReadTrees, EncodeBody, TokensOk, InRange, At, Expand, FixedLiteral, FixedDistance;
    FixedTokensOk(tokens);
    BodyRoundTrip(s, pos, FixedLiteral(), FixedDistance(), tokens, out);
  }

  /** Decoding a block undoes encoding it. */
  lemma BlockRoundTrip(s: seq<bit>, pos: nat, b: Block, out: seq<byte>)
    requires pos >= 3 && BlockOk(b, pos - 3, out) && At(s, pos, EncodeContents(b))
    ensures DecodeBlock(s, pos, Kind(b), out) == Outcome(Okay, pos + |EncodeContents(b)|, ExpandBlock(b, out))
  {
    match b
    case Stored(pad, data) =>
      hide DecodeStored, EncodeStored, At;
      StoredRoundTrip(s, pos, pad, data, out);
    case Fixed(tokens) =>
      hide DecodeBlock, EncodeContents, InRange, Expand, At;
      FixedRoundTrip(s, pos, tokens, out);
    case Dynamic(h, tokens) =>
      hide DecodeBlock, EncodeContents, InRange, Expand, At, Writable;
      DynamicRoundTrip(s, pos, h, tokens, out);
  }

  /* ---- Streams ---- */

  /** Blocks that can be written one after another from bit `pos` on, after the output `out`. */
  predicate BlocksOk(bs: seq<Block>, pos: nat, out: seq<byte>)
    decreases |bs|
  {
    && bs != [] && Writable(bs[0]) && BlockOk(bs[0], pos, out)
    && (|bs| > 1 ==> BlocksOk(bs[1..], pos + |EncodeBlock(bs[0], 0)|, ExpandBlock(bs[0], out)))
  }

  function EncodeBlocks(bs: seq<Block>): (e: seq<bit>)
    requires bs != [] && forall i :: 0 <= i < |bs| ==> Writable(bs[i])
  {
    if |bs| == 1 then EncodeBlock(bs[0], 1) else EncodeBlock(bs[0], 0) + EncodeBlocks(bs[1..])
  }

  function ExpandBlocks(bs: seq<Block>, pos: nat, out: seq<byte>): (r: seq<byte>)
    requires BlocksOk(bs, pos, out)
    decreases |bs|
  {
    var next := ExpandBlock(bs[0], out);
    if |bs| == 1 then next else ExpandBlocks(bs[1..], pos + |EncodeBlock(bs[0], 0)|, next)
  }

  lemma {:induction false} BlocksWritable(bs: seq<Block>, pos: nat, out: seq<byte>)
    requires BlocksOk(bs, pos, out)
    ensures forall i :: 0 <= i < |bs| ==> Writable(bs[i])
    decreases |bs|
  {
    hide Writable, EncodeBlock, ExpandBlock, InRange;
    if |bs| > 1 {
      BlocksWritable(bs[1..], pos + |EncodeBlock(bs[0], 0)|, ExpandBlock(bs[0], out));
      assert forall i :: 1 <= i < |bs| ==> bs[i] == bs[1..][i - 1];
    }
  }

  /** A block's first three bits, and where its contents are. */
  lemma BlockBits(s: seq<bit>, pos: nat, b: Block, final: bit)
    requires Writable(b) && At(s, pos, EncodeBlock(b, final))
    ensures pos + 3 <= |s| && s[pos] == final && LsbValue(s[pos + 1..pos + 3]) == Kind(b)
    ensures At(s, pos + 3, EncodeContents(b)) && |EncodeBlock(b, final)| == 3 + |EncodeContents(b)|
  {
    hide Writable, EncodeContents;
    AtSplit(s, pos, [final], LsbBits(Kind(b), 2) + EncodeContents(b));
    AtSplit(s, pos + 1, LsbBits(Kind(b), 2), EncodeContents(b));
    SmallPowers();
    LsbRoundTrip(Kind(b), 2);
    assert s[pos] == s[pos..pos + 1][0];
  }

  lemma {:induction false} BlocksRoundTrip(s: seq<bit>, pos: nat, bs: seq<Block>, out: seq<byte>)
    requires BlocksOk(bs, pos, out)
    requires (BlocksWritable(bs, pos, out); At(s, pos, EncodeBlocks(bs)))
    ensures (BlocksWritable(bs, pos, out); DecodeBlocks(s, pos, out)
                                           == Outcome(Okay, pos + |EncodeBlocks(bs)|, ExpandBlocks(bs, pos, out)))
    decreases |bs|
  {
    hide DecodeBlock, EncodeBlock, EncodeContents, Writable, ExpandBlock, LsbValue, At;
    BlocksWritable(bs, pos, out);
    var b := bs[0];
    if |bs| == 1 {
      BlockBits(s, pos, b, 1);
      BlockRoundTrip(s, pos + 3, b, out);
    } else {
      AtSplit(s, pos, EncodeBlock(b, 0), EncodeBlocks(bs[1..]));
      BlockBits(s, pos, b, 0);
      BlockRoundTrip(s, pos + 3, b, out);
      BlocksRoundTrip(s, pos + |EncodeBlock(b, 0)|, bs[1..], ExpandBlock(b, out));
    }
  }

  /** A list of blocks that makes a deflate stream. */
  predicate StreamOk(bs: seq<Block>) {
    BlocksOk(bs, 0, [])
  }

  /** The bits of a deflate stream. */
  function EncodeStream(bs: seq<Block>): (e: seq<bit>)
    requires StreamOk(bs)
  {
    BlocksWritable(bs, 0, []);
    EncodeBlocks(bs)
  }

  /** The data a deflate stream stands for. */
  function ExpandStream(bs: seq<Block>): (r: seq<byte>)
    requires StreamOk(bs)
  {
    ExpandBlocks(bs, 0, [])
  }

  /** Whatever follows the stream in the buffer, the decoder returns exactly the stream's data. */
  lemma InflateOfStream(bs: seq<Block>, source: seq<byte>)
    requires StreamOk(bs) && EncodeStream(bs) <= BitsOf(source)
    ensures Inflate(source) == Outcome(Okay, |EncodeStream(bs)|, ExpandStream(bs))
  {
    BlocksWritable(bs, 0, []);
    BlocksRoundTrip(BitsOf(source), 0, bs, []);
  }

  /** Decompression undoes compression, for every well-formed list of blocks. */
  lemma RoundTrip(bs: seq<Block>)
    requires StreamOk(bs)
    ensures Inflate(Pack(EncodeStream(bs))) == Outcome(Okay, |EncodeStream(bs)|, ExpandStream(bs))
  {
    PackRoundTrip(EncodeStream(bs));
    InflateOfStream(bs, Pack(EncodeStream(bs)));
  }

  /* ---- What streams there are ---- */

  function Literals(data: seq<byte>): (ts: seq<Token>)
    ensures |ts| == |data| && forall i :: 0 <= i < |ts| ==> ts[i] == Literal(data[i])
  {
    seq(|data|, i requires 0 <= i < |data| => Literal(data[i]))
  }

  lemma {:induction false} LiteralsExpand(data: seq<byte>, out: seq<byte>)
    ensures InRange(Literals(data), out) && Expand(Literals(data), out) == out + data
    decreases |data|
  {
    if data != [] {
      assert Literals(data)[1..] == Literals(data[1..]);
      LiteralsExpand(data[1..], out + [data[0]]);
      assert out + [data[0]] + data[1..] == out + data;
    }
  }

  /** Every data is what some stream stands for. */
  lemma EveryOutput(data: seq<byte>)
    ensures var bs := [Fixed(Literals(data))]; StreamOk(bs) && ExpandStream(bs) == data
  {
    LiteralsExpand(data, []);
    assert [] + data == data;
  }

  lemma FourBits(v: nat, n: nat)
    ensures LsbBits(v, n + 4)
            == [v % 2, v / 2 % 2, v / 2 / 2 % 2, v / 2 / 2 / 2 % 2] + LsbBits(v / 2 / 2 / 2 / 2, n)
  {
    var a, b, c := v / 2, v / 2 / 2, v / 2 / 2 / 2;
    assert LsbBits(v, n + 4) == [v % 2] + LsbBits(a, n + 3);
    assert LsbBits(a, n + 3) == [a % 2] + LsbBits(b, n + 2);
    assert LsbBits(b, n + 2) == [b % 2] + LsbBits(c, n + 1);
    assert LsbBits(c, n + 1) == [c % 2] + LsbBits(c / 2, n);
  }

  lemma ByteBits()
    ensures LsbBits(0x4B, 8) == [1, 1, 0, 1, 0, 0, 1, 0] && LsbBits(0x04, 8) == [0, 0, 1, 0, 0, 0, 0, 0]
    ensures LsbBits(0x00, 8) == [0, 0, 0, 0, 0, 0, 0, 0]
  {
    hide LsbBits;
    FourBits(0x4B, 4);
    FourBits(0x4, 0);
    FourBits(0x4, 4);
    FourBits(0x0, 0);
    FourBits(0x0, 4);
  }

  /** The bits of three bytes, as section 3.1.1 of RFC 1951 packs them. */
  lemma ThreeBytes()
    ensures BitsOf([0x4B, 0x04, 0x00]) == [1, 1, 0, 1, 0, 0, 1, 0] + [0, 0, 1, 0, 0, 0, 0, 0] + [0, 0, 0, 0, 0, 0, 0, 0]
  {
    hide LsbBits;
    ByteBits();
    BitsOfCons(0x4B, [0x04, 0x00]);
    BitsOfCons(0x04, [0x00]);
    BitsOfCons(0x00, []);
    assert [0x4B] + [0x04, 0x00] == [0x4B, 0x04, 0x00] && [0x04] + [0x00] == [0x04, 0x00] && [0x00] + [] == [0x00];
  }

  /** The codes of the letter `a` and of the end of a fixed block. */
  lemma TwoCodes()
    ensures CodeBits(FixedLiteral(), 0x61) == [1, 0, 0, 1, 0, 0, 0, 1]
    ensures CodeBits(FixedLiteral(), 256) == [0, 0, 0, 0, 0, 0, 0]
  {
    hide FixedLiteral, Code;
    FixedCode(0x61);
    FixedCode(256);
    assert MsbBits(0x91, 8) == [1, 0, 0, 1, 0, 0, 0, 1];
    assert MsbBits(0, 7) == [0, 0, 0, 0, 0, 0, 0];
  }

  lemma KnownBody()
    ensures var ts: seq<Token> := [Literal(0x61)];
            && TokensOk(FixedLiteral(), FixedDistance(), ts)
            && EncodeBody(FixedLiteral(), FixedDistance(), ts) == [1, 0, 0, 1, 0, 0, 0, 1] + [0, 0, 0, 0, 0, 0, 0]
  {
    hide FixedLiteral, CodeBits;
    var ts: seq<Token> := [Literal(0x61)];
    FixedTokensOk(ts);
    TwoCodes();
    assert ts[1..] == [];
  }

  lemma KnownBits()
    ensures Writable(Fixed([Literal(0x61)]))
    ensures EncodeBlock(Fixed([Literal(0x61)]), 1)
            == [1, 1, 0, 1, 0, 0, 1, 0] + [0, 0, 1, 0, 0, 0, 0, 0] + [0, 0]
  {
    hide EncodeBody, FixedLiteral, LsbBits;
    KnownBody();
    TypeBits();
  }

  lemma TypeBits()
    ensures LsbBits(1, 2) == [1, 0]
  {
  }

  /** A known stream: these three bytes are the letter `a` in one fixed block. */
  lemma KnownStream()
    ensures Inflate([0x4B, 0x04, 0x00]) == Outcome(Okay, 18, [0x61])
  {
    hide Inflate, BitsOf, EncodeBlock, ExpandStream, StreamOk;
    var bs := [Fixed([Literal(0x61)])];
    EveryOutput([0x61]);
    assert Literals([0x61]) == [Literal(0x61)];
    KnownBits();
    ThreeBytes();
    assert EncodeStream(bs) == EncodeBlock(bs[0], 1);
    InflateOfStream(bs, [0x4B, 0x04, 0x00]);
  }

  /** The least dynamic header: no symbol but the end of a block and one distance. */
  function LeastHeader(): (h: Header) {
    Header(257, 1, 18, Run(0, 19)[1 := 1][18 := 1], [ManyZeros(138), ManyZeros(118), One(1), One(1)])
  }

  lemma LeastRuns()
    ensures RunsOk(LeastHeader().runs, [], 258) && Unroll(LeastHeader().runs, [], 258) == Run(0, 256) + [1, 1]
  {
    var rs := LeastHeader().runs;
    var a, b, c := Run(0, 138), Run(0, 256), Run(0, 256) + [1];
    assert [] + Run(0, 138) == a && a + Run(0, 118) == b && b + Run(1, 1) == c && c + Run(1, 1) == Run(0, 256) + [1, 1];
    assert rs[1..] == [ManyZeros(118), One(1), One(1)] && rs[2..] == [One(1), One(1)] && rs[3..] == [One(1)]
      && rs[4..] == [];
    assert rs[1..][1..] == rs[2..] && rs[2..][1..] == rs[3..] && rs[3..][1..] == rs[4..];
  }

  /** A symbol of length 1 with at most one such symbol before it has a code of one bit. */
  lemma ShortCode(lengths: Lengths, x: nat)
    requires x < |lengths| && lengths[x] == 1 && Count(lengths[..x], 1) <= 1
    ensures Encodable(lengths, x)
  {
    assert FirstCode(lengths, 1) == 2 * (FirstCode(lengths, 0) + Leaves(lengths, 0)) == 0;
    assert Pow2(1) == 2;
  }

  /** The least header is well-formed, and a block with it can hold an empty body. */
  lemma LeastBlock()
    ensures HeaderOk(LeastHeader()) && Writable(Dynamic(LeastHeader(), [])) && StreamOk([Dynamic(LeastHeader(), [])])
  {
    var h := LeastHeader();
    LeastRuns();
    var c := h.codes;
    CountRun(0, 1, 1);
    assert c[..1] == Run(0, 1);
    ShortCode(c, 1);
    assert c[..18] == Run(0, 1) + [1] + Run(0, 16);
    CountConcat(Run(0, 1) + [1], Run(0, 16), 1);
    CountRun(0, 16, 1);
    CountConcat(Run(0, 1), [1], 1);
    assert [1][..0] == [];
    ShortCode(c, 18);
    assert forall r :: r in h.runs ==> RunSymbol(r) == 1 || RunSymbol(r) == 18;
    var l := LiteralLengths(h);
    assert l[..256] == Run(0, 256);
    CountRun(0, 256, 1);
    ShortCode(l, 256);
  }
}
