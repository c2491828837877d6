/**
 Parsing numbers from a buffered input: reads and puts back characters, and detects
 overflow with a shortcut on the top four bits before it divides.
 */
module Strtox {
  import opened NumberText
  import opened Bits
  import opened IoBuffer

  datatype Status = Success | RangeError

  /** The input a parse from position `k` leaves: all digits taken, or up to the one that overflowed. */
  ghost predicate Leaves(p: seq<char>, b: nat, k: nat, rest: seq<char>, status: Status)
    requires k <= |p|
  {
    var d := DigitsFrom(p, b, k);
    if status == Success then rest == p[k + |d|..]
    else exists n :: 0 <= n < |d| && OverflowsAt(d, b, n) && rest == p[k + n..]
  }

  /** The outcome of a parse as a number. */
  function Outcome(status: Status, result: nat): (r: Parsed) {
    if status == Success then Number(result) else OutOfRange
  }

  /** The digits before the `n`-th fit in 64 bits, with it they do not. */
  predicate OverflowsAt(d: seq<char>, b: nat, n: nat)
    requires n < |d| && forall i :: 0 <= i < |d| ==> IsDigit(d[i], b)
  {
    Value(d[..n], b) < U64_LIMIT <= Value(d[..n + 1], b)
  }

  /** Base 0: `0x` means 16, a leading 0 means 8, anything else 10. */
  method GuessBase(io: IoBuffer) returns (b: nat)
    requires io.Reading() && io.bufSize > 2
    modifies io, io.buffer
    ensures io.Reading() && b == Prefix(old(io.Pending()), 0).0
    ensures io.Pending() == old(io.Pending())[Prefix(old(io.Pending()), 0).1..]
  {
    hide IoBuffer.Pending;
    ghost var p := io.Pending();
    var c := io.Read(1);
    if c == [] {
      return 0;
    }
    NextChar(p, 0, c, io.Pending());
    if c[0] == '0' {
      b := AfterZero(io, p);
    } else {
      b := 10;
      var ok := io.Unget(c[0]);
    }
  }

  /** After a leading 0: `x` means base 16, anything else stays. */
  method AfterZero(io: IoBuffer, ghost p: seq<char>) returns (b: nat)
    requires io.Reading() && io.bufSize > 2 && p != [] && p[0] == '0' && io.Pending() == p[1..]
    modifies io, io.buffer
    ensures io.Reading() && b == Prefix(p, 0).0 && io.Pending() == p[Prefix(p, 0).1..]
  {
    hide IoBuffer.Pending;
    b := 8;
    var d := io.Read(1);
    if d != [] {
      NextChar(p, 1, d, io.Pending());
      if d[0] == 'x' || d[0] == 'X' {
        b := 16;
      } else {
        var ok := io.Unget(d[0]);
      }
    }
  }

  /**
   Of the two characters read behind the first `k`, the first can get lost: they are no
   prefix, and only one can be put back, as the buffer is refilled between them, or may be.
   */
  ghost predicate MayLose(io: IoBuffer, base: nat, k: nat)
    requires io.Valid()
    reads io, io.buffer
  {
    && base == 16 && |io.Pending()| >= k + 2 && Prefix(io.Pending()[k..], 16).1 == 0
    && io.slop == 0 && io.input != [] && (io.inCount == k + 1 || (io.inCount <= k && !io.whole))
  }

  /** It does get lost: the first of the two is the last one buffered. */
  ghost predicate MustLose(io: IoBuffer, base: nat, k: nat)
    requires io.Valid()
    reads io, io.buffer
  {
    MayLose(io, base, k) && io.inCount == k + 1
  }

  /** On a whole device a character that may get lost does. */
  lemma WholeLoses(io: IoBuffer, base: nat, k: nat)
    requires io.Valid() && io.whole
    ensures MayLose(io, base, k) <==> MustLose(io, base, k)
  {
    assert io.inCount <= k ==> !MayLose(io, base, k);
  }

  lemma WhatStays(io: IoBuffer)
    requires io.Reading() && io.bufSize > 2
    ensures MustLose(io, 16, 0) ==> |io.Pending()| >= 2 && Prefix(io.Pending(), 16).1 == 0 && io.OneGoes()
    ensures |io.Pending()| >= 2 && Prefix(io.Pending(), 16).1 == 0 && !io.TwoStay() ==> MayLose(io, 16, 0)
  {
    assert io.Pending()[0..] == io.Pending();
  }

  /** Puts two characters back, the first only if there is room. */
  method PutBackTwo(io: IoBuffer, c: seq<char>) returns (ghost lost: bool)
    requires io.Reading() && |c| == 2 && io.inPtr >= 1
    modifies io`inCount, io`inPtr, io.buffer
    ensures io.Reading() && (lost <==> old(io.inPtr) == 1)
    ensures io.Pending() == (c + old(io.Pending()))[if lost then 1 else 0..]
  {
    hide IoBuffer.Pending;
    ghost var q := io.Pending();
    var ok := io.Unget(c[1]);
    assert io.Pending() == (c + q)[1..];
    ok := io.Unget(c[0]);
    assert ok ==> io.Pending() == c + q;
    lost := !ok;
  }

  /** Base 16: an optional `0x` is taken. */
  method SkipHexPrefix(io: IoBuffer) returns (ghost lost: bool)
    requires io.Reading() && io.bufSize > 2
    modifies io, io.buffer
    ensures io.Reading() && (lost ==> old(MayLose(io, 16, 0))) && (old(MustLose(io, 16, 0)) ==> lost)
    ensures io.Pending() == old(io.Pending())[if lost then 1 else Prefix(old(io.Pending()), 16).1..]
  {
    ghost var p := io.Pending();
    WhatStays(io);
    hide IoBuffer.Pending, IoBuffer.TwoStay, IoBuffer.OneGoes, IoBuffer.After, MayLose, MustLose;
    var c := io.Read(2);
    lost := false;
    if |c| == 2 {
      if c[0] != '0' || (c[1] != 'x' && c[1] != 'X') {
        lost := PutBackTwo(io, c);
      }
    } else if |c| == 1 {
      var ok := io.Unget(c[0]);
    }
  }

  /** Takes a base prefix off the input and says which base to use. */
  method TakePrefix(io: IoBuffer, base: nat) returns (b: nat, ghost lost: bool)
    requires io.Reading() && io.bufSize > 2
    modifies io, io.buffer
    ensures io.Reading() && (lost ==> old(MayLose(io, base, 0))) && (old(MustLose(io, base, 0)) ==> lost)
    ensures var (c, k) := Start(old(io.Pending()), base, lost); b == c && io.Pending() == old(io.Pending())[k..]
  {
    b, lost := base, false;
    if base == 0 {
      b := GuessBase(io);
    } else if base == 16 {
      lost := SkipHexPrefix(io);
    }
  }

  /** Below 2^60 no digit of a base up to 16 can overflow, so the shortcut misses nothing. */
  lemma ShortcutSafe(result: nat, base: nat, d: nat)
    requires base <= 16 && d < base && result < 0x1000_0000_0000_0000
    ensures result * base + d < U64_LIMIT
  {
    assert result * base <= result * 16;
  }

  /** The division test is the overflow test. */
  lemma DivisionExact(result: nat, base: nat, d: nat)
    requires 0 < base && d < U64_LIMIT
    ensures result > (U64_LIMIT - 1 - d) / base <==> result * base + d >= U64_LIMIT
  {
    var x := U64_LIMIT - 1 - d;
    QuotientBound(x, base, result);
  }

  lemma QuotientBound(x: nat, b: nat, r: nat)
    requires b > 0
    ensures r > x / b <==> r * b > x
  {
    DivNat(x, b);
    QuotientBelow(b, x / b, x % b, r);
    assert x == (x / b) * b + x % b;
  }

  /** The value after one more digit, or that it does not fit, as the code decides it. */
  method AddDigit(result: nat, base: nat, d: nat) returns (overflow: bool, next: nat)
    requires 2 <= base <= 16 && d < base && result < U64_LIMIT
    ensures overflow <==> result * base + d >= U64_LIMIT
    ensures !overflow ==> next == result * base + d
  {
    next := 0;
    if result / 0x1000_0000_0000_0000 != 0 {
      DivisionExact(result, base, d);
      if result > (U64_LIMIT - 1 - d) / base {
        return true, 0;
      }
    } else {
      ShortcutSafe(result, base, d);
    }
    return false, result * base + d;
  }

  /** What reading digits from `p` ends with. */
  ghost predicate DigitsRead(p: seq<char>, base: nat, rest: seq<char>, status: Status, result: nat) {
    var n := DigitCount(p, base);
    && (status == Success ==> result == Value(p[..n], base) < U64_LIMIT && rest == p[n..])
    && (status == RangeError ==> exists k :: 0 <= k < n && OverflowsAt(p[..n], base, k) && rest == p[k..])
  }

  /** After `k` digits of `p`, with their value in `result`. */
  ghost predicate AtDigit(p: seq<char>, base: nat, rest: seq<char>, k: nat, result: nat) {
    k <= DigitCount(p, base) && rest == p[k..] && result == Value(p[..k], base) < U64_LIMIT
  }

  /** One character: a digit that fits, or the end of the number. */
  method NextDigit(io: IoBuffer, base: nat, resultIn: nat, ghost p: seq<char>, ghost k: nat)
    returns (last: bool, status: Status, result: nat)
    requires io.Reading() && io.bufSize > 2 && (base == 0 || 2 <= base <= 16)
    requires AtDigit(p, base, io.Pending(), k, resultIn)
    modifies io, io.buffer
    ensures io.Reading()
    ensures last ==> DigitsRead(p, base, io.Pending(), status, result)
    ensures !last ==> k < DigitCount(p, base) && AtDigit(p, base, io.Pending(), k + 1, result)
  {
    hide IoBuffer.Pending, DigitValue;
    last, status, result := true, Success, resultIn;
    var c := io.Read(1);
    if c == [] {
      return;
    }
    NextChar(p, k, c, io.Pending());
    var d := DigitValue(c[0]);
    if 0 <= d < base {
      MoreDigits(p, base, k);
      var overflow, next := AddDigit(resultIn, base, d);
      if overflow {
        var ok := io.Unget(c[0]);
        Overflowed(p, base, k);
        status := RangeError;
      } else {
        last, result := false, next;
      }
    } else {
      var ok := io.Unget(c[0]);
      NoMoreDigits(p, base, k);
    }
  }

  lemma NextChar(p: seq<char>, k: nat, c: seq<char>, rest: seq<char>)
    requires k <= |p| && |c| == 1 && p[k..] == c + rest
    ensures k < |p| && c[0] == p[k] && rest == p[k + 1..] && [c[0]] + rest == p[k..]
  {
  }

  /** Reads digits as long as there are any and their value fits. */
  method ReadDigits(io: IoBuffer, base: nat) returns (status: Status, result: nat)
    requires io.Reading() && io.bufSize > 2 && (base == 0 || 2 <= base <= 16)
    modifies io, io.buffer
    ensures io.Reading() && DigitsRead(old(io.Pending()), base, io.Pending(), status, result)
  {
    ghost var p, k := io.Pending(), 0;
    result, status := 0, Success;
    assert AtDigit(p, base, p, 0, 0) by {
      assert p[..0] == [] && p[0..] == p;
    }
    hide AtDigit, DigitsRead, IoBuffer.Pending;
    var last := false;
    while !last
      invariant io.Reading() && 0 <= k
      invariant !last ==> AtDigit(p, base, io.Pending(), k, result)
      invariant last ==> DigitsRead(p, base, io.Pending(), status, result)
      decreases !last, DigitCount(p, base) - k
    {
      last, status, result := NextDigit(io, base, result, p, k);
      k := k + 1;
    }
  }

  lemma MoreDigits(p: seq<char>, base: nat, k: nat)
    requires k <= DigitCount(p, base) && k < |p| && IsDigit(p[k], base)
    ensures k < DigitCount(p, base)
    ensures Value(p[..k + 1], base) == Value(p[..k], base) * base + DigitValue(p[k])
  {
    assert p[..k + 1][..k] == p[..k];
  }

  lemma NoMoreDigits(p: seq<char>, base: nat, k: nat)
    requires k <= DigitCount(p, base) && k < |p| && !IsDigit(p[k], base)
    ensures k == DigitCount(p, base)
  {
  }

  lemma Overflowed(p: seq<char>, base: nat, k: nat)
    requires k < DigitCount(p, base) && Value(p[..k], base) < U64_LIMIT <= Value(p[..k + 1], base)
    ensures OverflowsAt(p[..DigitCount(p, base)], base, k)
  {
    var d := p[..DigitCount(p, base)];
    assert d[..k] == p[..k] && d[..k + 1] == p[..k + 1];
  }

  /**
   Parses an unsigned number. The result is the value of all digits after the prefix; a
   range error is reported exactly if that value needs more than 64 bits. The input is left
   at the first character that was not used. `lost` says that the first character got lost
   and the number starts at the second.
   */
  method Strtoull(io: IoBuffer, base: nat) returns (status: Status, result: nat, ghost lost: bool)
    requires io.Reading() && io.bufSize > 2 && (base == 0 || 2 <= base <= 16)
    modifies io, io.buffer
    ensures io.Reading() && (lost ==> old(MayLose(io, base, 0))) && (old(MustLose(io, base, 0)) ==> lost)
    ensures io.whole ==> (lost <==> old(MayLose(io, base, 0)))
    ensures var p := old(io.Pending()); var (b, k) := Start(p, base, lost);
            Leaves(p, b, k, io.Pending(), status) && ParseFrom(p, b, k) == Outcome(status, result)
    ensures status == Success ==> result < U64_LIMIT
  {
    hide DigitsRead, Leaves, ParseFrom, Start, MayLose, MustLose, IoBuffer.Pending;
    if io.whole {
      WholeLoses(io, base, 0);
    }
    ghost var p := io.Pending();
    var b;
    b, lost := TakePrefix(io, base);
    ghost var q := io.Pending();
    status, result := ReadDigits(io, b);
    ghost var (c, k) := Start(p, base, lost);
    WholeNumber(p, c, k, q, io.Pending(), status, result);
  }

  lemma WholeNumber(p: seq<char>, b: nat, skip: nat, q: seq<char>, rest: seq<char>, status: Status, result: nat)
    requires skip <= |p| && q == p[skip..] && (b == 0 || 2 <= b <= 16) && DigitsRead(q, b, rest, status, result)
    ensures Leaves(p, b, skip, rest, status) && ParseFrom(p, b, skip) == Outcome(status, result)
    ensures status == Success ==> result < U64_LIMIT
  {
    hide DigitValue, Value;
    var n := DigitCount(q, b);
    assert DigitsFrom(p, b, skip) == q[..n];
    if status == Success {
      assert q[n..] == p[skip + n..];
    } else {
      var k :| 0 <= k < n && OverflowsAt(q[..n], b, k) && rest == q[k..];
      assert q[k..] == p[skip + k..];
      ValueGrows(q[..n], b, k + 1);
    }
  }

  /** The 64-bit two's complement of an unsigned value, read as a signed one. */
  function Negated(v: nat): (r: int)
    requires v < U64_LIMIT
  {
    var u := (U64_LIMIT - v) % U64_LIMIT;
    if u >= I64_LIMIT then u - U64_LIMIT else u
  }

  /** An unsigned value read as a signed one. */
  function AsSigned(v: nat): (r: int)
    requires v < U64_LIMIT
  {
    if v >= I64_LIMIT then v - U64_LIMIT else v
  }

  /** The outcome of a signed parse. */
  predicate SignedOutcome(r: SignedParse, status: Status, result: int) {
    match r
    case NoInput => status == Success
    case SignedRange => status == RangeError
    case Signed(v) => status == Success && result == v
  }

  /** After the sign: a magnitude of which the negative must fit. */
  method Negative(io: IoBuffer, base: nat) returns (status: Status, result: int, ghost lost: bool)
    requires io.Reading() && io.bufSize > 2 && (base == 0 || 2 <= base <= 16)
    modifies io, io.buffer
    ensures io.Reading() && (lost ==> old(MayLose(io, base, 0))) && (old(MustLose(io, base, 0)) ==> lost)
    ensures var p := old(io.Pending()); var (b, k) := Start(p, base, lost);
            SignedOutcome(WithSign(true, ParseFrom(p, b, k)), status, result)
  {
    hide IoBuffer.Pending, ParseFrom, Leaves, MayLose, MustLose, Start;
    var v;
    status, v, lost := Strtoull(io, base);
    result := 0;
    if status == Success {
      if Negated(v) > 0 {
        return RangeError, 0, lost;
      }
      result := Negated(v);
    }
  }

  /** A magnitude that must itself fit. */
  method NonNegative(io: IoBuffer, base: nat) returns (status: Status, result: int, ghost lost: bool)
    requires io.Reading() && io.bufSize > 2 && (base == 0 || 2 <= base <= 16)
    modifies io, io.buffer
    ensures io.Reading() && (lost ==> old(MayLose(io, base, 0))) && (old(MustLose(io, base, 0)) ==> lost)
    ensures var p := old(io.Pending()); var (b, k) := Start(p, base, lost);
            SignedOutcome(WithSign(false, ParseFrom(p, b, k)), status, result)
  {
    hide IoBuffer.Pending, ParseFrom, Leaves, MayLose, MustLose, Start;
    var v;
    status, v, lost := Strtoull(io, base);
    result := 0;
    if status == Success {
      if AsSigned(v) < 0 {
        return RangeError, 0, lost;
      }
      result := v;
    }
  }

  /** What a signed parse of `p` gives, if the first character behind the sign may have been lost. */
  function SignedStart(p: seq<char>, base: nat, lost: bool): (r: SignedParse) {
    if p == [] then NoInput
    else
      var q := if HasSign(p) then p[1..] else p;
      var (b, k) := Start(q, base, lost);
      WithSign(p[0] == '-', ParseFrom(q, b, k))
  }

  /** Without a loss that is the signed number. */
  lemma SignedKept(p: seq<char>, base: nat)
    ensures SignedStart(p, base, false) == ParseSigned(p, base)
  {
  }

  /** How many characters the sign takes. */
  function SignLength(p: seq<char>): (k: nat) {
    if HasSign(p) then 1 else 0
  }

  /** Takes the sign off, if there is one; what can get lost behind it is as before. */
  method TakeSign(io: IoBuffer, ghost base: nat) returns (any: bool, minus: bool)
    requires io.Reading() && io.bufSize > 2
    modifies io, io.buffer
    ensures io.Reading() && any == (old(io.Pending()) != []) && (any ==> minus == (old(io.Pending())[0] == '-'))
    ensures io.Pending() == old(io.Pending())[SignLength(old(io.Pending()))..]
    ensures MayLose(io, base, 0) ==> old(MayLose(io, base, SignLength(io.Pending())))
    ensures old(MustLose(io, base, SignLength(io.Pending()))) ==> MustLose(io, base, 0)
  {
    ghost var p := io.Pending();
    var c := io.Read(1);
    any, minus := c != [], false;
    if any {
      NextChar(p, 0, c, io.Pending());
      minus := c[0] == '-';
      if c[0] != '-' && c[0] != '+' {
        var ok := io.Unget(c[0]);
        assert p[0..] == p;
      }
    }
    assert io.Pending()[0..] == io.Pending();
  }

  /**
   Parses a signed number, with the sign test the code does on the wrapped value. Empty
   input succeeds without a result. `lost` says that the first character behind the sign
   got lost.
   */
  method Strtoll(io: IoBuffer, base: nat) returns (status: Status, result: int, ghost lost: bool)
    requires io.Reading() && io.bufSize > 2 && (base == 0 || 2 <= base <= 16)
    modifies io, io.buffer
    ensures io.Reading() && (lost ==> old(MayLose(io, base, SignLength(io.Pending()))))
    ensures old(MustLose(io, base, SignLength(io.Pending()))) ==> lost
    ensures io.whole ==> (lost <==> old(MayLose(io, base, SignLength(io.Pending()))))
    ensures SignedOutcome(SignedStart(old(io.Pending()), base, lost), status, result)
  {
    hide IoBuffer.Pending, ParseFrom, Start, MayLose, MustLose;
    ghost var p := io.Pending();
    status, result, lost := Success, 0, false;
    if io.whole {
      WholeLoses(io, base, SignLength(p));
    }
    var any, minus := TakeSign(io, base);
    if any {
      if minus {
        status, result, lost := Negative(io, base);
      } else {
        status, result, lost := NonNegative(io, base);
      }
    } else {
      NoneLost(io, base);
    }
  }

  lemma NoneLost(io: IoBuffer, base: nat)
    requires io.Valid() && io.Pending() == []
    ensures !MayLose(io, base, 0)
  {
  }

  /**
   Whole device, buffer of three, no slop: after two characters of a line the third is the
   last one buffered. Reading the number `12` in base 16 loses its 1, and gives 2 for 18.
   */
  method LostCharacter() returns (io: IoBuffer, s: seq<char>, status: Status, result: nat, ghost lost: bool)
    ensures s == "x:" && lost && status == Success && result == 2
    ensures ParseUnsigned("12", 16) == Number(18) && fresh(io) && io.Reading() && io.Pending() == ""
  {
    hide ParseFrom, Prefix, Start, Leaves, MayLose, MustLose, IoBuffer.Pending, IoBuffer.After, IoBuffer.TwoStay,
         IoBuffer.OneGoes, ParseUnsigned;
    io := new IoBuffer(FullyBuffered, 3, 0, true, "x:12", []);
    s := io.Read(2);
    OneBuffered(io, s);
    status, result, lost := Strtoull(io, 16);
    Twelve(io.Pending(), status);
  }

  lemma OneBuffered(io: IoBuffer, s: seq<char>)
    requires io.Reading() && io.bufSize == 3 && io.slop == 0 && io.whole
    requires |s| == 2 && s + io.Pending() == "x:12" && io.After(s, 2, 0, "x:12")
    ensures s == "x:" && io.Pending() == "12" && MustLose(io, 16, 0)
  {
    assert s == (s + io.Pending())[..2] == "x:" && io.Pending() == (s + io.Pending())[2..] == "12";
    assert io.Pending()[0..] == io.Pending();
  }

  lemma Twelve(rest: seq<char>, status: Status)
    ensures ParseUnsigned("12", 16) == Number(18) && ParseFrom("12", 16, 1) == Number(2)
    ensures Start("12", 16, true) == (16, 1)
    ensures Leaves("12", 16, 1, rest, status) && status == Success ==> rest == ""
  {
    var d := "12";
    assert d[0..] == d && d[..1] == "1" && d[1..] == "2" && d[2..] == "";
    TwelveIs(d);
  }

  lemma TwelveIs(d: seq<char>)
    requires d == "12"
    ensures DigitCount(d, 16) == 2 && DigitCount("2", 16) == 1 && Value("2", 16) == 2 && Value(d, 16) == 18
  {
    assert d[..1] == "1" && d[1..] == "2" && "2"[1..] == "";
    assert Value("", 16) == 0 && Value("1", 16) == 1;
  }
}
