/**
 Buffered input and output over a device. The device may read and write less than asked
 for, and a flush may fail after writing only a part. What counts is conservation: the
 characters a reader has yet to see, and the characters a writer has accepted.
 */
module IoBuffer {
  import opened Common

  datatype Mode = Unbuffered | LineBuffered | FullyBuffered

  class IoBuffer {
    const mode: Mode
    const bufSize: nat
    const slop: nat
    const whole: bool  // device reads return as much as was asked for, like those of a string
    const buffer: array<char>
    var inCount: nat
    var inPtr: nat
    var outCount: nat
    var input: seq<char>  // what the device has yet to deliver
    var output: seq<char>  // what the device has taken
    var flushes: seq<Option<nat>>  // how its next flushes end: well, or in a failure after some characters
    var failures: nat  // how many flushes have failed
    var stalls: nat  // how many direct writes the device has taken nothing of

    ghost predicate Valid()
      reads this, buffer
    {
      && buffer.Length == slop + bufSize
      && inPtr + inCount <= buffer.Length && outCount <= bufSize
      && (inCount > 0 ==> outCount == 0)
    }

    /** Ready for reading: nothing is waiting to be written. */
    ghost predicate Reading()
      reads this, buffer
    {
      Valid() && outCount == 0
    }

    constructor (mode: Mode, bufSize: nat, slop: nat, whole: bool, input: seq<char>, flushes: seq<Option<nat>>)
      ensures Reading() && fresh(buffer) && Pending() == input && Written() == output == [] && inCount == inPtr == 0
      ensures this.mode == mode && this.bufSize == bufSize && this.slop == slop && this.whole == whole
      ensures this.flushes == flushes && failures == 0
    {
      this.flushes, failures, stalls := flushes, 0, 0;
      this.mode, this.bufSize, this.slop, this.whole := mode, bufSize, slop, whole;
      buffer := new char[slop + bufSize](_ => ' ');
      inCount, inPtr, outCount := 0, 0, 0;
      this.input, output := input, [];
    }

    /** The characters a reader will see next. */
    ghost function Pending(): (s: seq<char>)
      requires Valid()
      reads this, buffer
    {
      buffer[inPtr..inPtr + inCount] + input
    }

    /** The characters accepted for writing: those at the device, then those in the buffer. */
    ghost function Written(): (s: seq<char>)
      requires Valid()
      reads this, buffer
    {
      output + buffer[..outCount]
    }

    /* ---- The device ---- */

    /** Delivers up to `n` characters, at least one if there are any. */
    method DeviceRead(n: nat) returns (s: seq<char>)
      requires n > 0
      modifies this`input
      ensures |s| <= n && old(input) == s + input
      ensures s == [] <==> old(input) == []
      ensures whole ==> |s| == Min(n, |old(input)|)
    {
      var k := Min(n, |input|);
      if !whole && k > 0 {
        var j :| 1 <= j <= k;
        k := j;
      }
      s := input[..k];
      input := input[k..];
    }

    /** Takes some of the characters, perhaps none. */
    method DeviceWrite(s: seq<char>) returns (n: nat)
      modifies this`output, this`stalls
      ensures n <= |s| && output == old(output) + s[..n]
      ensures stalls == old(stalls) + if n == 0 then 1 else 0
    {
      var j :| 0 <= j <= |s|;
      n := j;
      output := output + s[..n];
      if n == 0 {
        stalls := stalls + 1;
      }
    }

    /** How the next flush ends. */
    function NextFlush(): (f: Option<nat>)
      reads this
    {
      if flushes == [] then None else flushes[0]
    }

    /** Writes out the buffer; on failure only a part of it, and the rest stays buffered. */
    method Flush() returns (failed: bool)
      requires Valid()
      modifies this`output, this`outCount, this`inCount, this`flushes, this`failures, buffer
      ensures Valid() && Written() == old(Written())
      ensures failed == old(NextFlush()).Some? && failures == old(failures) + if failed then 1 else 0
      ensures !failed ==> outCount == 0 && inCount == 0
      ensures failed ==>
        inCount == old(inCount) && outCount == old(outCount) - Min(old(NextFlush()).value, old(outCount))
      ensures old(outCount) == 0 ==> buffer[..] == old(buffer[..])
      ensures buffer[..outCount] == old(buffer[..outCount])[old(outCount) - outCount..]
    {
      failed := NextFlush().Some?;
      var k := if failed then Min(NextFlush().value, outCount) else outCount;
      if flushes != [] {
        flushes := flushes[1..];
      }
      SendOut(k);
      if failed {
        failures := failures + 1;
      } else {
        inCount := 0;
      }
    }

    /** The device takes the first `k` buffered characters. */
    method SendOut(k: nat)
      requires Valid() && k <= outCount
      modifies this`output, this`outCount, buffer
      ensures Valid() && Written() == old(Written()) && outCount == old(outCount) - k
      ensures buffer[..outCount] == old(buffer[..outCount])[k..]
      ensures old(outCount) == 0 ==> buffer[..] == old(buffer[..])
    {
      ghost var o, held := output, buffer[..outCount];
      output := output + buffer[..k];
      ShiftDown(k);
      Halves(o, held, k);
    }

    static lemma Halves(o: seq<char>, held: seq<char>, k: nat)
      requires k <= |held|
      ensures o + held[..k] + held[k..] == o + held
    {
    }

    /** Drops the first `k` buffered characters. */
    method ShiftDown(k: nat)
      requires Valid() && k <= outCount
      modifies this`outCount, buffer
      ensures Valid() && outCount == old(outCount) - k && buffer[..outCount] == old(buffer[..outCount])[k..]
      ensures old(outCount) == 0 ==> buffer[..] == old(buffer[..])
    {
      forall i | 0 <= i < outCount - k {
        buffer[i] := buffer[i + k];
      }
      outCount := outCount - k;
    }

    /* ---- Writing ---- */

    /** Every buffered character was buffered before or is one of the data. */
    ghost predicate From(before: seq<char>, data: seq<char>)
      requires outCount <= buffer.Length
      reads this, buffer
    {
      forall c :: c in buffer[..outCount] ==> c in before || c in data
    }

    /** Puts characters into the buffer, or past it when it is empty and the request large. */
    method WriteNoFlush(data: seq<char>) returns (written: nat)
      requires Valid()
      modifies this`output, this`outCount, this`inCount, this`flushes, this`failures, this`stalls, buffer
      ensures Valid() && written <= |data| && Written() == old(Written()) + data[..written]
      ensures From(old(buffer[..outCount]), data)
      ensures old(failures) <= failures <= old(failures) + 1 && stalls >= old(stalls)
      ensures written < |data| ==> failures > old(failures) || stalls > old(stalls)
      ensures data != [] && written == |data| ==> failures == old(failures) && stalls == old(stalls)
      ensures old(inCount) > 0 && old(NextFlush()).Some? ==> written == 0 && failures > old(failures)
      ensures old(inCount) == 0 && old(outCount) == 0 ==> outCount <= |data|
      ensures old(outCount) == 0 && 0 < bufSize && written == |data| ==> outCount < bufSize
      ensures old(inCount) == 0 && old(outCount) + |data| < bufSize ==>
        && written == |data| && buffer[..outCount] == old(buffer[..outCount]) + data && inCount == 0
        && flushes == old(flushes) && output == old(output)
    {
      written := 0;
      if inCount != 0 {
        var failed := Flush();
        if failed {
          return 0;
        }
      }
      written := WriteAll(data);
    }

    /** The loop of the write, when no input is buffered. */
    method WriteAll(data: seq<char>) returns (written: nat)
      requires Valid() && inCount == 0
      modifies this`output, this`outCount, this`inCount, this`flushes, this`failures, this`stalls, buffer
      ensures Valid() && written <= |data| && Written() == old(Written()) + data[..written]
      ensures From(old(buffer[..outCount]), data)
      ensures failures + stalls == old(failures + stalls) + if written < |data| then 1 else 0
      ensures failures >= old(failures) && stalls >= old(stalls) && inCount == 0
      ensures old(outCount) == 0 ==> outCount <= |data|
      ensures old(outCount) == 0 && 0 < bufSize && written == |data| ==> outCount < bufSize
      ensures old(outCount) + |data| < bufSize ==>
        && written == |data| && buffer[..outCount] == old(buffer[..outCount]) + data
        && flushes == old(flushes) && output == old(output)
    {
      hide IoBuffer.Pending;
      ghost var before := buffer[..outCount];
      written := 0;
      ghost var small := outCount + |data| < bufSize;
      while written != |data|
        invariant Valid() && inCount == 0 && written <= |data|
        invariant Written() == old(Written()) + data[..written]
        invariant From(before, data) && failures == old(failures) && stalls == old(stalls)
        invariant old(outCount) == 0 ==> outCount <= written
        invariant old(outCount) == 0 && 0 < bufSize ==> outCount == 0 || (written == |data| && outCount < bufSize)
        invariant small ==> written == 0 || written == |data|
        invariant small ==>
          buffer[..outCount] == before + data[..written] && flushes == old(flushes) && output == old(output)
        decreases |data| - written
      {
        ghost var held := buffer[..outCount];
        var n := WriteSome(data[written..]);
        StillFrom(before, held, data, written);
        if n == 0 {
          break;
        }
        TakeMore(data, written, n);
        written := written + n;
      }
    }

    static lemma TakeMore(data: seq<char>, w: nat, n: nat)
      requires w + n <= |data|
      ensures data[..w + n] == data[..w] + data[w..][..n]
    {
    }

    lemma StillFrom(before: seq<char>, held: seq<char>, data: seq<char>, w: nat)
      requires outCount <= buffer.Length && w <= |data| && From(held, data[w..])
      requires forall c :: c in held ==> c in before || c in data
      ensures From(before, data)
    {
    }

    /** One turn: makes room, then fills the buffer or goes past it; 0 when the device stops. */
    method WriteSome(data: seq<char>) returns (n: nat)
      requires Valid() && inCount == 0 && data != []
      modifies this`output, this`outCount, this`inCount, this`flushes, this`failures, this`stalls, buffer
      ensures Valid() && inCount == 0 && n <= |data| && Written() == old(Written()) + data[..n]
      ensures From(old(buffer[..outCount]), data)
      ensures failures + stalls == old(failures + stalls) + if n == 0 then 1 else 0
      ensures failures >= old(failures) && stalls >= old(stalls) && outCount <= old(outCount) + n
      ensures old(outCount) == 0 && 0 < bufSize ==> outCount == 0 || (n == |data| == outCount < bufSize)
      ensures old(outCount) + |data| < bufSize ==>
        && n == |data| && buffer[..outCount] == old(buffer[..outCount]) + data
        && flushes == old(flushes) && output == old(output)
    {
      n := 0;
      ghost var before := buffer[..outCount];
      if outCount == bufSize {
        var failed := Flush();
        assert forall c :: c in buffer[..outCount] ==> c in before;
        if failed {
          return;
        }
      }
      if outCount == 0 && bufSize <= |data| {
        n := DeviceWrite(data);
      } else {
        n := Fill(data);
      }
    }

    /** Copies as much as fits into the buffer. */
    method Fill(data: seq<char>) returns (n: nat)
      requires Valid() && data != [] && outCount < bufSize && inCount == 0
      modifies this`outCount, buffer
      ensures Valid() && 0 < n == Min(|data|, bufSize - old(outCount)) && Written() == old(Written()) + data[..n]
      ensures buffer[..outCount] == old(buffer[..outCount]) + data[..n]
    {
      n := Min(|data|, bufSize - outCount);
      forall i | 0 <= i < n {
        buffer[outCount + i] := data[i];
      }
      assert buffer[..outCount + n] == old(buffer[..outCount]) + data[..n];
      outCount := outCount + n;
    }

    /** How much of the data is flushed at once: in line mode, up to the last newline. */
    static function FlushLength(mode: Mode, data: seq<char>): (n: nat)
      ensures n <= |data| && (mode == FullyBuffered ==> n == 0) && (mode == Unbuffered ==> n == |data|)
      ensures mode == LineBuffered ==> '\n' !in data[n..] && (n > 0 ==> data[n - 1] == '\n')
    {
      match mode
      case FullyBuffered => 0
      case Unbuffered => |data|
      case LineBuffered => LastLine(data)
    }

    static function LastLine(data: seq<char>): (n: nat)
      ensures n <= |data| && '\n' !in data[n..] && (n > 0 ==> data[n - 1] == '\n')
    {
      if data == [] then 0
      else if data[|data| - 1] == '\n' then |data|
      else
        var n := LastLine(data[..|data| - 1]);
        assert data[n..] == data[..|data| - 1][n..] + [data[|data| - 1]];
        n
    }

    /**
     Writes data by the buffering mode. Nothing is lost or doubled: what was accepted before
     is followed by exactly the first `written` characters. All of the data is accepted unless a
     flush fails or the device takes nothing of a direct write, and at most one flush fails. What is
     flushed at once (`FlushLength`) is no longer buffered when no flush has failed. From an empty
     buffer what would fill it goes to the device directly. Data for which
     the buffer has room goes there in full, apart from what is flushed; when that flush fails, what
     follows is not written.
     */
    method Write(data: seq<char>) returns (written: nat)
      requires Valid()
      modifies this`output, this`outCount, this`inCount, this`flushes, this`failures, this`stalls, buffer
      ensures Valid() && written <= |data| && Written() == old(Written()) + data[..written]
      ensures old(failures) <= failures <= old(failures) + 1 && stalls >= old(stalls)
      ensures written < |data| ==> failures > old(failures) || stalls > old(stalls)
      ensures stalls > old(stalls) ==> written < |data|
      ensures old(inCount) > 0 && data != [] && old(NextFlush()).Some? ==> written == 0 && failures > old(failures)
      ensures FlushLength(mode, data) > 0 && written == |data| && failures == old(failures) ==>
        outCount <= |data| - FlushLength(mode, data)
      ensures 0 < bufSize && (old(outCount) == 0 || FlushLength(mode, data) > 0) ==>
        written == |data| && failures == old(failures) ==> outCount < bufSize
      ensures mode == LineBuffered && written == |data| && failures == old(failures) ==>
        ('\n' in buffer[..outCount] ==> '\n' in old(buffer[..outCount]) && '\n' !in data)
      ensures old(inCount) == 0 && old(outCount) + |data| < bufSize ==>
        Fitting(old(buffer[..outCount]), old(output), data, old(NextFlush()), written)
        && failures == old(failures) + (if FlushLength(mode, data) > 0 && old(NextFlush()).Some? then 1 else 0)
    {
      hide LastLine;
      var f := FlushLength(mode, data);
      written := 0;
      assert f == |data| ==> data[..f] == data && data[f..] == [];
      assert data[0..] == data;
      if f != 0 {
        var failed;
        written, failed := WriteFlushed(data[..f]);
        assert data[..f][..written] == data[..written];
        if failed {
          return;
        }
      }
      if f != |data| {
        var more := WriteNoFlush(data[f..]);
        TakeMore(data, f, more);
        written := written + more;
      }
    }

    /**
     The outcome of writing data for which there is room behind `held`, when the next flush ends
     with `flush`: with nothing to flush, all is buffered; otherwise what is held and the part to
     flush go to the device and the rest is buffered, or, if the flush fails, a part of them, and
     the rest is not written.
     */
    ghost predicate Fitting(held: seq<char>, sent: seq<char>, data: seq<char>, flush: Option<nat>, written: nat)
      requires outCount <= buffer.Length
      reads this, buffer
    {
      var f := FlushLength(mode, data);
      if f == 0 then written == |data| && buffer[..outCount] == held + data && output == sent
      else match flush
           case None => written == |data| && buffer[..outCount] == data[f..] && output == sent + held + data[..f]
           case Some(k) => written == f && buffer[..outCount] == Rest(held + data[..f], k)
    }

    /** Writes and flushes; `failed` when not all was accepted or the flush failed. */
    method WriteFlushed(data: seq<char>) returns (written: nat, failed: bool)
      requires Valid() && data != []
      modifies this`output, this`outCount, this`inCount, this`flushes, this`failures, this`stalls, buffer
      ensures Valid() && written <= |data| && Written() == old(Written()) + data[..written]
      ensures old(failures) <= failures <= old(failures) + 1 && stalls >= old(stalls)
      ensures written < |data| ==> failures > old(failures) || stalls > old(stalls)
      ensures stalls > old(stalls) ==> written < |data|
      ensures old(inCount) > 0 && old(NextFlush()).Some? ==> failures > old(failures) && written == 0
      ensures !failed ==>
        written == |data| && outCount == 0 && inCount == 0 && failures == old(failures) && stalls == old(stalls)
      ensures failed && written == |data| ==> failures > old(failures)
      ensures old(inCount) == 0 && old(outCount) + |data| < bufSize ==>
        && written == |data| && failed == old(NextFlush()).Some?
        && (!failed ==> output == old(output) + old(buffer[..outCount]) + data)
        && (failed ==> buffer[..outCount] == Rest(old(buffer[..outCount]) + data, old(NextFlush()).value))
    {
      written := WriteNoFlush(data);
      failed := true;
      if written == |data| {
        assert data[..|data|] == data;
        failed := Flush();
      }
    }

    static predicate EndsLine(data: seq<char>) {
      data != [] && data[|data| - 1] == '\n'
    }

    /** What is left of `s` after its first `k` characters. */
    static function Rest(s: seq<char>, k: nat): (r: seq<char>) {
      s[Min(k, |s|)..]
    }

    /** A line is flushed as a whole. */
    static lemma WholeLine(data: seq<char>)
      requires EndsLine(data)
      ensures FlushLength(LineBuffered, data) == |data| && data[..|data|] == data
    {
    }

    static lemma LastKept(data: seq<char>, k: nat)
      requires EndsLine(data) && k < |data|
      ensures '\n' in Rest(data, k)
    {
      assert Rest(data, k)[|data| - k - 1] == '\n';
    }

    /**
     A line whose flush fails part of the way: all of it counts as written, and the newline
     stays in the buffer.
     */
    static method KeptNewline(data: seq<char>, bufSize: nat, k: nat) returns (io: IoBuffer, written: nat)
      requires EndsLine(data) && k < |data| < bufSize
      ensures fresh(io) && io.Valid() && io.mode == LineBuffered && written == |data|
      ensures io.failures == 1 && io.Written() == data && '\n' in io.buffer[..io.outCount]
    {
      hide IoBuffer.Pending, LastLine, FlushLength, Rest;
      io := new IoBuffer(LineBuffered, bufSize, 0, true, [], [Some(k)]);
      assert io.buffer[..io.outCount] == [] && [] + data == data;
      WholeLine(data);
      written := io.Write(data);
      LastKept(data, k);
    }

    /* ---- Reading ---- */

    method Load(s: seq<char>)
      requires Reading() && |s| <= bufSize
      modifies this`inCount, this`inPtr, buffer
      ensures Valid() && inPtr == slop && inCount == |s| && buffer[inPtr..inPtr + inCount] == s
    {
      forall i | 0 <= i < |s| {
        buffer[slop + i] := s[i];
      }
      inPtr, inCount := slop, |s|;
    }

    /** Gets characters from the device: into the empty buffer, or directly for a large request. */
    method Refill(count: nat) returns (direct: seq<char>)
      requires Valid() && inCount == 0 && outCount == 0 && count > 0
      modifies this`input, this`inCount, this`inPtr, buffer
      ensures Valid() && |direct| <= count && old(Pending()) == direct + Pending()
      ensures count < bufSize ==> direct == []
      ensures count < bufSize && inCount > 0 ==>
        inPtr == slop && (whole ==> inCount == Min(bufSize, |old(input)|) && (input == [] || inCount == bufSize))
      ensures direct == [] && inCount == 0 ==> input == [] && inPtr == old(inPtr)
      ensures count >= bufSize ==> inCount == 0
    {
      if count < bufSize {
        var s := DeviceRead(bufSize);
        direct := [];
        if s != [] {
          Load(s);
        }
      } else {
        direct := DeviceRead(count);
      }
    }

    /** Takes up to `count` characters out of the buffer. */
    method Take(count: nat) returns (s: seq<char>)
      requires Valid() && inCount > 0 && count > 0
      modifies this`inCount, this`inPtr
      ensures Valid() && |s| == Min(count, old(inCount)) && old(Pending()) == s + Pending()
      ensures inPtr == old(inPtr) + |s| && inCount == old(inCount) - |s|
    {
      var n := Min(count, inCount);
      s := buffer[inPtr..inPtr + n];
      inPtr, inCount := inPtr + n, inCount - n;
      assert old(buffer[inPtr..inPtr + inCount]) == s + buffer[inPtr..inPtr + inCount];
    }

    /** Two characters read now can both be put back. */
    ghost predicate TwoStay()
      reads this
    {
      bufSize > 2 && (slop >= 1 || inCount >= 2 || input == [] || (inCount == 0 && whole))
    }

    /** Of two characters read now only the second can be put back: the buffer is refilled in between. */
    ghost predicate OneGoes()
      reads this
    {
      bufSize > 2 && slop == 0 && inCount == 1 && input != []
    }

    /**
     Where a read of `s` leaves the buffer. What was buffered is taken without a refill; a
     refill starts behind the slop, and is full or the end of the input on a whole device.
     */
    ghost predicate After(s: seq<char>, count: nat, was: nat, before: seq<char>)
      reads this
    {
      && (s != [] && count < bufSize ==> inPtr >= 1)
      && (s == [] ==> inCount == was && input == before)
      && (0 < |s| <= was ==> |s| == Min(count, was) && inCount == was - |s| && input == before && inPtr >= |s|)
      && (s != [] && was == 0 && whole && count < bufSize ==>
            && inPtr == slop + |s| && (|s| == count || (inCount == 0 && input == []))
            && (input == [] || inCount == bufSize - |s|))
      && (count == 2 < bufSize && |s| == 1 && was == 0 ==> inCount == 0 && inPtr == slop + 1)
      && (count == 2 == |s| && 2 < bufSize && was == 0 && slop >= 1 ==> inPtr >= 2)
      && (count == 2 == |s| && 2 < bufSize && was == 1 ==> inPtr == slop + 1)
    }

    /**
     Reads `count` characters, fewer only at the end of the input. What waits to be written
     is flushed first; when that fails nothing is read. Small reads go through the buffer, so
     that the characters read can be put back.
     */
    method Read(count: nat) returns (s: seq<char>)
      requires Valid()
      modifies this, buffer
      ensures Valid() && Written() == old(Written()) && old(Pending()) == s + Pending()
      ensures old(outCount) == 0 || old(NextFlush()) == None ==>
        && Reading() && failures == old(failures) && |s| == Min(count, |old(Pending())|)
        && After(s, count, old(inCount), old(input))
      ensures old(outCount) > 0 && old(NextFlush()).Some? ==> failures == old(failures) + 1 && s == []
      ensures |s| == 2 == count && old(TwoStay()) ==> inPtr >= 2
      ensures |s| == 2 == count && old(OneGoes()) ==> inPtr == 1
    {
      if outCount != 0 {
        assert Pending() == input;
        var failed := Flush();
        assert Pending() == input;
        if failed {
          return [];
        }
      }
      s := ReadInput(count);
    }

    /** Reads when nothing waits to be written. */
    method ReadInput(count: nat) returns (s: seq<char>)
      requires Reading()
      modifies this`input, this`inCount, this`inPtr, buffer
      ensures Reading() && old(Pending()) == s + Pending() && |s| == Min(count, |old(Pending())|)
      ensures After(s, count, old(inCount), old(input))
    {
      s := [];
      assert |Pending()| == inCount + |input|;
      ghost var was, before := inCount, input;
      assert After(s, count, was, before);
      hide IoBuffer.Pending, IoBuffer.After;
      while |s| < count
        invariant Reading() && |s| <= count && old(Pending()) == s + Pending()
        invariant After(s, count, was, before)
        decreases count - |s|
      {
        var more := ReadNext(s, count, was, before);
        if more == [] {
          return;
        }
        s := s + more;
      }
    }

    /** The next characters of a read. */
    method ReadNext(s: seq<char>, count: nat, ghost was: nat, ghost before: seq<char>) returns (more: seq<char>)
      requires Valid() && outCount == 0 && |s| < count && After(s, count, was, before)
      modifies this`input, this`inCount, this`inPtr, buffer
      ensures Valid() && |more| <= count - |s| && s + old(Pending()) == (s + more) + Pending()
      ensures more == [] ==> Pending() == []
      ensures After(s + more, count, was, before)
    {
      assert |Pending()| == inCount + |input|;
      hide IoBuffer.Pending;
      more := ReadSome(count - |s|);
      assert s + (more + Pending()) == (s + more) + Pending();
      assert more == [] ==> s + more == s;
    }

    /** One turn of reading: refills the buffer if it is empty, and takes what it can. */
    method ReadSome(count: nat) returns (s: seq<char>)
      requires Valid() && outCount == 0 && count > 0
      modifies this`input, this`inCount, this`inPtr, buffer
      ensures Valid() && |s| <= count && old(Pending()) == s + Pending() && (s == [] <==> old(Pending()) == [])
      ensures s != [] && count < bufSize ==> inPtr >= |s|
      ensures s == [] ==> inPtr == old(inPtr)
      ensures old(inCount) > 0 ==>
        && |s| == Min(count, old(inCount)) && inPtr == old(inPtr) + |s|
        && inCount == old(inCount) - |s| && input == old(input)
      ensures old(inCount) == 0 && count < bufSize && s != [] ==> inPtr == slop + |s|
      ensures old(inCount) == 0 && count < bufSize && whole ==> |s| == Min(count, |old(Pending())|)
      ensures old(inCount) == 0 && count < bufSize && whole && s != [] ==> input == [] || inCount == bufSize - |s|
      ensures old(inCount) == 0 && s != [] && |s| < count < bufSize ==> inCount == 0
      ensures s == [] ==> inCount == 0 && input == []
    {
      s := [];
      if inCount == 0 {
        s := Refill(count);
      }
      if inCount > 0 {
        s := Take(count);
      }
    }

    /** Puts a character back in front of the pending ones, if there is room before them. */
    method Unget(c: char) returns (ok: bool)
      requires Valid()
      modifies this`inCount, this`inPtr, buffer
      ensures Valid() && ok == (outCount == 0 && old(inPtr) > 0)
      ensures ok ==> Pending() == [c] + old(Pending()) && inPtr == old(inPtr) - 1 && inCount == old(inCount) + 1
      ensures !ok ==> Pending() == old(Pending()) && inPtr == old(inPtr) && inCount == old(inCount)
    {
      if outCount != 0 || inPtr == 0 {
        return false;
      }
      inPtr := inPtr - 1;
      buffer[inPtr] := c;
      inCount := inCount + 1;
      assert buffer[inPtr..inPtr + inCount] == [c] + old(buffer[inPtr..inPtr + inCount]);
      return true;
    }
  }
}
