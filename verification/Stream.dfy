/**
 Reading from a bit stream: the decoder's error codes and the result of a read at a bit
 position, as the specification functions use them.
 */
module Stream {
  import opened Bits

  /** The decoder's error codes. */
  datatype ErrorCode = ErrNone | ErrOverflow | ErrSymbol | ErrUndefined

  /**
   What reading an item at a bit position gives: the item and the position after it, an
   error the decoder reports, or `Undefined`, where the C code itself has no defined
   behaviour (it would index outside one of its tables or buffers).
   */
  datatype Parse<+T> = Parsed(value: T, pos: nat) | Failed(error: ErrorCode) | Undefined {
    predicate IsFailure() {
      !Parsed?
    }

    function PropagateFailure<U>(): (r: Parse<U>)
      requires IsFailure()
    {
      if Failed? then Failed(error) else Undefined
    }

    function Extract(): (r: (T, nat))
      requires Parsed?
    {
      (value, pos)
    }
  }

  /** The next `n` bits as a number, least significant bit first. */
  function ReadBits(s: seq<bit>, pos: nat, n: nat): (r: Parse<nat>)
    ensures !r.Undefined?
    ensures r.Parsed? ==> r.value < Pow2(n) && r.pos == pos + n <= |s|
    ensures r.Failed? ==> r.error == ErrOverflow
  {
    if pos + n <= |s| then
      LsbBound(s[pos..pos + n]);
      Parsed(LsbValue(s[pos..pos + n]), pos + n)
    else Failed(ErrOverflow)
  }

  /** `base` plus the next `n` bits. */
  function ReadExtra(s: seq<bit>, pos: nat, n: nat, base: nat): (r: Parse<nat>)
    ensures !r.Undefined?
    ensures r.Parsed? ==> base <= r.value < base + Pow2(n) && r.pos == pos + n
    ensures r.Parsed? && pos <= |s| ==> r.pos <= |s|
    ensures r.Failed? ==> r.error == ErrOverflow
  {
    if n == 0 then Parsed(base, pos)
    else
      var (v, p) :- ReadBits(s, pos, n);
      Parsed(base + v, p)
  }

  /** Reading back a number written least significant bit first. */
  lemma ReadExtraWritten(s: seq<bit>, pos: nat, n: nat, base: nat, v: nat)
    requires v < Pow2(n) && At(s, pos, LsbBits(v, n))
    ensures ReadExtra(s, pos, n, base) == Parsed(base + v, pos + n)
  {
    LsbRoundTrip(v, n);
  }
}
