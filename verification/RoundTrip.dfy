/** The decoder run on an encoded stream: the round trip of the code itself. */
module RoundTrip {
  import opened Bits
  import opened Stream
  import opened InflateSpec
  import opened Deflate
  import Inflater

  /**
   On every buffer that starts with the encoding of a well-formed list of blocks, whatever
   follows it, the decoder reports no error, writes exactly the data the blocks stand for,
   leaves the rest of the destination alone and returns the data's length.
   */
  method DecompressStream(ghost bs: seq<Block>, dest: array<byte>, source: seq<byte>)
    returns (error: ErrorCode, destLen: nat)
    requires StreamOk(bs) && EncodeStream(bs) <= BitsOf(source)
    requires |ExpandStream(bs)| <= dest.Length
    modifies dest
    ensures error == ErrNone && destLen == |ExpandStream(bs)|
    ensures dest[..destLen] == ExpandStream(bs)
    ensures forall k :: destLen <= k < dest.Length ==> dest[k] == old(dest[k])
  {
    hide Inflate, ExpandStream, EncodeStream, StreamOk, BitsOf;
    InflateOfStream(bs, source);
    error, destLen := Inflater.InflateBuffer(dest, 0, source);
  }
}
