/**
 The running encoder followed by the running decoder.
 */
module Codec {
  import opened Bytes
  import opened Values
  import opened Stability
  import opened Reader
  import opened Writer

  /** Writing a value and reading it back, with anything behind it in the buffer, yields its normal form. */
  method EncodeThenDecode(o: ByteOrder, t: Tree, extra: bytes, ghost v: Value) returns (r: Result<Value>)
    requires InDomain(v) && Orders(v, t)
    ensures r == Ok(Norm(v))
  {
    CodecRoundTrip(o, v, t, extra);
    var m := MarshalTree(o, t);
    r := UnmarshalBuffer(m.value + extra);
  }
}
