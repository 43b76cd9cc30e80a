/**
 What the encoder computes, as pure functions (nvlist/encoder.go).

 The functions follow the code on every tree, also where it goes wrong: a
 string is cut at its first NUL because the error of writeString is dropped, a
 nil list writes no trailer, and an error inside a nested list ends the
 enclosing list without a trailer and without an error.
 */
module Encoder {
  import opened Bytes
  import opened Consts
  import opened Values

  // ---- Pairs ----

  /** What writeString appends: it stops at a NUL without writing a terminator. */
  function CString(s: bytes): (r: bytes)
    ensures |r| == CStringLen(s)
  {
    if NulFree(s) then s + [0] else s[..IndexOf(s, 0)]
  }

  function CStrings(ss: seq<bytes>): bytes {
    if ss == [] then [] else CString(ss[0]) + CStrings(ss[1..])
  }

  /** skipToAlign; a pair header is 16 bytes, so offsets after it align the same way. */
  function Pad8(bs: bytes): (r: bytes)
    ensures |r| == AlignUp(|bs|, 8) && bs <= r
  {
    bs + Zeros(AlignUp(|bs|, 8) - |bs|)
  }

  function PairBody(name: bytes, value: bytes): bytes {
    Pad8(Pad8(CString(name)) + value)
  }

  function PairHeader(o: ByteOrder, size: int, nameSize: int, elems: int, code: int): (r: bytes)
    ensures |r| == 16
  {
    PutInt(o, size, 4) + PutInt(o, nameSize, 2) + PutInt(o, 0, 2) + PutInt(o, elems, 4) + PutInt(o, code, 4)
  }

  function PairBytes(o: ByteOrder, name: bytes, elems: nat, code: nat, value: bytes): (r: bytes)
    ensures |r| >= 16
  {
    var body := PairBody(name, value);
    PairHeader(o, 16 + |body|, |name| + 1, elems, code) + body
  }

  /** A pair that was started and never ended: its header is still zero. */
  function OpenPair(name: bytes): bytes {
    Zeros(16) + Pad8(CString(name))
  }

  /** writeNvlistHeader: version, flag, priv, flag, pad. */
  function ListHeader(o: ByteOrder): (r: bytes)
    ensures |r| == 24
  {
    PutInt(o, 0, 4) + PutInt(o, UNIQUE_NAME_FLAG, 4) + PutInt(o, 0, 8) + PutInt(o, 0, 4) + PutInt(o, 0, 4)
  }

  function ListHeaders(o: ByteOrder, n: nat): (r: bytes)
    ensures |r| == 24 * n
  {
    if n == 0 then [] else ListHeaders(o, n - 1) + ListHeader(o)
  }

  // ---- Leaves ----

  function LeafCode(l: Leaf): (t: nat)
    ensures t != TYPE_UNKNOWN && t != TYPE_NVLIST && t != TYPE_NVLIST_ARRAY && t <= TYPE_DOUBLE
  {
    match l
    case Bool(_) => TYPE_BOOLEAN
    case Int(k, _) => ScalarCode(k)
    case Str(_) => TYPE_STRING
    case IntArray(k, _) => ArrayCode(k)
    case BoolArray(_) => TYPE_BOOLEAN_ARRAY
    case StrArray(_) => TYPE_STRING_ARRAY
  }

  function LeafElems(l: Leaf): nat {
    match l
    case Bool(_) => 0
    case Int(_, _) => 1
    case Str(_) => 1
    case IntArray(_, ns) => |ns|
    case BoolArray(bs) => |bs|
    case StrArray(ss) => |ss|
  }

  function BoolInts(bs: seq<bool>): (ns: seq<int>)
    ensures |ns| == |bs|
  {
    seq(|bs|, i requires 0 <= i < |bs| => if bs[i] then 1 else 0)
  }

  function LeafBytes(o: ByteOrder, l: Leaf): bytes {
    match l
    case Bool(_) => []
    case Int(k, n) => PutInt(o, n, k.Width())
    case Str(s) => CString(s)
    case IntArray(k, ns) => PutInts(o, ns, k.Width())
    case BoolArray(bs) => PutInts(o, BoolInts(bs), 4)
    case StrArray(ss) => Zeros(8 * |ss|) + CStrings(ss)
  }

  function LeafPair(o: ByteOrder, name: bytes, l: Leaf): bytes {
    PairBytes(o, name, LeafElems(l), LeafCode(l), LeafBytes(o, l))
  }

  function FloatPair(o: ByteOrder, name: bytes, bits: nat): bytes {
    PairBytes(o, name, 1, TYPE_DOUBLE, PutInt(o, bits, 8))
  }

  function ListPair(o: ByteOrder, name: bytes): bytes {
    PairBytes(o, name, 1, TYPE_NVLIST, ListHeader(o))
  }

  function ListsPair(o: ByteOrder, name: bytes, n: nat): bytes {
    PairBytes(o, name, n, TYPE_NVLIST_ARRAY, Zeros(8 * n) + ListHeaders(o, n))
  }

  // ---- Lists ----

  /** Bytes appended, and whether writeNvPairs returned without an error. */
  datatype Out = Out(data: bytes, ok: bool)

  /** How the loop over the pairs goes on after one of them. */
  datatype Flow = Continue | ReturnOk | ReturnErr

  datatype EntryOut = EntryOut(data: bytes, flow: Flow)

  function EncodeList(o: ByteOrder, t: Tree): Out
    decreases t, 0
  {
    match t
    case Nil => Out([], true)
    case Map(es) => EncodeEntries(o, es)
    case Struct(es) => EncodeEntries(o, es)
    case _ => Out([], false)
  }

  function EncodeEntries(o: ByteOrder, es: seq<Entry>): Out
    decreases es
  {
    if es == [] then Out(Zeros(4), true)
    else if Dropped(es[0]) then EncodeEntries(o, es[1..])
    else if |EntryName(es[0])| + 1 >= MAX_INT16 then Out([], false)
    else
      var p := EncodeEntry(o, es[0]);
      match p.flow
      case Continue =>
        var rest := EncodeEntries(o, es[1..]);
        Out(p.data + rest.data, rest.ok)
      case ReturnOk => Out(p.data, true)
      case ReturnErr => Out(p.data, false)
  }

  /** One pass of the pair loop; a false boolean writes nothing. */
  function EncodeEntry(o: ByteOrder, e: Entry): EntryOut
    decreases e
  {
    var name := EntryName(e);
    match e.value
    case Prim(l) =>
      if l == Bool(false) then EntryOut([], Continue)
      else if LeafElems(l) >= MAX_INT32 then EntryOut(OpenPair(name), ReturnErr)
      else EntryOut(LeafPair(o, name, l), Continue)
    case Float64(bits) => EntryOut(FloatPair(o, name, bits), Continue)
    case Map(_) =>
      var sub := EncodeList(o, e.value);
      EntryOut(ListPair(o, name) + sub.data, if sub.ok then Continue else ReturnOk)
    case Struct(_) =>
      var sub := EncodeList(o, e.value);
      EntryOut(ListPair(o, name) + sub.data, if sub.ok then Continue else ReturnOk)
    case Lists(ts) =>
      if |ts| >= MAX_INT32 then EntryOut(OpenPair(name), ReturnErr)
      else
        var sub := EncodeLists(o, ts);
        EntryOut(ListsPair(o, name, |ts|) + sub.data, if sub.ok then Continue else ReturnErr)
    case Nil => EntryOut(OpenPair(name), ReturnErr)
    case Unsupported(_) => EntryOut(OpenPair(name), ReturnErr)
  }

  function EncodeLists(o: ByteOrder, ts: seq<Tree>): Out
    decreases ts
  {
    if ts == [] then Out([], true)
    else
      var first := EncodeList(o, ts[0]);
      if !first.ok then first
      else
        var rest := EncodeLists(o, ts[1..]);
        Out(first.data + rest.data, rest.ok)
  }

  // ---- The whole buffer ----

  function OrderFlag(o: ByteOrder): byte {
    if o.BigEndian? then 0 else 1
  }

  /** Native encoding, byte order, two reserved bytes, version 0, unique names. */
  function BufferHeader(o: ByteOrder): (r: bytes)
    ensures |r| == 12
  {
    [0, OrderFlag(o)] + Zeros(2) + PutInt(o, 0, 4) + PutInt(o, UNIQUE_NAME_FLAG, 4)
  }

  /** Marshal; the code only ever passes LittleEndian. */
  function Marshal(o: ByteOrder, t: Tree): Result<bytes> {
    var out := EncodeList(o, t);
    if out.ok then Ok(BufferHeader(o) + out.data) else Err(InvalidValue)
  }
}
