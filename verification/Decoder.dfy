/**
 What the decoder computes, as pure functions (nvlist/decode.go).

 A list is parsed from the suffix of the input that starts at the list cursor:
 everything a pair reader does is relative to the pair's first byte. Parsing
 yields wire items in order of appearance and the number of bytes left over;
 `Build` then sets them one by one in a map, as setPrimitive does.
 */
module Decoder {
  import opened Bytes
  import opened Consts
  import opened Values

  datatype Encoding = Native | Xdr

  datatype Config = Config(encoding: Encoding, order: ByteOrder) {
    function Alignment(): nat { if encoding.Native? then 8 else 4 }
    /** In XDR the list cursor also passes the decoded-size word. */
    function ExtraSkip(): nat { if encoding.Native? then 0 else 4 }
  }

  // ---- Wire items ----

  /** Skipped is a pair of a type that the decoder accepts and ignores. */
  datatype Node =
    | Skipped
    | Single(leaf: Leaf)
    | Sub(block: Block)
    | Subs(blocks: seq<Block>)

  datatype Block = Block(items: seq<Item>)

  datatype Item = Item(name: bytes, node: Node)

  function Build(m: map<bytes, Value>, items: seq<Item>): map<bytes, Value>
    decreases items
  {
    if items == [] then m
    else AddItem(Build(m, items[..|items| - 1]), items[|items| - 1])
  }

  function AddItem(m: map<bytes, Value>, it: Item): map<bytes, Value>
    decreases it
  {
    match it.node
    case Skipped => m
    case Single(l) => m[it.name := Value.Prim(l)]
    case Sub(b) => m[it.name := Value.Map(Build(map[], b.items))]
    case Subs(bs) => m[it.name := Value.Lists(BuildAll(bs))]
  }

  function BuildAll(bs: seq<Block>): (vs: seq<Value>)
    ensures |vs| == |bs|
    ensures forall i :: 0 <= i < |bs| ==> vs[i] == Value.Map(Build(map[], bs[i].items))
    decreases bs
  {
    if bs == [] then []
    else BuildAll(bs[..|bs| - 1]) + [Value.Map(Build(map[], bs[|bs| - 1].items))]
  }

  // ---- Reads bounded by a limit ----

  /** io.ReadFull of k bytes at off from a reader that stops at limit. */
  function ReadFull(s: bytes, limit: nat, off: nat, k: nat): (r: Result<bytes>)
    requires limit <= |s|
    ensures r.Ok? ==> |r.value| == k
  {
    if k == 0 then Ok([])
    else if off + k <= limit then Ok(s[off..off + k])
    else if off < limit then Err(UnexpectedEof)
    else Err(Eof)
  }

  ghost function ReadInt(order: ByteOrder, signed: bool, s: bytes, limit: nat, off: nat, w: nat): (r: Result<int>)
    requires limit <= |s|
    ensures r.Ok? ==> InRange(signed, w, r.value) && (w > 0 ==> off + w <= limit)
  {
    var bs :- ReadFull(s, limit, off, w);
    Ok(GetInt(order, signed, bs))
  }

  /** readN: unlike ReadFull it also refuses to read nothing past the limit. */
  function ReadN(s: bytes, limit: nat, off: nat, k: nat): (r: Result<bytes>)
    requires limit <= |s|
    ensures r.Ok? <==> off + k <= limit
    ensures r.Ok? ==> |r.value| == k
  {
    if off + k <= limit then Ok(s[off..off + k]) else Err(InvalidData)
  }

  /** What ReadBytes may still scan: the byte at the limit itself is included. */
  function Window(s: bytes, limit: nat, off: nat): bytes
    requires limit < |s|
  {
    if off <= limit then s[off..limit + 1] else []
  }

  /** A C string and what follows its NUL. */
  function ReadCString(w: bytes): (r: Result<(bytes, bytes)>)
    ensures r.Ok? ==> |r.value.1| < |w|
  {
    var k := IndexOf(w, 0);
    if k == |w| then Err(InvalidData) else Ok((w[..k], w[k + 1..]))
  }

  function ReadCStrings(w: bytes, n: nat, acc: seq<bytes>): (r: Result<seq<bytes>>)
    ensures r.Ok? ==> |r.value| == |acc| + n
    decreases n
  {
    if n == 0 then Ok(acc)
    else
      var c :- ReadCString(w);
      ReadCStrings(c.1, n - 1, acc + [c.0])
  }

  /** A boolean on the wire is the 32-bit integer 0 or 1. */
  ghost function ReadBool(order: ByteOrder, s: bytes, limit: nat, off: nat): (r: Result<bool>)
    requires limit <= |s|
    ensures r.Ok? ==> off + 4 <= limit
  {
    var n :- ReadInt(order, true, s, limit, off, 4);
    if n == 0 then Ok(false) else if n == 1 then Ok(true) else Err(InvalidData)
  }

  ghost function ReadBools(order: ByteOrder, s: bytes, limit: nat, off: nat, n: nat, acc: seq<bool>): (r: Result<seq<bool>>)
    requires limit <= |s|
    ensures r.Ok? ==> |r.value| == |acc| + n
    decreases n
  {
    if n == 0 then Ok(acc)
    else
      var b :- ReadBool(order, s, limit, off);
      ReadBools(order, s, limit, off + 4, n - 1, acc + [b])
  }

  ghost function ReadInts(order: ByteOrder, k: IntKind, s: bytes, limit: nat, off: nat, n: nat): (r: Result<seq<int>>)
    requires limit <= |s|
    ensures r.Ok? ==> |r.value| == n
  {
    var bs :- ReadFull(s, limit, off, k.Width() * n);
    Ok(GetInts(order, k.Signed(), bs, k.Width(), n))
  }

  // ---- One pair ----

  /** An accepted pair header; `off` is where its value starts. */
  datatype Head = Head(size: nat, name: bytes, elems: nat, code: nat, off: nat)

  datatype HeadResult = End | Pair(head: Head) | BadHead(error: Error)

  /** The error of a read that starts at off and does not fit below limit. */
  function ShortRead(limit: nat, off: nat): Error {
    if off < limit then UnexpectedEof else Eof
  }

  /** The w-byte integer at off. */
  ghost function IntAt(order: ByteOrder, signed: bool, s: bytes, off: nat, w: nat): (n: int)
    requires off + w <= |s|
    ensures InRange(signed, w, n)
  {
    GetInt(order, signed, s[off..off + w])
  }

  ghost function ReadHead(c: Config, s: bytes): (r: HeadResult)
    ensures !r.BadHead? ==> |s| >= 4
    ensures r.Pair? ==> HeadOk(s, r.head)
  {
    PowValues();
    if |s| < 4 then BadHead(ShortRead(|s|, 0))
    else
      var size := IntAt(c.order, true, s, 0, 4);
      if size < 0 then BadHead(InvalidData)
      else if size == 0 then End
      else if size + 4 > |s| then BadHead(InvalidData)
      else ReadPairHead(c, s, size)
  }

  /** The rest of a pair header, read by a pair reader that stops at size. */
  ghost function ReadPairHead(c: Config, s: bytes, size: nat): (r: HeadResult)
    requires 0 < size && size + 4 <= |s|
    ensures !r.End?
    ensures r.Pair? ==> r.head.size == size && HeadOk(s, r.head)
  {
    PowValues();
    if size < 6 then BadHead(ShortRead(size, 4))
    else
      var nameSize := IntAt(c.order, true, s, 4, 2);
      if nameSize <= 0 then BadHead(InvalidData)
      else if size < 8 then BadHead(ShortRead(size, 6))
      else if size < 12 then BadHead(ShortRead(size, 8))
      else
        var elems := IntAt(c.order, true, s, 8, 4);
        if elems < 0 || elems > MAX_ELEMS then BadHead(InvalidData)
        else if size < 16 then BadHead(ShortRead(size, 12))
        else if 16 + nameSize > size then BadHead(InvalidData)
        else
          var code := IntAt(c.order, false, s, 12, 4);
          Pair(Head(size, s[16..15 + nameSize], elems, code, AlignUp(16 + nameSize, c.Alignment())))
  }

  /** What every accepted header guarantees about the bytes it was read from. */
  predicate HeadOk(s: bytes, h: Head) {
    && h.size + 4 <= |s|
    && 17 + |h.name| <= h.size
    && |h.name| <= MAX_INT16 - 1
    && h.elems <= MAX_ELEMS
  }

  datatype ValueResult = Got(node: Node) | BadValue(error: Error)

  function Wrap(r: Result<Leaf>): ValueResult {
    match r
    case Ok(l) => Got(Single(l))
    case Err(e) => BadValue(e)
  }

  /** The value of a pair that is not a list or an array of lists. */
  ghost function ReadValue(c: Config, s: bytes, h: Head): (r: ValueResult)
    requires HeadOk(s, h)
    ensures r.Got? ==> r.node.Skipped? || r.node.Single?
  {
    var t := h.code;
    if t == TYPE_UNKNOWN then BadValue(InvalidData)
    else if t == TYPE_BOOLEAN then Got(Single(Bool(true)))
    else if KindOfScalar(t).Some? then Wrap(ReadScalar(c, s, h, KindOfScalar(t).value))
    else if KindOfArray(t).Some? then Wrap(ReadIntArray(c, s, h, KindOfArray(t).value))
    else if t == TYPE_STRING then Wrap(ReadStr(s, h))
    else if t == TYPE_BOOLEAN_VALUE then Wrap(ReadBoolean(c, s, h))
    else if t == TYPE_STRING_ARRAY then Wrap(ReadStrArray(s, h))
    else if t == TYPE_BOOLEAN_ARRAY then Wrap(ReadBoolArray(c, s, h))
    else Got(Skipped)
  }

  /** A byte is read by ReadByte, which also accepts the offset at the limit itself. */
  ghost function ReadScalar(c: Config, s: bytes, h: Head, k: IntKind): Result<Leaf>
    requires HeadOk(s, h)
  {
    if h.code == TYPE_BYTE then
      if h.off <= h.size then Ok(Int(Uint8, ByteAt(s, h.off))) else Err(InvalidData)
    else
      match ReadInt(c.order, k.Signed(), s, h.size, h.off, k.Width())
      case Ok(n) => Ok(Int(k, n))
      case Err(e) => Err(e)
  }

  ghost function ReadIntArray(c: Config, s: bytes, h: Head, k: IntKind): Result<Leaf>
    requires HeadOk(s, h)
  {
    if h.code == TYPE_BYTE_ARRAY then
      match ReadN(s, h.size, h.off, h.elems)
      case Ok(bs) => Ok(IntArray(Uint8, ByteInts(bs)))
      case Err(e) => Err(e)
    else
      match ReadInts(c.order, k, s, h.size, h.off, h.elems)
      case Ok(ns) => Ok(IntArray(k, ns))
      case Err(e) => Err(e)
  }

  function ReadStr(s: bytes, h: Head): Result<Leaf>
    requires HeadOk(s, h)
  {
    match ReadCString(Window(s, h.size, h.off))
    case Ok(r) => Ok(Str(r.0))
    case Err(e) => Err(e)
  }

  ghost function ReadBoolean(c: Config, s: bytes, h: Head): Result<Leaf>
    requires HeadOk(s, h)
  {
    match ReadBool(c.order, s, h.size, h.off)
    case Ok(b) => Ok(Bool(b))
    case Err(e) => Err(e)
  }

  /** The pointers of a string array are skipped, then its strings follow. */
  function ReadStrArray(s: bytes, h: Head): Result<Leaf>
    requires HeadOk(s, h)
  {
    match ReadCStrings(Window(s, h.size, h.off + 8 * h.elems), h.elems, [])
    case Ok(ss) => Ok(StrArray(ss))
    case Err(e) => Err(e)
  }

  ghost function ReadBoolArray(c: Config, s: bytes, h: Head): Result<Leaf>
    requires HeadOk(s, h)
  {
    match ReadBools(c.order, s, h.size, h.off, h.elems, [])
    case Ok(bs) => Ok(BoolArray(bs))
    case Err(e) => Err(e)
  }

  function ByteAt(s: bytes, i: nat): (n: int)
    requires i < |s|
    ensures IntFits(Uint8, n)
  {
    PowValues();
    s[i]
  }

  function ByteInts(bs: bytes): (ns: seq<int>)
    ensures |ns| == |bs|
    ensures AllFit(Uint8, ns)
  {
    PowValues();
    seq(|bs|, i requires 0 <= i < |bs| => bs[i])
  }

  /** Every leaf the decoder makes: in range, NUL-free, at most 65535 elements. */
  predicate LeafDecoded(l: Leaf) {
    && LeafTyped(l)
    && match l
       case Bool(_) => true
       case Int(_, _) => true
       case Str(s) => NulFree(s)
       case IntArray(_, ns) => |ns| <= MAX_ELEMS
       case BoolArray(bs) => |bs| <= MAX_ELEMS
       case StrArray(ss) => |ss| <= MAX_ELEMS && AllNulFree(ss)
  }

  lemma {:induction false} CStringsNulFree(w: bytes, n: nat, acc: seq<bytes>)
    requires AllNulFree(acc)
    ensures var r := ReadCStrings(w, n, acc); r.Ok? ==> AllNulFree(r.value)
    decreases n
  {
    if n != 0 {
      var r := ReadCString(w);
      if r.Ok? {
        CStringsNulFree(r.value.1, n - 1, acc + [r.value.0]);
      }
    }
  }

  lemma ValueDecoded(c: Config, s: bytes, h: Head)
    requires HeadOk(s, h)
    ensures var r := ReadValue(c, s, h); r.Got? && r.node.Single? ==> LeafDecoded(r.node.leaf)
  {
    if h.code == TYPE_STRING_ARRAY {
      CStringsNulFree(Window(s, h.size, h.off + 8 * h.elems), h.elems, []);
    }
  }

  // ---- Lists ----

  /** Items in wire order and the bytes left after the list. */
  datatype ParseResult = Parsed(items: seq<Item>, rest: bytes) | BadList(error: Error)
  datatype ParseAllResult = ParsedAll(blocks: seq<Block>, rest: bytes) | BadLists(error: Error)
  datatype NodeResult = GotNode(node: Node, rest: bytes) | BadNode(error: Error)

  /** The list cursor after a pair. */
  function After(c: Config, s: bytes, h: Head): (t: bytes)
    requires HeadOk(s, h)
    ensures |t| < |s|
  {
    s[h.size + c.ExtraSkip()..]
  }

  /** The node of a pair; nested lists are read from behind the pair. */
  ghost function ReadNode(c: Config, s: bytes, h: Head): (r: NodeResult)
    requires HeadOk(s, h)
    ensures r.GotNode? ==> |r.rest| + h.size + c.ExtraSkip() <= |s|
    decreases |s|, 0
  {
    var t := After(c, s, h);
    if h.code == TYPE_NVLIST then
      match Parse(c, t, [])
      case BadList(e) => BadNode(e)
      case Parsed(items, rest) => GotNode(Sub(Block(items)), rest)
    else if h.code == TYPE_NVLIST_ARRAY then
      match ParseAll(c, t, h.elems, [])
      case BadLists(e) => BadNode(e)
      case ParsedAll(blocks, rest) => GotNode(Subs(blocks), rest)
    else
      match ReadValue(c, s, h)
      case BadValue(e) => BadNode(e)
      case Got(node) => GotNode(node, t)
  }

  /** readPairs: pairs up to the zero size that ends the list. */
  ghost function Parse(c: Config, s: bytes, acc: seq<Item>): (r: ParseResult)
    ensures r.Parsed? ==> |r.rest| + 4 <= |s|
    decreases |s|, 1
  {
    match ReadHead(c, s)
    case BadHead(e) => BadList(e)
    case End => Parsed(acc, s[4..])
    case Pair(h) =>
      match ReadNode(c, s, h)
      case BadNode(e) => BadList(e)
      case GotNode(node, rest) => Parse(c, rest, acc + [Item(h.name, node)])
  }

  ghost function ParseAll(c: Config, s: bytes, n: nat, acc: seq<Block>): (r: ParseAllResult)
    ensures r.ParsedAll? ==> |r.rest| <= |s|
    decreases |s|, 2
  {
    if n == 0 then ParsedAll(acc, s)
    else
      match Parse(c, s, [])
      case BadList(e) => BadLists(e)
      case Parsed(items, rest) => ParseAll(c, rest, n - 1, acc + [Block(items)])
  }

  // ---- The whole buffer ----

  ghost function ReadHeader(data: bytes): (r: Result<Config>)
    ensures r.Ok? ==> |data| >= 12
  {
    if |data| < 1 then Err(InvalidData)
    else if data[0] != 0 && data[0] != 1 then Err(InvalidEncoding)
    else if |data| < 2 then Err(InvalidData)
    else if data[1] != 0 && data[1] != 1 then Err(InvalidEndianess)
    else
      var c := Config(if data[0] == 0 then Native else Xdr, if data[1] == 0 then BigEndian else LittleEndian);
      var _ :- ReadInt(c.order, true, data, |data|, 4, 4);
      var _ :- ReadInt(c.order, false, data, |data|, 8, 4);
      Ok(c)
  }

  ghost function ParseBuffer(data: bytes): (r: ParseResult)
    ensures r.Parsed? ==> |r.rest| + 16 <= |data|
  {
    match ReadHeader(data)
    case Err(e) => BadList(e)
    case Ok(c) => Parse(c, data[12..], [])
  }

  /** Unmarshal into an empty interface. */
  ghost function Unmarshal(data: bytes): Result<Value> {
    match ParseBuffer(data)
    case BadList(e) => Err(e)
    case Parsed(items, _) => Ok(Value.Map(Build(map[], items)))
  }
}
