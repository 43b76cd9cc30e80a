/**
 What Unmarshal makes of bytes, in literal numbers: the 12-byte header, the
 checks of a pair's header in their order, and the meaning of type codes, those
 that only a kernel sends included. Nothing in the statements refers to the
 constants or the reading functions of the codec.
 */
module WireDecode {
  import opened Bytes
  import opened Consts
  import opened Values
  import opened Decoder
  import opened RoundTrip
  import opened Meaning
  import opened Wire

  // ---- One pair in a buffer ----

  /** The first two bytes announce the encoding and the byte order; ten arbitrary bytes follow. */
  predicate Starts(o: ByteOrder, xdr: bool, data: bytes) {
    |data| >= 12 && data[0] == (if xdr then 1 else 0) && data[1] == (if o.LittleEndian? then 1 else 0)
  }

  /** A pair behind the header with the given fields. */
  predicate Announced(o: ByteOrder, data: bytes, size: nat, name: bytes, elems: nat, code: nat) {
    && 17 + |name| <= size < 0x8000_0000 && 16 + size <= |data|
    && Number(o, data[12..16]) == size
    && Number(o, data[16..18]) == |name| + 1 < 0x8000
    && Number(o, data[20..24]) == elems <= 65535
    && Number(o, data[24..28]) == code
    && data[28..28 + |name|] == name
  }

  /** Four zero bytes behind the pair; in the other encoding four bytes are skipped first. */
  predicate Ends(xdr: bool, data: bytes, size: nat) {
    var at := 12 + size + if xdr then 4 else 0;
    at + 4 <= |data| && data[at..at + 4] == [0, 0, 0, 0]
  }

  predicate Sent(o: ByteOrder, xdr: bool, data: bytes, size: nat, name: bytes, elems: nat, code: nat) {
    Starts(o, xdr, data) && Announced(o, data, size, name, elems, code) && Ends(xdr, data, size)
  }

  /** Where the value starts, counted from the start of the pair: the next multiple of 8, or of 4. */
  function Offset(xdr: bool, name: bytes): nat {
    if xdr then (20 + |name|) / 4 * 4 else (24 + |name|) / 8 * 8
  }

  function Settings(o: ByteOrder, xdr: bool): Config {
    Config(if xdr then Xdr else Native, o)
  }

  lemma StartRead(o: ByteOrder, xdr: bool, data: bytes)
    requires Starts(o, xdr, data)
    ensures ReadHeader(data) == Ok(Settings(o, xdr))
  {}

  lemma WordRead(o: ByteOrder, signed: bool, data: bytes, s: bytes, i: nat, w: nat)
    requires |data| >= 12 && s == data[12..] && i + w <= |s| && Width(w)
    ensures IntAt(o, signed, s, i, w) == Signed(o, signed, data[12 + i..12 + i + w])
  {
    SliceSlice(data, 12, i);
    assert s[i..i + w] == s[i..][..w] && data[12 + i..12 + i + w] == data[12 + i..][..w];
    GetNumber(o, signed, s[i..i + w]);
  }

  lemma HeadRead(o: ByteOrder, xdr: bool, data: bytes, size: nat, name: bytes, elems: nat, code: nat, s: bytes)
    requires Starts(o, xdr, data) && Announced(o, data, size, name, elems, code) && s == data[12..]
    ensures ReadHead(Settings(o, xdr), s) == Pair(Head(size, name, elems, code, Offset(xdr, name)))
  {
    WordRead(o, true, data, s, 0, 4);
    WordRead(o, true, data, s, 4, 2);
    WordRead(o, true, data, s, 8, 4);
    WordRead(o, false, data, s, 12, 4);
    assert s[16..16 + |name|] == data[28..28 + |name|];
  }

  lemma TrailerRead(c: Config, s: bytes, acc: seq<Item>)
    requires |s| >= 4 && s[..4] == [0, 0, 0, 0]
    ensures Parse(c, s, acc) == Parsed(acc, s[4..])
  {
    ZeroBytes(c.order, 4);
    assert s[0..4] == Zeros(4);
    PowValues();
    IntAtRead(c.order, true, s, 0, 4, 0);
    assert ReadHead(c, s) == End;
  }

  /** What one node makes of the whole buffer. */
  function Outcome(name: bytes, r: ValueResult): Result<Value> {
    match r
    case BadValue(e) => Err(e)
    case Got(node) => if node.Single? then Ok(Value.Map(map[name := Value.Prim(node.leaf)])) else Ok(Value.Map(map[]))
  }

  lemma OnePair(o: ByteOrder, xdr: bool, data: bytes, size: nat, name: bytes, elems: nat, code: nat, s: bytes, h: Head)
    requires Sent(o, xdr, data, size, name, elems, code) && code != 19 && code != 20
    requires s == data[12..] && h == Head(size, name, elems, code, Offset(xdr, name))
    ensures HeadOk(s, h) && Unmarshal(data) == Outcome(name, ReadValue(Settings(o, xdr), s, h))
  {
    var c := Settings(o, xdr);
    StartRead(o, xdr, data);
    HeadRead(o, xdr, data, size, name, elems, code, s);
    var v := ReadValue(c, s, h);
    if v.BadValue? {
      LeafFails(c, s, [], h, v.error);
    } else {
      var at := 12 + size + if xdr then 4 else 0;
      var t := After(c, s, h);
      assert t == data[at..];
      assert t[..4] == data[at..at + 4];
      LeafStep(c, s, [], h, v.node);
      TrailerRead(c, t, [] + [Item(name, v.node)]);
      BuildAppend([], Item(name, v.node));
      assert Build(map[], []) == map[];
    }
  }

  // ---- What the codes mean ----

  /** The error of a value that does not fit into its pair. */
  function Short(off: nat, size: nat): Error {
    if off < size then UnexpectedEof else Eof
  }

  function Only(name: bytes, l: Leaf): Result<Value> {
    Ok(Value.Map(map[name := Value.Prim(l)]))
  }

  predicate SignedKind(k: IntKind) {
    k == Int8 || k == Int16 || k == Int32 || k == Int64
  }

  predicate IntegerCode(code: nat, k: IntKind) {
    || (code == 3 && k == Int16) || (code == 4 && k == Uint16) || (code == 5 && k == Int32) || (code == 6 && k == Uint32)
    || (code == 7 && k == Int64) || (code == 8 && k == Uint64) || (code == 22 && k == Int8) || (code == 23 && k == Uint8)
  }

  predicate ArrayOfCode(code: nat, k: IntKind) {
    || (code == 11 && k == Int16) || (code == 12 && k == Uint16) || (code == 13 && k == Int32) || (code == 14 && k == Uint32)
    || (code == 15 && k == Int64) || (code == 16 && k == Uint64) || (code == 25 && k == Int8) || (code == 26 && k == Uint8)
  }

  lemma ValueRead(o: ByteOrder, signed: bool, data: bytes, s: bytes, size: nat, off: nat, w: nat)
    requires |data| >= 12 && s == data[12..] && size <= |s| && Width(w)
    ensures ReadInt(o, signed, s, size, off, w) ==
      if off + w <= size then Ok(Signed(o, signed, data[12 + off..12 + off + w])) else Err(Short(off, size))
  {
    if off + w <= size {
      assert s[off..off + w] == data[12 + off..12 + off + w];
      GetNumber(o, signed, s[off..off + w]);
    }
  }

  /** The integer of a kind at an offset of the pair, in the byte order of the list. */
  function Element(o: ByteOrder, k: IntKind, data: bytes, size: nat, off: nat): Result<int>
    requires 12 + size <= |data|
  {
    if off + Octets(k) <= size then Ok(Signed(o, SignedKind(k), data[12 + off..12 + off + Octets(k)])) else Err(Short(off, size))
  }

  function OnlyInteger(name: bytes, k: IntKind, r: Result<int>): Result<Value> {
    if r.Ok? then Only(name, Int(k, r.value)) else Err(r.error)
  }

  /** Codes 3 to 8, 22 and 23: one integer of the kind. */
  lemma IntegerLaw(o: ByteOrder, xdr: bool, data: bytes, size: nat, name: bytes, elems: nat, code: nat, k: IntKind)
    requires Sent(o, xdr, data, size, name, elems, code) && IntegerCode(code, k)
    ensures Unmarshal(data) == OnlyInteger(name, k, Element(o, k, data, size, Offset(xdr, name)))
  {
    var s, off := data[12..], Offset(xdr, name);
    var h := Head(size, name, elems, code, off);
    OnePair(o, xdr, data, size, name, elems, code, s, h);
    ElementRead(o, k, data, s, size, off);
    IntegerDispatch(Settings(o, xdr), s, h, k);
  }

  lemma ElementRead(o: ByteOrder, k: IntKind, data: bytes, s: bytes, size: nat, off: nat)
    requires |data| >= 12 && s == data[12..] && size <= |s|
    ensures ReadInt(o, SignedKind(k), s, size, off, Octets(k)) == Element(o, k, data, size, off)
  {
    ValueRead(o, SignedKind(k), data, s, size, off, Octets(k));
  }

  lemma IntegerDispatch(c: Config, s: bytes, h: Head, k: IntKind)
    requires HeadOk(s, h) && IntegerCode(h.code, k)
    ensures var r := ReadInt(c.order, SignedKind(k), s, h.size, h.off, Octets(k));
      ReadValue(c, s, h) == if r.Ok? then Got(Single(Int(k, r.value))) else BadValue(r.error)
  {
    assert KindOfScalar(h.code) == Some(k) && k.Width() == Octets(k) && k.Signed() == SignedKind(k);
  }

  /** Code 1 is true without a value. */
  lemma TrueLaw(o: ByteOrder, xdr: bool, data: bytes, size: nat, name: bytes, elems: nat)
    requires Sent(o, xdr, data, size, name, elems, 1)
    ensures Unmarshal(data) == Only(name, Bool(true))
  {
    OnePair(o, xdr, data, size, name, elems, 1, data[12..], Head(size, name, elems, 1, Offset(xdr, name)));
  }

  /** Code 2 is one byte, which may be the one right behind the pair. */
  lemma ByteLaw(o: ByteOrder, xdr: bool, data: bytes, size: nat, name: bytes, elems: nat)
    requires Sent(o, xdr, data, size, name, elems, 2)
    ensures var off := Offset(xdr, name);
      Unmarshal(data) == if off <= size then Only(name, Int(Uint8, data[12 + off])) else Err(InvalidData)
  {
    var s, h := data[12..], Head(size, name, elems, 2, Offset(xdr, name));
    OnePair(o, xdr, data, size, name, elems, 2, s, h);
    if h.off <= size {
      assert s[h.off] == data[12 + h.off];
    }
  }

  lemma NumberBound(o: ByteOrder, w: bytes)
    requires |w| == 4
    ensures Number(o, w) < 0x1_0000_0000
    ensures (Signed(o, true, w) == 1 <==> Number(o, w) == 1) && (Signed(o, true, w) == 0 <==> Number(o, w) == 0)
  {
    NumberIs(o, w);
    SpanIs(4);
  }

  /** Code 21, which the encoder never writes: the 32-bit number 1 is true, 0 is false, any other is an error. */
  lemma BooleanLaw(o: ByteOrder, xdr: bool, data: bytes, size: nat, name: bytes, elems: nat)
    requires Sent(o, xdr, data, size, name, elems, 21)
    ensures var off := Offset(xdr, name);
      Unmarshal(data) ==
        if off + 4 > size then Err(Short(off, size))
        else if Number(o, data[12 + off..16 + off]) == 1 then Only(name, Bool(true))
        else if Number(o, data[12 + off..16 + off]) == 0 then Only(name, Bool(false))
        else Err(InvalidData)
  {
    var s, h := data[12..], Head(size, name, elems, 21, Offset(xdr, name));
    OnePair(o, xdr, data, size, name, elems, 21, s, h);
    ValueRead(o, true, data, s, size, h.off, 4);
    if h.off + 4 <= size {
      var w := data[12 + h.off..16 + h.off];
      NumberBound(o, w);
    }
  }

  lemma TextRead(data: bytes, s: bytes, size: nat, off: nat, k: nat)
    requires |data| >= 12 && s == data[12..] && size < |s| && off + k <= size
    requires data[12 + off + k] == 0 && forall j :: 12 + off <= j < 12 + off + k ==> data[j] != 0
    ensures var r := ReadCString(Window(s, size, off));
      r.Ok? && r.value.0 == data[12 + off..12 + off + k] && r.value.1 == Window(s, size, off + k + 1)
  {
    var w := Window(s, size, off);
    assert w == data[12 + off..13 + size];
    assert IsIndexOf(w, 0, k) by {
      assert forall j :: 0 <= j < k ==> w[j] == data[12 + off + j];
      assert w[k] == data[12 + off + k];
    }
    assert w[..k] == data[12 + off..12 + off + k];
  }

  lemma NoTextRead(data: bytes, s: bytes, size: nat, off: nat)
    requires |data| >= 12 && s == data[12..] && size < |s|
    requires forall j :: 12 + off <= j <= 12 + size ==> data[j] != 0
    ensures ReadCString(Window(s, size, off)) == Err(InvalidData)
  {
    var w := Window(s, size, off);
    assert IsIndexOf(w, 0, |w|) by {
      assert forall j :: 0 <= j < |w| ==> w[j] == data[12 + off + j];
    }
  }

  /** Code 9: the bytes up to the first zero, which may be the byte right behind the pair. */
  lemma StringLaw(o: ByteOrder, xdr: bool, data: bytes, size: nat, name: bytes, elems: nat, k: nat)
    requires Sent(o, xdr, data, size, name, elems, 9)
    requires var off := Offset(xdr, name);
      off + k <= size && data[12 + off + k] == 0 && forall j :: 12 + off <= j < 12 + off + k ==> data[j] != 0
    ensures Unmarshal(data) == Only(name, Str(data[12 + Offset(xdr, name)..12 + Offset(xdr, name) + k]))
  {
    var s, h := data[12..], Head(size, name, elems, 9, Offset(xdr, name));
    OnePair(o, xdr, data, size, name, elems, 9, s, h);
    TextRead(data, s, size, h.off, k);
    StrDispatch(Settings(o, xdr), s, h);
  }

  lemma NoStringLaw(o: ByteOrder, xdr: bool, data: bytes, size: nat, name: bytes, elems: nat)
    requires Sent(o, xdr, data, size, name, elems, 9)
    requires forall j :: 12 + Offset(xdr, name) <= j <= 12 + size ==> data[j] != 0
    ensures Unmarshal(data) == Err(InvalidData)
  {
    var s, h := data[12..], Head(size, name, elems, 9, Offset(xdr, name));
    OnePair(o, xdr, data, size, name, elems, 9, s, h);
    NoTextRead(data, s, size, h.off);
    StrDispatch(Settings(o, xdr), s, h);
  }

  /** n integers of w bytes each. */
  function Integers(o: ByteOrder, signed: bool, bs: bytes, w: nat, n: nat): seq<int>
    requires |bs| == w * n
    decreases n
  {
    if n == 0 then []
    else
      MulStep(w, n);
      [Signed(o, signed, bs[..w])] + Integers(o, signed, bs[w..], w, n - 1)
  }

  lemma {:induction false} IntegersRead(o: ByteOrder, signed: bool, bs: bytes, w: nat, n: nat)
    requires |bs| == w * n && Width(w)
    ensures GetInts(o, signed, bs, w, n) == Integers(o, signed, bs, w, n)
    decreases n
  {
    if n > 0 {
      MulStep(w, n);
      GetNumber(o, signed, bs[..w]);
      IntegersRead(o, signed, bs[w..], w, n - 1);
    }
  }

  /** n integers of w bytes at an offset of the pair; none at all are found anywhere. */
  function Elements(o: ByteOrder, signed: bool, w: nat, data: bytes, size: nat, off: nat, n: nat): Result<seq<int>>
    requires 12 + size <= |data|
  {
    if n == 0 then Ok([])
    else if off + w * n <= size then Ok(Integers(o, signed, data[12 + off..12 + off + w * n], w, n))
    else Err(Short(off, size))
  }

  function OnlyArray(name: bytes, k: IntKind, r: Result<seq<int>>): Result<Value> {
    if r.Ok? then Only(name, IntArray(k, r.value)) else Err(r.error)
  }

  /** Codes 11 to 16, 25 and 26: as many integers of the kind as announced. */
  lemma ArrayLaw(o: ByteOrder, xdr: bool, data: bytes, size: nat, name: bytes, elems: nat, code: nat, k: IntKind)
    requires Sent(o, xdr, data, size, name, elems, code) && ArrayOfCode(code, k)
    ensures Unmarshal(data) == OnlyArray(name, k, Elements(o, SignedKind(k), Octets(k), data, size, Offset(xdr, name), elems))
  {
    var s, off := data[12..], Offset(xdr, name);
    var c, h := Settings(o, xdr), Head(size, name, elems, code, off);
    OnePair(o, xdr, data, size, name, elems, code, s, h);
    ArrayRead(o, k, data, s, size, off, elems, Octets(k), SignedKind(k));
    ArrayDispatch(c, s, h, k);
  }

  /** The bytes of the array, w * n of them written as len. */
  lemma SpanRead(o: ByteOrder, signed: bool, data: bytes, s: bytes, size: nat, off: nat, w: nat, n: nat, len: nat)
    requires |data| >= 12 && s == data[12..] && size <= |s| && Width(w) && len == w * n > 0
    ensures var r := ReadFull(s, size, off, len);
      if off + len <= size then
        && r.Ok? && |r.value| == w * n && r.value == data[12 + off..12 + off + len]
        && GetInts(o, signed, r.value, w, n) == Integers(o, signed, r.value, w, n)
      else r == Err(Short(off, size))
  {
    if off + len <= size {
      SliceSlice(data, 12, off);
      assert s[off..off + len] == s[off..][..len] && data[12 + off..12 + off + len] == data[12 + off..][..len];
      IntegersRead(o, signed, s[off..off + len], w, n);
    }
  }

  lemma KindIs(k: IntKind)
    ensures k.Width() == Octets(k) && k.Signed() == SignedKind(k) && Width(Octets(k)) && Octets(k) > 0
  {}

  lemma ReadIntsIs(o: ByteOrder, k: IntKind, s: bytes, size: nat, off: nat, n: nat, w: nat, signed: bool, len: nat)
    requires size <= |s| && w == Octets(k) && signed == SignedKind(k) && len == w * n
    ensures var r := ReadFull(s, size, off, len);
      ReadInts(o, k, s, size, off, n) == if r.Ok? then Ok(GetInts(o, signed, r.value, w, n)) else Err(r.error)
  {
    KindIs(k);
  }

  lemma NoneRead(o: ByteOrder, k: IntKind, s: bytes, size: nat, off: nat)
    requires size <= |s|
    ensures ReadInts(o, k, s, size, off, 0) == Ok([])
  {
    ReadIntsIs(o, k, s, size, off, 0, Octets(k), SignedKind(k), 0);
  }

  lemma SomeRead(o: ByteOrder, k: IntKind, data: bytes, s: bytes, size: nat, off: nat, n: nat, w: nat, signed: bool, len: nat)
    requires |data| >= 12 && s == data[12..] && size <= |s| && n > 0
    requires w == Octets(k) && signed == SignedKind(k) && len == w * n
    ensures ReadInts(o, k, s, size, off, n) ==
      if off + len <= size then Ok(Integers(o, signed, data[12 + off..12 + off + len], w, n)) else Err(Short(off, size))
  {
    KindIs(k);
    LengthPositive(w, n);
    ReadIntsIs(o, k, s, size, off, n, w, signed, len);
    SpanRead(o, signed, data, s, size, off, w, n, len);
  }

  lemma ArrayRead(o: ByteOrder, k: IntKind, data: bytes, s: bytes, size: nat, off: nat, n: nat, w: nat, signed: bool)
    requires |data| >= 12 && s == data[12..] && size <= |s| && w == Octets(k) && signed == SignedKind(k)
    ensures ReadInts(o, k, s, size, off, n) == Elements(o, signed, w, data, size, off, n)
  {
    if n == 0 {
      NoneRead(o, k, s, size, off);
    } else {
      SomeRead(o, k, data, s, size, off, n, w, signed, w * n);
    }
  }

  lemma ArrayDispatch(c: Config, s: bytes, h: Head, k: IntKind)
    requires HeadOk(s, h) && ArrayOfCode(h.code, k)
    ensures var r := ReadInts(c.order, k, s, h.size, h.off, h.elems);
      ReadValue(c, s, h) == if r.Ok? then Got(Single(IntArray(k, r.value))) else BadValue(r.error)
  {
    assert KindOfArray(h.code) == Some(k) && KindOfScalar(h.code) == None;
  }

  lemma LengthPositive(w: nat, n: nat)
    requires w > 0 && n > 0
    ensures w * n > 0
  {}

  /** Code 10: as many bytes as announced. */
  lemma ByteArrayLaw(o: ByteOrder, xdr: bool, data: bytes, size: nat, name: bytes, elems: nat)
    requires Sent(o, xdr, data, size, name, elems, 10)
    ensures var off := Offset(xdr, name);
      Unmarshal(data) == if off + elems <= size
        then Only(name, IntArray(Uint8, seq(elems, i requires 0 <= i < elems => data[12 + off + i]))) else Err(InvalidData)
  {
    var s, off := data[12..], Offset(xdr, name);
    OnePair(o, xdr, data, size, name, elems, 10, s, Head(size, name, elems, 10, off));
    if off + elems <= size {
      var bs := s[off..off + elems];
      assert ByteInts(bs) == seq(elems, i requires 0 <= i < elems => data[12 + off + i]);
    }
  }

  /** n booleans of four bytes each; the first error counts. */
  function Booleans(o: ByteOrder, data: bytes, size: nat, off: nat, n: nat): Result<seq<bool>>
    requires 12 + size <= |data|
    decreases n
  {
    if n == 0 then Ok([])
    else if off + 4 > size then Err(Short(off, size))
    else if Number(o, data[12 + off..16 + off]) > 1 then Err(InvalidData)
    else
      var rest := Booleans(o, data, size, off + 4, n - 1);
      if rest.Ok? then Ok([Number(o, data[12 + off..16 + off]) == 1] + rest.value) else rest
  }

  lemma BoolRead(o: ByteOrder, data: bytes, s: bytes, size: nat, off: nat)
    requires |data| >= 12 && s == data[12..] && size <= |s|
    ensures ReadBool(o, s, size, off) ==
      if off + 4 > size then Err(Short(off, size))
      else if Number(o, data[12 + off..16 + off]) > 1 then Err(InvalidData)
      else Ok(Number(o, data[12 + off..16 + off]) == 1)
  {
    ValueRead(o, true, data, s, size, off, 4);
    if off + 4 <= size {
      NumberBound(o, data[12 + off..16 + off]);
    }
  }

  lemma {:induction false} BooleansRead(o: ByteOrder, data: bytes, s: bytes, size: nat, off: nat, n: nat, acc: seq<bool>)
    requires |data| >= 12 && s == data[12..] && size <= |s|
    ensures var r := Booleans(o, data, size, off, n);
      ReadBools(o, s, size, off, n, acc) == if r.Ok? then Ok(acc + r.value) else r
    decreases n
  {
    if n == 0 {
      assert acc + [] == acc;
    } else {
      BoolRead(o, data, s, size, off);
      if ReadBool(o, s, size, off).Ok? {
        var b, rest := ReadBool(o, s, size, off).value, Booleans(o, data, size, off + 4, n - 1);
        BooleansRead(o, data, s, size, off + 4, n - 1, acc + [b]);
        assert rest.Ok? ==> acc + [b] + rest.value == acc + ([b] + rest.value);
      }
    }
  }

  /** Code 24: as many 32-bit numbers as announced, each of them 0 or 1. */
  lemma BooleanArrayLaw(o: ByteOrder, xdr: bool, data: bytes, size: nat, name: bytes, elems: nat)
    requires Sent(o, xdr, data, size, name, elems, 24)
    ensures var r := Booleans(o, data, size, Offset(xdr, name), elems);
      Unmarshal(data) == if r.Ok? then Only(name, BoolArray(r.value)) else Err(r.error)
  {
    var s, off := data[12..], Offset(xdr, name);
    OnePair(o, xdr, data, size, name, elems, 24, s, Head(size, name, elems, 24, off));
    BooleansRead(o, data, s, size, off, elems, []);
    var r := Booleans(o, data, size, off, elems);
    assert r.Ok? ==> [] + r.value == r.value;
  }

  /** Strings that follow each other from one place on, with a zero behind each, the last one at most at the given place. */
  predicate Follow(data: bytes, at: nat, last: nat, ss: seq<bytes>)
    requires last < |data|
    decreases |ss|
  {
    ss == [] ||
    (var to := at + |ss[0]|;
     to <= last && data[at..to] == ss[0] && (forall j :: at <= j < to ==> data[j] != 0) && data[to] == 0
     && Follow(data, to + 1, last, ss[1..]))
  }

  lemma {:induction false} FollowRead(data: bytes, s: bytes, size: nat, off: nat, ss: seq<bytes>, acc: seq<bytes>)
    requires |data| >= 12 && s == data[12..] && size < |s| && Follow(data, 12 + off, 12 + size, ss)
    ensures ReadCStrings(Window(s, size, off), |ss|, acc) == Ok(acc + ss)
    decreases |ss|
  {
    if ss == [] {
      assert acc + [] == acc;
    } else {
      var first, next := ss[0], off + |ss[0]| + 1;
      TextRead(data, s, size, off, |first|);
      FollowRead(data, s, size, next, ss[1..], acc + [first]);
      assert acc + [first] + ss[1..] == acc + ss;
    }
  }

  lemma {:induction false} FollowFound(data: bytes, s: bytes, size: nat, off: nat, n: nat, acc: seq<bytes>) returns (ss: seq<bytes>)
    requires |data| >= 12 && s == data[12..] && size < |s|
    ensures var r := ReadCStrings(Window(s, size, off), n, acc);
      if r.Ok? then |ss| == n && Follow(data, 12 + off, 12 + size, ss) else r == Err(InvalidData)
    decreases n
  {
    ss := [];
    if n > 0 {
      var w := Window(s, size, off);
      var k := IndexOf(w, 0);
      assert IsIndexOf(w, 0, k);
      if k < |w| {
        assert w == data[12 + off..13 + size];
        assert w[k] == data[12 + off + k];
        assert forall j :: 12 + off <= j < 12 + off + k ==> data[j] == w[j - 12 - off];
        TextRead(data, s, size, off, k);
        var text := data[12 + off..12 + off + k];
        var rest := FollowFound(data, s, size, off + k + 1, n - 1, acc + [text]);
        ss := [text] + rest;
        assert ss[1..] == rest;
      }
    }
  }

  lemma TextsValue(c: Config, data: bytes, s: bytes, h: Head, at: nat, ss: seq<bytes>)
    requires |data| >= 12 && s == data[12..] && HeadOk(s, h) && h.code == 17 && at == 12 + h.off + 8 * h.elems
    requires |ss| == h.elems && Follow(data, at, 12 + h.size, ss)
    ensures ReadValue(c, s, h) == Got(Single(StrArray(ss)))
  {
    FollowRead(data, s, h.size, at - 12, ss, []);
    assert [] + ss == ss;
    StrArrayDispatch(c, s, h);
  }

  lemma TextsOrNone(c: Config, data: bytes, s: bytes, h: Head, at: nat) returns (found: bool, ss: seq<bytes>)
    requires |data| >= 12 && s == data[12..] && HeadOk(s, h) && h.code == 17 && at == 12 + h.off + 8 * h.elems
    ensures found ==> |ss| == h.elems && Follow(data, at, 12 + h.size, ss)
    ensures !found ==> ReadValue(c, s, h) == BadValue(InvalidData)
  {
    ss := FollowFound(data, s, h.size, at - 12, h.elems, []);
    found := ReadCStrings(Window(s, h.size, at - 12), h.elems, []).Ok?;
    StrArrayDispatch(c, s, h);
  }

  /** Code 17: behind eight bytes for each announced string, the strings with their zeros. */
  lemma StringArrayLaw(o: ByteOrder, xdr: bool, data: bytes, size: nat, name: bytes, elems: nat, at: nat, ss: seq<bytes>)
    requires Sent(o, xdr, data, size, name, elems, 17) && at == 12 + Offset(xdr, name) + 8 * elems
    requires |ss| == elems && Follow(data, at, 12 + size, ss)
    ensures Unmarshal(data) == Only(name, StrArray(ss))
  {
    var c, s, h := Settings(o, xdr), data[12..], Head(size, name, elems, 17, Offset(xdr, name));
    OnePair(o, xdr, data, size, name, elems, 17, s, h);
    TextsValue(c, data, s, h, at, ss);
  }

  /** And an error if there are not as many. */
  lemma NoStringArrayLaw(o: ByteOrder, xdr: bool, data: bytes, size: nat, name: bytes, elems: nat, at: nat)
    returns (found: bool, ss: seq<bytes>)
    requires Sent(o, xdr, data, size, name, elems, 17) && at == 12 + Offset(xdr, name) + 8 * elems
    ensures found ==> |ss| == elems && Follow(data, at, 12 + size, ss)
    ensures !found ==> Unmarshal(data) == Err(InvalidData)
  {
    var c, s, h := Settings(o, xdr), data[12..], Head(size, name, elems, 17, Offset(xdr, name));
    OnePair(o, xdr, data, size, name, elems, 17, s, h);
    found, ss := TextsOrNone(c, data, s, h, at);
  }

  /** Codes 18 and from 27 on are ignored. */
  lemma IgnoredLaw(o: ByteOrder, xdr: bool, data: bytes, size: nat, name: bytes, elems: nat, code: nat)
    requires Sent(o, xdr, data, size, name, elems, code) && (code == 18 || code >= 27)
    ensures Unmarshal(data) == Ok(Value.Map(map[]))
  {
    OnePair(o, xdr, data, size, name, elems, code, data[12..], Head(size, name, elems, code, Offset(xdr, name)));
  }

  /** Code 0 is an error. */
  lemma UnknownLaw(o: ByteOrder, xdr: bool, data: bytes, size: nat, name: bytes, elems: nat)
    requires Sent(o, xdr, data, size, name, elems, 0)
    ensures Unmarshal(data) == Err(InvalidData)
  {
    OnePair(o, xdr, data, size, name, elems, 0, data[12..], Head(size, name, elems, 0, Offset(xdr, name)));
  }

  // ---- What is refused ----

  /** The 12-byte header, byte by byte. */
  lemma HeaderLaw(data: bytes)
    ensures |data| == 0 ==> Unmarshal(data) == Err(InvalidData)
    ensures |data| >= 1 && data[0] > 1 ==> Unmarshal(data) == Err(InvalidEncoding)
    ensures |data| == 1 && data[0] <= 1 ==> Unmarshal(data) == Err(InvalidData)
    ensures |data| >= 2 && data[0] <= 1 && data[1] > 1 ==> Unmarshal(data) == Err(InvalidEndianess)
    ensures 2 <= |data| < 12 && data[0] <= 1 && data[1] <= 1 ==>
      Unmarshal(data) == Err(if |data| <= 4 || |data| == 8 then Eof else UnexpectedEof)
  {}

  /** The fields of the first pair, in the order in which they are checked; None if the header of the pair is accepted. */
  function Refused(o: ByteOrder, data: bytes): Option<Error>
    requires |data| >= 12
  {
    if |data| == 12 then Some(Eof)
    else if |data| < 16 then Some(UnexpectedEof)
    else
      var size := Signed(o, true, data[12..16]);
      if size < 0 then Some(InvalidData)
      else if size == 0 then None
      else if 16 + size > |data| then Some(InvalidData)
      else if size <= 4 then Some(Eof)
      else if size == 5 then Some(UnexpectedEof)
      else
        var nameSize := Signed(o, true, data[16..18]);
        if nameSize <= 0 then Some(InvalidData)
        else if size == 6 || size == 8 then Some(Eof)
        else if size < 12 then Some(UnexpectedEof)
        else
          var elems := Signed(o, true, data[20..24]);
          if elems < 0 || elems > 65535 then Some(InvalidData)
          else if size == 12 then Some(Eof)
          else if size < 16 then Some(UnexpectedEof)
          else if size < 16 + nameSize then Some(InvalidData)
          else None
  }

  /** A pair that is refused ends the whole decoding with that error; a zero size ends the list. */
  lemma PairLaw(o: ByteOrder, xdr: bool, data: bytes)
    requires Starts(o, xdr, data)
    ensures Refused(o, data).Some? ==> Unmarshal(data) == Err(Refused(o, data).value)
    ensures |data| >= 16 && data[12..16] == [0, 0, 0, 0] ==> Unmarshal(data) == Ok(Value.Map(map[]))
  {
    var s, c := data[12..], Settings(o, xdr);
    StartRead(o, xdr, data);
    RefusedRead(o, xdr, data, s);
    if |data| >= 16 && data[12..16] == [0, 0, 0, 0] {
      assert s[..4] == data[12..16];
      TrailerRead(c, s, []);
      assert Build(map[], []) == map[];
    }
  }

  lemma RefusedRead(o: ByteOrder, xdr: bool, data: bytes, s: bytes)
    requires Starts(o, xdr, data) && s == data[12..]
    ensures Refused(o, data).Some? ==> ReadHead(Settings(o, xdr), s) == BadHead(Refused(o, data).value)
  {
    if |data| >= 16 {
      WordRead(o, true, data, s, 0, 4);
    }
    if |data| >= 18 {
      WordRead(o, true, data, s, 4, 2);
    }
    if |data| >= 24 {
      WordRead(o, true, data, s, 8, 4);
    }
  }
}
