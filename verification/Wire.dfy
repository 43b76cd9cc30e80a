/**
 The format in literal numbers: which bytes Marshal writes where. Nothing in the
 statements refers to the constants or the layout functions of the codec.
 */
module Wire {
  import opened Bytes
  import opened Consts
  import opened Values
  import opened Encoder
  import opened Domain
  import opened RoundTrip
  import opened Meaning
  import opened Reporting

  // ---- Numbers ----

  /** The number that some bytes stand for, least significant byte first. */
  function Little(bs: bytes): nat {
    if bs == [] then 0 else bs[0] + 256 * Little(bs[1..])
  }

  /** Most significant byte first. */
  function Big(bs: bytes): nat {
    if bs == [] then 0 else 256 * Big(bs[..|bs| - 1]) + bs[|bs| - 1]
  }

  function Number(o: ByteOrder, bs: bytes): nat {
    if o.LittleEndian? then Little(bs) else Big(bs)
  }

  /** 256 to the power of the width of a Go integer. */
  function Span(w: nat): nat {
    if w == 1 then 0x100 else if w == 2 then 0x1_0000 else if w == 4 then 0x1_0000_0000 else 0x1_0000_0000_0000_0000
  }

  predicate Width(w: nat) {
    w == 1 || w == 2 || w == 4 || w == 8
  }

  /** In two's complement, if signed. */
  function Signed(o: ByteOrder, signed: bool, bs: bytes): int {
    var u := Number(o, bs);
    if signed && 2 * u >= Span(|bs|) then u - Span(|bs|) else u
  }

  function Unsigned(n: int, w: nat): int {
    if n < 0 then n + Span(w) else n
  }

  lemma {:induction false} NumberIs(o: ByteOrder, bs: bytes)
    ensures Number(o, bs) == BytesUint(o, bs)
    decreases |bs|
  {
    if bs != [] {
      if o.LittleEndian? {
        NumberIs(o, bs[1..]);
      } else {
        NumberIs(o, bs[..|bs| - 1]);
      }
    }
  }

  lemma SpanIs(w: nat)
    requires Width(w)
    ensures Span(w) == Pow256(w)
  {
    PowValues();
  }

  /** An integer is written as its two's complement, in the byte order of the list. */
  lemma PutNumber(o: ByteOrder, n: int, w: nat)
    requires Width(w) && 0 <= n + Span(w) && n < Span(w)
    ensures Number(o, PutInt(o, n, w)) == Unsigned(n, w)
  {
    SpanIs(w);
    PutIntValue(o, n, w);
    NumberIs(o, PutInt(o, n, w));
  }

  lemma GetNumber(o: ByteOrder, signed: bool, bs: bytes)
    requires Width(|bs|)
    ensures GetInt(o, signed, bs) == Signed(o, signed, bs)
  {
    SpanIs(|bs|);
    NumberIs(o, bs);
    GetIntComputes(o, signed, bs);
  }

  // ---- What Marshal writes ----

  function Round8(n: nat): nat {
    (n + 7) / 8 * 8
  }

  function TypeNumber(l: Leaf): nat {
    match l
    case Bool(_) => 1
    case Str(_) => 9
    case BoolArray(_) => 24
    case StrArray(_) => 17
    case Int(k, _) =>
      (match k
       case Uint8 => 2
       case Int16 => 3
       case Uint16 => 4
       case Int32 => 5
       case Uint32 => 6
       case Int64 => 7
       case Uint64 => 8
       case Int8 => 22)
    case IntArray(k, _) =>
      (match k
       case Uint8 => 10
       case Int16 => 11
       case Uint16 => 12
       case Int32 => 13
       case Uint32 => 14
       case Int64 => 15
       case Uint64 => 16
       case Int8 => 25)
  }

  function ElementNumber(l: Leaf): nat {
    match l
    case Bool(_) => 0
    case Int(_, _) => 1
    case Str(_) => 1
    case IntArray(_, ns) => |ns|
    case BoolArray(bs) => |bs|
    case StrArray(ss) => |ss|
  }

  function Octets(k: IntKind): nat {
    match k
    case Int8 => 1
    case Uint8 => 1
    case Int16 => 2
    case Uint16 => 2
    case Int32 => 4
    case Uint32 => 4
    case Int64 => 8
    case Uint64 => 8
  }

  function Extent(l: Leaf): nat {
    match l
    case Bool(_) => 0
    case Int(k, _) => Octets(k)
    case Str(s) => |s| + 1
    case IntArray(k, ns) => Octets(k) * |ns|
    case BoolArray(bs) => 4 * |bs|
    case StrArray(ss) => 8 * |ss| + TextExtent(ss)
  }

  function TextExtent(ss: seq<bytes>): nat {
    if ss == [] then 0 else |ss[0]| + 1 + TextExtent(ss[1..])
  }

  predicate ZeroFrom(d: bytes, i: nat, j: nat) {
    i <= j <= |d| && forall k :: i <= k < j ==> d[k] == 0
  }

  /** Strings one after the other, each ended by a zero. */
  function Texts(ss: seq<bytes>): (r: bytes)
    ensures |r| == TextExtent(ss)
  {
    if ss == [] then [] else ss[0] + [0] + Texts(ss[1..])
  }

  predicate StringsAt(d: bytes, at: nat, ss: seq<bytes>) {
    at + TextExtent(ss) <= |d| && d[at..at + TextExtent(ss)] == Texts(ss)
  }

  predicate NumbersAt(o: ByteOrder, d: bytes, at: nat, w: nat, ns: seq<int>)
    decreases ns
  {
    ns == [] ||
    (&& at + w <= |d| && Number(o, d[at..at + w]) == Unsigned(ns[0], w)
     && NumbersAt(o, d, at + w, w, ns[1..]))
  }

  /** The value of a leaf from at on. */
  predicate ValueAt(o: ByteOrder, d: bytes, at: nat, l: Leaf) {
    match l
    case Bool(_) => true
    case Int(k, n) => NumbersAt(o, d, at, Octets(k), [n])
    case Str(s) => StringsAt(d, at, [s])
    case IntArray(k, ns) => NumbersAt(o, d, at, Octets(k), ns)
    case BoolArray(bs) => NumbersAt(o, d, at, 4, seq(|bs|, i requires 0 <= i < |bs| => if bs[i] then 1 else 0))
    case StrArray(ss) => ZeroFrom(d, at, at + 8 * |ss|) && StringsAt(d, at + 8 * |ss|, ss)
  }

  /** The 16 bytes that open a pair: size, name length, zero, element count, code. */
  predicate FieldsOn(o: ByteOrder, d: bytes, at: nat, size: nat, nameSize: nat, elems: nat, code: nat) {
    && at + 16 <= |d|
    && Number(o, d[at..at + 4]) == size
    && Number(o, d[at + 4..at + 6]) == nameSize
    && Number(o, d[at + 6..at + 8]) == 0
    && Number(o, d[at + 8..at + 12]) == elems
    && Number(o, d[at + 12..at + 16]) == code
  }

  /** A pair at the given offset: its fields, with the NUL counted to the name, then name and padding. */
  predicate PairOn(o: ByteOrder, d: bytes, at: nat, size: nat, name: bytes, elems: nat, code: nat) {
    && 16 + Round8(|name| + 1) <= size && at + size <= |d|
    && FieldsOn(o, d, at, size, |name| + 1, elems, code)
    && d[at + 16..at + 16 + |name|] == name
    && ZeroFrom(d, at + 16 + |name|, at + 16 + Round8(|name| + 1))
  }

  predicate HeaderOn(o: ByteOrder, d: bytes) {
    |d| >= 12 && d[..12] == if o.LittleEndian? then [0, 1, 0, 0, 0, 0, 0, 0, 1, 0, 0, 0] else [0, 0, 0, 0, 0, 0, 0, 0, 0, 0, 0, 1]
  }

  // ---- Proofs about what is written ----

  lemma Round8Is(n: nat)
    ensures Round8(n) == AlignUp(n, 8)
  {}

  /** The four bytes of the number one. */
  lemma OneIs(o: ByteOrder)
    ensures PutInt(o, 1, 4) == if o.LittleEndian? then [1, 0, 0, 0] else [0, 0, 0, 1]
  {
    ZeroBytes(o, 3);
    assert Zeros(3) == [0, 0, 0];
    assert PutInt(o, 1, 4) == if o.LittleEndian? then [1] + PutInt(o, 0, 3) else PutInt(o, 0, 3) + [1];
  }

  lemma HeaderIs(o: ByteOrder)
    ensures HeaderOn(o, BufferHeader(o))
  {
    OneIs(o);
    ZeroBytes(o, 4);
    assert Zeros(4) == [0, 0, 0, 0] && Zeros(2) == [0, 0];
    var one := PutInt(o, 1, 4);
    assert BufferHeader(o) == [0, if o.BigEndian? then 0 else 1] + [0, 0] + [0, 0, 0, 0] + one;
    assert BufferHeader(o)[..12] == BufferHeader(o);
  }

  function ListHeaderBytes(o: ByteOrder): bytes {
    if o.LittleEndian? then [0, 0, 0, 0, 1, 0, 0, 0, 0, 0, 0, 0, 0, 0, 0, 0, 0, 0, 0, 0, 0, 0, 0, 0]
    else [0, 0, 0, 0, 0, 0, 0, 1, 0, 0, 0, 0, 0, 0, 0, 0, 0, 0, 0, 0, 0, 0, 0, 0]
  }

  lemma ListHeaderJoin(one: bytes)
    requires |one| == 4
    ensures [0, 0, 0, 0] + one + Zeros(8) + Zeros(4) + Zeros(4)
         == [0, 0, 0, 0, one[0], one[1], one[2], one[3], 0, 0, 0, 0, 0, 0, 0, 0, 0, 0, 0, 0, 0, 0, 0, 0]
  {}

  lemma ListHeaderIs(o: ByteOrder)
    ensures ListHeader(o) == ListHeaderBytes(o)
  {
    OneIs(o);
    ZeroBytes(o, 4);
    ZeroBytes(o, 8);
    assert Zeros(4) == [0, 0, 0, 0];
    ListHeaderJoin(PutInt(o, 1, 4));
  }

  lemma FieldsWritten(o: ByteOrder, size: nat, nameSize: nat, elems: nat, code: nat, d: bytes, at: nat)
    requires size < 0x1_0000_0000 && nameSize < 0x1_0000 && elems < 0x1_0000_0000 && code < 0x1_0000_0000
    requires at + 16 <= |d| && d[at..at + 16] == PairHeader(o, size, nameSize, elems, code)
    ensures FieldsOn(o, d, at, size, nameSize, elems, code)
  {
    var h := d[at..at + 16];
    HeaderFields(o, size, nameSize, elems, code, []);
    assert h + [] == h;
    PutNumber(o, size, 4);
    PutNumber(o, nameSize, 2);
    PutNumber(o, 0, 2);
    PutNumber(o, elems, 4);
    PutNumber(o, code, 4);
    HeaderSlices(d, at, h);
  }

  lemma HeaderSlices(d: bytes, at: nat, h: bytes)
    requires at + 16 <= |d| && d[at..at + 16] == h
    ensures h[0..4] == d[at..at + 4] && h[4..6] == d[at + 4..at + 6] && h[6..8] == d[at + 6..at + 8]
    ensures h[8..12] == d[at + 8..at + 12] && h[12..16] == d[at + 12..at + 16]
  {
    BodySlice(d, at, h, 0, 4);
    BodySlice(d, at, h, 4, 6);
    BodySlice(d, at, h, 6, 8);
    BodySlice(d, at, h, 8, 12);
    BodySlice(d, at, h, 12, 16);
  }

  /** A written pair inside a buffer, and its value. */
  predicate WrittenOn(o: ByteOrder, d: bytes, at: nat, name: bytes, elems: nat, code: nat, value: bytes) {
    var off, size := 16 + Round8(|name| + 1), 16 + Round8(Round8(|name| + 1) + |value|);
    && PairOn(o, d, at, size, name, elems, code)
    && d[at + off..at + off + |value|] == value
    && ZeroFrom(d, at + off + |value|, at + size)
  }

  lemma PairWritten(o: ByteOrder, name: bytes, elems: nat, code: nat, value: bytes, pre: bytes, post: bytes, d: bytes)
    requires d == pre + PairBytes(o, name, elems, code, value) + post
    requires NulFree(name) && |name| + 1 < 0x8000 && elems < 0x1_0000_0000 && code < 0x1_0000_0000
    requires 16 + Round8(Round8(|name| + 1) + |value|) < 0x1_0000_0000
    ensures WrittenOn(o, d, |pre|, name, elems, code, value)
    ensures |PairBytes(o, name, elems, code, value)| == 16 + Round8(Round8(|name| + 1) + |value|)
  {
    var front, size := Round8(|name| + 1), 16 + Round8(Round8(|name| + 1) + |value|);
    var body, header := PairBody(name, value), PairHeader(o, size, |name| + 1, elems, code);
    NulFreeName(name);
    Round8Is(|name| + 1);
    Round8Is(front + |value|);
    BodyLayout(name, value, front);
    NameEnd(name);
    assert PairSize(name, |value|) == size;
    PairParts(o, name, elems, code, value);
    assert body[|name|..front] == Zeros(front - |name|) by {
      BodyFront(name, value);
    }
    PairPlaced(o, pre, header, body, post, name, front, value, size, elems, code, d);
  }

  lemma NameEnd(name: bytes)
    requires NulFree(name)
    ensures var front := Pad8(CString(name)); |front| == AlignUp(|name| + 1, 8) && front[|name|..] == Zeros(|front| - |name|)
  {}

  lemma BodyFront(name: bytes, value: bytes)
    requires NulFree(name)
    ensures var body, front := PairBody(name, value), AlignUp(|name| + 1, 8);
      front <= |body| && body[|name|..front] == Zeros(front - |name|)
  {
    NameEnd(name);
    var front, body := Pad8(CString(name)), PairBody(name, value);
    assert front + value <= body;
    assert body[..|front|] == front;
    assert body[|name|..|front|] == front[|name|..];
  }

  lemma PairPlaced(o: ByteOrder, pre: bytes, header: bytes, body: bytes, post: bytes, name: bytes, front: nat, value: bytes,
                   size: nat, elems: nat, code: nat, d: bytes)
    requires d == pre + (header + body) + post
    requires header == PairHeader(o, size, |name| + 1, elems, code) && size == 16 + |body| && |name| + 1 < 0x8000
    requires size < 0x1_0000_0000 && elems < 0x1_0000_0000 && code < 0x1_0000_0000
    requires front == Round8(|name| + 1) && |name| <= front && front + |value| <= |body| && size == 16 + Round8(front + |value|)
    requires body[..|name|] == name && body[|name|..front] == Zeros(front - |name|)
    requires body[front..front + |value|] == value && body[front + |value|..] == Zeros(|body| - front - |value|)
    ensures WrittenOn(o, d, |pre|, name, elems, code, value)
  {
    Placed(pre, header, body, post);
    PairHeld(o, d, |pre|, body, name, front, value, size, elems, code);
  }

  lemma PairHeld(o: ByteOrder, d: bytes, at: nat, body: bytes, name: bytes, front: nat, value: bytes, size: nat, elems: nat, code: nat)
    requires size == 16 + |body| && at + size <= |d| && |name| + 1 < 0x8000
    requires size < 0x1_0000_0000 && elems < 0x1_0000_0000 && code < 0x1_0000_0000
    requires d[at..at + 16] == PairHeader(o, size, |name| + 1, elems, code) && d[at + 16..at + 16 + |body|] == body
    requires front == Round8(|name| + 1) && |name| <= front && front + |value| <= |body| && size == 16 + Round8(front + |value|)
    requires body[..|name|] == name && body[|name|..front] == Zeros(front - |name|)
    requires body[front..front + |value|] == value && body[front + |value|..] == Zeros(|body| - front - |value|)
    ensures WrittenOn(o, d, at, name, elems, code, value)
  {
    FieldsWritten(o, size, |name| + 1, elems, code, d, at);
    BodyHeld(d, at + 16, body, name, front, value);
  }

  lemma BodyHeld(d: bytes, at: nat, body: bytes, name: bytes, front: nat, value: bytes)
    requires at + |body| <= |d| && d[at..at + |body|] == body && |name| <= front && front + |value| <= |body|
    requires body[..|name|] == name && body[|name|..front] == Zeros(front - |name|)
    requires body[front..front + |value|] == value && body[front + |value|..] == Zeros(|body| - front - |value|)
    ensures d[at..at + |name|] == name && ZeroFrom(d, at + |name|, at + front)
    ensures d[at + front..at + front + |value|] == value && ZeroFrom(d, at + front + |value|, at + |body|)
  {
    BodySlice(d, at, body, 0, |name|);
    BodySlice(d, at, body, |name|, front);
    BodySlice(d, at, body, front, front + |value|);
    BodySlice(d, at, body, front + |value|, |body|);
    ZeroSlice(d, at + |name|, at + front);
    ZeroSlice(d, at + front + |value|, at + |body|);
  }

  lemma Placed(pre: bytes, header: bytes, body: bytes, post: bytes)
    requires |header| == 16
    ensures var d, at := pre + (header + body) + post, |pre|;
      && at + 16 + |body| <= |d| && d[at..at + 16] == header && d[at + 16..at + 16 + |body|] == body
  {}

  lemma BodySlice(d: bytes, at: nat, body: bytes, i: nat, j: nat)
    requires at + |body| <= |d| && d[at..at + |body|] == body && i <= j <= |body|
    ensures d[at + i..at + j] == body[i..j]
    ensures j == |body| ==> d[at + i..at + j] == body[i..]
  {
    var x, y, whole := d[at + i..at + j], body[i..j], d[at..at + |body|];
    forall k | 0 <= k < j - i
      ensures x[k] == y[k]
    {
      assert x[k] == d[at + i + k] == whole[i + k];
    }
  }

  lemma ZeroSlice(d: bytes, i: nat, j: nat)
    requires i <= j <= |d| && d[i..j] == Zeros(j - i)
    ensures ZeroFrom(d, i, j)
  {
    forall k | i <= k < j
      ensures d[k] == 0
    {
      assert d[k] == d[i..j][k - i];
    }
  }

  predicate Fitting(ns: seq<int>, w: nat) {
    forall i :: 0 <= i < |ns| ==> 0 <= ns[i] + Span(w) && ns[i] < Span(w)
  }

  lemma {:induction false} NumbersWritten(o: ByteOrder, d: bytes, at: nat, w: nat, ns: seq<int>)
    requires Width(w) && Fitting(ns, w) && at + w * |ns| <= |d| && d[at..at + w * |ns|] == PutInts(o, ns, w)
    ensures NumbersAt(o, d, at, w, ns)
    decreases |ns|
  {
    if ns != [] {
      MulStep(w, |ns|);
      PutNumber(o, ns[0], w);
      assert PutInts(o, ns, w) == PutInt(o, ns[0], w) + PutInts(o, ns[1..], w);
      SliceSplit(d, at, PutInt(o, ns[0], w), PutInts(o, ns[1..], w));
      NumbersWritten(o, d, at + w, w, ns[1..]);
    }
  }

  lemma {:induction false} TextsAre(ss: seq<bytes>)
    requires AllNulFree(ss)
    ensures CStrings(ss) == Texts(ss)
  {
    if ss != [] {
      assert NulFree(ss[0]);
      TextsAre(ss[1..]);
    }
  }

  lemma StringsWritten(d: bytes, at: nat, ss: seq<bytes>)
    requires AllNulFree(ss) && at + |CStrings(ss)| <= |d| && d[at..at + |CStrings(ss)|] == CStrings(ss)
    ensures StringsAt(d, at, ss)
  {
    TextsAre(ss);
  }

  lemma KindWidth(k: IntKind)
    ensures Octets(k) == k.Width() && Width(Octets(k))
  {}

  lemma {:induction false} TypedFits(k: IntKind, ns: seq<int>)
    requires AllFit(k, ns)
    ensures Fitting(ns, Octets(k))
  {
    KindWidth(k);
    SpanIs(Octets(k));
    forall i | 0 <= i < |ns|
      ensures 0 <= ns[i] + Span(Octets(k)) && ns[i] < Span(Octets(k))
    {
      assert InRange(k.Signed(), k.Width(), ns[i]);
    }
  }

  lemma OneNumber(o: ByteOrder, d: bytes, at: nat, k: IntKind, n: int)
    requires IntFits(k, n) && at + k.Width() <= |d| && d[at..at + k.Width()] == PutInt(o, n, k.Width())
    ensures NumbersAt(o, d, at, Octets(k), [n])
  {
    var ns := [n];
    KindWidth(k);
    assert AllFit(k, ns);
    TypedFits(k, ns);
    assert ns[1..] == [] && NumbersAt(o, d, at + Octets(k), Octets(k), ns[1..]);
    PutNumber(o, n, Octets(k));
  }

  lemma OneString(d: bytes, at: nat, s: bytes)
    requires NulFree(s) && at + |s| + 1 <= |d| && d[at..at + |s| + 1] == s + [0]
    ensures StringsAt(d, at, [s])
  {
    var ss := [s];
    assert ss[1..] == [] && Texts(ss) == ss[0] + [0] + Texts(ss[1..]);
    assert s + [0] + [] == s + [0];
  }

  lemma BoolsFit(bs: seq<bool>)
    ensures Fitting(BoolInts(bs), 4)
  {}

  /** The value bytes of a leaf, as they lie in a buffer. */
  lemma LeafOn(o: ByteOrder, d: bytes, at: nat, l: Leaf)
    requires LeafTyped(l) && LeafPlain(l)
    requires at + |LeafBytes(o, l)| <= |d| && d[at..at + |LeafBytes(o, l)|] == LeafBytes(o, l)
    ensures ValueAt(o, d, at, l)
  {
    if l.Str? || l.StrArray? {
      TextOn(o, d, at, l);
    } else {
      NumericOn(o, d, at, l);
    }
  }

  lemma TextOn(o: ByteOrder, d: bytes, at: nat, l: Leaf)
    requires (l.Str? || l.StrArray?) && LeafPlain(l)
    requires at + |LeafBytes(o, l)| <= |d| && d[at..at + |LeafBytes(o, l)|] == LeafBytes(o, l)
    ensures ValueAt(o, d, at, l)
  {
    if l.Str? {
      assert LeafTexts(l)[0] == l.s;
      OneString(d, at, l.s);
    } else {
      SomeStrings(d, at, l.ss);
    }
  }

  lemma NumericOn(o: ByteOrder, d: bytes, at: nat, l: Leaf)
    requires !l.Str? && !l.StrArray? && LeafTyped(l)
    requires at + |LeafBytes(o, l)| <= |d| && d[at..at + |LeafBytes(o, l)|] == LeafBytes(o, l)
    ensures ValueAt(o, d, at, l)
  {
    match l
    case Bool(_) =>
    case Int(k, n) => OneNumber(o, d, at, k, n);
    case IntArray(k, ns) => SomeNumbers(o, d, at, k, ns);
    case BoolArray(bs) =>
      BoolsFit(bs);
      NumbersWritten(o, d, at, 4, BoolInts(bs));
  }

  lemma SomeNumbers(o: ByteOrder, d: bytes, at: nat, k: IntKind, ns: seq<int>)
    requires AllFit(k, ns) && at + k.Width() * |ns| <= |d| && d[at..at + k.Width() * |ns|] == PutInts(o, ns, k.Width())
    ensures NumbersAt(o, d, at, Octets(k), ns)
  {
    KindWidth(k);
    TypedFits(k, ns);
    NumbersWritten(o, d, at, k.Width(), ns);
  }

  lemma SomeStrings(d: bytes, at: nat, ss: seq<bytes>)
    requires AllNulFree(ss)
    requires var val := Zeros(8 * |ss|) + CStrings(ss); at + |val| <= |d| && d[at..at + |val|] == val
    ensures ZeroFrom(d, at, at + 8 * |ss|) && StringsAt(d, at + 8 * |ss|, ss)
  {
    var n := 8 * |ss|;
    PointersAndTexts(d, at, n, CStrings(ss));
    StringsWritten(d, at + n, ss);
  }

  lemma PointersAndTexts(d: bytes, at: nat, n: nat, text: bytes)
    requires at + |Zeros(n) + text| <= |d| && d[at..at + |Zeros(n) + text|] == Zeros(n) + text
    ensures ZeroFrom(d, at, at + n)
    ensures at + n + |text| <= |d| && d[at + n..at + n + |text|] == text
  {
    SliceSplit(d, at, Zeros(n), text);
    ZeroSlice(d, at, at + n);
  }

  lemma {:induction false} TextExtentIs(ss: seq<bytes>)
    requires AllNulFree(ss)
    ensures CStringsSize(ss) == TextExtent(ss)
  {
    if ss != [] {
      assert NulFree(ss[0]);
      TextExtentIs(ss[1..]);
    }
  }

  lemma ExtentIs(l: Leaf)
    requires LeafPlain(l)
    ensures LeafSize(l) == Extent(l)
  {
    match l
    case Str(s) => assert LeafTexts(l)[0] == s;
    case StrArray(ss) => TextExtentIs(ss);
    case _ =>
  }

  lemma CodeIs(l: Leaf)
    ensures LeafCode(l) == TypeNumber(l) && LeafElems(l) == ElementNumber(l)
  {}

  // ---- The law of what is written ----

  /** The size of a pair in the buffer. */
  function SizeOf(name: bytes, extent: nat): nat {
    16 + Round8(Round8(|name| + 1) + extent)
  }

  /** A list with the literal header, in which `at` is behind the entries before it: where the trailer is if they are alone. */
  predicate ListOn(o: ByteOrder, before: seq<Entry>, d: bytes, at: nat) {
    var alone := Marshal(o, Tree.Map(before));
    && HeaderOn(o, d) && at <= |d|
    && alone.Ok? && |alone.value| == at + 4 && alone.value[..at] == d[..at] && alone.value[at..] == [0, 0, 0, 0]
  }

  lemma Alone(o: ByteOrder, before: seq<Entry>)
    requires EntriesFramed(true, before)
    ensures Marshal(o, Tree.Map(before)) == Ok(BufferHeader(o) + Written(o, before) + Zeros(4))
  {
    FramedGoesOn(o, before);
    EncodeAfter(o, before, []);
    assert before + [] == before && EncodeEntries(o, []) == Out(Zeros(4), true);
    Assoc(BufferHeader(o), Written(o, before), Zeros(4));
  }

  lemma AloneCut(front: bytes, rest: bytes, alone: bytes, d: bytes)
    requires alone == front + Zeros(4) && d == front + rest
    ensures |alone| == |front| + 4 && alone[..|front|] == d[..|front|] && alone[|front|..] == [0, 0, 0, 0]
  {
    assert alone[|front|..] == Zeros(4) == [0, 0, 0, 0];
    assert alone[..|front|] == front == d[..|front|];
  }

  lemma EntryOn(o: ByteOrder, before: seq<Entry>, e: Entry, after: seq<Entry>)
    requires EntriesFramed(true, before) && EntriesFramed(true, after) && EntryFramed(true, e) && !NotWritten(e)
    ensures var r := Marshal(o, Tree.Map(before + [e] + after));
      && r.Ok? && r.value == BufferHeader(o) + Written(o, before) + EncodeEntry(o, e).data + EncodeEntries(o, after).data
      && ListOn(o, before, r.value, 12 + |Written(o, before)|)
  {
    var h, w, p, rest := BufferHeader(o), Written(o, before), EncodeEntry(o, e).data, EncodeEntries(o, after).data;
    InnerBytes(o, before, e, after);
    Assoc(h, w, p + rest);
    Assoc(h + w, p, rest);
    Alone(o, before);
    FrontOn(o, before, h + w, p + rest, h + w + (p + rest));
  }

  lemma FrontOn(o: ByteOrder, before: seq<Entry>, front: bytes, rest: bytes, d: bytes)
    requires front == BufferHeader(o) + Written(o, before) && d == front + rest
    requires Marshal(o, Tree.Map(before)) == Ok(front + Zeros(4))
    ensures ListOn(o, before, d, |front|)
  {
    Assoc(BufferHeader(o), Written(o, before), rest);
    HeaderKept(o, Written(o, before) + rest, d);
    AloneCut(front, rest, Marshal(o, Tree.Map(before)).value, d);
  }

  lemma HeaderKept(o: ByteOrder, rest: bytes, d: bytes)
    requires d == BufferHeader(o) + rest
    ensures HeaderOn(o, d)
  {
    HeaderIs(o);
    assert d[..12] == BufferHeader(o)[..12];
  }

  /** A leaf in a buffer: fields, name, element count and code in literal numbers, and its value. */
  predicate LeafIsOn(o: ByteOrder, d: bytes, at: nat, name: bytes, l: Leaf) {
    var off, size := 16 + Round8(|name| + 1), SizeOf(name, Extent(l));
    && PairOn(o, d, at, size, name, ElementNumber(l), TypeNumber(l))
    && ValueAt(o, d, at + off, l)
    && ZeroFrom(d, at + off + Extent(l), at + size)
  }

  lemma LeafPlaced(o: ByteOrder, name: bytes, l: Leaf, pre: bytes, post: bytes, d: bytes)
    requires d == pre + LeafPair(o, name, l) + post
    requires NulFree(name) && |name| <= 32765 && LeafTyped(l) && LeafPlain(l)
    requires ElementNumber(l) < 0x7FFF_FFFF && SizeOf(name, Extent(l)) < 0x1_0000_0000
    ensures LeafIsOn(o, d, |pre|, name, l)
  {
    var val := LeafBytes(o, l);
    CodeIs(l);
    ExtentIs(l);
    LeafSizeIsLength(o, l);
    PairWritten(o, name, LeafElems(l), LeafCode(l), val, pre, post, d);
    LeafHeld(o, d, |pre|, name, l, val);
  }

  lemma LeafHeld(o: ByteOrder, d: bytes, at: nat, name: bytes, l: Leaf, val: bytes)
    requires LeafTyped(l) && LeafPlain(l) && val == LeafBytes(o, l) && |val| == Extent(l)
    requires WrittenOn(o, d, at, name, ElementNumber(l), TypeNumber(l), val)
    ensures LeafIsOn(o, d, at, name, l)
  {
    LeafOn(o, d, at + 16 + Round8(|name| + 1), l);
  }

  /**
   The bytes of a leaf, wherever it stands in the root list and whatever stands
   around it.
   */
  lemma LeafLayout(o: ByteOrder, before: seq<Entry>, name: bytes, l: Leaf, after: seq<Entry>)
    requires EntriesFramed(true, before) && EntriesFramed(true, after)
    requires NulFree(name) && |name| <= 32765 && l != Bool(false) && LeafTyped(l) && LeafPlain(l)
    requires ElementNumber(l) < 0x7FFF_FFFF && SizeOf(name, Extent(l)) < 0x1_0000_0000
    ensures var r := Marshal(o, Tree.Map(before + [Entry(name, [], Tree.Prim(l))] + after));
      var at := 12 + |Written(o, before)|;
      r.Ok? && ListOn(o, before, r.value, at) && LeafIsOn(o, r.value, at, name, l)
  {
    var e := Entry(name, [], Tree.Prim(l));
    LeafFramed(name, l);
    EntryOn(o, before, e, after);
    LeafPlaced(o, name, l, BufferHeader(o) + Written(o, before), EncodeEntries(o, after).data, Marshal(o, Tree.Map(before + [e] + after)).value);
  }

  lemma LeafFramed(name: bytes, l: Leaf)
    requires NulFree(name) && |name| <= 32765 && l != Bool(false) && LeafTyped(l) && LeafPlain(l)
    requires ElementNumber(l) < 0x7FFF_FFFF && SizeOf(name, Extent(l)) < 0x1_0000_0000
    ensures var e := Entry(name, [], Tree.Prim(l));
      EntryFramed(true, e) && !NotWritten(e) && EntryName(e) == name
  {
    PlainTag(Entry(name, [], Tree.Prim(l)));
    NulFreeName(name);
    CodeIs(l);
    ExtentIs(l);
    Round8Is(|name| + 1);
    Round8Is(Round8(|name| + 1) + Extent(l));
  }

  predicate FloatIsOn(o: ByteOrder, d: bytes, at: nat, name: bytes, bits: nat) {
    var off := 16 + Round8(|name| + 1);
    && PairOn(o, d, at, SizeOf(name, 8), name, 1, 27)
    && at + off + 8 <= |d| && Number(o, d[at + off..at + off + 8]) == bits
  }

  lemma FloatPlaced(o: ByteOrder, name: bytes, bits: nat, pre: bytes, post: bytes, d: bytes)
    requires NulFree(name) && |name| <= 32765 && bits < 0x1_0000_0000_0000_0000 && d == pre + FloatPair(o, name, bits) + post
    ensures FloatIsOn(o, d, |pre|, name, bits)
  {
    SmallSize(name, 8);
    PairWritten(o, name, 1, TYPE_DOUBLE, PutInt(o, bits, 8), pre, post, d);
    FloatHeld(o, d, |pre|, name, bits);
  }

  lemma FloatHeld(o: ByteOrder, d: bytes, at: nat, name: bytes, bits: nat)
    requires bits < 0x1_0000_0000_0000_0000 && WrittenOn(o, d, at, name, 1, 27, PutInt(o, bits, 8))
    ensures FloatIsOn(o, d, at, name, bits)
  {
    PutNumber(o, bits, 8);
  }

  /** A double has the code 27 and its 64 bits for a value. */
  lemma FloatLayout(o: ByteOrder, before: seq<Entry>, name: bytes, bits: nat, after: seq<Entry>)
    requires EntriesFramed(true, before) && EntriesFramed(true, after)
    requires NulFree(name) && |name| <= 32765 && bits < 0x1_0000_0000_0000_0000
    ensures var r := Marshal(o, Tree.Map(before + [Entry(name, [], Tree.Float64(bits))] + after));
      var at := 12 + |Written(o, before)|;
      r.Ok? && ListOn(o, before, r.value, at) && FloatIsOn(o, r.value, at, name, bits)
  {
    var e := Entry(name, [], Tree.Float64(bits));
    PlainTag(e);
    NulFreeName(name);
    SmallPair(name, e.value);
    EntryOn(o, before, e, after);
    FloatPlaced(o, name, bits, BufferHeader(o) + Written(o, before), EncodeEntries(o, after).data, Marshal(o, Tree.Map(before + [e] + after)).value);
  }

  lemma SmallSize(name: bytes, extent: nat)
    requires |name| <= 32765 && extent <= 24
    ensures SizeOf(name, extent) < 0x8000_0000
  {}

  // ---- Nested lists ----

  /** What Marshal writes for a list, without the 12 bytes of the header. */
  function Body(o: ByteOrder, t: Tree): bytes {
    var r := Marshal(o, t);
    if r.Ok? && |r.value| >= 12 then r.value[12..] else []
  }

  /** The same for several lists, one behind the other. */
  function Bodies(o: ByteOrder, ts: seq<Tree>): bytes {
    if ts == [] then [] else Body(o, ts[0]) + Bodies(o, ts[1..])
  }

  lemma BodyIs(o: ByteOrder, t: Tree)
    requires ListFramed(true, t)
    ensures EncodeList(o, t) == Out(Body(o, t), true)
  {
    ListEncodes(o, t);
    var h, x := BufferHeader(o), EncodeList(o, t).data;
    assert (h + x)[12..] == x;
  }

  lemma {:induction false} BodiesAre(o: ByteOrder, ts: seq<Tree>)
    requires forall i :: 0 <= i < |ts| ==> ListFramed(true, ts[i])
    ensures EncodeLists(o, ts) == Out(Bodies(o, ts), true)
    decreases ts
  {
    if ts != [] {
      BodyIs(o, ts[0]);
      BodiesAre(o, ts[1..]);
    }
  }

  /** A pair that announces lists, at `at`, with the bytes of the lists directly behind it. */
  predicate AnnouncedOn(o: ByteOrder, d: bytes, at: nat, name: bytes, elems: nat, code: nat, value: bytes, body: bytes) {
    var from := at + SizeOf(name, |value|);
    && WrittenOn(o, d, at, name, elems, code, value)
    && from + |body| <= |d| && d[from..from + |body|] == body
  }

  lemma Behind(pre: bytes, p: bytes, body: bytes, rest: bytes, d: bytes)
    requires d == pre + (p + body) + rest
    ensures d == pre + p + (body + rest)
    ensures |pre| + |p| + |body| <= |d| && d[|pre| + |p|..|pre| + |p| + |body|] == body
  {
    Assoc(pre, p, body);
    Assoc(pre + p, body, rest);
  }

  lemma ListsPlaced(o: ByteOrder, name: bytes, elems: nat, code: nat, value: bytes, body: bytes, pre: bytes, rest: bytes, d: bytes)
    requires d == pre + (PairBytes(o, name, elems, code, value) + body) + rest
    requires NulFree(name) && |name| <= 32765 && elems < 0x1_0000_0000 && code < 0x1_0000_0000
    requires SizeOf(name, |value|) < 0x1_0000_0000
    ensures AnnouncedOn(o, d, |pre|, name, elems, code, value, body)
  {
    Behind(pre, PairBytes(o, name, elems, code, value), body, rest, d);
    PairWritten(o, name, elems, code, value, pre, body + rest, d);
  }

  lemma ListsOn(o: ByteOrder, before: seq<Entry>, e: Entry, after: seq<Entry>, name: bytes, elems: nat, code: nat, value: bytes, body: bytes)
    requires EntriesFramed(true, before) && EntriesFramed(true, after) && EntryFramed(true, e) && !NotWritten(e)
    requires EncodeEntry(o, e).data == PairBytes(o, name, elems, code, value) + body
    requires NulFree(name) && |name| <= 32765 && elems < 0x1_0000_0000 && code < 0x1_0000_0000
    requires SizeOf(name, |value|) < 0x1_0000_0000
    ensures var r := Marshal(o, Tree.Map(before + [e] + after));
      var at := 12 + |Written(o, before)|;
      r.Ok? && ListOn(o, before, r.value, at) && AnnouncedOn(o, r.value, at, name, elems, code, value, body)
  {
    EntryOn(o, before, e, after);
    ListsPlaced(o, name, elems, code, value, body, BufferHeader(o) + Written(o, before), EncodeEntries(o, after).data,
                Marshal(o, Tree.Map(before + [e] + after)).value);
  }

  /**
   A nested list, wherever it stands: the announcing pair has the code 19 and 24
   literal bytes for a value, and directly behind it follow the bytes that
   Marshal gives the nested list itself, so that these laws apply to them.
   */
  lemma NestedLayout(o: ByteOrder, before: seq<Entry>, name: bytes, t: Tree, after: seq<Entry>)
    requires EntriesFramed(true, before) && EntriesFramed(true, after) && t.IsList() && ListFramed(true, t)
    requires NulFree(name) && |name| <= 32765
    ensures var r := Marshal(o, Tree.Map(before + [Entry(name, [], t)] + after));
      var at := 12 + |Written(o, before)|;
      r.Ok? && ListOn(o, before, r.value, at) && AnnouncedOn(o, r.value, at, name, 1, 19, ListHeaderBytes(o), Body(o, t))
  {
    var e := Entry(name, [], t);
    PlainTag(e);
    NulFreeName(name);
    SmallPair(name, t);
    BodyIs(o, t);
    ListHeaderIs(o);
    SmallSize(name, 24);
    ListsOn(o, before, e, after, name, 1, 19, ListHeaderBytes(o), Body(o, t));
  }

  /** n list headers one after the other. */
  function Repeated(bs: bytes, n: nat): bytes {
    if n == 0 then [] else Repeated(bs, n - 1) + bs
  }

  lemma {:induction false} ListHeadersAre(o: ByteOrder, n: nat)
    ensures ListHeaders(o, n) == Repeated(ListHeaderBytes(o), n) && |ListHeaders(o, n)| == 24 * n
  {
    ListHeaderIs(o);
    if n > 0 {
      ListHeadersAre(o, n - 1);
    }
  }

  /** 8 zero bytes and 24 literal bytes for each list of an array. */
  function ArrayValue(o: ByteOrder, n: nat): bytes {
    Zeros(8 * n) + Repeated(ListHeaderBytes(o), n)
  }

  /**
   A list array, wherever it stands: the announcing pair has the code 20 and the
   number of lists, its value is 8 zero bytes per list and then 24 literal bytes
   per list, and the lists follow directly behind it as Marshal writes each.
   */
  lemma ArrayLayout(o: ByteOrder, before: seq<Entry>, name: bytes, ts: seq<Tree>, after: seq<Entry>)
    requires EntriesFramed(true, before) && EntriesFramed(true, after)
    requires NulFree(name) && |name| <= 32765 && |ts| < 0x7FFF_FFFF && SizeOf(name, 32 * |ts|) < 0x1_0000_0000
    requires forall i :: 0 <= i < |ts| ==> ListFramed(true, ts[i])
    ensures var r := Marshal(o, Tree.Map(before + [Entry(name, [], Tree.Lists(ts))] + after));
      var at := 12 + |Written(o, before)|;
      r.Ok? && ListOn(o, before, r.value, at) && AnnouncedOn(o, r.value, at, name, |ts|, 20, ArrayValue(o, |ts|), Bodies(o, ts))
  {
    ArrayFramed(name, ts);
    ArrayEntry(o, name, ts, |ts|, ArrayValue(o, |ts|));
    ListsOn(o, before, Entry(name, [], Tree.Lists(ts)), after, name, |ts|, 20, ArrayValue(o, |ts|), Bodies(o, ts));
  }

  lemma ArrayEntry(o: ByteOrder, name: bytes, ts: seq<Tree>, n: nat, value: bytes)
    requires n == |ts| < 0x7FFF_FFFF && value == ArrayValue(o, n) && forall i :: 0 <= i < |ts| ==> ListFramed(true, ts[i])
    ensures EncodeEntry(o, Entry(name, [], Tree.Lists(ts))).data == PairBytes(o, name, n, 20, value) + Bodies(o, ts)
    ensures |value| == 32 * n
  {
    PlainTag(Entry(name, [], Tree.Lists(ts)));
    BodiesAre(o, ts);
    ListHeadersAre(o, n);
  }

  lemma ArrayFramed(name: bytes, ts: seq<Tree>)
    requires NulFree(name) && |name| <= 32765 && |ts| < 0x7FFF_FFFF && SizeOf(name, 32 * |ts|) < 0x1_0000_0000
    requires forall i :: 0 <= i < |ts| ==> ListFramed(true, ts[i])
    ensures var g := Entry(name, [], Tree.Lists(ts)); EntryFramed(true, g) && !NotWritten(g) && EntryName(g) == name
  {
    var g := Entry(name, [], Tree.Lists(ts));
    PlainTag(g);
    NulFreeName(name);
    Round8Is(|name| + 1);
    Round8Is(Round8(|name| + 1) + 32 * |ts|);
  }
  lemma InnerBytes(o: ByteOrder, before: seq<Entry>, e: Entry, after: seq<Entry>)
    requires EntriesFramed(true, before) && EntriesFramed(true, after) && EntryFramed(true, e) && !NotWritten(e)
    ensures EncodeEntries(o, before + [e] + after)
         == Out(Written(o, before) + (EncodeEntry(o, e).data + EncodeEntries(o, after).data), true)
  {
    FramedGoesOn(o, before);
    Assoc(before, [e], after);
    EncodeAfter(o, before, [e] + after);
    var es := [e] + after;
    assert es[0] == e && es[1..] == after;
    EntryEncodes(o, e);
    EntriesEncode(o, after);
    EncodeWritten(o, es);
  }
}
