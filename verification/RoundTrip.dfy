/**
 The parser undoes the printer: every tree of the domain, encoded in either
 byte order and followed by anything, parses back to its wire items with
 exactly the bytes after the encoding left over.
 */
module RoundTrip {
  import opened Bytes
  import opened Consts
  import opened Values
  import opened Decoder
  import opened Encoder
  import opened Domain

  // ---- Layout of one pair ----

  lemma HeaderFields(o: ByteOrder, size: int, nameSize: int, elems: int, code: int, tail: bytes)
    ensures var s := PairHeader(o, size, nameSize, elems, code) + tail;
      && s[0..4] == PutInt(o, size, 4)
      && s[4..6] == PutInt(o, nameSize, 2)
      && s[6..8] == PutInt(o, 0, 2)
      && s[8..12] == PutInt(o, elems, 4)
      && s[12..16] == PutInt(o, code, 4)
      && s[16..] == tail
  {}

  lemma IntRead(o: ByteOrder, signed: bool, s: bytes, limit: nat, off: nat, w: nat, n: int)
    requires 0 < w && off + w <= limit <= |s| && InRange(signed, w, n)
    requires s[off..off + w] == PutInt(o, n, w)
    ensures ReadInt(o, signed, s, limit, off, w) == Ok(n)
  {
    IntRoundTrip(o, signed, n, w);
  }

  lemma IntAtRead(o: ByteOrder, signed: bool, s: bytes, off: nat, w: nat, n: int)
    requires off + w <= |s| && InRange(signed, w, n)
    requires s[off..off + w] == PutInt(o, n, w)
    ensures IntAt(o, signed, s, off, w) == n
  {
    IntRoundTrip(o, signed, n, w);
  }

  lemma HeaderRead(o: ByteOrder, size: nat, nameSize: nat, elems: nat, code: nat, s: bytes)
    requires 0 < nameSize <= MAX_INT16 && 16 + nameSize <= size <= MAX_INT32
    requires elems <= MAX_ELEMS && code <= TYPE_DOUBLE && size + 4 <= |s|
    requires s[..16] == PairHeader(o, size, nameSize, elems, code)
    ensures ReadHead(Config(Native, o), s)
         == Pair(Head(size, s[16..15 + nameSize], elems, code, AlignUp(16 + nameSize, 8)))
  {
    HeaderFields(o, size, nameSize, elems, code, s[16..]);
    assert s == s[..16] + s[16..];
    PowValues();
    IntAtRead(o, true, s, 0, 4, size);
    IntAtRead(o, true, s, 4, 2, nameSize);
    IntAtRead(o, true, s, 8, 4, elems);
    IntAtRead(o, false, s, 12, 4, code);
  }

  /** s starts with the header h stands for, followed by its name, the value at its offset, and behind the pair post. */
  predicate PairAt(o: ByteOrder, s: bytes, h: Head, value: bytes, post: bytes) {
    && 16 + |h.name| < h.size && h.size + |post| == |s|
    && s[..16] == PairHeader(o, h.size, |h.name| + 1, h.elems, h.code)
    && s[16..16 + |h.name|] == h.name
    && h.off + |value| <= h.size && s[h.off..h.off + |value|] == value
    && s[h.off + |value|..h.size] == Zeros(h.size - h.off - |value|)
    && s[h.size..] == post
  }

  lemma PairSlices(o: ByteOrder, h: Head, off: nat, body: bytes, value: bytes, post: bytes)
    requires |h.name| < |body| && h.off == 16 + off && off + |value| <= |body| && h.size == 16 + |body|
    requires body[..|h.name|] == h.name && body[off..off + |value|] == value
    requires body[off + |value|..] == Zeros(|body| - off - |value|)
    ensures PairAt(o, PairHeader(o, h.size, |h.name| + 1, h.elems, h.code) + body + post, h, value, post)
  {
    var header := PairHeader(o, h.size, |h.name| + 1, h.elems, h.code);
    SliceMiddle(header, body, post, 0, |h.name|);
    SliceMiddle(header, body, post, off, off + |value|);
    SliceMiddle(header, body, post, off + |value|, |body|);
    assert body[off + |value|..] == body[off + |value|..|body|];
  }

  /** The header a pair is read with. */
  function WrittenHead(name: bytes, elems: nat, code: nat, value: bytes): Head {
    Head(PairSize(name, |value|), ReadName(name), elems, code, 16 + AlignUp(|name| + 1, 8))
  }

  /** A covered name is padded as if it had been written in full. */
  lemma CoveredAligns(name: bytes)
    requires Covered(name)
    ensures AlignUp(CStringLen(name), 8) == AlignUp(|name| + 1, 8)
  {
    AlignUpSame(CStringLen(name), |name| + 1);
  }

  lemma FrontLayout(name: bytes)
    requires Covered(name)
    ensures Pad8(CString(name))[..|name|] == ReadName(name)
  {
    if NulFree(name) {
      NulFreeName(name);
    }
  }

  lemma BodyLayout(name: bytes, value: bytes, off: nat)
    requires Covered(name) && off == AlignUp(CStringLen(name), 8)
    ensures var body := PairBody(name, value);
      && |name| < off && off + |value| <= |body|
      && body[..|name|] == ReadName(name)
      && body[off..off + |value|] == value
      && body[off + |value|..] == Zeros(|body| - off - |value|)
  {
    var front := Pad8(CString(name));
    var body := PairBody(name, value);
    assert |front| == off;
    assert front + value <= body;
    assert body[..off] == front;
    FrontLayout(name);
    assert body[..|name|] == front[..|name|];
  }

  lemma PairParts(o: ByteOrder, name: bytes, elems: nat, code: nat, value: bytes)
    ensures PairSize(name, |value|) == 16 + |PairBody(name, value)|
    ensures PairBytes(o, name, elems, code, value)
         == PairHeader(o, PairSize(name, |value|), |name| + 1, elems, code) + PairBody(name, value)
  {}

  lemma PairLayout(o: ByteOrder, name: bytes, elems: nat, code: nat, value: bytes, post: bytes)
    requires Covered(name)
    ensures PairAt(o, PairBytes(o, name, elems, code, value) + post, WrittenHead(name, elems, code, value), value, post)
  {
    var off := AlignUp(CStringLen(name), 8);
    BodyLayout(name, value, off);
    PairParts(o, name, elems, code, value);
    CoveredAligns(name);
    PairSlices(o, WrittenHead(name, elems, code, value), off, PairBody(name, value), value, post);
  }

  /**
   Size, element count, code and value offset are read back as written, and the
   name as far as it was written, for every type, value and following bytes.
   */
  lemma PairRoundTrip(o: ByteOrder, name: bytes, elems: nat, code: nat, value: bytes, post: bytes)
    requires Covered(name) && |name| + 1 < MAX_INT16
    requires elems <= MAX_ELEMS && code <= TYPE_DOUBLE
    requires PairSize(name, |value|) <= MAX_INT32 && |post| >= 4
    ensures var s := PairBytes(o, name, elems, code, value) + post;
      var h := WrittenHead(name, elems, code, value);
      ReadHead(Config(Native, o), s) == Pair(h) && PairAt(o, s, h, value, post)
  {
    PairLayout(o, name, elems, code, value, post);
    AlignBehindHeader(|name| + 1);
    PairAtRead(o, PairBytes(o, name, elems, code, value) + post, WrittenHead(name, elems, code, value), value, post);
  }

  /** A pair spans a positive multiple of 8 bytes, and its first field says how many. */
  lemma PairExtent(o: ByteOrder, name: bytes, elems: nat, code: nat, value: bytes)
    requires PairSize(name, |value|) <= MAX_INT32
    ensures var pair := PairBytes(o, name, elems, code, value);
      && |pair| >= 16 && |pair| % 8 == 0 && IntFromBytes(o, true, pair[..4]) == |pair|
      && (Covered(name) ==> |pair| >= 24)
  {
    PairParts(o, name, elems, code, value);
    PairSizeAligned(name, |value|);
    SizeField(o, PairSize(name, |value|), |name| + 1, elems, code, PairBody(name, value));
  }

  /** The reader looks for the value at the offset where the writer is about to put it. */
  lemma SameOffset(name: bytes)
    requires Covered(name)
    ensures AlignUp(16 + (|name| + 1), 8) == |OpenPair(name)|
  {
    AlignBehindHeader(|name| + 1);
    CoveredAligns(name);
  }

  lemma SizeField(o: ByteOrder, size: nat, nameSize: nat, elems: nat, code: nat, body: bytes)
    requires size <= MAX_INT32
    ensures IntFromBytes(o, true, (PairHeader(o, size, nameSize, elems, code) + body)[..4]) == size
  {
    HeaderFields(o, size, nameSize, elems, code, body);
    PowValues();
    IntRoundTrip(o, true, size, 4);
    GetIntComputes(o, true, PutInt(o, size, 4));
  }

  lemma PairAtRead(o: ByteOrder, s: bytes, h: Head, value: bytes, post: bytes)
    requires |h.name| + 1 < MAX_INT16 && h.elems <= MAX_ELEMS && h.code <= TYPE_DOUBLE && h.size <= MAX_INT32
    requires h.off == AlignUp(16 + (|h.name| + 1), 8) && |post| >= 4
    requires PairAt(o, s, h, value, post)
    ensures ReadHead(Config(Native, o), s) == Pair(h)
  {
    HeaderRead(o, h.size, |h.name| + 1, h.elems, h.code, s);
  }

  // ---- Values of one pair ----

  lemma {:induction false} LeafSizeIsLength(o: ByteOrder, l: Leaf)
    ensures |LeafBytes(o, l)| == LeafSize(l)
  {
    if l.StrArray? {
      CStringsLength(l.ss);
    }
  }

  lemma {:induction false} CStringsLength(ss: seq<bytes>)
    ensures |CStrings(ss)| == CStringsSize(ss)
  {
    if ss != [] {
      CStringsLength(ss[1..]);
    }
  }

  lemma CStringRead(str: bytes, post: bytes)
    requires NulFree(str)
    ensures ReadCString(str + [0] + post) == Ok((str, post))
  {
    var w := str + [0] + post;
    assert w[..|str|] == str && w[|str| + 1..] == post;
    assert IsIndexOf(w, 0, |str|);
  }

  lemma CStringsStep(x: bytes, post: bytes, n: nat, acc: seq<bytes>)
    requires NulFree(x) && n > 0
    ensures ReadCStrings(x + [0] + post, n, acc) == ReadCStrings(post, n - 1, acc + [x])
  {
    CStringRead(x, post);
  }

  lemma TextRegroup(cur: bytes, x: bytes, rest: bytes, tail: bytes)
    ensures cur + (x + [0] + rest) + tail == cur + x + [0] + ([] + rest + tail)
    ensures cur + (x + rest) + tail == cur + x + rest + tail
  {
    assert [] + rest == rest;
    Assoc(cur, x + [0] + rest, tail);
    Assoc(x + [0], rest, tail);
    Assoc(cur, x, [0]);
    Assoc(cur, x + [0], rest + tail);
    Assoc(cur, x, rest);
  }

  /** A terminated string is read with what is left over from before. */
  lemma TextStep(cur: bytes, ss: seq<bytes>, tail: bytes, n: nat, acc: seq<bytes>)
    requires NulFree(cur) && ss != [] && NulFree(ss[0]) && n > 0
    ensures ReadCStrings(cur + CStrings(ss) + tail, n, acc)
         == ReadCStrings([] + CStrings(ss[1..]) + tail, n - 1, acc + [cur + ss[0]])
  {
    TextRegroup(cur, ss[0], CStrings(ss[1..]), tail);
    CStringsStep(cur + ss[0], [] + CStrings(ss[1..]) + tail, n, acc);
  }

  /** One without a terminator joins what follows. */
  lemma TextJoin(cur: bytes, ss: seq<bytes>, tail: bytes)
    requires ss != [] && !NulFree(ss[0])
    ensures cur + CStrings(ss) + tail == cur + CutText(ss[0]) + CStrings(ss[1..]) + tail
  {
    assert CString(ss[0]) == CutText(ss[0]);
    TextRegroup(cur, CutText(ss[0]), CStrings(ss[1..]), tail);
  }

  /** The reader takes what lies between terminators for a string. */
  lemma {:induction false} TextsRead(cur: bytes, ss: seq<bytes>, tail: bytes, n: nat, acc: seq<bytes>)
    requires NulFree(cur) && n >= |Terminated(cur, ss)|
    ensures ReadCStrings(cur + CStrings(ss) + tail, n, acc)
         == ReadCStrings(Unterminated(cur, ss) + tail, n - |Terminated(cur, ss)|, acc + Terminated(cur, ss))
    decreases |ss|
  {
    if ss == [] {
      assert cur + [] == cur && acc + [] == acc;
    } else if NulFree(ss[0]) {
      var x := cur + ss[0];
      TextStep(cur, ss, tail, n, acc);
      TextsRead([], ss[1..], tail, n - 1, acc + [x]);
      Assoc(acc, [x], Terminated([], ss[1..]));
    } else {
      TextJoin(cur, ss, tail);
      TextsRead(cur + CutText(ss[0]), ss[1..], tail, n, acc);
    }
  }

  lemma NoneRead(w: bytes, n: nat, acc: seq<bytes>)
    requires n == 0
    ensures ReadCStrings(w, n, acc) == Ok(acc)
  {}

  lemma NoNulRead(w: bytes, n: nat, acc: seq<bytes>)
    requires NulFree(w) && n > 0
    ensures ReadCStrings(w, n, acc) == Err(InvalidData)
  {
    assert IsIndexOf(w, 0, |w|);
  }

  /** The strings that are read of a text without a terminator, m zeros and more. */
  function Ended(left: bytes, m: nat): seq<bytes>
    requires m > 0
  {
    [left] + Blanks(m - 1)
  }

  lemma EndedStep(left: bytes, m: nat, acc: seq<bytes>)
    requires m > 1
    ensures acc + [left] + Ended([], m - 1) == acc + Ended(left, m)
  {
    assert [[]] + Blanks(m - 2) == Blanks(m - 1);
    Assoc(acc, [left], Blanks(m - 1));
  }

  /** Zeros behind the last text, and one byte more, terminate it and blank strings after it. */
  lemma {:induction false} TailRead(left: bytes, p: nat, b: byte, m: nat, acc: seq<bytes>)
    requires NulFree(left) && m > 0
    ensures ReadCStrings(left + (Zeros(p) + [b]), m, acc) ==
      if MadeUp(m, p, b) then Ok(acc + Ended(left, m)) else Err(InvalidData)
    decreases m
  {
    if p == 0 && b != 0 {
      assert Zeros(0) + [b] == [b];
      NoNulRead(left + [b], m, acc);
    } else {
      var rest := if p > 0 then Zeros(p - 1) + [b] else [];
      TailSplit(left, p, b, rest);
      CStringsStep(left, rest, m, acc);
      if m == 1 {
        NoneRead(rest, m - 1, acc + [left]);
        assert [left] + Blanks(0) == [left];
      } else if p == 0 {
        NoNulRead(rest, m - 1, acc + [left]);
      } else {
        assert [] + rest == rest;
        TailRead([], p - 1, b, m - 1, acc + [left]);
        EndedStep(left, m, acc);
      }
    }
  }

  lemma TailSplit(left: bytes, p: nat, b: byte, rest: bytes)
    requires p > 0 || b == 0
    requires rest == if p > 0 then Zeros(p - 1) + [b] else []
    ensures left + (Zeros(p) + [b]) == left + [0] + rest
  {
    if p > 0 {
      assert Zeros(p) == [0] + Zeros(p - 1);
    }
    assert Zeros(p) + [b] == [0] + rest;
  }

  lemma TextsReadAll(ss: seq<bytes>, tail: bytes)
    ensures ReadCStrings(CStrings(ss) + tail, |ss|, [])
         == ReadCStrings(Unterminated([], ss) + tail, Missing(ss), Terminated([], ss))
  {
    assert [] + CStrings(ss) == CStrings(ss) && [] + Terminated([], ss) == Terminated([], ss);
    TextsRead([], ss, tail, |ss|, []);
  }

  /** The condition under which zeros and one byte more make up for m missing terminators. */
  predicate MadeUp(m: nat, p: nat, b: byte) {
    m <= p + if b == 0 then 1 else 0
  }

  lemma EndRead(u: bytes, t: seq<bytes>, m: nat, p: nat, b: byte, all: seq<bytes>)
    requires NulFree(u) && all == if m == 0 then t else t + [u] + Blanks(m - 1)
    ensures ReadCStrings(u + (Zeros(p) + [b]), m, t) == if MadeUp(m, p, b) then Ok(all) else Err(InvalidData)
  {
    if m == 0 {
      NoneRead(u + (Zeros(p) + [b]), m, t);
    } else {
      TailRead(u, p, b, m, t);
      Assoc(t, [u], Blanks(m - 1));
    }
  }

  /** What is read of strings that p zeros and one byte follow. */
  lemma StringsRead(ss: seq<bytes>, p: nat, b: byte)
    ensures ReadCStrings(CStrings(ss) + (Zeros(p) + [b]), |ss|, [])
         == if MadeUp(Missing(ss), p, b) then Ok(ReadTexts(ss)) else Err(InvalidData)
  {
    TextsReadAll(ss, Zeros(p) + [b]);
    TextsPlain([], ss);
    EndRead(Unterminated([], ss), Terminated([], ss), Missing(ss), p, b, ReadTexts(ss));
  }

  /** The same for a single string. */
  lemma StringRead(s: bytes, p: nat, b: byte)
    ensures var r := ReadCString(CString(s) + (Zeros(p) + [b]));
      if NulFree(s) || p > 0 || b == 0 then r.Ok? && r.value.0 == CutText(s) else r == Err(InvalidData)
  {
    var w := CString(s) + (Zeros(p) + [b]);
    if NulFree(s) {
      CStringRead(s, Zeros(p) + [b]);
    } else if p > 0 || b == 0 {
      var rest := if p > 0 then Zeros(p - 1) + [b] else [];
      TailSplit(CutText(s), p, b, rest);
      CStringRead(CutText(s), rest);
    } else {
      assert Zeros(0) + [b] == [b];
      assert IsIndexOf(w, 0, |w|);
    }
  }

  lemma OneMissing(s: bytes)
    ensures Missing([s]) == if NulFree(s) then 0 else 1
  {
    var ss := [s];
    assert ss[1..] == [] && Missing(ss) == (if NulFree(ss[0]) then 0 else 1) + Missing(ss[1..]);
  }

  /** The scan window of a string runs over its padding to the byte behind the pair. */
  lemma WindowAt(s: bytes, limit: nat, off: nat, val: bytes)
    requires limit < |s| && off + |val| <= limit
    requires s[off..off + |val|] == val && s[off + |val|..limit] == Zeros(limit - off - |val|)
    ensures Window(s, limit, off) == val + (Zeros(limit - off - |val|) + [s[limit]])
  {
    assert s[off..limit + 1] == s[off..off + |val|] + (s[off + |val|..limit] + [s[limit]]);
  }

  /** The bytes of the first of several booleans, and of the others. */
  lemma BoolSlices(o: ByteOrder, s: bytes, off: nat, bs: seq<bool>)
    requires bs != [] && off + 4 * |bs| <= |s|
    requires s[off..off + 4 * |bs|] == PutInts(o, BoolInts(bs), 4)
    ensures s[off..off + 4] == PutInt(o, if bs[0] then 1 else 0, 4)
    ensures s[off + 4..off + 4 + 4 * |bs[1..]|] == PutInts(o, BoolInts(bs[1..]), 4)
  {
    assert BoolInts(bs)[1..] == BoolInts(bs[1..]);
    SliceSplit(s, off, PutInt(o, if bs[0] then 1 else 0, 4), PutInts(o, BoolInts(bs[1..]), 4));
  }

  lemma BoolStep(o: ByteOrder, s: bytes, limit: nat, off: nat, n: nat, acc: seq<bool>, b: bool)
    requires n > 0 && off + 4 <= limit <= |s| && s[off..off + 4] == PutInt(o, if b then 1 else 0, 4)
    ensures ReadBools(o, s, limit, off, n, acc) == ReadBools(o, s, limit, off + 4, n - 1, acc + [b])
  {
    PowValues();
    IntRead(o, true, s, limit, off, 4, if b then 1 else 0);
  }

  /** s holds the given booleans one after the other from off on. */
  predicate BoolsAt(o: ByteOrder, s: bytes, off: nat, bs: seq<bool>)
    decreases |bs|
  {
    bs != [] ==>
      && off + 4 <= |s| && s[off..off + 4] == PutInt(o, if bs[0] then 1 else 0, 4)
      && BoolsAt(o, s, off + 4, bs[1..])
  }

  lemma {:induction false} BoolsLaid(o: ByteOrder, s: bytes, off: nat, bs: seq<bool>)
    requires off + 4 * |bs| <= |s| && s[off..off + 4 * |bs|] == PutInts(o, BoolInts(bs), 4)
    ensures BoolsAt(o, s, off, bs)
    decreases |bs|
  {
    if bs != [] {
      BoolSlices(o, s, off, bs);
      BoolsLaid(o, s, off + 4, bs[1..]);
    }
  }

  lemma {:induction false} BoolsRead(o: ByteOrder, s: bytes, limit: nat, off: nat, bs: seq<bool>, acc: seq<bool>)
    requires limit <= |s| && off + 4 * |bs| <= limit && BoolsAt(o, s, off, bs)
    ensures ReadBools(o, s, limit, off, |bs|, acc) == Ok(acc + bs)
    decreases |bs|
  {
    if bs == [] {
      assert ReadBools(o, s, limit, off, 0, acc) == Ok(acc);
      assert acc + bs == acc;
    } else {
      BoolStep(o, s, limit, off, |bs|, acc, bs[0]);
      BoolsRead(o, s, limit, off + 4, bs[1..], acc + [bs[0]]);
      Assoc(acc, [bs[0]], bs[1..]);
      assert [bs[0]] + bs[1..] == bs;
    }
  }

  lemma ByteRead(o: ByteOrder, n: int)
    requires IntFits(Uint8, n)
    ensures PutInt(o, n, 1) == [n]
  {
    PowValues();
    assert PutInt(o, n / 256, 0) == [];
  }

  lemma {:induction false} BytesRead(o: ByteOrder, ns: seq<int>)
    requires AllFit(Uint8, ns)
    ensures ByteInts(PutInts(o, ns, 1)) == ns
  {
    if ns != [] {
      ByteRead(o, ns[0]);
      BytesRead(o, ns[1..]);
      var bs := PutInts(o, ns, 1);
      assert bs == [ns[0]] + PutInts(o, ns[1..], 1);
      forall i | 0 <= i < |ns|
        ensures ByteInts(bs)[i] == ns[i]
      {
        if i > 0 {
          assert ByteInts(bs)[i] == ByteInts(PutInts(o, ns[1..], 1))[i - 1];
        }
      }
    }
  }

  /** Where the bytes of a leaf lie inside its pair. */
  predicate Holds(s: bytes, h: Head, code: nat, elems: nat, val: bytes) {
    && HeadOk(s, h)
    && h.code == code && h.elems == elems
    && h.off + |val| <= h.size
    && s[h.off..h.off + |val|] == val
  }

  lemma IntRoundTripAt(o: ByteOrder, s: bytes, h: Head, k: IntKind, n: int)
    requires IntFits(k, n) && Holds(s, h, ScalarCode(k), 1, PutInt(o, n, k.Width()))
    ensures ReadValue(Config(Native, o), s, h) == Got(Single(Int(k, n)))
  {
    if k == Uint8 {
      ByteRead(o, n);
      assert s[h.off] == s[h.off..h.off + 1][0] == n;
    } else {
      IntRead(o, k.Signed(), s, h.size, h.off, k.Width(), n);
    }
  }

  lemma ByteArrayRoundTripAt(o: ByteOrder, s: bytes, h: Head, ns: seq<int>)
    requires AllFit(Uint8, ns) && Holds(s, h, TYPE_BYTE_ARRAY, |ns|, PutInts(o, ns, 1))
    ensures ReadValue(Config(Native, o), s, h) == Got(Single(IntArray(Uint8, ns)))
  {
    assert ReadN(s, h.size, h.off, h.elems) == Ok(PutInts(o, ns, 1));
    BytesRead(o, ns);
    ByteArrayDispatch(Config(Native, o), s, h, PutInts(o, ns, 1));
  }

  lemma ByteArrayDispatch(c: Config, s: bytes, h: Head, bs: bytes)
    requires HeadOk(s, h) && h.code == TYPE_BYTE_ARRAY && ReadN(s, h.size, h.off, h.elems) == Ok(bs)
    ensures ReadValue(c, s, h) == Got(Single(IntArray(Uint8, ByteInts(bs))))
  {}

  lemma IntArrayRoundTripAt(o: ByteOrder, s: bytes, h: Head, k: IntKind, ns: seq<int>)
    requires AllFit(k, ns)
    requires Holds(s, h, ArrayCode(k), |ns|, PutInts(o, ns, k.Width()))
    ensures ReadValue(Config(Native, o), s, h) == Got(Single(IntArray(k, ns)))
  {
    if k == Uint8 {
      ByteArrayRoundTripAt(o, s, h, ns);
    } else {
      IntsRead(o, s, h.size, h.off, k, ns);
      IntArrayDispatch(Config(Native, o), s, h, k, ns);
    }
  }

  lemma IntArrayDispatch(c: Config, s: bytes, h: Head, k: IntKind, ns: seq<int>)
    requires HeadOk(s, h) && k != Uint8 && h.code == ArrayCode(k)
    requires ReadInts(c.order, k, s, h.size, h.off, h.elems) == Ok(ns)
    ensures ReadValue(c, s, h) == Got(Single(IntArray(k, ns)))
  {}

  lemma IntsRead(o: ByteOrder, s: bytes, limit: nat, off: nat, k: IntKind, ns: seq<int>)
    requires AllFit(k, ns)
    requires limit <= |s| && off + k.Width() * |ns| <= limit
    requires s[off..off + k.Width() * |ns|] == PutInts(o, ns, k.Width())
    ensures ReadInts(o, k, s, limit, off, |ns|) == Ok(ns)
  {
    IntsRoundTrip(o, k.Signed(), ns, k.Width());
  }

  lemma StrArrayDispatch(c: Config, s: bytes, h: Head)
    requires HeadOk(s, h) && h.code == TYPE_STRING_ARRAY
    ensures ReadValue(c, s, h) == Wrap(ReadStrArray(s, h))
  {}

  lemma StrDispatch(c: Config, s: bytes, h: Head)
    requires HeadOk(s, h) && h.code == TYPE_STRING
    ensures ReadValue(c, s, h) == Wrap(ReadStr(s, h))
  {}

  /** The strings of a leaf from at on, padded to the end of the pair. */
  predicate TextsAt(s: bytes, h: Head, at: nat, texts: bytes) {
    && HeadOk(s, h) && at + |texts| <= h.size
    && s[at..at + |texts|] == texts && s[at + |texts|..h.size] == Zeros(h.size - at - |texts|)
  }

  lemma StrArrayRoundTripAt(o: ByteOrder, s: bytes, h: Head, ss: seq<bytes>)
    requires h.code == TYPE_STRING_ARRAY && h.elems == |ss| && TextsAt(s, h, h.off + 8 * |ss|, CStrings(ss))
    requires h.size - (h.off + 8 * |ss|) - |CStrings(ss)| == Slack(ss)
    ensures ReadValue(Config(Native, o), s, h) ==
      if TextFits(StrArray(ss), s[h.size]) then Got(Single(StrArray(ReadTexts(ss)))) else BadValue(InvalidData)
  {
    StringsAt(s, h.size, h.off + 8 * |ss|, ss, Slack(ss));
    var ok := MadeUp(Missing(ss), Slack(ss), s[h.size]);
    assert TextFits(StrArray(ss), s[h.size]) == ok;
    StrArrayValue(Config(Native, o), s, h, ok, ReadTexts(ss));
  }

  lemma StringsAt(s: bytes, limit: nat, at: nat, ss: seq<bytes>, p: nat)
    requires limit < |s| && at + |CStrings(ss)| + p == limit && s[at..at + |CStrings(ss)|] == CStrings(ss)
    requires s[at + |CStrings(ss)|..limit] == Zeros(p)
    ensures ReadCStrings(Window(s, limit, at), |ss|, [])
         == if MadeUp(Missing(ss), p, s[limit]) then Ok(ReadTexts(ss)) else Err(InvalidData)
  {
    WindowAt(s, limit, at, CStrings(ss));
    StringsRead(ss, p, s[limit]);
  }

  lemma StrArrayValue(c: Config, s: bytes, h: Head, ok: bool, texts: seq<bytes>)
    requires HeadOk(s, h) && h.code == TYPE_STRING_ARRAY
    requires ReadCStrings(Window(s, h.size, h.off + 8 * h.elems), h.elems, []) == if ok then Ok(texts) else Err(InvalidData)
    ensures ReadValue(c, s, h) == if ok then Got(Single(StrArray(texts))) else BadValue(InvalidData)
  {
    assert ReadStrArray(s, h) == if ok then Ok(StrArray(texts)) else Err(InvalidData);
    StrArrayDispatch(c, s, h);
  }

  lemma StrRoundTripAt(o: ByteOrder, s: bytes, h: Head, str: bytes)
    requires h.code == TYPE_STRING && TextsAt(s, h, h.off, CString(str)) && h.size - h.off - |CString(str)| == Slack([str])
    ensures ReadValue(Config(Native, o), s, h) ==
      if TextFits(Str(str), s[h.size]) then Got(Single(Str(CutText(str)))) else BadValue(InvalidData)
  {
    StrDispatch(Config(Native, o), s, h);
    WindowAt(s, h.size, h.off, CString(str));
    StringRead(str, Slack([str]), s[h.size]);
    OneMissing(str);
  }

  lemma BoolArrayRoundTripAt(o: ByteOrder, s: bytes, h: Head, bs: seq<bool>)
    requires Holds(s, h, TYPE_BOOLEAN_ARRAY, |bs|, PutInts(o, BoolInts(bs), 4))
    ensures ReadValue(Config(Native, o), s, h) == Got(Single(BoolArray(bs)))
  {
    BoolsLaid(o, s, h.off, bs);
    BoolsRead(o, s, h.size, h.off, bs, []);
    assert [] + bs == bs;
    BoolArrayDispatch(Config(Native, o), s, h, bs);
  }

  lemma BoolArrayDispatch(c: Config, s: bytes, h: Head, bs: seq<bool>)
    requires HeadOk(s, h) && h.code == TYPE_BOOLEAN_ARRAY && ReadBools(c.order, s, h.size, h.off, h.elems, []) == Ok(bs)
    ensures ReadValue(c, s, h) == Got(Single(BoolArray(bs)))
  {}

  /** The padding of strings does not depend on what is written in front of them. */
  lemma SlackIs(name: bytes, l: Leaf)
    requires l.Str? || l.StrArray?
    ensures PairSize(name, LeafSize(l)) - 16 - AlignUp(CStringLen(name), 8) - LeafSize(l) == Slack(LeafTexts(l))
  {
    var front, size := AlignUp(CStringLen(name), 8), CStringsSize(LeafTexts(l));
    if l.Str? {
      var ss := [l.s];
      assert ss[1..] == [] && CStringsSize(ss) == CStringLen(ss[0]) + CStringsSize(ss[1..]);
      AlignUpMod(CStringLen(name), 8);
      AlignUpBehind(front / 8, size);
    } else {
      AlignUpMod(CStringLen(name), 8);
      AlignUpBehind(front / 8 + |l.ss|, size);
    }
  }

  /** A leaf that is not a string is read back from the bytes at its value offset. */
  lemma PlainLeafRoundTrip(o: ByteOrder, s: bytes, h: Head, l: Leaf)
    requires LeafTyped(l) && l != Bool(false) && !l.Str? && !l.StrArray?
    requires Holds(s, h, LeafCode(l), LeafElems(l), LeafBytes(o, l))
    ensures ReadValue(Config(Native, o), s, h) == Got(Single(l))
  {
    match l
    case Bool(_) =>
    case Int(k, n) => IntRoundTripAt(o, s, h, k, n);
    case IntArray(k, ns) => IntArrayRoundTripAt(o, s, h, k, ns);
    case BoolArray(bs) => BoolArrayRoundTripAt(o, s, h, bs);
  }

  lemma TextLeafRoundTrip(o: ByteOrder, s: bytes, h: Head, l: Leaf)
    requires l.Str? || l.StrArray?
    requires Holds(s, h, LeafCode(l), LeafElems(l), LeafBytes(o, l))
    requires s[h.off + |LeafBytes(o, l)|..h.size] == Zeros(h.size - h.off - |LeafBytes(o, l)|)
    requires h.size - h.off - |LeafBytes(o, l)| == Slack(LeafTexts(l))
    ensures ReadValue(Config(Native, o), s, h) ==
      if TextFits(l, s[h.size]) then Got(Single(ReadLeaf(l))) else BadValue(InvalidData)
  {
    match l
    case Str(str) => StrRoundTripAt(o, s, h, str);
    case StrArray(ss) =>
      SliceSplit(s, h.off, Zeros(8 * |ss|), CStrings(ss));
      StrArrayRoundTripAt(o, s, h, ss);
  }

  /**
   A leaf is read back from the bytes at its value offset; a string is read as
   far as it was written, if a zero ends it before the pair or right behind it.
   */
  lemma LeafRoundTrip(o: ByteOrder, name: bytes, l: Leaf, post: bytes)
    requires Covered(name) && |name| + 1 < MAX_INT16 && |post| >= 4
    requires LeafTyped(l) && LeafElems(l) <= MAX_ELEMS && l != Bool(false) && PairSize(name, LeafSize(l)) <= MAX_INT32
    ensures var c, s := Config(Native, o), LeafPair(o, name, l) + post;
      var r := ReadHead(c, s);
      && r.Pair? && r.head.name == ReadName(name) && r.head.code == LeafCode(l) && After(c, s, r.head) == post
      && ReadValue(c, s, r.head) == if TextFits(l, post[0]) then Got(Single(ReadLeaf(l))) else BadValue(InvalidData)
  {
    var s, val := LeafPair(o, name, l) + post, LeafBytes(o, l);
    var h := WrittenHead(name, LeafElems(l), LeafCode(l), val);
    LeafSizeIsLength(o, l);
    PairRoundTrip(o, name, LeafElems(l), LeafCode(l), val, post);
    assert s[h.size] == s[h.size..][0];
    if l.Str? || l.StrArray? {
      CoveredAligns(name);
      SlackIs(name, l);
      TextLeafRoundTrip(o, s, h, l);
    } else {
      PlainLeafRoundTrip(o, s, h, l);
    }
  }

  // ---- One step of the list parser ----

  lemma ParseStep(c: Config, s: bytes, acc: seq<Item>, h: Head, node: Node, rest: bytes)
    requires ReadHead(c, s) == Pair(h) && ReadNode(c, s, h) == GotNode(node, rest)
    ensures Parse(c, s, acc) == Parse(c, rest, acc + [Item(h.name, node)])
  {}

  lemma LeafStep(c: Config, s: bytes, acc: seq<Item>, h: Head, node: Node)
    requires ReadHead(c, s) == Pair(h) && h.code != TYPE_NVLIST && h.code != TYPE_NVLIST_ARRAY
    requires ReadValue(c, s, h) == Got(node)
    ensures Parse(c, s, acc) == Parse(c, After(c, s, h), acc + [Item(h.name, node)])
  {
    ParseStep(c, s, acc, h, node, After(c, s, h));
  }

  lemma SubStep(c: Config, s: bytes, acc: seq<Item>, h: Head, items: seq<Item>, post: bytes)
    requires ReadHead(c, s) == Pair(h) && h.code == TYPE_NVLIST
    requires Parse(c, After(c, s, h), []) == Parsed(items, post)
    ensures Parse(c, s, acc) == Parse(c, post, acc + [Item(h.name, Sub(Block(items)))])
  {
    ParseStep(c, s, acc, h, Sub(Block(items)), post);
  }

  lemma SubsStep(c: Config, s: bytes, acc: seq<Item>, h: Head, blocks: seq<Block>, post: bytes)
    requires ReadHead(c, s) == Pair(h) && h.code == TYPE_NVLIST_ARRAY
    requires ParseAll(c, After(c, s, h), h.elems, []) == ParsedAll(blocks, post)
    ensures Parse(c, s, acc) == Parse(c, post, acc + [Item(h.name, Subs(blocks))])
  {
    ParseStep(c, s, acc, h, Subs(blocks), post);
  }

  lemma AllStep(c: Config, s: bytes, k: nat, acc: seq<Block>, items: seq<Item>, post: bytes)
    requires k > 0 && Parse(c, s, []) == Parsed(items, post)
    ensures ParseAll(c, s, k, acc) == ParseAll(c, post, k - 1, acc + [Block(items)])
  {}

  lemma {:induction false} ZeroBytes(o: ByteOrder, w: nat)
    ensures PutInt(o, 0, w) == Zeros(w)
  {
    if w > 0 {
      ZeroBytes(o, w - 1);
    }
  }

  lemma TrailerRoundTrip(o: ByteOrder, post: bytes, acc: seq<Item>)
    ensures Parse(Config(Native, o), Zeros(4) + post, acc) == Parsed(acc, post)
  {
    var s := Zeros(4) + post;
    ZeroBytes(o, 4);
    PowValues();
    assert s[0..4] == Zeros(4) && s[4..] == post;
    IntAtRead(o, true, s, 0, 4, 0);
    assert ReadHead(Config(Native, o), s) == End;
  }

  // ---- Entries and lists ----

  lemma LeafEntry(o: ByteOrder, name: bytes, l: Leaf, post: bytes, acc: seq<Item>)
    requires Covered(name) && |name| + 1 < MAX_INT16 && |post| >= 4
    requires LeafTyped(l) && LeafElems(l) <= MAX_ELEMS && l != Bool(false) && PairSize(name, LeafSize(l)) <= MAX_INT32
    ensures Parse(Config(Native, o), LeafPair(o, name, l) + post, acc) ==
      if TextFits(l, post[0]) then Parse(Config(Native, o), post, acc + [Item(ReadName(name), Single(ReadLeaf(l)))])
      else BadList(InvalidData)
  {
    var c, s := Config(Native, o), LeafPair(o, name, l) + post;
    LeafRoundTrip(o, name, l, post);
    var h := ReadHead(c, s).head;
    if TextFits(l, post[0]) {
      LeafStep(c, s, acc, h, Single(ReadLeaf(l)));
    } else {
      LeafFails(c, s, acc, h, InvalidData);
    }
  }

  lemma LeafFails(c: Config, s: bytes, acc: seq<Item>, h: Head, e: Error)
    requires ReadHead(c, s) == Pair(h) && h.code != TYPE_NVLIST && h.code != TYPE_NVLIST_ARRAY
    requires ReadValue(c, s, h) == BadValue(e)
    ensures Parse(c, s, acc) == BadList(e)
  {
    assert ReadNode(c, s, h) == BadNode(e);
  }

  lemma FloatEntry(o: ByteOrder, name: bytes, bits: nat, post: bytes, acc: seq<Item>)
    requires Covered(name) && |name| + 1 < MAX_INT16 && |post| >= 4
    ensures Parse(Config(Native, o), FloatPair(o, name, bits) + post, acc)
         == Parse(Config(Native, o), post, acc + [Item(ReadName(name), Skipped)])
  {
    var s := FloatPair(o, name, bits) + post;
    PairRoundTrip(o, name, 1, TYPE_DOUBLE, PutInt(o, bits, 8), post);
    var h := ReadHead(Config(Native, o), s).head;
    DoubleSkipped(Config(Native, o), s, h);
    LeafStep(Config(Native, o), s, acc, h, Skipped);
  }

  lemma DoubleSkipped(c: Config, s: bytes, h: Head)
    requires HeadOk(s, h) && h.code == TYPE_DOUBLE
    ensures ReadValue(c, s, h) == Got(Skipped)
  {}

  lemma ListEntry(o: ByteOrder, name: bytes, body: bytes, items: seq<Item>, post: bytes, acc: seq<Item>)
    requires Covered(name) && |name| + 1 < MAX_INT16 && |body| >= 4
    requires Parse(Config(Native, o), body + post, []) == Parsed(items, post)
    ensures Parse(Config(Native, o), ListPair(o, name) + body + post, acc)
         == Parse(Config(Native, o), post, acc + [Item(ReadName(name), Sub(Block(items)))])
  {
    var pair := ListPair(o, name);
    Assoc(pair, body, post);
    var s := pair + (body + post);
    PairRoundTrip(o, name, 1, TYPE_NVLIST, ListHeader(o), body + post);
    var h := ReadHead(Config(Native, o), s).head;
    SubStep(Config(Native, o), s, acc, h, items, post);
  }

  lemma ListsEntry(o: ByteOrder, name: bytes, n: nat, body: bytes, blocks: seq<Block>, post: bytes, acc: seq<Item>)
    requires Covered(name) && |name| + 1 < MAX_INT16 && |post| >= 4 && n <= MAX_ELEMS
    requires ParseAll(Config(Native, o), body + post, n, []) == ParsedAll(blocks, post)
    ensures Parse(Config(Native, o), ListsPair(o, name, n) + body + post, acc)
         == Parse(Config(Native, o), post, acc + [Item(ReadName(name), Subs(blocks))])
  {
    var pair := ListsPair(o, name, n);
    Assoc(pair, body, post);
    var s := pair + (body + post);
    PairRoundTrip(o, name, n, TYPE_NVLIST_ARRAY, Zeros(8 * n) + ListHeaders(o, n), body + post);
    var h := ReadHead(Config(Native, o), s).head;
    SubsStep(Config(Native, o), s, acc, h, blocks, post);
  }

  // ---- What trees without an error inside are written as ----

  lemma LeadByteIs(o: ByteOrder, n: nat)
    ensures PutInt(o, n, 4)[0] == LeadByte(o, n)
  {
    var a := PutInt(o, n / 256, 3);
    var b := PutInt(o, n / 256 / 256, 2);
    var c := PutInt(o, n / 256 / 256 / 256, 1);
    if o.BigEndian? {
      assert PutInt(o, n, 4) == a + [n % 256] && a == b + [n / 256 % 256] && b == c + [n / 256 / 256 % 256];
      assert c == PutInt(o, n / 256 / 256 / 256 / 256, 0) + [n / 256 / 256 / 256 % 256];
      DivThrice(n);
    } else {
      assert PutInt(o, n, 4) == [n % 256] + a;
    }
  }

  lemma DivThrice(n: nat)
    ensures n / 256 / 256 / 256 == n / 0x100_0000
  {}

  predicate Leads(o: ByteOrder, data: bytes, size: nat) {
    |data| >= 16 && data[0] == LeadByte(o, size)
  }

  lemma PairLead(o: ByteOrder, name: bytes, elems: nat, code: nat, value: bytes, rest: bytes)
    ensures Leads(o, PairBytes(o, name, elems, code, value) + rest, PairSize(name, |value|))
  {
    PairParts(o, name, elems, code, value);
    LeadByteIs(o, PairSize(name, |value|));
  }

  lemma LeafLead(o: ByteOrder, name: bytes, l: Leaf)
    ensures Leads(o, LeafPair(o, name, l), PairSize(name, LeafSize(l)))
  {
    LeafSizeIsLength(o, l);
    PairLead(o, name, LeafElems(l), LeafCode(l), LeafBytes(o, l), []);
    assert LeafPair(o, name, l) + [] == LeafPair(o, name, l);
  }

  lemma FloatLead(o: ByteOrder, name: bytes, bits: nat)
    ensures Leads(o, FloatPair(o, name, bits), PairSize(name, 8))
  {
    PairLead(o, name, 1, TYPE_DOUBLE, PutInt(o, bits, 8), []);
    assert FloatPair(o, name, bits) + [] == FloatPair(o, name, bits);
  }

  lemma ListLead(o: ByteOrder, name: bytes, rest: bytes)
    ensures Leads(o, ListPair(o, name) + rest, PairSize(name, 24))
  {
    PairLead(o, name, 1, TYPE_NVLIST, ListHeader(o), rest);
  }

  lemma ListsLead(o: ByteOrder, name: bytes, n: nat, rest: bytes)
    ensures Leads(o, ListsPair(o, name, n) + rest, PairSize(name, 32 * n))
  {
    PairLead(o, name, n, TYPE_NVLIST_ARRAY, Zeros(8 * n) + ListHeaders(o, n), rest);
  }

  /** A framed entry is written without an error, and its first byte is that of its size. */
  lemma {:induction false} EntryEncodes(o: ByteOrder, e: Entry)
    requires EntryFramed(true, e) && !NotWritten(e)
    ensures EncodeEntry(o, e).flow == Continue
    ensures Leads(o, EncodeEntry(o, e).data, PairSize(EntryName(e), ValueSize(e.value)))
    decreases e
  {
    var name := EntryName(e);
    match e.value
    case Prim(l) => LeafLead(o, name, l);
    case Float64(bits) => FloatLead(o, name, bits);
    case Map(_) =>
      ListEncodes(o, e.value);
      ListLead(o, name, EncodeList(o, e.value).data);
    case Struct(_) =>
      ListEncodes(o, e.value);
      ListLead(o, name, EncodeList(o, e.value).data);
    case Lists(ts) =>
      ListsEncode(o, ts);
      ListsLead(o, name, |ts|, EncodeLists(o, ts).data);
  }

  lemma {:induction false} EntriesEncode(o: ByteOrder, es: seq<Entry>)
    requires EntriesFramed(true, es)
    ensures var out := EncodeEntries(o, es);
      out.ok && |out.data| >= 4 && out.data[0] == NextByte(o, es)
    decreases es
  {
    if es != [] {
      EntriesFirst(true, es);
      EntriesEncode(o, es[1..]);
      if NotWritten(es[0]) {
        EncodeUnwritten(o, es);
      } else {
        EntryEncodes(o, es[0]);
        EncodeWritten(o, es);
      }
    }
  }

  lemma {:induction false} ListsEncode(o: ByteOrder, ts: seq<Tree>)
    requires forall i :: 0 <= i < |ts| ==> ListFramed(true, ts[i])
    ensures EncodeLists(o, ts).ok
    decreases ts
  {
    if ts != [] {
      ListEncodes(o, ts[0]);
      ListsEncode(o, ts[1..]);
    }
  }

  lemma {:induction false} ListEncodes(o: ByteOrder, t: Tree)
    requires ListFramed(true, t)
    ensures EncodeList(o, t).ok && (t.IsList() ==> |EncodeList(o, t).data| >= 4)
    decreases t
  {
    match t
    case Nil =>
    case Map(es) => EntriesEncode(o, es);
    case Struct(es) => EntriesEncode(o, es);
  }

  lemma EncodeUnwritten(o: ByteOrder, es: seq<Entry>)
    requires es != [] && NotWritten(es[0]) && (Dropped(es[0]) || |EntryName(es[0])| + 1 < MAX_INT16)
    ensures EncodeEntries(o, es) == EncodeEntries(o, es[1..])
  {
    var rest := EncodeEntries(o, es[1..]);
    assert [] + rest.data == rest.data;
  }

  lemma EncodeWritten(o: ByteOrder, es: seq<Entry>)
    requires es != [] && !Dropped(es[0]) && |EntryName(es[0])| + 1 < MAX_INT16
    ensures var p, rest := EncodeEntry(o, es[0]), EncodeEntries(o, es[1..]);
      p.flow == Continue ==> EncodeEntries(o, es) == Out(p.data + rest.data, rest.ok)
  {}

  // ---- Whole trees ----

  /** Writing one entry and parsing on from it yields its item and continues after it. */
  lemma {:induction false} EntryRoundTrip(o: ByteOrder, e: Entry, post: bytes, acc: seq<Item>)
    requires |post| >= 4 && EntryFramed(true, e) && !NotWritten(e) && EntryFits(o, e, post[0]) && EntryNils(e) == 0
    ensures Parse(Config(Native, o), EncodeEntry(o, e).data + post, acc)
         == Parse(Config(Native, o), post, acc + [ProjectEntry(e)])
    decreases e
  {
    var name := EntryName(e);
    EntryEncodes(o, e);
    match e.value
    case Prim(l) => LeafEntry(o, name, l, post, acc);
    case Float64(bits) => FloatEntry(o, name, bits, post, acc);
    case Map(_) => SubRoundTrip(o, name, e.value, post, acc);
    case Struct(_) => SubRoundTrip(o, name, e.value, post, acc);
    case Lists(ts) =>
      ListsRoundTrip(o, ts, post, []);
      assert [] + ProjectAll(ts) == ProjectAll(ts);
      ListsEntry(o, name, |ts|, EncodeLists(o, ts).data, ProjectAll(ts), post, acc);
  }

  lemma {:induction false} SubRoundTrip(o: ByteOrder, name: bytes, t: Tree, post: bytes, acc: seq<Item>)
    requires Covered(name) && |name| + 1 < MAX_INT16 && t.IsList() && Readable(o, t)
    ensures Parse(Config(Native, o), ListPair(o, name) + EncodeList(o, t).data + post, acc)
         == Parse(Config(Native, o), post, acc + [Item(ReadName(name), Sub(ProjectList(t)))])
    decreases t, 1
  {
    ListEncodes(o, t);
    RootRoundTrip(o, t, post);
    ListEntry(o, name, EncodeList(o, t).data, ProjectList(t).items, post, acc);
  }

  /** A readable list is written without error and parses back to its items, leaving exactly post. */
  lemma {:induction false} EntriesRoundTrip(o: ByteOrder, es: seq<Entry>, post: bytes, acc: seq<Item>)
    requires EntriesFramed(true, es) && EntriesFit(o, es) && EntriesNils(es) == 0
    ensures Parse(Config(Native, o), EncodeEntries(o, es).data + post, acc) == Parsed(acc + Project(es), post)
    decreases es
  {
    if es == [] {
      TrailerRoundTrip(o, post, acc);
      assert acc + Project(es) == acc;
    } else {
      EntriesFirst(true, es);
      EntriesEncode(o, es[1..]);
      var e, rest := es[0], EncodeEntries(o, es[1..]).data;
      if NotWritten(e) {
        EntriesRoundTrip(o, es[1..], post, acc);
        EncodeUnwritten(o, es);
      } else {
        var item := ProjectEntry(e);
        EntriesRoundTrip(o, es[1..], post, acc + [item]);
        assert (rest + post)[0] == rest[0];
        EntryRoundTrip(o, e, rest + post, acc);
        EntryEncodes(o, e);
        EncodeWritten(o, es);
        Assoc(EncodeEntry(o, e).data, rest, post);
        Assoc(acc, [item], Project(es[1..]));
      }
    }
  }

  lemma {:induction false} ListsRoundTrip(o: ByteOrder, ts: seq<Tree>, post: bytes, acc: seq<Block>)
    requires (forall i :: 0 <= i < |ts| ==> ListFramed(true, ts[i]) && ListFits(o, ts[i])) && ListsNils(ts) == 0
    ensures ParseAll(Config(Native, o), EncodeLists(o, ts).data + post, |ts|, acc) == ParsedAll(acc + ProjectAll(ts), post)
    decreases ts
  {
    if ts == [] {
      assert [] + post == post;
      assert ParseAll(Config(Native, o), post, 0, acc) == ParsedAll(acc, post);
      assert acc + ProjectAll(ts) == acc;
    } else {
      var first, rest := EncodeList(o, ts[0]).data, EncodeLists(o, ts[1..]).data;
      var block := ProjectList(ts[0]);
      ListEncodes(o, ts[0]);
      RootRoundTrip(o, ts[0], rest + post);
      ListsRoundTrip(o, ts[1..], post, acc + [block]);
      Assoc(first, rest, post);
      AllStep(Config(Native, o), first + (rest + post), |ts|, acc, block.items, rest + post);
      Assoc(acc, [block], ProjectAll(ts[1..]));
    }
  }

  /** A whole list, followed by anything. */
  lemma {:induction false} RootRoundTrip(o: ByteOrder, t: Tree, post: bytes)
    requires Readable(o, t)
    ensures EncodeList(o, t).ok && |EncodeList(o, t).data| >= 4
    ensures Parse(Config(Native, o), EncodeList(o, t).data + post, []) == Parsed(ProjectList(t).items, post)
    decreases t, 0
  {
    ListEncodes(o, t);
    var es := t.Entries();
    EntriesRoundTrip(o, es, post, []);
    assert [] + Project(es) == Project(es);
  }
}
