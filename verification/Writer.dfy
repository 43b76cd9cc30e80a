/**
 The back-patching encoder as it runs (nvlist/encoder.go): one growing buffer,
 pair headers reserved first and overwritten in place at the end of the pair.
 It is proved to append exactly the bytes of the pure encoder on every tree,
 and neither panic of endNvPair can be reached.
 */
module Writer {
  import opened Bytes
  import opened Consts
  import opened Values
  import opened Encoder
  import opened Domain

  /** The fields of an nvpair header except its size. */
  datatype NvPair = NvPair(nameSize: int, elems: int, code: nat)

  class NvlistWriter {
    var nvlist: bytes
    var nvpairStartByte: nat
    var modeWriteFromStartByte: bool
    const order: ByteOrder

    /** The code always takes LittleEndian. */
    constructor (o: ByteOrder)
      ensures nvlist == [] && nvpairStartByte == 0 && !modeWriteFromStartByte && order == o
    {
      nvlist, nvpairStartByte, modeWriteFromStartByte, order := [], 0, false, o;
    }

    method WriteByte(c: byte)
      modifies this`nvlist
      ensures nvlist == old(nvlist) + [c]
    {
      nvlist := nvlist + [c];
    }

    method SkipN(n: nat)
      modifies this`nvlist
      ensures nvlist == old(nvlist) + Zeros(n)
    {
      for i := 0 to n
        invariant nvlist == old(nvlist) + Zeros(i)
      {
        nvlist := nvlist + [0];
      }
    }

    method SkipToAlign()
      requires nvpairStartByte <= |nvlist|
      modifies this`nvlist
      ensures nvlist == old(nvlist) + Zeros(AlignUp(|old(nvlist)| - nvpairStartByte, 8) - (|old(nvlist)| - nvpairStartByte))
    {
      AlignUpMod(|nvlist| - nvpairStartByte, 8);
      var padSize := 0;
      if (|nvlist| - nvpairStartByte) % 8 != 0 {
        padSize := 8 - (|nvlist| - nvpairStartByte) % 8;
      }
      for i := 0 to padSize
        invariant nvlist == old(nvlist) + Zeros(i)
      {
        WriteByte(0);
      }
    }

    /** Appends, or in back-patch mode overwrites from nvpairStartByte and moves it on. */
    method Write(buf: bytes)
      requires modeWriteFromStartByte ==> nvpairStartByte + |buf| <= |nvlist|
      modifies this`nvlist, this`nvpairStartByte
      ensures !modeWriteFromStartByte ==> nvlist == old(nvlist) + buf && nvpairStartByte == old(nvpairStartByte)
      ensures modeWriteFromStartByte ==>
        && nvlist == Patched(old(nvlist), old(nvpairStartByte), buf)
        && nvpairStartByte == old(nvpairStartByte) + |buf|
    {
      if modeWriteFromStartByte {
        var i := 0;
        while i < |buf|
          invariant 0 <= i <= |buf| && nvpairStartByte == old(nvpairStartByte)
          invariant nvlist == Patched(old(nvlist), nvpairStartByte, buf[..i])
        {
          PatchedStep(old(nvlist), nvpairStartByte, buf, i);
          nvlist := nvlist[nvpairStartByte + i := buf[i]];
          i := i + 1;
        }
        assert buf[..i] == buf;
        nvpairStartByte := nvpairStartByte + |buf|;
      } else {
        var i := 0;
        while i < |buf|
          invariant 0 <= i <= |buf| && nvpairStartByte == old(nvpairStartByte)
          invariant nvlist == old(nvlist) + buf[..i]
        {
          nvlist := nvlist + [buf[i]];
          i := i + 1;
        }
        assert buf[..i] == buf;
      }
    }

    method WriteInt(n: int, w: nat)
      requires modeWriteFromStartByte ==> nvpairStartByte + w <= |nvlist|
      modifies this`nvlist, this`nvpairStartByte
      ensures !modeWriteFromStartByte ==> nvlist == old(nvlist) + PutInt(order, n, w) && nvpairStartByte == old(nvpairStartByte)
      ensures modeWriteFromStartByte ==>
        && nvlist == Patched(old(nvlist), old(nvpairStartByte), PutInt(order, n, w))
        && nvpairStartByte == old(nvpairStartByte) + w
    {
      Write(PutInt(order, n, w));
    }

    /** Stops with an error at a NUL, having written what came before it. */
    method WriteString(str: bytes) returns (ok: bool)
      modifies this`nvlist
      ensures nvlist == old(nvlist) + CString(str)
      ensures ok == NulFree(str)
    {
      var i := 0;
      while i < |str|
        invariant 0 <= i <= |str|
        invariant forall j :: 0 <= j < i ==> str[j] != 0
        invariant nvlist == old(nvlist) + str[..i]
      {
        if str[i] == 0 {
          assert IsIndexOf(str, 0, i);
          return false;
        }
        nvlist := nvlist + [str[i]];
        i := i + 1;
      }
      assert str[..i] == str;
      nvlist := nvlist + [0];
      return true;
    }

    method WriteNvHeader()
      requires nvlist == [] && !modeWriteFromStartByte
      modifies this`nvlist, this`nvpairStartByte
      ensures nvlist == BufferHeader(order) && nvpairStartByte == old(nvpairStartByte)
    {
      WriteByte(0);
      WriteByte(OrderFlag(order));
      SkipN(2);
      WriteInt(0, 4);
      WriteInt(UNIQUE_NAME_FLAG, 4);
      assert nvlist == BufferHeader(order);
    }

    method StartNvPair()
      modifies this`nvlist, this`nvpairStartByte
      ensures nvlist == old(nvlist) + Zeros(16) && nvpairStartByte == |old(nvlist)|
    {
      nvpairStartByte := |nvlist|;
      for i := 0 to PAIR_HEADER_SIZE
        invariant nvlist == old(nvlist) + Zeros(i) && nvpairStartByte == |old(nvlist)|
      {
        nvlist := nvlist + [0];
      }
    }

    /**
     Pads the pair and back-patches its header. The preconditions are the two
     panics; only the 16 reserved bytes of the open pair change.
     */
    method EndNvPair(nvp: NvPair)
      requires nvp.code != TYPE_UNKNOWN
      requires nvpairStartByte != 0
      requires !modeWriteFromStartByte && nvpairStartByte + 16 <= |nvlist|
      modifies this
      ensures var start := old(nvpairStartByte);
        var body := Pad8(old(nvlist)[start + 16..]);
        && nvlist == old(nvlist)[..start] + PairHeader(order, 16 + |body|, nvp.nameSize, nvp.elems, nvp.code) + body
      ensures nvpairStartByte == 0 && !modeWriteFromStartByte
    {
      ghost var start, before := nvpairStartByte, nvlist;
      SkipToAlign();
      var size := |nvlist| - nvpairStartByte;
      ghost var padded := nvlist;
      EndLayout(before, start, padded, PairHeader(order, size, nvp.nameSize, nvp.elems, nvp.code));
      assert size == 16 + |Pad8(before[start + 16..])|;
      modeWriteFromStartByte := true;
      WriteFields(size, nvp);
      modeWriteFromStartByte := false;
      nvpairStartByte := 0;
    }

    /** Overwrites the 16 reserved bytes, field by field. */
    method WriteFields(size: int, nvp: NvPair)
      requires modeWriteFromStartByte && nvpairStartByte + 16 <= |nvlist|
      modifies this`nvlist, this`nvpairStartByte
      ensures nvlist == Patched(old(nvlist), old(nvpairStartByte), PairHeader(order, size, nvp.nameSize, nvp.elems, nvp.code))
    {
      WriteInt(size, 4);
      WriteInt(nvp.nameSize, 2);
      WriteInt(0, 2);
      WriteInt(nvp.elems, 4);
      WriteInt(nvp.code, 4);
      PatchFields(old(nvlist), old(nvpairStartByte), PutInt(order, size, 4), PutInt(order, nvp.nameSize, 2),
                  PutInt(order, 0, 2), PutInt(order, nvp.elems, 4), PutInt(order, nvp.code, 4));
    }

    method WriteNvlistHeader()
      requires !modeWriteFromStartByte
      modifies this`nvlist, this`nvpairStartByte
      ensures nvlist == old(nvlist) + ListHeader(order) && nvpairStartByte == old(nvpairStartByte)
    {
      WriteInt(0, 4);
      WriteInt(UNIQUE_NAME_FLAG, 4);
      WriteInt(0, 8);
      WriteInt(0, 4);
      WriteInt(0, 4);
      AppendFields(old(nvlist), PutInt(order, 0, 4), PutInt(order, UNIQUE_NAME_FLAG, 4), PutInt(order, 0, 8),
                   PutInt(order, 0, 4), PutInt(order, 0, 4));
    }

    // ---- Pairs ----

    /** Reserves a header and writes the name. */
    method Open(name: bytes)
      requires !modeWriteFromStartByte
      modifies this`nvlist, this`nvpairStartByte
      ensures nvlist == old(nvlist) + OpenPair(name) && nvpairStartByte == |old(nvlist)|
    {
      StartNvPair();
      ghost var reserved := nvlist;
      var _ := WriteString(name);
      SkipToAlign();
      OpenLayout(old(nvlist), name, nvlist);
    }

    /** Ends the pair opened at the end of base, whose value has been written behind its name. */
    method Close(name: bytes, elems: nat, code: nat, ghost base: bytes, ghost value: bytes)
      requires !modeWriteFromStartByte && code != TYPE_UNKNOWN && base != []
      requires nvpairStartByte == |base| && nvlist == base + OpenPair(name) + value
      modifies this
      ensures nvlist == base + PairBytes(order, name, elems, code, value)
      ensures nvpairStartByte == 0 && !modeWriteFromStartByte
    {
      ClosedLayout(order, base, name, elems, code, value, nvlist);
      EndNvPair(NvPair(|name| + 1, elems, code));
    }

    /** The value of a pair without nested lists. */
    method WriteLeaf(l: Leaf)
      requires !modeWriteFromStartByte
      modifies this`nvlist, this`nvpairStartByte
      ensures nvlist == old(nvlist) + LeafBytes(order, l) && nvpairStartByte == old(nvpairStartByte)
    {
      match l {
        case Bool(_) =>
        case Int(k, n) => WriteInt(n, k.Width());
        case Str(str) => var _ := WriteString(str);
        case IntArray(k, ns) => WriteInts(ns, k.Width());
        case BoolArray(bs) => WriteInts(BoolInts(bs), 4);
        case StrArray(ss) =>
          SkipN(8 * |ss|);
          WriteStrings(ss);
          Assoc(old(nvlist), Zeros(8 * |ss|), CStrings(ss));
      }
    }

    method WriteInts(ns: seq<int>, w: nat)
      requires !modeWriteFromStartByte
      modifies this`nvlist, this`nvpairStartByte
      ensures nvlist == old(nvlist) + PutInts(order, ns, w) && nvpairStartByte == old(nvpairStartByte)
    {
      for j := 0 to |ns|
        invariant nvpairStartByte == old(nvpairStartByte)
        invariant nvlist + PutInts(order, ns[j..], w) == old(nvlist) + PutInts(order, ns, w)
      {
        assert ns[j..][1..] == ns[j + 1..];
        Assoc(nvlist, PutInt(order, ns[j], w), PutInts(order, ns[j + 1..], w));
        WriteInt(ns[j], w);
      }
      assert nvlist + [] == nvlist;
    }

    method WriteStrings(ss: seq<bytes>)
      requires !modeWriteFromStartByte
      modifies this`nvlist
      ensures nvlist == old(nvlist) + CStrings(ss)
    {
      for j := 0 to |ss|
        invariant nvlist + CStrings(ss[j..]) == old(nvlist) + CStrings(ss)
      {
        assert ss[j..][1..] == ss[j + 1..];
        Assoc(nvlist, CString(ss[j]), CStrings(ss[j + 1..]));
        var _ := WriteString(ss[j]);
      }
      assert nvlist + [] == nvlist;
    }

    method WriteListHeaders(n: nat)
      requires !modeWriteFromStartByte
      modifies this`nvlist, this`nvpairStartByte
      ensures nvlist == old(nvlist) + ListHeaders(order, n) && nvpairStartByte == old(nvpairStartByte)
    {
      assert ListHeaders(order, 0) == [] && old(nvlist) + [] == old(nvlist);
      for j := 0 to n
        invariant nvpairStartByte == old(nvpairStartByte)
        invariant nvlist == old(nvlist) + ListHeaders(order, j)
      {
        assert ListHeaders(order, j + 1) == ListHeaders(order, j) + ListHeader(order);
        Assoc(old(nvlist), ListHeaders(order, j), ListHeader(order));
        WriteNvlistHeader();
      }
    }

    // ---- Lists ----

    /**
     Appends a list exactly as the pure encoder does. A caller that says clean
     owes that no pair is open; every caller does, except for a list array with
     an earlier element outside the domain. On trees of the domain no pair is
     left open either.
     */
    method WriteNvPairs(t: Tree, ghost clean: bool) returns (ok: bool)
      requires !modeWriteFromStartByte && nvlist != []
      requires clean ==> nvpairStartByte == 0
      modifies this
      ensures !modeWriteFromStartByte
      ensures nvlist == old(nvlist) + EncodeList(order, t).data && ok == EncodeList(order, t).ok
      ensures clean && RootOk(t) ==> nvpairStartByte == 0
      decreases t, 0
    {
      assert nvlist + [] == nvlist;
      if t.Nil? {
        return true;
      }
      if !t.IsList() {
        return false;
      }
      ok := WriteEntries(t.entries, clean);
    }

    method WriteEntries(es: seq<Entry>, ghost clean: bool) returns (ok: bool)
      requires !modeWriteFromStartByte && nvlist != []
      requires clean ==> nvpairStartByte == 0
      modifies this
      ensures !modeWriteFromStartByte
      ensures nvlist == old(nvlist) + EncodeEntries(order, es).data && ok == EncodeEntries(order, es).ok
      ensures clean && EntriesOk(es) ==> nvpairStartByte == 0
      decreases es
    {
      assert es[0..] == es;
      for i := 0 to |es|
        invariant !modeWriteFromStartByte && nvlist != []
        invariant nvlist + EncodeEntries(order, es[i..]).data == old(nvlist) + EncodeEntries(order, es).data
        invariant EncodeEntries(order, es[i..]).ok == EncodeEntries(order, es).ok
        invariant clean && EntriesOk(es) ==> nvpairStartByte == 0
      {
        assert es[i..][0] == es[i] && es[i..][1..] == es[i + 1..];
        assert nvlist + [] == nvlist;
        if !Dropped(es[i]) {
          if |EntryName(es[i])| + 1 >= MAX_INT16 {
            return false;
          }
          ghost var p := EncodeEntry(order, es[i]);
          Assoc(nvlist, p.data, EncodeEntries(order, es[i + 1..]).data);
          var flow := WriteEntry(es[i]);
          if flow != Continue {
            return flow == ReturnOk;
          }
        }
      }
      SkipN(4);
      return true;
    }

    /** One pass of the pair loop. */
    method WriteEntry(e: Entry) returns (flow: Flow)
      requires !modeWriteFromStartByte && nvlist != []
      modifies this
      ensures !modeWriteFromStartByte && nvlist != []
      ensures nvlist == old(nvlist) + EncodeEntry(order, e).data && flow == EncodeEntry(order, e).flow
      ensures EntryOk(e) && !Dropped(e) && old(nvpairStartByte) == 0 ==> nvpairStartByte == 0
      decreases e
    {
      var name := EntryName(e);
      if e.value == Tree.Prim(Bool(false)) {
        assert nvlist + [] == nvlist;
        return Continue;
      }
      ghost var base := nvlist;
      assert EntryOk(e) && !Dropped(e) ==> TreeOk(name, e.value);
      Open(name);
      match e.value {
        case Prim(l) =>
          if LeafElems(l) >= MAX_INT32 {
            return ReturnErr;
          }
          WriteLeaf(l);
          Close(name, LeafElems(l), LeafCode(l), base, LeafBytes(order, l));
          return Continue;
        case Float64(bits) =>
          WriteInt(bits, 8);
          Close(name, 1, TYPE_DOUBLE, base, PutInt(order, bits, 8));
          return Continue;
        case Map(_) => flow := WriteSub(name, e.value, base);
        case Struct(_) => flow := WriteSub(name, e.value, base);
        case Lists(ts) => flow := WriteSubs(name, ts, base);
        case Nil => return ReturnErr;
        case Unsupported(_) => return ReturnErr;
      }
    }

    /** Ends the announcing pair, so that none is open, then writes the nested list behind it. */
    method WriteSub(name: bytes, t: Tree, ghost base: bytes) returns (flow: Flow)
      requires !modeWriteFromStartByte && base != []
      requires nvpairStartByte == |base| && nvlist == base + OpenPair(name)
      modifies this
      ensures !modeWriteFromStartByte && nvlist != []
      ensures nvlist == base + (ListPair(order, name) + EncodeList(order, t).data)
      ensures flow == if EncodeList(order, t).ok then Continue else ReturnOk
      ensures RootOk(t) ==> nvpairStartByte == 0
      decreases t, 1
    {
      WriteNvlistHeader();
      Close(name, 1, TYPE_NVLIST, base, ListHeader(order));
      Assoc(base, ListPair(order, name), EncodeList(order, t).data);
      var ok := WriteNvPairs(t, true);
      return if ok then Continue else ReturnOk;
    }

    method WriteSubs(name: bytes, ts: seq<Tree>, ghost base: bytes) returns (flow: Flow)
      requires !modeWriteFromStartByte && base != []
      requires nvpairStartByte == |base| && nvlist == base + OpenPair(name)
      modifies this
      ensures !modeWriteFromStartByte && nvlist != []
      ensures |ts| >= MAX_INT32 ==> nvlist == base + OpenPair(name) && flow == ReturnErr
      ensures |ts| < MAX_INT32 ==>
        && nvlist == base + (ListsPair(order, name, |ts|) + EncodeLists(order, ts).data)
        && flow == (if EncodeLists(order, ts).ok then Continue else ReturnErr)
      ensures |ts| <= MAX_ELEMS && AllRootOk(ts) ==> nvpairStartByte == 0
      decreases ts, 1
    {
      if |ts| >= MAX_INT32 {
        return ReturnErr;
      }
      SkipN(8 * |ts|);
      WriteListHeaders(|ts|);
      Assoc(base + OpenPair(name), Zeros(8 * |ts|), ListHeaders(order, |ts|));
      Close(name, |ts|, TYPE_NVLIST_ARRAY, base, Zeros(8 * |ts|) + ListHeaders(order, |ts|));
      Assoc(base, ListsPair(order, name, |ts|), EncodeLists(order, ts).data);
      var ok := WriteLists(ts);
      return if ok then Continue else ReturnErr;
    }

    /** Starts with no pair open; none is open before an element unless an earlier one is outside the domain. */
    method WriteLists(ts: seq<Tree>) returns (ok: bool)
      requires !modeWriteFromStartByte && nvlist != [] && nvpairStartByte == 0
      modifies this
      ensures !modeWriteFromStartByte && nvlist != []
      ensures nvlist == old(nvlist) + EncodeLists(order, ts).data && ok == EncodeLists(order, ts).ok
      ensures AllRootOk(ts) ==> nvpairStartByte == 0
      decreases ts, 0
    {
      assert ts[0..] == ts;
      for j := 0 to |ts|
        invariant !modeWriteFromStartByte && nvlist != []
        invariant nvlist + EncodeLists(order, ts[j..]).data == old(nvlist) + EncodeLists(order, ts).data
        invariant EncodeLists(order, ts[j..]).ok == EncodeLists(order, ts).ok
        invariant AllRootOk(ts[..j]) ==> nvpairStartByte == 0
      {
        assert ts[j..][0] == ts[j] && ts[j..][1..] == ts[j + 1..];
        Assoc(nvlist, EncodeList(order, ts[j]).data, EncodeLists(order, ts[j + 1..]).data);
        var sub := WriteNvPairs(ts[j], AllRootOk(ts[..j]));
        assert ts[..j + 1] == ts[..j] + [ts[j]];
        if !sub {
          return false;
        }
      }
      assert nvlist + [] == nvlist && ts[..|ts|] == ts;
      return true;
    }
  }

  ghost predicate AllRootOk(ts: seq<Tree>) {
    forall i :: 0 <= i < |ts| ==> RootOk(ts[i])
  }

  /** Marshal computes exactly what the specification says. */
  method MarshalTree(o: ByteOrder, t: Tree) returns (r: Result<bytes>)
    ensures r == Marshal(o, t)
  {
    var writer := new NvlistWriter(o);
    writer.WriteNvHeader();
    var ok := writer.WriteNvPairs(t, true);
    return if ok then Ok(writer.nvlist) else Err(InvalidValue);
  }

  // ---- Layout ----

  lemma AppendFields(s: bytes, a: bytes, b: bytes, c: bytes, d: bytes, e: bytes)
    ensures s + a + b + c + d + e == s + (a + b + c + d + e)
  {}

  lemma OpenLayout(base: bytes, name: bytes, now: bytes)
    requires var s := base + Zeros(16) + CString(name);
      now == s + Zeros(AlignUp(|s| - |base|, 8) - (|s| - |base|))
    ensures now == base + OpenPair(name)
  {
    var str := CString(name);
    AlignBehindHeader(|str|);
    var pad := Zeros(AlignUp(|str|, 8) - |str|);
    Assoc(base, Zeros(16), str);
    Assoc(base, Zeros(16) + str, pad);
    Assoc(Zeros(16), str, pad);
  }

  lemma CloseLayout(base: bytes, name: bytes, value: bytes, now: bytes)
    requires now == base + OpenPair(name) + value
    ensures now[..|base|] == base && now[|base| + 16..] == Pad8(CString(name)) + value
  {}

  lemma ClosedLayout(o: ByteOrder, base: bytes, name: bytes, elems: nat, code: nat, value: bytes, now: bytes)
    requires now == base + OpenPair(name) + value
    ensures |base| + 16 <= |now|
    ensures var body := Pad8(now[|base| + 16..]);
      now[..|base|] + PairHeader(o, 16 + |body|, |name| + 1, elems, code) + body
        == base + PairBytes(o, name, elems, code, value)
  {
    CloseLayout(base, name, value, now);
    var body := PairBody(name, value);
    Assoc(base, PairHeader(o, 16 + |body|, |name| + 1, elems, code), body);
  }

  // ---- Back-patching ----

  /** s with the bytes from at on overwritten by buf. */
  function Patched(s: bytes, at: nat, buf: bytes): (r: bytes)
    requires at + |buf| <= |s|
    ensures |r| == |s|
  {
    s[..at] + buf + s[at + |buf|..]
  }

  lemma PatchedStep(s: bytes, at: nat, buf: bytes, i: nat)
    requires at + |buf| <= |s| && i < |buf|
    ensures Patched(s, at, buf[..i])[at + i := buf[i]] == Patched(s, at, buf[..i + 1])
  {
    assert buf[..i + 1] == buf[..i] + [buf[i]];
  }

  lemma PatchTwice(s: bytes, at: nat, a: bytes, b: bytes)
    requires at + |a| + |b| <= |s|
    ensures Patched(Patched(s, at, a), at + |a|, b) == Patched(s, at, a + b)
  {}

  lemma PatchFields(s: bytes, at: nat, a: bytes, b: bytes, c: bytes, d: bytes, e: bytes)
    requires at + |a| + |b| + |c| + |d| + |e| <= |s|
    ensures Patched(Patched(Patched(Patched(Patched(s, at, a), at + |a|, b), at + |a| + |b|, c),
                            at + |a| + |b| + |c|, d), at + |a| + |b| + |c| + |d|, e)
         == Patched(s, at, a + b + c + d + e)
  {
    PatchTwice(s, at, a, b);
    PatchTwice(s, at, a + b, c);
    PatchTwice(s, at, a + b + c, d);
    PatchTwice(s, at, a + b + c + d, e);
  }

  /** Aligning the whole pair is aligning what follows its header. */
  lemma PadOpenPair(s: bytes, start: nat, padded: bytes)
    requires start + 16 <= |s|
    requires padded == s + Zeros(AlignUp(|s| - start, 8) - (|s| - start))
    ensures padded[start + 16..] == Pad8(s[start + 16..]) && padded[..start] == s[..start]
  {
    AlignBehindHeader(|s| - start - 16);
  }

  lemma EndLayout(s: bytes, start: nat, padded: bytes, header: bytes)
    requires start + 16 <= |s| && |header| == 16
    requires padded == s + Zeros(AlignUp(|s| - start, 8) - (|s| - start))
    ensures |padded| == start + 16 + |Pad8(s[start + 16..])|
    ensures Patched(padded, start, header) == s[..start] + header + Pad8(s[start + 16..])
  {
    PadOpenPair(s, start, padded);
  }
}
