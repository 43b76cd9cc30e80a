/**
 The two-cursor decoder as it runs (nvlist/decode.go), proved to compute what
 the pure decoder specifies, with every index inside the buffer and every loop
 and recursion terminating, for arbitrary input bytes and both encodings.
 */
module Reader {
  import opened Bytes
  import opened Consts
  import opened Values
  import opened Decoder
  import opened Meaning

  /** The list reader: one cursor over the whole buffer. */
  class NvlistReader {
    const nvlist: bytes
    var currentByte: int
    var order: ByteOrder
    var encoding: Encoding
    var version: int
    var flags: int

    constructor (data: bytes)
      ensures nvlist == data && currentByte == 0
    {
      nvlist := data;
      currentByte := 0;
      order, encoding, version, flags := BigEndian, Native, 0, 0;
    }

    ghost predicate Valid()
      reads this
    {
      0 <= currentByte <= |nvlist|
    }

    /** The bytes from the cursor on. */
    ghost function Ahead(): bytes
      requires Valid()
      reads this
    {
      nvlist[currentByte..]
    }

    function Cfg(): Config
      reads this
    {
      Config(encoding, order)
    }

    method ReadByte() returns (r: Result<byte>)
      requires 0 <= currentByte
      modifies this`currentByte
      ensures old(currentByte) < |nvlist| ==> r == Ok(nvlist[old(currentByte)]) && currentByte == old(currentByte) + 1
      ensures old(currentByte) >= |nvlist| ==> r == Err(InvalidData) && currentByte == old(currentByte)
    {
      if currentByte < |nvlist| {
        var val := nvlist[currentByte];
        currentByte := currentByte + 1;
        return Ok(val);
      }
      return Err(InvalidData);
    }

    /** A read that ends at the last byte already reports end of file; n is negative behind it. */
    method Read(p: array<byte>) returns (n: int, eof: bool)
      requires 0 <= currentByte
      modifies this`currentByte, p
      ensures eof == (old(currentByte) + p.Length >= |nvlist|)
      ensures n == if eof then |nvlist| - old(currentByte) else p.Length
      ensures currentByte == old(currentByte) + n
      ensures 0 <= n ==> p[..n] == nvlist[old(currentByte)..old(currentByte) + n]
    {
      if currentByte + p.Length < |nvlist| {
        n, eof := p.Length, false;
      } else {
        n, eof := |nvlist| - currentByte, true;
      }
      var i := 0;
      while i < n
        invariant 0 <= i && (i <= n || i == 0) && currentByte == old(currentByte)
        invariant forall j :: 0 <= j < i ==> p[j] == nvlist[currentByte + j]
      {
        p[i] := nvlist[currentByte + i];
        i := i + 1;
      }
      currentByte := currentByte + n;
    }

    /** binary.Read of one integer through io.ReadFull. */
    method ReadInt(signed: bool, w: nat) returns (r: Result<int>)
      requires 0 <= currentByte && w > 0
      modifies this`currentByte
      ensures old(currentByte) + w <= |nvlist| ==>
        && r == Ok(IntAt(order, signed, nvlist, old(currentByte), w))
        && currentByte == old(currentByte) + w
      ensures old(currentByte) + w > |nvlist| ==> r == Err(ShortRead(|nvlist|, old(currentByte)))
    {
      var p := new byte[w];
      var n, eof := Read(p);
      if n < w {
        return Err(if n > 0 then UnexpectedEof else Eof);
      }
      assert p[..w] == p[..];
      GetIntComputes(order, signed, p[..]);
      return Ok(IntFromBytes(order, signed, p[..]));
    }

    method SkipN(n: int)
      modifies this`currentByte
      ensures currentByte == old(currentByte) + n
    {
      currentByte := currentByte + n;
    }

    method ReadNvHeader() returns (r: Result<()>)
      requires currentByte == 0
      modifies this
      ensures r.Ok? <==> ReadHeader(nvlist).Ok?
      ensures r.Ok? ==> Cfg() == ReadHeader(nvlist).value && currentByte == 12
      ensures r.Err? ==> r.error == ReadHeader(nvlist).error
    {
      var enc := ReadByte();
      if enc.Err? {
        return Err(enc.error);
      }
      match enc.value {
        case 0 => encoding := Native;
        case 1 => encoding := Xdr;
        case _ => return Err(InvalidEncoding);
      }
      var endian := ReadByte();
      if endian.Err? {
        return Err(endian.error);
      }
      match endian.value {
        case 0 => order := BigEndian;
        case 1 => order := LittleEndian;
        case _ => return Err(InvalidEndianess);
      }
      SkipN(2);
      var ver := ReadInt(true, 4);
      if ver.Err? {
        return Err(ver.error);
      }
      version := ver.value;
      var fl := ReadInt(false, 4);
      if fl.Err? {
        return Err(fl.error);
      }
      flags := fl.value;
      return Ok(());
    }

    /** Reads the size word and moves past the pair; the pair reader stays behind at its header. */
    method NextPair() returns (p: NvPairReader, r: HeadResult)
      requires Valid()
      modifies this`currentByte
      ensures r == ReadHead(Cfg(), old(Ahead()))
      ensures r.End? ==> Valid() && currentByte == old(currentByte) + 4
      ensures r.Pair? ==>
        && fresh(p) && p.list == this && p.Valid() && p.startByte == old(currentByte)
        && p.Data() == old(Ahead()) && p.sizeBytes == r.head.size && p.Off() == r.head.off
        && Valid() && currentByte == old(currentByte) + r.head.size + Cfg().ExtraSkip()
    {
      p := new NvPairReader(this);
      ghost var s := Ahead();
      assert |s| == |nvlist| - currentByte;
      assert |s| >= 4 ==> s[0..4] == nvlist[currentByte..currentByte + 4];
      var size := ReadInt(true, 4);
      if size.Err? {
        return p, BadHead(size.error);
      }
      PowValues();
      if size.value < 0 {
        return p, BadHead(InvalidData);
      }
      if size.value == 0 {
        return p, End;
      }
      if size.value + currentByte > |nvlist| {
        return p, BadHead(InvalidData);
      }
      p.sizeBytes := size.value;
      SkipN(size.value - 4);
      if encoding.Xdr? {
        SkipN(4);
      }
      r := p.ReadRest();
    }

    /** The pair loop: decodes one list into a map and leaves the cursor behind its trailer. */
    method ReadPairs() returns (r: Result<map<bytes, Value>>)
      requires Valid()
      modifies this`currentByte
      ensures var p := Parse(Cfg(), old(Ahead()), []);
        && (p.BadList? ==> r == Err(p.error))
        && (p.Parsed? ==> r == Ok(Build(map[], p.items)) && Valid() && Ahead() == p.rest)
      decreases |nvlist| - currentByte, 0
    {
      var m: map<bytes, Value> := map[];
      ghost var done: seq<Item> := [];
      while true
        invariant Valid() && old(currentByte) <= currentByte
        invariant m == Build(map[], done)
        invariant Parse(Cfg(), old(Ahead()), []) == Parse(Cfg(), Ahead(), done)
        decreases |nvlist| - currentByte
      {
        ghost var s := Ahead();
        var p, head := NextPair();
        match head {
          case BadHead(e) => return Err(e);
          case End => return Ok(m);
          case Pair(h) =>
            assert Ahead() == After(Cfg(), s, h);
            var added := SetPair(p, h, m, s);
            if added.Err? {
              return Err(added.error);
            }
            ghost var item := Item(h.name, ReadNode(Cfg(), s, h).node);
            BuildAppend(done, item);
            m, done := added.value, done + [item];
        }
      }
    }

    /** Decodes the value of one pair and sets it in the map; nested lists are read from the list cursor. */
    method SetPair(p: NvPairReader, h: Head, m: map<bytes, Value>, ghost s: bytes) returns (r: Result<map<bytes, Value>>)
      requires Valid() && p.list == this && p.Valid() && p.Data() == s
      requires HeadOk(s, h) && p.sizeBytes == h.size && p.Off() == h.off && Ahead() == After(Cfg(), s, h)
      modifies this`currentByte, p
      ensures var node := ReadNode(Cfg(), s, h);
        && (node.BadNode? ==> r == Err(node.error))
        && (node.GotNode? ==> r == Ok(AddItem(m, Item(h.name, node.node))) && Valid() && Ahead() == node.rest)
      decreases |nvlist| - currentByte, 2
    {
      if h.code == TYPE_NVLIST {
        var sub := ReadPairs();
        if sub.Err? {
          return Err(sub.error);
        }
        return Ok(m[h.name := Value.Map(sub.value)]);
      } else if h.code == TYPE_NVLIST_ARRAY {
        p.SkipN((8 + 8) * h.elems);
        var subs := ReadLists(h.elems);
        if subs.Err? {
          return Err(subs.error);
        }
        return Ok(m[h.name := Value.Lists(subs.value)]);
      } else {
        var v := p.ReadValueOf(h);
        match v {
          case BadValue(e) => return Err(e);
          case Got(node) =>
            if node.Single? {
              return Ok(m[h.name := Value.Prim(node.leaf)]);
            }
            return Ok(m);
        }
      }
    }

    /** n lists written one after the other. */
    method ReadLists(n: nat) returns (r: Result<seq<Value>>)
      requires Valid()
      modifies this`currentByte
      ensures var p := ParseAll(Cfg(), old(Ahead()), n, []);
        && (p.BadLists? ==> r == Err(p.error))
        && (p.ParsedAll? ==> r == Ok(BuildAll(p.blocks)) && Valid() && Ahead() == p.rest)
      decreases |nvlist| - currentByte, 1
    {
      var vals: seq<Value> := [];
      ghost var done: seq<Block> := [];
      ghost var s := Ahead();
      for i := 0 to n
        invariant Valid() && old(currentByte) <= currentByte && s == Ahead()
        invariant vals == BuildAll(done)
        invariant ParseAll(Cfg(), old(Ahead()), n, []) == ParseAll(Cfg(), s, n - i, done)
      {
        ghost var p := Parse(Cfg(), s, []);
        ListsStep(Cfg(), s, n - i, done);
        var list := ReadPairs();
        if list.Err? {
          return Err(list.error);
        }
        BlocksAppend(done, Block(p.items));
        vals, done, s := vals + [Value.Map(list.value)], done + [Block(p.items)], p.rest;
      }
      assert ParseAll(Cfg(), s, 0, done) == ParsedAll(done, s);
      return Ok(vals);
    }
  }

  // ---- Steps ----

  /** A scan of w that has not met a NUL in its first k bytes. */
  ghost predicate Scanned(w: bytes, k: nat) {
    k <= |w| && forall j :: 0 <= j < k ==> w[j] != 0
  }

  lemma ScanStep(data: bytes, start: nat, limit: nat, off: nat, k: nat)
    requires start + limit < |data| && off + k <= limit
    ensures var w := Window(data[start..], limit, off);
      && k < |w| && w[k] == data[start + off + k]
      && (Scanned(w, k) && w[k] != 0 ==> Scanned(w, k + 1))
  {}

  /** The scanned part of a window, with the NUL that ended the scan, and the window behind it. */
  lemma ScanFound(data: bytes, start: nat, limit: nat, off: nat, k: nat)
    requires start + limit < |data| && off + k <= limit
    requires var w := Window(data[start..], limit, off); Scanned(w, k) && w[k] == 0
    ensures var w := Window(data[start..], limit, off);
      ReadCString(w) == Ok((w[..k], Window(data[start..], limit, off + k + 1)))
      && data[start + off..start + off + k + 1] == w[..k] + [0]
  {
    var w := Window(data[start..], limit, off);
    SliceWithin(data, start, off, limit + 1);
    assert IsIndexOf(w, 0, k);
    assert w[k + 1..] == Window(data[start..], limit, off + k + 1);
  }

  lemma ScanMissed(data: bytes, start: nat, limit: nat, off: nat, k: nat)
    requires start + limit < |data| && off + k > limit
    requires Scanned(Window(data[start..], limit, off), k)
    ensures ReadCString(Window(data[start..], limit, off)) == Err(InvalidData)
  {
    var w := Window(data[start..], limit, off);
    assert IsIndexOf(w, 0, |w|);
  }

  lemma ListsStep(c: Config, s: bytes, n: nat, acc: seq<Block>)
    requires n > 0
    ensures var p := Parse(c, s, []);
      ParseAll(c, s, n, acc)
        == if p.BadList? then BadLists(p.error) else ParseAll(c, p.rest, n - 1, acc + [Block(p.items)])
  {}

  lemma BlocksAppend(bs: seq<Block>, b: Block)
    ensures BuildAll(bs + [b]) == BuildAll(bs) + [Value.Map(Build(map[], b.items))]
  {
    var all := bs + [b];
    assert all[..|all| - 1] == bs && all[|all| - 1] == b;
  }

  lemma StringsStep(w: bytes, n: nat, acc: seq<bytes>)
    requires n > 0
    ensures var c := ReadCString(w);
      ReadCStrings(w, n, acc) == if c.Err? then Err(c.error) else ReadCStrings(c.value.1, n - 1, acc + [c.value.0])
  {}

  /** One element is split off an integer array. */
  lemma IntsStep(order: ByteOrder, signed: bool, bs: bytes, w: nat, n: nat)
    requires n > 0 && |bs| == w * n
    ensures w <= |bs| && |bs[w..]| == w * (n - 1)
    ensures GetInts(order, signed, bs, w, n)
         == [IntFromBytes(order, signed, bs[..w])] + GetInts(order, signed, bs[w..], w, n - 1)
  {
    MulStep(w, n);
    GetIntComputes(order, signed, bs[..w]);
  }

  /** The pair reader: a second cursor, bounded by the pair it was made for. */
  class NvPairReader {
    const list: NvlistReader
    const startByte: int
    var sizeBytes: int
    var currentByte: int

    constructor (r: NvlistReader)
      ensures list == r && startByte == r.currentByte && currentByte == r.currentByte + 4 && sizeBytes == 0
    {
      list := r;
      startByte := r.currentByte;
      currentByte := r.currentByte + 4;
      sizeBytes := 0;
    }

    /** The size check leaves four bytes behind the pair, which keeps the inclusive reads in range. */
    ghost predicate Valid()
      reads this
    {
      && 0 <= startByte <= currentByte
      && 0 < sizeBytes
      && startByte + sizeBytes + 4 <= |list.nvlist|
    }

    /** The buffer from the first byte of the pair on. */
    ghost function Data(): bytes
      requires Valid()
      reads this
    {
      list.nvlist[startByte..]
    }

    ghost function Off(): nat
      requires Valid()
      reads this
    {
      currentByte - startByte
    }

    method ReadByte() returns (r: Result<byte>)
      requires Valid()
      modifies this`currentByte
      ensures Valid()
      ensures old(Off()) <= sizeBytes ==> r == Ok(Data()[old(Off())]) && Off() == old(Off()) + 1
      ensures old(Off()) > sizeBytes ==> r == Err(InvalidData)
    {
      if currentByte <= startByte + sizeBytes {
        var val := list.nvlist[currentByte];
        currentByte := currentByte + 1;
        return Ok(val);
      }
      return Err(InvalidData);
    }

    /** Scans to a NUL; the byte at startByte + sizeBytes may be it. The result keeps the NUL. */
    method ReadBytes() returns (r: Result<bytes>)
      requires Valid()
      modifies this`currentByte
      ensures Valid()
      ensures var c := ReadCString(Window(Data(), sizeBytes, old(Off())));
        && (c.Err? ==> r == Err(c.error))
        && (c.Ok? ==> r == Ok(c.value.0 + [0]) && c.value.1 == Window(Data(), sizeBytes, Off()))
    {
      var start := currentByte;
      ghost var off := Off();
      ghost var w := Window(Data(), sizeBytes, off);
      while currentByte <= startByte + sizeBytes
        invariant Valid() && start <= currentByte && Scanned(w, currentByte - start)
        decreases startByte + sizeBytes - currentByte
      {
        ScanStep(list.nvlist, startByte, sizeBytes, off, currentByte - start);
        if list.nvlist[currentByte] == 0 {
          var val := list.nvlist[start..currentByte + 1];
          ScanFound(list.nvlist, startByte, sizeBytes, off, currentByte - start);
          currentByte := currentByte + 1;
          return Ok(val);
        }
        currentByte := currentByte + 1;
      }
      ScanMissed(list.nvlist, startByte, sizeBytes, off, currentByte - start);
      return Err(InvalidData);
    }

    method ReadN(n: nat) returns (r: Result<bytes>)
      requires Valid()
      modifies this`currentByte
      ensures Valid() && r == Decoder.ReadN(Data(), sizeBytes, old(Off()), n)
      ensures r.Ok? ==> Off() == old(Off()) + n
    {
      if currentByte + n <= startByte + sizeBytes {
        var val := list.nvlist[currentByte..currentByte + n];
        SliceWithin(list.nvlist, startByte, currentByte - startByte, currentByte - startByte + n);
        currentByte := currentByte + n;
        return Ok(val);
      }
      return Err(InvalidData);
    }

    method Read(p: array<byte>) returns (n: int, eof: bool)
      requires Valid()
      modifies this`currentByte, p
      ensures eof == (old(Off()) + p.Length > sizeBytes)
      ensures n == if eof then sizeBytes - old(Off()) else p.Length
      ensures Valid() && Off() == old(Off()) + n
      ensures 0 <= n ==> p[..n] == Data()[old(Off())..old(Off()) + n]
    {
      if currentByte + p.Length <= startByte + sizeBytes {
        n, eof := p.Length, false;
      } else {
        n, eof := startByte + sizeBytes - currentByte, true;
      }
      var i := 0;
      while i < n
        invariant 0 <= i && (i <= n || i == 0) && currentByte == old(currentByte)
        invariant forall j :: 0 <= j < i ==> p[j] == list.nvlist[currentByte + j]
      {
        p[i] := list.nvlist[currentByte + i];
        i := i + 1;
      }
      currentByte := currentByte + n;
    }

    /** io.ReadFull: one Read settles it, since a short Read comes with an error. */
    method Fill(k: nat) returns (r: Result<bytes>)
      requires Valid()
      modifies this`currentByte
      ensures Valid() && r == ReadFull(Data(), sizeBytes, old(Off()), k)
      ensures r.Ok? ==> Off() == old(Off()) + k
    {
      if k == 0 {
        return Ok([]);
      }
      var p := new byte[k];
      var n, eof := Read(p);
      if n < k {
        return Err(if n > 0 then UnexpectedEof else Eof);
      }
      assert p[..k] == p[..];
      return Ok(p[..]);
    }

    method ReadInt(signed: bool, w: nat) returns (r: Result<int>)
      requires Valid()
      modifies this`currentByte
      ensures Valid() && r == Decoder.ReadInt(list.order, signed, Data(), sizeBytes, old(Off()), w)
      ensures r.Ok? ==> Off() == old(Off()) + w
    {
      var bs := Fill(w);
      if bs.Err? {
        return Err(bs.error);
      }
      GetIntComputes(list.order, signed, bs.value);
      return Ok(IntFromBytes(list.order, signed, bs.value));
    }

    method SkipToAlign()
      requires Valid()
      modifies this`currentByte
      ensures Valid() && Off() == AlignUp(old(Off()), list.Cfg().Alignment())
    {
      var alignment := if list.encoding.Native? then 8 else 4;
      AlignUpMod(currentByte - startByte, alignment);
      if (currentByte - startByte) % alignment != 0 {
        currentByte := currentByte + alignment - (currentByte - startByte) % alignment;
      }
    }

    method SkipN(n: nat)
      requires Valid()
      modifies this`currentByte
      ensures Valid() && Off() == old(Off()) + n
    {
      currentByte := currentByte + n;
    }

    /** Name size, reserved word, element count, type and name, then the skip to the value. */
    method ReadRest() returns (r: HeadResult)
      requires Valid() && Off() == 4
      modifies this`currentByte
      ensures Valid() && r == ReadPairHead(list.Cfg(), Data(), sizeBytes)
      ensures r.Pair? ==> Off() == r.head.off
    {
      PowValues();
      var nameSize := ReadInt(true, 2);
      if nameSize.Err? {
        return BadHead(nameSize.error);
      }
      if nameSize.value <= 0 {
        return BadHead(InvalidData);
      }
      var reserve := ReadInt(true, 2);
      if reserve.Err? {
        return BadHead(reserve.error);
      }
      var elems := ReadInt(true, 4);
      if elems.Err? {
        return BadHead(elems.error);
      }
      if elems.value < 0 || elems.value > MAX_ELEMS {
        return BadHead(InvalidData);
      }
      var code := ReadInt(false, 4);
      if code.Err? {
        return BadHead(code.error);
      }
      var raw := ReadN(nameSize.value);
      if raw.Err? {
        return BadHead(raw.error);
      }
      var name := raw.value[..|raw.value| - 1];
      SkipToAlign();
      return Pair(Head(sizeBytes, name, elems.value, code.value, currentByte - startByte));
    }

    method ReadInts(k: IntKind, n: nat) returns (r: Result<seq<int>>)
      requires Valid()
      modifies this`currentByte
      ensures Valid() && r == Decoder.ReadInts(list.order, k, Data(), sizeBytes, old(Off()), n)
    {
      var bs := Fill(k.Width() * n);
      if bs.Err? {
        return Err(bs.error);
      }
      var ns := DecodeInts(list.order, k, bs.value, n);
      return Ok(ns);
    }

    method ReadStrings(n: nat) returns (r: Result<seq<bytes>>)
      requires Valid()
      modifies this`currentByte
      ensures Valid() && r == ReadCStrings(Window(Data(), sizeBytes, old(Off())), n, [])
    {
      var val: seq<bytes> := [];
      ghost var w := Window(Data(), sizeBytes, Off());
      for i := 0 to n
        invariant Valid() && w == Window(Data(), sizeBytes, Off())
        invariant ReadCStrings(Window(Data(), sizeBytes, old(Off())), n, []) == ReadCStrings(w, n - i, val)
      {
        StringsStep(w, n - i, val);
        var data := ReadBytes();
        if data.Err? {
          return Err(data.error);
        }
        var str := data.value[..|data.value| - 1];
        assert str == ReadCString(w).value.0;
        val, w := val + [str], Window(Data(), sizeBytes, Off());
      }
      assert ReadCStrings(w, 0, val) == Ok(val);
      return Ok(val);
    }

    method ReadBool() returns (r: Result<bool>)
      requires Valid()
      modifies this`currentByte
      ensures Valid() && r == Decoder.ReadBool(list.order, Data(), sizeBytes, old(Off()))
      ensures r.Ok? ==> Off() == old(Off()) + 4
    {
      var tmp := ReadInt(true, 4);
      if tmp.Err? {
        return Err(tmp.error);
      }
      match tmp.value {
        case 0 => return Ok(false);
        case 1 => return Ok(true);
        case _ => return Err(InvalidData);
      }
    }

    method ReadBools(n: nat) returns (r: Result<seq<bool>>)
      requires Valid()
      modifies this`currentByte
      ensures Valid() && r == Decoder.ReadBools(list.order, Data(), sizeBytes, old(Off()), n, [])
    {
      var val: seq<bool> := [];
      for i := 0 to n
        invariant Valid()
        invariant Decoder.ReadBools(list.order, Data(), sizeBytes, old(Off()), n, [])
               == Decoder.ReadBools(list.order, Data(), sizeBytes, Off(), n - i, val)
      {
        var b := ReadBool();
        if b.Err? {
          return Err(b.error);
        }
        val := val + [b.value];
      }
      assert Decoder.ReadBools(list.order, Data(), sizeBytes, Off(), 0, val) == Ok(val);
      return Ok(val);
    }

    /** The type switch, for the types whose value lies inside the pair. */
    method ReadValueOf(h: Head) returns (r: ValueResult)
      requires Valid() && HeadOk(Data(), h) && sizeBytes == h.size && Off() == h.off
      modifies this`currentByte
      ensures Valid() && r == ReadValue(list.Cfg(), Data(), h)
    {
      var t := h.code;
      if t == TYPE_UNKNOWN {
        return BadValue(InvalidData);
      } else if t == TYPE_BOOLEAN {
        return Got(Single(Bool(true)));
      } else if KindOfScalar(t).Some? {
        r := ReadScalarOf(h, KindOfScalar(t).value);
      } else if KindOfArray(t).Some? {
        r := ReadArrayOf(h, KindOfArray(t).value);
      } else if t == TYPE_STRING {
        r := ReadStrOf(h);
      } else if t == TYPE_BOOLEAN_VALUE {
        var b := ReadBool();
        return if b.Err? then BadValue(b.error) else Got(Single(Bool(b.value)));
      } else if t == TYPE_STRING_ARRAY {
        r := ReadStrArrayOf(h);
      } else if t == TYPE_BOOLEAN_ARRAY {
        r := ReadBoolArrayOf(h);
      } else {
        return Got(Skipped);
      }
    }

    method ReadStrOf(h: Head) returns (r: ValueResult)
      requires Valid() && HeadOk(Data(), h) && sizeBytes == h.size && Off() == h.off
      modifies this`currentByte
      ensures Valid() && r == Wrap(ReadStr(Data(), h))
    {
      var str := ReadBytes();
      if str.Err? {
        return BadValue(str.error);
      }
      return Got(Single(Str(str.value[..|str.value| - 1])));
    }

    method ReadStrArrayOf(h: Head) returns (r: ValueResult)
      requires Valid() && HeadOk(Data(), h) && sizeBytes == h.size && Off() == h.off
      modifies this`currentByte
      ensures Valid() && r == Wrap(ReadStrArray(Data(), h))
    {
      SkipN(8 * h.elems);
      var ss := ReadStrings(h.elems);
      return if ss.Err? then BadValue(ss.error) else Got(Single(StrArray(ss.value)));
    }

    method ReadBoolArrayOf(h: Head) returns (r: ValueResult)
      requires Valid() && HeadOk(Data(), h) && sizeBytes == h.size && Off() == h.off
      modifies this`currentByte
      ensures Valid() && r == Wrap(ReadBoolArray(list.Cfg(), Data(), h))
    {
      var bs := ReadBools(h.elems);
      return if bs.Err? then BadValue(bs.error) else Got(Single(BoolArray(bs.value)));
    }

    method ReadScalarOf(h: Head, k: IntKind) returns (r: ValueResult)
      requires Valid() && HeadOk(Data(), h) && sizeBytes == h.size && Off() == h.off
      modifies this`currentByte
      ensures Valid() && r == Wrap(ReadScalar(list.Cfg(), Data(), h, k))
    {
      if h.code == TYPE_BYTE {
        var b := ReadByte();
        return if b.Err? then BadValue(b.error) else Got(Single(Int(Uint8, b.value)));
      }
      var n := ReadInt(k.Signed(), k.Width());
      return if n.Err? then BadValue(n.error) else Got(Single(Int(k, n.value)));
    }

    method ReadArrayOf(h: Head, k: IntKind) returns (r: ValueResult)
      requires Valid() && HeadOk(Data(), h) && sizeBytes == h.size && Off() == h.off
      modifies this`currentByte
      ensures Valid() && r == Wrap(ReadIntArray(list.Cfg(), Data(), h, k))
    {
      if h.code == TYPE_BYTE_ARRAY {
        var bs := ReadN(h.elems);
        return if bs.Err? then BadValue(bs.error) else Got(Single(IntArray(Uint8, ByteInts(bs.value))));
      }
      var ns := ReadInts(k, h.elems);
      return if ns.Err? then BadValue(ns.error) else Got(Single(IntArray(k, ns.value)));
    }
  }

  /** With ns decoded and m elements of w bytes left in rest, the whole is all. */
  ghost predicate Decoding(order: ByteOrder, signed: bool, rest: bytes, w: nat, m: nat, ns: seq<int>, all: seq<int>) {
    |rest| == w * m && ns + GetInts(order, signed, rest, w, m) == all
  }

  lemma DecodeStart(order: ByteOrder, signed: bool, bs: bytes, w: nat, n: nat)
    requires |bs| == w * n
    ensures Decoding(order, signed, bs, w, n, [], GetInts(order, signed, bs, w, n))
  {
    var all := GetInts(order, signed, bs, w, n);
    assert [] + all == all;
  }

  lemma DecodeStep(order: ByteOrder, signed: bool, rest: bytes, w: nat, m: nat, ns: seq<int>, all: seq<int>)
    requires m > 0 && Decoding(order, signed, rest, w, m, ns, all)
    ensures w <= |rest|
    ensures Decoding(order, signed, rest[w..], w, m - 1, ns + [IntFromBytes(order, signed, rest[..w])], all)
  {
    IntsStep(order, signed, rest, w, m);
    Assoc(ns, [IntFromBytes(order, signed, rest[..w])], GetInts(order, signed, rest[w..], w, m - 1));
  }

  lemma DecodeEnd(order: ByteOrder, signed: bool, rest: bytes, w: nat, m: nat, ns: seq<int>, all: seq<int>)
    requires m == 0 && Decoding(order, signed, rest, w, m, ns, all)
    ensures ns == all
  {
    assert ns + [] == ns;
  }

  /** The element loop of binary.Read. */
  method DecodeInts(order: ByteOrder, k: IntKind, bs: bytes, n: nat) returns (ns: seq<int>)
    requires |bs| == k.Width() * n
    ensures ns == GetInts(order, k.Signed(), bs, k.Width(), n)
  {
    var rest, w, signed := bs, k.Width(), k.Signed();
    ghost var all := GetInts(order, signed, bs, w, n);
    ns := [];
    DecodeStart(order, signed, bs, w, n);
    for i := 0 to n
      invariant Decoding(order, signed, rest, w, n - i, ns, all)
    {
      DecodeStep(order, signed, rest, w, n - i, ns, all);
      ns, rest := ns + [IntFromBytes(order, signed, rest[..w])], rest[w..];
    }
    DecodeEnd(order, signed, rest, w, 0, ns, all);
  }

  /** Unmarshal into an empty interface: the reader computes exactly what the specification says. */
  method UnmarshalBuffer(data: bytes) returns (r: Result<Value>)
    ensures r == Unmarshal(data)
  {
    var reader := new NvlistReader(data);
    var header := reader.ReadNvHeader();
    if header.Err? {
      return Err(header.error);
    }
    var m := reader.ReadPairs();
    if m.Err? {
      return Err(m.error);
    }
    return Ok(Value.Map(m.value));
  }
}
