/**
 What a successful decode depends on: only the bytes it consumed. Hence it is
 stable under any extension of the buffer, and no shorter prefix decodes.
 */
module Locality {
  import opened Bytes
  import opened Consts
  import opened Values
  import opened Decoder
  import opened Encoder
  import opened Domain
  import opened RoundTrip
  import opened Meaning

  /** a and b hold the same first n bytes. */
  predicate SamePrefix(a: bytes, b: bytes, n: nat) {
    n <= |a| && n <= |b| && a[..n] == b[..n]
  }

  lemma SameSlice(a: bytes, b: bytes, n: nat, i: nat, j: nat)
    requires SamePrefix(a, b, n) && i <= j <= n
    ensures a[i..j] == b[i..j]
  {
    assert a[i..j] == a[..n][i..j];
    assert b[i..j] == b[..n][i..j];
  }

  lemma ReadFullLocal(a: bytes, b: bytes, n: nat, limit: nat, off: nat, k: nat)
    requires SamePrefix(a, b, n) && limit <= n
    ensures ReadFull(a, limit, off, k) == ReadFull(b, limit, off, k)
    ensures ReadN(a, limit, off, k) == ReadN(b, limit, off, k)
  {
    if off + k <= limit {
      SameSlice(a, b, n, off, off + k);
    }
  }

  lemma HeadLocal(c: Config, a: bytes, b: bytes, n: nat)
    requires !ReadHead(c, a).BadHead? && SamePrefix(a, b, n)
    requires n >= if ReadHead(c, a).End? then 4 else ReadHead(c, a).head.size + 4
    ensures ReadHead(c, b) == ReadHead(c, a)
  {
    SameSlice(a, b, n, 0, 4);
    var step := ReadHead(c, a);
    if step.Pair? {
      SameSlice(a, b, n, 4, 6);
      SameSlice(a, b, n, 8, 12);
      SameSlice(a, b, n, 12, 16);
      SameSlice(a, b, n, 16, 16 + |step.head.name|);
    }
  }

  lemma {:induction false} BoolsLocal(o: ByteOrder, a: bytes, b: bytes, n: nat, limit: nat, off: nat, k: nat, acc: seq<bool>)
    requires SamePrefix(a, b, n) && limit <= n
    ensures ReadBools(o, a, limit, off, k, acc) == ReadBools(o, b, limit, off, k, acc)
    decreases k
  {
    if k > 0 {
      ReadFullLocal(a, b, n, limit, off, 4);
      var r := ReadBool(o, a, limit, off);
      assert r == ReadBool(o, b, limit, off);
      if r.Ok? {
        BoolsLocal(o, a, b, n, limit, off + 4, k - 1, acc + [r.value]);
      }
    }
  }

  lemma WindowLocal(a: bytes, b: bytes, n: nat, limit: nat, off: nat)
    requires SamePrefix(a, b, n) && limit < n
    ensures Window(a, limit, off) == Window(b, limit, off)
  {
    if off <= limit {
      SameSlice(a, b, n, off, limit + 1);
    }
  }

  lemma ValueLocal(c: Config, a: bytes, b: bytes, n: nat, h: Head)
    requires HeadOk(a, h) && SamePrefix(a, b, n) && h.size + 4 <= n
    ensures ReadValue(c, a, h) == ReadValue(c, b, h)
  {
    var t := h.code;
    if t == TYPE_BYTE {
      if h.off <= h.size {
        SameSlice(a, b, n, h.off, h.off + 1);
        assert a[h.off] == a[h.off..h.off + 1][0];
        assert b[h.off] == b[h.off..h.off + 1][0];
      }
    } else if KindOfScalar(t).Some? {
      ReadFullLocal(a, b, n, h.size, h.off, KindOfScalar(t).value.Width());
    } else if t == TYPE_BYTE_ARRAY {
      ReadFullLocal(a, b, n, h.size, h.off, h.elems);
    } else if KindOfArray(t).Some? {
      ReadFullLocal(a, b, n, h.size, h.off, KindOfArray(t).value.Width() * h.elems);
    } else if t == TYPE_STRING {
      WindowLocal(a, b, n, h.size, h.off);
    } else if t == TYPE_BOOLEAN_VALUE {
      ReadFullLocal(a, b, n, h.size, h.off, 4);
    } else if t == TYPE_STRING_ARRAY {
      WindowLocal(a, b, n, h.size, h.off + 8 * h.elems);
    } else if t == TYPE_BOOLEAN_ARRAY {
      BoolsLocal(c.order, a, b, n, h.size, h.off, h.elems, []);
    }
  }

  // ---- What is left over is a suffix of the input ----

  predicate IsSuffix(u: bytes, s: bytes) {
    |u| <= |s| && s[|s| - |u|..] == u
  }

  lemma SuffixTrans(u: bytes, t: bytes, s: bytes)
    requires IsSuffix(u, t) && IsSuffix(t, s)
    ensures IsSuffix(u, s)
  {
    SliceSlice(s, |s| - |t|, |t| - |u|);
  }

  lemma {:induction false} ParseSuffix(c: Config, s: bytes, acc: seq<Item>)
    requires Parse(c, s, acc).Parsed?
    ensures IsSuffix(Parse(c, s, acc).rest, s)
    decreases |s|, 1
  {
    var step := ReadHead(c, s);
    if step.Pair? {
      var out := ReadNode(c, s, step.head);
      NodeSuffix(c, s, step.head);
      var acc' := acc + [Item(step.head.name, out.node)];
      ParseSuffix(c, out.rest, acc');
      SuffixTrans(Parse(c, out.rest, acc').rest, out.rest, s);
    }
  }

  lemma {:induction false} NodeSuffix(c: Config, s: bytes, h: Head)
    requires HeadOk(s, h) && ReadNode(c, s, h).GotNode?
    ensures IsSuffix(ReadNode(c, s, h).rest, s)
    decreases |s|, 0
  {
    var t := After(c, s, h);
    assert IsSuffix(t, s);
    if h.code == TYPE_NVLIST {
      ParseSuffix(c, t, []);
      SuffixTrans(Parse(c, t, []).rest, t, s);
    } else if h.code == TYPE_NVLIST_ARRAY {
      ParseAllSuffix(c, t, h.elems, []);
      SuffixTrans(ParseAll(c, t, h.elems, []).rest, t, s);
    }
  }

  lemma {:induction false} ParseAllSuffix(c: Config, s: bytes, n: nat, acc: seq<Block>)
    requires ParseAll(c, s, n, acc).ParsedAll?
    ensures IsSuffix(ParseAll(c, s, n, acc).rest, s)
    decreases |s|, 2
  {
    if n == 0 {
      assert ParseAll(c, s, 0, acc) == ParsedAll(acc, s);
    } else {
      var p := Parse(c, s, []);
      AllStep(c, s, n, acc, p.items, p.rest);
      ParseSuffix(c, s, []);
      ParseAllSuffix(c, p.rest, n - 1, acc + [Block(p.items)]);
      SuffixTrans(ParseAll(c, s, n, acc).rest, p.rest, s);
    }
  }

  /** A suffix of x + p that is at least as long as p is y + p for a suffix y of x. */
  lemma SuffixSplit(x: bytes, p: bytes, u: bytes) returns (y: bytes)
    requires IsSuffix(u, x + p) && |u| >= |p|
    ensures u == y + p && |y| == |u| - |p| && |y| <= |x|
  {
    y := x[|x| + |p| - |u|..];
  }

  // ---- Only the consumed bytes matter ----

  lemma SameFront(x: bytes, p: bytes, q: bytes)
    ensures SamePrefix(x + p, x + q, |x|)
  {
    assert (x + p)[..|x|] == x && (x + q)[..|x|] == x;
  }

  /** If x is what a parse consumed of x + p, then x is parsed the same in front of any q. */
  lemma {:induction false} ParseLocal(c: Config, x: bytes, p: bytes, q: bytes, acc: seq<Item>, items: seq<Item>)
    requires Parse(c, x + p, acc) == Parsed(items, p)
    ensures Parse(c, x + q, acc) == Parsed(items, q)
    decreases |x|, 2
  {
    var step := ReadHead(c, x + p);
    SameFront(x, p, q);
    if step.Pair? {
      PairLocal(c, x, p, q, acc, items, step.head);
    } else {
      HeadLocal(c, x + p, x + q, |x|);
      assert x == x[..4] by {
        assert (x + p)[4..] == p;
      }
      assert (x + q)[4..] == q;
    }
  }

  lemma {:induction false} PairLocal(c: Config, x: bytes, p: bytes, q: bytes, acc: seq<Item>, items: seq<Item>, h: Head)
    requires Parse(c, x + p, acc) == Parsed(items, p) && ReadHead(c, x + p) == Pair(h)
    ensures Parse(c, x + q, acc) == Parsed(items, q)
    decreases |x|, 1
  {
    var out := ReadNode(c, x + p, h);
    var acc' := acc + [Item(h.name, out.node)];
    var y := NodeSplit(c, x, p, acc, h);
    NodeLocal(c, x, p, q, y, h, out.node);
    ParseLocal(c, y, p, q, acc', items);
    ParseStep(c, x + q, acc, h, out.node, y + q);
  }

  /** The node of the first pair leaves y + p, and parsing goes on there. */
  lemma NodeSplit(c: Config, x: bytes, p: bytes, acc: seq<Item>, h: Head) returns (y: bytes)
    requires Parse(c, x + p, acc).Parsed? && Parse(c, x + p, acc).rest == p && ReadHead(c, x + p) == Pair(h)
    ensures ReadNode(c, x + p, h).GotNode?
    ensures ReadNode(c, x + p, h).rest == y + p
    ensures Parse(c, y + p, acc + [Item(h.name, ReadNode(c, x + p, h).node)]) == Parse(c, x + p, acc)
    ensures |y| + h.size + c.ExtraSkip() <= |x| && |y| >= 4
  {
    NodeSuffix(c, x + p, h);
    y := SuffixSplit(x, p, ReadNode(c, x + p, h).rest);
  }

  lemma {:induction false} NodeLocal(c: Config, x: bytes, p: bytes, q: bytes, y: bytes, h: Head, node: Node)
    requires ReadHead(c, x + p) == Pair(h) && ReadNode(c, x + p, h) == GotNode(node, y + p)
    requires |y| >= 4 && |y| + h.size + c.ExtraSkip() <= |x|
    ensures ReadHead(c, x + q) == Pair(h)
    ensures ReadNode(c, x + q, h) == GotNode(node, y + q)
    decreases |x|, 0
  {
    var skip := h.size + c.ExtraSkip();
    var z := x[skip..];
    assert (x + p)[skip..] == z + p && (x + q)[skip..] == z + q;
    SameFront(x, p, q);
    HeadLocal(c, x + p, x + q, |x|);
    if h.code == TYPE_NVLIST {
      SubLocal(c, z, p, q, y, node.block.items);
    } else if h.code == TYPE_NVLIST_ARRAY {
      SubsLocal(c, z, p, q, y, h.elems, [], node.blocks);
    } else {
      ValueLocal(c, x + p, x + q, |x|, h);
      assert z == y by {
        assert z + p == y + p;
        assert |z| == |y| && (z + p)[..|z|] == z && (y + p)[..|y|] == y;
      }
    }
  }

  /** The same for a list followed by y. */
  lemma {:induction false} SubLocal(c: Config, z: bytes, p: bytes, q: bytes, y: bytes, items: seq<Item>)
    requires Parse(c, z + p, []) == Parsed(items, y + p) && |y| <= |z|
    ensures Parse(c, z + q, []) == Parsed(items, y + q)
    decreases |z|, 3
  {
    ParseSuffix(c, z + p, []);
    var x := Consumed(z, p, y);
    Assoc(x, y, p);
    Assoc(x, y, q);
    ParseLocal(c, x, y + p, y + q, [], items);
  }

  lemma Consumed(z: bytes, p: bytes, y: bytes) returns (x: bytes)
    requires IsSuffix(y + p, z + p)
    ensures z == x + y
  {
    x := z[..|z| - |y|];
    assert (y + p)[..|y|] == y;
    assert (z + p)[|z| - |y|..][..|y|] == z[|z| - |y|..];
  }

  lemma {:induction false} SubsLocal(c: Config, z: bytes, p: bytes, q: bytes, y: bytes, k: nat, acc: seq<Block>, blocks: seq<Block>)
    requires ParseAll(c, z + p, k, acc) == ParsedAll(blocks, y + p) && |y| <= |z|
    ensures ParseAll(c, z + q, k, acc) == ParsedAll(blocks, y + q)
    decreases |z|, 4
  {
    if k == 0 {
      assert ParseAll(c, z + p, 0, acc) == ParsedAll(acc, z + p);
      assert ParseAll(c, z + q, 0, acc) == ParsedAll(acc, z + q);
      assert (y + p)[..|y|] == y && (z + p)[..|z|] == z;
    } else {
      var sub := Parse(c, z + p, []);
      AllStep(c, z + p, k, acc, sub.items, sub.rest);
      var w := ListSplit(c, z, p, k - 1, acc + [Block(sub.items)], y);
      SubLocal(c, z, p, q, w, sub.items);
      AllStep(c, z + q, k, acc, sub.items, w + q);
      SubsLocal(c, w, p, q, y, k - 1, acc + [Block(sub.items)], blocks);
    }
  }

  /** The first list of several leaves w + p, and the others end in y + p. */
  lemma ListSplit(c: Config, z: bytes, p: bytes, k: nat, acc: seq<Block>, y: bytes) returns (w: bytes)
    requires Parse(c, z + p, []).Parsed?
    requires ParseAll(c, Parse(c, z + p, []).rest, k, acc).ParsedAll?
    requires ParseAll(c, Parse(c, z + p, []).rest, k, acc).rest == y + p
    ensures Parse(c, z + p, []).rest == w + p && |y| <= |w| < |z|
  {
    ParseSuffix(c, z + p, []);
    w := SuffixSplit(z, p, Parse(c, z + p, []).rest);
  }

  // ---- The whole buffer ----

  lemma HeaderLocal(a: bytes, b: bytes, n: nat)
    requires ReadHeader(a).Ok? && SamePrefix(a, b, n) && n >= 12
    ensures ReadHeader(b) == ReadHeader(a)
  {
    var o := ReadHeader(a).value.order;
    SameSlice(a, b, n, 0, 1);
    SameSlice(a, b, n, 1, 2);
    assert a[0] == a[0..1][0] && b[0] == b[0..1][0] && a[1] == a[1..2][0] && b[1] == b[1..2][0];
    SameSlice(a, b, n, 4, 8);
    SameSlice(a, b, n, 8, 12);
  }

  /** The bytes of a decodable buffer up to the end of its root list. */
  ghost function ConsumedBytes(data: bytes): (x: bytes)
    requires ParseBuffer(data).Parsed?
    ensures |x| + |ParseBuffer(data).rest| == |data|
  {
    data[..|data| - |ParseBuffer(data).rest|]
  }

  lemma BufferSplit(data: bytes)
    requires ParseBuffer(data).Parsed?
    ensures data == ConsumedBytes(data) + ParseBuffer(data).rest && |ConsumedBytes(data)| >= 16
  {
    var rest := ParseBuffer(data).rest;
    ParseSuffix(ReadHeader(data).value, data[12..], []);
    SuffixTrans(rest, data[12..], data);
  }

  /**
   Locality: a successful decode is determined by the bytes it consumed. They
   decode to the same value in front of anything, with the same final cursor.
   */
  lemma BufferLocal(data: bytes, q: bytes)
    requires ParseBuffer(data).Parsed?
    ensures ParseBuffer(ConsumedBytes(data) + q) == Parsed(ParseBuffer(data).items, q)
    ensures Unmarshal(ConsumedBytes(data) + q) == Unmarshal(data)
  {
    var x, p := ConsumedBytes(data), ParseBuffer(data).rest;
    var c := ReadHeader(data).value;
    BufferSplit(data);
    SameFront(x, p, q);
    HeaderLocal(data, x + q, |x|);
    assert data[12..] == x[12..] + p && (x + q)[12..] == x[12..] + q;
    ParseLocal(c, x[12..], p, q, [], ParseBuffer(data).items);
  }

  /** Extension stability: bytes after a decodable buffer change neither the value nor the final cursor. */
  lemma ExtensionStability(p: bytes, extra: bytes)
    requires ParseBuffer(p).Parsed?
    ensures Unmarshal(p + extra) == Unmarshal(p)
    ensures ParseBuffer(p + extra) == Parsed(ParseBuffer(p).items, ParseBuffer(p).rest + extra)
  {
    var rest := ParseBuffer(p).rest;
    BufferSplit(p);
    BufferLocal(p, rest + extra);
    Assoc(ConsumedBytes(p), rest, extra);
  }

  /** A buffer cut to the bytes that decoding consumed, or more, still decodes to the same value. */
  lemma PrefixAccepted(p: bytes, k: nat)
    requires ParseBuffer(p).Parsed? && |p| - |ParseBuffer(p).rest| <= k <= |p|
    ensures ParseBuffer(p[..k]).Parsed? && Unmarshal(p[..k]) == Unmarshal(p)
  {
    var x := ConsumedBytes(p);
    BufferLocal(p, p[|x|..k]);
    assert x + p[|x|..k] == p[..k];
  }

  /** A prefix that decodes holds all the bytes that decoding the whole consumes. */
  lemma PrefixConsumes(p: bytes, k: nat)
    requires k <= |p| && ParseBuffer(p[..k]).Parsed?
    ensures ParseBuffer(p).Parsed? && |p| - |ParseBuffer(p).rest| <= k
  {
    ExtensionStability(p[..k], p[k..]);
    assert p[..k] + p[k..] == p;
  }

  /** A buffer cut before the last byte that decoding consumed is rejected. */
  lemma PrefixRejected(p: bytes, k: nat)
    requires ParseBuffer(p).Parsed? && k < |p| - |ParseBuffer(p).rest|
    ensures ParseBuffer(p[..k]).BadList?
  {
    if ParseBuffer(p[..k]).Parsed? {
      PrefixConsumes(p, k);
    }
  }

  /** Every strict prefix of a marshalled value is rejected. */
  lemma PrefixFreeness(o: ByteOrder, t: Tree, k: nat)
    requires Readable(o, t) && Marshal(o, t).Ok? && k < |Marshal(o, t).value|
    ensures Unmarshal(Marshal(o, t).value[..k]).Err?
  {
    var p := Marshal(o, t).value;
    ExactConsumption(o, t, []);
    assert p + [] == p;
    PrefixRejected(p, k);
  }
}
