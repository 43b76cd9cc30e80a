/**
 Bytes, results, and the two's-complement integer conversions of Go's
 encoding/binary in both byte orders.
 */
module Bytes {

  type byte = b: int | 0 <= b < 256
  type bytes = seq<byte>

  /** Every error the nvlist package returns, plus the two that io.ReadFull adds. */
  datatype Error = InvalidEncoding | InvalidEndianess | InvalidData | InvalidValue | Eof | UnexpectedEof

  datatype Result<+T> = Ok(value: T) | Err(error: Error) {
    predicate IsFailure() { Err? }
    function PropagateFailure<U>(): Result<U>
      requires Err?
    {
      Err(error)
    }
    function Extract(): T
      requires Ok?
    {
      value
    }
  }

  datatype Option<+T> = None | Some(value: T)

  datatype ByteOrder = BigEndian | LittleEndian

  function Zeros(n: nat): (z: bytes)
    ensures |z| == n
    ensures forall i :: 0 <= i < n ==> z[i] == 0
  {
    seq(n, i => 0)
  }

  predicate NulFree(s: bytes) {
    forall i :: 0 <= i < |s| ==> s[i] != 0
  }

  predicate AllNulFree(ss: seq<bytes>) {
    forall i :: 0 <= i < |ss| ==> NulFree(ss[i])
  }

  function Pow256(w: nat): (p: nat)
    ensures p >= 1
  {
    if w == 0 then 1 else 256 * Pow256(w - 1)
  }

  lemma PowValues()
    ensures Pow256(1) == 0x100
    ensures Pow256(2) == 0x1_0000
    ensures Pow256(4) == 0x1_0000_0000
    ensures Pow256(8) == 0x1_0000_0000_0000_0000
  {
    assert Pow256(3) == 256 * Pow256(2);
    assert Pow256(5) == 256 * Pow256(4);
    assert Pow256(6) == 256 * Pow256(5);
    assert Pow256(7) == 256 * Pow256(6);
  }

  /**
   binary.Write of an integer: its w low-order base-256 digits. Division rounds
   down, so a negative number comes out in two's complement. Naming all
   parameters under decreases keeps a literal width from being unrolled.
   */
  function PutInt(order: ByteOrder, n: int, w: nat): (bs: bytes)
    ensures |bs| == w
    decreases w, n, order
  {
    if w == 0 then []
    else if order.LittleEndian? then [n % 256] + PutInt(order, n / 256, w - 1)
    else PutInt(order, n / 256, w - 1) + [n % 256]
  }

  function BytesUint(order: ByteOrder, bs: bytes): (u: nat)
    ensures u < Pow256(|bs|)
  {
    if bs == [] then 0
    else if order.LittleEndian? then bs[0] + 256 * BytesUint(order, bs[1..])
    else 256 * BytesUint(order, bs[..|bs| - 1]) + bs[|bs| - 1]
  }

  /** binary.Read of an integer that fills all of bs, computed from its digits. */
  function IntFromBytes(order: ByteOrder, signed: bool, bs: bytes): (n: int)
    ensures InRange(signed, |bs|, n)
  {
    var u := BytesUint(order, bs);
    if signed && 2 * u >= Pow256(|bs|) then u - Pow256(|bs|) else u
  }

  /** Whatever integer in range is written as bs, it is n. */
  ghost predicate IsInt(order: ByteOrder, signed: bool, bs: bytes, n: int) {
    && InRange(signed, |bs|, n)
    && forall m {:trigger PutInt(order, m, |bs|)} :: InRange(signed, |bs|, m) && PutInt(order, m, |bs|) == bs ==> m == n
  }

  /** The same integer by its meaning: the one in range that is written as bs. */
  ghost function GetInt(order: ByteOrder, signed: bool, bs: bytes): (n: int)
    ensures InRange(signed, |bs|, n)
  {
    IntExists(order, signed, bs);
    var n :| IsInt(order, signed, bs, n);
    n
  }

  lemma DigitSplit(d: byte, u: nat)
    ensures (d + 256 * u) % 256 == d && (d + 256 * u) / 256 == u
  {}

  lemma {:induction false} BytesRoundTrip(order: ByteOrder, bs: bytes)
    ensures PutInt(order, BytesUint(order, bs), |bs|) == bs
  {
    if bs != [] {
      if order.LittleEndian? {
        var rest := bs[1..];
        BytesRoundTrip(order, rest);
        DigitSplit(bs[0], BytesUint(order, rest));
        assert [bs[0]] + rest == bs;
      } else {
        var rest := bs[..|bs| - 1];
        BytesRoundTrip(order, rest);
        DigitSplit(bs[|bs| - 1], BytesUint(order, rest));
        assert rest + [bs[|bs| - 1]] == bs;
      }
    }
  }

  lemma {:induction false} PutIntPeriodic(order: ByteOrder, n: int, w: nat)
    ensures PutInt(order, n + Pow256(w), w) == PutInt(order, n, w)
    decreases w
  {
    if w > 0 {
      PutIntPeriodic(order, n / 256, w - 1);
      assert (n + 256 * Pow256(w - 1)) % 256 == n % 256;
      assert (n + 256 * Pow256(w - 1)) / 256 == n / 256 + Pow256(w - 1);
    }
  }

  lemma IntFromBytesInverts(order: ByteOrder, signed: bool, bs: bytes)
    ensures PutInt(order, IntFromBytes(order, signed, bs), |bs|) == bs
  {
    BytesRoundTrip(order, bs);
    PutIntPeriodic(order, BytesUint(order, bs) - Pow256(|bs|), |bs|);
  }

  lemma IntExists(order: ByteOrder, signed: bool, bs: bytes)
    ensures exists n :: IsInt(order, signed, bs, n)
  {
    var n := IntFromBytes(order, signed, bs);
    IntFromBytesInverts(order, signed, bs);
    forall m | InRange(signed, |bs|, m) && PutInt(order, m, |bs|) == bs
      ensures m == n
    {
      PutIntInjective(order, signed, m, n, |bs|);
    }
    assert IsInt(order, signed, bs, n);
  }

  /** Both readings of an integer agree. */
  lemma GetIntComputes(order: ByteOrder, signed: bool, bs: bytes)
    ensures GetInt(order, signed, bs) == IntFromBytes(order, signed, bs)
  {
    IntFromBytesInverts(order, signed, bs);
  }

  lemma {:induction false} PutIntValue(order: ByteOrder, n: int, w: nat)
    requires 0 <= n + Pow256(w) && n < Pow256(w)
    ensures BytesUint(order, PutInt(order, n, w)) == if n < 0 then n + Pow256(w) else n
    decreases w
  {
    if w > 0 {
      var bs, rest := PutInt(order, n, w), PutInt(order, n / 256, w - 1);
      PutIntValue(order, n / 256, w - 1);
      if order.LittleEndian? {
        assert bs[1..] == rest;
      } else {
        assert bs[..w - 1] == rest;
      }
    }
  }

  lemma PutIntInjective(order: ByteOrder, signed: bool, n1: int, n2: int, w: nat)
    requires InRange(signed, w, n1) && InRange(signed, w, n2)
    requires PutInt(order, n1, w) == PutInt(order, n2, w)
    ensures n1 == n2
  {
    PutIntValue(order, n1, w);
    PutIntValue(order, n2, w);
  }

  /** The values of a w-byte integer type. */
  predicate InRange(signed: bool, w: nat, n: int) {
    if signed then 0 <= 2 * n + Pow256(w) && 2 * n < Pow256(w) else 0 <= n < Pow256(w)
  }

  predicate AllInRange(signed: bool, w: nat, ns: seq<int>) {
    forall i :: 0 <= i < |ns| ==> InRange(signed, w, ns[i])
  }

  lemma IntRoundTrip(order: ByteOrder, signed: bool, n: int, w: nat)
    requires InRange(signed, w, n)
    ensures GetInt(order, signed, PutInt(order, n, w)) == n
  {
    assert PutInt(order, n, |PutInt(order, n, w)|) == PutInt(order, n, w);
  }

  /** Consecutive w-byte integers. */
  function PutInts(order: ByteOrder, ns: seq<int>, w: nat): (bs: bytes)
    ensures |bs| == w * |ns|
  {
    if ns == [] then [] else PutInt(order, ns[0], w) + PutInts(order, ns[1..], w)
  }

  ghost function GetInts(order: ByteOrder, signed: bool, bs: bytes, w: nat, n: nat): (ns: seq<int>)
    requires |bs| == w * n
    ensures |ns| == n
    ensures AllInRange(signed, w, ns)
    decreases n
  {
    if n == 0 then []
    else
      MulStep(w, n);
      [GetInt(order, signed, bs[..w])] + GetInts(order, signed, bs[w..], w, n - 1)
  }

  lemma MulStep(w: nat, n: nat)
    requires n > 0
    ensures w * n == w + w * (n - 1) && w * (n - 1) >= 0
  {}

  lemma {:induction false} IntsRoundTrip(order: ByteOrder, signed: bool, ns: seq<int>, w: nat)
    requires AllInRange(signed, w, ns)
    ensures GetInts(order, signed, PutInts(order, ns, w), w, |ns|) == ns
  {
    if ns != [] {
      var bs := PutInts(order, ns, w);
      MulStep(w, |ns|);
      assert bs[..w] == PutInt(order, ns[0], w);
      assert bs[w..] == PutInts(order, ns[1..], w);
      IntRoundTrip(order, signed, ns[0], w);
      IntsRoundTrip(order, signed, ns[1..], w);
    }
  }

  /** The next multiple of a at or above n, for the two alignments in use. */
  function AlignUp(n: nat, a: nat): (r: nat)
    requires a == 4 || a == 8
    ensures n <= r < n + a
  {
    if a == 4 then (n + 3) / 4 * 4 else (n + 7) / 8 * 8
  }

  lemma AlignBehindHeader(k: nat)
    ensures AlignUp(k + 16, 8) == AlignUp(k, 8) + 16
  {}

  lemma AlignUpBehind(q: nat, n: nat)
    ensures AlignUp(8 * q + n, 8) == 8 * q + AlignUp(n, 8)
  {}

  lemma AlignUpSame(m: nat, n: nat)
    requires m <= n <= AlignUp(m, 8)
    ensures AlignUp(n, 8) == AlignUp(m, 8)
  {}

  /** The same in terms of remainders. */
  lemma AlignUpMod(n: nat, a: nat)
    requires a == 4 || a == 8
    ensures AlignUp(n, a) == if n % a == 0 then n else n + (a - n % a)
    ensures AlignUp(n, a) % a == 0
  {
    if a == 4 {
      AlignUpBy4(n / 4, n % 4);
    } else {
      AlignUpBy8(n / 8, n % 8);
    }
  }

  lemma AlignUpBy4(q: nat, r: nat)
    requires r < 4
    ensures AlignUp(4 * q + r, 4) == (if r == 0 then 4 * q else 4 * q + 4) && (4 * q) % 4 == 0 && (4 * q + 4) % 4 == 0
  {
    assert (4 * q + r + 3) / 4 == if r == 0 then q else q + 1;
  }

  lemma AlignUpBy8(q: nat, r: nat)
    requires r < 8
    ensures AlignUp(8 * q + r, 8) == (if r == 0 then 8 * q else 8 * q + 8) && (8 * q) % 8 == 0 && (8 * q + 8) % 8 == 0
  {
    assert (8 * q + r + 7) / 8 == if r == 0 then q else q + 1;
  }

  /** k is the first index that holds b, or the length if none does. */
  predicate IsIndexOf(s: bytes, b: byte, k: nat) {
    && k <= |s|
    && (forall i :: 0 <= i < k ==> s[i] != b)
    && (k < |s| ==> s[k] == b)
  }

  lemma {:induction false} SomeIndexOf(s: bytes, b: byte)
    ensures exists k: nat :: IsIndexOf(s, b, k)
  {
    if s == [] || s[0] == b {
      assert IsIndexOf(s, b, 0);
    } else {
      SomeIndexOf(s[1..], b);
      var k: nat :| IsIndexOf(s[1..], b, k);
      assert forall i :: 1 <= i < |s| ==> s[i] == s[1..][i - 1];
      assert IsIndexOf(s, b, k + 1);
    }
  }

  function IndexOf(s: bytes, b: byte): (k: nat)
    ensures IsIndexOf(s, b, k)
  {
    SomeIndexOf(s, b);
    var k: nat :| k <= |s| && IsIndexOf(s, b, k);
    k
  }

  // Slices of concatenations and of slices.

  lemma SliceSlice(s: bytes, i: nat, j: nat)
    requires i + j <= |s|
    ensures s[i..][j..] == s[i + j..]
  {}

  lemma SliceWithin(s: bytes, i: nat, a: nat, b: nat)
    requires a <= b && i + b <= |s|
    ensures s[i..][a..b] == s[i + a..i + b]
  {}

  lemma SliceSplit(s: bytes, off: nat, a: bytes, b: bytes)
    requires off + |a| + |b| <= |s|
    requires s[off..off + |a| + |b|] == a + b
    ensures s[off..off + |a|] == a
    ensures s[off + |a|..off + |a| + |b|] == b
  {
    var w := s[off..off + |a| + |b|];
    assert s[off..off + |a|] == w[..|a|];
    assert s[off + |a|..off + |a| + |b|] == w[|a|..];
  }

  lemma SliceMiddle(pre: bytes, mid: bytes, post: bytes, a: nat, b: nat)
    requires a <= b <= |mid|
    ensures (pre + mid + post)[|pre| + a..|pre| + b] == mid[a..b]
  {}

  lemma Assoc<T>(a: seq<T>, b: seq<T>, c: seq<T>)
    ensures a + b + c == a + (b + c)
  {}
}
