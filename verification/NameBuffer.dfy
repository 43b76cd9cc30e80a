/**
 NUL-delimited strings in fixed-size buffers (ioctl/wrappers.go).
 */
module NameBuffer {
  import opened Bytes

  datatype NameError = NoError | TooLong | HasNul

  /** The bytes before the first NUL. */
  function Delimited(buf: bytes): bytes {
    buf[..IndexOf(buf, 0)]
  }

  /** What the write loop leaves in the buffer: it copies up to a NUL, or nothing if the string does not fit. */
  function Written(buf: bytes, str: bytes): (r: bytes)
    ensures |r| == |buf|
  {
    if |str| + 1 > |buf| then buf
    else
      var k := IndexOf(str, 0);
      str[..k] + buf[k..]
  }

  method DelimitedBufToString(buf: array<byte>) returns (s: bytes)
    ensures s == Delimited(buf[..])
    ensures s <= buf[..] && (forall j :: 0 <= j < |s| ==> s[j] != 0) && (|s| < buf.Length ==> buf[|s|] == 0)
  {
    var i := 0;
    while i < buf.Length
      invariant 0 <= i <= buf.Length
      invariant forall j :: 0 <= j < i ==> buf[j] != 0
    {
      if buf[i] == 0 {
        break;
      }
      i := i + 1;
    }
    assert IsIndexOf(buf[..], 0, i);
    return buf[..i];
  }

  method StringToDelimitedBuf(str: bytes, buf: array<byte>) returns (err: NameError)
    modifies buf
    ensures buf[..] == Written(old(buf[..]), str)
    ensures err == if |str| + 1 > buf.Length then TooLong else if !NulFree(str) then HasNul else NoError
  {
    if |str| > buf.Length - 1 {
      return TooLong;
    }
    var i := 0;
    while i < |str|
      invariant 0 <= i <= |str|
      invariant forall j :: 0 <= j < i ==> str[j] != 0 && buf[j] == str[j]
      invariant forall j :: i <= j < buf.Length ==> buf[j] == old(buf[j])
    {
      if str[i] == 0 {
        assert IsIndexOf(str, 0, i);
        return HasNul;
      }
      buf[i] := str[i];
      i := i + 1;
    }
    assert IsIndexOf(str, 0, |str|);
    return NoError;
  }

  /** Byte by byte: the string is copied up to its first NUL if it and a NUL would fit, and nothing else changes. */
  lemma WrittenAt(buf: bytes, str: bytes, j: nat)
    requires j < |buf|
    ensures Written(buf, str)[j] ==
      if |str| < |buf| && j < |str| && (forall i :: 0 <= i <= j ==> str[i] != 0) then str[j] else buf[j]
  {
    var k := IndexOf(str, 0);
    assert IsIndexOf(str, 0, k);
    if |str| < |buf| && j < |str| && (forall i :: 0 <= i <= j ==> str[i] != 0) {
      assert j < k;
    }
  }

  /** Reading back gives the string and then whatever the buffer held behind it, up to a NUL. */
  lemma ReadBack(buf: bytes, str: bytes)
    requires NulFree(str) && |str| < |buf|
    ensures Delimited(Written(buf, str)) == str + Delimited(buf[|str|..])
    ensures Written(buf, str)[|str|..] == buf[|str|..]
  {
    assert IsIndexOf(str, 0, |str|);
    var w := Written(buf, str);
    var tail := buf[|str|..];
    var k := IndexOf(tail, 0);
    assert w == str + tail;
    assert IsIndexOf(w, 0, |str| + k);
    assert w[..|str| + k] == str + tail[..k];
  }

  /** The string comes back exactly when the buffer holds a NUL right behind it, as a zeroed one does. */
  lemma NameRoundTrip(buf: bytes, str: bytes)
    requires NulFree(str) && |str| < |buf|
    ensures Delimited(Written(buf, str)) == str <==> buf[|str|] == 0
  {
    ReadBack(buf, str);
    var tail := buf[|str|..];
    assert tail[0] == buf[|str|];
    assert Delimited(tail) == [] <==> tail[0] == 0;
    assert |str + Delimited(tail)| == |str| ==> Delimited(tail) == [];
    assert str + [] == str;
  }
}
