/**
 The receive stream (ioctl/wrappers.go): the caller's Writes fill a begin
 record first and then go into a pipe; a worker waits for the record on a
 two-slot channel, runs the ioctl and posts one verdict.
 */
module ReceiveStream {
  import opened Bytes

  const RECORD_SIZE := 312
  const CHANNEL_CAPACITY := 2

  /** Go error values that occur here; NoError is nil. */
  datatype Fault = NoError | BrokenPipe | Failed | Unexpected(cause: Fault) | NotEnoughData | Verdict(code: int) | Errno(code: int)

  /** What one Write to the pipe returned: bytes taken and error. */
  datatype PipeWrite = PipeWrite(n: nat, err: Fault)

  /** The fields of ReceiveStream that Write updates, with the record by value, and the bytes the pipe took. */
  datatype Stream = Stream(record: bytes, pointer: nat, lastError: Fault, accepted: bytes)

  datatype WriteOut = WriteOut(stream: Stream, handOver: bool, n: nat, err: Fault)

  function Min(a: nat, b: nat): nat {
    if a < b then a else b
  }

  predicate StreamOk(s: Stream) {
    s.pointer <= |s.record|
  }

  /** How many bytes of buf still go into the record. */
  function RecordPart(s: Stream, buf: bytes): (k: nat)
    requires StreamOk(s)
    ensures k <= |buf| && s.pointer + k <= |s.record|
  {
    Min(|s.record| - s.pointer, |buf|)
  }

  function Filled(s: Stream, buf: bytes): bytes
    requires StreamOk(s)
  {
    var k := RecordPart(s, buf);
    s.record[..s.pointer] + buf[..k] + s.record[s.pointer + k..]
  }

  /** The error that Write keeps for a failed pipe write. */
  function Kept(err: Fault): (e: Fault)
    requires err != NoError
    ensures e != NoError
  {
    if err == BrokenPipe then Failed else Unexpected(err)
  }

  /** One Write; out is consulted only if bytes are left for the pipe. */
  function WriteStep(s: Stream, buf: bytes, out: PipeWrite): (w: WriteOut)
    requires StreamOk(s) && out.n <= |buf| - RecordPart(s, buf)
    ensures StreamOk(w.stream) && w.n <= |buf|
  {
    if s.lastError != NoError then WriteOut(s, false, 0, s.lastError)
    else
      var k := RecordPart(s, buf);
      var t := s.(record := Filled(s, buf), pointer := s.pointer + k);
      var full := s.pointer < |s.record| && t.pointer == |t.record|;
      if |buf| == k then WriteOut(t, full, |buf|, NoError)
      else
        var u := t.(accepted := s.accepted + buf[k..k + out.n]);
        if out.err == NoError then WriteOut(u, full, out.n + k, NoError)
        else WriteOut(u.(lastError := Kept(out.err)), full, out.n + k, Kept(out.err))
  }

  /**
   What Write may return: nothing and the kept error after a failure; the whole
   buffer and nil if the record takes it; otherwise the missing part of the
   record and what the pipe took, with nil exactly if the pipe gave no error and
   "receiving stream failed" exactly for a broken pipe.
   */
  predicate Answers(s: Stream, buf: bytes, out: PipeWrite, n: nat, err: Fault) {
    var room := |s.record| - s.pointer;
    if s.lastError != NoError then n == 0 && err == s.lastError
    else if |buf| <= room then n == |buf| && err == NoError
    else
      && n == room + out.n
      && err == (if out.err == NoError then NoError else if out.err == BrokenPipe then Failed else Unexpected(out.err))
  }

  /** Every Write answers so, and keeps the error it returned. */
  lemma StepAnswers(s: Stream, buf: bytes, out: PipeWrite)
    requires StreamOk(s) && out.n <= |buf| - RecordPart(s, buf)
    ensures var w := WriteStep(s, buf, out);
      Answers(s, buf, out, w.n, w.err) && w.stream.lastError == w.err
  {}

  class Receiver {
    const beginRecord: array<byte>
    var beginRecordPointer: nat
    var lastError: Fault
    /** The channel carries the record by reference. */
    var beginRecordChan: seq<array<byte>>
    ghost var accepted: bytes

    constructor (recordSize: nat)
      ensures Valid() && fresh(beginRecord) && beginRecordChan == []
      ensures Fields() == Stream(Zeros(recordSize), 0, NoError, [])
    {
      beginRecord := new byte[recordSize](i => 0);
      beginRecordPointer, lastError, beginRecordChan, accepted := 0, NoError, [], [];
      new;
      assert beginRecord[..] == Zeros(recordSize);
    }

    ghost predicate Valid()
      reads this
    {
      beginRecordPointer <= beginRecord.Length
    }

    ghost function Fields(): Stream
      reads this, beginRecord
    {
      Stream(beginRecord[..], beginRecordPointer, lastError, accepted)
    }

    /** Write; the pipe's answer is a parameter. A full record is handed over once, by reference. */
    method Write(buf: bytes, out: PipeWrite) returns (n: nat, err: Fault)
      requires Valid() && out.n <= |buf| - RecordPart(Fields(), buf)
      modifies this, beginRecord
      ensures var w := old(WriteStep(Fields(), buf, out));
        && Valid() && Fields() == w.stream && n == w.n && err == w.err
        && beginRecordChan == if w.handOver then old(beginRecordChan) + [beginRecord] else old(beginRecordChan)
      ensures old(beginRecordPointer) == beginRecord.Length ==> beginRecord[..] == old(beginRecord[..])
      ensures Answers(old(Fields()), buf, out, n, err)
    {
      if lastError != NoError {
        return 0, lastError;
      }
      ghost var s := Fields();
      StepAnswers(s, buf, out);
      var beginRecordBytes := beginRecord.Length - beginRecordPointer;
      if beginRecordBytes > 0 {
        if beginRecordBytes > |buf| {
          beginRecordBytes := |buf|;
        }
        for i := 0 to beginRecordBytes
          invariant beginRecordPointer == s.pointer && lastError == NoError && accepted == s.accepted
          invariant beginRecordChan == old(beginRecordChan)
          invariant forall j :: 0 <= j < beginRecord.Length ==>
            beginRecord[j] == if s.pointer <= j < s.pointer + i then buf[j - s.pointer] else s.record[j]
        {
          beginRecord[beginRecordPointer + i] := buf[i];
        }
        beginRecordPointer := beginRecordPointer + beginRecordBytes;
        if beginRecord.Length - beginRecordPointer == 0 {
          beginRecordChan := beginRecordChan + [beginRecord];
        }
      }
      assert beginRecord[..] == Filled(s, buf);
      if |buf| - beginRecordBytes == 0 {
        return |buf|, NoError;
      }
      accepted := accepted + buf[beginRecordBytes..beginRecordBytes + out.n];
      if out.err == BrokenPipe {
        lastError := Failed;
        return out.n + beginRecordBytes, lastError;
      }
      if out.err != NoError {
        lastError := Unexpected(out.err);
        return out.n + beginRecordBytes, lastError;
      }
      return out.n + beginRecordBytes, NoError;
    }
  }

  // ---- Accounting over any sequence of Writes ----

  datatype Call = Call(buf: bytes, out: PipeWrite)

  /** What has been taken in so far: the filled part of the record, then what the pipe took. */
  function Taken(s: Stream): bytes
    requires StreamOk(s)
  {
    s.record[..s.pointer] + s.accepted
  }

  /** The pipe is only used once the record is full. */
  predicate Ordered(s: Stream) {
    StreamOk(s) && (s.accepted != [] ==> s.pointer == |s.record|)
  }

  predicate CallOk(s: Stream, c: Call)
    requires StreamOk(s)
  {
    c.out.n <= |c.buf| - RecordPart(s, c.buf)
  }

  lemma FilledPrefix(s: Stream, buf: bytes)
    requires StreamOk(s)
    ensures var k := RecordPart(s, buf);
      |Filled(s, buf)| == |s.record| && Filled(s, buf)[..s.pointer + k] == s.record[..s.pointer] + buf[..k]
  {}

  /** One Write takes in exactly the first n bytes of its buffer, n being the count it returns. */
  lemma WriteTakes(s: Stream, c: Call)
    requires Ordered(s) && CallOk(s, c)
    ensures var w := WriteStep(s, c.buf, c.out);
      && Ordered(w.stream) && |w.stream.record| == |s.record|
      && Taken(w.stream) == Taken(s) + c.buf[..w.n]
  {
    var w := WriteStep(s, c.buf, c.out);
    if s.lastError != NoError {
      assert Taken(s) + c.buf[..0] == Taken(s);
    } else {
      var k := RecordPart(s, c.buf);
      FilledPrefix(s, c.buf);
      var front := s.record[..s.pointer];
      assert k > 0 ==> s.accepted == [];
      if |c.buf| == k {
        Interleave(front, c.buf[..k], s.accepted, []);
      } else {
        assert c.buf[..w.n] == c.buf[..k] + c.buf[k..k + c.out.n];
        Interleave(front, c.buf[..k], s.accepted, c.buf[k..k + c.out.n]);
      }
    }
  }

  lemma Interleave(front: bytes, a: bytes, accepted: bytes, tail: bytes)
    requires a == [] || accepted == []
    ensures front + a + (accepted + tail) == front + accepted + (a + tail)
    ensures accepted + [] == accepted && a + [] == a
  {
    if a == [] {
      assert front + a == front && a + tail == tail;
    } else {
      assert accepted + tail == tail && front + accepted == front;
    }
  }

  /** What one Write returned. */
  datatype Returned = Returned(n: nat, err: Fault)

  datatype Totals = Totals(stream: Stream, sum: nat, taken: bytes, results: seq<Returned>)

  /** The pipe's answers must fit the buffers offered to it. */
  ghost predicate CallsOk(s: Stream, calls: seq<Call>)
    requires StreamOk(s)
    decreases |calls|
  {
    calls == [] ||
    (CallOk(s, calls[0]) && CallsOk(WriteStep(s, calls[0].buf, calls[0].out).stream, calls[1..]))
  }

  /** Final state, sum of the returned counts, the bytes counted, and what each Write returned. */
  ghost function WriteAll(s: Stream, calls: seq<Call>): Totals
    requires StreamOk(s) && CallsOk(s, calls)
    decreases |calls|
  {
    if calls == [] then Totals(s, 0, [], [])
    else
      var w := WriteStep(s, calls[0].buf, calls[0].out);
      var rest := WriteAll(w.stream, calls[1..]);
      Totals(rest.stream, w.n + rest.sum, calls[0].buf[..w.n] + rest.taken, [Returned(w.n, w.err)] + rest.results)
  }

  /**
   Over any sequence of Writes, failing ones included, the returned counts add
   up to the record pointer plus the bytes the pipe took, and exactly the
   counted bytes are in the record and the pipe, in order.
   */
  lemma {:induction false} Accounting(s: Stream, calls: seq<Call>)
    requires Ordered(s) && CallsOk(s, calls)
    ensures var t := WriteAll(s, calls);
      && Ordered(t.stream) && |t.stream.record| == |s.record|
      && Taken(t.stream) == Taken(s) + t.taken
      && t.sum == |t.taken|
      && t.stream.pointer + |t.stream.accepted| == s.pointer + |s.accepted| + t.sum
    decreases |calls|
  {
    if calls == [] {
      assert Taken(s) + [] == Taken(s);
    } else {
      var w := WriteStep(s, calls[0].buf, calls[0].out);
      WriteTakes(s, calls[0]);
      Accounting(w.stream, calls[1..]);
      Assoc(Taken(s), calls[0].buf[..w.n], WriteAll(w.stream, calls[1..]).taken);
    }
  }

  /** After a failure no later Write changes anything or takes a byte, and each returns the kept error. */
  lemma {:induction false} FailureIsSticky(s: Stream, calls: seq<Call>)
    requires StreamOk(s) && CallsOk(s, calls) && s.lastError != NoError
    ensures WriteAll(s, calls) == Totals(s, 0, [], seq(|calls|, i => Returned(0, s.lastError)))
    decreases |calls|
  {
    if calls != [] {
      FailureIsSticky(s, calls[1..]);
      assert seq(|calls|, i => Returned(0, s.lastError)) == [Returned(0, s.lastError)] + seq(|calls| - 1, i => Returned(0, s.lastError));
    }
  }

  // ---- What the Writes return ----

  /** The bytes offered by the first n Writes. */
  function Offer(calls: seq<Call>, n: nat): nat
    requires n <= |calls|
  {
    if n == 0 then 0 else |calls[0].buf| + Offer(calls[1..], n - 1)
  }

  /** With room bytes missing in the record, Write i gets as far as the pipe if none before it failed. */
  predicate ToPipe(room: nat, calls: seq<Call>, i: nat)
    requires i < |calls|
  {
    calls[i].buf != [] && Offer(calls, i) + |calls[i].buf| > room
  }

  /** And the pipe answers it with an error. */
  predicate PipeFails(room: nat, calls: seq<Call>, i: nat)
    requires i < |calls|
  {
    ToPipe(room, calls, i) && calls[i].out.err != NoError
  }

  predicate NoFailure(room: nat, calls: seq<Call>, n: nat)
    requires n <= |calls|
  {
    forall i :: 0 <= i < n ==> !PipeFails(room, calls, i)
  }

  /** The part of Write i that the record still takes. */
  function Missing(room: nat, calls: seq<Call>, i: nat): nat
    requires i < |calls|
  {
    if Offer(calls, i) < room then room - Offer(calls, i) else 0
  }

  /** Behind the first Write the same questions are asked with less room. */
  lemma Shift(room: nat, calls: seq<Call>, i: nat)
    requires 0 < i < |calls|
    ensures var left := room - Min(room, |calls[0].buf|);
      && (ToPipe(room, calls, i) <==> ToPipe(left, calls[1..], i - 1))
      && (PipeFails(room, calls, i) <==> PipeFails(left, calls[1..], i - 1))
      && Missing(room, calls, i) == Missing(left, calls[1..], i - 1)
  {}

  lemma ShiftAll(room: nat, calls: seq<Call>, n: nat)
    requires 0 < n <= |calls|
    ensures NoFailure(room, calls, n) <==>
      !PipeFails(room, calls, 0) && NoFailure(room - Min(room, |calls[0].buf|), calls[1..], n - 1)
  {
    var left, rest := room - Min(room, |calls[0].buf|), calls[1..];
    forall i | 0 < i < n ensures PipeFails(room, calls, i) <==> PipeFails(left, rest, i - 1) {
      Shift(room, calls, i);
    }
    if !PipeFails(room, calls, 0) && NoFailure(left, rest, n - 1) {
      forall i | 0 <= i < n ensures !PipeFails(room, calls, i) {
        assert i > 0 ==> !PipeFails(left, rest, i - 1);
      }
    }
    if NoFailure(room, calls, n) {
      forall i | 0 <= i < n - 1 ensures !PipeFails(left, rest, i) {
        assert !PipeFails(room, calls, i + 1);
      }
    }
  }

  /**
   What Write j of any sequence returns. Before a failure the error is nil and
   the count is the whole buffer, or the missing part of the record and what the
   pipe took. The first failure returns "receiving stream failed" exactly for a
   broken pipe, and every Write behind it returns no count and the same error.
   */
  ghost predicate ReturnsAs(room: nat, calls: seq<Call>, rs: seq<Returned>, j: nat)
    requires j < |calls| == |rs|
  {
    && (rs[j].err == NoError <==> NoFailure(room, calls, j + 1))
    && (NoFailure(room, calls, j) ==>
          && rs[j].n == (if ToPipe(room, calls, j) then Missing(room, calls, j) + calls[j].out.n else |calls[j].buf|)
          && (PipeFails(room, calls, j) ==>
                rs[j].err == if calls[j].out.err == BrokenPipe then Failed else Unexpected(calls[j].out.err)))
    && (!NoFailure(room, calls, j) ==> j > 0 && rs[j] == Returned(0, rs[j - 1].err))
  }

  lemma FirstReturns(s: Stream, calls: seq<Call>)
    requires StreamOk(s) && CallsOk(s, calls) && s.lastError == NoError && calls != []
    ensures var room, w := |s.record| - s.pointer, WriteStep(s, calls[0].buf, calls[0].out);
      && (w.err == NoError <==> NoFailure(room, calls, 1)) && w.stream.lastError == w.err
      && |w.stream.record| - w.stream.pointer == room - Min(room, |calls[0].buf|)
      && w.n == (if ToPipe(room, calls, 0) then Missing(room, calls, 0) + calls[0].out.n else |calls[0].buf|)
      && (PipeFails(room, calls, 0) ==>
            w.err == if calls[0].out.err == BrokenPipe then Failed else Unexpected(calls[0].out.err))
  {
    FilledPrefix(s, calls[0].buf);
    var room := |s.record| - s.pointer;
    assert NoFailure(room, calls, 1) <==> !PipeFails(room, calls, 0);
  }

  lemma ReturnsBehind(room: nat, calls: seq<Call>, r: Returned, rs: seq<Returned>, j: nat)
    requires 0 < j < |calls| == 1 + |rs| && !PipeFails(room, calls, 0) && r.err == NoError
    requires ReturnsAs(room - Min(room, |calls[0].buf|), calls[1..], rs, j - 1)
    ensures ReturnsAs(room, calls, [r] + rs, j)
  {
    ShiftAll(room, calls, j);
    ShiftAll(room, calls, j + 1);
    Shift(room, calls, j);
    var all := [r] + rs;
    assert all[j] == rs[j - 1] && (j > 1 ==> all[j - 1] == rs[j - 2]);
  }

  lemma ReturnsStuck(room: nat, calls: seq<Call>, r: Returned, rs: seq<Returned>, j: nat)
    requires 0 < j < |calls| == 1 + |rs| && PipeFails(room, calls, 0) && r.err != NoError
    requires rs == seq(|rs|, i => Returned(0, r.err))
    ensures ReturnsAs(room, calls, [r] + rs, j)
  {
    var all := [r] + rs;
    assert all[j] == rs[j - 1] == Returned(0, r.err);
    assert all[j - 1].err == r.err by {
      assert j > 1 ==> all[j - 1] == rs[j - 2];
    }
  }

  lemma ReturnsFirst(s: Stream, calls: seq<Call>, r: Returned, rs: seq<Returned>)
    requires StreamOk(s) && CallsOk(s, calls) && s.lastError == NoError && |calls| == 1 + |rs|
    requires var w := WriteStep(s, calls[0].buf, calls[0].out); r == Returned(w.n, w.err)
    ensures ReturnsAs(|s.record| - s.pointer, calls, [r] + rs, 0)
  {
    FirstReturns(s, calls);
    assert NoFailure(|s.record| - s.pointer, calls, 0);
    assert ([r] + rs)[0] == r;
  }

  lemma {:induction false} WritesReturn(s: Stream, calls: seq<Call>, j: nat)
    requires StreamOk(s) && CallsOk(s, calls) && s.lastError == NoError && j < |calls|
    ensures |WriteAll(s, calls).results| == |calls|
    ensures ReturnsAs(|s.record| - s.pointer, calls, WriteAll(s, calls).results, j)
    decreases |calls|
  {
    var room, w, rest := |s.record| - s.pointer, WriteStep(s, calls[0].buf, calls[0].out), calls[1..];
    var r, rs := Returned(w.n, w.err), WriteAll(w.stream, rest).results;
    ResultCount(w.stream, rest);
    assert WriteAll(s, calls).results == [r] + rs;
    if j == 0 {
      ReturnsFirst(s, calls, r, rs);
      return;
    }
    FirstReturns(s, calls);
    if w.err != NoError {
      FailureIsSticky(w.stream, rest);
      ReturnsStuck(room, calls, r, rs, j);
    } else {
      WritesReturn(w.stream, rest, j - 1);
      ReturnsBehind(room, calls, r, rs, j);
    }
  }

  lemma {:induction false} ResultCount(s: Stream, calls: seq<Call>)
    requires StreamOk(s) && CallsOk(s, calls)
    ensures |WriteAll(s, calls).results| == |calls|
    decreases |calls|
  {
    if calls != [] {
      ResultCount(WriteStep(s, calls[0].buf, calls[0].out).stream, calls[1..]);
    }
  }

  /** A pipe write that reports no error took everything. */
  predicate Clean(s: Stream, c: Call)
    requires StreamOk(s)
  {
    c.out == PipeWrite(|c.buf| - RecordPart(s, c.buf), NoError)
  }

  ghost predicate AllClean(s: Stream, calls: seq<Call>)
    requires StreamOk(s) && CallsOk(s, calls)
    decreases |calls|
  {
    calls == [] ||
    (Clean(s, calls[0]) && AllClean(WriteStep(s, calls[0].buf, calls[0].out).stream, calls[1..]))
  }

  function Joined(calls: seq<Call>): bytes {
    if calls == [] then [] else calls[0].buf + Joined(calls[1..])
  }

  /** Without errors every byte offered ends up in the record or in the pipe, whatever the chunking. */
  lemma {:induction false} CleanWritesTakeAll(s: Stream, calls: seq<Call>)
    requires Ordered(s) && CallsOk(s, calls) && AllClean(s, calls) && s.lastError == NoError
    ensures WriteAll(s, calls).taken == Joined(calls) && WriteAll(s, calls).stream.lastError == NoError
    decreases |calls|
  {
    if calls != [] {
      var w := WriteStep(s, calls[0].buf, calls[0].out);
      WriteTakes(s, calls[0]);
      CleanWritesTakeAll(w.stream, calls[1..]);
      assert calls[0].buf[..w.n] == calls[0].buf;
    }
  }
}
