/**
 The send stream (ioctl/wrappers.go): a kernel worker that writes into a pipe,
 posts its verdict into a one-slot channel and then closes the pipe, and a
 reader that turns the end of the pipe into that verdict.
 */
module SendStream {
  import opened Bytes

  /** Go error values; NoError is nil, a PipeFault comes from reading the pipe and a Fault from the ioctl. */
  datatype Fault = NoError | EndOfFile | Fault(code: int) | PipeFault(code: int)

  /** What one Read of the pipe returned. */
  datatype PipeRead = PipeRead(data: bytes, err: Fault)

  /** The fields of sendStream that Read and peek update. */
  datatype Stream = Stream(peekBuf: bytes, lastError: Fault, isEOF: bool)

  datatype ReadOut = ReadOut(stream: Stream, data: bytes, err: Fault)

  /** A nil verdict is shown to the reader as io.EOF. */
  function Shown(verdict: Fault): (e: Fault)
    ensures e != NoError
  {
    if verdict == NoError then EndOfFile else verdict
  }

  function AfterVerdict(s: Stream, verdict: Fault): Stream {
    s.(lastError := Shown(verdict), isEOF := true)
  }

  /** Whether a Read gets as far as the pipe. */
  predicate NeedsPipe(s: Stream) {
    !s.isEOF && s.peekBuf == []
  }

  /** Read into a buffer of n bytes; got and verdict only matter where the code asks for them. */
  function ReadStep(s: Stream, n: nat, got: PipeRead, verdict: Fault): ReadOut {
    if s.isEOF then ReadOut(s, [], s.lastError)
    else if s.peekBuf != [] then
      var k := if n < |s.peekBuf| then n else |s.peekBuf|;
      ReadOut(s.(peekBuf := s.peekBuf[k..]), s.peekBuf[..k], NoError)
    else if got.err == EndOfFile then ReadOut(AfterVerdict(s, verdict), got.data, Shown(verdict))
    else ReadOut(s, got.data, got.err)
  }

  /** peek keeps what it read for the first Reads. */
  function PeekStep(s: Stream, got: PipeRead, verdict: Fault): ReadOut {
    if s.isEOF then ReadOut(s, [], s.lastError)
    else
      var t := s.(peekBuf := s.peekBuf + got.data);
      if got.err == EndOfFile then ReadOut(AfterVerdict(t, verdict), got.data, Shown(verdict))
      else ReadOut(t, got.data, got.err)
  }

  class Sender {
    var peekBuf: bytes
    var lastError: Fault
    var isEOF: bool

    constructor ()
      ensures Fields() == Stream([], NoError, false)
    {
      peekBuf, lastError, isEOF := [], NoError, false;
    }

    ghost function Fields(): Stream
      reads this
    {
      Stream(peekBuf, lastError, isEOF)
    }

    /** Read; the pipe's answer and the channel's content are parameters. */
    method Read(buf: array<byte>, got: PipeRead, verdict: Fault) returns (n: nat, err: Fault)
      requires |got.data| <= buf.Length
      modifies this, buf
      ensures var out := old(ReadStep(Fields(), buf.Length, got, verdict));
        && Fields() == out.stream && err == out.err && n == |out.data| <= buf.Length
        && buf[..n] == out.data && buf[n..] == old(buf[..])[n..]
      ensures old(isEOF) ==> n == 0 && err == old(lastError) && Fields() == old(Fields())
      ensures !old(isEOF) && old(peekBuf) != [] ==> err == NoError && buf[..n] + peekBuf == old(peekBuf) && !isEOF
      ensures !old(isEOF) && old(peekBuf) == [] ==> buf[..n] == got.data && peekBuf == []
      ensures !old(isEOF) && old(peekBuf) == [] && got.err != EndOfFile ==> err == got.err && !isEOF
      ensures !old(isEOF) && old(peekBuf) == [] && got.err == EndOfFile ==>
        isEOF && err == lastError == if verdict == NoError then EndOfFile else verdict
    {
      if isEOF {
        return 0, lastError;
      }
      if |peekBuf| > 0 {
        n := Copy(buf, peekBuf);
        peekBuf := peekBuf[n..];
        return n, NoError;
      }
      n := Copy(buf, got.data);
      if got.err == EndOfFile {
        lastError := verdict;
        if lastError == NoError {
          lastError := EndOfFile;
        }
        isEOF := true;
        return n, lastError;
      }
      return n, got.err;
    }

    method Peek(buf: array<byte>, got: PipeRead, verdict: Fault) returns (n: nat, err: Fault)
      requires |got.data| <= buf.Length
      modifies this, buf
      ensures var out := old(PeekStep(Fields(), got, verdict));
        Fields() == out.stream && err == out.err && n == |out.data| <= buf.Length && buf[..n] == out.data
      ensures old(isEOF) ==> n == 0 && err == old(lastError) && Fields() == old(Fields())
      ensures !old(isEOF) ==> buf[..n] == got.data && peekBuf == old(peekBuf) + got.data
      ensures !old(isEOF) && got.err != EndOfFile ==> err == got.err && !isEOF
      ensures !old(isEOF) && got.err == EndOfFile ==> isEOF && err == lastError == if verdict == NoError then EndOfFile else verdict
    {
      if isEOF {
        return 0, lastError;
      }
      n := Copy(buf, got.data);
      assert n == |got.data|;
      peekBuf := peekBuf + buf[..n];
      if got.err == EndOfFile {
        lastError := verdict;
        if lastError == NoError {
          lastError := EndOfFile;
        }
        isEOF := true;
        return n, lastError;
      }
      return n, got.err;
    }
  }

  /** Go's copy: as much of src as fits. */
  method Copy(dst: array<byte>, src: bytes) returns (n: nat)
    modifies dst
    ensures n == (if |src| < dst.Length then |src| else dst.Length)
    ensures dst[..n] == src[..n] && dst[n..] == old(dst[..])[n..]
  {
    n := if |src| < dst.Length then |src| else dst.Length;
    for i := 0 to n
      invariant forall j :: 0 <= j < i ==> dst[j] == src[j]
      invariant forall j :: i <= j < dst.Length ==> dst[j] == old(dst[j])
    {
      dst[i] := src[i];
    }
  }

  // ---- The protocol ----

  /** The goroutine of Send: in the ioctl, verdict posted, pipe closed. */
  datatype Worker = Running | Posted | Closed

  /** Send has not returned yet, has handed out the stream, or has returned an error. */
  datatype Phase = Opening | Streaming | Refused(err: Fault)

  /** What one Read of the stream returned. */
  datatype Returned = Returned(data: bytes, err: Fault)

  /** The caller's thread; AtEof has read the end of the pipe and is about to receive the verdict. */
  datatype Reader = Idle | AtEof

  datatype System = System(
    worker: Worker,
    pipe: bytes,
    channel: seq<Fault>,
    stream: Stream,
    phase: Phase,
    reader: Reader,
    // histories
    written: bytes,
    delivered: bytes,
    posted: seq<Fault>,
    received: seq<Fault>,
    results: seq<Returned>)

  const INIT := System(Running, [], [], Stream([], NoError, false), Opening, Idle, [], [], [], [], [])

  const CHANNEL_CAPACITY := 1

  datatype Action =
    | KernelWrites(data: bytes)
    | WorkerPosts(verdict: Fault)
    | WorkerCloses
    | Peeks(got: PipeRead)
    | Reads(n: nat, got: PipeRead)
    | SeesEof
    | Receives

  /** The answers a pipe read of n bytes can give other than end of file. */
  predicate PipeGives(s: System, n: nat, got: PipeRead) {
    || (n == 0 && got == PipeRead([], NoError))
    || (got.data == [] && got.err.PipeFault?)
    || (got.err == NoError && 0 < |got.data| <= n && got.data <= s.pipe)
  }

  /** The end of a pipe is seen only when it is empty and its write side closed, and then without data. */
  predicate PipeEnded(s: System) {
    s.pipe == [] && s.worker == Closed
  }

  ghost predicate Enabled(s: System, a: Action) {
    match a
    case KernelWrites(_) => s.worker == Running
    case WorkerPosts(v) => s.worker == Running && |s.channel| < CHANNEL_CAPACITY && !v.PipeFault?
    case WorkerCloses => s.worker == Posted
    case Peeks(got) => s.reader == Idle && s.phase == Opening && PipeGives(s, 1, got)
    case Reads(n, got) => s.reader == Idle && s.phase == Streaming && (NeedsPipe(s.stream) ==> PipeGives(s, n, got))
    case SeesEof => s.reader == Idle && NeedsPipe(s.stream) && !s.phase.Refused? && PipeEnded(s)
    case Receives => s.reader == AtEof && s.channel != []
  }

  ghost function Apply(s: System, a: Action): System
    requires Enabled(s, a)
  {
    match a
    case KernelWrites(data) => s.(pipe := s.pipe + data, written := s.written + data)
    case WorkerPosts(v) => s.(worker := Posted, channel := s.channel + [v], posted := s.posted + [v])
    case WorkerCloses => s.(worker := Closed)
    case Peeks(got) =>
      var out := PeekStep(s.stream, got, NoError);
      s.(stream := out.stream, pipe := s.pipe[|got.data|..], phase := if out.err == NoError then Streaming else Refused(out.err))
    case Reads(n, got) =>
      var out := ReadStep(s.stream, n, got, NoError);
      var used := if NeedsPipe(s.stream) then |got.data| else 0;
      s.(stream := out.stream, pipe := s.pipe[used..], delivered := s.delivered + out.data,
         results := s.results + [Returned(out.data, out.err)])
    case SeesEof => s.(reader := AtEof)
    case Receives =>
      var v := s.channel[0];
      s.(reader := Idle, channel := s.channel[1..], received := s.received + [v], stream := AfterVerdict(s.stream, v),
         phase := if s.phase == Opening then Refused(Shown(v)) else s.phase,
         results := if s.phase == Opening then s.results else s.results + [Returned([], Shown(v))])
  }

  /** A run: every state follows from the one before by some enabled action. */
  ghost predicate IsRun(ss: seq<System>, actions: seq<Action>) {
    && |ss| == |actions| + 1
    && ss[0] == INIT
    && forall i :: 0 <= i < |actions| ==> Enabled(ss[i], actions[i]) && ss[i + 1] == Apply(ss[i], actions[i])
  }

  ghost predicate Inv(s: System) {
    && s.written == s.delivered + s.stream.peekBuf + s.pipe
    && (s.phase == Opening ==> s.stream.peekBuf == [] && s.delivered == [] && !s.stream.isEOF)
    && (if s.worker == Running then s.posted == [] else |s.posted| == 1)
    && s.posted == s.received + s.channel
    && (s.reader == AtEof ==> PipeEnded(s) && NeedsPipe(s.stream) && s.received == [] && !s.phase.Refused?)
    && (s.stream.isEOF <==> s.received != [])
    && (s.stream.isEOF ==> PipeEnded(s) && s.stream.peekBuf == [] && s.stream.lastError == Shown(s.received[0]))
    && (forall k :: 0 <= k < |s.posted| ==> !s.posted[k].PipeFault?)
    && ReturnsOk(s)
    && (s.phase == Opening ==> s.results == [])
    && (s.phase.Refused? ==> s.results == [] && RefusalOk(s))
  }

  /** An error that ends the stream, as opposed to one of the pipe. */
  predicate Final(e: Fault) {
    e == EndOfFile || e.Fault?
  }

  function Joined(rs: seq<Returned>): bytes {
    if rs == [] then [] else Joined(rs[..|rs| - 1]) + rs[|rs| - 1].data
  }

  /** What was returned is what was delivered, and a final error only once the verdict was received. */
  ghost predicate ReturnsOk(s: System) {
    && Joined(s.results) == s.delivered
    && (forall k :: 0 <= k < |s.results| && Final(s.results[k].err) ==>
          s.stream.isEOF && s.results[k] == Returned([], s.stream.lastError))
    && (forall j, k :: 0 <= j < k < |s.results| && Final(s.results[j].err) ==> s.results[k] == s.results[j])
    && (s.stream.isEOF && s.phase == Streaming ==> s.results != [] && s.results[|s.results| - 1] == Returned([], s.stream.lastError))
  }

  /** Send itself returns the error of the pipe, or the verdict if the stream ended before a byte came. */
  ghost predicate RefusalOk(s: System) {
    s.phase.Refused? ==>
      if s.stream.isEOF then s.received != [] && s.phase.err == Shown(s.received[0]) else s.phase.err.PipeFault?
  }

  lemma JoinedAppend(rs: seq<Returned>, r: Returned)
    ensures Joined(rs + [r]) == Joined(rs) + r.data
  {
    var all := rs + [r];
    assert all[..|all| - 1] == rs && all[|all| - 1] == r;
  }

  lemma WriteKept(s: System, data: bytes)
    requires Inv(s) && Enabled(s, KernelWrites(data))
    ensures Inv(Apply(s, KernelWrites(data)))
  {
    Assoc(s.delivered + s.stream.peekBuf, s.pipe, data);
  }

  lemma TakeFromPipe(a: bytes, pipe: bytes, data: bytes)
    requires data <= pipe
    ensures a + data + pipe[|data|..] == a + pipe
  {
    Assoc(a, data, pipe[|data|..]);
    assert data + pipe[|data|..] == pipe;
  }

  lemma PeekKept(s: System, got: PipeRead)
    requires Inv(s) && Enabled(s, Peeks(got))
    ensures Inv(Apply(s, Peeks(got)))
  {
    assert s.delivered + [] == s.delivered && [] + got.data == got.data;
    TakeFromPipe(s.delivered, s.pipe, got.data);
  }

  lemma ReadKept(s: System, n: nat, got: PipeRead)
    requires Inv(s) && Enabled(s, Reads(n, got))
    ensures Inv(Apply(s, Reads(n, got)))
  {
    var peek := s.stream.peekBuf;
    var out := ReadStep(s.stream, n, got, NoError);
    JoinedAppend(s.results, Returned(out.data, out.err));
    if s.stream.isEOF {
      assert s.delivered + [] == s.delivered && s.pipe[0..] == s.pipe;
    } else if peek != [] {
      assert out.data + out.stream.peekBuf == peek;
      Assoc(s.delivered, out.data, out.stream.peekBuf);
      assert s.pipe[0..] == s.pipe;
    } else {
      assert s.delivered + [] == s.delivered && s.delivered + got.data + [] == s.delivered + got.data;
      TakeFromPipe(s.delivered, s.pipe, got.data);
    }
  }

  lemma ReceiveKept(s: System)
    requires Inv(s) && Enabled(s, Receives)
    ensures Inv(Apply(s, Receives))
  {
    assert s.received == [] && s.posted == s.channel;
    JoinedAppend(s.results, Returned([], Shown(s.channel[0])));
    assert s.delivered + [] == s.delivered;
  }

  lemma InvKept(s: System, a: Action)
    requires Inv(s) && Enabled(s, a)
    ensures Inv(Apply(s, a))
  {
    match a
    case KernelWrites(data) => WriteKept(s, data);
    case Peeks(got) => PeekKept(s, got);
    case Reads(n, got) => ReadKept(s, n, got);
    case Receives => ReceiveKept(s);
    case _ =>
  }

  lemma {:induction false} RunInv(ss: seq<System>, actions: seq<Action>, i: nat)
    requires IsRun(ss, actions) && i < |ss|
    ensures Inv(ss[i])
  {
    if i > 0 {
      RunInv(ss, actions, i - 1);
      InvKept(ss[i - 1], actions[i - 1]);
    }
  }

  // ---- What holds in every interleaving ----

  /** When the reader has seen the end of the pipe the one verdict lies in the channel; posting it never blocked. */
  lemma VerdictReady(ss: seq<System>, actions: seq<Action>, i: nat)
    requires IsRun(ss, actions) && i < |ss|
    ensures ss[i].reader == AtEof ==> Enabled(ss[i], Receives) && ss[i].channel == ss[i].posted && |ss[i].posted| == 1
    ensures ss[i].worker == Running ==> |ss[i].channel| < CHANNEL_CAPACITY == 1
    ensures |ss[i].channel| <= 1 && |ss[i].received| <= 1
  {
    RunInv(ss, actions, i);
  }

  /** What the reader has been given is a prefix of what the kernel wrote, and all of it once the end is reported. */
  lemma NothingLost(ss: seq<System>, actions: seq<Action>, i: nat)
    requires IsRun(ss, actions) && i < |ss|
    ensures ss[i].delivered <= ss[i].written
    ensures ss[i].stream.isEOF ==> ss[i].delivered == ss[i].written
    ensures ss[i].stream.isEOF ==> |ss[i].posted| == 1 && ss[i].stream.lastError == Shown(ss[i].posted[0])
  {
    RunInv(ss, actions, i);
    var s := ss[i];
    assert s.written == s.delivered + (s.stream.peekBuf + s.pipe);
  }

  // ---- What the Reads return ----

  /**
   Each Read adds one result: nothing and the kept error behind the end, peeked
   bytes with nil before the pipe is asked, and otherwise the pipe's own answer.
   */
  lemma ReadReturns(ss: seq<System>, actions: seq<Action>, i: nat)
    requires IsRun(ss, actions) && i < |actions| && actions[i].Reads?
    ensures var s, t, n, got := ss[i], ss[i + 1], actions[i].n, actions[i].got;
      exists r :: t.results == s.results + [r] && t.delivered == s.delivered + r.data && |r.data| <= n
        && (s.stream.isEOF ==> r == Returned([], s.stream.lastError) && s.delivered == s.written)
        && (!s.stream.isEOF && s.stream.peekBuf != [] ==>
              && r.err == NoError && r.data + t.stream.peekBuf == s.stream.peekBuf && t.pipe == s.pipe
              && (t.stream.peekBuf == [] || |r.data| == n))
        && (!s.stream.isEOF && s.stream.peekBuf == [] ==>
              && r == Returned(got.data, got.err) && r.data + t.pipe == s.pipe
              && (r.err == NoError || (r.err.PipeFault? && r.data == [])))
  {
    RunInv(ss, actions, i);
    var s, n, got := ss[i], actions[i].n, actions[i].got;
    var out := ReadStep(s.stream, n, got, NoError);
    var r := Returned(out.data, out.err);
    assert ss[i + 1].results == s.results + [r];
    assert s.stream.isEOF ==> s.delivered + [] + [] == s.delivered;
  }

  /** The one other step that returns from a Read receives the verdict; no step of anyone else changes the results. */
  lemma OthersReturn(ss: seq<System>, actions: seq<Action>, i: nat)
    requires IsRun(ss, actions) && i < |actions| && !actions[i].Reads?
    ensures var s, t := ss[i], ss[i + 1];
      if actions[i].Receives? && s.phase == Streaming then
        && |t.posted| == 1 && t.received == t.posted && t.delivered == s.delivered == t.written
        && t.results == s.results + [Returned([], if t.posted[0] == NoError then EndOfFile else t.posted[0])]
      else t.results == s.results
  {
    RunInv(ss, actions, i);
    RunInv(ss, actions, i + 1);
    var s := ss[i];
    if actions[i].Receives? {
      assert s.written == s.delivered + [] + [] == s.delivered;
    }
  }

  /**
   io.EOF or an error of the ioctl is returned by a Read if and only if, when it
   returns, everything written has been delivered and the verdict was received;
   it is then io.EOF for a nil verdict and the verdict itself otherwise.
   */
  lemma FinalErrorIff(ss: seq<System>, actions: seq<Action>, i: nat)
    requires IsRun(ss, actions) && i < |actions| && |ss[i + 1].results| > |ss[i].results|
    ensures var t := ss[i + 1];
      var last := t.results[|t.results| - 1];
      && ((last.err == EndOfFile || last.err.Fault?) <==> (t.delivered == t.written && t.received != []))
      && (t.received != [] ==>
            |t.posted| == 1 && last == Returned([], if t.posted[0] == NoError then EndOfFile else t.posted[0]))
      && (t.received == [] ==> last.err == NoError || (last.err.PipeFault? && last.data == []))
  {
    RunInv(ss, actions, i);
    RunInv(ss, actions, i + 1);
    NothingLost(ss, actions, i + 1);
    if actions[i].Reads? {
      ReadReturns(ss, actions, i);
    } else {
      OthersReturn(ss, actions, i);
    }
  }

  /** In every state: the results hold the delivered bytes in order, and from the first final error on all are the same. */
  lemma ResultsLaw(ss: seq<System>, actions: seq<Action>, i: nat)
    requires IsRun(ss, actions) && i < |ss|
    ensures var s := ss[i];
      && Joined(s.results) == s.delivered
      && (s.phase != Streaming ==> s.results == [])
      && forall j :: 0 <= j < |s.results| && (s.results[j].err == EndOfFile || s.results[j].err.Fault?) ==>
           s.delivered == s.written && forall k :: j < k < |s.results| ==> s.results[k] == s.results[j]
  {
    RunInv(ss, actions, i);
    NothingLost(ss, actions, i);
  }

  /** The peek keeps its byte for the first Read and opens the stream, or makes Send return the pipe's error. */
  lemma PeekReturns(ss: seq<System>, actions: seq<Action>, i: nat)
    requires IsRun(ss, actions) && i < |actions| && actions[i].Peeks?
    ensures var s, t, got := ss[i], ss[i + 1], actions[i].got;
      && got.data == t.stream.peekBuf && t.stream.peekBuf + t.pipe == s.pipe && !t.stream.isEOF
      && if got.err == NoError then t.phase == Streaming && |t.stream.peekBuf| == 1 else t.phase == Refused(got.err)
  {
    RunInv(ss, actions, i);
    assert [] + actions[i].got.data == actions[i].got.data;
  }

  /**
   Send returns an error only if the pipe failed or ended before a byte came,
   and then nothing was delivered. In the second case nothing was ever written,
   and the error is io.EOF for a nil verdict and the verdict itself otherwise.
   */
  lemma RefusalLaw(ss: seq<System>, actions: seq<Action>, i: nat)
    requires IsRun(ss, actions) && i < |ss| && ss[i].phase.Refused?
    ensures var s := ss[i];
      && s.delivered == [] && s.phase.err != NoError
      && (s.phase.err.PipeFault? <==> s.received == [])
      && (s.received != [] ==>
            |s.posted| == 1 && s.written == [] && s.phase.err == if s.posted[0] == NoError then EndOfFile else s.posted[0])
  {
    RunInv(ss, actions, i);
    NothingLost(ss, actions, i);
    assert Joined([]) == [];
  }

  // ---- The methods of the stream are these actions ----

  /** A Read or peek that does not meet the end of the pipe is one action; the verdict is not looked at. */
  lemma ReadIsAction(s: System, n: nat, got: PipeRead, verdict: Fault)
    requires Enabled(s, Reads(n, got))
    ensures var out := ReadStep(s.stream, n, got, verdict);
      && Apply(s, Reads(n, got)).stream == out.stream && Apply(s, Reads(n, got)).delivered == s.delivered + out.data
      && Apply(s, Reads(n, got)).results == s.results + [Returned(out.data, out.err)]
  {}

  lemma PeekIsAction(s: System, got: PipeRead, verdict: Fault)
    requires Enabled(s, Peeks(got))
    ensures var out := PeekStep(s.stream, got, verdict);
      && Apply(s, Peeks(got)).stream == out.stream
      && Apply(s, Peeks(got)).phase == if out.err == NoError then Streaming else Refused(out.err)
  {}

  /**
   One that does meet it is two: the end is seen, then the verdict received.
   The receive is ready at once, and together they do what the method does with
   the verdict in the channel.
   */
  lemma EofIsTwoActions(s: System, n: nat)
    requires Inv(s) && Enabled(s, SeesEof)
    ensures Enabled(Apply(s, SeesEof), Receives) && |s.channel| == 1
    ensures var ended, verdict := PipeRead([], EndOfFile), s.channel[0];
      var after := Apply(Apply(s, SeesEof), Receives);
      && after.channel == [] && after.received == [verdict] && after.delivered == s.delivered
      && (s.phase == Streaming ==>
            && ReadStep(s.stream, n, ended, verdict) == ReadOut(after.stream, [], Shown(verdict))
            && after.phase == Streaming && after.results == s.results + [Returned([], Shown(verdict))])
      && (s.phase == Opening ==>
            && PeekStep(s.stream, ended, verdict) == ReadOut(after.stream, [], Shown(verdict))
            && after.phase == Refused(Shown(verdict)))
  {
    InvKept(s, SeesEof);
    assert s.received == [] && s.posted == s.channel;
    assert s.stream.peekBuf + [] == s.stream.peekBuf;
  }

  lemma EofStep(s: System, a: Action)
    requires Inv(s) && Enabled(s, a) && s.stream.isEOF
    ensures Apply(s, a).stream == s.stream && Apply(s, a).delivered == s.delivered && Apply(s, a).written == s.written
  {}

  /** Once reported, the end and its error stay: every later Read returns no bytes and that error. */
  lemma {:induction false} EofIsSticky(ss: seq<System>, actions: seq<Action>, i: nat, j: nat)
    requires IsRun(ss, actions) && i <= j < |ss| && ss[i].stream.isEOF
    ensures ss[j].stream == ss[i].stream && ss[j].delivered == ss[i].delivered
    ensures forall n: nat, got, v :: ReadStep(ss[j].stream, n, got, v) == ReadOut(ss[i].stream, [], ss[i].stream.lastError)
    decreases j
  {
    if i < j {
      EofIsSticky(ss, actions, i, j - 1);
      RunInv(ss, actions, j - 1);
      EofStep(ss[j - 1], actions[j - 1]);
    }
  }

  lemma StreamingStep(s: System, a: Action)
    requires Inv(s) && Enabled(s, a) && (s.phase == Streaming ==> s.written != [])
    ensures Apply(s, a).phase == Streaming ==> Apply(s, a).written != []
  {
    InvKept(s, a);
  }

  /** Fail-fast: Send hands out a stream only after at least one byte was written. */
  lemma {:induction false} FailFast(ss: seq<System>, actions: seq<Action>, i: nat)
    requires IsRun(ss, actions) && i < |ss|
    ensures ss[i].phase == Streaming ==> ss[i].written != []
  {
    if i > 0 {
      FailFast(ss, actions, i - 1);
      RunInv(ss, actions, i - 1);
      StreamingStep(ss[i - 1], actions[i - 1]);
    }
  }
}
