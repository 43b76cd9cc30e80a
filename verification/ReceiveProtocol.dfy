/**
 The receive protocol as a step system: the caller's Writes and its single
 WaitAndClose on one side, the worker of Receive on the other, joined by the
 two-slot record channel and the one-slot verdict channel.
 */
module ReceiveProtocol {
  import opened Bytes
  import opened ReceiveStream

  const VERDICT_CAPACITY := 1

  /** The worker waits for a record, runs the ioctl on one, was refused one, or has posted. */
  datatype Worker = Waiting | Running(record: bytes) | Refusing | Done

  /** The caller writes, has sent the empty record, has closed the channel, or has its verdict. */
  datatype Caller = Writing | Sent | Closed | Finished(verdict: Fault)

  datatype System = System(
    stream: Stream,
    channel: seq<bytes>,
    verdicts: seq<Fault>,
    worker: Worker,
    caller: Caller,
    panicked: bool,
    // histories
    sent: seq<bytes>,
    took: seq<bytes>,
    posted: seq<Fault>)

  /** Receive: the record buffer is empty if the caller supplied a begin record of its own. */
  function Init(supplied: bool): System {
    System(Stream(Zeros(if supplied then 0 else RECORD_SIZE), 0, NoError, []), [], [], Waiting, Writing, false, [], [], [])
  }

  datatype Action =
    | Write(buf: bytes, out: PipeWrite)
    | SendEmpty
    | CloseChannel
    | ReceiveVerdict
    | WorkerTakes
    | WorkerPosts(verdict: Fault)

  /** A send on the record channel goes through at once. */
  predicate CanSend(s: System) {
    |s.channel| < CHANNEL_CAPACITY
  }

  ghost predicate Enabled(s: System, a: Action) {
    && !s.panicked
    && StreamOk(s.stream)
    && match a
       case Write(buf, out) =>
         && (s.caller == Writing || s.caller.Finished?)
         && out.n <= |buf| - RecordPart(s.stream, buf)
         && (WriteStep(s.stream, buf, out).handOver && s.caller == Writing ==> CanSend(s))
       case SendEmpty => s.caller == Writing && CanSend(s)
       case CloseChannel => s.caller == Sent
       case ReceiveVerdict => s.caller == Closed && s.verdicts != []
       case WorkerTakes => s.worker == Waiting && s.channel != []
       case WorkerPosts(v) =>
         && |s.verdicts| < VERDICT_CAPACITY
         && (s.worker.Running? || (s.worker == Refusing && v == NotEnoughData))
  }

  /** Sending on the closed channel panics; that is the only way a Write after WaitAndClose can. */
  ghost function Apply(s: System, a: Action): System
    requires Enabled(s, a)
  {
    match a
    case Write(buf, out) =>
      var w := WriteStep(s.stream, buf, out);
      if !w.handOver then s.(stream := w.stream)
      else if s.caller == Writing then
        s.(stream := w.stream, channel := s.channel + [w.stream.record], sent := s.sent + [w.stream.record])
      else s.(stream := w.stream, panicked := true)
    case SendEmpty => s.(channel := s.channel + [[]], sent := s.sent + [[]], caller := Sent)
    case CloseChannel => s.(caller := Closed)
    case ReceiveVerdict => s.(verdicts := s.verdicts[1..], caller := Finished(s.verdicts[0]))
    case WorkerTakes =>
      var item := s.channel[0];
      s.(channel := s.channel[1..], took := s.took + [item],
         worker := if |item| == RECORD_SIZE then Running(item) else Refusing)
    case WorkerPosts(v) => s.(verdicts := s.verdicts + [v], posted := s.posted + [v], worker := Done)
  }

  ghost predicate IsRun(supplied: bool, ss: seq<System>, actions: seq<Action>) {
    && |ss| == |actions| + 1
    && ss[0] == Init(supplied)
    && forall i :: 0 <= i < |actions| ==> Enabled(ss[i], actions[i]) && ss[i + 1] == Apply(ss[i], actions[i])
  }

  /** The record that has been sent, if any. */
  function RecordSent(s: System): seq<bytes> {
    if s.stream.record != [] && s.stream.pointer == |s.stream.record| && !s.panicked then [s.stream.record] else []
  }

  ghost predicate Inv(supplied: bool, s: System) {
    && Ordered(s.stream)
    && |s.stream.record| == (if supplied then 0 else RECORD_SIZE)
    && s.sent == s.took + s.channel
    && (s.caller == Writing ==> s.sent == RecordSent(s))
    && (s.caller != Writing ==>
          || (s.sent == [s.stream.record, []] && s.stream.pointer == |s.stream.record| && s.stream.record != [] && !s.panicked)
          || (s.sent == [[]] && (s.panicked || s.stream.record == [] || s.stream.pointer < |s.stream.record|)))
    && |s.took| == (if s.worker == Waiting then 0 else 1)
    && (s.worker.Running? ==> |s.worker.record| == RECORD_SIZE && s.took == [s.worker.record])
    && (s.worker == Refusing ==> s.took == [[]])
    && |s.posted| == (if s.worker == Done then 1 else 0)
    && s.verdicts == (if s.caller.Finished? then [] else s.posted)
    && (s.caller.Finished? ==> s.posted == [s.caller.verdict])
    && (s.worker == Done && s.took == [[]] ==> s.posted == [NotEnoughData])
    && (s.panicked ==> s.caller.Finished?)
  }

  lemma HandOver(s: Stream, c: Call)
    requires Ordered(s) && CallOk(s, c)
    ensures var w := WriteStep(s, c.buf, c.out);
      && (w.handOver <==> s.pointer < |s.record| && w.stream.pointer == |s.record|)
      && (s.pointer == |s.record| ==> w.stream.record == s.record && w.stream.pointer == s.pointer)
  {
    assert s.pointer == |s.record| && s.lastError == NoError ==> Filled(s, c.buf) == s.record;
  }

  lemma WriteKept(supplied: bool, s: System, a: Action)
    requires Inv(supplied, s) && Enabled(s, a) && a.Write?
    ensures Inv(supplied, Apply(s, a))
  {
    WriteTakes(s.stream, Call(a.buf, a.out));
    HandOver(s.stream, Call(a.buf, a.out));
  }

  lemma OtherKept(supplied: bool, s: System, a: Action)
    requires Inv(supplied, s) && Enabled(s, a) && !a.Write?
    ensures Inv(supplied, Apply(s, a))
  {
    if a.WorkerTakes? {
      assert s.took == [] && s.sent == s.channel;
      var item := s.channel[0];
      assert [] + [item] == [item];
      assert item == s.stream.record || item == [];
    }
  }

  lemma {:induction false} RunInv(supplied: bool, ss: seq<System>, actions: seq<Action>, i: nat)
    requires IsRun(supplied, ss, actions) && i < |ss|
    ensures Inv(supplied, ss[i])
  {
    if i > 0 {
      RunInv(supplied, ss, actions, i - 1);
      if actions[i - 1].Write? {
        WriteKept(supplied, ss[i - 1], actions[i - 1]);
      } else {
        OtherKept(supplied, ss[i - 1], actions[i - 1]);
      }
    }
  }

  // ---- What holds in every interleaving ----

  /** No send on the record channel blocks, no verdict blocks, and after WaitAndClose the worker finds an item. */
  lemma NothingBlocks(supplied: bool, ss: seq<System>, actions: seq<Action>, i: nat)
    requires IsRun(supplied, ss, actions) && i < |ss|
    ensures ss[i].caller == Writing ==> |ss[i].channel| < CHANNEL_CAPACITY == 2
    ensures ss[i].worker.Running? || ss[i].worker == Refusing ==> |ss[i].verdicts| < VERDICT_CAPACITY == 1
    ensures ss[i].caller != Writing && ss[i].worker == Waiting ==> ss[i].channel != []
  {
    RunInv(supplied, ss, actions, i);
  }

  /**
   The worker's first item is the full record exactly when the stream has taken
   in at least 312 bytes, and it then holds the first 312 of them.
   */
  lemma FirstItem(supplied: bool, ss: seq<System>, actions: seq<Action>, i: nat)
    requires IsRun(supplied, ss, actions) && i < |ss| && ss[i].took != [] && !ss[i].panicked
    ensures StreamOk(ss[i].stream) && |ss[i].took| == 1
    ensures |ss[i].took[0]| == 312 <==> !supplied && |Taken(ss[i].stream)| >= 312
    ensures |ss[i].took[0]| == 312 ==> ss[i].took[0] == Taken(ss[i].stream)[..312]
    ensures |ss[i].took[0]| != 312 ==> ss[i].took[0] == []
  {
    RunInv(supplied, ss, actions, i);
    var s := ss[i];
    assert s.sent[0] == s.took[0];
    assert s.stream.record[..|s.stream.record|] == s.stream.record;
  }

  /** Exactly one verdict is posted, and it is the one WaitAndClose returns. */
  lemma OneVerdict(supplied: bool, ss: seq<System>, actions: seq<Action>, i: nat)
    requires IsRun(supplied, ss, actions) && i < |ss|
    ensures |ss[i].posted| <= 1
    ensures ss[i].caller.Finished? ==> ss[i].posted == [ss[i].caller.verdict]
    ensures ss[i].caller.Finished? && ss[i].took == [[]] ==> ss[i].caller.verdict == NotEnoughData
  {
    RunInv(supplied, ss, actions, i);
  }

  /** A begin record supplied in the options is never used: such a receive can only fail. */
  lemma SuppliedRecordIsLost(ss: seq<System>, actions: seq<Action>, i: nat)
    requires IsRun(true, ss, actions) && i < |ss| && ss[i].caller.Finished?
    ensures ss[i].caller.verdict == NotEnoughData
  {
    RunInv(true, ss, actions, i);
    assert ss[i].sent == [[]];
    assert ss[i].took == [[]];
  }

  /** The run of a receive whose caller gives up at once. */
  function GivingUp(): seq<Action> {
    [SendEmpty, WorkerTakes, WorkerPosts(NotEnoughData), CloseChannel, ReceiveVerdict]
  }

  /** The states of that run. */
  ghost function GivenUp(supplied: bool): (ss: seq<System>)
    ensures IsRun(supplied, ss, GivingUp()) && |ss| == 6
    ensures ss[5].caller == Finished(NotEnoughData) && ss[5].stream == Init(supplied).stream && !ss[5].panicked
  {
    var s0 := Init(supplied);
    var s1 := Apply(s0, SendEmpty);
    var s2 := Apply(s1, WorkerTakes);
    var s3 := Apply(s2, WorkerPosts(NotEnoughData));
    var s4 := Apply(s3, CloseChannel);
    var s5 := Apply(s4, ReceiveVerdict);
    [s0, s1, s2, s3, s4, s5]
  }

  /** A receive with a supplied record does finish, and so fail. */
  lemma SuppliedRunFinishes() returns (ss: seq<System>, actions: seq<Action>)
    ensures IsRun(true, ss, actions) && ss[|actions|].caller == Finished(NotEnoughData)
  {
    ss, actions := GivenUp(true), GivingUp();
  }

  /** The panic is reached: a Write of at least 312 bytes after WaitAndClose. */
  lemma PanicHappens(buf: bytes) returns (ss: seq<System>, actions: seq<Action>)
    requires |buf| >= 312
    ensures IsRun(false, ss, actions) && ss[|actions|].panicked
  {
    var run, a := GivenUp(false), Write(buf, PipeWrite(0, NoError));
    var s := run[5];
    assert s.stream.pointer == 0 && |s.stream.record| == RECORD_SIZE;
    assert Enabled(s, a);
    ss, actions := run + [Apply(s, a)], GivingUp() + [a];
    forall i | 0 <= i < |actions|
      ensures Enabled(ss[i], actions[i]) && ss[i + 1] == Apply(ss[i], actions[i])
    {
      if i < 5 {
        assert ss[i] == run[i] && ss[i + 1] == run[i + 1] && actions[i] == GivingUp()[i];
      }
    }
  }

  lemma FrozenStep(supplied: bool, s: System, a: Action)
    requires Inv(supplied, s) && Enabled(s, a) && s.stream.pointer == |s.stream.record|
    ensures Apply(s, a).stream.record == s.stream.record && Apply(s, a).stream.pointer == s.stream.pointer
  {
    if a.Write? {
      HandOver(s.stream, Call(a.buf, a.out));
    }
  }

  lemma NextFrozen(supplied: bool, ss: seq<System>, actions: seq<Action>, i: nat)
    requires IsRun(supplied, ss, actions) && i < |actions| && ss[i].stream.pointer == |ss[i].stream.record|
    ensures ss[i + 1].stream.record == ss[i].stream.record && ss[i + 1].stream.pointer == ss[i].stream.pointer
  {
    RunInv(supplied, ss, actions, i);
    FrozenStep(supplied, ss[i], actions[i]);
  }

  /** Once complete, and so once handed over, the record is never modified again. */
  lemma {:induction false} RecordFrozen(supplied: bool, ss: seq<System>, actions: seq<Action>, i: nat, j: nat)
    requires IsRun(supplied, ss, actions) && i <= j < |ss|
    requires ss[i].stream.pointer == |ss[i].stream.record|
    ensures ss[j].stream.record == ss[i].stream.record && ss[j].stream.pointer == ss[i].stream.pointer
    decreases j
  {
    if i < j {
      var k := j - 1;
      assert j == k + 1 && k < |actions|;
      RecordFrozen(supplied, ss, actions, i, k);
      NextFrozen(supplied, ss, actions, k);
    }
  }

  /** A Write panics exactly when WaitAndClose has returned and the Write completes the record. */
  lemma PanicIff(supplied: bool, ss: seq<System>, actions: seq<Action>, i: nat)
    requires IsRun(supplied, ss, actions) && i < |actions| && actions[i].Write?
    ensures ss[i + 1].panicked <==>
      && ss[i].caller.Finished?
      && ss[i].stream.lastError == NoError
      && ss[i].stream.pointer < |ss[i].stream.record| <= ss[i].stream.pointer + |actions[i].buf|
  {
    RunInv(supplied, ss, actions, i);
    HandOver(ss[i].stream, Call(actions[i].buf, actions[i].out));
  }

  // ---- What the caller offered ----

  /** The bytes of all Writes among some actions, in order. */
  function Offered(actions: seq<Action>): bytes {
    if actions == [] then []
    else
      var a := actions[|actions| - 1];
      Offered(actions[..|actions| - 1]) + if a.Write? then a.buf else []
  }

  /** Up to state n the pipe took everything it was offered. */
  ghost predicate AllTaken(ss: seq<System>, actions: seq<Action>, n: nat)
    requires |ss| == |actions| + 1 && n < |ss|
  {
    forall i :: 0 <= i < n && actions[i].Write? ==>
      StreamOk(ss[i].stream) && Clean(ss[i].stream, Call(actions[i].buf, actions[i].out))
  }

  lemma {:induction false} TakenIsOffered(supplied: bool, ss: seq<System>, actions: seq<Action>, n: nat)
    requires IsRun(supplied, ss, actions) && n < |ss| && AllTaken(ss, actions, n)
    ensures Ordered(ss[n].stream) && ss[n].stream.lastError == NoError
    ensures Taken(ss[n].stream) == Offered(actions[..n])
    decreases n
  {
    RunInv(supplied, ss, actions, n);
    if n > 0 {
      var k := n - 1;
      assert actions[..n][..|actions[..n]| - 1] == actions[..k] && actions[..n][k] == actions[k];
      TakenIsOffered(supplied, ss, actions, k);
      assert ss[n] == Apply(ss[k], actions[k]);
      OfferStep(ss[k], actions[k]);
    }
  }

  lemma OfferStep(s: System, a: Action)
    requires Enabled(s, a) && Ordered(s.stream) && s.stream.lastError == NoError
    requires a.Write? ==> Clean(s.stream, Call(a.buf, a.out))
    ensures var t := Apply(s, a).stream;
      Ordered(t) && t.lastError == NoError && Taken(t) == Taken(s.stream) + if a.Write? then a.buf else []
  {
    if a.Write? {
      WriteTakes(s.stream, Call(a.buf, a.out));
      assert a.buf[..|a.buf|] == a.buf;
    }
  }
}
