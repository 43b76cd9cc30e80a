/**
 The ioctl retry loop (ioctl/ioctl.go). The kernel is an arbitrary oracle that
 may scribble on the command and on the reply buffer and answer ENOMEM.
 */
module Ioctl {
  import opened Bytes
  import opened Values
  import opened Decoder
  import opened Encoder
  import opened Domain
  import opened Meaning
  import opened Locality
  import opened Stability
  import opened Reader
  import opened Writer
  import NameBuffer

  const ENOMEM := 12
  const FIRST_SIZE := 8 * 1024
  const GIVE_UP_SIZE := 16 * 1024 * 1024

  /** The fields of Cmd that the loop sets; the others are carried in rest. */
  datatype Command = Command(name: bytes, dst: nat, dstSize: nat, src: nat, srcSize: nat, conf: nat, confSize: nat, rest: seq<int>)

  /** One system call as the kernel sees it. */
  datatype Call = Call(cmd: Command, request: Option<bytes>, config: Option<bytes>)

  /** The command as the kernel leaves it, what it writes from the start of the reply buffer, and errno. */
  datatype Reply = Reply(cmd: Command, written: bytes, errno: nat)

  /** The oracle may answer each attempt differently. */
  type Kernel = (nat, Call) -> Reply

  datatype Outcome = Done | Answer(value: Value) | CodecError(error: Error) | Errno(errno: nat) | GaveUp

  /** The caller's inputs; addresses and the key order of the configuration may differ between attempts. */
  datatype Params = Params(
    name: bytes,
    request: Option<Tree>,
    wantsResponse: bool,
    config: Option<nat -> Tree>,
    dstAddress: nat -> nat,
    srcAddress: nat,
    confAddress: nat -> nat)

  /** 8192 times 8 to the k. */
  function BufferSize(k: nat): (n: nat)
    ensures n > 0
  {
    if k == 0 then FIRST_SIZE else 8 * BufferSize(k - 1)
  }

  lemma BufferSizes()
    ensures BufferSize(0) == 0x2000 && BufferSize(1) == 0x1_0000 && BufferSize(2) == 0x8_0000
    ensures BufferSize(3) == 0x40_0000 && BufferSize(4) == 0x200_0000
  {}

  /** A zeroed reply buffer of the given size after the kernel has written into it, as far as it reaches. */
  function Landed(size: nat, written: bytes): (dst: bytes)
    ensures |dst| == size
  {
    if |written| <= size then written + Zeros(size - |written|) else written[..size]
  }

  function Packed(t: Option<Tree>): Option<bytes> {
    if t.Some? && Marshal(LittleEndian, t.value).Ok? then Some(Marshal(LittleEndian, t.value).value) else None
  }

  function ConfigAt(p: Params, k: nat): Option<Tree> {
    if p.config.Some? then Some(p.config.value(k)) else None
  }

  predicate Packs(t: Option<Tree>) {
    t.Some? ==> Marshal(LittleEndian, t.value).Ok?
  }

  /** The k-th call: always built from the caller's own command. */
  function Attempt(p: Params, cmd: Command, k: nat): Call {
    var request, config := Packed(p.request), Packed(ConfigAt(p, k));
    var c1 := if p.wantsResponse then cmd.(dst := p.dstAddress(k), dstSize := BufferSize(k)) else cmd;
    var c2 := if request.Some? then c1.(src := p.srcAddress, srcSize := |request.value|) else c1;
    var c3 := if config.Some? then c2.(conf := p.confAddress(k), confSize := |config.value|) else c2;
    Call(c3.(name := NameBuffer.Written(cmd.name, p.name)), request, config)
  }

  // ---- What the kernel is told ----

  /** What is handed to the kernel: nothing for nothing, and otherwise the marshalled tree, which decodes to what the tree means. */
  ghost predicate Shipped(given: Option<Tree>, sent: Option<bytes>) {
    && (sent.Some? <==> given.Some?)
    && (given.Some? ==>
          && Marshal(LittleEndian, given.value) == Ok(sent.value)
          && (Readable(LittleEndian, given.value) ==> Unmarshal(sent.value) == Ok(TreeMeaning(given.value))))
  }

  /** Each part is announced in its own two fields, the others are the caller's, and the name is copied. */
  ghost predicate Announced(p: Params, before: Command, k: nat, call: Call) {
    var c := call.cmd;
    && Shipped(p.request, call.request)
    && Shipped(ConfigAt(p, k), call.config)
    && (if p.request.Some? then c.src == p.srcAddress && c.srcSize == |call.request.value|
        else c.src == before.src && c.srcSize == before.srcSize)
    && (if p.config.Some? then c.conf == p.confAddress(k) && c.confSize == |call.config.value|
        else c.conf == before.conf && c.confSize == before.confSize)
    && (if p.wantsResponse then c.dst == p.dstAddress(k) && c.dstSize == 8192 * Pow8(k)
        else c.dst == before.dst && c.dstSize == before.dstSize)
    && c.name == NameBuffer.Written(before.name, p.name)
    && c.rest == before.rest
  }

  function Pow8(k: nat): nat {
    if k == 0 then 1 else 8 * Pow8(k - 1)
  }

  lemma {:induction false} BufferSizeIs(k: nat)
    ensures BufferSize(k) == 8192 * Pow8(k)
  {
    if k > 0 {
      BufferSizeIs(k - 1);
    }
  }

  lemma PackedIsShipped(t: Option<Tree>)
    requires Packs(t)
    ensures Shipped(t, Packed(t))
  {
    if t.Some? && Readable(LittleEndian, t.value) {
      TreeOutcome(LittleEndian, t.value, []);
      assert Packed(t).value + [] == Packed(t).value;
    }
  }

  lemma AttemptAnnounces(p: Params, before: Command, k: nat)
    requires Packs(p.request) && Packs(ConfigAt(p, k))
    ensures Announced(p, before, k, Attempt(p, before, k))
  {
    PackedIsShipped(p.request);
    PackedIsShipped(ConfigAt(p, k));
    BufferSizeIs(k);
  }

  /** The command struct the caller passes by pointer. */
  class CommandBox {
    var value: Command

    constructor (c: Command)
      ensures value == c
    {
      value := c;
    }
  }

  /** What the loop may have done after a number of calls. */
  ghost predicate Loop(kernel: Kernel, p: Params, cmd: Command, calls: seq<Call>) {
    && |calls| <= 5
    && Packs(p.request)
    && (forall k :: 0 <= k < |calls| ==> Packs(ConfigAt(p, k)) && calls[k] == Attempt(p, cmd, k))
  }

  ghost predicate AllNoMemory(kernel: Kernel, calls: seq<Call>) {
    forall k :: 0 <= k < |calls| ==> kernel(k, calls[k]).errno == ENOMEM
  }

  lemma LoopGrows(kernel: Kernel, p: Params, cmd: Command, calls: seq<Call>, call: Call)
    requires Loop(kernel, p, cmd, calls) && |calls| < 5 && AllNoMemory(kernel, calls)
    requires Packs(ConfigAt(p, |calls|)) && call == Attempt(p, cmd, |calls|)
    ensures Loop(kernel, p, cmd, calls + [call]) && (calls + [call])[..|calls|] == calls
    ensures kernel(|calls|, call).errno == ENOMEM ==> AllNoMemory(kernel, calls + [call])
  {
    var all := calls + [call];
    assert all[|calls|] == call;
  }

  /** The whole promise of one invocation. */
  ghost predicate Promise(kernel: Kernel, p: Params, before: Command, after: Command, calls: seq<Call>, r: Outcome) {
    if !Packs(p.request) then calls == [] && after == before && r == CodecError(InvalidValue)
    else
      && Loop(kernel, p, before, calls)
      && if r == GaveUp then |calls| == 5 && AllNoMemory(kernel, calls) && after == before
         else if r == CodecError(InvalidValue) && AllNoMemory(kernel, calls) then
           |calls| < 5 && !Packs(ConfigAt(p, |calls|)) && after == before
         else
           && calls != []
           && AllNoMemory(kernel, calls[..|calls| - 1])
           && var reply := kernel(|calls| - 1, calls[|calls| - 1]);
              reply.errno != ENOMEM && after == reply.cmd && r == Answered(p, reply, BufferSize(|calls| - 1))
  }

  /** What is made of the one reply that is not ENOMEM. */
  ghost function Answered(p: Params, reply: Reply, size: nat): Outcome {
    if reply.errno != 0 then Errno(reply.errno)
    else if !p.wantsResponse then Done
    else
      match Unmarshal(Landed(size, reply.written))
      case Ok(v) => Answer(v)
      case Err(e) => CodecError(e)
  }

  lemma PromiseAnswered(kernel: Kernel, p: Params, cmd: Command, calls: seq<Call>, n: nat, reply: Reply)
    requires Loop(kernel, p, cmd, calls) && |calls| == n + 1 && AllNoMemory(kernel, calls[..n])
    requires reply == kernel(n, calls[n]) && reply.errno != ENOMEM
    ensures Promise(kernel, p, cmd, reply.cmd, calls, Answered(p, reply, BufferSize(n)))
  {
    assert !AllNoMemory(kernel, calls);
  }

  /** Copies the name into a command's buffer; the error is dropped. */
  method SetName(cmd: Command, name: bytes) returns (r: Command)
    ensures r == cmd.(name := NameBuffer.Written(cmd.name, name))
  {
    var buf := new byte[|cmd.name|](i requires 0 <= i < |cmd.name| => cmd.name[i]);
    assert buf[..] == cmd.name;
    var _ := NameBuffer.StringToDelimitedBuf(name, buf);
    r := cmd.(name := buf[..]);
  }

  /** One pass of the loop up to the system call, on a private copy of the command. */
  method BuildCall(p: Params, cmd: Command, k: nat, size: nat, src: Option<bytes>) returns (call: Option<Call>)
    requires size == BufferSize(k) && src == Packed(p.request) && Packs(p.request)
    ensures call == if Packs(ConfigAt(p, k)) then Some(Attempt(p, cmd, k)) else None
    ensures call.Some? ==> Announced(p, cmd, k, call.value)
    ensures call.None? <==> p.config.Some? && Marshal(LittleEndian, p.config.value(k)).Err?
  {
    if Packs(ConfigAt(p, k)) {
      AttemptAnnounces(p, cmd, k);
    }
    var privateCmd := cmd;
    if p.wantsResponse {
      privateCmd := privateCmd.(dst := p.dstAddress(k), dstSize := size);
    }
    if src.Some? {
      privateCmd := privateCmd.(src := p.srcAddress, srcSize := |src.value|);
    }
    var conf: Option<bytes> := None;
    if p.config.Some? {
      var m := MarshalTree(LittleEndian, p.config.value(k));
      if m.Err? {
        return None;
      }
      conf := Some(m.value);
      privateCmd := privateCmd.(conf := p.confAddress(k), confSize := |conf.value|);
    }
    privateCmd := SetName(privateCmd, p.name);
    return Some(Call(privateCmd, src, conf));
  }

  method PackRequest(t: Option<Tree>) returns (ok: bool, src: Option<bytes>)
    ensures ok == Packs(t) && src == Packed(t)
  {
    if t.None? {
      return true, None;
    }
    var m := MarshalTree(LittleEndian, t.value);
    return m.Ok?, if m.Ok? then Some(m.value) else None;
  }

  method Decode(p: Params, reply: Reply, size: nat) returns (r: Outcome)
    ensures r == Answered(p, reply, size)
  {
    if reply.errno != 0 {
      return Errno(reply.errno);
    }
    if !p.wantsResponse {
      return Done;
    }
    var v := UnmarshalBuffer(Landed(size, reply.written));
    return if v.Ok? then Answer(v.value) else CodecError(v.error);
  }

  method NvlistIoctl(kernel: Kernel, p: Params, cmd: CommandBox) returns (r: Outcome, ghost calls: seq<Call>)
    modifies cmd
    ensures Promise(kernel, p, old(cmd.value), cmd.value, calls, r)
    ensures Bounded(kernel, p, old(cmd.value), cmd.value, calls, r)
  {
    calls := [];
    var packed, src := PackRequest(p.request);
    if !packed {
      RetryBound(kernel, p, cmd.value, cmd.value, calls, CodecError(InvalidValue));
      return CodecError(InvalidValue), calls;
    }
    var size := FIRST_SIZE;
    var k := 0;
    BufferSizes();
    while true
      invariant k == |calls| <= 4 && size == BufferSize(k)
      invariant cmd.value == old(cmd.value)
      invariant Loop(kernel, p, cmd.value, calls) && AllNoMemory(kernel, calls)
      decreases 5 - k
    {
      var call := BuildCall(p, cmd.value, k, size, src);
      if call.None? {
        RetryBound(kernel, p, cmd.value, cmd.value, calls, CodecError(InvalidValue));
        return CodecError(InvalidValue), calls;
      }
      LoopGrows(kernel, p, cmd.value, calls, call.value);
      calls := calls + [call.value];
      var reply := kernel(k, call.value);
      if reply.errno == ENOMEM {
        if size >= GIVE_UP_SIZE {
          RetryBound(kernel, p, cmd.value, cmd.value, calls, GaveUp);
          return GaveUp, calls;
        }
        size := size * 8;
        k := k + 1;
      } else {
        cmd.value := reply.cmd;
        r := Decode(p, reply, size);
        PromiseAnswered(kernel, p, old(cmd.value), calls, k, reply);
        RetryBound(kernel, p, old(cmd.value), cmd.value, calls, r);
        return r, calls;
      }
    }
  }

  /**
   What the caller gets for the one reply that is not ENOMEM: its errno, nothing
   if no response was asked for, and otherwise what the reply buffer decodes to.
   A reply that decodes by itself and fits is decoded as such, and a marshalled
   value in the domain is returned in normal form if and only if it fits.
   */
  ghost predicate Concluded(p: Params, reply: Reply, size: nat, r: Outcome) {
    if reply.errno != 0 then r == Errno(reply.errno)
    else if !p.wantsResponse then r == Done
    else
      && ((r.Answer? && Unmarshal(Landed(size, reply.written)) == Ok(r.value))
          || (r.CodecError? && Unmarshal(Landed(size, reply.written)) == Err(r.error)))
      && (|reply.written| <= size && Unmarshal(reply.written).Ok? ==> r == Answer(Unmarshal(reply.written).value))
      && (forall o, v, t :: InDomain(v) && Orders(v, t) && Marshal(o, t).Ok? && Marshal(o, t).value <= reply.written ==>
            (r == Answer(Norm(v)) <==> |Marshal(o, t).value| <= size))
  }

  /** How the loop ends: with a reply that is not ENOMEM, after five that are, or on a value that cannot be marshalled. */
  ghost predicate Ending(kernel: Kernel, p: Params, before: Command, after: Command, calls: seq<Call>, r: Outcome) {
    if calls != [] && kernel(|calls| - 1, calls[|calls| - 1]).errno != 12 then
      && after == kernel(|calls| - 1, calls[|calls| - 1]).cmd
      && Concluded(p, kernel(|calls| - 1, calls[|calls| - 1]), 8192 * Pow8(|calls| - 1), r)
    else
      && after == before
      && if |calls| == 5 then r == GaveUp
         else
           && r == CodecError(InvalidValue)
           && ((calls == [] && p.request.Some? && Marshal(LittleEndian, p.request.value).Err?)
               || (p.config.Some? && Marshal(LittleEndian, p.config.value(|calls|)).Err?))
  }

  /** The calls, the command and the result in so many words. */
  ghost predicate Bounded(kernel: Kernel, p: Params, before: Command, after: Command, calls: seq<Call>, r: Outcome) {
    && |calls| <= 5
    && (forall k :: 0 <= k < |calls| ==> Announced(p, before, k, calls[k]))
    && (forall k :: 0 <= k < |calls| - 1 ==> kernel(k, calls[k]).errno == 12)
    && Ending(kernel, p, before, after, calls, r)
  }

  /** A reply that decodes by itself is decoded alike at the start of a larger buffer. */
  lemma LandedDecodes(size: nat, written: bytes)
    requires |written| <= size && Unmarshal(written).Ok?
    ensures Unmarshal(Landed(size, written)) == Unmarshal(written)
  {
    ExtensionStability(written, Zeros(size - |written|));
  }

  lemma AnswerConcludes(p: Params, reply: Reply, size: nat)
    ensures Concluded(p, reply, size, Answered(p, reply, size))
  {
    if reply.errno == 0 && p.wantsResponse {
      if |reply.written| <= size && Unmarshal(reply.written).Ok? {
        LandedDecodes(size, reply.written);
      }
      forall o, v, t | InDomain(v) && Orders(v, t) && Marshal(o, t).Ok? && Marshal(o, t).value <= reply.written
        ensures Answered(p, reply, size) == Answer(Norm(v)) <==> |Marshal(o, t).value| <= size
      {
        var m := Marshal(o, t).value;
        ReplyDecodesIff(o, v, t, size, reply.written[|m|..]);
        assert m + reply.written[|m|..] == reply.written;
      }
    }
  }

  lemma EndsSo(kernel: Kernel, p: Params, before: Command, after: Command, calls: seq<Call>, r: Outcome)
    requires Promise(kernel, p, before, after, calls, r)
    ensures Ending(kernel, p, before, after, calls, r)
  {
    if calls != [] {
      var n := |calls| - 1;
      assert 8192 * Pow8(n) == BufferSize(n) by {
        BufferSizeIs(n);
      }
      AnswerConcludes(p, kernel(n, calls[n]), BufferSize(n));
      assert AllNoMemory(kernel, calls) ==> kernel(n, calls[n]).errno == 12;
    }
  }

  lemma EarlierNoMemory(kernel: Kernel, p: Params, before: Command, after: Command, calls: seq<Call>, r: Outcome, k: nat)
    requires Promise(kernel, p, before, after, calls, r) && k < |calls| - 1
    ensures kernel(k, calls[k]).errno == 12
  {
    var front := calls[..|calls| - 1];
    assert front[k] == calls[k];
    assert AllNoMemory(kernel, front) ==> kernel(k, front[k]).errno == ENOMEM;
    assert AllNoMemory(kernel, calls) ==> kernel(k, calls[k]).errno == ENOMEM;
  }

  /** A corollary of the promise. */
  lemma RetryBound(kernel: Kernel, p: Params, before: Command, after: Command, calls: seq<Call>, r: Outcome)
    requires Promise(kernel, p, before, after, calls, r)
    ensures Bounded(kernel, p, before, after, calls, r)
  {
    forall k | 0 <= k < |calls|
      ensures Announced(p, before, k, calls[k])
    {
      AttemptAnnounces(p, before, k);
    }
    forall k | 0 <= k < |calls| - 1
      ensures kernel(k, calls[k]).errno == 12
    {
      EarlierNoMemory(kernel, p, before, after, calls, r, k);
    }
    EndsSo(kernel, p, before, after, calls, r);
  }

  /** Two kernels that differ only in what they scribble while answering ENOMEM. */
  ghost predicate SameAnswers(k1: Kernel, k2: Kernel) {
    forall k, c :: k1(k, c).errno == k2(k, c).errno && (k1(k, c).errno != ENOMEM ==> k1(k, c) == k2(k, c))
  }

  /** Whether the loop goes on to make call number n. */
  ghost predicate GoesOn(kernel: Kernel, p: Params, before: Command, n: nat) {
    && n < 5 && Packs(p.request) && Packs(ConfigAt(p, n))
    && (n > 0 ==> kernel(n - 1, Attempt(p, before, n - 1)).errno == ENOMEM)
  }

  lemma CallWasDue(kernel: Kernel, p: Params, before: Command, after: Command, calls: seq<Call>, r: Outcome, n: nat)
    requires Promise(kernel, p, before, after, calls, r)
    ensures n < |calls| ==> GoesOn(kernel, p, before, n)
  {
    if 0 < n < |calls| {
      var front := calls[..|calls| - 1];
      assert front[n - 1] == calls[n - 1] == Attempt(p, before, n - 1);
      assert AllNoMemory(kernel, calls) ==> kernel(n - 1, calls[n - 1]).errno == ENOMEM;
      assert AllNoMemory(kernel, front) ==> kernel(n - 1, front[n - 1]).errno == ENOMEM;
    }
  }

  lemma NoCallIsDue(kernel: Kernel, p: Params, before: Command, after: Command, calls: seq<Call>, r: Outcome)
    requires Promise(kernel, p, before, after, calls, r)
    ensures !GoesOn(kernel, p, before, |calls|)
  {}

  lemma CallsNotShorter(k1: Kernel, k2: Kernel, p: Params, before: Command,
                        a1: Command, c1: seq<Call>, r1: Outcome, a2: Command, c2: seq<Call>, r2: Outcome)
    requires Promise(k1, p, before, a1, c1, r1) && Promise(k2, p, before, a2, c2, r2) && SameAnswers(k1, k2)
    ensures |c1| >= |c2|
  {
    NoCallIsDue(k1, p, before, a1, c1, r1);
    CallWasDue(k2, p, before, a2, c2, r2, |c1|);
  }

  /** What the kernel scribbles during a failed attempt influences neither later calls nor the result. */
  lemma ScribblesInvisible(k1: Kernel, k2: Kernel, p: Params, before: Command,
                           a1: Command, c1: seq<Call>, r1: Outcome, a2: Command, c2: seq<Call>, r2: Outcome)
    requires Promise(k1, p, before, a1, c1, r1) && Promise(k2, p, before, a2, c2, r2) && SameAnswers(k1, k2)
    ensures c1 == c2 && a1 == a2 && r1 == r2
  {
    CallsNotShorter(k1, k2, p, before, a1, c1, r1, a2, c2, r2);
    CallsNotShorter(k2, k1, p, before, a2, c2, r2, a1, c1, r1);
    assert forall k :: 0 <= k < |c1| ==> c1[k] == c2[k];
    assert c1 == c2;
  }

  /**
   A kernel that answers with a marshalled value, followed by anything, is
   understood if and only if the value fits into the reply buffer; what the
   rest of the oversized buffer holds does not matter.
   */
  lemma ReplyDecodesIff(o: ByteOrder, v: Value, t: Tree, size: nat, extra: bytes)
    requires InDomain(v) && Orders(v, t) && Marshal(o, t).Ok?
    ensures Unmarshal(Landed(size, Marshal(o, t).value + extra)) == Ok(Norm(v)) <==> |Marshal(o, t).value| <= size
  {
    var m := Marshal(o, t).value;
    var dst := Landed(size, m + extra);
    if |m| <= size {
      CodecRoundTrip(o, v, t, dst[|m|..]);
      assert m + dst[|m|..] == dst;
    } else {
      assert dst == m[..size];
      CutRejected(o, v, t, size);
    }
  }
}
