/**
 Send joined to receive: a copier reads a send stream and writes what it read
 into a receive stream, in chunks of its own choosing.
 */
module Transfer {
  import opened Bytes
  import Send = SendStream
  import Recv = ReceiveStream
  import Proto = ReceiveProtocol

  const EMPTY := Recv.Stream(Zeros(Recv.RECORD_SIZE), 0, Recv.NoError, [])

  /**
   In every run of the sender, with every chunking by kernel, pipe, reader and
   copier, the filled part of the begin record followed by the bytes in the
   receive pipe is what the sender's kernel wrote: a prefix of it at any time,
   all of it once the end has been reported. Nothing is lost or doubled at the
   peeked byte or at the 312-byte split.
   */
  lemma SendToReceive(ss: seq<Send.System>, actions: seq<Send.Action>, i: nat, calls: seq<Recv.Call>)
    requires Send.IsRun(ss, actions) && i < |ss|
    requires Recv.CallsOk(EMPTY, calls) && Recv.AllClean(EMPTY, calls)
    requires Recv.Joined(calls) == ss[i].delivered
    ensures var s := Recv.WriteAll(EMPTY, calls).stream;
      && Recv.StreamOk(s) && |s.record| == 312
      && s.record[..s.pointer] + s.accepted <= ss[i].written
      && (ss[i].stream.isEOF ==> s.record[..s.pointer] + s.accepted == ss[i].written)
      && (ss[i].stream.isEOF && |ss[i].written| >= 312 ==>
            s.record == ss[i].written[..312] && s.accepted == ss[i].written[312..])
  {
    Send.NothingLost(ss, actions, i);
    Recv.Accounting(EMPTY, calls);
    Recv.CleanWritesTakeAll(EMPTY, calls);
    var s := Recv.WriteAll(EMPTY, calls).stream;
    assert Recv.Taken(EMPTY) == [];
    assert Recv.Taken(s) == ss[i].delivered;
    if |Recv.Taken(s)| >= Recv.RECORD_SIZE {
      assert s.pointer == Recv.RECORD_SIZE;
      assert s.record[..s.pointer] == s.record;
      assert s.record == Recv.Taken(s)[..Recv.RECORD_SIZE];
      assert s.accepted == Recv.Taken(s)[Recv.RECORD_SIZE..];
    }
  }

  /**
   The same between the two protocols: in every run of the sender and every run
   of a receive in which the pipe takes what it is offered, if the caller has
   offered what it was given, then the worker of the receive starts from the
   full record exactly if the caller was given 312 bytes, and this record is
   the first 312 bytes the sender's kernel wrote; the pipe holds the others.
   */
  lemma EndToEnd(ss: seq<Send.System>, sent: seq<Send.Action>, i: nat,
                 rs: seq<Proto.System>, acts: seq<Proto.Action>, j: nat)
    requires Send.IsRun(ss, sent) && i < |ss|
    requires Proto.IsRun(false, rs, acts) && j < |rs| && Proto.AllTaken(rs, acts, j)
    requires Proto.Offered(acts[..j]) == ss[i].delivered
    requires rs[j].took != [] && !rs[j].panicked
    ensures |rs[j].took| == 1
    ensures var item, written := rs[j].took[0], ss[i].written;
      && (|item| == 312 <==> |ss[i].delivered| >= 312)
      && (|item| == 312 ==> |written| >= 312 && item == written[..312])
      && (|item| == 312 && ss[i].stream.isEOF ==> rs[j].stream.accepted == written[312..])
  {
    Send.NothingLost(ss, sent, i);
    Proto.TakenIsOffered(false, rs, acts, j);
    Proto.FirstItem(false, rs, acts, j);
    Proto.RunInv(false, rs, acts, j);
    var s, given := rs[j].stream, ss[i].delivered;
    assert Recv.Taken(s) == given;
    if |given| >= Recv.RECORD_SIZE {
      assert s.pointer == Recv.RECORD_SIZE;
      assert s.accepted == given[Recv.RECORD_SIZE..];
    }
  }
}
