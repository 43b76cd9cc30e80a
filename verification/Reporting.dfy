/**
 When Marshal reports an error, and what is lost when it does not. An error
 inside a nested map or struct is dropped, and the enclosing list ends at it.
 */
module Reporting {
  import opened Bytes
  import opened Consts
  import opened Values
  import opened Encoder
  import opened Domain
  import opened RoundTrip

  // ---- The condition ----

  /** writeNvPairs returns an error for the list. */
  predicate Reports(t: Tree)
    decreases t, 0
  {
    match t
    case Nil => false
    case Map(es) => EntriesReport(es)
    case Struct(es) => EntriesReport(es)
    case _ => true
  }

  /** The first entry that stops the loop is itself bad. */
  predicate EntriesReport(es: seq<Entry>)
    decreases es
  {
    exists i :: 0 <= i < |es| && Bad(es[i]) && forall j :: 0 <= j < i ==> !Stops(es[j])
  }

  predicate Stops(e: Entry)
    decreases e, 2
  {
    Bad(e) || Swallows(e)
  }

  /** Its name is too long, its kind unsupported, its array too long, or an element of it reports. */
  predicate Bad(e: Entry)
    decreases e, 1
  {
    !Dropped(e) && (|EntryName(e)| + 1 >= MAX_INT16 || ValueBad(e.value))
  }

  predicate ValueBad(t: Tree)
    decreases t, 1
  {
    match t
    case Unsupported(_) => true
    case Prim(l) => LeafElems(l) >= MAX_INT32
    case Lists(ts) => |ts| >= MAX_INT32 || exists i :: 0 <= i < |ts| && Reports(ts[i])
    case _ => false
  }

  /** A nested map or struct that reports; the report is dropped. */
  predicate Swallows(e: Entry)
    decreases e, 1
  {
    !Dropped(e) && |EntryName(e)| + 1 < MAX_INT16 && e.value.IsList() && Reports(e.value)
  }

  // ---- It is exact ----

  lemma ReportFirst(es: seq<Entry>)
    requires es != []
    ensures EntriesReport(es) <==> Bad(es[0]) || (!Stops(es[0]) && EntriesReport(es[1..]))
  {
    if Bad(es[0]) {
      var i := 0;
      assert Bad(es[i]);
    }
    if !Stops(es[0]) && EntriesReport(es[1..]) {
      var i :| 0 <= i < |es[1..]| && Bad(es[1..][i]) && forall j :: 0 <= j < i ==> !Stops(es[1..][j]);
      assert Bad(es[i + 1]);
      assert forall j :: 1 <= j < i + 1 ==> es[j] == es[1..][j - 1];
    }
    if EntriesReport(es) && !Bad(es[0]) {
      var i :| 0 <= i < |es| && Bad(es[i]) && forall j :: 0 <= j < i ==> !Stops(es[j]);
      assert i > 0 && Bad(es[1..][i - 1]);
      assert forall j :: 0 <= j < i - 1 ==> es[1..][j] == es[j + 1];
    }
  }

  lemma {:induction false} ReportAfter(before: seq<Entry>, e: Entry, after: seq<Entry>)
    requires forall i :: 0 <= i < |before| ==> !Stops(before[i])
    ensures EntriesReport(before + [e] + after) <==> Bad(e) || (!Stops(e) && EntriesReport(after))
    decreases before
  {
    var es := before + [e] + after;
    ReportFirst(es);
    if before == [] {
      assert es[0] == e && es[1..] == after;
    } else {
      assert es[0] == before[0] && es[1..] == before[1..] + [e] + after;
      ReportAfter(before[1..], e, after);
    }
  }

  function FlowOf(e: Entry): Flow {
    if Bad(e) then ReturnErr else if Swallows(e) then ReturnOk else Continue
  }

  lemma {:induction false} EntryReports(o: ByteOrder, e: Entry)
    requires !Dropped(e) && |EntryName(e)| + 1 < MAX_INT16
    ensures EncodeEntry(o, e).flow == FlowOf(e)
    decreases e
  {
    assert Bad(e) <==> ValueBad(e.value);
    assert Swallows(e) <==> e.value.IsList() && Reports(e.value);
    match e.value
    case Map(_) =>
      ListReports(o, e.value);
      assert !ValueBad(e.value);
    case Struct(_) =>
      ListReports(o, e.value);
      assert !ValueBad(e.value);
    case Lists(ts) => ListsReport(o, ts);
    case Prim(l) => assert ValueBad(e.value) <==> LeafElems(l) >= MAX_INT32;
    case Unsupported(_) => assert ValueBad(e.value);
    case Float64(_) => assert !ValueBad(e.value);
  }

  lemma {:induction false} ListsReport(o: ByteOrder, ts: seq<Tree>)
    ensures EncodeLists(o, ts).ok <==> !exists i :: 0 <= i < |ts| && Reports(ts[i])
    decreases ts
  {
    if ts != [] {
      ListReports(o, ts[0]);
      ListsReport(o, ts[1..]);
      assert forall i :: 1 <= i < |ts| ==> ts[i] == ts[1..][i - 1];
    }
  }

  lemma {:induction false} EntriesReports(o: ByteOrder, es: seq<Entry>)
    ensures EncodeEntries(o, es).ok <==> !EntriesReport(es)
    decreases es
  {
    if es != [] {
      ReportFirst(es);
      EntriesReports(o, es[1..]);
      if !Dropped(es[0]) && |EntryName(es[0])| + 1 < MAX_INT16 {
        EntryReports(o, es[0]);
      }
    }
  }

  lemma {:induction false} ListReports(o: ByteOrder, t: Tree)
    ensures EncodeList(o, t).ok <==> !Reports(t)
    decreases t, 0
  {
    match t
    case Map(es) => EntriesReports(o, es);
    case Struct(es) => EntriesReports(o, es);
    case _ =>
  }

  /** Marshal reports an error exactly when the first entry that stops its outermost loop is itself bad. */
  lemma ReportIff(o: ByteOrder, t: Tree)
    ensures Marshal(o, t).Err? <==> Reports(t)
    ensures Reports(t) ==> Marshal(o, t) == Err(InvalidValue)
  {
    ListReports(o, t);
  }

  // ---- What is lost otherwise ----

  /** The bytes of an entry that does not stop the loop. */
  function FirstBytes(o: ByteOrder, e: Entry): bytes {
    if Dropped(e) then [] else EncodeEntry(o, e).data
  }

  /** The bytes of entries of which none stops the loop, without a trailer. */
  function Written(o: ByteOrder, es: seq<Entry>): bytes {
    if es == [] then [] else FirstBytes(o, es[0]) + Written(o, es[1..])
  }

  lemma EncodeFirst(o: ByteOrder, es: seq<Entry>)
    requires es != [] && !Stops(es[0])
    ensures var rest := EncodeEntries(o, es[1..]);
      EncodeEntries(o, es) == Out(FirstBytes(o, es[0]) + rest.data, rest.ok)
  {
    var rest := EncodeEntries(o, es[1..]);
    if Dropped(es[0]) {
      assert [] + rest.data == rest.data;
    } else {
      assert !Bad(es[0]);
      EntryReports(o, es[0]);
    }
  }

  lemma {:induction false} EncodeAfter(o: ByteOrder, a: seq<Entry>, b: seq<Entry>)
    requires forall i :: 0 <= i < |a| ==> !Stops(a[i])
    ensures EncodeEntries(o, a + b) == Out(Written(o, a) + EncodeEntries(o, b).data, EncodeEntries(o, b).ok)
    decreases a
  {
    var tail := EncodeEntries(o, b).data;
    if a == [] {
      assert a + b == b && [] + tail == tail;
    } else {
      var all := a + b;
      assert all[0] == a[0] && all[1..] == a[1..] + b;
      EncodeFirst(o, all);
      EncodeAfter(o, a[1..], b);
      Assoc(FirstBytes(o, a[0]), Written(o, a[1..]), tail);
    }
  }

  lemma StoppedHere(o: ByteOrder, e: Entry, es: seq<Entry>)
    requires es != [] && es[0] == e && Stops(e)
    ensures EncodeEntries(o, es)
         == if |EntryName(e)| + 1 >= MAX_INT16 then Out([], false) else Out(EncodeEntry(o, e).data, !Bad(e))
  {
    assert Bad(e) || Swallows(e);
    if |EntryName(e)| + 1 < MAX_INT16 {
      EntryReports(o, e);
    }
  }

  lemma EncodeTails(o: ByteOrder, es: seq<Entry>, fs: seq<Entry>)
    requires es != [] && fs != [] && es[0] == fs[0] && EncodeEntries(o, es[1..]) == EncodeEntries(o, fs[1..])
    ensures EncodeEntries(o, es) == EncodeEntries(o, fs)
  {}

  /** Nothing behind an entry that stops the loop is written. */
  lemma {:induction false} StoppedAt(o: ByteOrder, before: seq<Entry>, e: Entry, after: seq<Entry>)
    requires Stops(e)
    ensures EncodeEntries(o, before + [e] + after) == EncodeEntries(o, before + [e])
    decreases before
  {
    var all, cut := before + [e] + after, before + [e];
    if before == [] {
      StoppedHere(o, e, all);
      StoppedHere(o, e, cut);
    } else {
      StoppedAt(o, before[1..], e, after);
      assert all[1..] == before[1..] + [e] + after && cut[1..] == before[1..] + [e];
      EncodeTails(o, all, cut);
    }
  }

  /**
   Behind a nested map or struct with an error inside, whatever is enumerated
   later is lost, and Marshal does not say so unless an entry before it did.
   */
  lemma SiblingsLost(o: ByteOrder, before: seq<Entry>, e: Entry, after: seq<Entry>)
    requires Swallows(e)
    ensures Marshal(o, Tree.Map(before + [e] + after)) == Marshal(o, Tree.Map(before + [e]))
    ensures Marshal(o, Tree.Struct(before + [e] + after)) == Marshal(o, Tree.Map(before + [e]))
    ensures (forall i :: 0 <= i < |before| ==> !Stops(before[i])) ==> Marshal(o, Tree.Map(before + [e] + after)).Ok?
  {
    StoppedAt(o, before, e, after);
    if forall i :: 0 <= i < |before| ==> !Stops(before[i]) {
      assert !ValueBad(e.value) && !Bad(e) && Stops(e);
      ReportAfter(before, e, after);
      ReportIff(o, Tree.Map(before + [e] + after));
    }
  }

  /** Entries that are written without an error never stop the loop. */
  lemma FramedGoesOn(o: ByteOrder, es: seq<Entry>)
    requires EntriesFramed(true, es)
    ensures forall i :: 0 <= i < |es| ==> !Stops(es[i])
  {
    forall i | 0 <= i < |es|
      ensures !Stops(es[i])
    {
      var e := es[i];
      assert EntryFramed(true, e);
      if Dropped(e) {
        assert !Bad(e) && !Swallows(e);
      } else if NotWritten(e) {
        assert !ValueBad(e.value) && !Bad(e) && !Swallows(e);
      } else {
        EntryEncodes(o, e);
        EntryReports(o, e);
      }
    }
  }
}
