/**
 What comes back when an error deep inside a value is not reported. The path to
 the bad member leads through nested maps and structs, which drop the error, and
 through elements of list arrays, which pass it on.
 */
module Swallowed {
  import opened Bytes
  import opened Consts
  import opened Values
  import opened Decoder
  import opened Encoder
  import opened Domain
  import opened RoundTrip
  import opened Meaning
  import opened Locality
  import opened Reporting

  // ---- Paths ----

  /** One enclosing list: the member that leads on, and the entries around it. */
  datatype Level =
    | Nested(before: seq<Entry>, name: bytes, tag: bytes, isStruct: bool, after: seq<Entry>)
    | InArray(before: seq<Entry>, name: bytes, tag: bytes, isStruct: bool, after: seq<Entry>, pre: seq<Tree>, later: seq<Tree>)
  {
    function Name(): bytes { FieldName(name, tag) }

    function Later(): seq<Tree> { if InArray? then later else [] }

    function Member(sub: seq<Entry>): Entry {
      var list := if isStruct then Tree.Struct(sub) else Tree.Map(sub);
      Entry(name, tag, if Nested? then list else Tree.Lists(pre + [list] + later))
    }

    /** The member as it comes back: later elements of an array are empty. */
    function CutMember(sub: seq<Entry>): Entry {
      Entry(Name(), [], if Nested? then Tree.Map(sub) else Tree.Lists(pre + [Tree.Map(sub)] + Empties(|later|)))
    }
  }

  function Empties(n: nat): (ts: seq<Tree>)
    ensures |ts| == n
  {
    seq(n, i => Tree.Map([]))
  }

  /** The outermost list, with the given entries at the end of the path. */
  function Nest(ls: seq<Level>, inner: seq<Entry>): seq<Entry> {
    if ls == [] then inner else ls[0].before + [ls[0].Member(Nest(ls[1..], inner))] + ls[0].after
  }

  /** What is left of it: everything enumerated before the path, at every level. */
  function Cut(ls: seq<Level>, good: seq<Entry>): seq<Entry> {
    if ls == [] then good else ls[0].before + [ls[0].CutMember(Cut(ls[1..], good))]
  }

  /** How many lists are still to be ended at the bad member: its own, the enclosing ones and later array elements. */
  function Open(ls: seq<Level>): nat {
    if ls == [] then 1 else |ls[0].Later()| + 1 + Open(ls[1..])
  }

  /** No member on the path is one that is never marshalled. */
  predicate TagsOk(ls: seq<Level>) {
    forall i :: 0 <= i < |ls| ==> !Omitted(ls[i].tag, false)
  }

  predicate SomeReports(ts: seq<Tree>) {
    exists i :: 0 <= i < |ts| && Reports(ts[i])
  }

  /** Whether the outermost list reports: a nested list drops the error and goes on, an array passes it on. */
  predicate PathReports(ls: seq<Level>) {
    if ls == [] then true
    else if ls[0].Nested? then !PathReports(ls[1..]) && EntriesReport(ls[0].after)
    else PathReports(ls[1..]) || SomeReports(ls[0].later) || EntriesReport(ls[0].after)
  }

  /** Only the outermost member may be a nested list, so nothing is written behind the error. */
  predicate Final(ls: seq<Level>) {
    forall i :: 0 < i < |ls| ==> ls[i].InArray?
  }

  lemma {:induction false} NestNonempty(ls: seq<Level>, inner: seq<Entry>)
    requires inner != []
    ensures Nest(ls, inner) != []
  {}

  lemma MemberWritten(l: Level, sub: seq<Entry>)
    requires sub != [] && !Omitted(l.tag, false)
    ensures var e := l.Member(sub);
      !Dropped(e) && EntryName(e) == l.Name() && e.value != Tree.Prim(Bool(false))
  {}

  /** The parts of a framed path. */
  predicate LevelFramed(l: Level) {
    && EntriesFramed(true, l.before) && |l.Name()| + 1 < MAX_INT16
    && (l.InArray? ==> |l.pre| + 1 + |l.later| < MAX_INT32 && forall i :: 0 <= i < |l.pre| ==> ListFramed(true, l.pre[i]))
  }

  lemma {:induction false} CutFirst(ls: seq<Level>, good: seq<Entry>)
    requires ls != [] && EntriesFramed(true, Cut(ls, good))
    ensures LevelFramed(ls[0]) && EntriesFramed(true, Cut(ls[1..], good))
  {
    var l, sub := ls[0], Cut(ls[1..], good);
    var g, es := l.CutMember(sub), Cut(ls, good);
    assert forall i :: 0 <= i < |l.before| ==> es[i] == l.before[i];
    assert es[|l.before|] == g && EntryFramed(true, g);
    PlainTag(g);
    assert TreeFramed(true, g.value);
    if l.Nested? {
      assert ListFramed(true, Tree.Map(sub));
    } else {
      var ts := l.pre + [Tree.Map(sub)] + Empties(|l.later|);
      assert forall i :: 0 <= i < |l.pre| ==> ts[i] == l.pre[i];
      assert ts[|l.pre|] == Tree.Map(sub) && ListFramed(true, ts[|l.pre|]);
    }
  }

  // ---- When the outermost list reports ----

  lemma {:induction false} FramedSilent(o: ByteOrder, ts: seq<Tree>)
    requires forall i :: 0 <= i < |ts| ==> ListFramed(true, ts[i])
    ensures !SomeReports(ts)
  {
    ListsEncode(o, ts);
    ListsReport(o, ts);
  }

  lemma MemberReports(o: ByteOrder, l: Level, sub: seq<Entry>)
    requires sub != [] && !Omitted(l.tag, false) && LevelFramed(l)
    ensures var e := l.Member(sub);
      && (Bad(e) <==> l.InArray? && (EntriesReport(sub) || SomeReports(l.later)))
      && (Swallows(e) <==> l.Nested? && EntriesReport(sub))
  {
    var e := l.Member(sub);
    MemberWritten(l, sub);
    assert Bad(e) <==> ValueBad(e.value);
    if l.InArray? {
      var list := if l.isStruct then Tree.Struct(sub) else Tree.Map(sub);
      FramedSilent(o, l.pre);
      ArrayReports(l.pre, list, l.later);
    }
  }

  lemma ArrayReports(pre: seq<Tree>, t: Tree, later: seq<Tree>)
    requires !SomeReports(pre)
    ensures SomeReports(pre + [t] + later) <==> Reports(t) || SomeReports(later)
  {
    var ts := pre + [t] + later;
    if Reports(t) {
      assert ts[|pre|] == t;
    }
    if SomeReports(later) {
      var i :| 0 <= i < |later| && Reports(later[i]);
      assert ts[|pre| + 1 + i] == later[i];
    }
    if SomeReports(ts) {
      var i :| 0 <= i < |ts| && Reports(ts[i]);
      assert i < |pre| ==> ts[i] == pre[i];
      assert i > |pre| ==> ts[i] == later[i - |pre| - 1];
    }
  }

  lemma {:induction false} PathReportIff(o: ByteOrder, ls: seq<Level>, good: seq<Entry>, bad: Entry, rest: seq<Entry>)
    requires TagsOk(ls) && EntriesFramed(true, Cut(ls, good)) && Bad(bad)
    ensures EntriesReport(Nest(ls, good + [bad] + rest)) <==> PathReports(ls)
    decreases |ls|
  {
    var inner := good + [bad] + rest;
    if ls == [] {
      FramedGoesOn(o, good);
      ReportAfter(good, bad, rest);
    } else {
      var l, tail := ls[0], ls[1..];
      CutFirst(ls, good);
      PathReportIff(o, tail, good, bad, rest);
      NestNonempty(tail, inner);
      var e := l.Member(Nest(tail, inner));
      MemberReports(o, l, Nest(tail, inner));
      FramedGoesOn(o, l.before);
      ReportAfter(l.before, e, l.after);
      assert Stops(e) <==> Bad(e) || Swallows(e);
    }
  }

  // ---- The bytes of the path ----

  /** What is written between the entries before the path and the list it leads to. */
  function StepBytes(o: ByteOrder, l: Level): bytes {
    if l.Nested? then ListPair(o, l.Name())
    else ListsPair(o, l.Name(), |l.pre| + 1 + |l.later|) + EncodeLists(o, l.pre).data
  }

  function PathBytes(o: ByteOrder, ls: seq<Level>): bytes {
    if ls == [] then [] else Written(o, ls[0].before) + (StepBytes(o, ls[0]) + PathBytes(o, ls[1..]))
  }

  lemma {:induction false} ListsThrough(o: ByteOrder, pre: seq<Tree>, t: Tree, later: seq<Tree>)
    requires forall i :: 0 <= i < |pre| ==> ListFramed(true, pre[i])
    ensures var sub, rest := EncodeList(o, t), EncodeLists(o, later);
      EncodeLists(o, pre + [t] + later)
        == Out(EncodeLists(o, pre).data + sub.data + (if sub.ok then rest.data else []), sub.ok && rest.ok)
    decreases pre
  {
    var ts, sub, rest := pre + [t] + later, EncodeList(o, t), EncodeLists(o, later);
    var more := if sub.ok then rest.data else [];
    if pre == [] {
      assert ts[0] == t && ts[1..] == later;
      assert [] + sub.data == sub.data && sub.data + [] == sub.data;
    } else {
      assert ts[0] == pre[0] && ts[1..] == pre[1..] + [t] + later;
      ListsThrough(o, pre[1..], t, later);
      ListEncodes(o, pre[0]);
      ListsEncode(o, pre[1..]);
      var first, front := EncodeList(o, pre[0]).data, EncodeLists(o, pre[1..]).data;
      Assoc(first, front, sub.data);
      Assoc(first, front + sub.data, more);
    }
  }

  /** The bytes of an entry whose value is a list array. */
  lemma ArrayEntryIs(o: ByteOrder, e: Entry, out: Out)
    requires e.value.Lists? && |e.value.ts| < MAX_INT32 && EncodeLists(o, e.value.ts) == out
    ensures EncodeEntry(o, e) == EntryOut(ListsPair(o, EntryName(e), |e.value.ts|) + out.data, if out.ok then Continue else ReturnErr)
  {}

  lemma ArrayEntry(o: ByteOrder, e: Entry, pair: bytes, pre: bytes, data: bytes, more: bytes, ok: bool)
    requires e.value.Lists? && |e.value.ts| < MAX_INT32 && EncodeLists(o, e.value.ts) == Out(pre + data + more, ok)
    requires pair == ListsPair(o, EntryName(e), |e.value.ts|)
    ensures EncodeEntry(o, e) == EntryOut(pair + pre + data + more, if ok then Continue else ReturnErr)
  {
    ArrayEntryIs(o, e, Out(pre + data + more, ok));
    ArrayRegroup(pair, pre, data, more);
  }

  lemma ListEntryBytes(o: ByteOrder, e: Entry, more: bytes)
    requires e.value.IsList() && more == []
    ensures var sub := EncodeList(o, e.value);
      EncodeEntry(o, e) == EntryOut(ListPair(o, EntryName(e)) + sub.data + more, if sub.ok then Continue else ReturnOk)
  {
    var data := ListPair(o, EntryName(e)) + EncodeList(o, e.value).data;
    assert data + more == data;
  }

  /** The bytes of the member on the path, and whether the loop goes on behind it. */
  lemma MemberBytes(o: ByteOrder, l: Level, sub: seq<Entry>) returns (more: bytes)
    requires sub != [] && !Omitted(l.tag, false) && LevelFramed(l)
    ensures IsMember(o, l, l.Member(sub), EncodeEntries(o, sub), more)
  {
    var e, out := l.Member(sub), EncodeEntries(o, sub);
    var list := if l.isStruct then Tree.Struct(sub) else Tree.Map(sub);
    MemberWritten(l, sub);
    if l.Nested? {
      more := [];
      ListEntryBytes(o, e, more);
    } else {
      more := ArrayMember(o, l, e, list);
    }
  }

  /** The bytes of an entry that leads to a list with the given bytes; nothing follows if that list reports. */
  ghost predicate IsMember(o: ByteOrder, l: Level, e: Entry, out: Out, more: bytes) {
    var p := EncodeEntry(o, e);
    p.data == StepBytes(o, l) + out.data + more && (!out.ok ==> more == [] && p.flow != Continue)
  }

  lemma ArrayMember(o: ByteOrder, l: Level, e: Entry, list: Tree) returns (more: bytes)
    requires l.InArray? && LevelFramed(l) && EntryName(e) == l.Name() && e.value == Tree.Lists(l.pre + [list] + l.later)
    ensures IsMember(o, l, e, EncodeList(o, list), more)
  {
    var out, rest, pre := EncodeList(o, list), EncodeLists(o, l.later), EncodeLists(o, l.pre).data;
    var ts, ok := e.value.ts, out.ok && rest.ok;
    more := if out.ok then rest.data else [];
    assert EncodeLists(o, ts) == Out(pre + out.data + more, ok) by {
      ListsThrough(o, l.pre, list, l.later);
    }
    ArrayEntry(o, e, ListsPair(o, l.Name(), |ts|), pre, out.data, more, ok);
  }

  lemma ArrayRegroup(pair: bytes, pre: bytes, data: bytes, more: bytes)
    ensures pair + (pre + data + more) == pair + pre + data + more
  {
    Assoc(pair, pre + data, more);
    Assoc(pair, pre, data);
  }

  /** The bytes of a whole level. */
  lemma LevelBytes(o: ByteOrder, l: Level, sub: seq<Entry>) returns (more: bytes)
    requires sub != [] && !Omitted(l.tag, false) && LevelFramed(l)
    ensures EncodeEntries(o, l.before + [l.Member(sub)] + l.after).data
         == Written(o, l.before) + (StepBytes(o, l) + EncodeEntries(o, sub).data + more)
    ensures EntriesReport(sub) ==> more == []
  {
    var e := l.Member(sub);
    var inner := MemberBytes(o, l, sub);
    MemberWritten(l, sub);
    FramedGoesOn(o, l.before);
    Assoc(l.before, [e], l.after);
    EncodeAfter(o, l.before, [e] + l.after);
    var es, p := [e] + l.after, EncodeEntry(o, e);
    assert es[0] == e && es[1..] == l.after;
    var outer := if p.flow == Continue then EncodeEntries(o, l.after).data else [];
    assert EncodeEntries(o, es).data == p.data + outer by {
      assert p.data + [] == p.data;
    }
    more := inner + outer;
    EntriesReports(o, sub);
    Assoc(StepBytes(o, l) + EncodeEntries(o, sub).data, inner, outer);
  }

  lemma Regroup(w: bytes, st: bytes, p: bytes, g: bytes, b: bytes, junk: bytes, more: bytes)
    ensures w + (st + (p + (g + (b + junk))) + more) == w + (st + p) + (g + (b + (junk + more)))
  {
    Assoc(st, p, g + (b + junk));
    Assoc(st + p, g + (b + junk), more);
    Assoc(g, b + junk, more);
    Assoc(b, junk, more);
    Assoc(w, st + p, g + (b + (junk + more)));
  }

  /** What a bad entry leaves in the buffer. */
  function BadBytes(o: ByteOrder, e: Entry): bytes {
    if |EntryName(e)| + 1 >= MAX_INT16 then [] else EncodeEntry(o, e).data
  }

  lemma BadEnd(o: ByteOrder, good: seq<Entry>, bad: Entry, rest: seq<Entry>)
    requires EntriesFramed(true, good) && Bad(bad)
    ensures EncodeEntries(o, good + [bad] + rest) == Out(Written(o, good) + BadBytes(o, bad), false)
  {
    FramedGoesOn(o, good);
    StoppedAt(o, good, bad, rest);
    EncodeAfter(o, good, [bad]);
    if |EntryName(bad)| + 1 < MAX_INT16 {
      EntryReports(o, bad);
    }
    assert [bad][1..] == [];
    assert EncodeEntries(o, [bad]) == Out(BadBytes(o, bad), false);
  }

  lemma {:induction false} NestBytes(o: ByteOrder, ls: seq<Level>, good: seq<Entry>, bad: Entry, rest: seq<Entry>) returns (junk: bytes)
    requires TagsOk(ls) && EntriesFramed(true, Cut(ls, good)) && Bad(bad)
    ensures EncodeEntries(o, Nest(ls, good + [bad] + rest)).data
         == PathBytes(o, ls) + (Written(o, good) + (BadBytes(o, bad) + junk))
    ensures Final(ls) ==> junk == []
    decreases |ls|, 1
  {
    if ls == [] {
      junk := [];
      BadEnd(o, good, bad, rest);
      var all := Written(o, good) + BadBytes(o, bad);
      assert BadBytes(o, bad) + [] == BadBytes(o, bad) && [] + all == all;
    } else {
      junk := PathStep(o, ls, good, bad, rest);
    }
  }

  lemma {:induction false} PathStep(o: ByteOrder, ls: seq<Level>, good: seq<Entry>, bad: Entry, rest: seq<Entry>) returns (junk: bytes)
    requires ls != [] && TagsOk(ls) && EntriesFramed(true, Cut(ls, good)) && Bad(bad)
    ensures EncodeEntries(o, Nest(ls, good + [bad] + rest)).data
         == PathBytes(o, ls) + (Written(o, good) + (BadBytes(o, bad) + junk))
    ensures Final(ls) ==> junk == []
    decreases |ls|, 0
  {
    var l, sub := ls[0], Nest(ls[1..], good + [bad] + rest);
    CutFirst(ls, good);
    var inner := NestBytes(o, ls[1..], good, bad, rest);
    NestNonempty(ls[1..], good + [bad] + rest);
    var more := LevelBytes(o, l, sub);
    junk := inner + more;
    Regroup(Written(o, l.before), StepBytes(o, l), PathBytes(o, ls[1..]), Written(o, good), BadBytes(o, bad), inner, more);
    if Final(ls) {
      ArraysReport(ls[1..]);
      PathReportIff(o, ls[1..], good, bad, rest);
    }
  }

  lemma {:induction false} ArraysReport(ls: seq<Level>)
    requires forall i :: 0 <= i < |ls| ==> ls[i].InArray?
    ensures PathReports(ls) && Final(ls)
  {
    if ls != [] {
      ArraysReport(ls[1..]);
    }
  }

  // ---- The bytes of what is left ----

  lemma {:induction false} EmptiesBytes(o: ByteOrder, n: nat)
    ensures EncodeLists(o, Empties(n)) == Out(Zeros(4 * n), true)
  {
    var ts := Empties(n);
    if n > 0 {
      assert ts[0] == Tree.Map([]) && ts[1..] == Empties(n - 1);
      EmptiesBytes(o, n - 1);
      assert EncodeEntries(o, []) == Out(Zeros(4), true);
      assert Zeros(4) + Zeros(4 * (n - 1)) == Zeros(4 * n);
    }
  }

  lemma CutMemberBytes(o: ByteOrder, l: Level, sub: seq<Entry>, data: bytes)
    requires LevelFramed(l) && EncodeEntries(o, sub) == Out(data, true)
    ensures EncodeEntry(o, l.CutMember(sub)) == EntryOut(StepBytes(o, l) + data + Zeros(4 * |l.Later()|), Continue)
  {
    var g := l.CutMember(sub);
    PlainTag(g);
    if l.Nested? {
      ListEntryBytes(o, g, Zeros(0));
    } else {
      CutArrayBytes(o, l, g, Tree.Map(sub), data);
    }
  }

  lemma CutArrayBytes(o: ByteOrder, l: Level, g: Entry, list: Tree, data: bytes)
    requires l.InArray? && LevelFramed(l) && EntryName(g) == l.Name() && EncodeList(o, list) == Out(data, true)
    requires g.value == Tree.Lists(l.pre + [list] + Empties(|l.later|))
    ensures EncodeEntry(o, g) == EntryOut(StepBytes(o, l) + data + Zeros(4 * |l.later|), Continue)
  {
    var k, ts, pre := |l.later|, g.value.ts, EncodeLists(o, l.pre).data;
    assert EncodeLists(o, ts) == Out(pre + data + Zeros(4 * k), true) by {
      EmptiesBytes(o, k);
      ListsThrough(o, l.pre, list, Empties(k));
    }
    ArrayEntry(o, g, ListsPair(o, l.Name(), |ts|), pre, data, Zeros(4 * k), true);
  }

  lemma CutLevelBytes(o: ByteOrder, l: Level, sub: seq<Entry>, data: bytes)
    requires LevelFramed(l) && EncodeEntries(o, sub) == Out(data, true)
    ensures EncodeEntries(o, l.before + [l.CutMember(sub)])
         == Out(Written(o, l.before) + (StepBytes(o, l) + data + Zeros(4 * (|l.Later()| + 1))), true)
  {
    var g, n := l.CutMember(sub), 4 * |l.Later()|;
    PlainTag(g);
    CutMemberBytes(o, l, sub, data);
    FramedGoesOn(o, l.before);
    EncodeAfter(o, l.before, [g]);
    EncodeOne(o, g);
    assert Zeros(n) + Zeros(4) == Zeros(n + 4);
    Assoc(StepBytes(o, l) + data, Zeros(n), Zeros(4));
  }

  lemma EncodeOne(o: ByteOrder, e: Entry)
    requires !Dropped(e) && |EntryName(e)| + 1 < MAX_INT16 && EncodeEntry(o, e).flow == Continue
    ensures EncodeEntries(o, [e]) == Out(EncodeEntry(o, e).data + Zeros(4), true)
  {
    assert [e][1..] == [];
    assert EncodeEntries(o, []) == Out(Zeros(4), true);
  }

  ghost predicate IsCut(o: ByteOrder, es: seq<Entry>, path: bytes, w: bytes, n: nat) {
    EncodeEntries(o, es) == Out(path + (w + Zeros(n)), true)
  }

  lemma {:induction false} CutBytes(o: ByteOrder, ls: seq<Level>, good: seq<Entry>)
    requires EntriesFramed(true, Cut(ls, good))
    ensures IsCut(o, Cut(ls, good), PathBytes(o, ls), Written(o, good), 4 * Open(ls))
    decreases |ls|
  {
    if |ls| == 0 {
      CutNone(o, good, PathBytes(o, ls));
    } else {
      CutFirst(ls, good);
      CutBytes(o, ls[1..], good);
      CutStep(o, ls[0], Cut(ls[1..], good), PathBytes(o, ls[1..]), Written(o, good), 4 * Open(ls[1..]), 4 * Open(ls));
    }
  }

  lemma CutNone(o: ByteOrder, good: seq<Entry>, none: bytes)
    requires EntriesFramed(true, good) && none == []
    ensures IsCut(o, good, none, Written(o, good), 4)
  {
    FramedGoesOn(o, good);
    EncodeAfter(o, good, []);
    assert good + [] == good && EncodeEntries(o, []) == Out(Zeros(4), true);
    var all := Written(o, good) + Zeros(4);
    assert none + all == all;
  }

  lemma CutStep(o: ByteOrder, l: Level, sub: seq<Entry>, p: bytes, w: bytes, n: nat, m: nat)
    requires LevelFramed(l) && IsCut(o, sub, p, w, n) && m == n + 4 * (|l.Later()| + 1)
    ensures IsCut(o, l.before + [l.CutMember(sub)], Written(o, l.before) + (StepBytes(o, l) + p), w, m)
  {
    var k := 4 * (|l.Later()| + 1);
    CutLevelBytes(o, l, sub, p + (w + Zeros(n)));
    CutRegroup(Written(o, l.before), StepBytes(o, l), p, w, n, k);
  }

  lemma CutRegroup(b: bytes, st: bytes, p: bytes, w: bytes, n: nat, k: nat)
    ensures b + (st + (p + (w + Zeros(n))) + Zeros(k)) == b + (st + p) + (w + Zeros(n + k))
  {
    assert Zeros(n) + Zeros(k) == Zeros(n + k);
    Assoc(st, p, w + Zeros(n));
    Assoc(st + p, w + Zeros(n), Zeros(k));
    Assoc(w, Zeros(n), Zeros(k));
    Assoc(b, st + p, w + Zeros(n + k));
  }

  // ---- The outcome ----

  /** The header of a pair has been reserved when the error is found. */
  predicate OpensPair(e: Entry) {
    && |EntryName(e)| + 1 < MAX_INT16
    && match e.value
       case Unsupported(_) => true
       case Prim(l) => LeafElems(l) >= MAX_INT32
       case Lists(ts) => |ts| >= MAX_INT32
       case _ => false
  }

  /**
   A bad member at the end of any path through nested lists and list arrays,
   for all entries and elements around the path. Marshal reports it exactly as
   the path says. If it does not, then:
   - a member that had its pair opened left 16 zero bytes, which end four lists.
     If no more are open, exactly what was enumerated before it comes back, at
     every level, with empty lists for the later elements of arrays, although
     outer lists may go on writing;
   - a member whose name was too long left nothing. If nothing is written behind
     it either, the bytes do not decode.
   */
  lemma {:induction false} SwallowedOutcome(o: ByteOrder, ls: seq<Level>, good: seq<Entry>, bad: Entry, rest: seq<Entry>)
    requires TagsOk(ls) && Bad(bad) && Readable(o, Tree.Map(Cut(ls, good)))
    ensures var r := Marshal(o, Tree.Map(Nest(ls, good + [bad] + rest)));
      && (r.Err? <==> PathReports(ls))
      && (r.Ok? && OpensPair(bad) && Open(ls) <= 4 ==> Unmarshal(r.value) == Ok(TreeMeaning(Tree.Map(Cut(ls, good)))))
      && (r.Ok? && |EntryName(bad)| + 1 >= MAX_INT16 && Final(ls) ==> Unmarshal(r.value).Err?)
  {
    var t, g := Tree.Map(Nest(ls, good + [bad] + rest)), Tree.Map(Cut(ls, good));
    PathReportIff(o, ls, good, bad, rest);
    ReportIff(o, t);
    var junk := NestBytes(o, ls, good, bad, rest);
    CutBytes(o, ls, good);
    var p, w, n := PathBytes(o, ls), Written(o, good), 4 * Open(ls);
    var td := p + (w + (BadBytes(o, bad) + junk));
    var gd := p + (w + Zeros(n));
    assert Marshal(o, g) == Ok(BufferHeader(o) + gd);
    assert Marshal(o, t).Ok? ==> Marshal(o, t).value == BufferHeader(o) + td;
    if OpensPair(bad) && n <= 16 {
      OpenedBytes(o, bad);
      OpenedTail(p, w, n, Pad8(CString(EntryName(bad))), junk);
      ExtendedDecode(o, g, td, gd, Zeros(16 - n) + Pad8(CString(EntryName(bad))) + junk);
    }
    if |EntryName(bad)| + 1 >= MAX_INT16 && Final(ls) {
      assert BadBytes(o, bad) + junk == [];
      OpenPositive(ls);
      CutTail(p, w, n);
      CutDecode(o, g, td, gd, n);
    }
  }

  lemma {:induction false} OpenPositive(ls: seq<Level>)
    ensures Open(ls) > 0
  {}

  lemma OpenedBytes(o: ByteOrder, bad: Entry)
    requires Bad(bad) && OpensPair(bad)
    ensures BadBytes(o, bad) == Zeros(16) + Pad8(CString(EntryName(bad)))
  {}

  lemma OpenedTail(p: bytes, w: bytes, n: nat, pad: bytes, junk: bytes)
    requires n <= 16
    ensures p + (w + (Zeros(16) + pad + junk)) == p + (w + Zeros(n)) + (Zeros(16 - n) + pad + junk)
  {
    var z, extra := Zeros(16 - n), Zeros(16 - n) + pad + junk;
    assert Zeros(16) == Zeros(n) + z;
    Assoc(Zeros(n), z, pad);
    Assoc(Zeros(n), z + pad, junk);
    Assoc(w, Zeros(n), extra);
    Assoc(p, w + Zeros(n), extra);
  }

  lemma CutTail(p: bytes, w: bytes, n: nat)
    ensures p + (w + []) + Zeros(n) == p + (w + Zeros(n))
  {
    assert w + [] == w;
    Assoc(p, w, Zeros(n));
  }

  lemma ExtendedDecode(o: ByteOrder, g: Tree, td: bytes, gd: bytes, extra: bytes)
    requires Readable(o, g) && Marshal(o, g) == Ok(BufferHeader(o) + gd) && td == gd + extra
    ensures Unmarshal(BufferHeader(o) + td) == Ok(TreeMeaning(g))
  {
    Assoc(BufferHeader(o), gd, extra);
    TreeOutcome(o, g, extra);
  }

  lemma CutDecode(o: ByteOrder, g: Tree, td: bytes, gd: bytes, n: nat)
    requires Readable(o, g) && Marshal(o, g) == Ok(BufferHeader(o) + gd) && td + Zeros(n) == gd && n > 0
    ensures Unmarshal(BufferHeader(o) + td).Err?
  {
    var all, k := BufferHeader(o) + gd, 12 + |td|;
    assert all[..k] == BufferHeader(o) + td;
    PrefixFreeness(o, g, k);
  }
}
