/**
 When exactly a value comes back as its normal form, and when exactly the
 enumeration order of a map is visible.
 */
module Exactness {
  import opened Bytes
  import opened Values
  import opened Decoder
  import opened Encoder
  import opened Domain
  import opened Meaning
  import opened Outcome
  import opened Reporting
  import opened Stability

  /** No two kept fields of a struct share an effective name, at every depth. */
  ghost predicate DistinctFields(v: Value)
    decreases v
  {
    match v
    case Map(m) => forall k :: k in m && Kept(m[k]) ==> DistinctFields(m[k])
    case Struct(fs) =>
      && (forall i, j :: 0 <= i < j < |fs| && FieldKept(fs[i]) && FieldKept(fs[j]) ==>
            FieldName(fs[i].name, fs[i].tag) != FieldName(fs[j].name, fs[j].tag))
      && (forall i :: 0 <= i < |fs| && FieldKept(fs[i]) ==> DistinctFields(fs[i].value))
    case Lists(vs) => forall i :: 0 <= i < |vs| ==> DistinctFields(vs[i])
    case _ => true
  }

  // ---- Values that are read as they are hold no string with a NUL ----

  lemma {:induction false} PlainList(v: Value, t: Tree)
    requires Orders(v, t) && ListFramed(true, t) && Verbatim(v)
    ensures ListFramed(false, t)
    decreases t, 0
  {
    match t
    case Nil =>
    case Map(es) =>
      forall i | 0 <= i < |es|
        ensures EntryFramed(false, es[i])
      {
        assert EntryFramed(true, es[i]);
        KeptAgrees(v.m[es[i].name], es[i]);
        PlainTag(es[i]);
        PlainEntry(v.m[es[i].name], es[i]);
      }
    case Struct(es) =>
      forall i | 0 <= i < |es|
        ensures EntryFramed(false, es[i])
      {
        assert EntryFramed(true, es[i]);
        KeptAgrees(v.fields[i].value, es[i]);
        PlainEntry(v.fields[i].value, es[i]);
      }
  }

  lemma {:induction false} PlainEntry(v: Value, e: Entry)
    requires Orders(v, e.value) && EntryFramed(true, e) && (EntryKept(e) ==> Verbatim(v))
    ensures EntryFramed(false, e)
    decreases e
  {
    if !NotWritten(e) {
      match e.value
      case Prim(l) => ReadLeafPlain(l);
      case Float64(_) =>
      case Map(_) => PlainList(v, e.value);
      case Struct(_) => PlainList(v, e.value);
      case Lists(ts) =>
        forall i | 0 <= i < |ts|
          ensures ListFramed(false, ts[i])
        {
          PlainList(v.vs[i], ts[i]);
        }
    }
  }

  // ---- What comes back as it was is read as it is ----

  /** The entries that end up in the map. */
  predicate EntryKept(e: Entry) {
    !NotWritten(e) && !ProjectEntry(e).node.Skipped?
  }

  function NodeValue(n: Node): Value
    requires !n.Skipped?
  {
    match n
    case Single(l) => Value.Prim(l)
    case Sub(b) => Value.Map(Build(map[], b.items))
    case Subs(bs) => Value.Lists(BuildAll(bs))
  }

  ghost predicate DistinctKept(es: seq<Entry>) {
    forall i, j :: 0 <= i < j < |es| && EntryKept(es[i]) && EntryKept(es[j]) ==> EntryName(es[i]) != EntryName(es[j])
  }

  lemma {:induction false} BuiltFrom(es: seq<Entry>, x: bytes) returns (i: nat)
    requires x in Build(map[], Project(es))
    ensures i < |es| && EntryKept(es[i]) && ReadName(EntryName(es[i])) == x
    decreases |es|
  {
    assert es != [];
    var n := |es| - 1;
    BuildLast(es);
    if EntryKept(es[n]) && ReadName(EntryName(es[n])) == x {
      i := n;
    } else {
      i := BuiltFrom(es[..n], x);
    }
  }

  lemma {:induction false} BuiltAt(es: seq<Entry>, i: nat)
    requires i < |es| && EntryKept(es[i])
    requires forall j :: i < j < |es| && EntryKept(es[j]) ==> ReadName(EntryName(es[j])) != ReadName(EntryName(es[i]))
    ensures var r := Build(map[], Project(es));
      && ReadName(EntryName(es[i])) in r
      && r[ReadName(EntryName(es[i]))] == NodeValue(ProjectEntry(es[i]).node)
    decreases |es|
  {
    BuildLast(es);
    if i < |es| - 1 {
      BuiltAt(es[..|es| - 1], i);
    }
  }

  /** If every kept entry is found under its own name, then it is read under it, and with its own value. */
  lemma EntriesRecovered(es: seq<Entry>, r: map<bytes, Value>)
    requires r == Build(map[], Project(es)) && DistinctKept(es)
    requires forall i :: 0 <= i < |es| && EntryKept(es[i]) ==> EntryName(es[i]) in r
    ensures forall i :: 0 <= i < |es| && EntryKept(es[i]) ==>
      ReadName(EntryName(es[i])) == EntryName(es[i]) && r[EntryName(es[i])] == NodeValue(ProjectEntry(es[i]).node)
  {
    forall i | 0 <= i < |es| && EntryKept(es[i])
      ensures ReadName(EntryName(es[i])) == EntryName(es[i])
    {
      var j := BuiltFrom(es, EntryName(es[i]));
      ReadNameAgain(EntryName(es[j]));
    }
    forall i | 0 <= i < |es| && EntryKept(es[i])
      ensures r[EntryName(es[i])] == NodeValue(ProjectEntry(es[i]).node)
    {
      BuiltAt(es, i);
    }
  }

  lemma KeptAgrees(v: Value, e: Entry)
    requires Orders(v, e.value)
    ensures EntryKept(e) <==> Kept(v) && !Omitted(e.tag, ValueEmpty(v))
  {
    EmptyAgrees(v, e.value);
  }

  lemma {:induction false} ListRecovered(v: Value, t: Tree)
    requires Orders(v, t) && ListFramed(true, t) && DistinctFields(v) && Build(map[], ProjectList(t).items) == NormMap(v)
    ensures Verbatim(v)
    decreases t, 0
  {
    match t
    case Nil =>
    case Map(es) =>
      forall i | 0 <= i < |es|
        ensures EntryKept(es[i]) <==> Kept(v.m[es[i].name])
        ensures EntryName(es[i]) == es[i].name
      {
        KeptAgrees(v.m[es[i].name], es[i]);
        PlainTag(es[i]);
      }
      EntriesRecovered(es, NormMap(v));
      forall k | k in v.m && Kept(v.m[k])
        ensures ReadName(k) == k && Verbatim(v.m[k])
      {
        assert k in NamesOf(es);
        var i :| 0 <= i < |es| && es[i].name == k;
        assert EntryFramed(true, es[i]);
        MemberRecovered(v.m[k], es[i]);
      }
    case Struct(es) =>
      forall i | 0 <= i < |es|
        ensures EntryKept(es[i]) <==> FieldKept(v.fields[i])
        ensures EntryKept(es[i]) ==> EntryName(es[i]) in NormMap(v) && NormMap(v)[EntryName(es[i])] == Norm(v.fields[i].value)
      {
        KeptAgrees(v.fields[i].value, es[i]);
        if FieldKept(v.fields[i]) {
          FieldSurvives(v.fields, i);
        }
      }
      EntriesRecovered(es, NormMap(v));
      forall i | 0 <= i < |es| && FieldKept(v.fields[i])
        ensures ReadName(EntryName(es[i])) == EntryName(es[i]) && Verbatim(v.fields[i].value)
      {
        assert EntryFramed(true, es[i]);
        MemberRecovered(v.fields[i].value, es[i]);
      }
  }

  lemma {:induction false} MemberRecovered(v: Value, e: Entry)
    requires Orders(v, e.value) && DistinctFields(v) && EntryFramed(true, e) && EntryKept(e)
    requires NodeValue(ProjectEntry(e).node) == Norm(v)
    ensures Verbatim(v)
    decreases e
  {
    match e.value
    case Map(_) => ListRecovered(v, e.value);
    case Struct(_) => ListRecovered(v, e.value);
    case Lists(ts) =>
      forall i | 0 <= i < |ts|
        ensures Verbatim(v.vs[i])
      {
        ElementRecovered(v, ts, i);
        ListRecovered(v.vs[i], ts[i]);
      }
    case _ =>
  }

  lemma ElementRecovered(v: Value, ts: seq<Tree>, i: nat)
    requires v.Lists? && |v.vs| == |ts| && i < |ts| && Value.Lists(BuildAll(ProjectAll(ts))) == Norm(v)
    ensures Build(map[], ProjectList(ts[i]).items) == NormMap(v.vs[i])
  {
    ProjectAllAt(ts, i);
    assert Norm(v).vs[i] == Value.Map(NormMap(v.vs[i]));
    assert BuildAll(ProjectAll(ts))[i] == Value.Map(Build(map[], ProjectAll(ts)[i].items));
  }

  // ---- The exact condition ----

  /**
   The round trip holds exactly in the domain: of all values that Marshal
   reports, and of all that it writes without an error inside, those with nil
   list elements, long arrays, oversized pairs, NULs in strings and NULs in
   names included, precisely the values of the domain come back in normal form.
   */
  lemma RoundTripIff(o: ByteOrder, v: Value, t: Tree)
    requires Orders(v, t) && DistinctFields(v) && (Reports(t) || ListFramed(true, t))
    ensures (Marshal(o, t).Ok? && Unmarshal(Marshal(o, t).value) == Ok(Norm(v))) <==> InDomain(v)
  {
    if InDomain(v) {
      CodecRoundTrip(o, v, t, []);
      assert Marshal(o, t).value + [] == Marshal(o, t).value;
    }
    if Marshal(o, t).Ok? && Unmarshal(Marshal(o, t).value) == Ok(Norm(v)) {
      ReportIff(o, t);
      CameBack(o, v, t);
    }
  }

  lemma CameBack(o: ByteOrder, v: Value, t: Tree)
    requires Orders(v, t) && DistinctFields(v) && ListFramed(true, t)
    requires Marshal(o, t).Ok? && Unmarshal(Marshal(o, t).value) == Ok(Norm(v))
    ensures InDomain(v)
  {
    DecodeOutcome(o, t);
    assert Norm(v) == Value.Map(NormMap(v));
    ListRecovered(v, t);
    PlainList(v, t);
    OkIff(o, t);
    DomainAgrees(v, t);
  }

  // ---- When the enumeration order is visible ----

  /** An enumeration that lists a kept member last, so that it wins its name. */
  lemma PutLast(m: map<bytes, Value>, k: bytes) returns (t: Tree)
    requires Admitted(Value.Map(m)) && k in m && Kept(m[k]) && Consistent(m[k])
    ensures Orders(Value.Map(m), t) && RootOk(t)
    ensures ReadName(k) in TreeMeaning(t).m && TreeMeaning(t).m[ReadName(k)] == Seen(m[k])
  {
    var v := Value.Map(m);
    var front := EntriesExist(v, m.Keys - {k});
    var last := OrderExists(m[k]);
    var e := Entry(k, [], last);
    var es := front + [e];
    t := Tree.Map(es);
    LastOrders(m, front, e);
    DomainAgrees(v, t);
    PlainTag(e);
    BuildLast(es);
    assert es[..|es| - 1] == front;
    EntryMeaning(Build(map[], Project(front)), e, m[k]);
  }

  lemma LastOrders(m: map<bytes, Value>, front: seq<Entry>, e: Entry)
    requires e.name in m && e.tag == [] && Orders(m[e.name], e.value)
    requires DistinctNames(front) && NamesOf(front) == m.Keys - {e.name}
    requires forall i :: 0 <= i < |front| ==>
      front[i].tag == [] && front[i].name in m && Orders(m[front[i].name], front[i].value)
    ensures Orders(Value.Map(m), Tree.Map(front + [e]))
  {
    var es := front + [e];
    forall i | 0 <= i < |front|
      ensures front[i].name != e.name
    {
      assert front[i].name in NamesOf(front);
    }
    assert DistinctNames(es);
    assert NamesOf(es) == NamesOf(front) + {e.name};
  }

  ghost predicate SameDecoded(o: ByteOrder, t1: Tree, t2: Tree) {
    && Marshal(o, t1).Ok? && Marshal(o, t2).Ok?
    && Unmarshal(Marshal(o, t1).value) == Unmarshal(Marshal(o, t2).value)
  }

  ghost predicate OrderHidden(o: ByteOrder, v: Value) {
    forall t1, t2 :: Orders(v, t1) && Orders(v, t2) ==> SameDecoded(o, t1, t2)
  }

  /**
   All enumerations of an admitted map with consistent members decode alike if
   and only if members that are read under one name are seen alike.
   */
  lemma OrderHiddenIff(o: ByteOrder, m: map<bytes, Value>)
    requires Admitted(Value.Map(m)) && forall k :: k in m && Kept(m[k]) ==> Consistent(m[k])
    ensures OrderHidden(o, Value.Map(m)) <==> Consistent(Value.Map(m))
  {
    var v := Value.Map(m);
    if Consistent(v) {
      forall t1, t2 | Orders(v, t1) && Orders(v, t2)
        ensures SameDecoded(o, t1, t2)
      {
        DomainAgrees(v, t1);
        DomainAgrees(v, t2);
        OkReadable(o, t1);
        OkReadable(o, t2);
        OrderIndependence(o, o, v, t1, t2);
      }
    } else {
      var k1, k2 :| k1 in m && Kept(m[k1]) && k2 in m && Kept(m[k2]) && ReadName(k1) == ReadName(k2) && Seen(m[k1]) != Seen(m[k2]);
      var t1 := PutLast(m, k1);
      var t2 := PutLast(m, k2);
      OkReadable(o, t1);
      OkReadable(o, t2);
      TreeOutcome(o, t1, []);
      TreeOutcome(o, t2, []);
      assert Marshal(o, t1).value + [] == Marshal(o, t1).value;
      assert Marshal(o, t2).value + [] == Marshal(o, t2).value;
      assert !SameDecoded(o, t1, t2);
    }
  }
}
