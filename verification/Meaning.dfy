/**
 The round trip as a statement about Go values: whatever order each map is
 enumerated in, unmarshalling a marshalled value yields its normal form.
 */
module Meaning {
  import opened Bytes
  import opened Consts
  import opened Values
  import opened Decoder
  import opened Encoder
  import opened Domain
  import opened RoundTrip

  lemma {:induction false} ProjectSnoc(es: seq<Entry>, e: Entry)
    ensures Project(es + [e]) == Project(es) + (if NotWritten(e) then [] else [ProjectEntry(e)])
  {
    var last := if NotWritten(e) then [] else [ProjectEntry(e)];
    if es == [] {
      assert es + [e] == [e] && [e][1..] == [];
      assert Project([]) == [];
    } else {
      ProjectSnoc(es[1..], e);
      assert (es + [e])[0] == es[0] && (es + [e])[1..] == es[1..] + [e];
      if !NotWritten(es[0]) {
        Assoc([ProjectEntry(es[0])], Project(es[1..]), last);
      }
    }
  }

  lemma BuildAppend(items: seq<Item>, it: Item)
    ensures Build(map[], items + [it]) == AddItem(Build(map[], items), it)
  {
    var all := items + [it];
    assert all[..|all| - 1] == items && all[|all| - 1] == it;
  }

  /** What the last entry adds to the map built from the others. */
  lemma BuildLast(es: seq<Entry>)
    requires es != []
    ensures var e := es[|es| - 1];
      var m := Build(map[], Project(es[..|es| - 1]));
      Build(map[], Project(es)) == if NotWritten(e) then m else AddItem(m, ProjectEntry(e))
  {
    var e := es[|es| - 1];
    var front := es[..|es| - 1];
    assert es == front + [e];
    ProjectSnoc(front, e);
    if NotWritten(e) {
      assert Project(front) + [] == Project(front);
    } else {
      BuildAppend(Project(front), ProjectEntry(e));
    }
  }

  lemma EmptyAgrees(v: Value, t: Tree)
    requires Orders(v, t)
    ensures TreeEmpty(t) == ValueEmpty(v)
  {
    if t.Map? {
      if t.entries != [] {
        assert t.entries[0].name in v.m;
      } else {
        assert v.m.Keys == {};
      }
    }
  }

  /** An entry is dropped, skipped or set under the name it is read with, exactly as its value says. */
  lemma {:induction false} EntryMeaning(m: map<bytes, Value>, e: Entry, v: Value)
    requires Orders(v, e.value) && (Kept(v) && !Omitted(e.tag, ValueEmpty(v)) ==> Consistent(v))
    ensures (if NotWritten(e) then m else AddItem(m, ProjectEntry(e)))
         == if Kept(v) && !Omitted(e.tag, ValueEmpty(v)) then m[ReadName(EntryName(e)) := Seen(v)] else m
    decreases e
  {
    EmptyAgrees(v, e.value);
    if Kept(v) && !Omitted(e.tag, ValueEmpty(v)) {
      match e.value
      case Map(_) => ListMeaning(v, e.value);
      case Struct(_) => ListMeaning(v, e.value);
      case Lists(ts) => ListsMeaning(v, e.value);
      case _ =>
    }
  }

  lemma {:induction false} ListsMeaning(v: Value, t: Tree)
    requires Orders(v, t) && t.Lists? && Consistent(v)
    ensures Value.Lists(BuildAll(ProjectAll(t.ts))) == Seen(v)
    decreases t
  {
    var built, seen := BuildAll(ProjectAll(t.ts)), Seen(v).vs;
    forall i | 0 <= i < |t.ts|
      ensures built[i] == seen[i]
    {
      ElementMeaning(v, t, i);
    }
    assert built == seen;
  }

  lemma {:induction false} ElementMeaning(v: Value, t: Tree, i: nat)
    requires Orders(v, t) && t.Lists? && i < |t.ts| && Consistent(v)
    ensures BuildAll(ProjectAll(t.ts))[i] == Seen(v).vs[i]
    decreases t.ts
  {
    ProjectAllAt(t.ts, i);
    ListMeaning(v.vs[i], t.ts[i]);
  }

  lemma {:induction false} ProjectAllAt(ts: seq<Tree>, i: nat)
    requires i < |ts|
    ensures ProjectAll(ts)[i] == ProjectList(ts[i])
  {
    if i > 0 {
      ProjectAllAt(ts[1..], i - 1);
    }
  }

  /** The map built from a list's items is what the list is seen as, for every enumeration order. */
  lemma {:induction false} ListMeaning(v: Value, t: Tree)
    requires Orders(v, t) && Consistent(v)
    ensures Build(map[], ProjectList(t).items) == SeenMap(v)
    decreases t
  {
    match t
    case Map(es) =>
      MapMeaning(v.m, es);
      SeenOnAll(v.m, Build(map[], Project(es)));
    case Struct(es) => StructMeaning(v.fields, es);
    case _ =>
  }

  /** The part of a map's meaning that some of its members make up. */
  ghost predicate IsSeenOn(m: map<bytes, Value>, names: set<bytes>, r: map<bytes, Value>)
    requires Consistent(Value.Map(m)) && names <= m.Keys
  {
    && (forall k :: k in names && Kept(m[k]) ==> ReadName(k) in r && r[ReadName(k)] == Seen(m[k]))
    && (forall x :: x in r ==> exists k :: k in names && Kept(m[k]) && ReadName(k) == x)
  }

  lemma SeenOnAll(m: map<bytes, Value>, r: map<bytes, Value>)
    requires Consistent(Value.Map(m)) && IsSeenOn(m, m.Keys, r)
    ensures r == SeenMap(Value.Map(m))
  {
    var all := SeenMap(Value.Map(m));
    forall x | x in r
      ensures x in all && all[x] == r[x]
    {
      var k :| k in m.Keys && Kept(m[k]) && ReadName(k) == x;
      SeenAt(m, k);
    }
    forall x | x in all
      ensures x in r
    {
      assert Kept(m[Origin(m, x)]);
    }
  }

  lemma {:induction false} MapMeaning(m: map<bytes, Value>, es: seq<Entry>)
    requires Consistent(Value.Map(m)) && DistinctNames(es) && NamesOf(es) <= m.Keys
    requires forall i :: 0 <= i < |es| ==> es[i].tag == [] && es[i].name in m && Orders(m[es[i].name], es[i].value)
    ensures IsSeenOn(m, NamesOf(es), Build(map[], Project(es)))
    decreases es
  {
    if es != [] {
      var e, front := es[|es| - 1], es[..|es| - 1];
      assert NamesOf(es) == NamesOf(front) + {e.name};
      MapMeaning(m, front);
      BuildLast(es);
      EntryMeaning(Build(map[], Project(front)), e, m[e.name]);
      PlainTag(e);
      SeenOnLast(m, NamesOf(front), e.name, Build(map[], Project(front)), Build(map[], Project(es)));
    }
  }

  lemma SeenOnLast(m: map<bytes, Value>, names: set<bytes>, k: bytes, r: map<bytes, Value>, r': map<bytes, Value>)
    requires Consistent(Value.Map(m)) && names <= m.Keys && k in m && IsSeenOn(m, names, r)
    requires r' == if Kept(m[k]) then r[ReadName(k) := Seen(m[k])] else r
    ensures IsSeenOn(m, names + {k}, r')
  {
    forall x | x in r'
      ensures exists j :: j in names + {k} && Kept(m[j]) && ReadName(j) == x
    {
      if x in r {
        var j :| j in names && Kept(m[j]) && ReadName(j) == x;
        assert j in names + {k};
      } else {
        assert k in names + {k};
      }
    }
  }

  lemma PlainTag(e: Entry)
    requires e.tag == []
    ensures EntryName(e) == e.name && forall b :: !Omitted(e.tag, b)
  {}

  lemma {:induction false} StructMeaning(fs: seq<Field>, es: seq<Entry>)
    requires |fs| == |es| && FieldsConsistent(fs)
    requires forall i :: 0 <= i < |es| ==>
      es[i].name == fs[i].name && es[i].tag == fs[i].tag && Orders(fs[i].value, es[i].value)
    ensures Build(map[], Project(es)) == SeenFields(fs)
    decreases es
  {
    if es != [] {
      var n := |es| - 1;
      assert forall i :: 0 <= i < n ==> fs[..n][i] == fs[i];
      StructMeaning(fs[..n], es[..n]);
      BuildLast(es);
      assert FieldKept(fs[n]) ==> Consistent(fs[n].value);
      EntryMeaning(Build(map[], Project(es[..n])), es[n], fs[n].value);
    }
  }

  // ---- The whole buffer ----

  lemma HeaderRoundTrip(o: ByteOrder, rest: bytes)
    ensures ReadHeader(BufferHeader(o) + rest) == Ok(Config(Native, o))
  {
    var data := BufferHeader(o) + rest;
    assert data[4..8] == PutInt(o, 0, 4);
    assert data[8..12] == PutInt(o, UNIQUE_NAME_FLAG, 4);
  }

  /** Parsing a marshalled buffer with anything behind it consumes exactly the marshalled bytes. */
  lemma ExactConsumption(o: ByteOrder, t: Tree, extra: bytes)
    requires Readable(o, t)
    ensures Marshal(o, t).Ok?
    ensures ParseBuffer(Marshal(o, t).value + extra) == Parsed(ProjectList(t).items, extra)
  {
    RootRoundTrip(o, t, extra);
    var body := EncodeList(o, t).data;
    HeaderRoundTrip(o, body + extra);
    Assoc(BufferHeader(o), body, extra);
    assert (BufferHeader(o) + (body + extra))[12..] == body + extra;
  }

  /** What a tree comes back as: the map its written entries build, in their order, with the names and strings that are read. */
  function TreeMeaning(t: Tree): Value {
    Value.Map(Build(map[], ProjectList(t).items))
  }

  /** The outcome for whole readable trees, NULs in names and strings included. */
  lemma TreeOutcome(o: ByteOrder, t: Tree, extra: bytes)
    requires Readable(o, t)
    ensures Marshal(o, t).Ok?
    ensures Unmarshal(Marshal(o, t).value + extra) == Ok(TreeMeaning(t))
  {
    ExactConsumption(o, t, extra);
  }

  /**
   The round trip: for every consistent value, every enumeration order of its
   maps, both byte orders and any bytes after the list, Unmarshal returns what
   the value is seen as.
   */
  lemma MarshalRoundTrip(o: ByteOrder, v: Value, t: Tree, extra: bytes)
    requires Orders(v, t) && Readable(o, t) && Consistent(v)
    ensures Marshal(o, t).Ok?
    ensures Unmarshal(Marshal(o, t).value + extra) == Ok(Seen(v))
  {
    TreeOutcome(o, t, extra);
    ListMeaning(v, t);
  }

  /** Neither the byte order nor the enumeration order of the maps is visible after decoding a consistent value. */
  lemma OrderIndependence(o1: ByteOrder, o2: ByteOrder, v: Value, t1: Tree, t2: Tree)
    requires Orders(v, t1) && Orders(v, t2) && Readable(o1, t1) && Readable(o2, t2) && Consistent(v)
    ensures Marshal(o1, t1).Ok? && Marshal(o2, t2).Ok?
    ensures Unmarshal(Marshal(o1, t1).value) == Unmarshal(Marshal(o2, t2).value)
  {
    MarshalRoundTrip(o1, v, t1, []);
    MarshalRoundTrip(o2, v, t2, []);
    assert Marshal(o1, t1).value + [] == Marshal(o1, t1).value;
    assert Marshal(o2, t2).value + [] == Marshal(o2, t2).value;
  }
}
