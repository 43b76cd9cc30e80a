/**
 The domain as a property of Go values, and what repeated encoding and
 decoding does to them.
 */
module Stability {
  import opened Bytes
  import opened Consts
  import opened Values
  import opened Decoder
  import opened Encoder
  import opened Domain
  import opened Meaning
  import opened Locality
  import opened Shape

  // ---- The domain of values ----

  /** A map or struct whose members are all written and read without an error. */
  predicate Admitted(v: Value)
    decreases v, 0
  {
    match v
    case Map(m) => forall k :: k in m ==> MemberOk(k, [], m[k])
    case Struct(fs) => forall i :: 0 <= i < |fs| ==> MemberOk(FieldName(fs[i].name, fs[i].tag), fs[i].tag, fs[i].value)
    case _ => false
  }

  predicate MemberOk(name: bytes, tag: bytes, v: Value)
    decreases v, 2
  {
    || v.Nil?
    || Omitted(tag, ValueEmpty(v))
    || (|name| + 1 < MAX_INT16 && (v == Value.Prim(Bool(false)) || (Covered(name) && ValueOk(name, v))))
  }

  predicate ValueOk(name: bytes, v: Value)
    decreases v, 1
  {
    match v
    case Nil => false
    case Unsupported(_) => false
    case Prim(l) => LeafDecoded(l) && PairSize(name, LeafSize(l)) <= MAX_INT32
    case Float64(_) => true
    case Map(_) => Admitted(v)
    case Struct(_) => Admitted(v)
    case Lists(vs) => |vs| <= MAX_ELEMS && forall i :: 0 <= i < |vs| ==> Admitted(vs[i])
  }

  /** The values that come back as their normal form. */
  ghost predicate InDomain(v: Value) {
    Admitted(v) && Verbatim(v)
  }

  /** Every enumeration order of a value is in the encoder's domain exactly when the value is. */
  lemma {:induction false} DomainAgrees(v: Value, t: Tree)
    requires Orders(v, t)
    ensures Admitted(v) <==> RootOk(t)
    decreases t, 0
  {
    match t
    case Map(es) =>
      forall i | 0 <= i < |es|
        ensures MemberOk(es[i].name, [], v.m[es[i].name]) <==> EntryOk(es[i])
      {
        MemberAgrees(v.m[es[i].name], es[i]);
        PlainTag(es[i]);
      }
      forall k | k in v.m
        ensures exists i :: 0 <= i < |es| && es[i].name == k
      {
        assert k in NamesOf(es);
        var e :| e in es && e.name == k;
      }
    case Struct(es) =>
      forall i | 0 <= i < |es|
        ensures MemberOk(EntryName(es[i]), es[i].tag, v.fields[i].value) <==> EntryOk(es[i])
      {
        MemberAgrees(v.fields[i].value, es[i]);
      }
    case _ =>
  }

  lemma {:induction false} MemberAgrees(v: Value, e: Entry)
    requires Orders(v, e.value)
    ensures MemberOk(EntryName(e), e.tag, v) <==> EntryOk(e)
    decreases e
  {
    EmptyAgrees(v, e.value);
    match e.value
    case Map(_) => DomainAgrees(v, e.value);
    case Struct(_) => DomainAgrees(v, e.value);
    case Lists(ts) =>
      forall i | 0 <= i < |ts|
        ensures Admitted(v.vs[i]) <==> RootOk(ts[i])
      {
        DomainAgrees(v.vs[i], ts[i]);
      }
    case _ =>
  }

  // ---- Every value can be enumerated ----

  lemma {:induction false} OrderExists(v: Value) returns (t: Tree)
    ensures Orders(v, t)
    decreases v
  {
    match v
    case Nil => t := Tree.Nil;
    case Prim(l) => t := Tree.Prim(l);
    case Float64(b) => t := Tree.Float64(b);
    case Unsupported(b) => t := Tree.Unsupported(b);
    case Map(m) =>
      var es := EntriesExist(v, m.Keys);
      t := Tree.Map(es);
    case Struct(fs) =>
      var es: seq<Entry> := [];
      for i := 0 to |fs|
        invariant |es| == i
        invariant forall j :: 0 <= j < i ==>
          es[j].name == fs[j].name && es[j].tag == fs[j].tag && Orders(fs[j].value, es[j].value)
      {
        var e := OrderExists(fs[i].value);
        es := es + [Entry(fs[i].name, fs[i].tag, e)];
      }
      t := Tree.Struct(es);
    case Lists(vs) =>
      var ts: seq<Tree> := [];
      for i := 0 to |vs|
        invariant |ts| == i
        invariant forall j :: 0 <= j < i ==> Orders(vs[j], ts[j])
      {
        var e := OrderExists(vs[i]);
        ts := ts + [e];
      }
      t := Tree.Lists(ts);
  }

  lemma {:induction false} EntriesExist(v: Value, keys: set<bytes>) returns (es: seq<Entry>)
    requires v.Map? && keys <= v.m.Keys
    ensures DistinctNames(es) && NamesOf(es) == keys
    ensures forall i :: 0 <= i < |es| ==> es[i].tag == [] && es[i].name in v.m && Orders(v.m[es[i].name], es[i].value)
    decreases v, keys
  {
    if keys == {} {
      es := [];
    } else {
      var k :| k in keys;
      var rest := EntriesExist(v, keys - {k});
      var e := OrderExists(v.m[k]);
      es := rest + [Entry(k, [], e)];
      forall i | 0 <= i < |rest|
        ensures rest[i].name != k
      {
        assert rest[i].name in NamesOf(rest);
      }
      assert NamesOf(es) == NamesOf(rest) + {k};
    }
  }

  // ---- The normal form ----

  lemma {:induction false} NormIdempotent(v: Value)
    ensures Norm(Norm(v)) == Norm(v)
    ensures Kept(v) ==> Kept(Norm(v))
    decreases v, 1
  {
    match v
    case Map(_) => NormMapIdempotent(v);
    case Struct(_) => NormMapIdempotent(v);
    case Lists(vs) =>
      forall i | 0 <= i < |vs|
        ensures NormMap(Value.Map(NormMap(vs[i]))) == NormMap(vs[i])
      {
        NormMapIdempotent(vs[i]);
      }
    case _ =>
  }

  lemma {:induction false} NormMapIdempotent(v: Value)
    ensures NormMap(Value.Map(NormMap(v))) == NormMap(v)
    decreases v, 0
  {
    match v
    case Map(m) =>
      forall k | k in NormMap(v)
        ensures Kept(NormMap(v)[k]) && Norm(NormMap(v)[k]) == NormMap(v)[k]
      {
        NormIdempotent(m[k]);
      }
    case Struct(fs) => NormFieldsNormal(fs);
    case _ =>
  }

  lemma {:induction false} NormFieldsNormal(fs: seq<Field>)
    ensures forall k :: k in NormFields(fs) ==> Kept(NormFields(fs)[k]) && Norm(NormFields(fs)[k]) == NormFields(fs)[k]
    decreases fs
  {
    if fs != [] {
      NormFieldsNormal(fs[..|fs| - 1]);
      NormIdempotent(fs[|fs| - 1].value);
    }
  }

  /** The normal form of a value in the domain is in the domain again. */
  lemma NormInDomain(v: Value)
    requires InDomain(v)
    ensures InDomain(Norm(v)) && Norm(v).Map?
  {
    NormAdmitted(v);
    NormVerbatim(v);
  }

  lemma {:induction false} NormVerbatim(v: Value)
    requires Verbatim(v)
    ensures Verbatim(Norm(v))
    ensures Verbatim(Value.Map(NormMap(v)))
    decreases v
  {
    match v
    case Map(m) =>
      forall k | k in NormMap(v)
        ensures ReadName(k) == k && Verbatim(NormMap(v)[k])
      {
        NormVerbatim(m[k]);
      }
    case Struct(fs) => NormFieldsOwn(fs);
    case Lists(vs) =>
      forall i | 0 <= i < |vs|
        ensures Verbatim(Norm(v).vs[i])
      {
        NormVerbatim(vs[i]);
      }
    case _ =>
  }

  lemma {:induction false} NormFieldsOwn(fs: seq<Field>)
    requires forall i :: 0 <= i < |fs| && FieldKept(fs[i]) ==>
      ReadName(FieldName(fs[i].name, fs[i].tag)) == FieldName(fs[i].name, fs[i].tag) && Verbatim(fs[i].value)
    ensures forall k :: k in NormFields(fs) ==> ReadName(k) == k && Verbatim(NormFields(fs)[k])
    decreases fs
  {
    if fs != [] {
      var f := fs[|fs| - 1];
      assert forall i :: 0 <= i < |fs| - 1 ==> fs[..|fs| - 1][i] == fs[i];
      NormFieldsOwn(fs[..|fs| - 1]);
      if FieldKept(f) {
        NormVerbatim(f.value);
      }
    }
  }

  lemma {:induction false} NormAdmitted(v: Value)
    requires Admitted(v)
    ensures Admitted(Norm(v)) && Norm(v).Map?
    decreases v, 0
  {
    match v
    case Map(m) =>
      forall k | k in NormMap(v)
        ensures MemberOk(k, [], NormMap(v)[k])
      {
        assert MemberOk(k, [], m[k]);
        NormMemberOk(k, [], m[k]);
      }
    case Struct(fs) =>
      NormFieldsOk(fs);
      assert Norm(v).m == NormFields(fs);
  }

  lemma {:induction false} NormMemberOk(name: bytes, tag: bytes, v: Value)
    requires MemberOk(name, tag, v) && Kept(v) && !Omitted(tag, ValueEmpty(v))
    ensures MemberOk(name, [], Norm(v))
    decreases v, 1
  {
    match v
    case Map(_) => NormAdmitted(v);
    case Struct(_) => NormAdmitted(v);
    case Lists(vs) =>
      forall i | 0 <= i < |vs|
        ensures Admitted(Norm(v).vs[i])
      {
        NormAdmitted(vs[i]);
      }
    case _ =>
  }

  lemma {:induction false} NormFieldsOk(fs: seq<Field>)
    requires forall i :: 0 <= i < |fs| ==> MemberOk(FieldName(fs[i].name, fs[i].tag), fs[i].tag, fs[i].value)
    ensures forall k :: k in NormFields(fs) ==> MemberOk(k, [], NormFields(fs)[k])
    decreases fs
  {
    if fs != [] {
      var f := fs[|fs| - 1];
      NormFieldsOk(fs[..|fs| - 1]);
      if FieldKept(f) {
        NormMemberOk(FieldName(f.name, f.tag), f.tag, f.value);
      }
    }
  }

  // ---- Theorems on values ----

  /**
   The outcome for values whose names may hold NULs: whatever the enumeration
   of the maps, the byte order and the bytes that follow, every kept member
   comes back under the name that is read for it.
   */
  lemma NulNamesOutcome(o: ByteOrder, v: Value, t: Tree, extra: bytes)
    requires Admitted(v) && Consistent(v) && Orders(v, t)
    ensures Marshal(o, t).Ok?
    ensures Unmarshal(Marshal(o, t).value + extra) == Ok(Seen(v))
  {
    DomainAgrees(v, t);
    OkReadable(o, t);
    MarshalRoundTrip(o, v, t, extra);
  }

  /**
   The round trip on Go values: in either byte order, for every enumeration of
   the maps and whatever follows in the buffer, the normal form comes back.
   */
  lemma CodecRoundTrip(o: ByteOrder, v: Value, t: Tree, extra: bytes)
    requires InDomain(v) && Orders(v, t)
    ensures Marshal(o, t).Ok?
    ensures Unmarshal(Marshal(o, t).value + extra) == Ok(Norm(v))
  {
    SeenIsNorm(v);
    NulNamesOutcome(o, v, t, extra);
  }

  /** No strict prefix of a marshalled value decodes. */
  lemma CutRejected(o: ByteOrder, v: Value, t: Tree, k: nat)
    requires InDomain(v) && Orders(v, t) && Marshal(o, t).Ok? && k < |Marshal(o, t).value|
    ensures Unmarshal(Marshal(o, t).value[..k]).Err?
  {
    DomainAgrees(v, t);
    OkReadable(o, t);
    PrefixFreeness(o, t, k);
  }

  /** What came back once comes back unchanged from then on. */
  lemma SecondPass(o: ByteOrder, v: Value, t: Tree, extra: bytes)
    requires InDomain(v) && Orders(Norm(v), t)
    ensures Marshal(o, t).Ok?
    ensures Unmarshal(Marshal(o, t).value + extra) == Ok(Norm(v))
  {
    NormInDomain(v);
    NormIdempotent(v);
    CodecRoundTrip(o, Norm(v), t, extra);
  }

  /** Names that are read as they are and have at most 32765 bytes, string pairs that fit int32. */
  predicate Reencodable(v: Value)
    decreases v, 0
  {
    v.Map? && forall k :: k in v.m ==>
      |k| + 1 < MAX_INT16 && (v.m[k] == Value.Prim(Bool(false)) || (OwnName(k) && MemberReencodable(k, v.m[k])))
  }

  predicate OwnName(name: bytes) {
    Covered(name) && ReadName(name) == name
  }

  predicate MemberReencodable(name: bytes, v: Value)
    decreases v, 1
  {
    match v
    case Prim(l) => l.Str? || l.StrArray? ==> PairSize(name, LeafSize(l)) <= MAX_INT32
    case Map(_) => Reencodable(v)
    case Lists(vs) => forall i :: 0 <= i < |vs| ==> Reencodable(vs[i])
    case _ => true
  }

  lemma NoTag(b: bool)
    ensures !Omitted([], b)
  {}

  lemma {:induction false} DecodedInDomain(v: Value)
    requires v.Map? && ValueDecodedForm(v)
    ensures InDomain(v) <==> Reencodable(v)
    decreases v, 0
  {
    forall k | k in v.m
      ensures MemberOk(k, [], v.m[k]) && (Kept(v.m[k]) ==> ReadName(k) == k && Verbatim(v.m[k]))
        <==> |k| + 1 < MAX_INT16 && (v.m[k] == Value.Prim(Bool(false)) || (OwnName(k) && MemberReencodable(k, v.m[k])))
    {
      NoTag(ValueEmpty(v.m[k]));
      if |k| + 1 < MAX_INT16 {
        DecodedMember(k, v.m[k]);
      }
    }
    assert Admitted(v) <==> forall k :: k in v.m ==> MemberOk(k, [], v.m[k]);
  }

  lemma {:induction false} DecodedMember(name: bytes, v: Value)
    requires ValueDecodedForm(v) && |name| + 1 < MAX_INT16
    ensures ValueOk(name, v) && Verbatim(v) <==> MemberReencodable(name, v)
    decreases v, 1
  {
    match v
    case Prim(l) =>
      LeafOkIff(l);
      ReadLeafPlain(l);
      if l.IntArray? {
        assert l.elemKind.Width() * |l.ns| <= 8 * |l.ns|;
      }
    case Map(_) => DecodedInDomain(v);
    case Lists(vs) =>
      forall i | 0 <= i < |vs|
        ensures InDomain(vs[i]) <==> Reencodable(vs[i])
      {
        DecodedInDomain(vs[i]);
      }
    case _ =>
  }

  /**
   Decode, encode, decode: a decoded value is in the domain exactly when it is
   reencodable, and then any re-encoding decodes to its normal form.
   */
  lemma DecodeEncodeDecode(data: bytes, o: ByteOrder, v: Value, t: Tree, extra: bytes)
    requires Unmarshal(data) == Ok(v) && Orders(v, t)
    ensures InDomain(v) <==> Reencodable(v)
    ensures Reencodable(v) ==> Marshal(o, t).Ok? && Unmarshal(Marshal(o, t).value + extra) == Ok(Norm(v))
  {
    UnmarshalForm(data);
    DecodedInDomain(v);
    if Reencodable(v) {
      CodecRoundTrip(o, v, t, extra);
    }
  }

  // ---- Structs ----

  lemma {:induction false} FieldSurvives(fs: seq<Field>, i: nat)
    requires i < |fs| && FieldKept(fs[i])
    requires forall j :: i < j < |fs| && FieldKept(fs[j]) ==>
      FieldName(fs[i].name, fs[i].tag) != FieldName(fs[j].name, fs[j].tag)
    ensures FieldName(fs[i].name, fs[i].tag) in NormFields(fs)
    ensures NormFields(fs)[FieldName(fs[i].name, fs[i].tag)] == Norm(fs[i].value)
    decreases |fs|
  {
    if i < |fs| - 1 {
      FieldSurvives(fs[..|fs| - 1], i);
    }
  }

  lemma {:induction false} FieldOrigin(fs: seq<Field>, k: bytes) returns (i: nat)
    requires k in NormFields(fs)
    ensures i < |fs| && FieldKept(fs[i]) && FieldName(fs[i].name, fs[i].tag) == k
    decreases |fs|
  {
    var f := fs[|fs| - 1];
    if FieldKept(f) && FieldName(f.name, f.tag) == k {
      i := |fs| - 1;
    } else {
      i := FieldOrigin(fs[..|fs| - 1], k);
    }
  }

  /**
   A struct whose kept fields have distinct names comes back as the map of
   exactly those fields, under their tag names, each in normal form: gone are
   the ro fields, the empty omitempty ones, nils, doubles and false booleans.
   */
  lemma StructProjection(o: ByteOrder, fs: seq<Field>, t: Tree, extra: bytes)
    requires InDomain(Value.Struct(fs)) && Orders(Value.Struct(fs), t)
    requires forall i, j :: 0 <= i < j < |fs| && FieldKept(fs[i]) && FieldKept(fs[j]) ==>
      FieldName(fs[i].name, fs[i].tag) != FieldName(fs[j].name, fs[j].tag)
    ensures Marshal(o, t).Ok?
    ensures var r := Unmarshal(Marshal(o, t).value + extra);
      && r.Ok? && r.value.Map?
      && (forall i :: 0 <= i < |fs| && FieldKept(fs[i]) ==>
            && FieldName(fs[i].name, fs[i].tag) in r.value.m
            && r.value.m[FieldName(fs[i].name, fs[i].tag)] == Norm(fs[i].value))
      && (forall k :: k in r.value.m ==> exists i :: 0 <= i < |fs| && FieldKept(fs[i]) && FieldName(fs[i].name, fs[i].tag) == k)
  {
    CodecRoundTrip(o, Value.Struct(fs), t, extra);
    assert Norm(Value.Struct(fs)).m == NormFields(fs);
    forall i | 0 <= i < |fs| && FieldKept(fs[i])
      ensures FieldName(fs[i].name, fs[i].tag) in NormFields(fs)
      ensures NormFields(fs)[FieldName(fs[i].name, fs[i].tag)] == Norm(fs[i].value)
    {
      FieldSurvives(fs, i);
    }
    forall k | k in NormFields(fs)
      ensures exists i :: 0 <= i < |fs| && FieldKept(fs[i]) && FieldName(fs[i].name, fs[i].tag) == k
    {
      var i := FieldOrigin(fs, k);
    }
  }
}
