/**
 What reaches the wire of a member (nvlist/encoder.go), and under which name.
 Struct tags are spelled out in bytes: 44 is the comma, 114 111 is "ro" and
 111 109 105 116 101 109 112 116 121 is "omitempty".
 */
module Tags {
  import opened Bytes
  import opened Values
  import opened Encoder
  import opened Domain
  import opened Meaning
  import opened Reporting

  predicate CommaFree(s: bytes) {
    forall i :: 0 <= i < |s| ==> s[i] != 44
  }

  /** A tag whose first two comma-separated parts are n and option. */
  ghost predicate Parts(tag: bytes, n: bytes, option: bytes) {
    && CommaFree(n) && CommaFree(option)
    && (tag == n + [44] + option || exists more: bytes :: tag == n + [44] + option + [44] + more)
  }

  /** Zero, false, and whatever has length zero. */
  predicate Vacant(v: Value) {
    || v == Value.Prim(Bool(false))
    || (v.Prim? && v.leaf.Int? && v.leaf.n == 0)
    || v == Value.Prim(Str([]))
    || (v.Prim? && v.leaf.IntArray? && |v.leaf.ns| == 0)
    || v == Value.Prim(BoolArray([]))
    || v == Value.Prim(StrArray([]))
    || v == Value.Map(map[])
    || v == Value.Lists([])
    || v == Value.Float64(0)
    || v == Value.Float64(9223372036854775808)
    || v == Value.Unsupported(true)
  }

  lemma FirstComma(tag: bytes, n: bytes, rest: bytes)
    requires CommaFree(n) && ((tag == n && rest == []) || tag == n + [44] + rest)
    ensures IndexOf(tag, COMMA) == |n| && TagName(tag) == n
    ensures |tag| > |n| ==> tag[|n| + 1..] == rest
  {
    assert IsIndexOf(tag, 44, |n|);
    var k := IndexOf(tag, COMMA);
    assert IsIndexOf(tag, 44, k);
    assert k == |n|;
  }

  lemma PartsOption(tag: bytes, n: bytes, option: bytes)
    requires Parts(tag, n, option)
    ensures TagName(tag) == n && TagOption(tag) == Some(option)
  {
    if tag == n + [44] + option {
      FirstComma(tag, n, option);
      FirstComma(option, option, []);
    } else {
      var more: bytes :| tag == n + [44] + option + [44] + more;
      var rest := option + [44] + more;
      assert tag == n + [44] + rest;
      FirstComma(tag, n, rest);
      FirstComma(rest, option, more);
    }
  }

  /** Whether a field with this second part is passed over. */
  predicate PassedOver(option: bytes, v: Value) {
    option == [114, 111] || (option == [111, 109, 105, 116, 101, 109, 112, 116, 121] && Vacant(v))
  }

  /**
   A tag with an option names the field by its first part, or leaves it its own
   name; "ro" as the second part always drops the field, "omitempty" drops it
   exactly if it is vacant, and nothing else in a tag drops anything.
   */
  lemma OptionLaw(f: Field, n: bytes, option: bytes)
    requires Parts(f.tag, n, option)
    ensures FieldName(f.name, f.tag) == if n == [] then f.name else n
    ensures Omitted(f.tag, ValueEmpty(f.value)) <==> PassedOver(option, f.value)
    ensures FieldKept(f) <==>
      && !f.value.Nil? && !f.value.Float64? && !f.value.Unsupported? && f.value != Value.Prim(Bool(false))
      && !PassedOver(option, f.value)
  {
    PartsOption(f.tag, n, option);
  }

  /** A tag without an option only names the field. */
  lemma PlainLaw(f: Field)
    requires CommaFree(f.tag)
    ensures FieldName(f.name, f.tag) == if f.tag == [] then f.name else f.tag
    ensures !Omitted(f.tag, ValueEmpty(f.value))
    ensures FieldKept(f) <==>
      !f.value.Nil? && !f.value.Float64? && !f.value.Unsupported? && f.value != Value.Prim(Bool(false))
  {
    FirstComma(f.tag, f.tag, []);
  }

  // ---- On the wire ----

  lemma SameRest(o: ByteOrder, p: seq<Entry>, q: seq<Entry>)
    requires p != [] && q != [] && p[0] == q[0] && EncodeEntries(o, p[1..]) == EncodeEntries(o, q[1..])
    ensures EncodeEntries(o, p) == EncodeEntries(o, q)
  {}

  lemma {:induction false} SameBehind(o: ByteOrder, a: seq<Entry>, x: seq<Entry>, y: seq<Entry>)
    requires EncodeEntries(o, x) == EncodeEntries(o, y)
    ensures EncodeEntries(o, a + x) == EncodeEntries(o, a + y)
    decreases |a|
  {
    if a == [] {
      assert a + x == x && a + y == y;
    } else {
      var p, q := a + x, a + y;
      assert p[1..] == a[1..] + x && q[1..] == a[1..] + y;
      SameBehind(o, a[1..], x, y);
      SameRest(o, p, q);
    }
  }

  lemma DroppedOnWire(o: ByteOrder, a: seq<Entry>, e: Entry, b: seq<Entry>)
    requires Dropped(e)
    ensures EncodeEntries(o, a + [e] + b) == EncodeEntries(o, a + b)
  {
    var all := [e] + b;
    assert all[0] == e && all[1..] == b;
    SameBehind(o, a, all, b);
    assert a + all == a + [e] + b;
  }

  lemma EntryByName(o: ByteOrder, e: Entry, u: Entry)
    requires e.value == u.value && EntryName(e) == EntryName(u)
    ensures EncodeEntry(o, e) == EncodeEntry(o, u)
  {}

  lemma FirstByName(o: ByteOrder, e: Entry, u: Entry, b: seq<Entry>)
    requires !Dropped(e) && !Dropped(u) && e.value == u.value && EntryName(e) == EntryName(u)
    ensures EncodeEntries(o, [e] + b) == EncodeEntries(o, [u] + b)
  {
    var x, y := [e] + b, [u] + b;
    assert x[0] == e && x[1..] == b && y[0] == u && y[1..] == b;
    EntryByName(o, e, u);
  }

  lemma NamedOnWire(o: ByteOrder, a: seq<Entry>, e: Entry, u: Entry, b: seq<Entry>)
    requires !Dropped(e) && u == Entry(EntryName(e), [], e.value)
    ensures EncodeEntries(o, a + [e] + b) == EncodeEntries(o, a + [u] + b)
  {
    PlainTag(u);
    FirstByName(o, e, u, b);
    SameBehind(o, a, [e] + b, [u] + b);
    assert a + ([e] + b) == a + [e] + b && a + ([u] + b) == a + [u] + b;
  }

  /**
   A field with an option is written, wherever it stands, exactly as if it were
   not there when it is nil or passed over, and otherwise exactly as an untagged
   one of its effective name: nothing else of a tag reaches the wire.
   */
  lemma TagOnWire(o: ByteOrder, a: seq<Entry>, e: Entry, v: Value, b: seq<Entry>, n: bytes, option: bytes)
    requires Parts(e.tag, n, option) && Orders(v, e.value)
    ensures Marshal(o, Tree.Struct(a + [e] + b)) ==
      if v.Nil? || PassedOver(option, v) then Marshal(o, Tree.Struct(a + b))
      else Marshal(o, Tree.Struct(a + [Entry(if n == [] then e.name else n, [], e.value)] + b))
  {
    DroppedIff(e, v, n, option);
    if v.Nil? || PassedOver(option, v) {
      DroppedOnWire(o, a, e, b);
    } else {
      NamedOnWire(o, a, e, Entry(if n == [] then e.name else n, [], e.value), b);
    }
  }

  lemma DroppedIff(e: Entry, v: Value, n: bytes, option: bytes)
    requires Parts(e.tag, n, option) && Orders(v, e.value)
    ensures EntryName(e) == if n == [] then e.name else n
    ensures Dropped(e) <==> v.Nil? || PassedOver(option, v)
  {
    EmptyAgrees(v, e.value);
    OptionLaw(Field(e.name, e.tag, v), n, option);
  }

  /** A field whose tag is only a name is written as an untagged one of that name. */
  lemma PlainOnWire(o: ByteOrder, a: seq<Entry>, e: Entry, b: seq<Entry>)
    requires CommaFree(e.tag)
    ensures Marshal(o, Tree.Struct(a + [e] + b)) ==
      if e.value.Nil? then Marshal(o, Tree.Struct(a + b))
      else Marshal(o, Tree.Struct(a + [Entry(if e.tag == [] then e.name else e.tag, [], e.value)] + b))
  {
    FirstComma(e.tag, e.tag, []);
    if e.value.Nil? {
      DroppedOnWire(o, a, e, b);
    } else {
      NamedOnWire(o, a, e, Entry(if e.tag == [] then e.name else e.tag, [], e.value), b);
    }
  }

  /** A false boolean leaves no trace at all. */
  lemma FalseOnWire(o: ByteOrder, a: seq<Entry>, name: bytes, b: seq<Entry>)
    requires |name| <= 32765
    ensures Marshal(o, Tree.Map(a + [Entry(name, [], Tree.Prim(Bool(false)))] + b)) == Marshal(o, Tree.Map(a + b))
  {
    var e := Entry(name, [], Tree.Prim(Bool(false)));
    PlainTag(e);
    var all := [e] + b;
    assert all[0] == e && all[1..] == b;
    assert EncodeEntries(o, all) == EncodeEntries(o, b);
    SameBehind(o, a, all, b);
    assert a + all == a + [e] + b;
  }

  /** The members that writeNvPairs refuses: a name that is too long, an array that is, or a kind without a type code. */
  predicate Refused(e: Entry) {
    || |e.name| >= 32766
    || e.value.Unsupported?
    || (e.value.Prim? && e.value.leaf.IntArray? && |e.value.leaf.ns| >= 2147483647)
    || (e.value.Prim? && e.value.leaf.BoolArray? && |e.value.leaf.bs| >= 2147483647)
    || (e.value.Prim? && e.value.leaf.StrArray? && |e.value.leaf.ss| >= 2147483647)
    || (e.value.Lists? && |e.value.ts| >= 2147483647)
  }

  lemma RefusedFirst(o: ByteOrder, e: Entry, b: seq<Entry>)
    requires e.tag == [] && !e.value.Nil? && Refused(e)
    ensures !EncodeEntries(o, [e] + b).ok
  {
    PlainTag(e);
    var all := [e] + b;
    assert all[0] == e;
  }

  /** Behind members that are written, such a one makes Marshal return ErrInvalidValue. */
  lemma RefusedOnWire(o: ByteOrder, a: seq<Entry>, e: Entry, b: seq<Entry>)
    requires EntriesFramed(true, a) && e.tag == [] && !e.value.Nil? && Refused(e)
    ensures Marshal(o, Tree.Map(a + [e] + b)) == Err(InvalidValue)
  {
    FramedGoesOn(o, a);
    EncodeAfter(o, a, [e] + b);
    RefusedFirst(o, e, b);
    assert a + ([e] + b) == a + [e] + b;
  }
}
