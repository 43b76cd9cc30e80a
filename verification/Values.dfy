/**
 The values that Marshal takes and Unmarshal makes.

 A `Value` is a Go value in which a map is a map. A `Tree` is the same value
 with an enumeration order chosen for every map in it: the order in which
 reflect.MapKeys happened to list the keys. `Orders(v, t)` relates the two, and
 `Norm(v)` is what a marshalled value is expected to come back as.
 */
module Values {
  import opened Bytes
  import opened Consts

  /** Values without nested lists. The two spellings of uint8 are one Go type. */
  datatype Leaf =
    | Bool(b: bool)
    | Int(kind: IntKind, n: int)
    | Str(s: bytes)
    | IntArray(elemKind: IntKind, ns: seq<int>)
    | BoolArray(bs: seq<bool>)
    | StrArray(ss: seq<bytes>)

  datatype Value =
    | Nil
    | Prim(leaf: Leaf)
    | Float64(bits: nat)
    | Map(m: map<bytes, Value>)
    | Struct(fields: seq<Field>)
    | Lists(vs: seq<Value>)
    | Unsupported(empty: bool)

  datatype Field = Field(name: bytes, tag: bytes, value: Value)

  /** A map entry is an entry with an empty tag. */
  datatype Tree =
    | Nil
    | Prim(leaf: Leaf)
    | Float64(bits: nat)
    | Map(entries: seq<Entry>)
    | Struct(entries: seq<Entry>)
    | Lists(ts: seq<Tree>)
    | Unsupported(empty: bool)
  {
    predicate IsList() { Map? || Struct? }
    function Entries(): seq<Entry> { if IsList() then entries else [] }
  }

  datatype Entry = Entry(name: bytes, tag: bytes, value: Tree)

  // ---- Integer and leaf ranges: what the Go types themselves guarantee ----

  predicate IntFits(k: IntKind, n: int) {
    InRange(k.Signed(), k.Width(), n)
  }

  predicate AllFit(k: IntKind, ns: seq<int>) {
    AllInRange(k.Signed(), k.Width(), ns)
  }

  predicate LeafTyped(l: Leaf) {
    match l
    case Int(k, n) => IntFits(k, n)
    case IntArray(k, ns) => AllFit(k, ns)
    case _ => true
  }

  // ---- Struct tags ----

  const COMMA: byte := 44
  const OMITEMPTY: bytes := [111, 109, 105, 116, 101, 109, 112, 116, 121]
  const READONLY: bytes := [114, 111]

  /** The part of a tag before its first comma. */
  function TagName(tag: bytes): bytes {
    tag[..IndexOf(tag, COMMA)]
  }

  /** The second comma-separated part of a tag, if it has one. */
  function TagOption(tag: bytes): Option<bytes> {
    var i := IndexOf(tag, COMMA);
    if i == |tag| then None
    else
      var rest := tag[i + 1..];
      Some(rest[..IndexOf(rest, COMMA)])
  }

  function FieldName(name: bytes, tag: bytes): bytes {
    if TagName(tag) == [] then name else TagName(tag)
  }

  predicate Omitted(tag: bytes, empty: bool) {
    TagOption(tag) == Some(READONLY) || (TagOption(tag) == Some(OMITEMPTY) && empty)
  }

  predicate LeafEmpty(l: Leaf) {
    match l
    case Bool(b) => !b
    case Int(_, n) => n == 0
    case Str(s) => s == []
    case IntArray(_, ns) => ns == []
    case BoolArray(bs) => bs == []
    case StrArray(ss) => ss == []
  }

  /** Positive and negative zero. */
  predicate FloatEmpty(bits: nat) {
    bits == 0 || bits == 0x8000_0000_0000_0000
  }

  predicate TreeEmpty(t: Tree) {
    match t
    case Nil => false
    case Prim(l) => LeafEmpty(l)
    case Float64(bits) => FloatEmpty(bits)
    case Map(es) => es == []
    case Struct(_) => false
    case Lists(ts) => ts == []
    case Unsupported(empty) => empty
  }

  predicate ValueEmpty(v: Value) {
    match v
    case Nil => false
    case Prim(l) => LeafEmpty(l)
    case Float64(bits) => FloatEmpty(bits)
    case Map(m) => m == map[]
    case Struct(_) => false
    case Lists(vs) => vs == []
    case Unsupported(empty) => empty
  }

  /** The entries writeNvPairs never collects: read-only, omitted, or nil. */
  predicate Dropped(e: Entry) {
    e.value.Nil? || Omitted(e.tag, TreeEmpty(e.value))
  }

  function EntryName(e: Entry): bytes {
    FieldName(e.name, e.tag)
  }

  // ---- Names with a NUL ----

  /** How many bytes writeString appends. */
  function CStringLen(s: bytes): (n: nat)
    ensures n <= |s| + 1
  {
    if NulFree(s) then |s| + 1 else IndexOf(s, 0)
  }

  /** The padding behind a written name covers what is missing of it; a NUL-free name lacks nothing. */
  predicate Covered(name: bytes) {
    |name| < AlignUp(CStringLen(name), 8)
  }

  /** What a covered name is read as: it is cut at its first NUL, and padding is taken for the rest. */
  function ReadName(name: bytes): (r: bytes)
    ensures |r| == |name|
  {
    var p := IndexOf(name, 0);
    name[..p] + Zeros(|name| - p)
  }

  lemma NulFreeName(name: bytes)
    requires NulFree(name)
    ensures Covered(name) && ReadName(name) == name
  {
    assert IsIndexOf(name, 0, |name|);
  }

  lemma ReadNameAgain(name: bytes)
    ensures ReadName(ReadName(name)) == ReadName(name)
    ensures Covered(ReadName(name)) == Covered(name)
  {
    var p, r := IndexOf(name, 0), ReadName(name);
    assert IsIndexOf(r, 0, p);
    assert NulFree(r) <==> NulFree(name) by {
      if p < |name| {
        assert r[p] == 0 && name[p] == 0;
      }
    }
  }

  // ---- Strings with a NUL ----

  /** A string as far as it is written. */
  function CutText(s: bytes): (r: bytes)
    ensures NulFree(r)
    ensures NulFree(s) ==> r == s
  {
    s[..IndexOf(s, 0)]
  }

  function CStringsSize(ss: seq<bytes>): nat {
    if ss == [] then 0 else CStringLen(ss[0]) + CStringsSize(ss[1..])
  }

  /** How many strings lack their terminator. */
  function Missing(ss: seq<bytes>): (n: nat)
    ensures n <= |ss|
  {
    if ss == [] then 0 else (if NulFree(ss[0]) then 0 else 1) + Missing(ss[1..])
  }

  /** The texts between terminators, of strings written behind cur: one without a terminator joins the next. */
  function Terminated(cur: bytes, ss: seq<bytes>): (r: seq<bytes>)
    ensures |r| == |ss| - Missing(ss)
    decreases ss
  {
    if ss == [] then []
    else if NulFree(ss[0]) then [cur + ss[0]] + Terminated([], ss[1..])
    else Terminated(cur + CutText(ss[0]), ss[1..])
  }

  /** The text behind the last terminator. */
  function Unterminated(cur: bytes, ss: seq<bytes>): bytes
    decreases ss
  {
    if ss == [] then cur
    else if NulFree(ss[0]) then Unterminated([], ss[1..])
    else Unterminated(cur + CutText(ss[0]), ss[1..])
  }

  function Blanks(n: nat): (r: seq<bytes>)
    ensures |r| == n
  {
    seq(n, i => [])
  }

  /** As many strings as were written, if zeros behind them stand in for the missing terminators. */
  function ReadTexts(ss: seq<bytes>): seq<bytes> {
    if Missing(ss) == 0 then Terminated([], ss)
    else Terminated([], ss) + [Unterminated([], ss)] + Blanks(Missing(ss) - 1)
  }

  /** What a leaf is read as. */
  function ReadLeaf(l: Leaf): Leaf {
    match l
    case Str(s) => Str(CutText(s))
    case StrArray(ss) => StrArray(ReadTexts(ss))
    case _ => l
  }

  function LeafTexts(l: Leaf): seq<bytes> {
    match l
    case Str(s) => [s]
    case StrArray(ss) => ss
    case _ => []
  }

  predicate LeafPlain(l: Leaf) {
    AllNulFree(LeafTexts(l))
  }

  /** Zeros that pad the strings of a leaf. */
  function Slack(ss: seq<bytes>): nat {
    AlignUp(CStringsSize(ss), 8) - CStringsSize(ss)
  }

  /** The padding makes up for the missing terminators, or lacks one and the byte behind the pair is zero. */
  predicate TextFits(l: Leaf, next: byte) {
    Missing(LeafTexts(l)) <= Slack(LeafTexts(l)) + if next == 0 then 1 else 0
  }

  lemma {:induction false} NoneMissing(ss: seq<bytes>)
    ensures Missing(ss) == 0 <==> AllNulFree(ss)
    ensures AllNulFree(ss) ==> Terminated([], ss) == ss
    decreases |ss|
  {
    if ss != [] {
      NoneMissing(ss[1..]);
      assert forall i :: 1 <= i < |ss| ==> ss[i] == ss[1..][i - 1];
      if AllNulFree(ss) {
        assert NulFree(ss[0]) && [] + ss[0] == ss[0];
        assert [ss[0]] + ss[1..] == ss;
      }
    }
  }

  lemma {:induction false} TextsPlain(cur: bytes, ss: seq<bytes>)
    requires NulFree(cur)
    ensures AllNulFree(Terminated(cur, ss)) && NulFree(Unterminated(cur, ss))
    decreases |ss|
  {
    if ss != [] {
      if NulFree(ss[0]) {
        TextsPlain([], ss[1..]);
      } else {
        TextsPlain(cur + CutText(ss[0]), ss[1..]);
      }
    }
  }

  lemma ReadTextsPlain(ss: seq<bytes>)
    ensures AllNulFree(ReadTexts(ss)) && |ReadTexts(ss)| == |ss|
    ensures AllNulFree(ss) ==> ReadTexts(ss) == ss
  {
    NoneMissing(ss);
    TextsPlain([], ss);
  }

  /** A leaf is read as it is exactly if its strings hold no NUL, and what is read never holds one. */
  lemma ReadLeafPlain(l: Leaf)
    ensures LeafPlain(ReadLeaf(l)) && (LeafPlain(l) <==> ReadLeaf(l) == l)
    ensures LeafTyped(ReadLeaf(l)) <==> LeafTyped(l)
  {
    match l
    case Str(s) =>
      assert LeafTexts(l)[0] == s;
      assert forall i :: 0 <= i < |LeafTexts(ReadLeaf(l))| ==> LeafTexts(ReadLeaf(l))[i] == CutText(s);
    case StrArray(ss) => ReadTextsPlain(ss);
    case _ =>
  }

  // ---- Enumeration orders ----

  ghost predicate DistinctNames(es: seq<Entry>) {
    forall i, j :: 0 <= i < j < |es| ==> es[i].name != es[j].name
  }

  ghost function NamesOf(es: seq<Entry>): set<bytes> {
    set e | e in es :: e.name
  }

  /** t is v with some enumeration order chosen for each of its maps. */
  ghost predicate Orders(v: Value, t: Tree)
    decreases t
  {
    match t
    case Nil => v.Nil?
    case Prim(l) => v == Value.Prim(l)
    case Float64(bits) => v == Value.Float64(bits)
    case Unsupported(empty) => v == Value.Unsupported(empty)
    case Map(es) =>
      && v.Map?
      && DistinctNames(es)
      && NamesOf(es) == v.m.Keys
      && forall i :: 0 <= i < |es| ==> es[i].tag == [] && es[i].name in v.m && Orders(v.m[es[i].name], es[i].value)
    case Struct(es) =>
      && v.Struct?
      && |v.fields| == |es|
      && forall i :: 0 <= i < |es| ==>
        es[i].name == v.fields[i].name && es[i].tag == v.fields[i].tag && Orders(v.fields[i].value, es[i].value)
    case Lists(ts) =>
      && v.Lists?
      && |v.vs| == |ts|
      && forall i :: 0 <= i < |ts| ==> Orders(v.vs[i], ts[i])
  }

  // ---- Normal form ----

  /** The values that survive inside a list: not nil, not false, not a double. */
  predicate Kept(v: Value) {
    !v.Nil? && !v.Float64? && !v.Unsupported? && v != Value.Prim(Bool(false))
  }

  predicate FieldKept(f: Field) {
    Kept(f.value) && !Omitted(f.tag, ValueEmpty(f.value))
  }

  /** The contents a list comes back with. */
  function NormMap(v: Value): map<bytes, Value>
    decreases v, 0
  {
    match v
    case Map(m) => map k | k in m && Kept(m[k]) :: Norm(m[k])
    case Struct(fs) => NormFields(fs)
    case _ => map[]
  }

  /** Fields in declaration order; a repeated name keeps the last one. */
  function NormFields(fs: seq<Field>): map<bytes, Value>
    decreases fs
  {
    if fs == [] then map[]
    else
      var f := fs[|fs| - 1];
      var m := NormFields(fs[..|fs| - 1]);
      if FieldKept(f) then m[FieldName(f.name, f.tag) := Norm(f.value)] else m
  }

  function Norm(v: Value): Value
    decreases v, 1
  {
    match v
    case Map(_) => Value.Map(NormMap(v))
    case Struct(_) => Value.Map(NormMap(v))
    case Lists(vs) => Value.Lists(seq(|vs|, i requires 0 <= i < |vs| => Value.Map(NormMap(vs[i]))))
    case _ => v
  }

  // ---- What a value is seen as when its names and strings hold NULs ----

  /** Kept members whose names are read alike are seen alike, at every depth. */
  ghost predicate Consistent(v: Value)
    decreases v, 0
  {
    match v
    case Map(m) =>
      && (forall k :: k in m && Kept(m[k]) ==> Consistent(m[k]))
      && (forall k1, k2 :: k1 in m && Kept(m[k1]) && k2 in m && Kept(m[k2]) && ReadName(k1) == ReadName(k2) ==>
            Seen(m[k1]) == Seen(m[k2]))
    case Struct(fs) => FieldsConsistent(fs)
    case Lists(vs) => forall i :: 0 <= i < |vs| ==> Consistent(vs[i])
    case _ => true
  }

  ghost predicate FieldsConsistent(fs: seq<Field>)
    decreases fs, 1
  {
    forall i :: 0 <= i < |fs| && FieldKept(fs[i]) ==> Consistent(fs[i].value)
  }

  ghost function ReadNames(m: map<bytes, Value>): set<bytes> {
    set k | k in m && Kept(m[k]) :: ReadName(k)
  }

  /** A kept member that is read under the given name. */
  ghost function Origin(m: map<bytes, Value>, x: bytes): (k: bytes)
    requires x in ReadNames(m)
    ensures k in m && Kept(m[k]) && ReadName(k) == x
  {
    var k :| k in m && Kept(m[k]) && ReadName(k) == x;
    k
  }

  ghost function SeenMap(v: Value): map<bytes, Value>
    requires Consistent(v)
    decreases v, 1
  {
    match v
    case Map(m) => map x | x in ReadNames(m) :: Seen(m[Origin(m, x)])
    case Struct(fs) => SeenFields(fs)
    case _ => map[]
  }

  ghost function SeenFields(fs: seq<Field>): map<bytes, Value>
    requires FieldsConsistent(fs)
    decreases fs, 2
  {
    if fs == [] then map[]
    else
      var f := fs[|fs| - 1];
      var m := SeenFields(fs[..|fs| - 1]);
      if FieldKept(f) then m[ReadName(FieldName(f.name, f.tag)) := Seen(f.value)] else m
  }

  /** The normal form with the names and strings that are read. */
  ghost function Seen(v: Value): Value
    requires Consistent(v)
    decreases v, 2
  {
    match v
    case Map(_) => Value.Map(SeenMap(v))
    case Struct(_) => Value.Map(SeenMap(v))
    case Lists(vs) => Value.Lists(seq(|vs|, i requires 0 <= i < |vs| => Value.Map(SeenMap(vs[i]))))
    case Prim(l) => Value.Prim(ReadLeaf(l))
    case _ => v
  }

  lemma SeenAt(m: map<bytes, Value>, k: bytes)
    requires Consistent(Value.Map(m)) && k in m && Kept(m[k])
    ensures ReadName(k) in SeenMap(Value.Map(m)) && SeenMap(Value.Map(m))[ReadName(k)] == Seen(m[k])
  {}

  /** Every kept member is read under its own name and every leaf as it is, at every depth. */
  ghost predicate Verbatim(v: Value)
    decreases v
  {
    match v
    case Map(m) => forall k :: k in m && Kept(m[k]) ==> ReadName(k) == k && Verbatim(m[k])
    case Struct(fs) =>
      forall i :: 0 <= i < |fs| && FieldKept(fs[i]) ==>
        ReadName(FieldName(fs[i].name, fs[i].tag)) == FieldName(fs[i].name, fs[i].tag) && Verbatim(fs[i].value)
    case Lists(vs) => forall i :: 0 <= i < |vs| ==> Verbatim(vs[i])
    case Prim(l) => ReadLeaf(l) == l
    case _ => true
  }

  /** Such a value is seen as its normal form. */
  lemma {:induction false} SeenIsNorm(v: Value)
    requires Verbatim(v)
    ensures Consistent(v) && Seen(v) == Norm(v) && SeenMap(v) == NormMap(v)
    decreases v
  {
    match v
    case Map(m) =>
      forall k | k in m && Kept(m[k])
        ensures Consistent(m[k]) && Seen(m[k]) == Norm(m[k])
      {
        SeenIsNorm(m[k]);
      }
      forall k | k in m && Kept(m[k])
        ensures k in SeenMap(v) && SeenMap(v)[k] == Norm(m[k])
      {
        SeenAt(m, k);
      }
      forall x | x in SeenMap(v)
        ensures x in NormMap(v)
      {
        assert ReadName(Origin(m, x)) == x;
      }
      assert SeenMap(v) == NormMap(v);
    case Struct(fs) => SeenFieldsNorm(fs);
    case Lists(vs) =>
      forall i | 0 <= i < |vs|
        ensures Consistent(vs[i]) && SeenMap(vs[i]) == NormMap(vs[i])
      {
        SeenIsNorm(vs[i]);
      }
      assert Seen(v).vs == Norm(v).vs;
    case _ =>
  }

  lemma {:induction false} SeenFieldsNorm(fs: seq<Field>)
    requires forall i :: 0 <= i < |fs| && FieldKept(fs[i]) ==>
      ReadName(FieldName(fs[i].name, fs[i].tag)) == FieldName(fs[i].name, fs[i].tag) && Verbatim(fs[i].value)
    ensures FieldsConsistent(fs) && SeenFields(fs) == NormFields(fs)
    decreases fs
  {
    if fs != [] {
      var f := fs[|fs| - 1];
      SeenFieldsNorm(fs[..|fs| - 1]);
      if FieldKept(f) {
        SeenIsNorm(f.value);
      }
      assert forall i :: 0 <= i < |fs| - 1 ==> fs[..|fs| - 1][i] == fs[i];
    }
  }
}
