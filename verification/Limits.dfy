/**
 Where the codec does not keep its promise, on families of concrete inputs:
 corollaries of the general outcomes.
 */
module Limits {
  import opened Bytes
  import opened Consts
  import opened Values
  import opened Decoder
  import opened Encoder
  import opened Domain
  import opened RoundTrip
  import opened Meaning
  import opened Outcome
  import opened Reporting
  import opened Swallowed
  import opened Stability
  import opened Exactness

  /** A nil root is marshalled without an error, into a header that does not decode. */
  lemma NilRoot(o: ByteOrder)
    ensures Marshal(o, Tree.Nil) == Ok(BufferHeader(o))
    ensures Unmarshal(BufferHeader(o)) == Err(Eof)
  {
    DecodeOutcome(o, Tree.Nil);
    assert BufferHeader(o) + [] == BufferHeader(o);
  }

  // ---- Lists of one entry ----

  /** A map with one plain entry: its frame, its fit and its nil lists are those of the entry. */
  lemma OneEntry(o: ByteOrder, e: Entry)
    requires e.tag == [] && |e.name| + 1 < MAX_INT16 && !NotWritten(e)
    ensures var t := Tree.Map([e]);
      && EntryName(e) == e.name
      && (ListFramed(true, t) <==> Judged(e.name, e.value) && TreeFramed(true, e.value))
      && (ListFits(o, t) <==> Fits(e.name, e.value) && TreeFits(o, e.value, 0))
      && Nils(t) == TreeNils(e.value)
  {
    PlainTag(e);
    var es := [e];
    assert es[0] == e && es[1..] == [];
    assert EntriesNils(es) == EntryNils(e) + EntriesNils(es[1..]);
    assert NextByte(o, es[1..]) == 0 && EntriesFit(o, es[1..]);
    assert EntryFits(o, e, 0) <==> Fits(e.name, e.value) && TreeFits(o, e.value, 0);
    assert EntryFramed(true, e) <==> Judged(e.name, e.value) && TreeFramed(true, e.value);
    assert EntriesFramed(true, es) <==> EntryFramed(true, es[0]);
  }

  /** A nil element of a list array takes the trailer of the enclosing list for its own. */
  lemma NilElement(o: ByteOrder, name: bytes)
    requires Covered(name) && |name| + 1 < MAX_INT16
    ensures var t := Tree.Map([Entry(name, [], Tree.Lists([Tree.Nil]))]);
      Marshal(o, t).Ok? && Unmarshal(Marshal(o, t).value) == Err(Eof)
  {
    var ts := [Tree.Nil];
    var e := Entry(name, [], Tree.Lists(ts));
    PlainTag(e);
    OneEntry(o, e);
    assert ts[1..] == [] && ListsNils(ts) == Nils(ts[0]) + ListsNils(ts[1..]);
    SmallPair(name, e.value);
    DecodeOutcome(o, Tree.Map([e]));
  }

  /**
   The entry {name: true} for every name that is short enough: it comes back
   under the name that is read if the padding covers the name, and as an error
   otherwise.
   */
  lemma NulNameOutcome(o: ByteOrder, name: bytes)
    requires |name| + 1 < MAX_INT16
    ensures var t := Tree.Map([Entry(name, [], Tree.Prim(Bool(true)))]);
      && Marshal(o, t).Ok?
      && Unmarshal(Marshal(o, t).value) ==
         if Covered(name) then Ok(Value.Map(map[ReadName(name) := Value.Prim(Bool(true))])) else Err(InvalidData)
  {
    var e := Entry(name, [], Tree.Prim(Bool(true)));
    var t := Tree.Map([e]);
    PlainTag(e);
    OneEntry(o, e);
    BarePair(name);
    assert TextFits(Bool(true), 0);
    DecodeOutcome(o, t);
    if Covered(name) {
      assert TreeMeaning(t) == Value.Map(map[ReadName(name) := Value.Prim(Bool(true))]) by {
        OneItem(e);
      }
    }
  }

  lemma BarePair(name: bytes)
    requires |name| + 1 < MAX_INT16
    ensures PairSize(name, 0) <= MAX_INT32 && (Covered(name) || PairSize(name, 0) <= 16 + |name|)
  {
    var k := AlignUp(CStringLen(name), 8);
    AlignUpSame(k, k);
  }

  lemma OneItem(e: Entry)
    requires !NotWritten(e)
    ensures Build(map[], ProjectList(Tree.Map([e])).items) == AddItem(map[], ProjectEntry(e))
  {
    var es := [e];
    assert es[..|es| - 1] == [] && Project([]) == [] && Build(map[], []) == map[];
    BuildLast(es);
  }

  /**
   The value {name: s}, whose string may hold a NUL: it comes back cut at the
   NUL, without an error, because the trailer ends it where no padding does.
   So it round-trips exactly when s is NUL-free.
   */
  lemma NulString(o: ByteOrder, name: bytes, s: bytes)
    requires NulFree(name) && |name| + 1 < MAX_INT16 && PairSize(name, CStringLen(s)) <= MAX_INT32
    ensures var v := Value.Map(map[name := Value.Prim(Str(s))]);
      var t := Tree.Map([Entry(name, [], Tree.Prim(Str(s)))]);
      && Marshal(o, t).Ok?
      && Unmarshal(Marshal(o, t).value) == Ok(Value.Map(map[name := Value.Prim(Str(CutText(s)))]))
      && (Unmarshal(Marshal(o, t).value) == Ok(Norm(v)) <==> NulFree(s))
  {
    var x := Value.Prim(Str(s));
    var e := Entry(name, [], Tree.Prim(Str(s)));
    var t := Tree.Map([e]);
    NulFreeName(name);
    PlainTag(e);
    OneEntry(o, e);
    OneMissing(s);
    DecodeOutcome(o, t);
    OneItem(e);
    OneOrder(name, x, e);
    OneMember(name, x);
    LeafOkIff(Str(s));
    assert LeafTexts(Str(s))[0] == s;
    assert ValueOk(name, x) <==> NulFree(s);
    RoundTripIff(o, Value.Map(map[name := x]), t);
  }

  /** A string array whose first string has a NUL: it joins its neighbour, and padding makes up the number. */
  lemma JoinedStrings(o: ByteOrder, name: bytes)
    requires NulFree(name) && |name| + 1 < MAX_INT16
    ensures var ss: seq<bytes> := [[97, 0], [98]];
      var t := Tree.Map([Entry(name, [], Tree.Prim(StrArray(ss)))]);
      && Marshal(o, t).Ok?
      && Unmarshal(Marshal(o, t).value) == Ok(Value.Map(map[name := Value.Prim(StrArray([[97, 98], []]))]))
  {
    var ss: seq<bytes> := [[97, 0], [98]];
    var e := Entry(name, [], Tree.Prim(StrArray(ss)));
    var t := Tree.Map([e]);
    NulFreeName(name);
    PlainTag(e);
    JoinedTexts(ss);
    OneEntry(o, e);
    DecodeOutcome(o, t);
    OneItem(e);
  }

  lemma JoinedTexts(ss: seq<bytes>)
    requires ss == [[97, 0], [98]]
    ensures ReadTexts(ss) == [[97, 98], []] && CStringsSize(ss) == 3 && Missing(ss) == 1
  {
    var x: bytes, y: bytes, tail := [97, 0], [98], ss[1..];
    assert x[1] == 0 && IsIndexOf(x, 0, 1) && CutText(x) == [97] && NulFree(y);
    assert tail == [y] && tail[1..] == [] && ss[0] == x;
    assert CStringsSize(tail) == CStringLen(y) + CStringsSize(tail[1..]);
    assert Missing(tail) == 0 + Missing(tail[1..]);
    assert [] + CutText(x) == [97] && [97] + y == [97, 98];
    assert Terminated([97], tail) == [[97] + y] + Terminated([], tail[1..]);
    assert Unterminated([97], tail) == Unterminated([], tail[1..]);
    assert Terminated([], ss) == Terminated([] + CutText(x), tail) && Unterminated([], ss) == Unterminated([] + CutText(x), tail);
    assert Blanks(0) == [];
  }

  // ---- A string without a terminator and the byte behind its pair ----

  function Text(name: bytes, s: bytes): Entry {
    Entry(name, [], Tree.Prim(Str(s)))
  }

  function Flag(name: bytes): Entry {
    Entry(name, [], Tree.Prim(Bool(true)))
  }

  /** What {a: s, b: true} is read as. */
  function Both(a: bytes, b: bytes, s: bytes): Value {
    Value.Map(map[a := Value.Prim(Str(CutText(s))), b := Value.Prim(Bool(true))])
  }

  /** The string is terminated, or padded, or followed by a size that starts with a zero byte. */
  predicate Terminates(o: ByteOrder, s: bytes, b: bytes) {
    NulFree(s) || |CutText(s)| % 8 != 0 || LeadByte(o, PairSize(b, 0)) == 0
  }

  lemma SlackOf(s: bytes)
    requires !NulFree(s)
    ensures Slack([s]) > 0 <==> |CutText(s)| % 8 != 0
  {
    var ss := [s];
    assert ss[1..] == [] && CStringsSize(ss) == CStringLen(ss[0]) + CStringsSize(ss[1..]);
    AlignUpMod(|CutText(s)|, 8);
  }

  lemma TwoEntries(o: ByteOrder, e: Entry, f: Entry)
    requires e.tag == [] && f.tag == [] && !NotWritten(e) && !NotWritten(f)
    requires |e.name| + 1 < MAX_INT16 && |f.name| + 1 < MAX_INT16
    requires Judged(e.name, e.value) && Judged(f.name, f.value) && e.value.Prim? && f.value.Prim?
    requires TreeFramed(true, e.value) && TreeFramed(true, f.value) && Fits(e.name, e.value) && Fits(f.name, f.value)
    ensures var t := Tree.Map([e, f]);
      && ListFramed(true, t) && Nils(t) == 0
      && (ListFits(o, t) <==> TextFits(e.value.leaf, LeadByte(o, PairSize(f.name, LeafSize(f.value.leaf)))) && TextFits(f.value.leaf, 0))
  {
    var es := [e, f];
    PlainTag(e);
    PlainTag(f);
    OneEntry(o, f);
    assert es[0] == e && es[1..] == [f];
    assert TreeNils(e.value) == 0 && TreeNils(f.value) == 0;
    assert EntriesNils(es) == EntryNils(e) + EntriesNils(es[1..]);
    assert EntriesNils([f]) == Nils(Tree.Map([f]));
    assert NextByte(o, [f]) == LeadByte(o, PairSize(f.name, LeafSize(f.value.leaf)));
    assert EntriesFit(o, [f]) <==> ListFits(o, Tree.Map([f]));
    assert EntriesFit(o, es) <==> EntryFits(o, e, NextByte(o, es[1..])) && EntriesFit(o, es[1..]);
    assert EntryFits(o, e, NextByte(o, [f])) <==> TreeFits(o, e.value, NextByte(o, [f]));
    assert TreeFits(o, f.value, 0) <==> TextFits(f.value.leaf, 0);
    assert forall i :: 0 <= i < |es| ==> EntryFramed(true, es[i]);
  }

  /** The items of two entries with plain names, in order. */
  lemma TwoItems(e: Entry, f: Entry)
    requires e.tag == [] && f.tag == [] && !NotWritten(e) && !NotWritten(f) && e.value.Prim? && f.value.Prim?
    requires NulFree(e.name) && NulFree(f.name)
    ensures TreeMeaning(Tree.Map([e, f]))
         == Value.Map(map[e.name := Value.Prim(ReadLeaf(e.value.leaf)), f.name := Value.Prim(ReadLeaf(f.value.leaf))])
  {
    var es := [e, f];
    PlainTag(e);
    PlainTag(f);
    NulFreeName(e.name);
    NulFreeName(f.name);
    assert es[..|es| - 1] == [e] && es[|es| - 1] == f;
    BuildLast(es);
    OneItem(e);
  }

  /**
   {a: s, b: true}: with b enumerated first, or with padding behind s, it always
   comes back with s cut at its NUL. With s enumerated first and no padding,
   the reader takes the first byte of the size of b for the terminator of s,
   and fails if that byte is not zero.
   */
  lemma NulStringOrder(o: ByteOrder, a: bytes, b: bytes, s: bytes)
    requires NulFree(a) && NulFree(b) && a != b && |a| + 1 < MAX_INT16 && |b| + 1 < MAX_INT16
    requires PairSize(a, CStringLen(s)) <= MAX_INT32
    ensures var t1, t2 := Tree.Map([Text(a, s), Flag(b)]), Tree.Map([Flag(b), Text(a, s)]);
      && Marshal(o, t1).Ok? && Marshal(o, t2).Ok?
      && Unmarshal(Marshal(o, t1).value) == (if Terminates(o, s, b) then Ok(Both(a, b, s)) else Err(InvalidData))
      && Unmarshal(Marshal(o, t2).value) == Ok(Both(a, b, s))
  {
    TextFirst(o, a, b, s);
    FlagFirst(o, a, b, s);
  }

  lemma PlainEntries(a: bytes, b: bytes, s: bytes)
    requires NulFree(a) && NulFree(b) && |a| + 1 < MAX_INT16 && |b| + 1 < MAX_INT16
    requires PairSize(a, CStringLen(s)) <= MAX_INT32
    ensures var e, f := Text(a, s), Flag(b);
      && !NotWritten(e) && !NotWritten(f) && Judged(a, e.value) && Judged(b, f.value)
      && TreeFramed(true, e.value) && TreeFramed(true, f.value) && Fits(a, e.value) && Fits(b, f.value)
    ensures forall next :: TextFits(Bool(true), next)
    ensures forall next :: TextFits(Str(s), next) <==> NulFree(s) || |CutText(s)| % 8 != 0 || next == 0
  {
    PlainTag(Text(a, s));
    PlainTag(Flag(b));
    NulFreeName(a);
    NulFreeName(b);
    BarePair(b);
    OneMissing(s);
    assert Missing(LeafTexts(Bool(true))) == 0;
    if !NulFree(s) {
      SlackOf(s);
    }
  }

  lemma TextFirst(o: ByteOrder, a: bytes, b: bytes, s: bytes)
    requires NulFree(a) && NulFree(b) && a != b && |a| + 1 < MAX_INT16 && |b| + 1 < MAX_INT16
    requires PairSize(a, CStringLen(s)) <= MAX_INT32
    ensures var t := Tree.Map([Text(a, s), Flag(b)]);
      Marshal(o, t).Ok? && Unmarshal(Marshal(o, t).value) == if Terminates(o, s, b) then Ok(Both(a, b, s)) else Err(InvalidData)
  {
    var e, f := Text(a, s), Flag(b);
    PlainEntries(a, b, s);
    TwoEntries(o, e, f);
    TwoItems(e, f);
    DecodeOutcome(o, Tree.Map([e, f]));
  }

  lemma FlagFirst(o: ByteOrder, a: bytes, b: bytes, s: bytes)
    requires NulFree(a) && NulFree(b) && a != b && |a| + 1 < MAX_INT16 && |b| + 1 < MAX_INT16
    requires PairSize(a, CStringLen(s)) <= MAX_INT32
    ensures var t := Tree.Map([Flag(b), Text(a, s)]);
      Marshal(o, t).Ok? && Unmarshal(Marshal(o, t).value) == Ok(Both(a, b, s))
  {
    var e, f := Text(a, s), Flag(b);
    PlainEntries(a, b, s);
    TwoEntries(o, f, e);
    TwoItems(f, e);
    assert TreeMeaning(Tree.Map([f, e])) == Both(a, b, s);
    DecodeOutcome(o, Tree.Map([f, e]));
  }

  /** The smallest such value, in the byte order of Marshal: one order decodes and the other does not. */
  lemma NulStringWitness()
    ensures var a, b, s := [97], [98], [0];
      var t1, t2 := Tree.Map([Text(a, s), Flag(b)]), Tree.Map([Flag(b), Text(a, s)]);
      && Marshal(LittleEndian, t1).Ok? && Marshal(LittleEndian, t2).Ok?
      && Unmarshal(Marshal(LittleEndian, t1).value) == Err(InvalidData)
      && Unmarshal(Marshal(LittleEndian, t2).value) == Ok(Both(a, b, s))
  {
    var a: bytes, b: bytes, s: bytes := [97], [98], [0];
    assert IsIndexOf(s, 0, 0) && s[0] == 0;
    assert CutText(s) == [] && CStringLen(s) == 0 && CStringLen(a) == 2 && CStringLen(b) == 2;
    assert PairSize(a, 0) == 24 && PairSize(b, 0) == 24;
    NulStringOrder(LittleEndian, a, b, s);
  }

  lemma OneMember(name: bytes, x: Value)
    requires NulFree(name) && |name| + 1 < MAX_INT16 && x.Prim? && x != Value.Prim(Bool(false))
    ensures InDomain(Value.Map(map[name := x])) <==> ValueOk(name, x)
  {
    var v := Value.Map(map[name := x]);
    NulFreeName(name);
    NoTag(ValueEmpty(x));
    assert v.m[name] == x && forall k :: k in v.m ==> k == name;
    assert MemberOk(name, [], x) <==> ValueOk(name, x);
    LeafOkIff(x.leaf);
    ReadLeafPlain(x.leaf);
    assert Verbatim(v) <==> Verbatim(v.m[name]);
    assert Admitted(v) <==> MemberOk(name, [], v.m[name]);
  }

  lemma OneOrder(name: bytes, x: Value, e: Entry)
    requires e.name == name && e.tag == [] && Orders(x, e.value)
    ensures Orders(Value.Map(map[name := x]), Tree.Map([e]))
  {
    assert NamesOf([e]) == {name};
  }

  // ---- Errors that are not reported ----

  /** {a: {x: an unsupported value}, b: true}, with the two entries in either order. */
  function BadFirst(a: bytes, b: bytes, x: bytes, empty: bool): seq<Entry> {
    [BadMember(a, x, empty), Flag(b)]
  }

  function BadLast(a: bytes, b: bytes, x: bytes, empty: bool): seq<Entry> {
    [Flag(b), BadMember(a, x, empty)]
  }

  function BadMember(a: bytes, x: bytes, empty: bool): Entry {
    Entry(a, [], Tree.Map([Entry(x, [], Tree.Unsupported(empty))]))
  }

  function BadValue(a: bytes, b: bytes, x: bytes, empty: bool): Value {
    Value.Map(map[a := Value.Map(map[x := Value.Unsupported(empty)]), b := Value.Prim(Bool(true))])
  }

  lemma BadOrders(a: bytes, b: bytes, x: bytes, empty: bool)
    requires a != b
    ensures Orders(BadValue(a, b, x, empty), Tree.Map(BadFirst(a, b, x, empty)))
    ensures Orders(BadValue(a, b, x, empty), Tree.Map(BadLast(a, b, x, empty)))
  {
    var es, fs := BadFirst(a, b, x, empty), BadLast(a, b, x, empty);
    OneOrder(x, Value.Unsupported(empty), Entry(x, [], Tree.Unsupported(empty)));
    assert es[0].name == a && es[1].name == b && fs[0].name == b && fs[1].name == a;
    assert NamesOf(es) == {a, b} && NamesOf(fs) == {a, b};
  }

  lemma BadSwallows(a: bytes, x: bytes, empty: bool)
    requires |a| + 1 < MAX_INT16 && |x| + 1 < MAX_INT16
    ensures var bad, e := Entry(x, [], Tree.Unsupported(empty)), BadMember(a, x, empty);
      && Bad(bad) && OpensPair(bad) && !Dropped(e) && EntryName(e) == a && Reports(e.value)
  {
    var bad := Entry(x, [], Tree.Unsupported(empty));
    PlainTag(bad);
    PlainTag(BadMember(a, x, empty));
    assert ValueBad(bad.value);
    var es := [bad];
    assert Bad(es[0]);
    assert EntriesReport(es);
  }

  /** The path to the unsupported value, with the given entries around it. */
  function OneLevel(before: seq<Entry>, a: bytes, after: seq<Entry>): seq<Level> {
    [Nested(before, a, [], false, after)]
  }

  lemma OneLevelIs(before: seq<Entry>, a: bytes, after: seq<Entry>, x: bytes, empty: bool)
    ensures var ls, bad := OneLevel(before, a, after), Entry(x, [], Tree.Unsupported(empty));
      && Nest(ls, [] + [bad] + []) == before + [BadMember(a, x, empty)] + after
      && Cut(ls, []) == before + [Entry(a, [], Tree.Map([]))]
      && Open(ls) == 2 && TagsOk(ls) && !PathReports(ls)
  {
    var ls := OneLevel(before, a, after);
    assert ls[1..] == [] && [] + [Entry(x, [], Tree.Unsupported(empty))] + [] == [Entry(x, [], Tree.Unsupported(empty))];
    assert Open([]) == 1 && PathReports([]) && Cut([], []) == [];
    assert FieldName(a, []) == a && !Omitted([], false) by {
      PlainTag(BadMember(a, x, empty));
    }
  }

  lemma EmptyReadable(o: ByteOrder, before: seq<Entry>, a: bytes)
    requires EntriesOk(before) && NulFree(a) && |a| + 1 < MAX_INT16
    ensures Readable(o, Tree.Map(before + [Entry(a, [], Tree.Map([]))]))
  {
    var e := Entry(a, [], Tree.Map([]));
    PlainTag(e);
    NulFreeName(a);
    assert EntryOk(e);
    OkReadable(o, Tree.Map(before + [e]));
  }

  /**
   One value, two enumerations: an unsupported value inside a nested map is an
   error on its own, but here it is dropped in either order, and the member b
   comes back only if it happens to be enumerated first.
   */
  lemma SwallowedError(o: ByteOrder, a: bytes, b: bytes, x: bytes, empty: bool)
    requires NulFree(a) && NulFree(b) && a != b
    requires |a| + 1 < MAX_INT16 && |b| + 1 < MAX_INT16 && |x| + 1 < MAX_INT16
    ensures var v := BadValue(a, b, x, empty);
      var t1, t2 := Tree.Map(BadFirst(a, b, x, empty)), Tree.Map(BadLast(a, b, x, empty));
      var inner := Value.Map(map[]);
      && Orders(v, t1) && Orders(v, t2)
      && Marshal(o, BadMember(a, x, empty).value).Err? && Marshal(o, t1).Ok? && Marshal(o, t2).Ok?
      && Unmarshal(Marshal(o, t1).value) == Ok(Value.Map(map[a := inner]))
      && Unmarshal(Marshal(o, t2).value) == Ok(Value.Map(map[b := Value.Prim(Bool(true)), a := inner]))
  {
    var e, bad, good := BadMember(a, x, empty), Entry(x, [], Tree.Unsupported(empty)), Flag(b);
    BadOrders(a, b, x, empty);
    BadSwallows(a, x, empty);
    ReportIff(o, e.value);
    NulFreeName(b);
    PlainTag(good);
    BarePair(b);
    assert EntryOk(good);
    EmptyReadable(o, [], a);
    EmptyReadable(o, [good], a);
    OneLevelIs([], a, [good], x, empty);
    OneLevelIs([good], a, [], x, empty);
    assert BadFirst(a, b, x, empty) == [] + [e] + [good];
    assert BadLast(a, b, x, empty) == [good] + [e] + [];
    SwallowedOutcome(o, OneLevel([], a, [good]), [], bad, []);
    SwallowedOutcome(o, OneLevel([good], a, []), [], bad, []);
    EmptyMember(a);
    EmptyBehind(a, good);
  }

  /** What a map with one empty map in it means, alone and behind another entry. */
  lemma EmptyMember(a: bytes)
    requires NulFree(a)
    ensures TreeMeaning(Tree.Map([] + [Entry(a, [], Tree.Map([]))])) == Value.Map(map[a := Value.Map(map[])])
  {
    var e := Entry(a, [], Tree.Map([]));
    PlainTag(e);
    NulFreeName(a);
    assert [] + [e] == [e];
    OneItem(e);
    EmptyItem(e);
  }

  lemma EmptyItem(e: Entry)
    requires e.value == Tree.Map([])
    ensures ProjectEntry(e).node == Sub(Block([])) && Build(map[], []) == map[]
  {
    assert Project([]) == [];
  }

  lemma EmptyBehind(a: bytes, g: Entry)
    requires NulFree(a) && NulFree(g.name) && g.tag == [] && g.value == Tree.Prim(Bool(true))
    ensures TreeMeaning(Tree.Map([g] + [Entry(a, [], Tree.Map([]))]))
         == Value.Map(map[g.name := Value.Prim(Bool(true)), a := Value.Map(map[])])
  {
    var e := Entry(a, [], Tree.Map([]));
    var es := [g] + [e];
    PlainTag(e);
    PlainTag(g);
    NulFreeName(a);
    NulFreeName(g.name);
    assert es[..|es| - 1] == [g] && es[|es| - 1] == e;
    BuildLast(es);
    OneItem(g);
    EmptyItem(e);
  }

  /** Whether a bad member is reported at all can depend on the enumeration order. */
  lemma ReportDependsOnOrder(o: ByteOrder, a: bytes, b: bytes, x: bytes, empty: bool)
    requires |a| + 1 < MAX_INT16 && |b| + 1 < MAX_INT16 && |x| + 1 < MAX_INT16
    ensures var e, bad := BadMember(a, x, empty), Entry(b, [], Tree.Unsupported(empty));
      Marshal(o, Tree.Map([e, bad])).Ok? && Marshal(o, Tree.Map([bad, e])).Err?
  {
    var e, bad := BadMember(a, x, empty), Entry(b, [], Tree.Unsupported(empty));
    BadSwallows(a, x, empty);
    assert Swallows(e);
    assert [e, bad] == [] + [e] + [bad];
    SiblingsLost(o, [], e, [bad]);
    PlainTag(bad);
    assert ValueBad(bad.value);
    var es := [bad, e];
    assert Bad(es[0]);
    assert EntriesReport(es);
    ReportIff(o, Tree.Map(es));
  }
}
