/**
 What becomes of every tree that is written without an error, inside the domain
 or not: trees with nil list elements, arrays of more than 65535 elements,
 oversized pairs, and NULs in names and strings. Such a tree decodes if and only
 if it is readable, and otherwise the error is known.
 */
module Outcome {
  import opened Bytes
  import opened Consts
  import opened Values
  import opened Decoder
  import opened Encoder
  import opened Domain
  import opened RoundTrip
  import opened Meaning

  // ---- Parsing without looking at the values ----

  datatype Left = Rest(rest: bytes) | Failed(error: Error)

  function LeftBy(p: ParseResult): Left {
    match p
    case Parsed(_, rest) => Rest(rest)
    case BadList(e) => Failed(e)
  }

  /** What was parsed before does not matter. */
  lemma {:induction false} ParseSkips(c: Config, s: bytes, a: seq<Item>, b: seq<Item>)
    ensures LeftBy(Parse(c, s, a)) == LeftBy(Parse(c, s, b))
    decreases |s|
  {
    var step := ReadHead(c, s);
    if step.Pair? {
      var out := ReadNode(c, s, step.head);
      if out.GotNode? {
        var item := Item(step.head.name, out.node);
        ParseSkips(c, out.rest, a + [item], b + [item]);
      }
    }
  }

  ghost predicate Leaves(c: Config, s: bytes, r: Left) {
    forall acc {:trigger Parse(c, s, acc)} :: LeftBy(Parse(c, s, acc)) == r
  }

  lemma LeavesSome(c: Config, s: bytes)
    ensures exists r :: Leaves(c, s, r)
  {
    forall acc
      ensures LeftBy(Parse(c, s, acc)) == LeftBy(Parse(c, s, []))
    {
      ParseSkips(c, s, acc, []);
    }
    assert Leaves(c, s, LeftBy(Parse(c, s, [])));
  }

  /** What is left after one list. */
  ghost function Skip(c: Config, s: bytes): Left {
    LeavesSome(c, s);
    var r :| Leaves(c, s, r);
    r
  }

  /** What is left after n lists. */
  ghost function SkipAll(c: Config, s: bytes, n: nat): Left
    decreases n, s, c
  {
    if n == 0 then Rest(s)
    else
      match Skip(c, s)
      case Failed(e) => Failed(e)
      case Rest(rest) => SkipAll(c, rest, n - 1)
  }

  lemma {:induction false} ParseAllSkips(c: Config, s: bytes, n: nat, acc: seq<Block>)
    ensures var x, y := ParseAll(c, s, n, acc), SkipAll(c, s, n);
      && (x.ParsedAll? ==> y == Rest(x.rest))
      && (x.BadLists? ==> y == Failed(x.error))
    decreases n
  {
    if n == 0 {
      assert ParseAll(c, s, 0, acc) == ParsedAll(acc, s);
    } else {
      var p := Parse(c, s, []);
      if p.Parsed? {
        AllStep(c, s, n, acc, p.items, p.rest);
        ParseAllSkips(c, p.rest, n - 1, acc + [Block(p.items)]);
      }
    }
  }

  lemma {:induction false} SkipSplit(c: Config, s: bytes, m: nat, k: nat)
    ensures var x := SkipAll(c, s, m);
      SkipAll(c, s, m + k) == if x.Failed? then x else SkipAll(c, x.rest, k)
    decreases m
  {
    if m > 0 && Skip(c, s).Rest? {
      SkipSplit(c, Skip(c, s).rest, m - 1, k);
    }
  }

  // ---- One pair ----

  lemma SkipOn(c: Config, s: bytes, s': bytes, acc: seq<Item>, n: nat)
    requires Parse(c, s, []) == Parse(c, s', acc)
    ensures SkipAll(c, s, n + 1) == SkipAll(c, s', n + 1)
  {
    assert Skip(c, s) == LeftBy(Parse(c, s, [])) && Skip(c, s') == LeftBy(Parse(c, s', acc));
  }

  /** The reader goes on with the nested list as one more list to read. */
  lemma SkipSub(c: Config, s: bytes, h: Head, n: nat)
    requires ReadHead(c, s) == Pair(h) && h.code == TYPE_NVLIST
    ensures SkipAll(c, s, n + 1) == SkipAll(c, After(c, s, h), n + 2)
  {
    var t := After(c, s, h);
    var p := Parse(c, t, []);
    if p.BadList? {
      assert ReadNode(c, s, h) == BadNode(p.error);
      assert Parse(c, s, []) == BadList(p.error);
    } else {
      assert SkipAll(c, t, n + 2) == SkipAll(c, p.rest, n + 1);
      SubStep(c, s, [], h, p.items, p.rest);
      SkipOn(c, s, p.rest, [] + [Item(h.name, Sub(Block(p.items)))], n);
    }
  }

  lemma SkipSubs(c: Config, s: bytes, h: Head, n: nat)
    requires ReadHead(c, s) == Pair(h) && h.code == TYPE_NVLIST_ARRAY
    ensures SkipAll(c, s, n + 1) == SkipAll(c, After(c, s, h), h.elems + (n + 1))
  {
    var t := After(c, s, h);
    var p := ParseAll(c, t, h.elems, []);
    ParseAllSkips(c, t, h.elems, []);
    SkipSplit(c, t, h.elems, n + 1);
    if p.BadLists? {
      assert ReadNode(c, s, h) == BadNode(p.error);
      assert Parse(c, s, []) == BadList(p.error);
    } else {
      SubsStep(c, s, [], h, p.blocks, p.rest);
      SkipOn(c, s, p.rest, [] + [Item(h.name, Subs(p.blocks))], n);
    }
  }

  lemma SkipFails(c: Config, s: bytes, e: Error, n: nat)
    requires ReadHead(c, s) == BadHead(e)
    ensures SkipAll(c, s, n + 1) == Failed(e)
  {
    assert Parse(c, s, []) == BadList(e);
  }

  /** A negative size, too many elements or a name longer than the pair. */
  lemma HeadRejected(o: ByteOrder, size: nat, nameSize: nat, elems: nat, code: nat, s: bytes)
    requires 16 <= size < 0x1_0000_0000 && size + 4 <= |s| && 0 < nameSize < MAX_INT16 && elems < MAX_INT32
    requires size > MAX_INT32 || elems > MAX_ELEMS || size < 16 + nameSize
    requires s[..16] == PairHeader(o, size, nameSize, elems, code)
    ensures ReadHead(Config(Native, o), s) == BadHead(InvalidData)
  {
    HeaderFields(o, size, nameSize, elems, code, s[16..]);
    assert s == s[..16] + s[16..];
    PowValues();
    if size > MAX_INT32 {
      PutIntPeriodic(o, size - 0x1_0000_0000, 4);
      IntAtRead(o, true, s, 0, 4, size - 0x1_0000_0000);
    } else {
      IntAtRead(o, true, s, 0, 4, size);
      IntAtRead(o, true, s, 4, 2, nameSize);
      IntAtRead(o, true, s, 8, 4, elems);
    }
  }

  lemma PairRejected(o: ByteOrder, name: bytes, elems: nat, code: nat, value: bytes, post: bytes, n: nat)
    requires |name| + 1 < MAX_INT16 && elems < MAX_INT32 && |post| >= 4
    requires PairSize(name, |value|) < 0x1_0000_0000
    requires PairSize(name, |value|) > MAX_INT32 || elems > MAX_ELEMS || PairSize(name, |value|) <= 16 + |name|
    ensures SkipAll(Config(Native, o), PairBytes(o, name, elems, code, value) + post, n + 1) == Failed(InvalidData)
  {
    var s := PairBytes(o, name, elems, code, value) + post;
    PairParts(o, name, elems, code, value);
    PairStart(PairHeader(o, PairSize(name, |value|), |name| + 1, elems, code), PairBody(name, value), post);
    HeadRejected(o, PairSize(name, |value|), |name| + 1, elems, code, s);
    SkipFails(Config(Native, o), s, InvalidData, n);
  }

  lemma PairStart(header: bytes, body: bytes, post: bytes)
    ensures (header + body + post)[..|header|] == header
  {}

  // ---- Bytes that are judged whatever follows them ----

  /** What is left of data and post after n + 1 lists. */
  ghost function Skips(o: ByteOrder, data: bytes, post: bytes, n: nat): Left {
    SkipAll(Config(Native, o), data + post, n + 1)
  }

  /** What is left after n lists, unless something before was rejected. */
  ghost function Judgement(o: ByteOrder, fits: bool, post: bytes, n: nat): Left {
    if fits then SkipAll(Config(Native, o), post, n) else Failed(InvalidData)
  }

  /** A pair, inside a list that goes on, after which the reader expects more lists. */
  ghost predicate PairJudges(o: ByteOrder, data: bytes, fits: bool, more: nat) {
    forall post, n: nat {:trigger Skips(o, data, post, n)} :: |post| >= 4 ==>
      Skips(o, data, post, n) == Judgement(o, fits, post, more + (n + 1))
  }

  /** The same where it matters which byte comes behind the pair. */
  ghost predicate EntryJudges(o: ByteOrder, data: bytes, next: byte, fits: bool, more: nat) {
    forall post, n: nat {:trigger Skips(o, data, post, n)} :: |post| >= 4 && post[0] == next ==>
      Skips(o, data, post, n) == Judgement(o, fits, post, more + (n + 1))
  }

  /** A list in which so many trailers are missing. */
  ghost predicate ListJudges(o: ByteOrder, data: bytes, fits: bool, nils: nat) {
    forall post, n: nat {:trigger Skips(o, data, post, n)} ::
      Skips(o, data, post, n) == Judgement(o, fits, post, nils + n)
  }

  ghost function SkipsMany(o: ByteOrder, data: bytes, post: bytes, k: nat, n: nat): Left {
    SkipAll(Config(Native, o), data + post, k + n)
  }

  /** The same for k lists. */
  ghost predicate ListsJudge(o: ByteOrder, data: bytes, k: nat, fits: bool, nils: nat) {
    forall post, n: nat {:trigger SkipsMany(o, data, post, k, n)} ::
      SkipsMany(o, data, post, k, n) == Judgement(o, fits, post, nils + n)
  }

  lemma JoinSub(o: ByteOrder, pair: bytes, data: bytes, f1: bool, f2: bool, nils: nat)
    requires PairJudges(o, pair, f1, 1) && ListJudges(o, data, f2, nils)
    ensures PairJudges(o, pair + data, f1 && f2, nils)
  {
    forall post, n: nat | |post| >= 4
      ensures Skips(o, pair + data, post, n) == Judgement(o, f1 && f2, post, nils + (n + 1))
    {
      Assoc(pair, data, post);
      assert Skips(o, pair, data + post, n) == Judgement(o, f1, data + post, 1 + (n + 1));
      assert Skips(o, data, post, n + 1) == Judgement(o, f2, post, nils + (n + 1));
    }
  }

  lemma JoinSubs(o: ByteOrder, pair: bytes, data: bytes, k: nat, f1: bool, f2: bool, nils: nat)
    requires PairJudges(o, pair, f1, k) && ListsJudge(o, data, k, f2, nils)
    ensures PairJudges(o, pair + data, f1 && f2, nils)
  {
    forall post, n: nat | |post| >= 4
      ensures Skips(o, pair + data, post, n) == Judgement(o, f1 && f2, post, nils + (n + 1))
    {
      Assoc(pair, data, post);
      assert Skips(o, pair, data + post, n) == Judgement(o, f1, data + post, k + (n + 1));
      assert SkipsMany(o, data, post, k, n + 1) == Judgement(o, f2, post, nils + (n + 1));
    }
  }

  lemma JoinEntries(o: ByteOrder, first: bytes, rest: bytes, f1: bool, k1: nat, f2: bool, k2: nat, fits: bool, nils: nat)
    requires |rest| >= 4 && EntryJudges(o, first, rest[0], f1, k1) && ListJudges(o, rest, f2, k2)
    requires fits == (f1 && f2) && nils == k1 + k2
    ensures ListJudges(o, first + rest, fits, nils)
  {
    forall post, n: nat
      ensures Skips(o, first + rest, post, n) == Judgement(o, fits, post, nils + n)
    {
      Assoc(first, rest, post);
      assert (rest + post)[0] == rest[0];
      assert Skips(o, first, rest + post, n) == Judgement(o, f1, rest + post, k1 + (n + 1));
      assert Skips(o, rest, post, k1 + n) == Judgement(o, f2, post, k2 + (k1 + n));
    }
  }

  lemma JoinElements(o: ByteOrder, first: bytes, rest: bytes, k: nat, f1: bool, k1: nat, f2: bool, k2: nat,
                     m: nat, fits: bool, nils: nat)
    requires ListJudges(o, first, f1, k1) && ListsJudge(o, rest, k, f2, k2)
    requires m == k + 1 && fits == (f1 && f2) && nils == k1 + k2
    ensures ListsJudge(o, first + rest, m, fits, nils)
  {
    var all := first + rest;
    forall post, n: nat
      ensures SkipsMany(o, all, post, m, n) == Judgement(o, fits, post, nils + n)
    {
      Assoc(first, rest, post);
      assert Skips(o, first, rest + post, k + n) == Judgement(o, f1, rest + post, k1 + (k + n));
      assert SkipsMany(o, rest, post, k, k1 + n) == Judgement(o, f2, post, k2 + (k1 + n));
    }
  }

  lemma TrailerJudges(o: ByteOrder)
    ensures ListJudges(o, Zeros(4), true, 0)
  {
    forall post, n: nat
      ensures Skips(o, Zeros(4), post, n) == Judgement(o, true, post, 0 + n)
    {
      TrailerRoundTrip(o, post, []);
      assert Skip(Config(Native, o), Zeros(4) + post) == Rest(post);
    }
  }

  lemma NilJudges(o: ByteOrder, none: bytes)
    requires none == []
    ensures ListJudges(o, none, true, 1)
  {
    forall post, n: nat
      ensures Skips(o, none, post, n) == Judgement(o, true, post, 1 + n)
    {
      assert none + post == post;
    }
  }

  lemma NoneJudge(o: ByteOrder, none: bytes, k: nat)
    requires none == [] && k == 0
    ensures ListsJudge(o, none, k, true, k)
  {
    forall post, n: nat
      ensures SkipsMany(o, none, post, k, n) == Judgement(o, true, post, k + n)
    {
      assert none + post == post;
    }
  }

  // ---- Pairs ----

  lemma LeafVerdict(o: ByteOrder, name: bytes, l: Leaf, post: bytes, n: nat)
    requires |name| + 1 < MAX_INT16 && |post| >= 4 && l != Bool(false)
    requires Judged(name, Tree.Prim(l)) && LeafTyped(l) && LeafElems(l) < MAX_INT32
    ensures SkipAll(Config(Native, o), LeafPair(o, name, l) + post, n + 1)
         == Judgement(o, Fits(name, Tree.Prim(l)) && TextFits(l, post[0]), post, n + 1)
  {
    var c, s := Config(Native, o), LeafPair(o, name, l) + post;
    LeafSizeIsLength(o, l);
    if Fits(name, Tree.Prim(l)) {
      LeafEntry(o, name, l, post, []);
      if TextFits(l, post[0]) {
        SkipOn(c, s, post, [] + [Item(ReadName(name), Single(ReadLeaf(l)))], n);
      } else {
        SkipBad(c, s, InvalidData, n);
      }
    } else {
      PairRejected(o, name, LeafElems(l), LeafCode(l), LeafBytes(o, l), post, n);
    }
  }

  lemma SkipBad(c: Config, s: bytes, e: Error, n: nat)
    requires Parse(c, s, []) == BadList(e)
    ensures SkipAll(c, s, n + 1) == Failed(e)
  {}

  lemma FloatVerdict(o: ByteOrder, name: bytes, bits: nat, post: bytes, n: nat)
    requires |name| + 1 < MAX_INT16 && |post| >= 4 && Judged(name, Tree.Float64(bits))
    ensures SkipAll(Config(Native, o), FloatPair(o, name, bits) + post, n + 1)
         == Judgement(o, Fits(name, Tree.Float64(bits)), post, n + 1)
  {
    if Fits(name, Tree.Float64(bits)) {
      FloatEntry(o, name, bits, post, []);
      SkipOn(Config(Native, o), FloatPair(o, name, bits) + post, post, [] + [Item(ReadName(name), Skipped)], n);
    } else {
      PairRejected(o, name, 1, TYPE_DOUBLE, PutInt(o, bits, 8), post, n);
    }
  }

  /** The head of a pair that fits, and the bytes behind the pair. */
  lemma PairAccepted(o: ByteOrder, name: bytes, elems: nat, code: nat, value: bytes, post: bytes)
    requires Covered(name) && |name| + 1 < MAX_INT16 && elems <= MAX_ELEMS && code <= TYPE_DOUBLE && |post| >= 4
    requires PairSize(name, |value|) <= MAX_INT32
    ensures Accepts(Config(Native, o), PairBytes(o, name, elems, code, value) + post, elems, code, post)
  {
    PairRoundTrip(o, name, elems, code, value, post);
  }

  ghost predicate Accepts(c: Config, s: bytes, elems: nat, code: nat, post: bytes) {
    var r := ReadHead(c, s);
    r.Pair? && r.head.code == code && r.head.elems == elems && After(c, s, r.head) == post
  }

  lemma AcceptedSub(c: Config, s: bytes, post: bytes, n: nat)
    requires Accepts(c, s, 1, TYPE_NVLIST, post)
    ensures SkipAll(c, s, n + 1) == SkipAll(c, post, n + 2)
  {
    SkipSub(c, s, ReadHead(c, s).head, n);
  }

  lemma AcceptedSubs(c: Config, s: bytes, post: bytes, k: nat, n: nat)
    requires Accepts(c, s, k, TYPE_NVLIST_ARRAY, post)
    ensures SkipAll(c, s, n + 1) == SkipAll(c, post, k + (n + 1))
  {
    SkipSubs(c, s, ReadHead(c, s).head, n);
  }

  lemma ListPairVerdict(o: ByteOrder, name: bytes, t: Tree, post: bytes, n: nat)
    requires t.IsList() && |name| + 1 < MAX_INT16 && |post| >= 4 && Judged(name, t)
    ensures SkipAll(Config(Native, o), ListPair(o, name) + post, n + 1) == Judgement(o, Fits(name, t), post, n + 2)
  {
    if Fits(name, t) {
      var c, s := Config(Native, o), ListPair(o, name) + post;
      PairAccepted(o, name, 1, TYPE_NVLIST, ListHeader(o), post);
      AcceptedSub(c, s, post, n);
    } else {
      PairRejected(o, name, 1, TYPE_NVLIST, ListHeader(o), post, n);
    }
  }

  lemma ListsPairVerdict(o: ByteOrder, name: bytes, k: nat, value: bytes, post: bytes, n: nat)
    requires k < MAX_INT32 && |name| + 1 < MAX_INT16 && |post| >= 4 && PairSize(name, |value|) < 0x1_0000_0000
    requires Covered(name) || PairSize(name, |value|) <= 16 + |name|
    ensures SkipAll(Config(Native, o), PairBytes(o, name, k, TYPE_NVLIST_ARRAY, value) + post, n + 1)
         == Judgement(o, Covered(name) && k <= MAX_ELEMS && PairSize(name, |value|) <= MAX_INT32, post, k + (n + 1))
  {
    if Covered(name) && k <= MAX_ELEMS && PairSize(name, |value|) <= MAX_INT32 {
      var c, s := Config(Native, o), PairBytes(o, name, k, TYPE_NVLIST_ARRAY, value) + post;
      PairAccepted(o, name, k, TYPE_NVLIST_ARRAY, value, post);
      AcceptedSubs(c, s, post, k, n);
    } else {
      PairRejected(o, name, k, TYPE_NVLIST_ARRAY, value, post, n);
    }
  }

  // ---- Whole trees ----

  lemma LeafJudges(o: ByteOrder, name: bytes, l: Leaf, next: byte)
    requires |name| + 1 < MAX_INT16 && l != Bool(false)
    requires Judged(name, Tree.Prim(l)) && LeafTyped(l) && LeafElems(l) < MAX_INT32
    ensures EntryJudges(o, LeafPair(o, name, l), next, Fits(name, Tree.Prim(l)) && TextFits(l, next), 0)
  {
    var fits := Fits(name, Tree.Prim(l)) && TextFits(l, next);
    forall post, n: nat | |post| >= 4 && post[0] == next
      ensures Skips(o, LeafPair(o, name, l), post, n) == Judgement(o, fits, post, 0 + (n + 1))
    {
      LeafVerdict(o, name, l, post, n);
    }
  }

  lemma FloatJudges(o: ByteOrder, name: bytes, bits: nat)
    requires |name| + 1 < MAX_INT16 && Judged(name, Tree.Float64(bits))
    ensures PairJudges(o, FloatPair(o, name, bits), Fits(name, Tree.Float64(bits)), 0)
  {
    var fits := Fits(name, Tree.Float64(bits));
    forall post, n: nat | |post| >= 4
      ensures Skips(o, FloatPair(o, name, bits), post, n) == Judgement(o, fits, post, 0 + (n + 1))
    {
      FloatVerdict(o, name, bits, post, n);
    }
  }

  lemma ListPairJudges(o: ByteOrder, name: bytes, t: Tree)
    requires t.IsList() && |name| + 1 < MAX_INT16 && Judged(name, t)
    ensures PairJudges(o, ListPair(o, name), Fits(name, t), 1)
  {
    var fits := Fits(name, t);
    forall post, n: nat | |post| >= 4
      ensures Skips(o, ListPair(o, name), post, n) == Judgement(o, fits, post, 1 + (n + 1))
    {
      ListPairVerdict(o, name, t, post, n);
    }
  }

  lemma ListsPairJudges(o: ByteOrder, name: bytes, t: Tree)
    requires t.Lists? && |t.ts| < MAX_INT32 && |name| + 1 < MAX_INT16 && Judged(name, t)
    ensures PairJudges(o, ListsPair(o, name, |t.ts|), Fits(name, t), |t.ts|)
  {
    var k, fits := |t.ts|, Fits(name, t);
    var value := Zeros(8 * k) + ListHeaders(o, k);
    assert |value| == ValueSize(t);
    forall post, n: nat | |post| >= 4
      ensures Skips(o, ListsPair(o, name, k), post, n) == Judgement(o, fits, post, k + (n + 1))
    {
      ListsPairVerdict(o, name, k, value, post, n);
    }
  }

  /** One entry: rejected, or as many lists more to read as it holds nil lists. */
  lemma {:induction false} EntryVerdict(o: ByteOrder, e: Entry, next: byte)
    requires EntryFramed(true, e) && !NotWritten(e)
    ensures EntryJudges(o, EncodeEntry(o, e).data, next, EntryFits(o, e, next), EntryNils(e))
    decreases e
  {
    var name, t, fits, nils := EntryName(e), e.value, EntryFits(o, e, next), EntryNils(e);
    assert fits == (Fits(name, t) && TreeFits(o, t, next)) && nils == TreeNils(t);
    match t
    case Prim(l) => LeafJudges(o, name, l, next);
    case Float64(bits) =>
      FloatJudges(o, name, bits);
      AnyNext(o, FloatPair(o, name, bits), next, fits, nils);
    case Map(_) =>
      SubVerdict(o, name, t);
      AnyNext(o, ListPair(o, name) + EncodeList(o, t).data, next, fits, nils);
    case Struct(_) =>
      SubVerdict(o, name, t);
      AnyNext(o, ListPair(o, name) + EncodeList(o, t).data, next, fits, nils);
    case Lists(ts) =>
      SubsVerdict(o, name, t);
      assert EncodeEntry(o, e).data == ListsPair(o, name, |ts|) + EncodeLists(o, ts).data;
      AnyNext(o, ListsPair(o, name, |ts|) + EncodeLists(o, ts).data, next, fits, nils);
  }

  lemma AnyNext(o: ByteOrder, data: bytes, next: byte, fits: bool, more: nat)
    requires PairJudges(o, data, fits, more)
    ensures EntryJudges(o, data, next, fits, more)
  {}

  lemma {:induction false} SubVerdict(o: ByteOrder, name: bytes, t: Tree)
    requires t.IsList() && ListFramed(true, t) && Judged(name, t) && |name| + 1 < MAX_INT16
    ensures PairJudges(o, ListPair(o, name) + EncodeList(o, t).data, Fits(name, t) && ListFits(o, t), Nils(t))
    decreases t, 1
  {
    ListPairJudges(o, name, t);
    ListVerdict(o, t);
    JoinSub(o, ListPair(o, name), EncodeList(o, t).data, Fits(name, t), ListFits(o, t), Nils(t));
  }

  lemma {:induction false} SubsVerdict(o: ByteOrder, name: bytes, t: Tree)
    requires t.Lists? && TreeFramed(true, t) && Judged(name, t) && |name| + 1 < MAX_INT16
    ensures PairJudges(o, ListsPair(o, name, |t.ts|) + EncodeLists(o, t.ts).data, Fits(name, t) && ListsFit(o, t.ts), ListsNils(t.ts))
    decreases t, 1
  {
    var k := |t.ts|;
    ListsPairJudges(o, name, t);
    ListsVerdict(o, t.ts);
    JoinSubs(o, ListsPair(o, name, k), EncodeLists(o, t.ts).data, k, Fits(name, t), ListsFit(o, t.ts), ListsNils(t.ts));
  }

  lemma {:induction false} EntriesVerdict(o: ByteOrder, es: seq<Entry>)
    requires EntriesFramed(true, es)
    ensures ListJudges(o, EncodeEntries(o, es).data, EntriesFit(o, es), EntriesNils(es))
    decreases es
  {
    if es == [] {
      TrailerJudges(o);
    } else {
      EntriesFirst(true, es);
      EntriesVerdict(o, es[1..]);
      if NotWritten(es[0]) {
        EncodeUnwritten(o, es);
      } else {
        EntriesEncode(o, es[1..]);
        EntryVerdict(o, es[0], NextByte(o, es[1..]));
        var first, rest := EncodeEntry(o, es[0]).data, EncodeEntries(o, es[1..]).data;
        assert EncodeEntries(o, es).data == first + rest by {
          EntryEncodes(o, es[0]);
          EncodeWritten(o, es);
        }
        JoinFirst(o, es, first, rest);
      }
    }
  }

  lemma JoinFirst(o: ByteOrder, es: seq<Entry>, first: bytes, rest: bytes)
    requires es != [] && |rest| >= 4 && rest[0] == NextByte(o, es[1..])
    requires EntryJudges(o, first, rest[0], EntryFits(o, es[0], rest[0]), EntryNils(es[0]))
    requires ListJudges(o, rest, EntriesFit(o, es[1..]), EntriesNils(es[1..]))
    ensures ListJudges(o, first + rest, EntriesFit(o, es), EntriesNils(es))
  {
    var fits, nils := EntriesFit(o, es), EntriesNils(es);
    JoinEntries(o, first, rest, EntryFits(o, es[0], rest[0]), EntryNils(es[0]),
                EntriesFit(o, es[1..]), EntriesNils(es[1..]), fits, nils);
  }

  predicate ListsFit(o: ByteOrder, ts: seq<Tree>) {
    forall i :: 0 <= i < |ts| ==> ListFits(o, ts[i])
  }

  lemma {:induction false} ListsVerdict(o: ByteOrder, ts: seq<Tree>)
    requires forall i :: 0 <= i < |ts| ==> ListFramed(true, ts[i])
    ensures ListsJudge(o, EncodeLists(o, ts).data, |ts|, ListsFit(o, ts), ListsNils(ts))
    decreases ts
  {
    if ts == [] {
      NoneJudge(o, [], 0);
    } else {
      var t, tail := ts[0], ts[1..];
      assert forall i :: 1 <= i < |ts| ==> ts[i] == tail[i - 1];
      ListVerdict(o, t);
      ListsVerdict(o, tail);
      var first, rest := EncodeList(o, t).data, EncodeLists(o, tail).data;
      assert EncodeLists(o, ts).data == first + rest by {
        ListEncodes(o, t);
      }
      var fits, nils := ListsFit(o, ts), ListsNils(ts);
      assert fits == (ListFits(o, t) && ListsFit(o, tail));
      JoinElements(o, first, rest, |tail|, ListFits(o, t), Nils(t), ListsFit(o, tail), ListsNils(tail), |ts|, fits, nils);
    }
  }

  /**
   The bytes of a list, parsed as the first of some lists: a pair is rejected,
   or as many lists remain to be read behind them as there are nil lists in it.
   */
  lemma {:induction false} ListVerdict(o: ByteOrder, t: Tree)
    requires ListFramed(true, t)
    ensures ListJudges(o, EncodeList(o, t).data, ListFits(o, t), Nils(t))
    decreases t, 0
  {
    match t
    case Nil => NilJudges(o, []);
    case Map(es) => EntriesVerdict(o, es);
    case Struct(es) => EntriesVerdict(o, es);
  }

  lemma NothingLeft(c: Config, n: nat)
    ensures SkipAll(c, [], n) == if n == 0 then Rest([]) else Failed(Eof)
  {
    assert Parse(c, [], []) == BadList(Eof);
  }

  /**
   What becomes of every framed tree: it is marshalled without an error, and it
   decodes exactly if it is readable; a pair the reader cannot accept ends in
   InvalidData, and a missing trailer otherwise ends in end of file.
   */
  lemma DecodeOutcome(o: ByteOrder, t: Tree)
    requires ListFramed(true, t)
    ensures Marshal(o, t).Ok?
    ensures Unmarshal(Marshal(o, t).value) ==
      if !ListFits(o, t) then Err(InvalidData) else if Nils(t) > 0 then Err(Eof) else Ok(TreeMeaning(t))
    ensures Unmarshal(Marshal(o, t).value).Ok? <==> Readable(o, t)
  {
    var c, body := Config(Native, o), EncodeList(o, t).data;
    ListEncodes(o, t);
    ListVerdict(o, t);
    assert body + [] == body;
    assert Skips(o, body, [], 0) == Judgement(o, ListFits(o, t), [], Nils(t) + 0);
    NothingLeft(c, Nils(t));
    UnmarshalBody(o, body);
    assert SkipAll(c, body, 1) == Skip(c, body) by {
      SkipOne(c, body);
    }
    if Readable(o, t) {
      TreeOutcome(o, t, []);
      assert Marshal(o, t).value + [] == Marshal(o, t).value;
    }
  }

  lemma SkipOne(c: Config, s: bytes)
    ensures SkipAll(c, s, 1) == Skip(c, s)
  {
    if Skip(c, s).Rest? {
      assert SkipAll(c, Skip(c, s).rest, 0) == Rest(Skip(c, s).rest);
    }
  }

  lemma UnmarshalBody(o: ByteOrder, body: bytes)
    ensures ParseBuffer(BufferHeader(o) + body) == Parse(Config(Native, o), body, [])
  {
    HeaderRoundTrip(o, body);
    assert (BufferHeader(o) + body)[12..] == body;
  }
}
