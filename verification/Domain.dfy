/**
 The trees that survive marshalling, and the wire items they become.
 */
module Domain {
  import opened Bytes
  import opened Consts
  import opened Values
  import opened Decoder
  import opened Encoder

  /** The size of a pair, from its name and the length of its value. */
  function PairSize(name: bytes, valueLen: nat): (r: nat)
    ensures r >= 16 + valueLen
  {
    16 + AlignUp(AlignUp(CStringLen(name), 8) + valueLen, 8)
  }

  lemma PairSizeAligned(name: bytes, valueLen: nat)
    ensures PairSize(name, valueLen) % 8 == 0
  {
    AlignUpMod(AlignUp(CStringLen(name), 8) + valueLen, 8);
  }

  function LeafSize(l: Leaf): nat {
    match l
    case Bool(_) => 0
    case Int(k, _) => k.Width()
    case Str(s) => CStringLen(s)
    case IntArray(k, ns) => k.Width() * |ns|
    case BoolArray(bs) => 4 * |bs|
    case StrArray(ss) => 8 * |ss| + CStringsSize(ss)
  }

  predicate NotWritten(e: Entry) {
    Dropped(e) || e.value == Tree.Prim(Bool(false))
  }

  /** Names are covered, strings NUL-free, names and arrays short enough, sizes fit int32, no unsupported kind. */
  predicate EntriesOk(es: seq<Entry>)
    decreases es
  {
    forall i :: 0 <= i < |es| ==> EntryOk(es[i])
  }

  predicate EntryOk(e: Entry)
    decreases e
  {
    || Dropped(e)
    || (&& |EntryName(e)| + 1 < MAX_INT16
        && (NotWritten(e) || (Covered(EntryName(e)) && TreeOk(EntryName(e), e.value))))
  }

  predicate TreeOk(name: bytes, t: Tree)
    decreases t, 1
  {
    match t
    case Nil => false
    case Unsupported(_) => false
    case Prim(l) => LeafDecoded(l) && PairSize(name, LeafSize(l)) <= MAX_INT32
    case Float64(_) => true
    case Map(_) => RootOk(t)
    case Struct(_) => RootOk(t)
    case Lists(ts) => |ts| <= MAX_ELEMS && forall i :: 0 <= i < |ts| ==> RootOk(ts[i])
  }

  /** A list that is not nil and whose entries are all in the domain. */
  predicate RootOk(t: Tree)
    decreases t, 0
  {
    match t
    case Map(es) => EntriesOk(es)
    case Struct(es) => EntriesOk(es)
    case _ => false
  }

  // ---- The trees that are judged ----

  function ValueSize(t: Tree): nat {
    match t
    case Prim(l) => LeafSize(l)
    case Float64(_) => 8
    case Lists(ts) => 32 * |ts|
    case _ => 24
  }

  function ValueElems(t: Tree): nat {
    match t
    case Prim(l) => LeafElems(l)
    case Lists(ts) => |ts|
    case _ => 1
  }

  /** The size does not wrap around, and a name that is not covered is longer than its whole pair. */
  predicate Judged(name: bytes, t: Tree) {
    && PairSize(name, ValueSize(t)) < 0x1_0000_0000
    && (Covered(name) || PairSize(name, ValueSize(t)) <= 16 + |name|)
  }

  /** The reader accepts the pair that announces the value. */
  predicate Fits(name: bytes, t: Tree) {
    Covered(name) && ValueElems(t) <= MAX_ELEMS && PairSize(name, ValueSize(t)) <= MAX_INT32
  }

  /** Written without an error anywhere; strings may hold NULs if nuls is set. */
  predicate EntriesFramed(nuls: bool, es: seq<Entry>)
    decreases es
  {
    forall i :: 0 <= i < |es| ==> EntryFramed(nuls, es[i])
  }

  predicate EntryFramed(nuls: bool, e: Entry)
    decreases e
  {
    || Dropped(e)
    || (&& |EntryName(e)| + 1 < MAX_INT16
        && (NotWritten(e) || (Judged(EntryName(e), e.value) && TreeFramed(nuls, e.value))))
  }

  predicate TreeFramed(nuls: bool, t: Tree)
    decreases t, 1
  {
    match t
    case Nil => false
    case Unsupported(_) => false
    case Prim(l) => LeafTyped(l) && LeafElems(l) < MAX_INT32 && (nuls || LeafPlain(l))
    case Float64(_) => true
    case Map(_) => ListFramed(nuls, t)
    case Struct(_) => ListFramed(nuls, t)
    case Lists(ts) => |ts| < MAX_INT32 && forall i :: 0 <= i < |ts| ==> ListFramed(nuls, ts[i])
  }

  predicate ListFramed(nuls: bool, t: Tree)
    decreases t, 0
  {
    match t
    case Nil => true
    case Map(es) => EntriesFramed(nuls, es)
    case Struct(es) => EntriesFramed(nuls, es)
    case _ => false
  }

  // ---- The two ways to fail ----

  /** The first byte of a pair or trailer behind an entry: of the size of the next pair that is written, or zero. */
  function NextByte(o: ByteOrder, es: seq<Entry>): byte
    decreases es, o
  {
    if es == [] then 0
    else if NotWritten(es[0]) then NextByte(o, es[1..])
    else LeadByte(o, PairSize(EntryName(es[0]), ValueSize(es[0].value)))
  }

  /** The first byte of a 32-bit number in the given order. */
  function LeadByte(o: ByteOrder, n: nat): byte {
    if o.LittleEndian? then n % 256 else n / 0x100_0000 % 256
  }

  /** Every written pair is accepted by the reader. */
  predicate EntriesFit(o: ByteOrder, es: seq<Entry>)
    decreases es
  {
    es == [] || (EntryFits(o, es[0], NextByte(o, es[1..])) && EntriesFit(o, es[1..]))
  }

  predicate EntryFits(o: ByteOrder, e: Entry, next: byte)
    decreases e
  {
    NotWritten(e) || (Fits(EntryName(e), e.value) && TreeFits(o, e.value, next))
  }

  predicate TreeFits(o: ByteOrder, t: Tree, next: byte)
    decreases t, 1
  {
    match t
    case Prim(l) => TextFits(l, next)
    case Map(_) => ListFits(o, t)
    case Struct(_) => ListFits(o, t)
    case Lists(ts) => forall i :: 0 <= i < |ts| ==> ListFits(o, ts[i])
    case _ => true
  }

  predicate ListFits(o: ByteOrder, t: Tree)
    decreases t, 0
  {
    match t
    case Map(es) => EntriesFit(o, es)
    case Struct(es) => EntriesFit(o, es)
    case _ => true
  }

  /** How many nil lists are announced by written entries, at every depth: each lacks a trailer. */
  function EntriesNils(es: seq<Entry>): nat
    decreases es
  {
    if es == [] then 0 else EntryNils(es[0]) + EntriesNils(es[1..])
  }

  function EntryNils(e: Entry): nat
    decreases e
  {
    if NotWritten(e) then 0 else TreeNils(e.value)
  }

  function TreeNils(t: Tree): nat
    decreases t, 1
  {
    match t
    case Map(_) => Nils(t)
    case Struct(_) => Nils(t)
    case Lists(ts) => ListsNils(ts)
    case _ => 0
  }

  function ListsNils(ts: seq<Tree>): nat
    decreases ts
  {
    if ts == [] then 0 else Nils(ts[0]) + ListsNils(ts[1..])
  }

  function Nils(t: Tree): nat
    decreases t, 0
  {
    match t
    case Nil => 1
    case Map(es) => EntriesNils(es)
    case Struct(es) => EntriesNils(es)
    case _ => 0
  }

  /** The trees that are written without an error and decode. */
  predicate Readable(o: ByteOrder, t: Tree) {
    ListFramed(true, t) && ListFits(o, t) && Nils(t) == 0
  }

  // ---- The domain is what is readable and holds no string with a NUL ----

  lemma {:induction false} OkIff(o: ByteOrder, t: Tree)
    ensures RootOk(t) <==> ListFramed(false, t) && ListFits(o, t) && Nils(t) == 0
    decreases t, 0
  {
    match t
    case Map(es) => EntriesOkIff(o, es);
    case Struct(es) => EntriesOkIff(o, es);
    case _ =>
  }

  lemma {:induction false} EntriesOkIff(o: ByteOrder, es: seq<Entry>)
    ensures EntriesOk(es) <==> EntriesFramed(false, es) && EntriesFit(o, es) && EntriesNils(es) == 0
    decreases es
  {
    if es != [] {
      EntryOkIff(o, es[0], NextByte(o, es[1..]));
      EntriesOkIff(o, es[1..]);
      EntriesFirst(false, es);
    }
  }

  lemma EntriesFirst(nuls: bool, es: seq<Entry>)
    requires es != []
    ensures EntriesOk(es) <==> EntryOk(es[0]) && EntriesOk(es[1..])
    ensures EntriesFramed(nuls, es) <==> EntryFramed(nuls, es[0]) && EntriesFramed(nuls, es[1..])
  {
    assert forall i :: 1 <= i < |es| ==> es[i] == es[1..][i - 1];
  }

  lemma {:induction false} EntryOkIff(o: ByteOrder, e: Entry, next: byte)
    ensures EntryOk(e) <==> EntryFramed(false, e) && EntryFits(o, e, next) && EntryNils(e) == 0
    decreases e
  {
    if !NotWritten(e) && |EntryName(e)| + 1 < MAX_INT16 {
      TreeOkIff(o, EntryName(e), e.value, next);
    }
  }

  lemma {:induction false} TreeOkIff(o: ByteOrder, name: bytes, t: Tree, next: byte)
    requires |name| + 1 < MAX_INT16
    ensures Covered(name) && TreeOk(name, t)
       <==> Judged(name, t) && TreeFramed(false, t) && Fits(name, t) && TreeFits(o, t, next) && TreeNils(t) == 0
    decreases t, 1
  {
    if ValueElems(t) <= MAX_ELEMS && !t.Prim? {
      SmallPair(name, t);
    }
    match t
    case Map(_) => OkIff(o, t);
    case Struct(_) => OkIff(o, t);
    case Lists(ts) => ListsOkIff(o, ts);
    case Prim(l) =>
      LeafOkIff(l);
      NoneMissing(LeafTexts(l));
    case _ =>
  }

  /** Only strings make a pair of the reader's elements too large. */
  lemma SmallPair(name: bytes, t: Tree)
    requires |name| + 1 < MAX_INT16 && ValueElems(t) <= MAX_ELEMS && !t.Prim?
    ensures PairSize(name, ValueSize(t)) <= MAX_INT32
  {}

  lemma LeafOkIff(l: Leaf)
    ensures LeafDecoded(l) <==> LeafTyped(l) && LeafPlain(l) && LeafElems(l) <= MAX_ELEMS
  {
    if l.Str? {
      assert LeafTexts(l)[0] == l.s;
    }
  }

  lemma {:induction false} ListsOkIff(o: ByteOrder, ts: seq<Tree>)
    ensures (forall i :: 0 <= i < |ts| ==> RootOk(ts[i]))
       <==> (forall i :: 0 <= i < |ts| ==> ListFramed(false, ts[i]) && ListFits(o, ts[i])) && ListsNils(ts) == 0
    decreases ts
  {
    if ts != [] {
      OkIff(o, ts[0]);
      ListsOkIff(o, ts[1..]);
      assert forall i :: 1 <= i < |ts| ==> ts[i] == ts[1..][i - 1];
    }
  }

  /** A tree without NULs in its strings is one of those that may have them. */
  lemma {:induction false} FramedEither(t: Tree)
    requires ListFramed(false, t)
    ensures ListFramed(true, t)
    decreases t, 0
  {
    if t.IsList() {
      forall i | 0 <= i < |t.entries|
        ensures EntryFramed(true, t.entries[i])
      {
        assert EntryFramed(false, t.entries[i]);
        EntryFramedEither(t.entries[i]);
      }
    }
  }

  lemma {:induction false} EntryFramedEither(e: Entry)
    requires EntryFramed(false, e)
    ensures EntryFramed(true, e)
    decreases e
  {
    if !NotWritten(e) {
      match e.value
      case Map(_) => FramedEither(e.value);
      case Struct(_) => FramedEither(e.value);
      case Lists(ts) =>
        forall i | 0 <= i < |ts|
          ensures ListFramed(true, ts[i])
        {
          FramedEither(ts[i]);
        }
      case _ =>
    }
  }

  /** The domain is readable in either byte order. */
  lemma OkReadable(o: ByteOrder, t: Tree)
    requires RootOk(t)
    ensures Readable(o, t)
  {
    OkIff(o, t);
    FramedEither(t);
  }

  // ---- The items a tree becomes on the wire ----

  function Project(es: seq<Entry>): seq<Item>
    decreases es
  {
    if es == [] then []
    else if NotWritten(es[0]) then Project(es[1..])
    else [ProjectEntry(es[0])] + Project(es[1..])
  }

  function ProjectEntry(e: Entry): Item
    decreases e
  {
    Item(ReadName(EntryName(e)),
         match e.value
         case Prim(l) => Single(ReadLeaf(l))
         case Map(_) => Sub(ProjectList(e.value))
         case Struct(_) => Sub(ProjectList(e.value))
         case Lists(ts) => Subs(ProjectAll(ts))
         case _ => Skipped)
  }

  function ProjectAll(ts: seq<Tree>): (bs: seq<Block>)
    ensures |bs| == |ts|
    decreases ts
  {
    if ts == [] then []
    else [ProjectList(ts[0])] + ProjectAll(ts[1..])
  }

  function ProjectList(t: Tree): Block
    decreases t
  {
    match t
    case Map(es) => Block(Project(es))
    case Struct(es) => Block(Project(es))
    case _ => Block([])
  }
}
