/**
 What every successful decode guarantees, in both encodings: the form of the
 value, and bounds on how many pairs and lists an input of given length holds.
 */
module Shape {
  import opened Bytes
  import opened Consts
  import opened Values
  import opened Decoder
  import opened RoundTrip

  // ---- Form of the items ----

  predicate ItemOk(it: Item)
    decreases it
  {
    && |it.name| < MAX_INT16
    && match it.node
       case Skipped => true
       case Single(l) => LeafDecoded(l)
       case Sub(b) => ItemsOk(b.items)
       case Subs(bs) => |bs| <= MAX_ELEMS && BlocksOk(bs)
  }

  predicate ItemsOk(items: seq<Item>)
    decreases items
  {
    forall i :: 0 <= i < |items| ==> ItemOk(items[i])
  }

  predicate BlocksOk(bs: seq<Block>)
    decreases bs
  {
    forall i :: 0 <= i < |bs| ==> ItemsOk(bs[i].items)
  }

  // ---- Form of the value ----

  /** Short keys, decoded leaves, lists of lists: nothing else comes out of the decoder. */
  predicate MapDecoded(m: map<bytes, Value>)
  {
    forall k :: k in m ==> |k| < MAX_INT16 && ValueDecodedForm(m[k])
  }

  predicate ValueDecodedForm(v: Value)
    decreases v
  {
    match v
    case Prim(l) => LeafDecoded(l)
    case Map(m) => forall k :: k in m ==> |k| < MAX_INT16 && ValueDecodedForm(m[k])
    case Lists(vs) => |vs| <= MAX_ELEMS && forall i :: 0 <= i < |vs| ==> vs[i].Map? && ValueDecodedForm(vs[i])
    case _ => false
  }

  lemma {:induction false} BuildDecoded(items: seq<Item>)
    requires ItemsOk(items)
    ensures MapDecoded(Build(map[], items))
    decreases items
  {
    if items != [] {
      var front, it := items[..|items| - 1], items[|items| - 1];
      BuildDecoded(front);
      AddDecoded(Build(map[], front), it);
    }
  }

  lemma {:induction false} AddDecoded(m: map<bytes, Value>, it: Item)
    requires MapDecoded(m) && ItemOk(it)
    ensures MapDecoded(AddItem(m, it))
    decreases it
  {
    match it.node
    case Skipped =>
    case Single(l) =>
    case Sub(b) => BuildDecoded(b.items);
    case Subs(bs) => BuildAllDecoded(bs);
  }

  lemma {:induction false} BuildAllDecoded(bs: seq<Block>)
    requires |bs| <= MAX_ELEMS && BlocksOk(bs)
    ensures ValueDecodedForm(Value.Lists(BuildAll(bs)))
    decreases bs
  {
    var vs := BuildAll(bs);
    forall i | 0 <= i < |bs|
      ensures vs[i].Map? && ValueDecodedForm(vs[i])
    {
      BuildDecoded(bs[i].items);
    }
  }

  lemma ItemsOkAppend(items: seq<Item>, it: Item)
    requires ItemsOk(items) && ItemOk(it)
    ensures ItemsOk(items + [it])
  {}

  lemma {:induction false} ParseOk(c: Config, s: bytes, acc: seq<Item>)
    requires ItemsOk(acc) && Parse(c, s, acc).Parsed?
    ensures ItemsOk(Parse(c, s, acc).items)
    decreases |s|, 1
  {
    var step := ReadHead(c, s);
    if step.Pair? {
      var out := ReadNode(c, s, step.head);
      var item := Item(step.head.name, out.node);
      NodeOk(c, s, step.head);
      ItemsOkAppend(acc, item);
      ParseOk(c, out.rest, acc + [item]);
    }
  }

  lemma {:induction false} NodeOk(c: Config, s: bytes, h: Head)
    requires HeadOk(s, h) && ReadNode(c, s, h).GotNode?
    ensures ItemOk(Item(h.name, ReadNode(c, s, h).node))
    decreases |s|, 0
  {
    var t := After(c, s, h);
    if h.code == TYPE_NVLIST {
      ParseOk(c, t, []);
    } else if h.code == TYPE_NVLIST_ARRAY {
      ParseAllOk(c, t, h.elems, []);
    } else {
      ValueDecoded(c, s, h);
    }
  }

  lemma {:induction false} ParseAllOk(c: Config, s: bytes, n: nat, acc: seq<Block>)
    requires BlocksOk(acc) && ParseAll(c, s, n, acc).ParsedAll?
    ensures BlocksOk(ParseAll(c, s, n, acc).blocks) && |ParseAll(c, s, n, acc).blocks| == |acc| + n
    decreases |s|, 2
  {
    if n == 0 {
      assert ParseAll(c, s, 0, acc) == ParsedAll(acc, s);
    } else {
      var sub := Parse(c, s, []);
      ParseOk(c, s, []);
      AllStep(c, s, n, acc, sub.items, sub.rest);
      ParseAllOk(c, sub.rest, n - 1, acc + [Block(sub.items)]);
    }
  }

  /** Every decoded value has NUL-free strings, in-range integers and at most 65535 elements per array. */
  lemma UnmarshalForm(data: bytes)
    requires Unmarshal(data).Ok?
    ensures Unmarshal(data).value.Map? && ValueDecodedForm(Unmarshal(data).value)
  {
    var c := ReadHeader(data).value;
    ParseOk(c, data[12..], []);
    BuildDecoded(ParseBuffer(data).items);
  }

  // ---- Resource bound ----

  /** What one pair and one list count for. */
  datatype Weights = Weights(pair: nat, list: nat)

  /** The weight of the pairs and nested lists below some items, at every depth. */
  function Weigh(w: Weights, items: seq<Item>): nat
    decreases items, w
  {
    if items == [] then 0
    else Weigh(w, items[..|items| - 1]) + WeighItem(w, items[|items| - 1])
  }

  function WeighItem(w: Weights, it: Item): nat
    decreases it, w
  {
    match it.node
    case Sub(b) => w.pair + w.list + Weigh(w, b.items)
    case Subs(bs) => w.pair + WeighBlocks(w, bs)
    case _ => w.pair
  }

  function WeighBlocks(w: Weights, bs: seq<Block>): nat
    decreases bs, w
  {
    if bs == [] then 0
    else WeighBlocks(w, bs[..|bs| - 1]) + w.list + Weigh(w, bs[|bs| - 1].items)
  }

  function PairCount(items: seq<Item>): nat {
    Weigh(Weights(1, 0), items)
  }

  function ListCount(items: seq<Item>): nat {
    Weigh(Weights(0, 1), items)
  }

  predicate Sums(w: Weights, p: Weights, l: Weights) {
    w.pair == 17 && w.list == 4 && p.pair == 1 && p.list == 0 && l.pair == 0 && l.list == 1
  }

  lemma {:induction false} WeighSum(w: Weights, p: Weights, l: Weights, items: seq<Item>)
    requires Sums(w, p, l)
    ensures Weigh(w, items) == 17 * Weigh(p, items) + 4 * Weigh(l, items)
    decreases items
  {
    if items != [] {
      WeighSum(w, p, l, items[..|items| - 1]);
      var it := items[|items| - 1];
      match it.node
      case Sub(b) => WeighSum(w, p, l, b.items);
      case Subs(bs) => WeighBlocksSum(w, p, l, bs);
      case _ =>
    }
  }

  lemma {:induction false} WeighBlocksSum(w: Weights, p: Weights, l: Weights, bs: seq<Block>)
    requires Sums(w, p, l)
    ensures WeighBlocks(w, bs) == 17 * WeighBlocks(p, bs) + 4 * WeighBlocks(l, bs)
    decreases bs
  {
    if bs != [] {
      WeighBlocksSum(w, p, l, bs[..|bs| - 1]);
      WeighSum(w, p, l, bs[|bs| - 1].items);
    }
  }

  /** How many lists deep the items nest; 0 when they hold none. */
  function Depth(items: seq<Item>): nat
    decreases items
  {
    if items == [] then 0
    else Max(Depth(items[..|items| - 1]), NodeDepth(items[|items| - 1]))
  }

  function NodeDepth(it: Item): nat
    decreases it
  {
    match it.node
    case Sub(b) => 1 + Depth(b.items)
    case Subs(bs) => BlocksDepth(bs)
    case _ => 0
  }

  function BlocksDepth(bs: seq<Block>): nat
    decreases bs
  {
    if bs == [] then 0
    else Max(BlocksDepth(bs[..|bs| - 1]), 1 + Depth(bs[|bs| - 1].items))
  }

  function Max(a: nat, b: nat): nat {
    if a < b then b else a
  }

  /** Every level of nesting holds a pair and a list. */
  lemma {:induction false} DepthBound(w: Weights, items: seq<Item>)
    requires w.pair + w.list == 1
    ensures Depth(items) <= Weigh(w, items)
    decreases items
  {
    if items != [] {
      DepthBound(w, items[..|items| - 1]);
      var it := items[|items| - 1];
      match it.node
      case Sub(b) => DepthBound(w, b.items);
      case Subs(bs) => BlocksDepthBound(w, bs);
      case _ =>
    }
  }

  lemma {:induction false} BlocksDepthBound(w: Weights, bs: seq<Block>)
    requires w.pair + w.list == 1
    ensures BlocksDepth(bs) <= WeighBlocks(w, bs) + w.pair
    decreases bs
  {
    if bs != [] {
      BlocksDepthBound(w, bs[..|bs| - 1]);
      DepthBound(w, bs[|bs| - 1].items);
    }
  }

  lemma WeighAppend(w: Weights, items: seq<Item>, it: Item)
    ensures Weigh(w, items + [it]) == Weigh(w, items) + WeighItem(w, it)
  {
    var all := items + [it];
    assert all[..|all| - 1] == items && all[|all| - 1] == it;
  }

  lemma WeighBlocksAppend(w: Weights, bs: seq<Block>, b: Block)
    ensures WeighBlocks(w, bs + [b]) == WeighBlocks(w, bs) + w.list + Weigh(w, b.items)
  {
    var all := bs + [b];
    assert all[..|all| - 1] == bs && all[|all| - 1] == b;
  }

  /** A list takes at least 17 bytes per pair and 4 per list, itself included. */
  lemma {:induction false} ParseCost(w: Weights, c: Config, s: bytes, acc: seq<Item>, items: seq<Item>, rest: bytes)
    requires w.pair <= 17 && w.list <= 4
    requires Parse(c, s, acc) == Parsed(items, rest)
    ensures Weigh(w, items) + w.list + |rest| <= |s| + Weigh(w, acc)
    decreases |s|, 1
  {
    var step := ReadHead(c, s);
    if step.Pair? {
      var out := ReadNode(c, s, step.head);
      var item := Item(step.head.name, out.node);
      NodeCost(w, c, s, step.head, out.node, out.rest);
      WeighAppend(w, acc, item);
      ParseCost(w, c, out.rest, acc + [item], items, rest);
    }
  }

  lemma {:induction false} NodeCost(w: Weights, c: Config, s: bytes, h: Head, node: Node, rest: bytes)
    requires w.pair <= 17 && w.list <= 4
    requires HeadOk(s, h) && ReadNode(c, s, h) == GotNode(node, rest)
    ensures WeighItem(w, Item(h.name, node)) + |rest| <= |s|
    decreases |s|, 0
  {
    var t := After(c, s, h);
    if h.code == TYPE_NVLIST {
      ParseCost(w, c, t, [], node.block.items, rest);
    } else if h.code == TYPE_NVLIST_ARRAY {
      ParseAllCost(w, c, t, h.elems, [], node.blocks, rest);
    } else {
      assert node.Skipped? || node.Single?;
    }
  }

  lemma {:induction false} ParseAllCost(w: Weights, c: Config, s: bytes, n: nat, acc: seq<Block>, blocks: seq<Block>, rest: bytes)
    requires w.pair <= 17 && w.list <= 4
    requires ParseAll(c, s, n, acc) == ParsedAll(blocks, rest)
    ensures WeighBlocks(w, blocks) + |rest| <= |s| + WeighBlocks(w, acc)
    decreases |s|, 2
  {
    if n == 0 {
      assert ParseAll(c, s, 0, acc) == ParsedAll(acc, s);
    } else {
      var sub := Parse(c, s, []);
      AllStep(c, s, n, acc, sub.items, sub.rest);
      WeighBlocksAppend(w, acc, Block(sub.items));
      ParseCost(w, c, s, [], sub.items, sub.rest);
      ParseAllCost(w, c, sub.rest, n - 1, acc + [Block(sub.items)], blocks, rest);
    }
  }

  lemma BufferCost(w: Weights, data: bytes)
    requires w.pair <= 17 && w.list <= 4 && ParseBuffer(data).Parsed?
    ensures 12 + Weigh(w, ParseBuffer(data).items) + w.list <= |data|
  {
    var out := ParseBuffer(data);
    ParseCost(w, ReadHeader(data).value, data[12..], [], out.items, out.rest);
  }

  /**
   Linear bound on pairs and lists (the root counted) and on nesting depth, for
   every input that decodes, in either encoding.
   */
  lemma ResourceBound(data: bytes)
    requires ParseBuffer(data).Parsed?
    ensures var items := ParseBuffer(data).items;
      && 12 + 17 * PairCount(items) + 4 * (1 + ListCount(items)) <= |data|
      && 16 + 21 * Depth(items) <= |data|
  {
    var items := ParseBuffer(data).items;
    var w, p, l := Weights(17, 4), Weights(1, 0), Weights(0, 1);
    BufferCost(w, data);
    WeighSum(w, p, l, items);
    DepthBound(p, items);
    DepthBound(l, items);
  }
}
