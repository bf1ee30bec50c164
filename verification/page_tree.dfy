/** The whole-tree walk: every mapping under one root, folded into runs. */
module PageTree {
  import opened Words
  import opened Bits
  import opened Translation

  /** `count` consecutive slots from `index` on, all decoding alike up to the output. */
  datatype Node = Node(
    depth: nat, index: nat, count: nat, base: nat, descriptor: Descriptor, children: seq<Node>)

  datatype Tree = Tree(root: nat, nodes: seq<Node>, read: nat, unreadable: seq<nat>, truncated: bool)

  /** What a traversal has spent and met so far. */
  datatype Tally = Tally(read: nat, unreadable: seq<nat>, truncated: bool)

  const FRESH := Tally(0, [], false)

  /** struct.unpack of a whole table. */
  function Unpack(raw: seq<byte>, count: nat): (r: seq<nat>)
    requires |raw| == count * DESCRIPTOR_BYTES
    ensures |r| == count
  {
    seq(count, i requires 0 <= i < count => FromLE(raw[i * DESCRIPTOR_BYTES..i * DESCRIPTOR_BYTES + DESCRIPTOR_BYTES]))
  }

  /** One table, if the limit still allows it and the reader still gives it. */
  function Fetch(r: Reader, fmt: Format, limit: nat, pa: nat, tally: Tally): (res: (Option<seq<nat>>, Tally))
    ensures res.0.Some? ==> |res.0.value| == fmt.geometry.entries
  {
    if tally.read >= limit then (None, tally.(truncated := true))
    else
      var counted := tally.(read := tally.read + 1);
      match ReadBytes(r, pa, fmt.geometry.TableBytes())
      case Bytes(raw) => (Some(Unpack(raw, fmt.geometry.entries)), counted)
      case _ => (None, counted.(unreadable := counted.unreadable + [pa]))
  }

  /** A run goes on while index, output and attributes follow its last slot's. */
  predicate Extends(node: Node, descriptor: Descriptor, index: nat, span: nat, outputMask: nat) {
    && node.descriptor.kind == descriptor.kind
    && node.index + node.count == index
    && node.descriptor.output + node.count * span == descriptor.output
    && AndNot(node.descriptor.raw, outputMask) == AndNot(descriptor.raw, outputMask)
  }

  /** Where slot i of a table that covers from `base` begins. */
  function At(base: nat, i: nat, span: nat): nat { base + i * span }

  function Descend(r: Reader, fmt: Format, limit: nat, table: nat, depth: nat, base: nat, tally: Tally)
    : (seq<Node>, Tally)
    requires depth < fmt.geometry.Depth()
    decreases fmt.geometry.Depth() - depth, 1, 0
  {
    match Fetch(r, fmt, limit, table, tally)
    case (None, after) => ([], after)
    case (Some(words), after) => Slots(r, fmt, limit, words, |words|, depth, base, after)
  }

  /** The nodes of the first `upto` slots of a table. */
  function Slots(r: Reader, fmt: Format, limit: nat, words: seq<nat>, upto: nat, depth: nat, base: nat, tally: Tally)
    : (seq<Node>, Tally)
    requires depth < fmt.geometry.Depth() && upto <= |words|
    decreases fmt.geometry.Depth() - depth, 0, upto
  {
    if upto == 0 then ([], tally)
    else
      var (nodes, before) := Slots(r, fmt, limit, words, upto - 1, depth, base, tally);
      Slot(r, fmt, limit, words[upto - 1], upto - 1, depth, base, nodes, before)
  }

  /** One more slot onto the nodes so far. */
  function Slot(r: Reader, fmt: Format, limit: nat, word: nat, index: nat, depth: nat, base: nat,
                nodes: seq<Node>, tally: Tally): (seq<Node>, Tally)
    requires depth < fmt.geometry.Depth()
    decreases fmt.geometry.Depth() - depth, 0, 0
  {
    var descriptor := Decode(fmt, word, depth);
    var span := fmt.geometry.Span(depth);
    var at := At(base, index, span);
    if descriptor.kind.Invalid? then (nodes, tally)
    else if descriptor.kind.Table? then
      var (under, after) := Descend(r, fmt, limit, descriptor.output, depth + 1, at, tally);
      (nodes + [Node(depth, index, 1, at, descriptor, under)], after)
    else (PushLeaf(nodes, Node(depth, index, 1, at, descriptor, []), span, fmt.outputMask), tally)
  }

  /** A further leaf slot lengthens the last run or starts one. */
  function PushLeaf(nodes: seq<Node>, leaf: Node, span: nat, outputMask: nat): seq<Node> {
    if nodes != [] && Extends(nodes[|nodes| - 1], leaf.descriptor, leaf.index, span, outputMask) then
      var last := nodes[|nodes| - 1];
      nodes[..|nodes| - 1] + [last.(count := last.count + 1)]
    else nodes + [leaf]
  }

  function WholeTree(r: Reader, fmt: Format, root: nat, limit: nat): Tree
    requires fmt.geometry.shifts != []
  {
    var (nodes, tally) := Descend(r, fmt, limit, root, 0, 0, FRESH);
    Tree(root, nodes, tally.read, tally.unreadable, tally.truncated)
  }

  lemma NextSlots(r: Reader, fmt: Format, limit: nat, words: seq<nat>, index: nat, depth: nat, base: nat, tally: Tally,
                  nodes: seq<Node>, before: Tally)
    requires depth < fmt.geometry.Depth() && index < |words|
    requires (nodes, before) == Slots(r, fmt, limit, words, index, depth, base, tally)
    ensures Slots(r, fmt, limit, words, index + 1, depth, base, tally) ==
            Slot(r, fmt, limit, words[index], index, depth, base, nodes, before)
  {}

  // The three kinds of slot.

  lemma SkipSlot(r: Reader, fmt: Format, limit: nat, word: nat, index: nat, depth: nat, base: nat, nodes: seq<Node>,
                 tally: Tally)
    requires depth < fmt.geometry.Depth() && Decode(fmt, word, depth).kind.Invalid?
    ensures Slot(r, fmt, limit, word, index, depth, base, nodes, tally) == (nodes, tally)
  {}

  lemma BranchSlot(r: Reader, fmt: Format, limit: nat, word: nat, index: nat, depth: nat, base: nat, nodes: seq<Node>,
                   tally: Tally, below: (seq<Node>, Tally))
    requires depth + 1 < fmt.geometry.Depth() && Decode(fmt, word, depth).kind.Table?
    requires var at := At(base, index, fmt.geometry.Span(depth));
             below == Descend(r, fmt, limit, Decode(fmt, word, depth).output, depth + 1, at, tally)
    ensures var at := At(base, index, fmt.geometry.Span(depth));
            Slot(r, fmt, limit, word, index, depth, base, nodes, tally) ==
            (nodes + [Node(depth, index, 1, at, Decode(fmt, word, depth), below.0)], below.1)
  {}

  lemma LeafSlot(r: Reader, fmt: Format, limit: nat, word: nat, index: nat, depth: nat, base: nat, nodes: seq<Node>,
                 tally: Tally)
    requires depth < fmt.geometry.Depth() && Decode(fmt, word, depth).Maps()
    ensures var at, span := At(base, index, fmt.geometry.Span(depth)), fmt.geometry.Span(depth);
            Slot(r, fmt, limit, word, index, depth, base, nodes, tally) ==
            (PushLeaf(nodes, Node(depth, index, 1, at, Decode(fmt, word, depth), []), span, fmt.outputMask), tally)
  {}

  /** The last run, replaced by one a slot longer, or a new one. */
  method Lengthen(nodes: seq<Node>, leaf: Node, span: nat, outputMask: nat) returns (more: seq<Node>)
    ensures more == PushLeaf(nodes, leaf, span, outputMask)
  {
    more := nodes;
    if more != [] && Extends(more[|more| - 1], leaf.descriptor, leaf.index, span, outputMask) {
      var last := more[|more| - 1];
      more := more[..|more| - 1] + [last.(count := last.count + 1)];
    } else {
      more := more + [leaf];
    }
  }

  // --- The traversal as it runs --------------------------------------------------

  class Walk {
    const reader: Reader
    const fmt: Format
    const limit: nat
    var read: nat
    var unreadable: seq<nat>
    var truncated: bool

    constructor (reader: Reader, fmt: Format, limit: nat)
      ensures this.reader == reader && this.fmt == fmt && this.limit == limit && Tallied() == FRESH
    {
      this.reader, this.fmt, this.limit := reader, fmt, limit;
      read, unreadable, truncated := 0, [], false;
    }

    function Tallied(): Tally
      reads this
    {
      Tally(read, unreadable, truncated)
    }

    method Table(pa: nat) returns (words: Option<seq<nat>>)
      modifies this
      ensures (words, Tallied()) == Fetch(reader, fmt, limit, pa, old(Tallied()))
    {
      if read >= limit {
        truncated := true;
        return None;
      }
      read := read + 1;
      var raw := ReadBytes(reader, pa, fmt.geometry.TableBytes());
      if !raw.Bytes? {
        unreadable := unreadable + [pa];
        return None;
      }
      return Some(Unpack(raw.data, fmt.geometry.entries));
    }

    method DescendTable(table: nat, depth: nat, base: nat) returns (nodes: seq<Node>)
      requires depth < fmt.geometry.Depth()
      modifies this
      ensures (nodes, Tallied()) == Descend(reader, fmt, limit, table, depth, base, old(Tallied()))
      decreases fmt.geometry.Depth() - depth
    {
      var words := Table(table);
      if words.None? {
        return [];
      }
      ghost var after := Tallied();
      var span := fmt.geometry.Span(depth);
      nodes := [];
      var index := 0;
      while index < |words.value|
        invariant index <= |words.value|
        invariant (nodes, Tallied()) == Slots(reader, fmt, limit, words.value, index, depth, base, after)
      {
        ghost var seen, before := nodes, Tallied();
        var descriptor := Decode(fmt, words.value[index], depth);
        var at := At(base, index, span);
        if descriptor.kind.Invalid? {
          // most of every table
          SkipSlot(reader, fmt, limit, words.value[index], index, depth, base, seen, before);
        } else if descriptor.kind.Table? {
          var under := DescendTable(descriptor.output, depth + 1, at);
          nodes := nodes + [Node(depth, index, 1, at, descriptor, under)];
          BranchSlot(reader, fmt, limit, words.value[index], index, depth, base, seen, before, (under, Tallied()));
        } else {
          nodes := Lengthen(nodes, Node(depth, index, 1, at, descriptor, []), span, fmt.outputMask);
          LeafSlot(reader, fmt, limit, words.value[index], index, depth, base, seen, before);
        }
        assert (nodes, Tallied()) == Slot(reader, fmt, limit, words.value[index], index, depth, base, seen, before);
        NextSlots(reader, fmt, limit, words.value, index, depth, base, after, seen, before);
        index := index + 1;
      }
    }
  }

  method BuildTree(r: Reader, fmt: Format, root: nat, limit: nat) returns (tree: Tree)
    requires fmt.geometry.shifts != []
    ensures tree == WholeTree(r, fmt, root, limit)
  {
    var walk := new Walk(r, fmt, limit);
    var nodes := walk.DescendTable(root, 0, 0);
    tree := Tree(root, nodes, walk.read, walk.unreadable, walk.truncated);
  }
}
