/** What the nodes of a tree stand for besides addresses: slots alike in every bit that
    is not their address, and the tables that were read to find them. */
module TreeContents {
  import opened Words
  import opened Bits
  import opened Translation
  import opened PageTree

  // --- Slots folded into one node are alike ------------------------------------------

  /** The j'th word of a table is one of the slots this node stands for: the same kind
      and bits, and the address so many spans on. */
  ghost predicate SlotAlike(fmt: Format, words: seq<nat>, depth: nat, n: Node, j: nat)
    requires depth < fmt.geometry.Depth() && j < |words|
  {
    var d := Decode(fmt, words[j], depth);
    && d.kind == n.descriptor.kind
    && d.output == n.descriptor.output + (j - n.index) * fmt.geometry.Span(depth)
    && AndNot(words[j], fmt.outputMask) == AndNot(n.descriptor.raw, fmt.outputMask)
  }

  ghost predicate Alike(fmt: Format, words: seq<nat>, upto: nat, depth: nat, n: Node)
    requires depth < fmt.geometry.Depth() && upto <= |words|
  {
    && n.depth == depth && n.count > 0 && n.index + n.count <= upto
    && !n.descriptor.kind.Invalid? && (n.descriptor.kind.Table? ==> n.count == 1)
    && forall j :: n.index <= j < n.index + n.count ==> SlotAlike(fmt, words, depth, n, j)
  }

  ghost predicate AllAlike(fmt: Format, words: seq<nat>, upto: nat, depth: nat, nodes: seq<Node>)
    requires depth < fmt.geometry.Depth() && upto <= |words|
  {
    forall k :: 0 <= k < |nodes| ==> Alike(fmt, words, upto, depth, nodes[k])
  }

  lemma AlikeMore(fmt: Format, words: seq<nat>, upto: nat, depth: nat, n: Node)
    requires depth < fmt.geometry.Depth() && upto < |words| && Alike(fmt, words, upto, depth, n)
    ensures Alike(fmt, words, upto + 1, depth, n)
  {}

  lemma AllAlikeMore(fmt: Format, words: seq<nat>, upto: nat, depth: nat, nodes: seq<Node>)
    requires depth < fmt.geometry.Depth() && upto < |words| && AllAlike(fmt, words, upto, depth, nodes)
    ensures AllAlike(fmt, words, upto + 1, depth, nodes)
  {
    forall k | 0 <= k < |nodes| ensures Alike(fmt, words, upto + 1, depth, nodes[k]) {
      AlikeMore(fmt, words, upto, depth, nodes[k]);
    }
  }

  /** A node of its own for the slot at `upto`. */
  lemma AlikeAlone(fmt: Format, words: seq<nat>, upto: nat, depth: nat, n: Node)
    requires depth < fmt.geometry.Depth() && upto < |words|
    requires n.depth == depth && n.index == upto && n.count == 1 && n.descriptor == Decode(fmt, words[upto], depth)
    requires !n.descriptor.kind.Invalid?
    ensures Alike(fmt, words, upto + 1, depth, n)
  {
    assert n.descriptor.raw == words[upto];
  }

  /** A run and the slot after it. */
  lemma AlikeLonger(fmt: Format, words: seq<nat>, upto: nat, depth: nat, n: Node)
    requires depth < fmt.geometry.Depth() && upto < |words| && Alike(fmt, words, upto, depth, n)
    requires Decode(fmt, words[upto], depth).Maps()
    requires Extends(n, Decode(fmt, words[upto], depth), upto, fmt.geometry.Span(depth), fmt.outputMask)
    ensures Alike(fmt, words, upto + 1, depth, n.(count := n.count + 1))
  {
    var longer := n.(count := n.count + 1);
    forall j | longer.index <= j < longer.index + longer.count ensures SlotAlike(fmt, words, depth, longer, j) {
      if j < upto {
        assert SlotAlike(fmt, words, depth, n, j);
      } else {
        assert Decode(fmt, words[upto], depth).raw == words[upto];
      }
    }
  }

  /** What a table's nodes say of its slots, each says truly: no run joins slots of
      different kind or attributes, or addresses that do not follow. */
  lemma {:induction false} RunsAlike(r: Reader, fmt: Format, limit: nat, words: seq<nat>, upto: nat, depth: nat, base: nat,
                                     tally: Tally)
    requires depth < fmt.geometry.Depth() && upto <= |words|
    ensures AllAlike(fmt, words, upto, depth, Slots(r, fmt, limit, words, upto, depth, base, tally).0)
    decreases upto
  {
    if upto > 0 {
      RunsAlike(r, fmt, limit, words, upto - 1, depth, base, tally);
      var so := Slots(r, fmt, limit, words, upto - 1, depth, base, tally);
      OneMoreAlike(r, fmt, limit, words, upto - 1, depth, base, tally, so.0, so.1);
    }
  }

  lemma OneMoreAlike(r: Reader, fmt: Format, limit: nat, words: seq<nat>, upto: nat, depth: nat, base: nat, tally: Tally,
                     nodes: seq<Node>, before: Tally)
    requires depth < fmt.geometry.Depth() && upto < |words| && AllAlike(fmt, words, upto, depth, nodes)
    requires Slots(r, fmt, limit, words, upto, depth, base, tally) == (nodes, before)
    ensures AllAlike(fmt, words, upto + 1, depth, Slots(r, fmt, limit, words, upto + 1, depth, base, tally).0)
  {
    NextSlots(r, fmt, limit, words, upto, depth, base, tally, nodes, before);
    SlotAdds(r, fmt, limit, words, upto, depth, base, nodes, before);
  }

  lemma SlotAdds(r: Reader, fmt: Format, limit: nat, words: seq<nat>, index: nat, depth: nat, base: nat, nodes: seq<Node>,
                 tally: Tally)
    requires depth < fmt.geometry.Depth() && index < |words| && AllAlike(fmt, words, index, depth, nodes)
    ensures AllAlike(fmt, words, index + 1, depth, Slot(r, fmt, limit, words[index], index, depth, base, nodes, tally).0)
  {
    var d, at := Decode(fmt, words[index], depth), At(base, index, fmt.geometry.Span(depth));
    AllAlikeMore(fmt, words, index, depth, nodes);
    if d.kind.Invalid? {
      SkipSlot(r, fmt, limit, words[index], index, depth, base, nodes, tally);
    } else if d.kind.Table? {
      var below := Descend(r, fmt, limit, d.output, depth + 1, at, tally);
      BranchSlot(r, fmt, limit, words[index], index, depth, base, nodes, tally, below);
      AlikeAlone(fmt, words, index, depth, Node(depth, index, 1, at, d, below.0));
    } else {
      LeafSlot(r, fmt, limit, words[index], index, depth, base, nodes, tally);
      LeafAdds(fmt, words, index, depth, nodes, Node(depth, index, 1, at, d, []));
    }
  }

  lemma LeafAdds(fmt: Format, words: seq<nat>, index: nat, depth: nat, nodes: seq<Node>, leaf: Node)
    requires depth < fmt.geometry.Depth() && index < |words| && AllAlike(fmt, words, index, depth, nodes)
    requires leaf.depth == depth && leaf.index == index && leaf.count == 1
    requires leaf.descriptor == Decode(fmt, words[index], depth) && leaf.descriptor.Maps()
    ensures AllAlike(fmt, words, index + 1, depth, PushLeaf(nodes, leaf, fmt.geometry.Span(depth), fmt.outputMask))
  {
    AllAlikeMore(fmt, words, index, depth, nodes);
    AlikeAlone(fmt, words, index, depth, leaf);
    if nodes != [] && Extends(nodes[|nodes| - 1], leaf.descriptor, index, fmt.geometry.Span(depth), fmt.outputMask) {
      assert Alike(fmt, words, index, depth, nodes[|nodes| - 1]);
      AlikeLonger(fmt, words, index, depth, nodes[|nodes| - 1]);
    }
  }

  /** In the tree and in every table below it: the nodes of a table that could be read
      are true of its words. */
  lemma TableAlike(r: Reader, fmt: Format, limit: nat, table: nat, depth: nat, base: nat, tally: Tally)
    requires depth < fmt.geometry.Depth() && tally.read < limit
    requires ReadBytes(r, table, fmt.geometry.TableBytes()).Bytes?
    ensures var words := Unpack(ReadBytes(r, table, fmt.geometry.TableBytes()).data, fmt.geometry.entries);
            AllAlike(fmt, words, |words|, depth, Descend(r, fmt, limit, table, depth, base, tally).0)
  {
    var (words, after) := Fetch(r, fmt, limit, table, tally);
    RunsAlike(r, fmt, limit, words.value, |words.value|, depth, base, after);
  }

  /** So where attributes are read from those bits alone, a run shows each slot's. */
  lemma RunShowsAttributes(fmt: Format, words: seq<nat>, upto: nat, depth: nat, n: Node, j: nat)
    requires depth < fmt.geometry.Depth() && upto <= |words| && Alike(fmt, words, upto, depth, n) && n.descriptor.Maps()
    requires n.descriptor.attrs == fmt.attributes(n.descriptor.raw) && n.index <= j < n.index + n.count
    requires forall x, y :: AndNot(x, fmt.outputMask) == AndNot(y, fmt.outputMask) ==> fmt.attributes(x) == fmt.attributes(y)
    ensures Decode(fmt, words[j], depth).attrs == n.descriptor.attrs
  {
    assert SlotAlike(fmt, words, depth, n, j);
  }

  // --- How many tables were read --------------------------------------------------------

  /** The table descriptors in these nodes and below them. */
  function TablesIn(nodes: seq<Node>): nat
    decreases nodes, 0
  {
    if nodes == [] then 0 else TablesIn(nodes[..|nodes| - 1]) + TablesAt(nodes[|nodes| - 1])
  }

  function TablesAt(n: Node): nat
    decreases n, 1
  {
    if n.descriptor.kind.Table? then 1 + TablesIn(n.children) else 0
  }

  lemma TablesSnoc(nodes: seq<Node>, n: Node)
    ensures TablesIn(nodes + [n]) == TablesIn(nodes) + TablesAt(n)
  {
    assert (nodes + [n])[..|nodes|] == nodes;
  }

  lemma TablesLeaf(nodes: seq<Node>, leaf: Node, span: nat, mask: nat)
    requires leaf.descriptor.Maps()
    ensures TablesIn(PushLeaf(nodes, leaf, span, mask)) == TablesIn(nodes)
  {
    TablesSnoc(nodes, leaf);
    if nodes != [] && Extends(nodes[|nodes| - 1], leaf.descriptor, leaf.index, span, mask) {
      TablesSnoc(nodes[..|nodes| - 1], nodes[|nodes| - 1].(count := nodes[|nodes| - 1].count + 1));
      assert nodes == nodes[..|nodes| - 1] + [nodes[|nodes| - 1]];
    }
  }

  /** What a traversal may do to the count: no more than the limit are read, it is cut
      short only at the limit, and `tables` more were read if it was not. */
  ghost predicate Counted(limit: nat, before: Tally, after: Tally, tables: nat) {
    && before.read <= after.read && (after.read <= limit || after.read == before.read)
    && (before.truncated ==> after.truncated)
    && (after.truncated && !before.truncated ==> after.read >= limit)
    && (!after.truncated ==> after.read == before.read + tables)
  }

  lemma {:induction false} DescendCounts(r: Reader, fmt: Format, limit: nat, table: nat, depth: nat, base: nat, tally: Tally)
    requires depth < fmt.geometry.Depth()
    ensures var (nodes, after) := Descend(r, fmt, limit, table, depth, base, tally);
            Counted(limit, tally, after, 1 + TablesIn(nodes))
    decreases fmt.geometry.Depth() - depth, 1, 0
  {
    var (words, after) := Fetch(r, fmt, limit, table, tally);
    if words.Some? {
      SlotsCount(r, fmt, limit, words.value, |words.value|, depth, base, after);
    }
  }

  lemma {:induction false} SlotsCount(r: Reader, fmt: Format, limit: nat, words: seq<nat>, upto: nat, depth: nat, base: nat,
                                      tally: Tally)
    requires depth < fmt.geometry.Depth() && upto <= |words|
    ensures var (nodes, after) := Slots(r, fmt, limit, words, upto, depth, base, tally);
            Counted(limit, tally, after, TablesIn(nodes))
    decreases fmt.geometry.Depth() - depth, 0, upto
  {
    if upto > 0 {
      var (nodes, before) := Slots(r, fmt, limit, words, upto - 1, depth, base, tally);
      SlotsCount(r, fmt, limit, words, upto - 1, depth, base, tally);
      NextSlots(r, fmt, limit, words, upto - 1, depth, base, tally, nodes, before);
      SlotCounts(r, fmt, limit, words[upto - 1], upto - 1, depth, base, nodes, before);
    }
  }

  lemma {:induction false} SlotCounts(r: Reader, fmt: Format, limit: nat, word: nat, index: nat, depth: nat, base: nat,
                                      nodes: seq<Node>, tally: Tally)
    requires depth < fmt.geometry.Depth()
    ensures var (more, after) := Slot(r, fmt, limit, word, index, depth, base, nodes, tally);
            TablesIn(more) >= TablesIn(nodes) && Counted(limit, tally, after, TablesIn(more) - TablesIn(nodes))
    decreases fmt.geometry.Depth() - depth, 0, 0
  {
    var d, at := Decode(fmt, word, depth), At(base, index, fmt.geometry.Span(depth));
    if d.kind.Invalid? {
      SkipSlot(r, fmt, limit, word, index, depth, base, nodes, tally);
    } else if d.kind.Table? {
      var below := Descend(r, fmt, limit, d.output, depth + 1, at, tally);
      BranchSlot(r, fmt, limit, word, index, depth, base, nodes, tally, below);
      DescendCounts(r, fmt, limit, d.output, depth + 1, at, tally);
      TablesSnoc(nodes, Node(depth, index, 1, at, d, below.0));
    } else {
      LeafSlot(r, fmt, limit, word, index, depth, base, nodes, tally);
      TablesLeaf(nodes, Node(depth, index, 1, at, d, []), fmt.geometry.Span(depth), fmt.outputMask);
    }
  }

  /** A tree says how many tables it read: never more than the limit, short of it only
      if it is whole, and if it is whole the root and one for each table in it. */
  lemma TreeCounts(r: Reader, fmt: Format, root: nat, limit: nat)
    requires fmt.geometry.shifts != []
    ensures var tree := WholeTree(r, fmt, root, limit);
            && tree.read <= limit && (tree.truncated ==> tree.read == limit)
            && (!tree.truncated ==> tree.read == 1 + TablesIn(tree.nodes))
  {
    DescendCounts(r, fmt, limit, root, 0, 0, FRESH);
  }
}
