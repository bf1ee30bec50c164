/** Which addresses a tree reaches, as intervals, and how two translations of one
    machine differ. */
module Windows {
  import opened Words
  import opened Sorting
  import opened Bits
  import opened Translation
  import opened PageTree
  import opened PageWalks
  import opened Geometries

  datatype Span = Span(start: nat, end: nat)
  {
    predicate Has(a: nat) { start <= a < end }
  }

  predicate InSpans(spans: seq<Span>, a: nat) {
    exists k :: 0 <= k < |spans| && spans[k].Has(a)
  }

  /** In order, none empty, and with room between each and the next. */
  ghost predicate Separated(spans: seq<Span>) {
    && (forall k :: 0 <= k < |spans| ==> spans[k].start < spans[k].end)
    && (forall j, k :: 0 <= j < k < |spans| ==> spans[j].end < spans[k].start)
  }

  // --- One list for one set of addresses -------------------------------------------

  /** Two such lists of the same addresses are the same list. */
  lemma {:induction false} OneListPerSet(s: seq<Span>, t: seq<Span>)
    requires Separated(s) && Separated(t) && forall a: nat :: InSpans(s, a) <==> InSpans(t, a)
    ensures s == t
    decreases |s|
  {
    if s == [] && t == [] {
    } else if s == [] {
      FirstIsIn(t);
    } else if t == [] {
      FirstIsIn(s);
    } else {
      SameFirst(s, t);
      forall a: nat ensures InSpans(s[1..], a) <==> InSpans(t[1..], a) {
        assert InSpans(s, a) <==> InSpans(t, a);
        RestOf(s, a);
        RestOf(t, a);
      }
      OneListPerSet(s[1..], t[1..]);
      assert s == [s[0]] + s[1..] && t == [t[0]] + t[1..];
    }
  }

  lemma FirstIsIn(s: seq<Span>)
    requires Separated(s) && s != []
    ensures InSpans(s, s[0].start)
  {
    assert s[0].Has(s[0].start);
  }

  lemma RestOf(s: seq<Span>, a: nat)
    requires Separated(s) && s != []
    ensures InSpans(s[1..], a) <==> InSpans(s, a) && !s[0].Has(a)
  {
    if InSpans(s[1..], a) {
      var k :| 0 <= k < |s[1..]| && s[1..][k].Has(a);
      assert s[k + 1].Has(a);
    }
    if InSpans(s, a) && !s[0].Has(a) {
      var k :| 0 <= k < |s| && s[k].Has(a);
      assert s[1..][k - 1].Has(a);
    }
  }

  lemma SameFirst(s: seq<Span>, t: seq<Span>)
    requires Separated(s) && Separated(t) && s != [] && t != []
    requires forall a: nat :: InSpans(s, a) <==> InSpans(t, a)
    ensures s[0] == t[0]
  {
    FirstNotAfter(s, t);
    FirstNotAfter(t, s);
    FirstNotShorter(s, t);
    FirstNotShorter(t, s);
  }

  lemma FirstNotAfter(s: seq<Span>, t: seq<Span>)
    requires Separated(s) && Separated(t) && s != [] && t != []
    requires forall a: nat :: InSpans(s, a) <==> InSpans(t, a)
    ensures s[0].start <= t[0].start
  {
    assert t[0].Has(t[0].start);
    assert InSpans(s, t[0].start);
    var k :| 0 <= k < |s| && s[k].Has(t[0].start);
    assert k > 0 ==> s[0].end < s[k].start;
  }

  lemma GapAfterFirst(s: seq<Span>)
    requires Separated(s) && s != []
    ensures !InSpans(s, s[0].end)
  {
    forall k | 0 <= k < |s| ensures !s[k].Has(s[0].end) {
      assert k > 0 ==> s[0].end < s[k].start;
    }
  }

  lemma FirstNotShorter(s: seq<Span>, t: seq<Span>)
    requires Separated(s) && Separated(t) && s != [] && t != [] && s[0].start == t[0].start
    requires forall a: nat :: InSpans(s, a) <==> InSpans(t, a)
    ensures s[0].end >= t[0].end
  {
    GapAfterFirst(s);
    if s[0].end < t[0].end {
      assert t[0].Has(s[0].end);
    }
  }

  // --- Sorting -----------------------------------------------------------------------

  predicate Before(x: Span, y: Span) { x.start < y.start || (x.start == y.start && x.end <= y.end) }

  ghost predicate InOrder(spans: seq<Span>) { Sorted(spans, Before) }

  lemma SameMembers(s: seq<Span>, t: seq<Span>, a: nat)
    requires multiset(s) == multiset(t)
    ensures InSpans(s, a) <==> InSpans(t, a)
  {
    if InSpans(s, a) { Carried(s, t, a); }
    if InSpans(t, a) { Carried(t, s, a); }
  }

  lemma Carried(s: seq<Span>, t: seq<Span>, a: nat)
    requires multiset(s) == multiset(t) && InSpans(s, a)
    ensures InSpans(t, a)
  {
    var k :| 0 <= k < |s| && s[k].Has(a);
    assert s[k] in multiset(s);
    assert s[k] in multiset(t);
    var j :| 0 <= j < |t| && t[j] == s[k];
  }

  // --- Merging -----------------------------------------------------------------------

  /** Overlapping and touching spans become one. */
  method Merge(spans: seq<Span>) returns (merged: seq<Span>)
    requires InOrder(spans) && forall k :: 0 <= k < |spans| ==> spans[k].start < spans[k].end
    ensures Separated(merged) && forall a: nat :: InSpans(merged, a) <==> InSpans(spans, a)
  {
    merged := [];
    for i := 0 to |spans|
      invariant Separated(merged)
      invariant merged != [] ==> i > 0 && merged[|merged| - 1].start <= spans[i - 1].start
      invariant forall a: nat :: InSpans(merged, a) <==> InSpans(spans[..i], a)
    {
      ghost var before := merged;
      var next := spans[i];
      assert i > 0 ==> Before(spans[i - 1], next);
      if merged != [] && next.start <= merged[|merged| - 1].end {
        var last := merged[|merged| - 1];
        var joined := Span(last.start, if last.end < next.end then next.end else last.end);
        merged := merged[..|merged| - 1] + [joined];
        forall a: nat ensures InSpans(merged, a) <==> InSpans(spans[..i + 1], a) {
          Joined(before, next, joined, a);
          Appended(spans[..i], next, a);
          assert spans[..i + 1] == spans[..i] + [next];
          assert InSpans(before, a) <==> InSpans(spans[..i], a);
        }
      } else {
        merged := merged + [next];
        forall a: nat ensures InSpans(merged, a) <==> InSpans(spans[..i + 1], a) {
          Appended(before, next, a);
          Appended(spans[..i], next, a);
          assert spans[..i + 1] == spans[..i] + [next];
          assert InSpans(before, a) <==> InSpans(spans[..i], a);
        }
      }
    }
    assert spans[..|spans|] == spans;
  }

  lemma Appended(spans: seq<Span>, next: Span, a: nat)
    ensures InSpans(spans + [next], a) <==> InSpans(spans, a) || next.Has(a)
  {
    var all := spans + [next];
    if InSpans(spans, a) {
      var k :| 0 <= k < |spans| && spans[k].Has(a);
      assert all[k].Has(a);
    }
    if next.Has(a) {
      assert all[|spans|].Has(a);
    }
  }

  lemma Joined(spans: seq<Span>, next: Span, joined: Span, a: nat)
    requires spans != [] && spans[|spans| - 1].start <= next.start <= spans[|spans| - 1].end
    requires joined.start == spans[|spans| - 1].start
    requires joined.end == if spans[|spans| - 1].end < next.end then next.end else spans[|spans| - 1].end
    ensures InSpans(spans[..|spans| - 1] + [joined], a) <==> InSpans(spans, a) || next.Has(a)
  {
    var rest, last := spans[..|spans| - 1], spans[|spans| - 1];
    Appended(rest, joined, a);
    Appended(rest, last, a);
    assert rest + [last] == spans;
  }

  lemma Together(s: seq<Span>, t: seq<Span>, a: nat)
    ensures InSpans(s + t, a) <==> InSpans(s, a) || InSpans(t, a)
  {
    var all := s + t;
    if InSpans(s, a) {
      var k :| 0 <= k < |s| && s[k].Has(a);
      assert all[k].Has(a);
    }
    if InSpans(t, a) {
      var k :| 0 <= k < |t| && t[k].Has(a);
      assert all[|s| + k].Has(a);
    }
    if InSpans(all, a) {
      var k :| 0 <= k < |all| && all[k].Has(a);
      assert if k < |s| then s[k].Has(a) else t[k - |s|].Has(a);
    }
  }

  // --- The windows of a tree -----------------------------------------------------------

  /** Every node is at a level of the geometry and is at least one slot. */
  predicate Shaped(fmt: Format, nodes: seq<Node>)
    decreases nodes, 0
  {
    forall k :: 0 <= k < |nodes| ==> ShapedNode(fmt, nodes[k])
  }

  predicate ShapedNode(fmt: Format, node: Node)
    decreases node, 1
  {
    node.depth < fmt.geometry.Depth() && node.count >= 1 && Shaped(fmt, node.children)
  }

  method CollectWindows(nodes: seq<Node>, fmt: Format) returns (merged: seq<Span>)
    requires Shaped(fmt, nodes)
    ensures Separated(merged)
    ensures forall a: nat :: InSpans(merged, a) <==> Hits(fmt, nodes, a) != []
    decreases nodes
  {
    var spans: seq<Span> := [];
    for i := 0 to |nodes|
      invariant forall k :: 0 <= k < |spans| ==> spans[k].start < spans[k].end
      invariant forall a: nat :: InSpans(spans, a) <==> Hits(fmt, nodes[..i], a) != []
    {
      ghost var before := spans;
      var more := NodeWindows(nodes, i, fmt);
      spans := spans + more;
      forall a: nat ensures InSpans(spans, a) <==> Hits(fmt, nodes[..i + 1], a) != [] {
        Together(before, more, a);
        assert InSpans(before, a) <==> Hits(fmt, nodes[..i], a) != [];
        assert nodes[..i + 1] == nodes[..i] + [nodes[i]];
        HitsSnoc(fmt, nodes[..i], nodes[i], a);
      }
    }
    assert nodes[..|nodes|] == nodes;
    var sorted := Sort(spans, Before);
    forall a: nat ensures InSpans(sorted, a) <==> InSpans(spans, a) {
      SameMembers(sorted, spans, a);
    }
    forall k | 0 <= k < |sorted| ensures sorted[k].start < sorted[k].end {
      assert sorted[k] in multiset(spans);
    }
    merged := Merge(sorted);
  }

  method NodeWindows(nodes: seq<Node>, i: nat, fmt: Format) returns (spans: seq<Span>)
    requires i < |nodes| && Shaped(fmt, nodes)
    ensures forall k :: 0 <= k < |spans| ==> spans[k].start < spans[k].end
    ensures forall a: nat :: InSpans(spans, a) <==> NodeHits(fmt, nodes[i], a) != []
    decreases nodes, i
  {
    var node := nodes[i];
    assert ShapedNode(fmt, node);
    if node.children != [] {
      spans := CollectWindows(node.children, fmt);
    } else if node.descriptor.Maps() {
      var span := fmt.geometry.Span(node.depth);
      MulAtLeast(span, node.count);
      var whole := Span(node.base, node.base + node.count * span);
      spans := [whole];
      assert forall a: nat :: whole.Has(a) ==> spans[0].Has(a);
    } else {
      spans := [];
    }
  }

  lemma {:induction false} TreeIsShaped(r: Reader, fmt: Format, limit: nat, table: nat, depth: nat, base: nat, tally: Tally)
    requires depth < fmt.geometry.Depth()
    ensures Shaped(fmt, Descend(r, fmt, limit, table, depth, base, tally).0)
    decreases fmt.geometry.Depth() - depth, 2, 0
  {
    var (words, after) := Fetch(r, fmt, limit, table, tally);
    if words.Some? {
      SlotsAreShaped(r, fmt, limit, words.value, |words.value|, depth, base, after);
    }
  }

  lemma {:induction false} SlotsAreShaped(r: Reader, fmt: Format, limit: nat, words: seq<nat>, upto: nat, depth: nat,
                                          base: nat, tally: Tally)
    requires depth < fmt.geometry.Depth() && upto <= |words|
    ensures Shaped(fmt, Slots(r, fmt, limit, words, upto, depth, base, tally).0)
    decreases fmt.geometry.Depth() - depth, 1, upto
  {
    if upto > 0 {
      SlotsAreShaped(r, fmt, limit, words, upto - 1, depth, base, tally);
      var (nodes, before) := Slots(r, fmt, limit, words, upto - 1, depth, base, tally);
      SlotIsShaped(r, fmt, limit, words[upto - 1], upto - 1, depth, base, nodes, before);
    }
  }

  lemma {:induction false} SlotIsShaped(r: Reader, fmt: Format, limit: nat, word: nat, index: nat, depth: nat, base: nat,
                                        nodes: seq<Node>, tally: Tally)
    requires depth < fmt.geometry.Depth() && Shaped(fmt, nodes)
    ensures Shaped(fmt, Slot(r, fmt, limit, word, index, depth, base, nodes, tally).0)
    decreases fmt.geometry.Depth() - depth, 0, 0
  {
    var descriptor := Decode(fmt, word, depth);
    if descriptor.kind.Table? {
      TreeIsShaped(r, fmt, limit, descriptor.output, depth + 1, At(base, index, fmt.geometry.Span(depth)), tally);
    }
  }

  // --- The difference --------------------------------------------------------------------

  function AsSpan(e: Extent): Span { Span(e.base, e.base + e.size) }

  function AsSpans(extents: seq<Extent>): seq<Span> { seq(|extents|, k requires 0 <= k < |extents| => AsSpan(extents[k])) }

  /** The set difference of two such lists, cut piece by piece, as base and size. */
  method Minus(spans: seq<Span>, other: seq<Span>) returns (out: seq<Extent>)
    requires Separated(spans) && Separated(other)
    ensures Separated(AsSpans(out))
    ensures forall a: nat :: InSpans(AsSpans(out), a) <==> InSpans(spans, a) && !InSpans(other, a)
  {
    out := [];
    for i := 0 to |spans|
      invariant Separated(AsSpans(out))
      invariant i > 0 ==> EndsBy(out, spans[i - 1].end)
      invariant i == 0 ==> out == []
      invariant forall a: nat :: InSpans(AsSpans(out), a) <==> InSpans(spans[..i], a) && !InSpans(other, a)
    {
      ghost var before := out;
      out := MinusOne(spans[i], other, out);
      forall a: nat ensures InSpans(AsSpans(out), a) <==> InSpans(spans[..i + 1], a) && !InSpans(other, a) {
        assert spans[..i + 1] == spans[..i] + [spans[i]];
        Appended(spans[..i], spans[i], a);
        assert InSpans(AsSpans(before), a) <==> InSpans(spans[..i], a) && !InSpans(other, a);
      }
    }
    assert spans[..|spans|] == spans;
  }

  /** Every piece ends at or before `end`. */
  ghost predicate EndsBy(out: seq<Extent>, end: nat) {
    forall k :: 0 <= k < |out| ==> AsSpan(out[k]).end <= end
  }

  /** Room is left before `at`: another piece may start there. */
  ghost predicate RoomBefore(out: seq<Extent>, at: nat) {
    forall k :: 0 <= k < |out| ==> AsSpan(out[k]).end < at
  }

  /** Below `at` the pieces are what the cuts so far leave of the span; from `at`
      on they leave it whole. */
  ghost predicate Cut(out: seq<Extent>, more: seq<Extent>, span: Span, cuts: seq<Span>, at: nat, a: nat) {
    && (InSpans(AsSpans(more), a) <==>
          InSpans(AsSpans(out), a) || (span.Has(a) && a < at && !InSpans(cuts, a)))
    && (span.Has(a) && at <= a ==> !InSpans(cuts, a))
  }

  lemma PieceAdded(out: seq<Extent>, piece: Extent, a: nat)
    ensures InSpans(AsSpans(out + [piece]), a) <==> InSpans(AsSpans(out), a) || AsSpan(piece).Has(a)
  {
    assert AsSpans(out + [piece]) == AsSpans(out) + [AsSpan(piece)];
    Appended(AsSpans(out), AsSpan(piece), a);
  }

  lemma PieceSeparated(out: seq<Extent>, at: nat, size: nat)
    requires Separated(AsSpans(out)) && RoomBefore(out, at) && size > 0
    ensures Separated(AsSpans(out + [Extent(at, size)]))
  {
    var all := AsSpans(out + [Extent(at, size)]);
    assert all == AsSpans(out) + [Span(at, at + size)];
    forall j | 0 <= j < |out| ensures all[j].end < at {
      assert AsSpan(out[j]).end < at;
    }
  }

  /** One more cut, and the piece before it if it leaves one. */
  lemma OneCut(out: seq<Extent>, was: seq<Extent>, more: seq<Extent>, span: Span, cuts: seq<Span>, cut: Span,
               from: nat, at: nat, a: nat)
    requires Cut(out, was, span, cuts, from, a) && cut.start < cut.end && span.start <= from
    requires from > span.start ==> from < cut.start
    requires if cut.end <= from || cut.start >= span.end then more == was && at == from
             else && more == (if cut.start > from then was + [Extent(from, cut.start - from)] else was)
                  && at == if from < cut.end then cut.end else from
    ensures Cut(out, more, span, cuts + [cut], at, a)
  {
    Appended(cuts, cut, a);
    if !(cut.end <= from || cut.start >= span.end) && cut.start > from {
      PieceAdded(was, Extent(from, cut.start - from), a);
    }
  }

  method MinusOne(span: Span, other: seq<Span>, out: seq<Extent>) returns (more: seq<Extent>)
    requires span.start < span.end && Separated(other) && Separated(AsSpans(out)) && RoomBefore(out, span.start)
    ensures Separated(AsSpans(more)) && EndsBy(more, span.end)
    ensures forall a: nat :: InSpans(AsSpans(more), a) <==> InSpans(AsSpans(out), a) || (span.Has(a) && !InSpans(other, a))
  {
    more := out;
    var at := span.start;
    for k := 0 to |other|
      invariant span.start <= at && Separated(AsSpans(more)) && RoomBefore(more, at) && EndsBy(more, span.end)
      invariant at > span.start ==> k > 0 && at <= other[k - 1].end
      invariant forall a: nat :: Cut(out, more, span, other[..k], at, a)
    {
      ghost var was, from := more, at;
      var cut := other[k];
      assert k > 0 ==> other[k - 1].end < cut.start;
      if !(cut.end <= at || cut.start >= span.end) {
        if cut.start > at {
          more := more + [Extent(at, cut.start - at)];
          PieceSeparated(was, at, cut.start - at);
        }
        at := if at < cut.end then cut.end else at;
      }
      ghost var cuts := other[..k + 1];
      assert cuts == other[..k] + [cut];
      forall a: nat ensures Cut(out, more, span, cuts, at, a) {
        assert Cut(out, was, span, other[..k], from, a);
        OneCut(out, was, more, span, other[..k], cut, from, at, a);
      }
    }
    assert other[..|other|] == other;
    ghost var was := more;
    if at < span.end {
      more := more + [Extent(at, span.end - at)];
      PieceSeparated(was, at, span.end - at);
    }
    forall a: nat ensures InSpans(AsSpans(more), a) <==> InSpans(AsSpans(out), a) || (span.Has(a) && !InSpans(other, a)) {
      assert Cut(out, was, span, other, at, a);
      if at < span.end {
        PieceAdded(was, Extent(at, span.end - at), a);
      }
    }
  }

  // --- Isolation ------------------------------------------------------------------------

  /** One machine's two translations, by their difference: none where it has only
      one of them. */
  method Isolation(cpu: Option<seq<Node>>, dma: Option<seq<Node>>, fmt: Format)
    returns (differs: Option<(seq<Extent>, seq<Extent>)>)
    requires cpu.Some? ==> Shaped(fmt, cpu.value)
    requires dma.Some? ==> Shaped(fmt, dma.value)
    ensures differs.Some? <==> cpu.Some? && dma.Some?
    ensures differs.Some? ==>
            && Separated(AsSpans(differs.value.0)) && Separated(AsSpans(differs.value.1))
            && forall a: nat ::
                 && (InSpans(AsSpans(differs.value.0), a) <==> Hits(fmt, cpu.value, a) != [] && Hits(fmt, dma.value, a) == [])
                 && (InSpans(AsSpans(differs.value.1), a) <==> Hits(fmt, dma.value, a) != [] && Hits(fmt, cpu.value, a) == [])
  {
    if cpu.None? || dma.None? {
      return None;
    }
    var cpuReach := CollectWindows(cpu.value, fmt);
    var dmaReach := CollectWindows(dma.value, fmt);
    var cpuOnly := Minus(cpuReach, dmaReach);
    var dmaOnly := Minus(dmaReach, cpuReach);
    return Some((cpuOnly, dmaOnly));
  }

  /** How many low bits of an address a tree and a probe agree on: the input's, or all
      of them where the root table ends with the input. */
  function Known(g: Geometry, indexBits: nat): nat
    requires g.shifts != []
  {
    if g.addressBits == g.shifts[0] + indexBits then ADDRESS_BITS else g.addressBits
  }

  lemma HitIsProbed(r: Reader, fmt: Format, indexBits: nat, root: nat, limit: nat, a: nat)
    requires Steady(r) && ZeroFill(fmt, indexBits) && a < Pow2(Known(fmt.geometry, indexBits))
    requires Complete(r, fmt, root, limit)
    ensures Hits(fmt, WholeTree(r, fmt, root, limit).nodes, a) != [] <==> Probe(r, fmt, root, a).output.Some?
  {
    if Known(fmt.geometry, indexBits) == fmt.geometry.addressBits {
      TreeIsProbe(r, fmt, indexBits, root, limit, a);
    } else {
      AgreeIfFull(r, fmt, indexBits, root, limit, a);
    }
  }

  /** Each root walked under its own limit: where both trees are whole, the two lists
      are, address by address, what one side's probe translates and the other's does
      not. Both are Stage 2 translations, so there is one format. */
  method IsolationOf(r: Reader, fmt: Format, ghost indexBits: nat, cpuRoot: nat, cpuLimit: nat, dmaRoot: nat, dmaLimit: nat)
    returns (cpuOnly: seq<Extent>, dmaOnly: seq<Extent>)
    requires Steady(r) && ZeroFill(fmt, indexBits)
    ensures Separated(AsSpans(cpuOnly)) && Separated(AsSpans(dmaOnly))
    ensures Complete(r, fmt, cpuRoot, cpuLimit) && Complete(r, fmt, dmaRoot, dmaLimit) ==>
            forall a: nat :: a < Pow2(Known(fmt.geometry, indexBits)) ==>
              && (InSpans(AsSpans(cpuOnly), a) <==>
                    Probe(r, fmt, cpuRoot, a).output.Some? && Probe(r, fmt, dmaRoot, a).output.None?)
              && (InSpans(AsSpans(dmaOnly), a) <==>
                    Probe(r, fmt, dmaRoot, a).output.Some? && Probe(r, fmt, cpuRoot, a).output.None?)
  {
    var cpu := BuildTree(r, fmt, cpuRoot, cpuLimit);
    var dma := BuildTree(r, fmt, dmaRoot, dmaLimit);
    WholeIsShaped(r, fmt, cpuRoot, cpuLimit);
    WholeIsShaped(r, fmt, dmaRoot, dmaLimit);
    var differs := Isolation(Some(cpu.nodes), Some(dma.nodes), fmt);
    cpuOnly, dmaOnly := differs.value.0, differs.value.1;
    if Complete(r, fmt, cpuRoot, cpuLimit) && Complete(r, fmt, dmaRoot, dmaLimit) {
      forall a: nat | a < Pow2(Known(fmt.geometry, indexBits))
        ensures Hits(fmt, cpu.nodes, a) != [] <==> Probe(r, fmt, cpuRoot, a).output.Some?
        ensures Hits(fmt, dma.nodes, a) != [] <==> Probe(r, fmt, dmaRoot, a).output.Some?
      {
        HitIsProbed(r, fmt, indexBits, cpuRoot, cpuLimit, a);
        HitIsProbed(r, fmt, indexBits, dmaRoot, dmaLimit, a);
      }
    }
  }

  lemma WholeIsShaped(r: Reader, fmt: Format, root: nat, limit: nat)
    requires fmt.geometry.shifts != []
    ensures Shaped(fmt, WholeTree(r, fmt, root, limit).nodes)
  {
    TreeIsShaped(r, fmt, limit, root, 0, 0, FRESH);
  }

  ghost predicate Complete(r: Reader, fmt: Format, root: nat, limit: nat)
    requires fmt.geometry.shifts != []
  {
    var tree := WholeTree(r, fmt, root, limit);
    tree.unreadable == [] && !tree.truncated
  }
}
