/** The probe and the tree are one translation: what folding, bounding and
    recursing leave of the single-address walk. */
module PageWalks {
  import opened Words
  import opened Bits
  import opened Translation
  import opened PageTree

  // --- What a tree says about an address ---------------------------------------

  function Opt(o: Option<nat>): seq<nat> { if o.Some? then [o.value] else [] }

  /** The outputs of every leaf run that covers `a`, each with the offset into
      its run added; one entry per covering run. */
  function Hits(fmt: Format, nodes: seq<Node>, a: nat): seq<nat>
    decreases nodes, 0
  {
    if nodes == [] then []
    else Hits(fmt, nodes[..|nodes| - 1], a) + NodeHits(fmt, nodes[|nodes| - 1], a)
  }

  function NodeHits(fmt: Format, node: Node, a: nat): seq<nat>
    decreases node, 1
  {
    if node.children != [] then Hits(fmt, node.children, a)
    else if Covers(fmt, node, a) then [node.descriptor.output + (a - node.base)]
    else []
  }

  predicate Covers(fmt: Format, node: Node, a: nat) {
    && node.descriptor.Maps()
    && node.depth < fmt.geometry.Depth()
    && node.base <= a < node.base + node.count * fmt.geometry.Span(node.depth)
  }

  lemma HitsSnoc(fmt: Format, nodes: seq<Node>, node: Node, a: nat)
    ensures Hits(fmt, nodes + [node], a) == Hits(fmt, nodes, a) + NodeHits(fmt, node, a)
  {
    assert (nodes + [node])[..|nodes|] == nodes;
  }

  // --- The probe, reduced to its output ------------------------------------------

  function Lookup(r: Reader, fmt: Format, table: nat, depth: nat, inside: nat): Option<nat>
    requires ProbeReady(fmt) && depth <= fmt.geometry.Depth()
    decreases fmt.geometry.Depth() - depth, 1
  {
    if depth == fmt.geometry.Depth() then None
    else
      match ReadBytes(r, table + fmt.geometry.Index(inside, depth) * DESCRIPTOR_BYTES, DESCRIPTOR_BYTES)
      case Bytes(raw) => SlotOutput(r, fmt, FromLE(raw), depth, inside)
      case _ => None
  }

  function SlotOutput(r: Reader, fmt: Format, word: nat, depth: nat, inside: nat): Option<nat>
    requires ProbeReady(fmt) && depth < fmt.geometry.Depth()
    decreases fmt.geometry.Depth() - depth, 0
  {
    var descriptor := Decode(fmt, word, depth);
    if descriptor.kind.Invalid? then None
    else if descriptor.Maps() then Some(Or(descriptor.output, And(inside, fmt.geometry.Span(depth) - 1)))
    else Lookup(r, fmt, descriptor.output, depth + 1, inside)
  }

  lemma ProbeEnds(r: Reader, fmt: Format, address: nat, table: nat, depth: nat, steps: seq<Step>, raw: seq<byte>)
    requires ProbeReady(fmt) && depth < fmt.geometry.Depth()
    requires ReadBytes(r, SlotAt(fmt, address, table, depth), DESCRIPTOR_BYTES) == Bytes(raw)
    requires !Decode(fmt, FromLE(raw), depth).kind.Table?
    ensures ProbeFrom(r, fmt, address, table, depth, steps) ==
            Found(address, Taken(fmt, address, table, depth, steps, raw), fmt.geometry.levels[depth],
                  SlotOutput(r, fmt, FromLE(raw), depth, fmt.geometry.Within(address)),
                  if Decode(fmt, FromLE(raw), depth).Maps() then NoFault else NoTranslation)
  {
    ProbeRead(r, fmt, address, table, depth, steps, raw);
  }

  lemma {:induction false} ProbeLookup(r: Reader, fmt: Format, address: nat, table: nat, depth: nat, steps: seq<Step>)
    requires ProbeReady(fmt) && depth <= fmt.geometry.Depth()
    ensures ProbeFrom(r, fmt, address, table, depth, steps).output ==
            Lookup(r, fmt, table, depth, fmt.geometry.Within(address))
    decreases fmt.geometry.Depth() - depth
  {
    if depth < fmt.geometry.Depth() {
      var read := ReadBytes(r, SlotAt(fmt, address, table, depth), DESCRIPTOR_BYTES);
      if !read.Bytes? {
        ProbeUnread(r, fmt, address, table, depth, steps);
      } else if Decode(fmt, FromLE(read.data), depth).kind.Table? {
        ProbeOn(r, fmt, address, table, depth, steps, read.data);
        ProbeLookup(r, fmt, address, Decode(fmt, FromLE(read.data), depth).output, depth + 1,
                    Taken(fmt, address, table, depth, steps, read.data));
      } else {
        ProbeEnds(r, fmt, address, table, depth, steps, read.data);
      }
    }
  }

  // --- Geometry arithmetic ----------------------------------------------------------

  lemma AtNext(base: nat, i: nat, span: nat)
    ensures At(base, i + 1, span) == At(base, i, span) + span
  {}

  lemma AtMono(base: nat, i: nat, j: nat, span: nat)
    requires i <= j
    ensures At(base, i, span) <= At(base, j, span)
  {
    MulMono(i, j, span);
  }

  lemma MulMono(i: nat, j: nat, span: nat)
    requires i <= j
    ensures i * span <= j * span
  {}

  /** A coarser entry spans exactly one finer table. */
  lemma SpanStep(g: Geometry, indexBits: nat, d: nat)
    requires g.Regular(indexBits) && d + 1 < g.Depth()
    ensures g.Span(d) == g.entries * g.Span(d + 1)
  {
    Pow2Add(indexBits, g.shifts[d + 1]);
  }

  /** A table's base is a multiple of what the table covers. */
  predicate Aligned(g: Geometry, depth: nat, base: nat)
    requires depth < g.Depth()
  {
    g.entries > 0 && base % (g.entries * g.Span(depth)) == 0
  }

  /** In slot i's range the walk selects slot i, and the offset is into the slot. */
  lemma IndexInSlot(g: Geometry, indexBits: nat, depth: nat, base: nat, i: nat, a: nat)
    requires g.Regular(indexBits) && depth < g.Depth() && Aligned(g, depth, base) && i < g.entries
    requires var at := At(base, i, g.Span(depth)); at <= a < at + g.Span(depth)
    ensures g.Index(a, depth) == i
    ensures And(a, g.Span(depth) - 1) == a - At(base, i, g.Span(depth))
  {
    var span, shift := g.Span(depth), g.shifts[depth];
    SlotArithmetic(base, g.entries, span, i, a);
    AndLow(a, shift);
    AndLow(Shr(a, shift), indexBits);
  }

  lemma SlotArithmetic(base: nat, entries: nat, span: nat, i: nat, a: nat)
    requires entries > 0 && span > 0 && base % (entries * span) == 0 && i < entries
    requires At(base, i, span) <= a < At(base, i, span) + span
    ensures a / span % entries == i && a % span == a - At(base, i, span)
  {
    var q := base / (entries * span);
    ModSplit(base, entries * span);
    var k := q * entries + i;
    assert base == (q * entries) * span by {
      assert base == (entries * span) * q;
      Reorder(entries, span, q);
    }
    Distribute(q * entries, i, span);
    ModUnique(a, k, a - k * span, span);
    ModUnique(k, q, i, entries);
  }

  lemma Reorder(x: int, y: int, z: int)
    ensures (x * y) * z == (z * x) * y
  {}

  lemma Distribute(x: int, y: int, z: int)
    ensures x * z + y * z == (x + y) * z
  {}

  lemma ChildAligned(g: Geometry, indexBits: nat, depth: nat, base: nat, i: nat)
    requires g.Regular(indexBits) && depth + 1 < g.Depth() && Aligned(g, depth, base)
    ensures Aligned(g, depth + 1, At(base, i, g.Span(depth)))
  {
    SpanStep(g, indexBits, depth);
    var span := g.Span(depth);
    var q := base / (g.entries * span);
    ModSplit(base, g.entries * span);
    assert base == (q * g.entries) * span;
    Distribute(q * g.entries, i, span);
    ModUnique(At(base, i, span), q * g.entries + i, 0, span);
  }

  /** A leaf's output has nothing below its span, so joining is adding. */
  lemma LeafJoin(g: Geometry, raw: nat, mask: nat, depth: nat, offset: nat)
    requires depth < g.Depth() && offset < g.Span(depth)
    ensures var output := AndNot(And(raw, mask), g.Span(depth) - 1); Or(output, offset) == output + offset
  {
    var o, shift := And(raw, mask), g.shifts[depth];
    AndNotLow(o, shift);
    ModSplit(o, Pow2(shift));
    ModUnique(o - o % Pow2(shift), o / Pow2(shift), 0, Pow2(shift));
    OrAdd(o - o % Pow2(shift), offset, shift);
  }

  // --- A traversal that met nothing it could not read ----------------------------

  ghost predicate Clean(before: Tally, after: Tally) {
    after.unreadable == before.unreadable && !after.truncated
  }

  ghost predicate Grows(before: Tally, after: Tally) {
    before.unreadable <= after.unreadable && (before.truncated ==> after.truncated)
  }

  lemma {:induction false} DescendGrows(r: Reader, fmt: Format, limit: nat, table: nat, depth: nat, base: nat,
                                        tally: Tally)
    requires depth < fmt.geometry.Depth()
    ensures Grows(tally, Descend(r, fmt, limit, table, depth, base, tally).1)
    decreases fmt.geometry.Depth() - depth, 1, 0
  {
    var (words, after) := Fetch(r, fmt, limit, table, tally);
    if words.Some? {
      SlotsGrow(r, fmt, limit, words.value, |words.value|, depth, base, after);
    }
  }

  lemma {:induction false} SlotsGrow(r: Reader, fmt: Format, limit: nat, words: seq<nat>, upto: nat, depth: nat,
                                     base: nat, tally: Tally)
    requires depth < fmt.geometry.Depth() && upto <= |words|
    ensures Grows(tally, Slots(r, fmt, limit, words, upto, depth, base, tally).1)
    decreases fmt.geometry.Depth() - depth, 0, upto
  {
    if upto > 0 {
      SlotsGrow(r, fmt, limit, words, upto - 1, depth, base, tally);
      var (nodes, before) := Slots(r, fmt, limit, words, upto - 1, depth, base, tally);
      SlotGrows(r, fmt, limit, words[upto - 1], upto - 1, depth, base, nodes, before);
    }
  }

  lemma {:induction false} SlotGrows(r: Reader, fmt: Format, limit: nat, word: nat, index: nat, depth: nat, base: nat,
                                     nodes: seq<Node>, tally: Tally)
    requires depth < fmt.geometry.Depth()
    ensures Grows(tally, Slot(r, fmt, limit, word, index, depth, base, nodes, tally).1)
    decreases fmt.geometry.Depth() - depth, 0, 0
  {
    var descriptor := Decode(fmt, word, depth);
    if descriptor.kind.Table? {
      DescendGrows(r, fmt, limit, descriptor.output, depth + 1, At(base, index, fmt.geometry.Span(depth)), tally);
    }
  }

  // --- Folding loses and invents nothing -------------------------------------------

  /** The nodes of one table: where each sits, and that leaves carry no children. */
  ghost predicate Placed(fmt: Format, nodes: seq<Node>, depth: nat, base: nat, upto: nat)
    requires depth < fmt.geometry.Depth()
  {
    forall k :: 0 <= k < |nodes| ==> PlacedNode(fmt, nodes[k], depth, base, upto)
  }

  predicate PlacedNode(fmt: Format, n: Node, depth: nat, base: nat, upto: nat)
    requires depth < fmt.geometry.Depth()
  {
    && n.depth == depth && n.count >= 1 && n.index + n.count <= upto
    && n.base == At(base, n.index, fmt.geometry.Span(depth))
    && (n.descriptor.Maps() ==> n.children == [])
  }

  /** What the first `upto` slots of a table say about `a`. */
  function SlotsOutput(r: Reader, fmt: Format, words: seq<nat>, upto: nat, depth: nat, base: nat, a: nat): Option<nat>
    requires ProbeReady(fmt) && depth < fmt.geometry.Depth() && upto <= |words|
    decreases upto
  {
    if upto == 0 then None
    else
      var at := At(base, upto - 1, fmt.geometry.Span(depth));
      if at <= a < at + fmt.geometry.Span(depth) then SlotOutput(r, fmt, words[upto - 1], depth, a)
      else SlotsOutput(r, fmt, words, upto - 1, depth, base, a)
  }

  lemma {:induction false} PickSlot(r: Reader, fmt: Format, words: seq<nat>, upto: nat, depth: nat, base: nat, a: nat,
                                    i: nat)
    requires ProbeReady(fmt) && depth < fmt.geometry.Depth() && i < upto <= |words|
    requires var at := At(base, i, fmt.geometry.Span(depth)); at <= a < at + fmt.geometry.Span(depth)
    ensures SlotsOutput(r, fmt, words, upto, depth, base, a) == SlotOutput(r, fmt, words[i], depth, a)
    decreases upto
  {
    if i < upto - 1 {
      AtNext(base, i, fmt.geometry.Span(depth));
      AtMono(base, i + 1, upto - 1, fmt.geometry.Span(depth));
      PickSlot(r, fmt, words, upto - 1, depth, base, a, i);
    }
  }

  lemma {:induction false} NoSlot(r: Reader, fmt: Format, words: seq<nat>, upto: nat, depth: nat, base: nat, a: nat)
    requires ProbeReady(fmt) && depth < fmt.geometry.Depth() && upto <= |words|
    requires !(base <= a < At(base, upto, fmt.geometry.Span(depth)))
    ensures SlotsOutput(r, fmt, words, upto, depth, base, a) == None
    decreases upto
  {
    if upto > 0 {
      AtNext(base, upto - 1, fmt.geometry.Span(depth));
      NoSlot(r, fmt, words, upto - 1, depth, base, a);
    }
  }

  /** Some slot's range holds `a`. */
  lemma {:induction false} FindSlot(base: nat, span: nat, upto: nat, a: nat) returns (i: nat)
    requires base <= a < At(base, upto, span)
    ensures i < upto && At(base, i, span) <= a < At(base, i, span) + span
    decreases upto
  {
    AtNext(base, upto - 1, span);
    if a >= At(base, upto - 1, span) {
      i := upto - 1;
    } else {
      i := FindSlot(base, span, upto - 1, a);
    }
  }

  /** A reader that gives a table whole gives each of its words alike. */
  ghost predicate Steady(r: Reader) { r.Ram? || r.Copy? }

  /** The i'th word of a table's bytes. */
  function Word(b: seq<byte>, i: nat): seq<byte>
    requires i * DESCRIPTOR_BYTES + DESCRIPTOR_BYTES <= |b|
  {
    b[i * DESCRIPTOR_BYTES..i * DESCRIPTOR_BYTES + DESCRIPTOR_BYTES]
  }

  lemma {:induction false} CopiedWord(words: map<nat, nat>, pa: nat, count: nat, i: nat, at: nat)
    requires i < count && at == pa + i * DESCRIPTOR_BYTES
    ensures Word(CopiedWords(words, pa, count), i) == CopiedWords(words, at, 1)
    decreases count
  {
    if i == 0 {
      CopiedFirst(words, pa, count);
    } else {
      CopiedNext(words, pa, count, i);
      CopiedWord(words, pa + DESCRIPTOR_BYTES, count - 1, i - 1, at);
    }
  }

  lemma CopiedFirst(words: map<nat, nat>, pa: nat, count: nat)
    requires count > 0
    ensures CopiedWords(words, pa, count) == CopiedWords(words, pa, 1) + CopiedWords(words, pa + DESCRIPTOR_BYTES, count - 1)
    ensures Word(CopiedWords(words, pa, count), 0) == CopiedWords(words, pa, 1)
  {
    var word := ToLE(if pa in words then words[pa] else 0, DESCRIPTOR_BYTES);
    assert CopiedWords(words, pa, 1) == word + CopiedWords(words, pa + DESCRIPTOR_BYTES, 0) == word;
  }

  lemma CopiedNext(words: map<nat, nat>, pa: nat, count: nat, i: nat)
    requires 0 < i < count
    ensures Word(CopiedWords(words, pa, count), i) == Word(CopiedWords(words, pa + DESCRIPTOR_BYTES, count - 1), i - 1)
  {
    CopiedFirst(words, pa, count);
    PastFirst(CopiedWords(words, pa, 1), CopiedWords(words, pa + DESCRIPTOR_BYTES, count - 1), i);
  }

  lemma PastFirst(first: seq<byte>, rest: seq<byte>, i: nat)
    requires |first| == DESCRIPTOR_BYTES && 0 < i && i * DESCRIPTOR_BYTES <= |rest|
    ensures Word(first + rest, i) == Word(rest, i - 1)
  {}

  lemma WordOfTable(r: Reader, pa: nat, count: nat, i: nat)
    requires Steady(r) && i < count
    requires ReadBytes(r, pa, count * DESCRIPTOR_BYTES).Bytes?
    ensures ReadBytes(r, pa + i * DESCRIPTOR_BYTES, DESCRIPTOR_BYTES) ==
            Bytes(Word(ReadBytes(r, pa, count * DESCRIPTOR_BYTES).data, i))
  {
    if r.Ram? {
      WordOfRam(r, pa, count, i);
    } else {
      WordOfCopy(r, pa, count, i);
    }
  }

  lemma WordOfRam(r: Reader, pa: nat, count: nat, i: nat)
    requires r.Ram? && i < count && ReadBytes(r, pa, count * DESCRIPTOR_BYTES).Bytes?
    ensures ReadBytes(r, pa + i * DESCRIPTOR_BYTES, DESCRIPTOR_BYTES) ==
            Bytes(Word(ReadBytes(r, pa, count * DESCRIPTOR_BYTES).data, i))
  {
    var off, at := pa - r.base, i * DESCRIPTOR_BYTES;
    SliceSlice(r.bytes, off, off + count * DESCRIPTOR_BYTES, at, at + DESCRIPTOR_BYTES);
  }

  lemma WordOfCopy(r: Reader, pa: nat, count: nat, i: nat)
    requires r.Copy? && i < count && ReadBytes(r, pa, count * DESCRIPTOR_BYTES).Bytes?
    ensures ReadBytes(r, pa + i * DESCRIPTOR_BYTES, DESCRIPTOR_BYTES) ==
            Bytes(Word(ReadBytes(r, pa, count * DESCRIPTOR_BYTES).data, i))
  {
    CopiedWord(r.words, pa, count, i, pa + i * DESCRIPTOR_BYTES);
    WordInside(r.extents, pa, count, i);
    CopyAnswers(r, pa, count);
    CopyAnswers(r, pa + i * DESCRIPTOR_BYTES, 1);
  }

  lemma CopyAnswers(r: Reader, pa: nat, count: nat)
    requires r.Copy? && pa % DESCRIPTOR_BYTES == 0 && Inside(r.extents, pa, count * DESCRIPTOR_BYTES)
    ensures ReadBytes(r, pa, count * DESCRIPTOR_BYTES) == Bytes(CopiedWords(r.words, pa, count))
  {
    assert count * DESCRIPTOR_BYTES / DESCRIPTOR_BYTES == count;
  }

  lemma WordInside(extents: seq<Extent>, pa: nat, count: nat, i: nat)
    requires Inside(extents, pa, count * DESCRIPTOR_BYTES) && i < count
    ensures Inside(extents, pa + i * DESCRIPTOR_BYTES, DESCRIPTOR_BYTES)
    ensures (pa + i * DESCRIPTOR_BYTES) % DESCRIPTOR_BYTES == pa % DESCRIPTOR_BYTES
  {
    var k :| 0 <= k < |extents| && extents[k].base <= pa &&
             pa + count * DESCRIPTOR_BYTES <= extents[k].base + extents[k].size;
    assert extents[k].base <= pa + i * DESCRIPTOR_BYTES;
  }

  ghost predicate WalkReady(r: Reader, fmt: Format, indexBits: nat, depth: nat, base: nat) {
    && Steady(r) && ProbeReady(fmt) && fmt.geometry.Regular(indexBits)
    && depth < fmt.geometry.Depth() && Aligned(fmt.geometry, depth, base)
  }

  /** The word the probe fetches is the word the table held at that slot. */
  lemma LookupInTable(r: Reader, fmt: Format, indexBits: nat, table: nat, words: seq<nat>, depth: nat, base: nat,
                      a: nat)
    requires WalkReady(r, fmt, indexBits, depth, base)
    requires ReadBytes(r, table, fmt.geometry.TableBytes()).Bytes?
    requires words == Unpack(ReadBytes(r, table, fmt.geometry.TableBytes()).data, fmt.geometry.entries)
    requires base <= a < At(base, fmt.geometry.entries, fmt.geometry.Span(depth))
    ensures SlotsOutput(r, fmt, words, |words|, depth, base, a) == Lookup(r, fmt, table, depth, a)
  {
    var g := fmt.geometry;
    var i := FindSlot(base, g.Span(depth), g.entries, a);
    PickSlot(r, fmt, words, |words|, depth, base, a, i);
    IndexInSlot(g, indexBits, depth, base, i, a);
    LookupAt(r, fmt, table, words, depth, i, a);
  }

  lemma LookupAt(r: Reader, fmt: Format, table: nat, words: seq<nat>, depth: nat, i: nat, a: nat)
    requires Steady(r) && ProbeReady(fmt) && depth < fmt.geometry.Depth() && i == fmt.geometry.Index(a, depth)
    requires ReadBytes(r, table, fmt.geometry.TableBytes()).Bytes? && i < fmt.geometry.entries
    requires words == Unpack(ReadBytes(r, table, fmt.geometry.TableBytes()).data, fmt.geometry.entries)
    ensures Lookup(r, fmt, table, depth, a) == SlotOutput(r, fmt, words[i], depth, a)
  {
    WordRead(r, fmt, table, words, i);
    LookupStep(r, fmt, table, words[i], depth, i, a);
  }

  lemma WordRead(r: Reader, fmt: Format, table: nat, words: seq<nat>, i: nat)
    requires Steady(r) && ReadBytes(r, table, fmt.geometry.TableBytes()).Bytes? && i < fmt.geometry.entries
    requires words == Unpack(ReadBytes(r, table, fmt.geometry.TableBytes()).data, fmt.geometry.entries)
    ensures ReadBytes(r, table + i * DESCRIPTOR_BYTES, DESCRIPTOR_BYTES).Bytes?
    ensures words[i] == FromLE(ReadBytes(r, table + i * DESCRIPTOR_BYTES, DESCRIPTOR_BYTES).data)
  {
    WordOfTable(r, table, fmt.geometry.entries, i);
  }

  lemma LookupStep(r: Reader, fmt: Format, table: nat, word: nat, depth: nat, i: nat, a: nat)
    requires ProbeReady(fmt) && depth < fmt.geometry.Depth() && i == fmt.geometry.Index(a, depth)
    requires ReadBytes(r, table + i * DESCRIPTOR_BYTES, DESCRIPTOR_BYTES).Bytes?
    requires word == FromLE(ReadBytes(r, table + i * DESCRIPTOR_BYTES, DESCRIPTOR_BYTES).data)
    ensures Lookup(r, fmt, table, depth, a) == SlotOutput(r, fmt, word, depth, a)
  {}

  /** A table the walk could read in full says about each address in its range
      what the probe finds there, and nothing about any other. */
  lemma {:induction false} DescendHits(r: Reader, fmt: Format, indexBits: nat, limit: nat, table: nat, depth: nat,
                                       base: nat, tally: Tally, a: nat)
    requires WalkReady(r, fmt, indexBits, depth, base)
    requires Clean(tally, Descend(r, fmt, limit, table, depth, base, tally).1)
    ensures Hits(fmt, Descend(r, fmt, limit, table, depth, base, tally).0, a) ==
            if base <= a < At(base, fmt.geometry.entries, fmt.geometry.Span(depth))
            then Opt(Lookup(r, fmt, table, depth, a)) else []
    decreases fmt.geometry.Depth() - depth, 2, 0
  {
    var g := fmt.geometry;
    var (fetched, after) := Fetch(r, fmt, limit, table, tally);
    if fetched.Some? {
      var words := fetched.value;
      SlotsHits(r, fmt, indexBits, limit, words, |words|, depth, base, after, a);
      if base <= a < At(base, g.entries, g.Span(depth)) {
        LookupInTable(r, fmt, indexBits, table, words, depth, base, a);
      } else {
        NoSlot(r, fmt, words, |words|, depth, base, a);
      }
    }
  }

  /** What the whole table met, each slot of it met. */
  lemma SlotsClean(r: Reader, fmt: Format, limit: nat, words: seq<nat>, upto: nat, depth: nat, base: nat, tally: Tally)
    returns (nodes: seq<Node>, before: Tally)
    requires depth < fmt.geometry.Depth() && 0 < upto <= |words|
    requires Clean(tally, Slots(r, fmt, limit, words, upto, depth, base, tally).1)
    ensures (nodes, before) == Slots(r, fmt, limit, words, upto - 1, depth, base, tally)
    ensures Slots(r, fmt, limit, words, upto, depth, base, tally) ==
            Slot(r, fmt, limit, words[upto - 1], upto - 1, depth, base, nodes, before)
    ensures Clean(tally, before) && Clean(before, Slot(r, fmt, limit, words[upto - 1], upto - 1, depth, base, nodes, before).1)
  {
    var pair := Slots(r, fmt, limit, words, upto - 1, depth, base, tally);
    nodes, before := pair.0, pair.1;
    SlotsGrow(r, fmt, limit, words, upto - 1, depth, base, tally);
    SlotGrows(r, fmt, limit, words[upto - 1], upto - 1, depth, base, nodes, before);
  }

  /** These nodes say of `a` what the first `upto` slots say. */
  ghost predicate Say(r: Reader, fmt: Format, words: seq<nat>, upto: nat, depth: nat, base: nat, nodes: seq<Node>, a: nat)
    requires ProbeReady(fmt) && depth < fmt.geometry.Depth() && upto <= |words|
  {
    && Placed(fmt, nodes, depth, base, upto)
    && Hits(fmt, nodes, a) == Opt(SlotsOutput(r, fmt, words, upto, depth, base, a))
  }

  lemma {:induction false} SlotsHits(r: Reader, fmt: Format, indexBits: nat, limit: nat, words: seq<nat>, upto: nat,
                                     depth: nat, base: nat, tally: Tally, a: nat)
    requires WalkReady(r, fmt, indexBits, depth, base) && upto <= |words| == fmt.geometry.entries
    requires Clean(tally, Slots(r, fmt, limit, words, upto, depth, base, tally).1)
    ensures var nodes := Slots(r, fmt, limit, words, upto, depth, base, tally).0;
            Say(r, fmt, words, upto, depth, base, nodes, a)
    decreases fmt.geometry.Depth() - depth, 1, upto
  {
    if upto > 0 {
      var nodes, before := SlotsClean(r, fmt, limit, words, upto, depth, base, tally);
      SlotsHits(r, fmt, indexBits, limit, words, upto - 1, depth, base, tally, a);
      SlotHits(r, fmt, indexBits, limit, words, upto - 1, depth, base, nodes, before, a);
    }
  }

  predicate InSlot(fmt: Format, depth: nat, base: nat, index: nat, a: nat)
    requires depth < fmt.geometry.Depth()
  {
    var at := At(base, index, fmt.geometry.Span(depth));
    at <= a < at + fmt.geometry.Span(depth)
  }

  /** In the next slot's range no earlier slot speaks, and the offset is into the slot. */
  ghost predicate Fresh(r: Reader, fmt: Format, words: seq<nat>, index: nat, depth: nat, base: nat, a: nat)
    requires ProbeReady(fmt) && depth < fmt.geometry.Depth() && index < |words|
  {
    InSlot(fmt, depth, base, index, a) ==>
      && SlotsOutput(r, fmt, words, index, depth, base, a) == None
      && And(a, fmt.geometry.Span(depth) - 1) == a - At(base, index, fmt.geometry.Span(depth))
  }

  lemma SlotIsFresh(r: Reader, fmt: Format, indexBits: nat, words: seq<nat>, index: nat, depth: nat, base: nat, a: nat)
    requires WalkReady(r, fmt, indexBits, depth, base) && index < |words| == fmt.geometry.entries
    ensures Fresh(r, fmt, words, index, depth, base, a)
  {
    if InSlot(fmt, depth, base, index, a) {
      NoSlot(r, fmt, words, index, depth, base, a);
      IndexInSlot(fmt.geometry, indexBits, depth, base, index, a);
    }
  }

  lemma {:induction false} SlotHits(r: Reader, fmt: Format, indexBits: nat, limit: nat, words: seq<nat>, index: nat,
                                    depth: nat, base: nat, nodes: seq<Node>, tally: Tally, a: nat)
    requires WalkReady(r, fmt, indexBits, depth, base) && index < |words| == fmt.geometry.entries
    requires Say(r, fmt, words, index, depth, base, nodes, a)
    requires Clean(tally, Slot(r, fmt, limit, words[index], index, depth, base, nodes, tally).1)
    ensures Say(r, fmt, words, index + 1, depth, base,
                Slot(r, fmt, limit, words[index], index, depth, base, nodes, tally).0, a)
    decreases fmt.geometry.Depth() - depth, 0, 1
  {
    SlotIsFresh(r, fmt, indexBits, words, index, depth, base, a);
    if Decode(fmt, words[index], depth).kind.Table? {
      TableHits(r, fmt, indexBits, limit, words, index, depth, base, nodes, tally, a);
    } else {
      FlatHits(r, fmt, limit, words, index, depth, base, nodes, tally, a);
    }
  }

  lemma FlatHits(r: Reader, fmt: Format, limit: nat, words: seq<nat>, index: nat, depth: nat, base: nat,
                 nodes: seq<Node>, tally: Tally, a: nat)
    requires ProbeReady(fmt) && depth < fmt.geometry.Depth() && index < |words|
    requires Say(r, fmt, words, index, depth, base, nodes, a) && Fresh(r, fmt, words, index, depth, base, a)
    requires !Decode(fmt, words[index], depth).kind.Table?
    ensures Say(r, fmt, words, index + 1, depth, base,
                Slot(r, fmt, limit, words[index], index, depth, base, nodes, tally).0, a)
  {
    var leaf := Node(depth, index, 1, At(base, index, fmt.geometry.Span(depth)), Decode(fmt, words[index], depth), []);
    FlatSlot(r, fmt, limit, words[index], index, depth, base, nodes, tally, leaf);
    if leaf.descriptor.Maps() {
      LeafSays(r, fmt, words, index, depth, base, nodes, leaf, a);
    } else {
      PlacedMore(fmt, nodes, depth, base, index);
    }
  }

  lemma FlatSlot(r: Reader, fmt: Format, limit: nat, word: nat, index: nat, depth: nat, base: nat, nodes: seq<Node>,
                 tally: Tally, leaf: Node)
    requires depth < fmt.geometry.Depth() && !Decode(fmt, word, depth).kind.Table?
    requires leaf == Node(depth, index, 1, At(base, index, fmt.geometry.Span(depth)), Decode(fmt, word, depth), [])
    ensures Slot(r, fmt, limit, word, index, depth, base, nodes, tally).0 ==
            if leaf.descriptor.Maps() then PushLeaf(nodes, leaf, fmt.geometry.Span(depth), fmt.outputMask) else nodes
  {}

  lemma LeafSays(r: Reader, fmt: Format, words: seq<nat>, index: nat, depth: nat, base: nat, nodes: seq<Node>,
                 leaf: Node, a: nat)
    requires ProbeReady(fmt) && depth < fmt.geometry.Depth() && index < |words|
    requires Say(r, fmt, words, index, depth, base, nodes, a) && Fresh(r, fmt, words, index, depth, base, a)
    requires leaf == Node(depth, index, 1, At(base, index, fmt.geometry.Span(depth)), Decode(fmt, words[index], depth), [])
    requires leaf.descriptor.Maps()
    ensures Say(r, fmt, words, index + 1, depth, base, PushLeaf(nodes, leaf, fmt.geometry.Span(depth), fmt.outputMask), a)
  {
    LeafInSlot(r, fmt, words, index, depth, base, a);
    LeafHits(fmt, nodes, leaf, depth, base, a);
    Spoken(r, fmt, words, index, depth, base, nodes, leaf, PushLeaf(nodes, leaf, fmt.geometry.Span(depth), fmt.outputMask), a);
  }

  lemma LeafInSlot(r: Reader, fmt: Format, words: seq<nat>, index: nat, depth: nat, base: nat, a: nat)
    requires ProbeReady(fmt) && depth < fmt.geometry.Depth() && index < |words|
    requires Fresh(r, fmt, words, index, depth, base, a) && Decode(fmt, words[index], depth).Maps()
    ensures InSlot(fmt, depth, base, index, a) ==>
              SlotOutput(r, fmt, words[index], depth, a) ==
              Some(Decode(fmt, words[index], depth).output + (a - At(base, index, fmt.geometry.Span(depth))))
  {
    if InSlot(fmt, depth, base, index, a) {
      LeafOutput(r, fmt, words[index], depth, At(base, index, fmt.geometry.Span(depth)), a);
    }
  }

  /** What pushing a leaf does to the hits is what one more slot does to the output. */
  lemma Spoken(r: Reader, fmt: Format, words: seq<nat>, index: nat, depth: nat, base: nat, nodes: seq<Node>,
               leaf: Node, after: seq<Node>, a: nat)
    requires ProbeReady(fmt) && depth < fmt.geometry.Depth() && index < |words|
    requires Hits(fmt, nodes, a) == Opt(SlotsOutput(r, fmt, words, index, depth, base, a))
    requires leaf.base == At(base, index, fmt.geometry.Span(depth))
    requires InSlot(fmt, depth, base, index, a) ==>
               SlotOutput(r, fmt, words[index], depth, a) == Some(leaf.descriptor.output + (a - leaf.base))
    requires Placed(fmt, after, depth, base, index + 1)
    requires Hits(fmt, after, a) ==
             if leaf.base <= a < leaf.base + fmt.geometry.Span(depth)
             then [leaf.descriptor.output + (a - leaf.base)] else Hits(fmt, nodes, a)
    ensures Say(r, fmt, words, index + 1, depth, base, after, a)
  {}

  lemma PlacedMore(fmt: Format, nodes: seq<Node>, depth: nat, base: nat, index: nat)
    requires depth < fmt.geometry.Depth() && Placed(fmt, nodes, depth, base, index)
    ensures Placed(fmt, nodes, depth, base, index + 1)
  {
    forall k | 0 <= k < |nodes| ensures PlacedNode(fmt, nodes[k], depth, base, index + 1) {
      assert PlacedNode(fmt, nodes[k], depth, base, index);
    }
  }

  lemma ChildReady(r: Reader, fmt: Format, indexBits: nat, depth: nat, base: nat, index: nat)
    requires WalkReady(r, fmt, indexBits, depth, base) && depth + 1 < fmt.geometry.Depth()
    ensures var at := At(base, index, fmt.geometry.Span(depth));
            && WalkReady(r, fmt, indexBits, depth + 1, at)
            && At(at, fmt.geometry.entries, fmt.geometry.Span(depth + 1)) == at + fmt.geometry.Span(depth)
  {
    ChildAligned(fmt.geometry, indexBits, depth, base, index);
    SpanStep(fmt.geometry, indexBits, depth);
  }

  lemma {:induction false} TableHits(r: Reader, fmt: Format, indexBits: nat, limit: nat, words: seq<nat>, index: nat,
                                     depth: nat, base: nat, nodes: seq<Node>, tally: Tally, a: nat)
    requires WalkReady(r, fmt, indexBits, depth, base) && index < |words| == fmt.geometry.entries
    requires Say(r, fmt, words, index, depth, base, nodes, a) && Fresh(r, fmt, words, index, depth, base, a)
    requires Decode(fmt, words[index], depth).kind.Table?
    requires Clean(tally, Slot(r, fmt, limit, words[index], index, depth, base, nodes, tally).1)
    ensures Say(r, fmt, words, index + 1, depth, base,
                Slot(r, fmt, limit, words[index], index, depth, base, nodes, tally).0, a)
    decreases fmt.geometry.Depth() - depth, 0, 0
  {
    var at := At(base, index, fmt.geometry.Span(depth));
    var descriptor := Decode(fmt, words[index], depth);
    ChildReady(r, fmt, indexBits, depth, base, index);
    var below := Descend(r, fmt, limit, descriptor.output, depth + 1, at, tally);
    DescendHits(r, fmt, indexBits, limit, descriptor.output, depth + 1, at, tally, a);
    BranchHits(r, fmt, words, index, depth, base, nodes, Node(depth, index, 1, at, descriptor, below.0), a);
  }

  lemma BranchHits(r: Reader, fmt: Format, words: seq<nat>, index: nat, depth: nat, base: nat, nodes: seq<Node>,
                   node: Node, a: nat)
    requires ProbeReady(fmt) && depth < fmt.geometry.Depth() && index < |words|
    requires Say(r, fmt, words, index, depth, base, nodes, a) && Fresh(r, fmt, words, index, depth, base, a)
    requires Decode(fmt, words[index], depth) == node.descriptor && node.descriptor.kind.Table?
    requires PlacedNode(fmt, node, depth, base, index + 1)
    requires Hits(fmt, node.children, a) ==
             if InSlot(fmt, depth, base, index, a) then Opt(Lookup(r, fmt, node.descriptor.output, depth + 1, a)) else []
    ensures Say(r, fmt, words, index + 1, depth, base, nodes + [node], a)
  {
    HitsSnoc(fmt, nodes, node, a);
    PlacedSnoc(fmt, nodes, node, depth, base, index);
    assert NodeHits(fmt, node, a) == Hits(fmt, node.children, a);
  }

  lemma PlacedSnoc(fmt: Format, nodes: seq<Node>, node: Node, depth: nat, base: nat, index: nat)
    requires depth < fmt.geometry.Depth() && Placed(fmt, nodes, depth, base, index)
    requires PlacedNode(fmt, node, depth, base, index + 1)
    ensures Placed(fmt, nodes + [node], depth, base, index + 1)
  {
    forall k | 0 <= k < |nodes| ensures PlacedNode(fmt, nodes[k], depth, base, index + 1) {
      assert PlacedNode(fmt, nodes[k], depth, base, index);
    }
  }

  /** A leaf slot says about each address in its range what the probe joins. */
  lemma LeafOutput(r: Reader, fmt: Format, word: nat, depth: nat, at: nat, a: nat)
    requires ProbeReady(fmt) && depth < fmt.geometry.Depth() && Decode(fmt, word, depth).Maps()
    requires at <= a < at + fmt.geometry.Span(depth) && And(a, fmt.geometry.Span(depth) - 1) == a - at
    ensures SlotOutput(r, fmt, word, depth, a) == Some(Decode(fmt, word, depth).output + (a - at))
  {
    LeafDecoded(fmt, word, depth);
    LeafJoin(fmt.geometry, word, fmt.outputMask, depth, a - at);
    JoinedOutput(r, fmt, word, depth, a);
  }

  lemma LeafDecoded(fmt: Format, word: nat, depth: nat)
    requires depth < fmt.geometry.Depth() && Decode(fmt, word, depth).Maps()
    ensures Decode(fmt, word, depth).output == AndNot(And(word, fmt.outputMask), fmt.geometry.Span(depth) - 1)
  {}

  lemma JoinedOutput(r: Reader, fmt: Format, word: nat, depth: nat, a: nat)
    requires ProbeReady(fmt) && depth < fmt.geometry.Depth() && Decode(fmt, word, depth).Maps()
    ensures SlotOutput(r, fmt, word, depth, a) ==
            Some(Or(Decode(fmt, word, depth).output, And(a, fmt.geometry.Span(depth) - 1)))
  {}

  lemma LeafHits(fmt: Format, nodes: seq<Node>, leaf: Node, depth: nat, base: nat, a: nat)
    requires depth < fmt.geometry.Depth() && Placed(fmt, nodes, depth, base, leaf.index)
    requires leaf.depth == depth && leaf.count == 1 && leaf.children == [] && leaf.descriptor.Maps()
    requires leaf.base == At(base, leaf.index, fmt.geometry.Span(depth))
    requires leaf.base <= a < leaf.base + fmt.geometry.Span(depth) ==> Hits(fmt, nodes, a) == []
    ensures var after := PushLeaf(nodes, leaf, fmt.geometry.Span(depth), fmt.outputMask);
            && Placed(fmt, after, depth, base, leaf.index + 1)
            && Hits(fmt, after, a) ==
               if leaf.base <= a < leaf.base + fmt.geometry.Span(depth)
               then [leaf.descriptor.output + (a - leaf.base)] else Hits(fmt, nodes, a)
  {
    if nodes != [] && Extends(nodes[|nodes| - 1], leaf.descriptor, leaf.index, fmt.geometry.Span(depth), fmt.outputMask) {
      FoldHits(fmt, nodes, leaf.descriptor, depth, base, leaf.index, a);
    } else {
      NewRunHits(fmt, nodes, leaf, depth, base, a);
    }
  }

  lemma NewRunHits(fmt: Format, nodes: seq<Node>, leaf: Node, depth: nat, base: nat, a: nat)
    requires depth < fmt.geometry.Depth() && Placed(fmt, nodes, depth, base, leaf.index)
    requires leaf.depth == depth && leaf.count == 1 && leaf.children == [] && leaf.descriptor.Maps()
    requires leaf.base == At(base, leaf.index, fmt.geometry.Span(depth))
    requires leaf.base <= a < leaf.base + fmt.geometry.Span(depth) ==> Hits(fmt, nodes, a) == []
    ensures Placed(fmt, nodes + [leaf], depth, base, leaf.index + 1)
    ensures Hits(fmt, nodes + [leaf], a) ==
            if leaf.base <= a < leaf.base + fmt.geometry.Span(depth)
            then [leaf.descriptor.output + (a - leaf.base)] else Hits(fmt, nodes, a)
  {
    HitsSnoc(fmt, nodes, leaf, a);
    PlacedSnoc(fmt, nodes, leaf, depth, base, leaf.index);
  }

  lemma FoldHits(fmt: Format, nodes: seq<Node>, descriptor: Descriptor, depth: nat, base: nat, index: nat, a: nat)
    requires depth < fmt.geometry.Depth() && nodes != [] && Placed(fmt, nodes, depth, base, index)
    requires Extends(nodes[|nodes| - 1], descriptor, index, fmt.geometry.Span(depth), fmt.outputMask)
    requires descriptor.Maps()
    requires var at := At(base, index, fmt.geometry.Span(depth));
             at <= a < at + fmt.geometry.Span(depth) ==> Hits(fmt, nodes, a) == []
    ensures var last, at := nodes[|nodes| - 1], At(base, index, fmt.geometry.Span(depth));
            var folded := nodes[..|nodes| - 1] + [last.(count := last.count + 1)];
            && Placed(fmt, folded, depth, base, index + 1)
            && Hits(fmt, folded, a) ==
               if at <= a < at + fmt.geometry.Span(depth) then [descriptor.output + (a - at)] else Hits(fmt, nodes, a)
  {
    var last, rest := nodes[|nodes| - 1], nodes[..|nodes| - 1];
    var longer := last.(count := last.count + 1);
    var at, span := At(base, index, fmt.geometry.Span(depth)), fmt.geometry.Span(depth);
    PlacedFront(fmt, nodes, depth, base, index);
    RunGrows(fmt, last, descriptor, depth, base, index, a);
    PlacedSnoc(fmt, rest, longer, depth, base, index);
    assert nodes == rest + [last];
    HitsSwapped(fmt, rest, last, longer, a, at <= a < at + span, descriptor.output + (a - at));
  }

  /** One node for another: where it adds a hit, nothing else had one. */
  lemma HitsSwapped(fmt: Format, rest: seq<Node>, was: Node, now: Node, a: nat, adds: bool, hit: int)
    requires adds ==> hit >= 0 && Hits(fmt, rest + [was], a) == []
    requires NodeHits(fmt, now, a) == if adds then [hit] else NodeHits(fmt, was, a)
    ensures Hits(fmt, rest + [now], a) == if adds then [hit] else Hits(fmt, rest + [was], a)
  {
    HitsSnoc(fmt, rest, was, a);
    HitsSnoc(fmt, rest, now, a);
  }

  lemma PlacedFront(fmt: Format, nodes: seq<Node>, depth: nat, base: nat, index: nat)
    requires depth < fmt.geometry.Depth() && nodes != [] && Placed(fmt, nodes, depth, base, index)
    ensures Placed(fmt, nodes[..|nodes| - 1], depth, base, index)
    ensures PlacedNode(fmt, nodes[|nodes| - 1], depth, base, index)
  {
    var rest := nodes[..|nodes| - 1];
    forall k | 0 <= k < |rest| ensures PlacedNode(fmt, rest[k], depth, base, index) {
      assert PlacedNode(fmt, nodes[k], depth, base, index);
    }
    assert PlacedNode(fmt, nodes[|nodes| - 1], depth, base, index);
  }

  /** A run one slot longer covers exactly that slot more, with the slot's own
      output there. */
  lemma RunGrows(fmt: Format, last: Node, descriptor: Descriptor, depth: nat, base: nat, index: nat, a: nat)
    requires depth < fmt.geometry.Depth() && PlacedNode(fmt, last, depth, base, index)
    requires Extends(last, descriptor, index, fmt.geometry.Span(depth), fmt.outputMask) && descriptor.Maps()
    ensures var span, longer := fmt.geometry.Span(depth), last.(count := last.count + 1);
            var at := At(base, index, span);
            && PlacedNode(fmt, longer, depth, base, index + 1)
            && NodeHits(fmt, longer, a) ==
               if at <= a < at + span then [descriptor.output + (a - at)] else NodeHits(fmt, last, a)
  {
    var span := fmt.geometry.Span(depth);
    Distribute(last.index, last.count, span);
    Distribute(last.count, 1, span);
    assert last.base + last.count * span == At(base, index, span);
  }

  // --- The two walks agree ------------------------------------------------------------

  ghost predicate ZeroFill(fmt: Format, indexBits: nat) {
    ProbeReady(fmt) && fmt.geometry.Regular(indexBits) && !fmt.geometry.fill && !fmt.geometry.tagged
  }

  /** A zero-fill regime holds exactly the addresses its input width reaches. */
  lemma HoldsIsBelow(fmt: Format, indexBits: nat, a: nat)
    requires ZeroFill(fmt, indexBits) && a < Pow2(ADDRESS_BITS)
    ensures fmt.geometry.Holds(a) <==> a < Pow2(fmt.geometry.addressBits)
  {
    Masked(a, ADDRESS_BITS);
    QuotientZero(a, Pow2(fmt.geometry.addressBits));
  }

  lemma WithinIsSelf(g: Geometry, a: nat)
    requires a < Pow2(g.addressBits)
    ensures g.Within(a) == a
  {
    Masked(a, g.addressBits);
  }

  lemma Masked(a: nat, k: nat)
    ensures a < Pow2(k) ==> And(a, Pow2(k) - 1) == a
  {
    AndLow(a, k);
    if a < Pow2(k) { ModUnique(a, 0, a, Pow2(k)); }
  }

  lemma QuotientZero(a: nat, m: nat)
    requires m > 0
    ensures a / m == 0 <==> a < m
  {
    ModSplit(a, m);
    if a < m { ModUnique(a, 0, a, m); }
  }

  /** How far the root table reaches. */
  function Reach(g: Geometry): nat
    requires g.shifts != []
  {
    g.entries * g.Span(0)
  }

  lemma Pow2Mono(a: nat, b: nat)
    requires a <= b
    ensures Pow2(a) <= Pow2(b)
  {
    Pow2Add(a, b - a);
    MulMono(1, Pow2(b - a), Pow2(a));
  }

  /** For every address the regime takes, the probe finds an output exactly when
      one leaf run of a complete tree covers it, and the output is that run's
      plus the offset into it. */
  lemma TreeIsProbe(r: Reader, fmt: Format, indexBits: nat, root: nat, limit: nat, a: nat)
    requires Steady(r) && ZeroFill(fmt, indexBits) && a < Pow2(fmt.geometry.addressBits)
    requires var tree := WholeTree(r, fmt, root, limit); tree.unreadable == [] && !tree.truncated
    ensures Hits(fmt, WholeTree(r, fmt, root, limit).nodes, a) == Opt(Probe(r, fmt, root, a).output)
  {
    var g := fmt.geometry;
    Pow2Mono(g.addressBits, g.shifts[0] + indexBits);
    Pow2Add(indexBits, g.shifts[0]);
    Pow2Mono(g.addressBits, ADDRESS_BITS);
    HoldsIsBelow(fmt, indexBits, a);
    WithinIsSelf(g, a);
    ModUnique(0, 0, 0, Reach(g));
    assert a < At(0, g.entries, g.Span(0));
    DescendHits(r, fmt, indexBits, limit, root, 0, 0, FRESH, a);
    ProbeLookup(r, fmt, a, root, 0, []);
  }
}
