/** What a geometry promises: which guest register values have one, which half an
    address belongs to, and how far a tree and a probe agree. */
module Geometries {
  import opened Words
  import opened Bits
  import opened Translation
  import opened PageTree
  import opened PageWalks

  // --- Guest geometries --------------------------------------------------------

  lemma {:induction false} ShiftsAreRegular(granule: nat, bits: nat, indexBits: nat)
    requires indexBits > 0
    ensures var s := Shifts(granule, bits, indexBits);
            && (s == [] <==> granule >= bits)
            && (s != [] ==> s[|s| - 1] == granule && s[0] < bits <= s[0] + indexBits)
            && forall d :: 0 <= d < |s| ==> s[d] == granule + (|s| - 1 - d) * indexBits
    decreases bits - granule
  {
    if granule < bits {
      ShiftsAreRegular(granule + indexBits, bits, indexBits);
      var t := Shifts(granule + indexBits, bits, indexBits);
      var s := Shifts(granule, bits, indexBits);
      forall d | 0 <= d < |s| ensures s[d] == granule + (|s| - 1 - d) * indexBits {
        if d < |t| {
          Distribute(1, |t| - 1 - d, indexBits);
        }
      }
    }
  }

  lemma {:induction false} BitLengthOfPow2(k: nat)
    ensures BitLength(Pow2(k)) == k + 1
  {
    if k > 0 {
      BitLengthOfPow2(k - 1);
    }
  }

  function Field(tcr: nat, high: bool): nat { And(Shr(tcr, if high then 30 else 14), 3) }

  function Width(tcr: nat, high: bool): nat {
    var size := And(if high then Shr(tcr, 16) else tcr, 0x3F);
    TxszBound(if high then Shr(tcr, 16) else tcr);
    ADDRESS_BITS - size
  }

  function Read(tcr: nat, high: bool): nat {
    ADDRESS_BITS - if And(Shr(tcr, if high then 38 else 37), 1) == 1 then TAG_BITS else 0
  }

  /** The levels nest without gap or overlap, index exactly the input and end at
      the granule, numbered down to it. */
  ghost predicate Exact(g: Geometry, granule: nat, bits: nat, fill: bool) {
    && granule >= 3 && g.Regular(granule - 3) && g.addressBits == bits && g.fill == fill
    && g.shifts[|g.shifts| - 1] == granule
    && forall d :: 0 <= d < |g.levels| ==> g.levels[d] == GRANULE_LEVEL - (|g.levels| - 1 - d)
  }

  /** A guest's register defines a geometry exactly when its granule is not
      reserved, its input reaches above the granule, and bits are left over to say
      which half an address is in. */
  lemma GuestGeometryExists(tcr: nat, high: bool)
    ensures GuestGeometry(tcr, high).Ok? <==>
            && Granule(Field(tcr, high), high).Some?
            && Granule(Field(tcr, high), high).value < Width(tcr, high) < Read(tcr, high)
    ensures GuestGeometry(tcr, high).Ok? ==>
            Exact(GuestGeometry(tcr, high).value, Granule(Field(tcr, high), high).value, Width(tcr, high), high)
  {
    if Granule(Field(tcr, high), high).Some? {
      var granule := Granule(Field(tcr, high), high).value;
      var tagged := And(Shr(tcr, if high then 38 else 37), 1) == 1;
      GuestMakes(tcr, high, granule, tagged);
      MadeGeometry(granule, granule - 3, Width(tcr, high), high, tagged);
    }
  }

  lemma GuestMakes(tcr: nat, high: bool, granule: nat, tagged: bool)
    requires Granule(Field(tcr, high), high) == Some(granule)
    requires tagged == (And(Shr(tcr, if high then 38 else 37), 1) == 1)
    ensures granule > 3 && Pow2(granule - 3) >= 2
    ensures GuestGeometry(tcr, high) ==
            MakeGeometry(Shifts(granule, Width(tcr, high), granule - 3), Pow2(granule - 3), Width(tcr, high), None, high, tagged)
  {
    EntriesAtLeastTwo(granule - 3);
  }

  lemma MadeGeometry(granule: nat, indexBits: nat, bits: nat, fill: bool, tagged: bool)
    requires granule >= 3 && indexBits == granule - 3 > 0 && Pow2(indexBits) >= 2
    ensures var built := MakeGeometry(Shifts(granule, bits, indexBits), Pow2(indexBits), bits, None, fill, tagged);
            && (built.Ok? <==> granule < bits < ADDRESS_BITS - if tagged then TAG_BITS else 0)
            && (built.Ok? ==> Exact(built.value, granule, bits, fill))
  {
    BitLengthOfPow2(indexBits);
    ShiftsAreRegular(granule, bits, indexBits);
    var s := Shifts(granule, bits, indexBits);
    forall d | 0 <= d < |s| ensures (s[d] - granule) / indexBits == |s| - 1 - d {
      ModUnique(s[d] - granule, |s| - 1 - d, 0, indexBits);
    }
    forall d | 0 <= d < |s| - 1 ensures s[d] == s[d + 1] + indexBits {
      Distribute(1, |s| - 2 - d, indexBits);
    }
  }

  // --- Which half --------------------------------------------------------------

  /** The high half is the topmost 2^addressBits addresses the regime reads, the low
      half the bottommost; a tag above them is ignored. */
  lemma HoldsIsHalf(g: Geometry, a: nat)
    requires g.addressBits < g.Top()
    ensures var read := a % Pow2(g.Top());
            g.Holds(a) <==>
            if g.fill then Pow2(g.Top()) - Pow2(g.addressBits) <= read else read < Pow2(g.addressBits)
  {
    AndLow(a, g.Top());
    var read, width := a % Pow2(g.Top()), Pow2(g.addressBits);
    var halves := Pow2(g.Top() - g.addressBits);
    Pow2Add(g.Top() - g.addressBits, g.addressBits);
    ModSplit(a, Pow2(g.Top()));
    HalfOf(read, width, halves);
  }

  lemma HalfOf(read: nat, width: nat, halves: nat)
    requires width > 0 && read < halves * width
    ensures read / width == halves - 1 <==> halves * width - width <= read
    ensures read / width == 0 <==> read < width
  {
    var q := read / width;
    ModSplit(read, width);
    Distribute(halves, -1, width);
    if halves * width - width <= read {
      ModUnique(read, halves - 1, read - (halves - 1) * width, width);
    }
    if read < width {
      ModUnique(read, 0, read, width);
    }
  }

  // --- How far the tree and the probe agree --------------------------------------

  ghost predicate Agree(r: Reader, fmt: Format, root: nat, limit: nat, a: nat)
    requires ProbeReady(fmt)
  {
    var tree := WholeTree(r, fmt, root, limit);
    Steady(r) && tree.unreadable == [] && !tree.truncated && a < Pow2(ADDRESS_BITS) ==>
      Hits(fmt, tree.nodes, a) == Opt(Probe(r, fmt, root, a).output)
  }

  /** Beyond the regime's input nothing is probed; the tree goes on to the end of
      its root table. */
  lemma AgreeIfFull(r: Reader, fmt: Format, indexBits: nat, root: nat, limit: nat, a: nat)
    requires ZeroFill(fmt, indexBits) && fmt.geometry.addressBits == fmt.geometry.shifts[0] + indexBits
    ensures Agree(r, fmt, root, limit, a)
  {
    var g := fmt.geometry;
    var tree := WholeTree(r, fmt, root, limit);
    if Steady(r) && tree.unreadable == [] && !tree.truncated && a < Pow2(ADDRESS_BITS) {
      if a < Pow2(g.addressBits) {
        TreeIsProbe(r, fmt, indexBits, root, limit, a);
      } else {
        BeyondInput(r, fmt, indexBits, root, a);
        PastInput(r, fmt, indexBits, root, limit, a);
      }
    }
  }

  lemma PastInput(r: Reader, fmt: Format, indexBits: nat, root: nat, limit: nat, a: nat)
    requires Steady(r) && ZeroFill(fmt, indexBits) && fmt.geometry.addressBits == fmt.geometry.shifts[0] + indexBits
    requires var tree := WholeTree(r, fmt, root, limit); tree.unreadable == [] && !tree.truncated
    requires Pow2(fmt.geometry.addressBits) <= a
    ensures Hits(fmt, WholeTree(r, fmt, root, limit).nodes, a) == []
  {
    Pow2Add(indexBits, fmt.geometry.shifts[0]);
    RootHits(r, fmt, indexBits, root, limit, a);
  }

  lemma BeyondInput(r: Reader, fmt: Format, indexBits: nat, root: nat, a: nat)
    requires ZeroFill(fmt, indexBits) && Pow2(fmt.geometry.addressBits) <= a < Pow2(ADDRESS_BITS)
    ensures Probe(r, fmt, root, a).output == None
  {
    HoldsIsBelow(fmt, indexBits, a);
  }

  lemma RootHits(r: Reader, fmt: Format, indexBits: nat, root: nat, limit: nat, a: nat)
    requires Steady(r) && ZeroFill(fmt, indexBits)
    requires var tree := WholeTree(r, fmt, root, limit); tree.unreadable == [] && !tree.truncated
    ensures Hits(fmt, WholeTree(r, fmt, root, limit).nodes, a) ==
            if a < Reach(fmt.geometry) then Opt(Lookup(r, fmt, root, 0, a)) else []
  {
    ModUnique(0, 0, 0, Reach(fmt.geometry));
    assert At(0, fmt.geometry.entries, fmt.geometry.Span(0)) == Reach(fmt.geometry);
    DescendHits(r, fmt, indexBits, limit, root, 0, 0, FRESH, a);
  }

  /** A table with the same word in every slot. */
  function Uniform(word: nat, count: nat): (r: seq<byte>)
    ensures |r| == count * DESCRIPTOR_BYTES
  {
    if count == 0 then [] else ToLE(word, DESCRIPTOR_BYTES) + Uniform(word, count - 1)
  }

  lemma {:induction false} UniformWord(word: nat, count: nat, i: nat)
    requires i < count
    ensures Uniform(word, count)[i * DESCRIPTOR_BYTES..i * DESCRIPTOR_BYTES + DESCRIPTOR_BYTES] ==
            ToLE(word, DESCRIPTOR_BYTES)
    decreases i
  {
    var whole := Uniform(word, count);
    assert whole == ToLE(word, DESCRIPTOR_BYTES) + Uniform(word, count - 1);
    if i > 0 {
      UniformWord(word, count - 1, i - 1);
    }
  }

  /** The root a partial top table makes the two walks disagree over: every slot
      of it a leaf. */
  lemma DisagreeIfPartial(fmt: Format, indexBits: nat, leaf: nat)
    requires ZeroFill(fmt, indexBits) && fmt.geometry.addressBits < fmt.geometry.shifts[0] + indexBits
    requires leaf < TWO_64 && Decode(fmt, leaf, 0).Maps()
    ensures !Agree(Ram(0, Uniform(leaf, fmt.geometry.entries)), fmt, 0, 1, Pow2(fmt.geometry.addressBits))
  {
    var g := fmt.geometry;
    var r, a := Ram(0, Uniform(leaf, g.entries)), Pow2(g.addressBits);
    JustBeyond(g, indexBits);
    BeyondInput(r, fmt, indexBits, 0, a);
    UniformSlots(r, fmt, leaf, g.entries);
    RootHits(r, fmt, indexBits, 0, 1, a);
    UniformLookup(r, fmt, indexBits, leaf, a);
  }

  /** The first address past a partial input is still in the root table. */
  lemma JustBeyond(g: Geometry, indexBits: nat)
    requires g.Regular(indexBits) && g.addressBits < g.shifts[0] + indexBits && g.addressBits < ADDRESS_BITS
    ensures Pow2(g.addressBits) < Reach(g) && Pow2(g.addressBits) < Pow2(ADDRESS_BITS)
  {
    Pow2Mono(g.addressBits + 1, ADDRESS_BITS);
    Pow2Mono(g.addressBits + 1, g.shifts[0] + indexBits);
    Pow2Add(indexBits, g.shifts[0]);
  }

  /** Nothing below the root is fetched, so one table is all the walk reads. */
  lemma UniformSlots(r: Reader, fmt: Format, leaf: nat, entries: nat)
    requires fmt.geometry.shifts != [] && fmt.geometry.entries == entries > 0 && r == Ram(0, Uniform(leaf, entries))
    requires leaf < TWO_64 && Decode(fmt, leaf, 0).Maps()
    ensures var tree := WholeTree(r, fmt, 0, 1); tree.unreadable == [] && !tree.truncated
  {
    var raw := ReadBytes(r, 0, fmt.geometry.TableBytes()).data;
    assert raw == Uniform(leaf, entries);
    var words := Unpack(raw, entries);
    UniformWords(leaf, entries);
    LeafSlotsRead(r, fmt, 1, words, entries, leaf, Tally(1, [], false));
  }

  lemma UniformWords(leaf: nat, entries: nat)
    requires leaf < TWO_64
    ensures Unpack(Uniform(leaf, entries), entries) == seq(entries, i => leaf)
  {
    Pow2Of8();
    forall i | 0 <= i < entries ensures Unpack(Uniform(leaf, entries), entries)[i] == leaf {
      UniformWord(leaf, entries, i);
      FromToLE(leaf, DESCRIPTOR_BYTES);
    }
  }

  lemma {:induction false} LeafSlotsRead(r: Reader, fmt: Format, limit: nat, words: seq<nat>, upto: nat, leaf: nat,
                                         tally: Tally)
    requires fmt.geometry.shifts != [] && upto <= |words| && Decode(fmt, leaf, 0).Maps()
    requires forall i :: 0 <= i < |words| ==> words[i] == leaf
    ensures Slots(r, fmt, limit, words, upto, 0, 0, tally).1 == tally
    decreases upto
  {
    if upto > 0 {
      LeafSlotsRead(r, fmt, limit, words, upto - 1, leaf, tally);
    }
  }

  lemma {:induction false} FromToLE(v: nat, n: nat)
    requires v < Pow2(8 * n)
    ensures FromLE(ToLE(v, n)) == v
    decreases n
  {
    if n > 0 {
      Pow2Add(8, 8 * (n - 1));
      Pow2Of8();
      FromToLE(v / 0x100, n - 1);
    }
  }

  lemma Pow2Of8()
    ensures Pow2(8) == 0x100 && Pow2(64) == TWO_64
  {
    assert Pow2(4) == 16 by { assert Pow2(1) == 2 && Pow2(2) == 4 && Pow2(3) == 8; }
    Pow2Add(4, 4);
    Pow2Add(8, 8);
    Pow2Add(16, 16);
    Pow2Add(32, 32);
  }

  lemma UniformLookup(r: Reader, fmt: Format, indexBits: nat, leaf: nat, a: nat)
    requires ZeroFill(fmt, indexBits) && r == Ram(0, Uniform(leaf, fmt.geometry.entries))
    requires leaf < TWO_64 && Decode(fmt, leaf, 0).Maps()
    ensures Lookup(r, fmt, 0, 0, a).Some?
  {
    var i := fmt.geometry.Index(a, 0);
    AndLow(Shr(a, fmt.geometry.shifts[0]), indexBits);
    UniformWord(leaf, fmt.geometry.entries, i);
    Pow2Of8();
    FromToLE(leaf, DESCRIPTOR_BYTES);
  }

  /** For a regime that can map at its top level at all, the tree and the probe
      agree on every address exactly when the root table ends where the input
      does. */
  lemma AgreeIffFull(fmt: Format, indexBits: nat, leaf: nat)
    requires ZeroFill(fmt, indexBits) && leaf < TWO_64 && Decode(fmt, leaf, 0).Maps()
    ensures (forall r: Reader, root: nat, limit: nat, a: nat :: Agree(r, fmt, root, limit, a)) <==>
            fmt.geometry.addressBits == fmt.geometry.shifts[0] + indexBits
  {
    if fmt.geometry.addressBits == fmt.geometry.shifts[0] + indexBits {
      forall r: Reader, root: nat, limit: nat, a: nat ensures Agree(r, fmt, root, limit, a) {
        AgreeIfFull(r, fmt, indexBits, root, limit, a);
      }
    } else {
      DisagreeIfPartial(fmt, indexBits, leaf);
    }
  }

  // --- Whose fault ------------------------------------------------------------------

  /** The descriptor a probe that ended would have read next. */
  function NextRead(fmt: Format, root: nat, found: Found): nat
    requires |found.steps| < fmt.geometry.Depth() && fmt.geometry.entries > 0
  {
    var table := if found.steps == [] then root else found.steps[|found.steps| - 1].descriptor.output;
    table + fmt.geometry.Index(fmt.geometry.Within(found.address), |found.steps|) * DESCRIPTOR_BYTES
  }

  /** A guest's IPA space over memory itself. */
  ghost predicate OverMemory(r: Reader) { r.Guest? && Steady(r.inner) }

  /** S1PTW: the descriptor a probe stopped short at has no Stage 2 translation
      itself. Unreadable: it has one. Translation: every table was readable. */
  ghost predicate Blamed(r: Reader, fmt: Format, root: nat, found: Found)
    requires OverMemory(r) && ProbeReady(fmt) && ProbeReady(r.stage2)
  {
    match found.fault
    case NoFault => found.output.Some?
    case NoTranslation =>
      found.output.None? && found.steps != [] && found.steps[|found.steps| - 1].descriptor.kind.Invalid?
    case AddressSize => found.output.None? && found.steps == []
    case S1ptw =>
      && found.output.None? && |found.steps| < fmt.geometry.Depth()
      && Probe(r.inner, r.stage2, r.root, NextRead(fmt, root, found)).output.None?
    case UnreadableTable =>
      && found.output.None? && |found.steps| < fmt.geometry.Depth()
      && Probe(r.inner, r.stage2, r.root, NextRead(fmt, root, found)).output.Some?
  }

  /** A guest's walk blames its own tables and the host's for what each did. */
  lemma S1ptwIsStage2(r: Reader, fmt: Format, root: nat, address: nat)
    requires OverMemory(r) && ProbeReady(fmt) && ProbeReady(r.stage2)
    ensures Blamed(r, fmt, root, Probe(r, fmt, root, address))
  {
    if fmt.geometry.Holds(address) {
      S1ptwFrom(r, fmt, address, root, root, 0, []);
    }
  }

  lemma {:induction false} S1ptwFrom(r: Reader, fmt: Format, address: nat, root: nat, table: nat, depth: nat,
                                     steps: seq<Step>)
    requires OverMemory(r) && ProbeReady(fmt) && ProbeReady(r.stage2) && |steps| == depth < fmt.geometry.Depth()
    requires table == if steps == [] then root else steps[|steps| - 1].descriptor.output
    ensures Blamed(r, fmt, root, ProbeFrom(r, fmt, address, table, depth, steps))
    decreases fmt.geometry.Depth() - depth
  {
    var pa := SlotAt(fmt, address, table, depth);
    var read := ReadBytes(r, pa, DESCRIPTOR_BYTES);
    if !read.Bytes? {
      ProbeUnread(r, fmt, address, table, depth, steps);
      Stopped(r, fmt, address, root, pa, fmt.geometry.levels[depth], steps);
    } else if Decode(fmt, FromLE(read.data), depth).kind.Table? {
      ProbeOn(r, fmt, address, table, depth, steps, read.data);
      S1ptwBelow(r, fmt, address, root, table, depth, steps, read.data);
    } else {
      ProbeEnds(r, fmt, address, table, depth, steps, read.data);
    }
  }

  /** A table's level: the walk goes on, or this was the last. */
  lemma {:induction false} S1ptwBelow(r: Reader, fmt: Format, address: nat, root: nat, table: nat, depth: nat, steps: seq<Step>,
                                      raw: seq<byte>)
    requires OverMemory(r) && ProbeReady(fmt) && ProbeReady(r.stage2) && |steps| == depth < fmt.geometry.Depth()
    requires Decode(fmt, FromLE(raw), depth).kind.Table?
    ensures var taken := Taken(fmt, address, table, depth, steps, raw);
            Blamed(r, fmt, root, ProbeFrom(r, fmt, address, Decode(fmt, FromLE(raw), depth).output, depth + 1, taken))
    decreases fmt.geometry.Depth() - depth, 0
  {
    S1ptwFrom(r, fmt, address, root, Decode(fmt, FromLE(raw), depth).output, depth + 1,
              Taken(fmt, address, table, depth, steps, raw));
  }

  lemma Stopped(r: Reader, fmt: Format, address: nat, root: nat, pa: nat, level: int, steps: seq<Step>)
    requires OverMemory(r) && ProbeReady(fmt) && ProbeReady(r.stage2) && |steps| < fmt.geometry.Depth()
    requires pa == NextRead(fmt, root, Found(address, steps, level, None, S1ptw))
    requires !ReadBytes(r, pa, DESCRIPTOR_BYTES).Bytes?
    ensures Blamed(r, fmt, root, Found(address, steps, level, None,
                                       if ReadBytes(r, pa, DESCRIPTOR_BYTES).Stage2Fault? then S1ptw else UnreadableTable))
  {
    var found := Probe(r.inner, r.stage2, r.root, pa);
    assert r == Guest(r.inner, r.stage2, r.root);
    assert found.output.Some? ==> ReadBytes(r, pa, DESCRIPTOR_BYTES) == ReadBytes(r.inner, found.output.value, DESCRIPTOR_BYTES);
  }
}
