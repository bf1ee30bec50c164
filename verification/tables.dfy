/** The captured copy of the tables: only the words that were set, and the extents
    that say where the zeros were. */
module CapturedTables {
  import opened Words
  import opened Bits
  import opened Translation
  import opened PageTree
  import opened PageWalks

  datatype Captured = NoImage | Refused | Captured(extents: seq<Extent>, words: map<nat, nat>)

  /** What memory holds at `at`, as one little-endian descriptor. */
  function WordAt(r: Reader, at: nat): nat {
    match ReadBytes(r, at, DESCRIPTOR_BYTES)
    case Bytes(raw) => FromLE(raw)
    case _ => 0
  }

  /** Is this one of the words the copy of `e` looks at? */
  predicate OnStride(e: Extent, at: nat) {
    e.base <= at < e.base + e.size && (at - e.base) % DESCRIPTOR_BYTES == 0
  }

  ghost predicate Held(extents: seq<Extent>, at: nat) {
    exists k :: 0 <= k < |extents| && OnStride(extents[k], at)
  }

  predicate Readable(r: Reader, e: Extent) {
    e.size % DESCRIPTOR_BYTES == 0 && ReadBytes(r, e.base, e.size).Bytes?
  }

  /** These words are exactly the words that are set on the extents' strides. */
  ghost predicate WordsOf(r: Reader, extents: seq<Extent>, words: map<nat, nat>) {
    forall at: nat :: WordKept(r, Held(extents, at), words, at)
  }

  predicate WordKept(r: Reader, held: bool, words: map<nat, nat>, at: nat) {
    && (at in words <==> held && WordAt(r, at) != 0)
    && (at in words ==> words[at] == WordAt(r, at))
  }

  /** The extents of the tables this composition builds, in order. */
  function Present(tables: seq<string>, resolved: map<string, Extent>): seq<Extent> {
    if tables == [] then []
    else
      var last := tables[|tables| - 1];
      Present(tables[..|tables| - 1], resolved) + if last in resolved then [resolved[last]] else []
  }

  // --- The copy as it runs --------------------------------------------------------

  method CopyTables(r: Reader, tables: seq<string>, resolved: map<string, Extent>) returns (c: Captured)
    requires Steady(r) && forall name :: name in resolved ==> resolved[name].size % DESCRIPTOR_BYTES == 0
    ensures c.NoImage? <==> resolved == map[]
    ensures c.Refused? <==>
            resolved != map[] && exists k :: 0 <= k < |Present(tables, resolved)| && !Readable(r, Present(tables, resolved)[k])
    ensures c.Captured? ==> c.extents == Present(tables, resolved) && WordsOf(r, c.extents, c.words)
  {
    if resolved == map[] {
      return NoImage;
    }
    var words: map<nat, nat> := map[];
    var extents: seq<Extent> := [];
    for i := 0 to |tables|
      invariant extents == Present(tables[..i], resolved)
      invariant forall k :: 0 <= k < |extents| ==> Readable(r, extents[k])
      invariant WordsOf(r, extents, words)
    {
      assert tables[..i + 1][..i] == tables[..i];
      if tables[i] in resolved {
        var entry := resolved[tables[i]];
        var raw := ReadBytes(r, entry.base, entry.size);
        if !raw.Bytes? {
          PresentPrefix(tables, i + 1, resolved);
          assert !Readable(r, Present(tables, resolved)[|extents|]);
          return Refused;
        }
        words := CopyExtent(r, entry, raw.data, extents, words);
        extents := extents + [entry];
      }
    }
    assert tables[..|tables|] == tables;
    return Captured(extents, words);
  }

  lemma {:induction false} PresentPrefix(tables: seq<string>, i: nat, resolved: map<string, Extent>)
    requires i <= |tables|
    ensures Present(tables[..i], resolved) <= Present(tables, resolved)
    decreases |tables|
  {
    if i < |tables| {
      var short := tables[..|tables| - 1];
      PresentPrefix(short, i, resolved);
      assert short[..i] == tables[..i];
    } else {
      assert tables[..i] == tables;
    }
  }

  /** One extent's words onto those already kept. */
  method CopyExtent(r: Reader, entry: Extent, raw: seq<byte>, ghost extents: seq<Extent>, words: map<nat, nat>)
    returns (more: map<nat, nat>)
    requires Steady(r) && Readable(r, entry) && raw == ReadBytes(r, entry.base, entry.size).data
    requires WordsOf(r, extents, words)
    ensures WordsOf(r, extents + [entry], more)
  {
    more := words;
    var offset := 0;
    while offset < entry.size
      invariant offset <= entry.size && offset % DESCRIPTOR_BYTES == 0
      invariant WordsUpTo(r, extents, entry, offset, more)
    {
      SliceIsWord(r, entry, raw, offset);
      var value := FromLE(raw[offset..offset + DESCRIPTOR_BYTES]);
      ghost var before := more;
      if value != 0 {
        more := more[entry.base + offset := value];
      }
      OneMore(r, extents, entry, offset, before, more);
      offset := offset + DESCRIPTOR_BYTES;
    }
    HeldSnoc(extents, entry);
  }

  /** As `WordsOf`, with only the first `offset` bytes of `entry` looked at. */
  ghost predicate WordsUpTo(r: Reader, extents: seq<Extent>, entry: Extent, offset: nat, words: map<nat, nat>) {
    forall at: nat :: WordKept(r, Held(extents, at) || OnStride(Extent(entry.base, offset), at), words, at)
  }

  lemma OneMore(r: Reader, extents: seq<Extent>, entry: Extent, offset: nat, words: map<nat, nat>, more: map<nat, nat>)
    requires WordsUpTo(r, extents, entry, offset, words) && offset % DESCRIPTOR_BYTES == 0
    requires var value := WordAt(r, entry.base + offset);
             more == if value != 0 then words[entry.base + offset := value] else words
    ensures WordsUpTo(r, extents, entry, offset + DESCRIPTOR_BYTES, more)
  {
    var here, there := Extent(entry.base, offset), Extent(entry.base, offset + DESCRIPTOR_BYTES);
    forall at: nat ensures WordKept(r, Held(extents, at) || OnStride(there, at), more, at) {
      assert WordKept(r, Held(extents, at) || OnStride(here, at), words, at);
      assert OnStride(there, at) <==> OnStride(here, at) || at == entry.base + offset;
    }
  }

  lemma HeldSnoc(extents: seq<Extent>, entry: Extent)
    ensures forall at: nat :: Held(extents + [entry], at) <==> Held(extents, at) || OnStride(entry, at)
  {
    var all := extents + [entry];
    forall at: nat ensures Held(all, at) <==> Held(extents, at) || OnStride(entry, at) {
      if Held(extents, at) {
        var k :| 0 <= k < |extents| && OnStride(extents[k], at);
        assert OnStride(all[k], at);
      }
      if OnStride(entry, at) {
        assert OnStride(all[|extents|], at);
      }
    }
  }

  lemma SliceIsWord(r: Reader, entry: Extent, raw: seq<byte>, offset: nat)
    requires Steady(r) && Readable(r, entry) && raw == ReadBytes(r, entry.base, entry.size).data
    requires offset < entry.size && offset % DESCRIPTOR_BYTES == 0
    ensures offset + DESCRIPTOR_BYTES <= entry.size
    ensures FromLE(raw[offset..offset + DESCRIPTOR_BYTES]) == WordAt(r, entry.base + offset)
  {
    WordOfTable(r, entry.base, entry.size / DESCRIPTOR_BYTES, offset / DESCRIPTOR_BYTES);
  }

  // --- Reading back ------------------------------------------------------------------

  /** Every whole aligned word inside an extent is on some extent's stride. */
  ghost predicate Strided(extents: seq<Extent>) {
    forall at: nat | at % DESCRIPTOR_BYTES == 0 && Inside(extents, at, DESCRIPTOR_BYTES) :: Held(extents, at)
  }

  /** Tables laid out on eight bytes, as the linker's are, hide none. */
  lemma AlignedIsStrided(extents: seq<Extent>)
    requires forall k :: 0 <= k < |extents| ==> extents[k].base % 8 == 0
    ensures Strided(extents)
  {
    forall at: nat | at % DESCRIPTOR_BYTES == 0 && Inside(extents, at, DESCRIPTOR_BYTES) ensures Held(extents, at) {
      var k :| 0 <= k < |extents| && extents[k].base <= at && at + DESCRIPTOR_BYTES <= extents[k].base + extents[k].size;
      assert OnStride(extents[k], at);
    }
  }

  ghost predicate CopyOf(c: Reader, r: Reader) {
    && c.Copy? && r.Ram? && WordsOf(r, c.extents, c.words)
    && forall k :: 0 <= k < |c.extents| ==> Readable(r, c.extents[k])
  }

  lemma InsideIsReadable(c: Reader, r: Reader, pa: nat, size: nat)
    requires CopyOf(c, r) && Inside(c.extents, pa, size)
    ensures ReadBytes(r, pa, size).Bytes?
  {
    var k :| 0 <= k < |c.extents| && c.extents[k].base <= pa && pa + size <= c.extents[k].base + c.extents[k].size;
    assert Readable(r, c.extents[k]);
  }

  lemma OneWordBack(c: Reader, r: Reader, pa: nat)
    requires CopyOf(c, r) && Strided(c.extents) && pa % DESCRIPTOR_BYTES == 0 && Inside(c.extents, pa, DESCRIPTOR_BYTES)
    ensures ReadBytes(r, pa, DESCRIPTOR_BYTES) ==
            Bytes(ToLE(if pa in c.words then c.words[pa] else 0, DESCRIPTOR_BYTES))
  {
    InsideIsReadable(c, r, pa, DESCRIPTOR_BYTES);
    assert WordKept(r, Held(c.extents, pa), c.words, pa);
    ToFromLE(ReadBytes(r, pa, DESCRIPTOR_BYTES).data);
  }

  predicate WordBack(words: map<nat, nat>, pa: nat, raw: seq<byte>, i: nat)
    requires i * DESCRIPTOR_BYTES + DESCRIPTOR_BYTES <= |raw|
  {
    var at := pa + i * DESCRIPTOR_BYTES;
    raw[i * DESCRIPTOR_BYTES..i * DESCRIPTOR_BYTES + DESCRIPTOR_BYTES] ==
    ToLE(if at in words then words[at] else 0, DESCRIPTOR_BYTES)
  }

  lemma {:induction false} AllWordsBack(words: map<nat, nat>, pa: nat, raw: seq<byte>, count: nat)
    requires |raw| == count * DESCRIPTOR_BYTES
    requires forall i: nat :: i < count ==> WordBack(words, pa, raw, i)
    ensures CopiedWords(words, pa, count) == raw
    decreases count
  {
    if count > 0 {
      var rest := raw[DESCRIPTOR_BYTES..];
      var next := pa + DESCRIPTOR_BYTES;
      assert WordBack(words, pa, raw, 0);
      forall i: nat | i < count - 1 ensures WordBack(words, next, rest, i) {
        assert WordBack(words, pa, raw, i + 1);
        OneWordOn(words, pa, raw, count, i);
      }
      AllWordsBack(words, next, rest, count - 1);
      assert raw == raw[..DESCRIPTOR_BYTES] + rest;
    }
  }

  lemma OneWordOn(words: map<nat, nat>, pa: nat, raw: seq<byte>, count: nat, i: nat)
    requires |raw| == count * DESCRIPTOR_BYTES && i + 1 < count && WordBack(words, pa, raw, i + 1)
    ensures WordBack(words, pa + DESCRIPTOR_BYTES, raw[DESCRIPTOR_BYTES..], i)
  {
    assert raw[DESCRIPTOR_BYTES..][i * DESCRIPTOR_BYTES..i * DESCRIPTOR_BYTES + DESCRIPTOR_BYTES] ==
           raw[(i + 1) * DESCRIPTOR_BYTES..(i + 1) * DESCRIPTOR_BYTES + DESCRIPTOR_BYTES];
  }

  lemma PartBack(words: map<nat, nat>, r: Reader, pa: nat, count: nat, i: nat)
    requires Steady(r) && i < count && ReadBytes(r, pa, count * DESCRIPTOR_BYTES).Bytes?
    requires var at := pa + i * DESCRIPTOR_BYTES;
             ReadBytes(r, at, DESCRIPTOR_BYTES) == Bytes(ToLE(if at in words then words[at] else 0, DESCRIPTOR_BYTES))
    ensures WordBack(words, pa, ReadBytes(r, pa, count * DESCRIPTOR_BYTES).data, i)
  {
    WordOfTable(r, pa, count, i);
  }

  lemma NthWordBack(c: Reader, r: Reader, pa: nat, count: nat, i: nat)
    requires CopyOf(c, r) && Strided(c.extents) && pa % DESCRIPTOR_BYTES == 0
    requires Inside(c.extents, pa, count * DESCRIPTOR_BYTES) && i < count
    requires ReadBytes(r, pa, count * DESCRIPTOR_BYTES).Bytes?
    ensures WordBack(c.words, pa, ReadBytes(r, pa, count * DESCRIPTOR_BYTES).data, i)
  {
    WordInside(c.extents, pa, count, i);
    OneWordBack(c, r, pa + i * DESCRIPTOR_BYTES);
    PartBack(c.words, r, pa, count, i);
  }

  lemma WordsBack(c: Reader, r: Reader, pa: nat, count: nat)
    requires CopyOf(c, r) && Strided(c.extents) && pa % DESCRIPTOR_BYTES == 0
    requires Inside(c.extents, pa, count * DESCRIPTOR_BYTES)
    ensures ReadBytes(r, pa, count * DESCRIPTOR_BYTES) == Bytes(CopiedWords(c.words, pa, count))
  {
    InsideIsReadable(c, r, pa, count * DESCRIPTOR_BYTES);
    var raw := ReadBytes(r, pa, count * DESCRIPTOR_BYTES).data;
    forall i: nat | i < count ensures WordBack(c.words, pa, raw, i) {
      NthWordBack(c, r, pa, count, i);
    }
    AllWordsBack(c.words, pa, raw, count);
  }

  /** Whatever the copy gives is what memory holds there, and it gives exactly the
      aligned ranges inside one extent. */
  ghost predicate ReadsBack(c: Reader, r: Reader, pa: nat, size: nat) {
    var read := ReadBytes(c, pa, size);
    if pa % DESCRIPTOR_BYTES == 0 && size % DESCRIPTOR_BYTES == 0 && c.Copy? && Inside(c.extents, pa, size)
    then read.Bytes? && read == ReadBytes(r, pa, size)
    else read.Unreadable?
  }

  lemma CopyReadsBack(c: Reader, r: Reader, pa: nat, size: nat)
    requires CopyOf(c, r) && Strided(c.extents)
    ensures ReadsBack(c, r, pa, size)
  {
    if pa % DESCRIPTOR_BYTES == 0 && size % DESCRIPTOR_BYTES == 0 && Inside(c.extents, pa, size) {
      assert size == size / DESCRIPTOR_BYTES * DESCRIPTOR_BYTES;
      WordsBack(c, r, pa, size / DESCRIPTOR_BYTES);
    }
  }

  // An extent off the eight-byte grid has whole words the copy never kept.

  lemma {:induction false} Bound(extents: seq<Extent>) returns (n: nat)
    ensures forall k :: 0 <= k < |extents| ==> extents[k].base + extents[k].size <= n
    decreases |extents|
  {
    n := 0;
    if extents != [] {
      var short := extents[..|extents| - 1];
      var m := Bound(short);
      var last := extents[|extents| - 1];
      n := if m < last.base + last.size then last.base + last.size else m;
      forall k | 0 <= k < |extents| ensures extents[k].base + extents[k].size <= n {
        if k < |short| { assert extents[k] == short[k]; }
      }
    }
  }

  lemma MissedWord(extents: seq<Extent>, at: nat) returns (c: Reader, r: Reader)
    requires forall k :: 0 <= k < |extents| ==> extents[k].size % DESCRIPTOR_BYTES == 0
    requires at % DESCRIPTOR_BYTES == 0 && Inside(extents, at, DESCRIPTOR_BYTES) && !Held(extents, at)
    ensures CopyOf(c, r) && c.extents == extents && !ReadsBack(c, r, at, DESCRIPTOR_BYTES)
  {
    var n := Bound(extents);
    r := Ram(0, seq(n, _ => 1));
    var words := map a: nat | 0 <= a < n && Held(extents, a) && WordAt(r, a) != 0 :: WordAt(r, a);
    c := Copy(words, extents);
    forall a: nat ensures WordKept(r, Held(extents, a), words, a) {
      if Held(extents, a) {
        var k :| 0 <= k < |extents| && OnStride(extents[k], a);
        assert extents[k].base + extents[k].size <= n;
      }
    }
    forall k | 0 <= k < |extents| ensures Readable(r, extents[k]) {}
    InsideIsReadable(c, r, at, DESCRIPTOR_BYTES);
    assert CopiedWords(words, at, 0) == [];
    assert ReadBytes(c, at, DESCRIPTOR_BYTES) == Bytes(CopiedWords(words, at, 1));
    assert at !in words;
    ZeroLE(DESCRIPTOR_BYTES);
    assert CopiedWords(words, at, 1)[0] == 0 != ReadBytes(r, at, DESCRIPTOR_BYTES).data[0];
  }

  /** Captured from any memory at all, a copy reads back faithfully exactly when
      its extents leave no whole aligned word off their strides. */
  lemma FaithfulIffStrided(extents: seq<Extent>)
    requires forall k :: 0 <= k < |extents| ==> extents[k].size % DESCRIPTOR_BYTES == 0
    ensures Strided(extents) <==>
            forall c: Reader, r: Reader, pa: nat, size: nat ::
              CopyOf(c, r) && c.extents == extents ==> ReadsBack(c, r, pa, size)
  {
    if Strided(extents) {
      forall c: Reader, r: Reader, pa: nat, size: nat | CopyOf(c, r) && c.extents == extents
        ensures ReadsBack(c, r, pa, size)
      {
        CopyReadsBack(c, r, pa, size);
      }
    } else {
      var at: nat :| at % DESCRIPTOR_BYTES == 0 && Inside(extents, at, DESCRIPTOR_BYTES) && !Held(extents, at);
      var c, r := MissedWord(extents, at);
    }
  }

  // --- Walking the copy is walking the memory -----------------------------------------

  /** Every read `c` answers, `r` answers alike. */
  ghost predicate Refines(c: Reader, r: Reader) {
    && Steady(c) && Steady(r)
    && forall pa: nat, size: nat :: ReadBytes(c, pa, size).Bytes? ==> ReadBytes(c, pa, size) == ReadBytes(r, pa, size)
  }

  lemma CopyRefines(c: Reader, r: Reader)
    requires CopyOf(c, r) && Strided(c.extents)
    ensures Refines(c, r)
  {
    forall pa: nat, size: nat | ReadBytes(c, pa, size).Bytes? ensures ReadBytes(c, pa, size) == ReadBytes(r, pa, size) {
      CopyReadsBack(c, r, pa, size);
    }
  }

  /** A probe that met nothing missing from the copy is the probe of the memory. */
  lemma ProbeOfCopy(c: Reader, r: Reader, fmt: Format, root: nat, address: nat)
    requires CopyOf(c, r) && Strided(c.extents) && ProbeReady(fmt)
    requires !Probe(c, fmt, root, address).fault.UnreadableTable?
    ensures Probe(c, fmt, root, address) == Probe(r, fmt, root, address)
  {
    if fmt.geometry.Holds(address) {
      CopyRefines(c, r);
      ProbeFromRefines(c, r, fmt, address, root, 0, []);
    }
  }

  lemma {:induction false} ProbeFromRefines(c: Reader, r: Reader, fmt: Format, address: nat, table: nat, depth: nat,
                                            steps: seq<Step>)
    requires Refines(c, r) && ProbeReady(fmt) && depth <= fmt.geometry.Depth()
    requires !ProbeFrom(c, fmt, address, table, depth, steps).fault.UnreadableTable?
    ensures ProbeFrom(c, fmt, address, table, depth, steps) == ProbeFrom(r, fmt, address, table, depth, steps)
    decreases fmt.geometry.Depth() - depth
  {
    if depth < fmt.geometry.Depth() {
      var at := SlotAt(fmt, address, table, depth);
      var read := ReadBytes(c, at, DESCRIPTOR_BYTES);
      NeverStage2(c, at, DESCRIPTOR_BYTES);
      if read.Bytes? {
        var taken := Taken(fmt, address, table, depth, steps, read.data);
        ProbeRead(c, fmt, address, table, depth, steps, read.data);
        ProbeRead(r, fmt, address, table, depth, steps, read.data);
        if Decode(fmt, FromLE(read.data), depth).kind.Table? {
          ProbeFromRefines(c, r, fmt, address, Decode(fmt, FromLE(read.data), depth).output, depth + 1, taken);
        }
      } else {
        ProbeUnread(c, fmt, address, table, depth, steps);
      }
    }
  }

  lemma NeverStage2(r: Reader, pa: nat, size: nat)
    requires Steady(r)
    ensures !ReadBytes(r, pa, size).Stage2Fault?
  {}

  /** A tree that met nothing missing from the copy is the tree of the memory,
      whatever the limit. */
  lemma TreeOfCopy(c: Reader, r: Reader, fmt: Format, root: nat, limit: nat)
    requires CopyOf(c, r) && Strided(c.extents) && fmt.geometry.shifts != []
    requires WholeTree(c, fmt, root, limit).unreadable == []
    ensures WholeTree(c, fmt, root, limit) == WholeTree(r, fmt, root, limit)
  {
    CopyRefines(c, r);
    DescendRefines(c, r, fmt, limit, root, 0, 0, FRESH);
  }

  lemma {:induction false} DescendRefines(c: Reader, r: Reader, fmt: Format, limit: nat, table: nat, depth: nat,
                                          base: nat, tally: Tally)
    requires Refines(c, r) && depth < fmt.geometry.Depth()
    requires Descend(c, fmt, limit, table, depth, base, tally).1.unreadable == tally.unreadable
    ensures Descend(c, fmt, limit, table, depth, base, tally) == Descend(r, fmt, limit, table, depth, base, tally)
    decreases fmt.geometry.Depth() - depth, 2, 0
  {
    FetchRefines(c, r, fmt, limit, table, tally);
    var (fetched, after) := Fetch(c, fmt, limit, table, tally);
    if fetched.Some? {
      SlotsRefine(c, r, fmt, limit, fetched.value, |fetched.value|, depth, base, after);
    }
  }

  lemma FetchRefines(c: Reader, r: Reader, fmt: Format, limit: nat, table: nat, tally: Tally)
    requires Refines(c, r)
    ensures Fetch(c, fmt, limit, table, tally).1.unreadable == tally.unreadable ==>
            Fetch(c, fmt, limit, table, tally) == Fetch(r, fmt, limit, table, tally)
    ensures Fetch(c, fmt, limit, table, tally).0.Some? ==>
            Fetch(c, fmt, limit, table, tally).1.unreadable == tally.unreadable
  {}

  lemma {:induction false} SlotsRefine(c: Reader, r: Reader, fmt: Format, limit: nat, words: seq<nat>, upto: nat,
                                       depth: nat, base: nat, tally: Tally)
    requires Refines(c, r) && depth < fmt.geometry.Depth() && upto <= |words|
    requires Slots(c, fmt, limit, words, upto, depth, base, tally).1.unreadable == tally.unreadable
    ensures Slots(c, fmt, limit, words, upto, depth, base, tally) == Slots(r, fmt, limit, words, upto, depth, base, tally)
    decreases fmt.geometry.Depth() - depth, 1, upto
  {
    if upto > 0 {
      var (nodes, before) := Slots(c, fmt, limit, words, upto - 1, depth, base, tally);
      SlotsGrow(c, fmt, limit, words, upto - 1, depth, base, tally);
      SlotGrows(c, fmt, limit, words[upto - 1], upto - 1, depth, base, nodes, before);
      Squeezed(tally.unreadable, before.unreadable,
               Slot(c, fmt, limit, words[upto - 1], upto - 1, depth, base, nodes, before).1.unreadable);
      SlotsRefine(c, r, fmt, limit, words, upto - 1, depth, base, tally);
      SlotRefines(c, r, fmt, limit, words[upto - 1], upto - 1, depth, base, nodes, before);
    }
  }

  lemma Squeezed(a: seq<nat>, b: seq<nat>, c: seq<nat>)
    requires a <= b <= c
    ensures a == c ==> b == c
  {}

  lemma {:induction false} SlotRefines(c: Reader, r: Reader, fmt: Format, limit: nat, word: nat, index: nat, depth: nat,
                                       base: nat, nodes: seq<Node>, tally: Tally)
    requires Refines(c, r) && depth < fmt.geometry.Depth()
    requires Slot(c, fmt, limit, word, index, depth, base, nodes, tally).1.unreadable == tally.unreadable
    ensures Slot(c, fmt, limit, word, index, depth, base, nodes, tally) ==
            Slot(r, fmt, limit, word, index, depth, base, nodes, tally)
    decreases fmt.geometry.Depth() - depth, 0, 0
  {
    var descriptor := Decode(fmt, word, depth);
    if descriptor.kind.Table? {
      var at := At(base, index, fmt.geometry.Span(depth));
      var below := Descend(c, fmt, limit, descriptor.output, depth + 1, at, tally);
      BranchSlot(c, fmt, limit, word, index, depth, base, nodes, tally, below);
      DescendRefines(c, r, fmt, limit, descriptor.output, depth + 1, at, tally);
      BranchSlot(r, fmt, limit, word, index, depth, base, nodes, tally, below);
    } else if descriptor.kind.Invalid? {
      SkipSlot(c, fmt, limit, word, index, depth, base, nodes, tally);
      SkipSlot(r, fmt, limit, word, index, depth, base, nodes, tally);
    } else {
      LeafSlot(c, fmt, limit, word, index, depth, base, nodes, tally);
      LeafSlot(r, fmt, limit, word, index, depth, base, nodes, tally);
    }
  }
}
