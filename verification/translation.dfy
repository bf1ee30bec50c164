/** Page-table walks: geometry, descriptor decoding, the readers a walk takes its
    bytes from, the single-address probe and the whole-tree walk.

    Addresses and words are naturals. Geometry follows section D8.2 of the Arm
    Architecture Reference Manual, DDI 0487. */
module Translation {
  import opened Words
  import opened Bits

  const DESCRIPTOR_BYTES: nat := 8
  const TAG_BITS: nat := 8
  const ADDRESS_BITS: nat := 64
  const GRANULE_LEVEL: int := 3

  // --- Geometry ------------------------------------------------------------------

  datatype Geometry = Geometry(
    shifts: seq<nat>, levels: seq<int>, entries: nat, addressBits: nat, fill: bool, tagged: bool)
  {
    /** The width of an address once a tag byte is off it. */
    function Top(): nat { ADDRESS_BITS - if tagged then TAG_BITS else 0 }

    /** The bits above the input all equal the fill bit. */
    predicate Holds(address: nat)
      requires addressBits <= Top()
    {
      var above := Shr(And(address, Pow2(Top()) - 1), addressBits);
      above == if fill then Pow2(Top() - addressBits) - 1 else 0
    }

    /** The low `addressBits` bits: a remainder, as AndLow shows. */
    function Within(address: nat): nat { And(address, Pow2(addressBits) - 1) }

    function TableBytes(): nat { entries * DESCRIPTOR_BYTES }

    function Depth(): nat { |shifts| }

    function Index(address: nat, depth: nat): nat
      requires depth < Depth() && entries > 0
    {
      And(Shr(address, shifts[depth]), entries - 1)
    }

    function Span(depth: nat): (r: nat)
      requires depth < Depth()
      ensures r > 0
    {
      Pow2(shifts[depth])
    }

    /** Each level's index starts where the finer one's ends, and the top index
        reaches the top of the input and no further. */
    ghost predicate Regular(indexBits: nat) {
      && indexBits > 0 && shifts != [] && |levels| == |shifts|
      && entries == Pow2(indexBits)
      && (forall d :: 0 <= d < |shifts| - 1 ==> shifts[d] == shifts[d + 1] + indexBits)
      && shifts[0] < addressBits <= shifts[0] + indexBits
      && addressBits < Top()
    }
  }

  datatype Built<+T> = Ok(value: T) | Err(why: Refusal)
  datatype Refusal = ReservedGranule | NoLevels | NotPowerOfTwo | InputMismatch | StartMismatch | ReadsNoHalf

  function BitLength(n: nat): nat { if n == 0 then 0 else 1 + BitLength(n / 2) }

  /** One regime's geometry, checking that its declarations agree. */
  function MakeGeometry(shifts: seq<nat>, entries: nat, addressBits: nat, startsAt: Option<int>,
                        fill: bool, tagged: bool): Built<Geometry>
    requires entries >= 2
  {
    var indexBits := BitLength(entries) - 1;
    if Pow2(indexBits) != entries then Err(NotPowerOfTwo)
    else if shifts == [] then Err(NoLevels)
    else
      BitLengthAtLeastTwo(entries);
      var finest := shifts[|shifts| - 1];
      var levels := seq(|shifts|, d requires 0 <= d < |shifts| => GRANULE_LEVEL - (shifts[d] - finest) / indexBits);
      if !(shifts[0] < addressBits <= shifts[0] + indexBits) then Err(InputMismatch)
      else if startsAt.Some? && startsAt.value != levels[0] then Err(StartMismatch)
      else
        var built := Geometry(shifts, levels, entries, addressBits, fill, tagged);
        if built.Top() <= addressBits then Err(ReadsNoHalf) else Ok(built)
  }

  lemma BitLengthAtLeastTwo(n: nat)
    requires n >= 2
    ensures BitLength(n) >= 2
  {
    assert BitLength(n) == 1 + BitLength(n / 2);
  }

  /** The granule field's two encodings, TG0's and TG1's, as shifts. */
  function Granule(field: nat, high: bool): Option<nat> {
    if high
    then (if field == 1 then Some(14) else if field == 2 then Some(12) else if field == 3 then Some(16) else None)
    else (if field == 0 then Some(12) else if field == 1 then Some(16) else if field == 2 then Some(14) else None)
  }

  /** range(granule, addressBits, indexBits), coarsest first. */
  function Shifts(granule: nat, addressBits: nat, indexBits: nat): seq<nat>
    requires indexBits > 0
    decreases addressBits - granule
  {
    if granule >= addressBits then []
    else Shifts(granule + indexBits, addressBits, indexBits) + [granule]
  }

  /** The geometry TCR_EL1 gives the low or the high half, or why it gives none. */
  function GuestGeometry(tcr: nat, high: bool): Built<Geometry> {
    match Granule(And(Shr(tcr, if high then 30 else 14), 3), high)
    case None => Err(ReservedGranule)
    case Some(granule) =>
      var size := And(if high then Shr(tcr, 16) else tcr, 0x3F);
      TxszBound(if high then Shr(tcr, 16) else tcr);
      var addressBits := ADDRESS_BITS - size;
      var indexBits := granule - 3;
      EntriesAtLeastTwo(indexBits);
      MakeGeometry(Shifts(granule, addressBits, indexBits), Pow2(indexBits), addressBits, None, high,
                   And(Shr(tcr, if high then 38 else 37), 1) == 1)
  }

  lemma TxszBound(a: nat)
    ensures And(a, 0x3F) < 64
  {
    assert Pow2(6) == 64 by { assert Pow2(1) == 2 && Pow2(2) == 4 && Pow2(3) == 8 && Pow2(4) == 16 && Pow2(5) == 32; }
    AndLow(a, 6);
  }

  lemma EntriesAtLeastTwo(k: nat)
    requires k > 0
    ensures Pow2(k) >= 2
  {}

  // --- Descriptors ----------------------------------------------------------------

  datatype Kind = Invalid | Table | Block | Page
  datatype Attrs = Attrs(writable: bool, executable: bool, accessed: bool, memory: nat)

  const NO_ATTRS := Attrs(false, false, false, 0)

  datatype Descriptor = Descriptor(raw: nat, kind: Kind, output: nat, attrs: Attrs)
  {
    predicate Maps() { kind.Block? || kind.Page? }
  }

  /** One regime's descriptor encoding over its geometry. */
  datatype Format = Format(
    geometry: Geometry, typeMask: nat, typeInvalid: nat, typeBlock: nat, outputMask: nat, attributes: nat -> Attrs)

  /** What a word means at this depth. */
  function Decode(fmt: Format, raw: nat, depth: nat): Descriptor
    requires depth < fmt.geometry.Depth()
  {
    var leaf := depth == fmt.geometry.Depth() - 1;
    var bits := And(raw, fmt.typeMask);
    if bits == fmt.typeInvalid then Descriptor(raw, Invalid, 0, NO_ATTRS)
    else if bits == fmt.typeBlock && leaf then Descriptor(raw, Invalid, 0, NO_ATTRS)
    else
      var kind := if bits == fmt.typeBlock then Block else if leaf then Page else Table;
      var output := And(raw, fmt.outputMask);
      if kind.Table? then Descriptor(raw, kind, output, NO_ATTRS)
      else Descriptor(raw, kind, AndNot(output, fmt.geometry.Span(depth) - 1), fmt.attributes(raw))
  }

  // --- Readers ----------------------------------------------------------------------

  datatype Extent = Extent(base: nat, size: nat)

  /** What a walk reads its tables from: mapped RAM, a captured copy of the words
      that were set, or a guest's IPA space behind its own Stage 2. */
  datatype Reader =
    | Ram(base: nat, bytes: seq<byte>)
    | Copy(words: map<nat, nat>, extents: seq<Extent>)
    | Guest(inner: Reader, stage2: Format, root: nat)

  datatype Read = Bytes(data: seq<byte>) | Unreadable | Stage2Fault

  predicate Inside(extents: seq<Extent>, pa: int, size: int) {
    exists k :: 0 <= k < |extents| && extents[k].base <= pa && pa + size <= extents[k].base + extents[k].size
  }

  function ReadBytes(r: Reader, pa: nat, size: nat): (res: Read)
    ensures res.Bytes? ==> |res.data| == size
    decreases r, 0, 0
  {
    match r
    case Ram(base, bytes) =>
      if pa < base || pa - base + size > |bytes| then Unreadable
      else Bytes(bytes[pa - base..pa - base + size])
    case Copy(words, extents) =>
      if pa % DESCRIPTOR_BYTES != 0 || size % DESCRIPTOR_BYTES != 0 || !Inside(extents, pa, size) then Unreadable
      else
        assert size == size / DESCRIPTOR_BYTES * DESCRIPTOR_BYTES;
        Bytes(CopiedWords(words, pa, size / DESCRIPTOR_BYTES))
    case Guest(inner, stage2, root) =>
      if !ProbeReady(stage2) then Unreadable
      else
        match Probe(inner, stage2, root, pa).output
        case None => Stage2Fault
        case Some(output) => ReadBytes(inner, output, size)
  }

  /** The captured words from `pa` on, with a zero wherever none was kept. */
  function CopiedWords(words: map<nat, nat>, pa: nat, count: nat): (r: seq<byte>)
    ensures |r| == count * DESCRIPTOR_BYTES
    decreases count
  {
    if count == 0 then []
    else ToLE(if pa in words then words[pa] else 0, DESCRIPTOR_BYTES) + CopiedWords(words, pa + DESCRIPTOR_BYTES, count - 1)
  }

  // --- The probe ----------------------------------------------------------------------

  datatype Step = Step(depth: nat, index: nat, table: nat, descriptor: Descriptor)
  datatype Fault = NoFault | AddressSize | S1ptw | UnreadableTable | NoTranslation
  datatype Found = Found(address: nat, steps: seq<Step>, level: int, output: Option<nat>, fault: Fault)

  predicate ProbeReady(fmt: Format) {
    && fmt.geometry.shifts != [] && |fmt.geometry.levels| == |fmt.geometry.shifts|
    && fmt.geometry.entries > 0 && fmt.geometry.addressBits <= fmt.geometry.Top()
  }

  /** Follow one address down. */
  function Probe(r: Reader, fmt: Format, root: nat, address: nat): Found
    requires ProbeReady(fmt)
    decreases r, 2, 0
  {
    if !fmt.geometry.Holds(address) then Found(address, [], fmt.geometry.levels[0], None, AddressSize)
    else ProbeFrom(r, fmt, address, root, 0, [])
  }

  function ProbeFrom(r: Reader, fmt: Format, address: nat, table: nat, depth: nat, steps: seq<Step>): Found
    requires ProbeReady(fmt) && depth <= fmt.geometry.Depth()
    decreases r, 1, fmt.geometry.Depth() - depth, 1
  {
    if depth == fmt.geometry.Depth() then Found(address, steps, fmt.geometry.levels[depth - 1], None, NoTranslation)
    else
      match ReadBytes(r, SlotAt(fmt, address, table, depth), DESCRIPTOR_BYTES)
      case Stage2Fault => Found(address, steps, fmt.geometry.levels[depth], None, S1ptw)
      case Unreadable => Found(address, steps, fmt.geometry.levels[depth], None, UnreadableTable)
      case Bytes(raw) =>
        ProbeWord(r, fmt, address, depth, Taken(fmt, address, table, depth, steps, raw), Decode(fmt, FromLE(raw), depth))
  }

  /** One descriptor on: the walk ends there or follows it. */
  function ProbeWord(r: Reader, fmt: Format, address: nat, depth: nat, taken: seq<Step>, descriptor: Descriptor): Found
    requires ProbeReady(fmt) && depth < fmt.geometry.Depth()
    decreases r, 1, fmt.geometry.Depth() - depth, 0
  {
    var g := fmt.geometry;
    if descriptor.kind.Invalid? then Found(address, taken, g.levels[depth], None, NoTranslation)
    else if descriptor.Maps() then
      Found(address, taken, g.levels[depth],
            Some(Or(descriptor.output, And(g.Within(address), g.Span(depth) - 1))), NoFault)
    else ProbeFrom(r, fmt, address, descriptor.output, depth + 1, taken)
  }

  /** Where the probe's next descriptor is. */
  function SlotAt(fmt: Format, address: nat, table: nat, depth: nat): nat
    requires ProbeReady(fmt) && depth < fmt.geometry.Depth()
  {
    table + fmt.geometry.Index(fmt.geometry.Within(address), depth) * DESCRIPTOR_BYTES
  }

  function Taken(fmt: Format, address: nat, table: nat, depth: nat, steps: seq<Step>, raw: seq<byte>): seq<Step>
    requires ProbeReady(fmt) && depth < fmt.geometry.Depth()
  {
    steps + [Step(depth, fmt.geometry.Index(fmt.geometry.Within(address), depth), table, Decode(fmt, FromLE(raw), depth))]
  }

  // The three ways a level of a probe goes.

  lemma ProbeUnread(r: Reader, fmt: Format, address: nat, table: nat, depth: nat, steps: seq<Step>)
    requires ProbeReady(fmt) && depth < fmt.geometry.Depth()
    requires !ReadBytes(r, SlotAt(fmt, address, table, depth), DESCRIPTOR_BYTES).Bytes?
    ensures ProbeFrom(r, fmt, address, table, depth, steps) ==
            Found(address, steps, fmt.geometry.levels[depth], None,
                  if ReadBytes(r, SlotAt(fmt, address, table, depth), DESCRIPTOR_BYTES).Stage2Fault? then S1ptw else UnreadableTable)
  {}

  lemma ProbeRead(r: Reader, fmt: Format, address: nat, table: nat, depth: nat, steps: seq<Step>, raw: seq<byte>)
    requires ProbeReady(fmt) && depth < fmt.geometry.Depth()
    requires ReadBytes(r, SlotAt(fmt, address, table, depth), DESCRIPTOR_BYTES) == Bytes(raw)
    ensures ProbeFrom(r, fmt, address, table, depth, steps) ==
            ProbeWord(r, fmt, address, depth, Taken(fmt, address, table, depth, steps, raw), Decode(fmt, FromLE(raw), depth))
  {}

  lemma ProbeOn(r: Reader, fmt: Format, address: nat, table: nat, depth: nat, steps: seq<Step>, raw: seq<byte>)
    requires ProbeReady(fmt) && depth < fmt.geometry.Depth()
    requires ReadBytes(r, SlotAt(fmt, address, table, depth), DESCRIPTOR_BYTES) == Bytes(raw)
    requires Decode(fmt, FromLE(raw), depth).kind.Table?
    ensures ProbeFrom(r, fmt, address, table, depth, steps) ==
            ProbeFrom(r, fmt, address, Decode(fmt, FromLE(raw), depth).output, depth + 1, Taken(fmt, address, table, depth, steps, raw))
  {
    ProbeRead(r, fmt, address, table, depth, steps, raw);
  }

  /** The loop itself, level by level. */
  method FollowDown(r: Reader, fmt: Format, root: nat, address: nat) returns (found: Found)
    requires ProbeReady(fmt)
    ensures found == Probe(r, fmt, root, address)
  {
    var g := fmt.geometry;
    if !g.Holds(address) {
      return Found(address, [], g.levels[0], None, AddressSize);
    }
    var inside := g.Within(address);
    var table: nat, depth: nat := root, 0;
    var steps: seq<Step> := [];
    ghost var whole := Probe(r, fmt, root, address);
    while depth < g.Depth()
      invariant depth <= g.Depth()
      invariant whole == ProbeFrom(r, fmt, address, table, depth, steps)
    {
      var index := g.Index(inside, depth);
      var at := SlotAt(fmt, address, table, depth);
      var read := ReadBytes(r, at, DESCRIPTOR_BYTES);
      if read.Bytes? {
        ProbeRead(r, fmt, address, table, depth, steps, read.data);
      } else {
        ProbeUnread(r, fmt, address, table, depth, steps);
      }
      if read.Stage2Fault? {
        return Found(address, steps, g.levels[depth], None, S1ptw);
      }
      if read.Unreadable? {
        return Found(address, steps, g.levels[depth], None, UnreadableTable);
      }
      var descriptor := Decode(fmt, FromLE(read.data), depth);
      assert Taken(fmt, address, table, depth, steps, read.data) == steps + [Step(depth, index, table, descriptor)];
      steps := steps + [Step(depth, index, table, descriptor)];
      if descriptor.kind.Invalid? {
        return Found(address, steps, g.levels[depth], None, NoTranslation);
      }
      if descriptor.Maps() {
        return Found(address, steps, g.levels[depth],
                     Some(Or(descriptor.output, And(inside, g.Span(depth) - 1))), NoFault);
      }
      table, depth := descriptor.output, depth + 1;
    }
    return Found(address, steps, g.levels[|g.levels| - 1], None, NoTranslation);
  }
}
