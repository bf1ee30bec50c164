/** What the bits of a descriptor mean, in arithmetic: the encoding of section D8.3 of
    the Arm Architecture Reference Manual, DDI 0487, and the walk it makes. */
module Descriptors {
  import opened Words
  import opened Bits
  import opened Translation
  import opened PageTree
  import opened PageWalks
  import opened Geometries

  // --- Fields --------------------------------------------------------------------

  /** a & (2^hi - 2^lo) keeps bits lo up to hi. */
  lemma {:induction false} AndRange(a: nat, lo: nat, hi: nat)
    requires lo <= hi && Pow2(lo) <= Pow2(hi)
    ensures And(a, Pow2(hi) - Pow2(lo)) == a % Pow2(hi) - a % Pow2(lo)
    decreases lo
  {
    if lo == 0 {
      AndLow(a, hi);
      ModUnique(a, a, 0, 1);
    } else {
      HalfRange(a, lo, hi);
      AndRange(a / 2, lo - 1, hi - 1);
      HalfMod(a, Pow2(hi - 1));
      HalfMod(a, Pow2(lo - 1));
    }
  }

  lemma HalfRange(a: nat, lo: nat, hi: nat)
    requires 0 < lo <= hi && Pow2(lo) <= Pow2(hi)
    ensures Pow2(lo - 1) <= Pow2(hi - 1)
    ensures And(a, Pow2(hi) - Pow2(lo)) == 2 * And(a / 2, Pow2(hi - 1) - Pow2(lo - 1))
  {
    var half := Pow2(hi - 1) - Pow2(lo - 1);
    assert Pow2(hi) - Pow2(lo) == 2 * half;
    assert (2 * half) % 2 == 0 && (2 * half) / 2 == half;
  }

  /** The two low bits of a word, as a descriptor's type field has them. */
  lemma TypeBits(raw: nat)
    ensures And(raw, 3) == raw % 4
  {
    assert Pow2(1) == 2 && Pow2(2) == 4;
    AndLow(raw, 2);
  }

  /** The i'th byte of a word stored little end first. */
  lemma {:induction false} LittleEndian(b: seq<byte>, i: nat)
    requires i < |b|
    ensures FromLE(b) / Pow2(8 * i) % 0x100 == b[i]
    decreases i
  {
    var rest := FromLE(b[1..]);
    assert FromLE(b) == b[0] + 0x100 * rest;
    if i == 0 {
      assert FromLE(b) / 1 == FromLE(b);
    } else {
      LittleEndian(b[1..], i - 1);
      NextByte(b[0], rest, i);
    }
  }

  lemma NextByte(low: byte, rest: nat, i: nat)
    requires i > 0
    ensures (low + 0x100 * rest) / Pow2(8 * i) == rest / Pow2(8 * (i - 1))
  {
    assert Pow2(8) == 0x100 by { assert Pow2(4) == 16; Pow2Add(4, 4); }
    Pow2Add(8, 8 * (i - 1));
    ByteOff(low, rest, Pow2(8 * (i - 1)));
  }

  lemma ByteOff(low: byte, rest: nat, m: nat)
    requires m > 0
    ensures (low + 0x100 * rest) / (0x100 * m) == rest / m
  {
    ModSplit(rest, m);
    var q, s := rest / m, rest % m;
    Scaled(q, m, s);
    ModUnique(low + 0x100 * rest, q, low + 0x100 * s, 0x100 * m);
  }

  lemma Scaled(q: int, m: int, s: int)
    ensures 0x100 * (m * q + s) == q * (0x100 * m) + 0x100 * s
  {}

  // --- Descriptors -----------------------------------------------------------------

  /** The constants of the builder's headers: a two-bit type, zero for nothing, one for
      a block, and an output address in bits lo up to hi that reaches every level. */
  ghost predicate Encoded(fmt: Format, lo: nat, hi: nat) {
    && fmt.typeMask == 3 && fmt.typeInvalid == 0 && fmt.typeBlock == 1
    && lo <= hi && Pow2(lo) <= Pow2(hi) && fmt.outputMask == Pow2(hi) - Pow2(lo)
    && forall d :: 0 <= d < fmt.geometry.Depth() ==> lo <= fmt.geometry.shifts[d] <= hi
  }

  /** The two headers' own address field, bits 12 to 47. */
  lemma HeaderField()
    ensures Pow2(48) - Pow2(12) == 0x0000_FFFF_FFFF_F000
  {
    var k := 3;
    assert Pow2(k) == 8 by { assert Pow2(k - 2) == 2 && Pow2(k - 1) == 4; }
    Pow2Add(k, k);
    Pow2Add(2 * k, 2 * k);
    Pow2Add(4 * k, 4 * k);
    Pow2Add(8 * k, 8 * k);
    assert Pow2(4 * k) == 0x1000 && Pow2(16 * k) == 0x1_0000_0000_0000;
  }

  predicate AtLast(fmt: Format, depth: nat) { depth + 1 == fmt.geometry.Depth() }

  /** Which words are what, by their two low bits and the level. */
  lemma KindIs(fmt: Format, lo: nat, hi: nat, raw: nat, depth: nat)
    requires Encoded(fmt, lo, hi) && depth < fmt.geometry.Depth()
    ensures var kind := Decode(fmt, raw, depth).kind;
            && (kind.Invalid? <==> raw % 4 == 0 || (raw % 4 == 1 && AtLast(fmt, depth)))
            && (kind.Block? <==> raw % 4 == 1 && !AtLast(fmt, depth))
            && (kind.Table? <==> raw % 4 >= 2 && !AtLast(fmt, depth))
            && (kind.Page? <==> raw % 4 >= 2 && AtLast(fmt, depth))
  {
    TypeBits(raw);
  }

  /** What the architecture makes of the two bits: nothing unless the low one is set. */
  function Hardware(raw: nat, last: bool): Kind {
    if raw % 2 == 0 then Invalid
    else if raw % 4 == 1 then (if last then Invalid else Block)
    else if last then Page else Table
  }

  /** The decoder says so too, except of a word ending in binary 10. */
  lemma HardwareIff(fmt: Format, lo: nat, hi: nat, raw: nat, depth: nat)
    requires Encoded(fmt, lo, hi) && depth < fmt.geometry.Depth()
    ensures Decode(fmt, raw, depth).kind == Hardware(raw, AtLast(fmt, depth)) <==> raw % 4 != 2
  {
    KindIs(fmt, lo, hi, raw, depth);
    ModOfMod(raw, 4, 2);
    TwoBits(raw, AtLast(fmt, depth));
  }

  lemma TwoBits(raw: nat, last: bool)
    requires raw % 4 % 2 == raw % 2
    ensures var t := raw % 4;
            Hardware(raw, last) == if t == 0 || t == 2 then Invalid
                                   else if t == 1 then (if last then Invalid else Block)
                                   else if last then Page else Table
  {}

  /** Where a table's next table is, and what a leaf maps from: an address field with
      nothing below it, and for a leaf nothing below what it spans. */
  lemma OutputIs(fmt: Format, lo: nat, hi: nat, raw: nat, depth: nat)
    requires Encoded(fmt, lo, hi) && depth < fmt.geometry.Depth()
    ensures var d := Decode(fmt, raw, depth);
            && d.raw == raw
            && (d.kind.Table? ==> d.output == raw % Pow2(hi) - raw % Pow2(lo))
            && (d.Maps() ==> d.output == raw % Pow2(hi) - raw % fmt.geometry.Span(depth) && d.attrs == fmt.attributes(raw))
            && (!d.Maps() ==> d.attrs == NO_ATTRS)
  {
    if Decode(fmt, raw, depth).kind.Table? {
      TableOutput(fmt, lo, hi, raw, depth);
    } else if Decode(fmt, raw, depth).Maps() {
      LeafOutputIs(fmt, lo, hi, raw, depth);
    }
    AttributesOf(fmt, raw, depth);
  }

  lemma AttributesOf(fmt: Format, raw: nat, depth: nat)
    requires depth < fmt.geometry.Depth()
    ensures var d := Decode(fmt, raw, depth);
            d.raw == raw && d.attrs == if d.Maps() then fmt.attributes(raw) else NO_ATTRS
  {}

  lemma TableOutput(fmt: Format, lo: nat, hi: nat, raw: nat, depth: nat)
    requires lo <= hi && Pow2(lo) <= Pow2(hi) && fmt.outputMask == Pow2(hi) - Pow2(lo)
    requires depth < fmt.geometry.Depth() && Decode(fmt, raw, depth).kind.Table?
    ensures Decode(fmt, raw, depth).output == raw % Pow2(hi) - raw % Pow2(lo)
  {
    TableDecoded(fmt, raw, depth);
    var output := Decode(fmt, raw, depth).output;
    assert output == And(raw, Pow2(hi) - Pow2(lo));
    AndRange(raw, lo, hi);
  }

  lemma LeafOutputIs(fmt: Format, lo: nat, hi: nat, raw: nat, depth: nat)
    requires Encoded(fmt, lo, hi) && depth < fmt.geometry.Depth() && Decode(fmt, raw, depth).Maps()
    ensures Decode(fmt, raw, depth).output == raw % Pow2(hi) - raw % fmt.geometry.Span(depth)
  {
    LeafDecoded(fmt, raw, depth);
    LeafBits(raw, lo, fmt.geometry.shifts[depth], hi);
  }

  lemma TableDecoded(fmt: Format, raw: nat, depth: nat)
    requires depth < fmt.geometry.Depth() && Decode(fmt, raw, depth).kind.Table?
    ensures Decode(fmt, raw, depth).output == And(raw, fmt.outputMask)
  {}

  /** Of the bits lo up to hi, those from shift on. */
  lemma LeafBits(raw: nat, lo: nat, shift: nat, hi: nat)
    requires lo <= shift <= hi && Pow2(lo) <= Pow2(hi)
    ensures AndNot(And(raw, Pow2(hi) - Pow2(lo)), Pow2(shift) - 1) == raw % Pow2(hi) - raw % Pow2(shift)
  {
    var field := raw % Pow2(hi) - raw % Pow2(lo);
    AndRange(raw, lo, hi);
    AndNotLow(field, shift);
    FieldRest(raw, lo, shift, hi);
  }

  lemma FieldRest(raw: nat, lo: nat, shift: nat, hi: nat)
    requires lo <= shift <= hi
    ensures (raw % Pow2(hi) - raw % Pow2(lo)) % Pow2(shift) == raw % Pow2(shift) - raw % Pow2(lo)
  {
    var upper := Factor(shift, hi);
    var lower := Factor(lo, shift);
    Nested(raw, Pow2(hi), Pow2(shift), Pow2(lo), upper, lower);
  }

  lemma Factor(a: nat, b: nat) returns (k: nat)
    requires a <= b
    ensures Pow2(b) == k * Pow2(a)
  {
    Pow2Add(b - a, a);
    k := Pow2(b - a);
  }

  lemma Nested(raw: nat, big: nat, mid: nat, small: nat, upper: nat, lower: nat)
    requires big > 0 && mid > 0 && small > 0 && big == upper * mid && mid == lower * small
    ensures (raw % big - raw % small) % mid == raw % mid - raw % small
  {
    ModUnique(mid, lower, 0, small);
    ModUnique(big, upper, 0, mid);
    ModOfMod(raw, big, mid);
    ModOfMod(raw, mid, small);
    Above(raw % mid, small);
    ModSplit(raw % big, mid);
    var q := raw % big / mid;
    assert raw % big - raw % small == q * mid + (raw % mid - raw % small);
    ModUnique(raw % big - raw % small, q, raw % mid - raw % small, mid);
  }

  lemma Above(r: nat, m: nat)
    requires m > 0
    ensures 0 <= r % m <= r
  {
    ModSplit(r, m);
    QuotientNat(r, m);
    assert m * (r / m) >= 0;
  }

  // --- The walk they make -----------------------------------------------------------

  /** The walk in arithmetic: at each level the address picks an eight-byte word, whose
      low bits say what it is. */
  function Walked(r: Reader, g: Geometry, lo: nat, hi: nat, table: nat, depth: nat, a: nat): Option<nat>
    requires depth <= g.Depth() && g.entries > 0
    decreases g.Depth() - depth, 1
  {
    if depth == g.Depth() then None
    else
      var span := Pow2(g.shifts[depth]);
      QuotientNat(a, span);
      match ReadBytes(r, table + 8 * (a / span % g.entries), 8)
      case Bytes(b) => WalkedWord(r, g, lo, hi, FromLE(b), depth, a)
      case _ => None
  }

  function WalkedWord(r: Reader, g: Geometry, lo: nat, hi: nat, w: nat, depth: nat, a: nat): Option<nat>
    requires depth < g.Depth() && g.entries > 0
    decreases g.Depth() - depth, 0
  {
    var last := depth + 1 == g.Depth();
    if w % 4 == 0 || (w % 4 == 1 && last) then None
    else if w % 4 == 1 || last then Joined(w, hi, Pow2(g.shifts[depth]), a)
    else if w % Pow2(hi) < w % Pow2(lo) then None
    else Walked(r, g, lo, hi, w % Pow2(hi) - w % Pow2(lo), depth + 1, a)
  }

  /** The mapped address from the field, the offset from the input. */
  function Joined(w: nat, hi: nat, span: nat, a: nat): Option<nat>
    requires span > 0
  {
    var output := w % Pow2(hi) - w % span + a % span;
    if output < 0 then None else Some(output)
  }

  lemma IndexIs(g: Geometry, indexBits: nat, a: nat, depth: nat)
    requires g.Regular(indexBits) && depth < g.Depth()
    ensures g.Index(a, depth) == a / Pow2(g.shifts[depth]) % g.entries
  {
    AndLow(Shr(a, g.shifts[depth]), indexBits);
  }

  lemma {:induction false} LookupIsWalked(r: Reader, fmt: Format, indexBits: nat, lo: nat, hi: nat, table: nat, depth: nat,
                                          a: nat)
    requires ProbeReady(fmt) && fmt.geometry.Regular(indexBits) && Encoded(fmt, lo, hi) && depth <= fmt.geometry.Depth()
    ensures Lookup(r, fmt, table, depth, a) == Walked(r, fmt.geometry, lo, hi, table, depth, a)
    decreases fmt.geometry.Depth() - depth, 1
  {
    if depth < fmt.geometry.Depth() {
      IndexIs(fmt.geometry, indexBits, a, depth);
      var read := ReadBytes(r, table + fmt.geometry.Index(a, depth) * DESCRIPTOR_BYTES, DESCRIPTOR_BYTES);
      if read.Bytes? {
        LookupStep(r, fmt, table, FromLE(read.data), depth, fmt.geometry.Index(a, depth), a);
        WordIsWalked(r, fmt, indexBits, lo, hi, FromLE(read.data), depth, a);
      }
    }
  }

  lemma {:induction false} WordIsWalked(r: Reader, fmt: Format, indexBits: nat, lo: nat, hi: nat, w: nat, depth: nat, a: nat)
    requires ProbeReady(fmt) && fmt.geometry.Regular(indexBits) && Encoded(fmt, lo, hi) && depth < fmt.geometry.Depth()
    ensures SlotOutput(r, fmt, w, depth, a) == WalkedWord(r, fmt.geometry, lo, hi, w, depth, a)
    decreases fmt.geometry.Depth() - depth, 0
  {
    var d := Decode(fmt, w, depth);
    KindIs(fmt, lo, hi, w, depth);
    if d.kind.Table? {
      OutputIs(fmt, lo, hi, w, depth);
      LookupIsWalked(r, fmt, indexBits, lo, hi, d.output, depth + 1, a);
    } else if d.Maps() {
      JoinedOutput(r, fmt, w, depth, a);
      LeafJoined(fmt, lo, hi, w, depth, a);
    }
  }

  lemma LeafJoined(fmt: Format, lo: nat, hi: nat, w: nat, depth: nat, a: nat)
    requires depth < fmt.geometry.Depth() && Encoded(fmt, lo, hi) && Decode(fmt, w, depth).Maps()
    ensures Some(Or(Decode(fmt, w, depth).output, And(a, fmt.geometry.Span(depth) - 1))) ==
            Joined(w, hi, fmt.geometry.Span(depth), a)
  {
    var shift := fmt.geometry.shifts[depth];
    OutputIs(fmt, lo, hi, w, depth);
    LeafDecoded(fmt, w, depth);
    AndLow(a, shift);
    ModSplit(a, Pow2(shift));
    LeafJoin(fmt.geometry, w, fmt.outputMask, depth, a % Pow2(shift));
  }

  /** A probe of a zero-fill regime answers what the arithmetic does, at every address
      it takes, and nothing at any other. */
  lemma ProbeIsWalked(r: Reader, fmt: Format, indexBits: nat, lo: nat, hi: nat, root: nat, a: nat)
    requires ZeroFill(fmt, indexBits) && Encoded(fmt, lo, hi) && a < Pow2(ADDRESS_BITS)
    ensures Probe(r, fmt, root, a).output ==
            if a < Pow2(fmt.geometry.addressBits) then Walked(r, fmt.geometry, lo, hi, root, 0, a) else None
  {
    HoldsIsBelow(fmt, indexBits, a);
    if a < Pow2(fmt.geometry.addressBits) {
      WithinIsSelf(fmt.geometry, a);
      ProbeLookup(r, fmt, a, root, 0, []);
      LookupIsWalked(r, fmt, indexBits, lo, hi, root, 0, a);
    }
  }

  predicate Mapped(base: nat, bytes: seq<byte>, x: nat) { base <= x < base + |bytes| }

  /** A read of mapped memory is the bytes at those addresses, all of them mapped. */
  lemma RamReads(base: nat, bytes: seq<byte>, pa: nat, size: nat)
    requires size > 0
    ensures var read := ReadBytes(Ram(base, bytes), pa, size);
            && (read.Bytes? <==> forall x :: pa <= x < pa + size ==> Mapped(base, bytes, x))
            && (read.Bytes? ==>
                  forall i :: 0 <= i < size ==> 0 <= pa + i - base < |bytes| && read.data[i] == bytes[pa + i - base])
            && (!read.Bytes? ==> read.Unreadable?)
  {
    if forall x :: pa <= x < pa + size ==> Mapped(base, bytes, x) {
      assert Mapped(base, bytes, pa) && Mapped(base, bytes, pa + size - 1);
    }
  }

  /** A read of a guest's space is a read of what is under it, where its Stage 2 walk
      puts the address; a Stage 2 fault where that walk ends nowhere. */
  lemma GuestReads(inner: Reader, stage2: Format, indexBits: nat, lo: nat, hi: nat, root: nat, pa: nat, size: nat)
    requires ZeroFill(stage2, indexBits) && Encoded(stage2, lo, hi) && pa < Pow2(ADDRESS_BITS)
    ensures var g := stage2.geometry;
            var below := if pa < Pow2(g.addressBits) then Walked(inner, g, lo, hi, root, 0, pa) else None;
            ReadBytes(Guest(inner, stage2, root), pa, size) ==
            if below.Some? then ReadBytes(inner, below.value, size) else Stage2Fault
  {
    ProbeIsWalked(inner, stage2, indexBits, lo, hi, root, pa);
  }

  // --- What a probe says of its way ------------------------------------------------------

  /** Which level a probe names: the one whose table it could not read, else the one
      of the last descriptor it read. */
  function NamedLevel(g: Geometry, found: Found): nat {
    if found.fault.AddressSize? then 0
    else if found.fault.S1ptw? || found.fault.UnreadableTable? then |found.steps|
    else if found.steps == [] then 0 else |found.steps| - 1
  }

  /** Each step was taken in the table the one before gave, at the slot the address
      picks, and the level named is the one the walk ended at. */
  ghost predicate Traced(r: Reader, g: Geometry, root: nat, a: nat, found: Found) {
    && found.address == a
    && (forall j :: 0 <= j < |found.steps| ==> StepOf(r, g, root, a, found.steps, j))
    && NamedLevel(g, found) < |g.levels| && found.level == g.levels[NamedLevel(g, found)]
  }

  predicate StepOf(r: Reader, g: Geometry, root: nat, a: nat, steps: seq<Step>, j: nat)
    requires j < |steps|
  {
    var s := steps[j];
    && s.depth == j < g.Depth() && g.entries > 0 && s.index == g.Index(g.Within(a), j)
    && s.table == (if j == 0 then root else steps[j - 1].descriptor.output)
    && ReadBytes(r, s.table + 8 * s.index, 8).Bytes?
    && s.descriptor.raw == FromLE(ReadBytes(r, s.table + 8 * s.index, 8).data)
  }

  lemma ProbeTraced(r: Reader, fmt: Format, root: nat, a: nat)
    requires ProbeReady(fmt)
    ensures Traced(r, fmt.geometry, root, a, Probe(r, fmt, root, a))
  {
    if fmt.geometry.Holds(a) {
      TracedFrom(r, fmt, a, root, root, 0, []);
    }
  }

  ghost predicate Way(r: Reader, g: Geometry, root: nat, a: nat, steps: seq<Step>) {
    forall j :: 0 <= j < |steps| ==> StepOf(r, g, root, a, steps, j)
  }

  lemma {:induction false} TracedFrom(r: Reader, fmt: Format, a: nat, root: nat, table: nat, depth: nat, steps: seq<Step>)
    requires ProbeReady(fmt) && |steps| == depth <= fmt.geometry.Depth() && Way(r, fmt.geometry, root, a, steps)
    requires table == if steps == [] then root else steps[|steps| - 1].descriptor.output
    ensures Traced(r, fmt.geometry, root, a, ProbeFrom(r, fmt, a, table, depth, steps))
    decreases fmt.geometry.Depth() - depth
  {
    if depth < fmt.geometry.Depth() {
      var read := ReadBytes(r, SlotAt(fmt, a, table, depth), DESCRIPTOR_BYTES);
      if read.Bytes? {
        OneMoreStep(r, fmt, a, root, table, depth, steps, read.data);
        if Decode(fmt, FromLE(read.data), depth).kind.Table? {
          ProbeOn(r, fmt, a, table, depth, steps, read.data);
          TracedFrom(r, fmt, a, root, Decode(fmt, FromLE(read.data), depth).output, depth + 1,
                     Taken(fmt, a, table, depth, steps, read.data));
        } else {
          TracedEnd(r, fmt, a, root, table, depth, steps, read.data);
        }
      } else {
        TracedUnread(r, fmt, a, root, table, depth, steps);
      }
    }
  }

  lemma TracedEnd(r: Reader, fmt: Format, a: nat, root: nat, table: nat, depth: nat, steps: seq<Step>, raw: seq<byte>)
    requires ProbeReady(fmt) && |steps| == depth < fmt.geometry.Depth()
    requires ReadBytes(r, SlotAt(fmt, a, table, depth), DESCRIPTOR_BYTES) == Bytes(raw)
    requires !Decode(fmt, FromLE(raw), depth).kind.Table? && Way(r, fmt.geometry, root, a, Taken(fmt, a, table, depth, steps, raw))
    ensures Traced(r, fmt.geometry, root, a, ProbeFrom(r, fmt, a, table, depth, steps))
  {
    ProbeRead(r, fmt, a, table, depth, steps, raw);
  }

  lemma TracedUnread(r: Reader, fmt: Format, a: nat, root: nat, table: nat, depth: nat, steps: seq<Step>)
    requires ProbeReady(fmt) && |steps| == depth < fmt.geometry.Depth() && Way(r, fmt.geometry, root, a, steps)
    requires !ReadBytes(r, SlotAt(fmt, a, table, depth), DESCRIPTOR_BYTES).Bytes?
    ensures Traced(r, fmt.geometry, root, a, ProbeFrom(r, fmt, a, table, depth, steps))
  {
    ProbeUnread(r, fmt, a, table, depth, steps);
  }

  lemma OneMoreStep(r: Reader, fmt: Format, a: nat, root: nat, table: nat, depth: nat, steps: seq<Step>, raw: seq<byte>)
    requires ProbeReady(fmt) && |steps| == depth < fmt.geometry.Depth() && Way(r, fmt.geometry, root, a, steps)
    requires table == if steps == [] then root else steps[|steps| - 1].descriptor.output
    requires ReadBytes(r, SlotAt(fmt, a, table, depth), DESCRIPTOR_BYTES) == Bytes(raw)
    ensures Way(r, fmt.geometry, root, a, Taken(fmt, a, table, depth, steps, raw))
  {
    var taken, g := Taken(fmt, a, table, depth, steps, raw), fmt.geometry;
    LastStep(r, fmt, a, root, table, depth, steps, raw);
    forall j | 0 <= j < |taken| ensures StepOf(r, g, root, a, taken, j) {
      if j < depth {
        assert StepOf(r, g, root, a, steps, j);
        StepStays(r, g, root, a, steps, taken, j);
      }
    }
  }

  lemma StepStays(r: Reader, g: Geometry, root: nat, a: nat, steps: seq<Step>, more: seq<Step>, j: nat)
    requires j < |steps| && steps <= more && StepOf(r, g, root, a, steps, j)
    ensures StepOf(r, g, root, a, more, j)
  {}

  lemma LastStep(r: Reader, fmt: Format, a: nat, root: nat, table: nat, depth: nat, steps: seq<Step>, raw: seq<byte>)
    requires ProbeReady(fmt) && |steps| == depth < fmt.geometry.Depth()
    requires table == if steps == [] then root else steps[|steps| - 1].descriptor.output
    requires ReadBytes(r, SlotAt(fmt, a, table, depth), DESCRIPTOR_BYTES) == Bytes(raw)
    ensures StepOf(r, fmt.geometry, root, a, Taken(fmt, a, table, depth, steps, raw), depth)
  {
    AttributesOf(fmt, FromLE(raw), depth);
  }

  // --- The register a guest's geometry comes from ---------------------------------------------

  /** The granule in bytes for each value of TCR_EL1's TG0 and TG1; one of each is
      reserved. */
  const TG0: seq<Option<nat>> := [Some(0x1000), Some(0x1_0000), Some(0x4000), None]
  const TG1: seq<Option<nat>> := [None, Some(0x4000), Some(0x1000), Some(0x1_0000)]

  /** A half's granule, input width and bits read, as plain numbers from the register. */
  function GranuleOf(tcr: nat, high: bool): Option<nat> {
    if high then TG1[tcr / Pow2(30) % 4] else TG0[tcr / Pow2(14) % 4]
  }

  function InputOf(tcr: nat, high: bool): nat { 64 - (if high then tcr / Pow2(16) else tcr) % 64 }

  function ReadOf(tcr: nat, high: bool): nat {
    if (if high then tcr / Pow2(38) else tcr / Pow2(37)) % 2 == 1 then 56 else 64
  }

  /** A half has a geometry exactly when its granule is not reserved and its input is
      wider than the granule and narrower than what is read; and then a page is a
      granule, a table is one full of words, and the input is that wide. */
  lemma GuestRegister(tcr: nat, high: bool)
    ensures var built := GuestGeometry(tcr, high);
            && (built.Ok? <==>
                  && GranuleOf(tcr, high).Some? && GranuleOf(tcr, high).value < Pow2(InputOf(tcr, high))
                  && InputOf(tcr, high) < ReadOf(tcr, high))
            && (built.Ok? ==>
                  && GranuleOf(tcr, high).Some?
                  && PagesOf(built.value, GranuleOf(tcr, high).value)
                  && built.value.addressBits == InputOf(tcr, high) && built.value.fill == high)
  {
    GuestGeometryExists(tcr, high);
    RegisterFields(tcr, high);
    var granule := Granule(Field(tcr, high), high);
    if granule.Some? {
      Wider(granule.value, InputOf(tcr, high));
      if GuestGeometry(tcr, high).Ok? {
        Paged(GuestGeometry(tcr, high).value, granule.value, InputOf(tcr, high), high);
      }
    }
  }

  /** The last level maps pages of this many bytes, and so big is every table. */
  ghost predicate PagesOf(g: Geometry, bytes: nat) {
    g.Depth() > 0 && g.Span(g.Depth() - 1) == bytes && g.entries == bytes / 8
  }

  lemma Paged(g: Geometry, granule: nat, bits: nat, fill: bool)
    requires Exact(g, granule, bits, fill)
    ensures PagesOf(g, Pow2(granule))
  {
    PageEntries(granule);
  }

  lemma RegisterFields(tcr: nat, high: bool)
    ensures Granule(Field(tcr, high), high).Some? <==> GranuleOf(tcr, high).Some?
    ensures Granule(Field(tcr, high), high).Some? ==>
              Pow2(Granule(Field(tcr, high), high).value) == GranuleOf(tcr, high).value
    ensures Width(tcr, high) == InputOf(tcr, high) && Geometries.Read(tcr, high) == ReadOf(tcr, high)
  {
    TypeBits(Shr(tcr, if high then 30 else 14));
    GranuleBytes((if high then tcr / Pow2(30) else tcr / Pow2(14)) % 4, high);
    InputField(if high then Shr(tcr, 16) else tcr);
    TagBit(Shr(tcr, if high then 38 else 37));
  }

  lemma InputField(a: nat)
    ensures And(a, 0x3F) == a % 64
  {
    assert Pow2(6) == 64 by { assert Pow2(3) == 8; Pow2Add(3, 3); }
    AndLow(a, 6);
  }

  lemma TagBit(a: nat)
    ensures And(a, 1) == a % 2
  {
    assert Pow2(1) == 2;
    AndLow(a, 1);
  }

  lemma GranuleBytes(field: nat, high: bool)
    requires field < 4
    ensures var bytes := if high then TG1[field] else TG0[field];
            && (Granule(field, high).Some? <==> bytes.Some?)
            && (bytes.Some? ==> Pow2(Granule(field, high).value) == bytes.value)
  {
    assert Pow2(6) == 64 by { assert Pow2(3) == 8; Pow2Add(3, 3); }
    Pow2Add(6, 6);
    assert Pow2(14) == 4 * Pow2(12) && Pow2(16) == 4 * Pow2(14);
  }

  lemma Wider(a: nat, b: nat)
    ensures Pow2(a) < Pow2(b) <==> a < b
  {
    if a < b {
      Pow2Mono(a + 1, b);
    } else {
      Pow2Mono(b, a);
    }
  }

  lemma PageEntries(granule: nat)
    requires granule >= 3
    ensures Pow2(granule - 3) == Pow2(granule) / 8
  {
    assert Pow2(3) == 8;
    Pow2Add(3, granule - 3);
  }
}
