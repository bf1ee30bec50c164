/** The per-core trace rings: how deep a reservation makes them, where they lie, and
    what an overwriting ring holds. */
module Trace {
  import opened Words
  import opened Bits

  const HEADER_SIZE: nat := 0x40
  const RECORDS_OFF: nat := 0x40
  const REC_SIZE: nat := 32
  const MAX_RINGS: nat := 4

  // --- Geometry -----------------------------------------------------------------

  /** One ring's header and records. */
  function RingStride(capacity: nat): nat { RECORDS_OFF + capacity * REC_SIZE }

  function RegionSize(rings: nat, capacity: nat): nat { HEADER_SIZE + rings * RingStride(capacity) }

  /** std::bit_floor */
  function BitFloor(n: nat): nat {
    if n == 0 then 0 else if n == 1 then 1 else 2 * BitFloor(n / 2)
  }

  function RecordsPerRing(size: nat, rings: nat): nat {
    if rings == 0 || size < HEADER_SIZE then 0
    else
      var perRing := (size - HEADER_SIZE) / rings;
      if perRing <= RECORDS_OFF then 0 else BitFloor((perRing - RECORDS_OFF) / REC_SIZE)
  }

  /** Where ring `index` begins. */
  function RingAt(base: nat, index: nat, capacity: nat): nat { base + HEADER_SIZE + index * RingStride(capacity) }

  lemma {:induction false} BitFloorIs(n: nat) returns (k: nat)
    requires n > 0
    ensures BitFloor(n) == Pow2(k) <= n < Pow2(k + 1)
  {
    if n == 1 {
      k := 0;
      assert Pow2(1) == 2 * Pow2(0);
    } else {
      var h := BitFloorIs(n / 2);
      k := h + 1;
      assert Pow2(k + 1) == 2 * Pow2(k);
    }
  }

  /** A capacity fits exactly when it is no more than the division leaves. */
  lemma FitsIff(size: nat, rings: nat, capacity: nat)
    requires rings > 0 && size >= HEADER_SIZE
    ensures RegionSize(rings, capacity) <= size <==> RingStride(capacity) <= (size - HEADER_SIZE) / rings
  {
    var room, stride := size - HEADER_SIZE, RingStride(capacity);
    var q := room / rings;
    ModSplit(room, rings);
    if stride <= q {
      Scaled(stride, q, rings);
    } else {
      Scaled(q + 1, stride, rings);
      assert (q + 1) * rings == rings * q + rings;
    }
  }

  lemma Scaled(i: nat, j: nat, k: nat)
    requires i <= j
    ensures i * k <= j * k
  {}

  lemma {:induction false} Pow2Up(a: nat, b: nat)
    requires a <= b
    ensures Pow2(a) <= Pow2(b)
    decreases b
  {
    if a < b { Pow2Up(a, b - 1); }
  }

  /** The depth computed is the largest power of two whose region fits the
      reservation, and there is none exactly when not one record a ring fits. */
  lemma DeepestThatFits(size: nat, rings: nat)
    requires rings > 0
    ensures var c := RecordsPerRing(size, rings);
            && (c == 0 <==> RegionSize(rings, 1) > size)
            && (c > 0 ==> RegionSize(rings, c) <= size && exists k :: c == Pow2(k))
            && forall k: nat :: RegionSize(rings, Pow2(k)) <= size ==> Pow2(k) <= c
  {
    if size < HEADER_SIZE {
      forall k: nat ensures RegionSize(rings, Pow2(k)) > size {}
    } else if RecordsPerRing(size, rings) > 0 {
      SomeFit(size, rings);
    } else {
      NoneFits(size, rings);
      FitsIff(size, rings, 1);
      forall k: nat ensures RegionSize(rings, Pow2(k)) > size {
        FitsIff(size, rings, Pow2(k));
      }
    }
  }

  lemma SomeFit(size: nat, rings: nat)
    requires rings > 0 && size >= HEADER_SIZE && RecordsPerRing(size, rings) > 0
    ensures var c := RecordsPerRing(size, rings);
            && RegionSize(rings, 1) <= size && RegionSize(rings, c) <= size && (exists k :: c == Pow2(k))
            && forall k: nat :: RegionSize(rings, Pow2(k)) <= size ==> Pow2(k) <= c
  {
    var c, perRing := RecordsPerRing(size, rings), (size - HEADER_SIZE) / rings;
    var top := BitFloorIs((perRing - RECORDS_OFF) / REC_SIZE);
    FitsIff(size, rings, 1);
    FitsIff(size, rings, c);
    forall k: nat | RegionSize(rings, Pow2(k)) <= size ensures Pow2(k) <= c {
      FitsIff(size, rings, Pow2(k));
      if k > top { Pow2Up(top + 1, k); } else { Pow2Up(k, top); }
    }
  }

  lemma NoneFits(size: nat, rings: nat)
    requires rings > 0 && size >= HEADER_SIZE && RecordsPerRing(size, rings) == 0
    ensures (size - HEADER_SIZE) / rings < RingStride(1)
  {
    var perRing := (size - HEADER_SIZE) / rings;
    if perRing >= RingStride(1) {
      var k := BitFloorIs((perRing - RECORDS_OFF) / REC_SIZE);
    }
  }

  /** Placed rings lie one after another inside the reservation. */
  lemma RingsApart(base: nat, size: nat, rings: nat, i: nat, j: nat)
    requires rings > 0 && RecordsPerRing(size, rings) > 0 && i < j <= rings
    ensures var c := RecordsPerRing(size, rings);
            && base + HEADER_SIZE <= RingAt(base, i, c)
            && RingAt(base, i, c) + RingStride(c) <= RingAt(base, j, c)
            && RingAt(base, rings, c) <= base + size
  {
    var c := RecordsPerRing(size, rings);
    DeepestThatFits(size, rings);
    Scaled(i + 1, j, RingStride(c));
    assert (i + 1) * RingStride(c) == i * RingStride(c) + RingStride(c);
  }

  // --- One ring -----------------------------------------------------------------------

  datatype Record = Record(ts: u64, kind: nat, cpu: nat, flags: nat, a: u32, b: u64, c: u64)

  /** The slot `index & mask` selects. */
  function Masked(index: nat, capacity: nat): nat
    requires capacity > 0
  {
    And(index, capacity - 1)
  }

  lemma MaskIsMod(index: nat, k: nat)
    ensures Masked(index, Pow2(k)) == index % Pow2(k)
  {
    AndLow(index, k);
  }

  /** Every one of the last lap's events is at its masked slot. */
  ghost predicate Holds(records: seq<Record>, log: seq<Record>, k: nat) {
    && |records| == Pow2(k)
    && forall j: nat :: j < |log| <= j + |records| ==> AtSlot(records, log, j)
  }

  predicate AtSlot(records: seq<Record>, log: seq<Record>, j: nat)
    requires j < |log| && |records| > 0
  {
    records[j % |records|] == log[j]
  }

  lemma Emitted(records: seq<Record>, log: seq<Record>, k: nat, r: Record)
    requires Holds(records, log, k)
    ensures Holds(records[|log| % |records| := r], log + [r], k)
  {
    var after, more := records[|log| % |records| := r], log + [r];
    forall j: nat | j < |more| <= j + |after| ensures AtSlot(after, more, j) {
      if j < |log| {
        assert AtSlot(records, log, j);
        SlotsDistinct(j, |log|, |records|);
      }
    }
  }

  /** The 64-bit head selects the slot the unwrapped count does. */
  lemma HeadSlot(n: nat, k: nat)
    requires k <= 64
    ensures Masked(n % TWO_64, Pow2(k)) == n % Pow2(k)
  {
    MaskIsMod(n % TWO_64, k);
    Pow2Divides(k);
    ModOfMod(n, TWO_64, Pow2(k));
  }

  lemma Pow2Divides(k: nat)
    requires k <= 64
    ensures TWO_64 % Pow2(k) == 0
  {
    Pow2Add(64 - k, k);
    TwoTo64();
    ModUnique(TWO_64, Pow2(64 - k), 0, Pow2(k));
  }

  lemma TwoTo64()
    ensures Pow2(64) == TWO_64
  {
    assert Pow2(4) == 16 by { assert Pow2(1) == 2 && Pow2(2) == 4 && Pow2(3) == 8; }
    Pow2Add(4, 4);
    Pow2Add(8, 8);
    Pow2Add(16, 16);
    Pow2Add(32, 32);
  }

  class Ring {
    var placed: bool
    var head: u64
    const records: array<Record>
    /** The 32-bit count of events that found no ring. */
    var early: u32
    ghost const depth: nat
    ghost var log: seq<Record>

    ghost predicate Valid()
      reads this, records
    {
      && depth <= 64 && records.Length == Pow2(depth)
      && head == |log| % TWO_64 && Holds(records[..], log, depth)
    }

    /** Inert, over whatever an earlier boot left in memory. */
    constructor (records: array<Record>, ghost depth: nat)
      requires depth <= 64 && records.Length == Pow2(depth)
      ensures Valid() && !placed && log == [] && early == 0 && this.records == records && this.depth == depth
    {
      this.records, this.depth := records, depth;
      placed, head, early, log := false, 0, 0, [];
      new;
      ModUnique(0, 0, 0, TWO_64);
    }

    /** format() and the binding: the head back to zero, the records as they were. */
    method Place()
      requires Valid()
      modifies this
      ensures Valid() && placed && head == 0 && log == [] && early == old(early)
      ensures records[..] == old(records[..])
    {
      placed, head, log := true, 0, [];
      ModUnique(0, 0, 0, TWO_64);
    }

    /** Never fails and never waits: counted before there is a ring, recorded after,
        over the oldest when the ring is full. */
    method Emit(ts: u64, kind: nat, cpu: nat, a: u32, b: u64, c: u64)
      requires Valid()
      modifies this, records
      ensures Valid() && placed == old(placed)
      ensures if placed then early == old(early) && log == old(log) + [Record(ts, kind, cpu, 0, a, b, c)]
              else early == (old(early) + 1) % TWO_32 && log == old(log) && records[..] == old(records[..])
    {
      if !placed {
        early := (early + 1) % TWO_32;
        return;
      }
      var index := head;
      HeadSlot(|log|, depth);
      var i := Masked(index, records.Length);
      ghost var was := records[..];
      records[i] := records[i].(ts := ts);
      records[i] := records[i].(kind := kind);
      records[i] := records[i].(cpu := cpu);
      records[i] := records[i].(flags := 0);
      records[i] := records[i].(a := a);
      records[i] := records[i].(b := b);
      records[i] := records[i].(c := c);
      head := (index + 1) % TWO_64;
      ghost var r := Record(ts, kind, cpu, 0, a, b, c);
      assert records[..] == was[i := r];
      Emitted(was, log, depth, r);
      NextHead(|log|);
      log := log + [r];
    }
  }

  lemma NextHead(n: nat)
    ensures (n % TWO_64 + 1) % TWO_64 == (n + 1) % TWO_64
  {
    Reduced(n, TWO_64);
    NextSlot(n % TWO_64, n, TWO_64);
  }

  /** The window a reader looks at, the last lap below the head, is exactly the last
      events emitted, oldest first: nothing of an earlier boot, nothing half gone. */
  function Window(records: seq<Record>, head: nat): seq<Record>
    requires |records| > 0
  {
    var n := if head < |records| then head else |records|;
    seq(n, i requires 0 <= i < n => records[(head - n + i) % |records|])
  }

  lemma WindowIsTheLast(records: seq<Record>, log: seq<Record>, k: nat)
    requires Holds(records, log, k)
    ensures var n := if |log| < |records| then |log| else |records|;
            Window(records, |log|) == log[|log| - n..]
  {
    var n := if |log| < |records| then |log| else |records|;
    forall i: nat | i < n ensures Window(records, |log|)[i] == log[|log| - n..][i] {
      assert AtSlot(records, log, |log| - n + i);
    }
  }

  // --- Placing the region -----------------------------------------------------------------

  datatype Header = Header(recordSize: nat, stride: nat, rings: nat, capacity: nat, freqHz: nat, early: u32)

  /** Where each core's ring goes, and the header that says so; nothing when not one
      record fits. */
  method Place(base: nat, size: nat, rings: nat, freqHz: nat, early: u32)
    returns (header: Option<Header>, starts: seq<nat>)
    ensures header.None? <==> rings == 0 || RegionSize(if rings < MAX_RINGS then rings else MAX_RINGS, 1) > size
    ensures header.None? ==> starts == []
    ensures header.Some? ==>
            && header.value.rings == |starts| == (if rings < MAX_RINGS then rings else MAX_RINGS)
            && header.value.capacity == RecordsPerRing(size, |starts|) && header.value.early == early
            && header.value.stride == RingStride(header.value.capacity)
            && (forall i :: 0 <= i < |starts| ==> InRegion(base, size, starts[i], header.value.stride))
            && (forall i, j :: 0 <= i < j < |starts| ==> starts[i] + header.value.stride <= starts[j])
  {
    var count := if rings < MAX_RINGS then rings else MAX_RINGS;
    var capacity := RecordsPerRing(size, count);
    if count > 0 {
      DeepestThatFits(size, count);
    }
    starts := [];
    if capacity == 0 {
      return None, [];
    }
    for index := 0 to count
      invariant |starts| == index && forall i :: 0 <= i < index ==> starts[i] == RingAt(base, i, capacity)
    {
      starts := starts + [RingAt(base, index, capacity)];
    }
    header := Some(Header(REC_SIZE, RingStride(capacity), count, capacity, freqHz, early));
    forall i | 0 <= i < count ensures InRegion(base, size, starts[i], RingStride(capacity)) {
      RingsApart(base, size, count, i, count);
    }
    forall i, j | 0 <= i < j < count ensures starts[i] + RingStride(capacity) <= starts[j] {
      RingsApart(base, size, count, i, j);
    }
  }

  predicate InRegion(base: nat, size: nat, start: nat, stride: nat) {
    base + HEADER_SIZE <= start && start + stride <= base + size
  }
}
