/** Where guests' memory goes: the packing rule, and the checks that keep every
    physical range apart. */
module Placement {
  import opened Words
  import opened Bits

  const MIB: nat := 0x10_0000

  datatype Range = Range(base: nat, size: nat)
  {
    predicate Has(a: nat) { base <= a < base + size }
  }

  predicate RangeValid(r: Range) { r.size > 0 && r.base + r.size <= TWO_64 }

  /** Valid ranges are those that hold an address, and none that 64 bits cannot. */
  lemma ValidIsAddressed(r: Range)
    ensures RangeValid(r) <==> (exists a: nat :: r.Has(a)) && forall a: nat :: r.Has(a) ==> a < TWO_64
  {
    if r.size > 0 { assert r.Has(r.base) && r.Has(r.base + r.size - 1); }
  }

  predicate RangesOverlap(l: Range, r: Range) { l.base < r.base + r.size && r.base < l.base + l.size }

  /** For ranges with anything in them, overlapping is sharing an address. */
  lemma OverlapIsSharing(l: Range, r: Range)
    requires l.size > 0 && r.size > 0
    ensures RangesOverlap(l, r) <==> exists a: nat :: l.Has(a) && r.Has(a)
  {
    if RangesOverlap(l, r) {
      var a := if l.base < r.base then r.base else l.base;
      assert l.Has(a) && r.Has(a);
    }
  }

  // --- Packing --------------------------------------------------------------------

  /** The next multiple of 2^k. */
  function RoundUp(a: nat, k: nat): nat
    decreases k
  {
    if k == 0 then a else 2 * RoundUp((a + 1) / 2, k - 1)
  }

  /** (a + align - 1) & ~(align - 1) */
  function Masked(a: nat, k: nat): nat { AndNot(a + Pow2(k) - 1, Pow2(k) - 1) }

  lemma {:induction false} RoundUpIsMasked(a: nat, k: nat)
    ensures RoundUp(a, k) == Masked(a, k)
  {
    AndNotLow(a + Pow2(k) - 1, k);
    RoundUpDrops(a, k);
  }

  lemma {:induction false} RoundUpDrops(a: nat, k: nat)
    ensures var b := a + Pow2(k) - 1; RoundUp(a, k) == b - b % Pow2(k)
    decreases k
  {
    if k == 0 {
      ModUnique(a, a, 0, 1);
    } else {
      var half, h := (a + 1) / 2, Pow2(k - 1);
      RoundUpDrops(half, k - 1);
      HalfUp(a, h);
      TwiceDropped(a + 2 * h - 1, half + h - 1, h, RoundUp(half, k - 1));
    }
  }

  lemma TwiceDropped(b: nat, c: nat, h: nat, r: nat)
    requires h > 0 && b / 2 == c && r == c - c % h
    ensures 2 * r == b - b % (2 * h)
  {
    HalfDrop(b, c, h);
  }

  lemma HalfUp(a: nat, h: nat)
    requires h > 0
    ensures (a + 2 * h - 1) / 2 == (a + 1) / 2 + h - 1
  {}

  lemma HalfDrop(b: nat, c: nat, h: nat)
    requires h > 0 && b / 2 == c
    ensures b - b % (2 * h) == 2 * (c - c % h)
  {
    HalfMod(b, h);
  }

  /** Nothing is skipped: less than one alignment goes by. */
  lemma {:induction false} RoundUpIs(a: nat, k: nat)
    ensures a <= RoundUp(a, k) < a + Pow2(k) && RoundUp(a, k) % Pow2(k) == 0
    decreases k
  {
    if k > 0 {
      RoundUpIs((a + 1) / 2, k - 1);
      Doubled(RoundUp((a + 1) / 2, k - 1), Pow2(k - 1));
    } else {
      ModUnique(a, a, 0, 1);
    }
  }

  lemma Doubled(r: nat, m: nat)
    requires m > 0 && r % m == 0
    ensures (2 * r) % (2 * m) == 0
  {
    HalfMod(2 * r, m);
  }

  /** Where the n'th window starts. */
  function Cursor(sizes: seq<nat>, base: nat, k: nat, n: nat): nat
    requires n <= |sizes|
  {
    if n == 0 then base else RoundUp(Cursor(sizes, base, k, n - 1) + sizes[n - 1], k)
  }

  predicate Fits(sizes: seq<nat>, base: nat, room: nat, k: nat, least: nat, n: nat)
    requires n < |sizes|
  {
    sizes[n] >= least && sizes[n] % MIB == 0 && Cursor(sizes, base, k, n) + sizes[n] <= base + room
  }

  ghost predicate AllFit(sizes: seq<nat>, base: nat, room: nat, k: nat, least: nat, n: nat)
    requires n <= |sizes|
  {
    forall i :: 0 <= i < n ==> Fits(sizes, base, room, k, least, i)
  }

  /** The first n windows. */
  function Windows(sizes: seq<nat>, base: nat, k: nat, n: nat): (w: seq<Range>)
    requires n <= |sizes|
    ensures |w| == n && forall i :: 0 <= i < n ==> w[i] == Range(Cursor(sizes, base, k, i), sizes[i])
  {
    if n == 0 then [] else Windows(sizes, base, k, n - 1) + [Range(Cursor(sizes, base, k, n - 1), sizes[n - 1])]
  }

  /** Guests in turn from the region's base, each start aligned; refused at the first
      that is too small, not whole MiBs, or past the region's end. */
  method PackGuests(sizes: seq<nat>, base: nat, room: nat, k: nat, least: nat) returns (placed: Option<seq<Range>>)
    ensures placed.Some? <==> AllFit(sizes, base, room, k, least, |sizes|)
    ensures placed.Some? ==> placed.value == Windows(sizes, base, k, |sizes|)
  {
    var loadPa := base;
    var parsed: seq<Range> := [];
    for n := 0 to |sizes|
      invariant loadPa == Cursor(sizes, base, k, n) && parsed == Windows(sizes, base, k, n)
      invariant AllFit(sizes, base, room, k, least, n)
    {
      var size := sizes[n];
      if size < least || size % MIB != 0 || loadPa + size > base + room {
        assert !Fits(sizes, base, room, k, least, n);
        return None;
      }
      OneMoreFits(sizes, base, room, k, least, n);
      parsed := parsed + [Range(loadPa, size)];
      RoundUpIsMasked(loadPa + size, k);
      loadPa := Masked(loadPa + size, k);
    }
    return Some(parsed);
  }

  lemma OneMoreFits(sizes: seq<nat>, base: nat, room: nat, k: nat, least: nat, n: nat)
    requires n < |sizes| && AllFit(sizes, base, room, k, least, n) && Fits(sizes, base, room, k, least, n)
    ensures AllFit(sizes, base, room, k, least, n + 1)
  {
    forall i | 0 <= i < n + 1 ensures Fits(sizes, base, room, k, least, i) {
      assert i < n ==> Fits(sizes, base, room, k, least, i);
    }
  }

  /** Windows so packed follow one another, each starting on the alignment less than
      one alignment after the last, and all lie in the region. */
  lemma {:induction false} PackedApart(sizes: seq<nat>, base: nat, room: nat, k: nat, least: nat, i: nat, j: nat)
    requires i < j < |sizes|
    requires AllFit(sizes, base, room, k, least, |sizes|)
    ensures Cursor(sizes, base, k, i) + sizes[i] <= Cursor(sizes, base, k, j)
    ensures Cursor(sizes, base, k, j) % Pow2(k) == 0 && base <= Cursor(sizes, base, k, j)
    ensures Cursor(sizes, base, k, j) + sizes[j] <= base + room
    ensures Cursor(sizes, base, k, j) < Cursor(sizes, base, k, j - 1) + sizes[j - 1] + Pow2(k)
    decreases j
  {
    assert Fits(sizes, base, room, k, least, j);
    RoundUpIs(Cursor(sizes, base, k, j - 1) + sizes[j - 1], k);
    if j - 1 > i {
      PackedApart(sizes, base, room, k, least, i, j - 1);
    }
    CursorUp(sizes, base, k, j);
  }

  lemma {:induction false} CursorUp(sizes: seq<nat>, base: nat, k: nat, n: nat)
    requires n <= |sizes|
    ensures base <= Cursor(sizes, base, k, n)
  {
    if n > 0 {
      CursorUp(sizes, base, k, n - 1);
      RoundUpIs(Cursor(sizes, base, k, n - 1) + sizes[n - 1], k);
    }
  }

  // --- Keeping ranges apart --------------------------------------------------------------

  predicate InRam(r: Range, ramBase: nat, ramEnd: nat) {
    RangeValid(r) && r.base >= ramBase && r.base + r.size <= ramEnd
  }

  ghost predicate Apart(ranges: seq<Range>, n: nat)
    requires n <= |ranges|
  {
    forall i, j :: 0 <= i < j < n ==> !RangesOverlap(ranges[j], ranges[i])
  }

  /** Every physical range in board RAM, no two overlapping, and no device's registers
      over any of them. */
  method CheckPhysical(ranges: seq<Range>, ramBase: nat, ramEnd: nat, devices: seq<Range>) returns (ok: bool)
    ensures ok <==>
            && (forall i :: 0 <= i < |ranges| ==> InRam(ranges[i], ramBase, ramEnd))
            && Apart(ranges, |ranges|)
            && forall d, i :: 0 <= d < |devices| && 0 <= i < |ranges| ==> !RangesOverlap(devices[d], ranges[i])
  {
    for index := 0 to |ranges|
      invariant forall i :: 0 <= i < index ==> InRam(ranges[i], ramBase, ramEnd)
    {
      if !InRam(ranges[index], ramBase, ramEnd) {
        return false;
      }
    }
    for index := 0 to |ranges|
      invariant Apart(ranges, index)
    {
      for other := 0 to index
        invariant forall i :: 0 <= i < other ==> !RangesOverlap(ranges[index], ranges[i])
      {
        if RangesOverlap(ranges[index], ranges[other]) {
          return false;
        }
      }
    }
    for d := 0 to |devices|
      invariant forall e, i :: 0 <= e < d && 0 <= i < |ranges| ==> !RangesOverlap(devices[e], ranges[i])
    {
      for other := 0 to |ranges|
        invariant forall i :: 0 <= i < other ==> !RangesOverlap(devices[d], ranges[i])
      {
        if RangesOverlap(devices[d], ranges[other]) {
          return false;
        }
      }
    }
    return true;
  }

  /** So no address of board RAM is given out twice. */
  lemma NoAddressTwice(ranges: seq<Range>, ramBase: nat, ramEnd: nat, i: nat, j: nat, a: nat)
    requires forall n :: 0 <= n < |ranges| ==> InRam(ranges[n], ramBase, ramEnd)
    requires Apart(ranges, |ranges|) && i < |ranges| && j < |ranges| && ranges[i].Has(a) && ranges[j].Has(a)
    ensures i == j && ramBase <= a < ramEnd
  {
    if i < j {
      OverlapIsSharing(ranges[j], ranges[i]);
    } else if j < i {
      OverlapIsSharing(ranges[i], ranges[j]);
    }
  }
}
