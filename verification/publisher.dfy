/** The publisher as one core runs it: the slot table and the payload area of the
    region, written in place under the lock. Memory is an array indexed by
    address; the fields of the page header this file reads are fields here. */
module TelemetryPublisher {
  import opened Words
  import opened Rounds
  import opened Telemetry

  const MAX_SLOTS: nat := 64
  const PAYLOAD_OFF: nat := 0x1000
  const PAYLOAD_BYTES: nat := 0x8000
  const ALIGN: nat := 8

  datatype Descriptor = Descriptor(source: nat, sequence: u64, stamp: u64, at: nat, bytes: nat)

  const BLANK := Descriptor(0, 0, 0, 0, 0)

  function Stride(bytes: nat): nat { (bytes + ALIGN - 1) / ALIGN * ALIGN }

  // --- What a visit means ------------------------------------------------------

  /** A slot after a visit that read `now`: untouched when nothing moved, else
      the next sequence, this turn's stamp and the new bytes. */
  function Published(cell: Cell, now: seq<byte>, stamp: u64): Cell {
    if now == cell.payload then cell else Cell((cell.sequence + 2) % TWO_64, stamp, now)
  }

  /** `count` visits going round from `from`. */
  function Visited(cells: seq<Cell>, sources: seq<seq<byte>>, from: nat, count: nat, stamp: u64): (r: seq<Cell>)
    requires |sources| == |cells| > 0
    ensures |r| == |cells|
    decreases count
  {
    if count == 0 then cells
    else
      var i := from % |cells|;
      Visited(cells[i := Published(cells[i], sources[i], stamp)], sources, from + 1, count - 1, stamp)
  }

  lemma {:induction false} VisitedSnoc(cells: seq<Cell>, sources: seq<seq<byte>>, from: nat, count: nat, stamp: u64)
    requires |sources| == |cells| > 0
    ensures var before, i := Visited(cells, sources, from, count, stamp), (from + count) % |cells|;
            Visited(cells, sources, from, count + 1, stamp) == before[i := Published(before[i], sources[i], stamp)]
    decreases count
  {
    var i := from % |cells|;
    var next := cells[i := Published(cells[i], sources[i], stamp)];
    if count == 0 {
      assert Visited(next, sources, from + 1, 0, stamp) == next;
    } else {
      VisitedSnoc(next, sources, from + 1, count - 1, stamp);
    }
  }

  /** The visits a count makes. */
  predicate Visits(from: nat, count: nat, n: nat, i: nat)
    requires n > 0
  {
    exists c :: 0 <= c < count && Lands(from, c, n, i)
  }

  predicate Lands(from: nat, c: nat, n: nat, i: nat)
    requires n > 0
  {
    (from + c) % n == i
  }

  /** A visited slot holds its source and has moved exactly when it had to; the
      others are as they were. */
  lemma {:induction false} VisitedSlot(cells: seq<Cell>, sources: seq<seq<byte>>, from: nat, count: nat, stamp: u64,
                                       i: nat)
    requires |sources| == |cells| && i < |cells|
    ensures Visited(cells, sources, from, count, stamp)[i] ==
            if Visits(from, count, |cells|, i) then Published(cells[i], sources[i], stamp) else cells[i]
    decreases count
  {
    if count > 0 {
      VisitedSlot(cells, sources, from, count - 1, stamp, i);
      VisitedSnoc(cells, sources, from, count - 1, stamp);
      if Visits(from, count - 1, |cells|, i) {
        var c :| 0 <= c < count - 1 && Lands(from, c, |cells|, i);
        assert Visits(from, count, |cells|, i);
      } else if Lands(from, count - 1, |cells|, i) {
        assert Visits(from, count, |cells|, i);
      }
    }
  }

  // --- The copy ----------------------------------------------------------------

  /** One 64-bit compare and store. */
  method ReplaceWord(out: array<byte>, at: nat, word: seq<byte>) returns (differs: bool)
    requires |word| == WORD && at + WORD <= out.Length
    modifies out
    ensures differs <==> old(out[..])[at..at + WORD] != word
    ensures forall k :: 0 <= k < out.Length ==>
              out[k] == if at <= k < at + WORD then word[k - at] else old(out[k])
  {
    differs := out[at..at + WORD] != word;
    assert out[..][at..at + WORD] == out[at..at + WORD];
    forall k | 0 <= k < WORD { out[at + k] := word[k]; }
  }

  /** One byte compare and store. */
  method ReplaceByte(out: array<byte>, at: nat, value: byte) returns (differs: bool)
    requires at < out.Length
    modifies out
    ensures differs <==> old(out[..])[at..at + 1] != [value]
    ensures forall k :: 0 <= k < out.Length ==> out[k] == if k == at then value else old(out[k])
  {
    differs := out[at] != value;
    assert out[..][at..at + 1] == [out[at]];
    out[at] := value;
  }

  /** Word by word while both sides are aligned, then byte by byte. */
  method CopyChanged(out: array<byte>, at: nat, memory: array<byte>, from: nat, bytes: nat) returns (moved: bool)
    requires out != memory && at + bytes <= out.Length && from + bytes <= memory.Length
    modifies out
    ensures out[..] == old(out[..at]) + memory[from..from + bytes] + old(out[at + bytes..])
    ensures moved <==> old(out[at..at + bytes]) != memory[from..from + bytes]
  {
    ghost var before, source := out[..], memory[from..from + bytes];
    var index, words := 0, false;
    if at % WORD == 0 && from % WORD == 0 {
      index, words := CopyWords(out, at, memory, from, bytes);
    }
    var tail := CopyBytes(out, at, memory, from, bytes, index, before);
    moved := words || tail;
    CopyDone(before, out[..], at, source);
  }

  method CopyWords(out: array<byte>, at: nat, memory: array<byte>, from: nat, bytes: nat)
    returns (index: nat, moved: bool)
    requires out != memory && at + bytes <= out.Length && from + bytes <= memory.Length
    modifies out
    ensures index <= bytes < index + WORD
    ensures CopiedTo(old(out[..]), out[..], at, memory[from..from + bytes], index)
    ensures moved <==> DiffersIn(old(out[..]), at, memory[from..from + bytes], 0, index)
  {
    ghost var before, source := out[..], memory[from..from + bytes];
    index, moved := 0, false;
    while index + WORD <= bytes
      invariant index <= bytes
      invariant CopiedTo(before, out[..], at, source, index)
      invariant moved <==> DiffersIn(before, at, source, 0, index)
    {
      UnitDiffers(before, out[..], at, source, 0, index, WORD);
      var differs := ReplaceWord(out, at + index, memory[from + index..from + index + WORD]);
      moved := moved || differs;
      index := index + WORD;
    }
  }

  method CopyBytes(out: array<byte>, at: nat, memory: array<byte>, from: nat, bytes: nat, start: nat,
                   ghost before: seq<byte>) returns (moved: bool)
    requires out != memory && at + bytes <= out.Length == |before| && from + bytes <= memory.Length
    requires start <= bytes && CopiedTo(before, out[..], at, memory[from..from + bytes], start)
    modifies out
    ensures CopiedTo(before, out[..], at, memory[from..from + bytes], bytes)
    ensures moved <==> DiffersIn(before, at, memory[from..from + bytes], start, bytes)
  {
    ghost var source := memory[from..from + bytes];
    var index := start;
    moved := false;
    while index < bytes
      invariant start <= index <= bytes
      invariant CopiedTo(before, out[..], at, source, index)
      invariant moved <==> DiffersIn(before, at, source, start, index)
    {
      UnitDiffers(before, out[..], at, source, start, index, 1);
      var differs := ReplaceByte(out, at + index, memory[from + index]);
      moved := moved || differs;
      index := index + 1;
    }
  }

  ghost predicate CopiedTo(before: seq<byte>, now: seq<byte>, at: nat, source: seq<byte>, index: nat)
    requires at + |source| <= |before| == |now| && index <= |source|
  {
    forall k :: 0 <= k < |now| ==> now[k] == if at <= k < at + index then source[k - at] else before[k]
  }

  ghost predicate DiffersIn(before: seq<byte>, at: nat, source: seq<byte>, lo: nat, hi: nat)
    requires at + |source| <= |before| && hi <= |source|
  {
    exists k :: lo <= k < hi && before[at + k] != source[k]
  }

  lemma UnitDiffers(before: seq<byte>, was: seq<byte>, at: nat, source: seq<byte>, lo: nat, index: nat, step: nat)
    requires at + |source| <= |before| == |was| && lo <= index && index + step <= |source|
    requires CopiedTo(before, was, at, source, index)
    ensures DiffersIn(before, at, source, lo, index + step) <==>
            DiffersIn(before, at, source, lo, index) ||
            was[at + index..at + index + step] != source[index..index + step]
  {
    var unit, want := was[at + index..at + index + step], source[index..index + step];
    if unit != want {
      var k :| 0 <= k < step && unit[k] != want[k];
      assert before[at + (index + k)] != source[index + k];
    }
    if k :| index <= k < index + step && before[at + k] != source[k] {
      assert unit[k - index] != want[k - index];
    }
  }

  lemma CopyDone(before: seq<byte>, now: seq<byte>, at: nat, source: seq<byte>)
    requires at + |source| <= |before| == |now| && CopiedTo(before, now, at, source, |source|)
    ensures now == before[..at] + source + before[at + |source|..]
    ensures DiffersIn(before, at, source, 0, |source|) <==> before[at..at + |source|] != source
  {
    var slice := before[at..at + |source|];
    if slice != source {
      var k :| 0 <= k < |source| && slice[k] != source[k];
      assert before[at + k] != source[k];
    }
  }

  // --- The region ----------------------------------------------------------------

  predicate PlacedIn(d: Descriptor, used: nat) {
    && d.bytes > 0
    && PAYLOAD_OFF <= d.at
    && (d.at - PAYLOAD_OFF) % ALIGN == 0
    && d.at - PAYLOAD_OFF + Stride(d.bytes) <= used
  }

  /** Every slot's payload is word aligned, inside the area, and nobody else's. */
  ghost predicate Layout(ds: seq<Descriptor>, used: nat) {
    && (forall i :: 0 <= i < |ds| ==> PlacedIn(ds[i], used))
    && (forall i, j :: 0 <= i < j < |ds| ==> ds[i].at + Stride(ds[i].bytes) <= ds[j].at)
  }

  lemma StrideCovers(bytes: nat)
    ensures bytes <= Stride(bytes) < bytes + ALIGN && Stride(bytes) % ALIGN == 0
  {}

  function CellOf(d: Descriptor, area: seq<byte>): Cell
    requires PlacedIn(d, |area|)
  {
    StrideCovers(d.bytes);
    var off := d.at - PAYLOAD_OFF;
    Cell(d.sequence, d.stamp, area[off..off + d.bytes])
  }

  function CellsOf(ds: seq<Descriptor>, area: seq<byte>): (r: seq<Cell>)
    requires Layout(ds, |area|)
    ensures |r| == |ds|
  {
    seq(|ds|, i requires 0 <= i < |ds| => CellOf(ds[i], area))
  }

  function SizesOf(ds: seq<Descriptor>): (r: seq<Size>)
    requires forall i :: 0 <= i < |ds| ==> ds[i].bytes > 0
    ensures |r| == |ds|
  {
    seq(|ds|, i requires 0 <= i < |ds| => ds[i].bytes)
  }

  /** The declared globals lie in memory. */
  ghost predicate Readable(ds: seq<Descriptor>, size: nat) {
    forall i :: 0 <= i < |ds| ==> ds[i].source + ds[i].bytes <= size
  }

  function SourcesOf(ds: seq<Descriptor>, memory: seq<byte>): (r: seq<seq<byte>>)
    requires Readable(ds, |memory|)
    ensures |r| == |ds|
  {
    seq(|ds|, i requires 0 <= i < |ds| => memory[ds[i].source..ds[i].source + ds[i].bytes])
  }

  /** Rewriting one slot's payload rewrites one cell. */
  lemma OneCell(ds: seq<Descriptor>, area: seq<byte>, ds': seq<Descriptor>, area': seq<byte>, i: nat, now: seq<byte>)
    requires i < |ds| == |ds'| && Layout(ds, |area|)
    requires |now| == ds[i].bytes
    requires ds' == ds[i := ds[i].(sequence := ds'[i].sequence, stamp := ds'[i].stamp)]
    requires var off := ds[i].at - PAYLOAD_OFF;
             off + ds[i].bytes <= |area| && area' == area[..off] + now + area[off + ds[i].bytes..]
    ensures Layout(ds', |area'|)
    ensures CellsOf(ds', area') == CellsOf(ds, area)[i := Cell(ds'[i].sequence, ds'[i].stamp, now)]
  {
    LayoutKept(ds, ds', |area|, i);
    var cells, cells' := CellsOf(ds, area), CellsOf(ds', area');
    forall j | 0 <= j < |ds|
      ensures cells'[j] == if j == i then Cell(ds'[i].sequence, ds'[i].stamp, now) else cells[j]
    {
      if j != i { Apart(ds, area, area', i, j, now); }
    }
  }

  lemma LayoutKept(ds: seq<Descriptor>, ds': seq<Descriptor>, used: nat, i: nat)
    requires i < |ds| && Layout(ds, used)
    requires |ds'| == |ds| && ds' == ds[i := ds[i].(sequence := ds'[i].sequence, stamp := ds'[i].stamp)]
    ensures Layout(ds', used)
  {
    assert PlacedIn(ds[i], used);
  }

  /** A payload laid at the watermark is past every other. */
  lemma LayoutMore(ds: seq<Descriptor>, d: Descriptor, used: nat)
    requires Layout(ds, used) && d.at == PAYLOAD_OFF + used && d.bytes > 0 && used % ALIGN == 0
    ensures Layout(ds + [d], used + Stride(d.bytes))
  {
    var more, top := ds + [d], used + Stride(d.bytes);
    StrideCovers(d.bytes);
    forall i | 0 <= i < |more| ensures PlacedIn(more[i], top) {
      assert i < |ds| ==> PlacedIn(ds[i], used);
    }
    forall i, j | 0 <= i < j < |more| ensures more[i].at + Stride(more[i].bytes) <= more[j].at {
      assert PlacedIn(ds[i], used);
    }
  }

  lemma Apart(ds: seq<Descriptor>, area: seq<byte>, area': seq<byte>, i: nat, j: nat, now: seq<byte>)
    requires i < |ds| && j < |ds| && i != j && Layout(ds, |area|) && |now| == ds[i].bytes
    requires var off := ds[i].at - PAYLOAD_OFF;
             off + ds[i].bytes <= |area| && area' == area[..off] + now + area[off + ds[i].bytes..]
    ensures |area'| == |area|
    ensures CellOf(ds[j], area') == CellOf(ds[j], area)
  {
    StrideCovers(ds[i].bytes);
    StrideCovers(ds[j].bytes);
    assert PlacedIn(ds[i], |area|) && PlacedIn(ds[j], |area|);
    var off := ds[j].at - PAYLOAD_OFF;
    if i < j {
      assert ds[i].at + Stride(ds[i].bytes) <= ds[j].at;
    } else {
      assert ds[j].at + Stride(ds[j].bytes) <= ds[i].at;
    }
    assert area'[off..off + ds[j].bytes] == area[off..off + ds[j].bytes];
  }

  class Publisher {
    const table: array<Descriptor>
    const payload: array<byte>
    var placed: bool
    var open: bool           // the magic has been released
    var headerSlots: nat
    var headerBytes: nat
    var budget: nat
    var slots: nat
    var used: nat
    var copied: nat
    var cursor: nat

    constructor ()
      ensures fresh(table) && fresh(payload) && Valid() && !placed
    {
      table := new Descriptor[MAX_SLOTS](_ => BLANK);
      payload := new byte[PAYLOAD_BYTES](_ => 0);
      placed, open := false, false;
      headerSlots, headerBytes, budget := 0, 0, 0;
      slots, used, copied, cursor := 0, 0, 0, 0;
    }

    ghost predicate Valid()
      reads this, table, payload
    {
      && table.Length == MAX_SLOTS && payload.Length == PAYLOAD_BYTES
      && slots <= MAX_SLOTS && used <= PAYLOAD_BYTES && used % ALIGN == 0
      && Layout(table[..slots], used)
      && copied == Total(SizesOf(table[..slots]))
      && (if slots == 0 then cursor == 0 else cursor < slots)
    }

    ghost function Slots(): seq<Descriptor>
      reads this, table
      requires slots <= table.Length
    {
      table[..slots]
    }

    ghost function Sizes(): seq<Size>
      reads this, table, payload
      requires Valid()
    {
      SizesOf(Slots())
    }

    ghost function Cells(): seq<Cell>
      reads this, table, payload
      requires Valid()
    {
      CellsOf(Slots(), payload[..])
    }

    /** Lay the region out again: geometry, an empty table, and not the magic. */
    method Bind(newBudget: nat)
      requires Valid()
      modifies this, table
      ensures Valid() && placed && !open && budget == newBudget
      ensures Slots() == [] && used == copied == cursor == 0
      ensures forall i :: 0 <= i < table.Length ==> table[i] == BLANK
    {
      placed, open := true, false;
      slots, used, copied, cursor := 0, 0, 0, 0;
      headerSlots, headerBytes := 0, 0;
      forall i | 0 <= i < table.Length { table[i] := BLANK; }
      budget := newBudget;
    }

    /** Register one span, or refuse it and change nothing. */
    method Declare(source: nat, bytes: nat) returns (ok: bool)
      requires Valid()
      modifies this, table
      ensures Valid()
      ensures ok <==> old(placed) && old(slots) < MAX_SLOTS && bytes > 0 && old(used) + Stride(bytes) <= PAYLOAD_BYTES
      ensures placed == old(placed) && open == old(open) && budget == old(budget) && cursor == old(cursor)
      ensures !ok ==> Slots() == old(Slots()) && used == old(used)
      ensures ok ==> used == old(used) + Stride(bytes) && copied == old(copied) + bytes
      ensures ok ==> exists d :: Slots() == old(Slots()) + [d] && d.source == source && d.bytes == bytes
                                 && d.at == PAYLOAD_OFF + old(used)
    {
      if !placed || slots >= MAX_SLOTS || bytes == 0 {
        return false;
      }
      if used + Stride(bytes) > PAYLOAD_BYTES {
        return false;
      }
      ghost var d := Enrol(source, bytes);
      return true;
    }

    /** A row and a stretch of payload for a span that has room. */
    method Enrol(source: nat, bytes: nat) returns (ghost enrolled: Descriptor)
      requires Valid() && slots < MAX_SLOTS && bytes > 0 && used + Stride(bytes) <= PAYLOAD_BYTES
      modifies this`used, this`copied, this`slots, table
      ensures Valid() && used == old(used) + Stride(bytes) && copied == old(copied) + bytes
      ensures Slots() == old(Slots()) + [enrolled]
      ensures enrolled.source == source && enrolled.bytes == bytes && enrolled.at == PAYLOAD_OFF + old(used)
    {
      var stride := Stride(bytes);
      ghost var before := table[..slots];
      StrideCovers(bytes);
      var d := table[slots].(source := source, at := PAYLOAD_OFF + used, bytes := bytes);
      table[slots] := d;
      TotalSnoc(SizesOf(before), bytes);
      LayoutMore(before, d, used);
      used, copied, slots := used + stride, copied + bytes, slots + 1;
      assert table[..slots] == before + [d];
      assert SizesOf(table[..slots]) == SizesOf(before) + [bytes];
      enrolled := d;
    }

    /** Make the region findable, with what was declared already in its header. */
    method Open()
      requires Valid()
      modifies this
      ensures Valid() && Slots() == old(Slots()) && placed == old(placed) && cursor == old(cursor) && budget == old(budget)
      ensures open <==> old(open) || placed
      ensures placed ==> headerSlots == |Slots()| && headerBytes == Total(Sizes())
    {
      if !placed { return; }
      headerSlots := slots;
      headerBytes := copied;
      open := true;
    }

    /** The region and memory, as the values the contracts below speak of. */
    ghost predicate Shows(memory: array<byte>, sizes: seq<Size>, sources: seq<seq<byte>>, cells: seq<Cell>)
      reads this, table, payload, memory
    {
      && Valid() && memory != payload && Readable(Slots(), memory.Length)
      && Sizes() == sizes && SourcesOf(Slots(), memory[..]) == sources && Cells() == cells
    }

    /** One slot under its sequence. */
    method PublishSlot(index: nat, memory: array<byte>, stamp: u64,
                       ghost sizes: seq<Size>, ghost sources: seq<seq<byte>>, ghost cells: seq<Cell>)
      returns (spent: nat)
      requires Shows(memory, sizes, sources, cells) && index < slots
      modifies table, payload
      ensures spent == sizes[index]
      ensures Shows(memory, sizes, sources, cells[index := Published(cells[index], sources[index], stamp)])
    {
      ghost var ds, area := table[..slots], payload[..];
      assert table[index] == ds[index] && PlacedIn(ds[index], used);
      StrideCovers(table[index].bytes);
      WriteSlot(index, memory, stamp);
      spent := table[index].bytes;
      SlotShown(ds, area, table[..slots], payload[..], index, memory[..], stamp, used);
    }

    /** publish_slot: the sequence odd while the bytes move, then on to the next even
        value with the new stamp, or back where nothing did. */
    method WriteSlot(index: nat, memory: array<byte>, stamp: u64)
      requires index < slots <= table.Length && memory != payload
      requires PAYLOAD_OFF <= table[index].at && table[index].at - PAYLOAD_OFF + table[index].bytes <= payload.Length
      requires table[index].source + table[index].bytes <= memory.Length
      modifies table, payload
      ensures var d, off := old(table[index]), old(table[index].at) - PAYLOAD_OFF;
              var now, was := memory[..][d.source..d.source + d.bytes], old(payload[..])[off..off + d.bytes];
              && payload[..] == old(payload[..])[..off] + now + old(payload[..])[off + d.bytes..]
              && table[..slots] == old(table[..slots])[index :=
                   if was == now then d else d.(sequence := (d.sequence + 2) % TWO_64, stamp := stamp)]
    {
      var d := table[index];
      SetSlot(index, d.(sequence := (d.sequence + 1) % TWO_64));
      var moved := CopyChanged(payload, d.at - PAYLOAD_OFF, memory, d.source, d.bytes);
      if moved {
        SetSlot(index, table[..slots][index].(stamp := stamp));
      }
      SetSlot(index, table[..slots][index].(sequence := if moved then (d.sequence + 2) % TWO_64 else d.sequence));
    }

    method SetSlot(index: nat, d: Descriptor)
      requires index < slots <= table.Length
      modifies table
      ensures table[..slots] == old(table[..slots])[index := d]
    {
      table[index] := d;
    }

    /** The slot under the cursor, and the cursor on by one. */
    method PublishNext(memory: array<byte>, stamp: u64,
                       ghost sizes: seq<Size>, ghost sources: seq<seq<byte>>, ghost cells: seq<Cell>)
      returns (spent: nat)
      requires Shows(memory, sizes, sources, cells) && slots > 0
      modifies this`cursor, table, payload
      ensures slots == |cells| == |sizes| == |sources| && old(cursor) < slots
      ensures spent == sizes[old(cursor)]
      ensures cursor == Next(old(cursor), slots)
      ensures Shows(memory, sizes, sources,
                    cells[old(cursor) := Published(cells[old(cursor)], sources[old(cursor)], stamp)])
    {
      spent := PublishSlot(cursor, memory, stamp, sizes, sources, cells);
      NextIsMod(cursor, slots);
      cursor := (cursor + 1) % slots;
    }

    /** As many slots from the cursor on as the budget pays for. */
    method Publish(memory: array<byte>, stamp: u64,
                   ghost sizes: seq<Size>, ghost sources: seq<seq<byte>>, ghost cells: seq<Cell>)
      returns (spent: nat, ghost count: nat)
      requires Shows(memory, sizes, sources, cells)
      modifies this`cursor, table, payload
      ensures !placed || slots == 0 ==>
                spent == 0 && cursor == old(cursor) && Shows(memory, sizes, sources, cells)
      ensures placed && slots > 0 ==>
                && |cells| == |sizes| == |sources| == slots
                && TurnStops(sizes, old(cursor), budget, count)
                && spent == Swept(sizes, old(cursor), count)
                && cursor == CursorAt(old(cursor), count, slots)
                && Shows(memory, sizes, sources, Visited(cells, sources, old(cursor), count, stamp))
    {
      count, spent := 0, 0;
      if !placed || slots == 0 {
        return;
      }
      assert cursor < slots == |sizes|;
      spent, count := SpendBudget(memory, stamp, sizes, sources, cells, cursor);
    }

    /** publish()'s loop. `== true` keeps the turn one fact, not each of its parts. */
    method SpendBudget(memory: array<byte>, stamp: u64,
                       ghost sizes: seq<Size>, ghost sources: seq<seq<byte>>, ghost cells: seq<Cell>,
                       ghost from: nat)
      returns (spent: nat, ghost count: nat)
      requires InTurn(memory, sizes, sources, cells, from, 0, 0, stamp)
      modifies this`cursor, table, payload
      ensures InTurn(memory, sizes, sources, cells, from, count, spent, stamp) == true
      ensures count == slots || spent >= budget
    {
      var visited := 0;
      spent := 0;
      while visited < slots && spent < budget
        invariant InTurn(memory, sizes, sources, cells, from, visited, spent, stamp) == true
        decreases slots - visited
      {
        var bytes := TurnStep(memory, stamp, sizes, sources, cells, from, visited, spent);
        spent := spent + bytes;
        visited := visited + 1;
      }
      count := visited;
    }

    /** A turn that started at `from` with these cells, this many slots in. */
    ghost predicate InTurn(memory: array<byte>, sizes: seq<Size>, sources: seq<seq<byte>>, cells: seq<Cell>,
                           from: nat, visited: nat, spent: nat, stamp: u64)
      reads this, table, payload, memory
    {
      && |cells| == |sizes| == |sources| == slots > from
      && visited <= slots
      && Turning(sizes, from, budget, visited, spent, cursor)
      && Shows(memory, sizes, sources, Visited(cells, sources, from, visited, stamp))
    }

    method TurnStep(memory: array<byte>, stamp: u64,
                    ghost sizes: seq<Size>, ghost sources: seq<seq<byte>>, ghost cells: seq<Cell>,
                    ghost from: nat, ghost visited: nat, ghost spent: nat) returns (bytes: nat)
      requires InTurn(memory, sizes, sources, cells, from, visited, spent, stamp)
      requires visited < slots && spent < budget
      modifies this`cursor, table, payload
      ensures InTurn(memory, sizes, sources, cells, from, visited + 1, spent + bytes, stamp)
    {
      TurnGrows(sizes, from, budget, visited, spent, cursor);
      CellsGrow(cells, sources, from, visited, stamp);
      bytes := PublishNext(memory, stamp, sizes, sources, Visited(cells, sources, from, visited, stamp));
    }

    /** A sweep of the whole table in order; the cursor stays. */
    method PublishAll(memory: array<byte>, stamp: u64,
                      ghost sizes: seq<Size>, ghost sources: seq<seq<byte>>, ghost cells: seq<Cell>)
      returns (spent: nat)
      requires Shows(memory, sizes, sources, cells)
      modifies table, payload
      ensures !placed ==> spent == 0 && Shows(memory, sizes, sources, cells)
      ensures placed ==> spent == Total(sizes) && Shows(memory, sizes, sources, Swath(cells, sources, slots, stamp))
    {
      spent := 0;
      if !placed {
        return;
      }
      var index := 0;
      while index < slots
        invariant index <= slots == |cells|
        invariant spent == Total(sizes[..index])
        invariant Shows(memory, sizes, sources, Swath(cells, sources, index, stamp))
      {
        var bytes := SwathStep(index, memory, stamp, sizes, sources, cells);
        spent := spent + bytes;
        index := index + 1;
      }
      assert sizes[..slots] == sizes;
    }

    method SwathStep(index: nat, memory: array<byte>, stamp: u64,
                     ghost sizes: seq<Size>, ghost sources: seq<seq<byte>>, ghost cells: seq<Cell>)
      returns (bytes: nat)
      requires index < slots == |cells| && |sources| == |cells|
      requires Shows(memory, sizes, sources, Swath(cells, sources, index, stamp))
      modifies table, payload
      ensures Shows(memory, sizes, sources, Swath(cells, sources, index + 1, stamp))
      ensures index < |sizes| && Total(sizes[..index + 1]) == Total(sizes[..index]) + bytes
    {
      bytes := PublishSlot(index, memory, stamp, sizes, sources, Swath(cells, sources, index, stamp));
      TotalSnoc(sizes[..index], sizes[index]);
      assert sizes[..index + 1] == sizes[..index] + [sizes[index]];
      assert Swath(cells, sources, index + 1, stamp) ==
             Swath(cells, sources, index, stamp)[index := Published(cells[index], sources[index], stamp)];
    }
  }

  /** The first `count` slots published, the rest as they were. */
  function Swath(cells: seq<Cell>, sources: seq<seq<byte>>, count: nat, stamp: u64): (r: seq<Cell>)
    requires |sources| == |cells|
    ensures |r| == |cells|
  {
    seq(|cells|, i requires 0 <= i < |cells| =>
      if i < count then Published(cells[i], sources[i], stamp) else cells[i])
  }

  function Next(cursor: nat, n: nat): nat { if cursor + 1 == n then 0 else cursor + 1 }

  lemma NextIsMod(cursor: nat, n: nat)
    requires cursor < n
    ensures (cursor + 1) % n == Next(cursor, n)
  {
    if cursor + 1 == n { ModUnique(n, 1, 0, n); } else { ModUnique(cursor + 1, 0, cursor + 1, n); }
  }

  /** Where the cursor stands after this many slots. */
  function CursorAt(from: nat, visited: nat, n: nat): nat
    decreases visited
  {
    if visited == 0 then from else Next(CursorAt(from, visited - 1, n), n)
  }

  lemma {:induction false} CursorIsMod(from: nat, visited: nat, n: nat)
    requires from < n
    ensures CursorAt(from, visited, n) == (from + visited) % n < n
    decreases visited
  {
    if visited == 0 {
      ModUnique(from, 0, from, n);
    } else {
      CursorIsMod(from, visited - 1, n);
      NextIsMod(CursorAt(from, visited - 1, n), n);
      CursorMoves(from, visited - 1, n);
    }
  }

  /** Part way through a turn, with no slot so far entered past the budget. */
  ghost predicate Turning(sizes: seq<Size>, from: nat, budget: nat, visited: nat, spent: nat, cursor: nat)
    requires sizes != []
  {
    && cursor == CursorAt(from, visited, |sizes|)
    && spent == Swept(sizes, from, visited)
    && (forall c :: 0 <= c < visited ==> Swept(sizes, from, c) < budget)
  }

  lemma TurnGrows(sizes: seq<Size>, from: nat, budget: nat, visited: nat, spent: nat, cursor: nat)
    requires sizes != [] && from < |sizes| && Turning(sizes, from, budget, visited, spent, cursor) && spent < budget
    ensures cursor < |sizes|
    ensures Turning(sizes, from, budget, visited + 1, spent + sizes[cursor], Next(cursor, |sizes|))
  {
    CursorIsMod(from, visited, |sizes|);
    SweptSplit(sizes, from, visited, 1);
    assert Swept(sizes, from + visited, 1) == sizes[(from + visited) % |sizes|];
  }

  lemma CellsGrow(cells: seq<Cell>, sources: seq<seq<byte>>, from: nat, visited: nat, stamp: u64)
    requires |sources| == |cells| && from < |cells|
    ensures var before, i := Visited(cells, sources, from, visited, stamp), CursorAt(from, visited, |cells|);
            && i < |cells|
            && Visited(cells, sources, from, visited + 1, stamp) == before[i := Published(before[i], sources[i], stamp)]
  {
    CursorIsMod(from, visited, |cells|);
    VisitedSnoc(cells, sources, from, visited, stamp);
  }

  lemma CursorMoves(from: nat, visited: nat, n: nat)
    requires n > 0
    ensures ((from + visited) % n + 1) % n == (from + visited + 1) % n
  {
    Reduced(from + visited, n);
    NextSlot((from + visited) % n, from + visited, n);
  }

  lemma {:induction false} TotalSnoc(sizes: seq<Size>, last: Size)
    ensures Total(sizes + [last]) == Total(sizes) + last
  {
    if sizes != [] {
      assert (sizes + [last])[1..] == sizes[1..] + [last];
      TotalSnoc(sizes[1..], last);
    }
  }

  lemma SlotPublished(ds: seq<Descriptor>, area: seq<byte>, ds': seq<Descriptor>, area': seq<byte>, i: nat,
                      memory: seq<byte>, stamp: u64, used: nat)
    requires i < |ds| == |ds'| && Layout(ds, used) && used <= |area| && Readable(ds, |memory|)
    requires var off := ds[i].at - PAYLOAD_OFF; off + ds[i].bytes <= |area|
    requires var d, off := ds[i], ds[i].at - PAYLOAD_OFF;
             var now, was := memory[d.source..d.source + d.bytes], area[off..off + d.bytes];
             && area' == area[..off] + now + area[off + d.bytes..]
             && ds' == ds[i := if was == now then d else d.(sequence := (d.sequence + 2) % TWO_64, stamp := stamp)]
    ensures Layout(ds, |area|) && Layout(ds', used) && |area'| == |area| && Layout(ds', |area'|)
    ensures SameSpans(ds, ds')
    ensures CellsOf(ds', area') ==
            CellsOf(ds, area)[i := Published(CellsOf(ds, area)[i], SourcesOf(ds, memory)[i], stamp)]
  {
    LayoutKept(ds, ds', used, i);
    OneCell(ds, area, ds', area', i, memory[ds[i].source..ds[i].source + ds[i].bytes]);
  }

  lemma SlotShown(ds: seq<Descriptor>, area: seq<byte>, ds': seq<Descriptor>, area': seq<byte>, i: nat,
                  memory: seq<byte>, stamp: u64, used: nat)
    requires i < |ds| == |ds'| && Layout(ds, used) && used <= |area| && Readable(ds, |memory|)
    requires PlacedIn(ds[i], used)
    requires var d, off := ds[i], ds[i].at - PAYLOAD_OFF;
             off + d.bytes <= |area| &&
             var now, was := memory[d.source..d.source + d.bytes], area[off..off + d.bytes];
             && area' == area[..off] + now + area[off + d.bytes..]
             && ds' == ds[i := if was == now then d else d.(sequence := (d.sequence + 2) % TWO_64, stamp := stamp)]
    requires forall k :: 0 <= k < |ds| ==> ds[k].bytes > 0
    ensures Layout(ds, |area|) && Layout(ds', used) && |area'| == |area| && Layout(ds', |area'|)
    ensures Readable(ds', |memory|) && SizesOf(ds') == SizesOf(ds) && SourcesOf(ds', memory) == SourcesOf(ds, memory)
    ensures CellsOf(ds', area') ==
            CellsOf(ds, area)[i := Published(CellsOf(ds, area)[i], SourcesOf(ds, memory)[i], stamp)]
  {
    SlotPublished(ds, area, ds', area', i, memory, stamp, used);
    SpansFix(ds, ds', memory);
  }

  /** The same globals, of the same sizes. */
  ghost predicate SameSpans(ds: seq<Descriptor>, ds': seq<Descriptor>) {
    && |ds| == |ds'|
    && (forall i :: 0 <= i < |ds| ==> ds'[i].source == ds[i].source && ds'[i].bytes == ds[i].bytes)
  }

  lemma SpansFix(ds: seq<Descriptor>, ds': seq<Descriptor>, memory: seq<byte>)
    requires SameSpans(ds, ds') && Readable(ds, |memory|)
    requires forall i :: 0 <= i < |ds| ==> ds[i].bytes > 0
    ensures Readable(ds', |memory|)
    ensures SizesOf(ds') == SizesOf(ds) && SourcesOf(ds', memory) == SourcesOf(ds, memory)
  {}
}
