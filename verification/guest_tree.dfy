/** Every node of a guest's tree, as a reader of the blob finds it. What is said of the
    tree is said of the reader's nodes, cells and names, not of the calls that wrote it. */
module GuestTree {
  import opened Words
  import opened Fdt
  import FdtRoundTrip
  import opened GuestDtb
  import opened DeviceTree
  import FdtGuest
  import GuestRecovery

  // --- What a guest's tree says ---------------------------------------------------

  function Line(text: string): Value { Text(Letters(text)) }

  function Lines(first: string, second: string): Value { Texts(Letters(first), Letters(second)) }

  function If(c: bool, entry: Entry): seq<Entry> { if c then [entry] else [] }

  function MemoryTable(g: Guest, l: Layout): seq<Entry> {
    [Entry("device_type", Line("memory")), Entry("reg", Wide([l.ipaBase, g.memorySize]))]
  }

  function CpuTable(k: nat, cpuCompatible: seq<byte>, psci: bool): seq<Entry> {
    [Entry("device_type", Line("cpu")), Entry("compatible", Text(cpuCompatible)), Entry("reg", Cells([k]))]
    + If(psci, Entry("enable-method", Line("psci")))
  }

  function CpusTable(): seq<Entry> { [Entry("#address-cells", Cells([1])), Entry("#size-cells", Cells([0]))] }

  function PsciTable(): seq<Entry> {
    [Entry("compatible", Lines("arm,psci-1.0", "arm,psci-0.2")), Entry("method", Line("hvc"))]
  }

  /** The distributor's frame, then one redistributor frame for each vCPU. */
  function IntcTable(g: Guest, l: Layout): seq<Entry> {
    [Entry("compatible", Line("arm,gic-v3")), Entry("interrupt-controller", Empty), Entry("#interrupt-cells", Cells([3])),
     Entry("reg", Wide([l.gicdBase, l.gicdFrame, l.gicrBase, l.gicrFrame * g.vcpus])), Entry("phandle", Cells([1]))]
  }

  function TimerTable(): seq<Entry> {
    [Entry("compatible", Line("arm,armv8-timer")), Entry("interrupts", Cells([1, 13, 4, 1, 14, 4, 1, 11, 4, 1, 10, 4]))]
  }

  function ClockTable(): seq<Entry> {
    [Entry("compatible", Line("fixed-clock")), Entry("#clock-cells", Cells([0])), Entry("clock-frequency", Cells([24_000_000])),
     Entry("clock-output-names", Line("clk24mhz")), Entry("phandle", Cells([2]))]
  }

  function UartTable(l: Layout): seq<Entry> {
    [Entry("compatible", Lines("arm,pl011", "arm,primecell")), Entry("reg", Wide([l.vuartBase, 0x1000])),
     Entry("interrupts", Cells([0, l.vuartSpi - 32, 4])), Entry("clocks", Cells([2, 2])),
     Entry("clock-names", Lines("uartclk", "apb_pclk"))]
  }

  function DeviceTable(d: Device, g: Guest, l: Layout): seq<Entry> {
    [Entry("compatible", Text(d.compatible)), Entry("reg", Wide([d.guestIpa, d.mmioSize])),
     Entry("interrupts", Cells([0, d.virtualIntid - 32, if d.level then 4 else 1])),
     Entry("nova,dma-window", Wide([l.ipaBase, g.memorySize]))]
    + If(d.coherent, Entry("dma-coherent", Empty))
  }

  /** The console's path is the uart's name. */
  function ChosenTable(g: Guest, uart: seq<byte>): seq<Entry> {
    If(g.vuart, Entry("stdout-path", Text(Letters("/") + uart)))
    + If(g.bootargs != [], Entry("bootargs", Text(g.bootargs)))
  }

  function RootAlways(g: Guest): (table: seq<Entry>)
    ensures |table| == 5
  {
    [Entry("compatible", Line("novavisor,guest")), Entry("model", Text(g.name)), Entry("#address-cells", Cells([2])),
     Entry("#size-cells", Cells([2])), Entry("interrupt-parent", Cells([1]))]
  }

  function RootTable(g: Guest): seq<Entry> {
    RootAlways(g) + If(g.autostart, Entry("nova,autostart", Empty))
    + (if g.cores.Some? then [Entry("nova,affinity", Cells(g.cores.value))] else [])
  }

  ghost predicate Plainly(n: Node, name: string, table: seq<Entry>) {
    n.name == Letters(name) && n.children == [] && Holds(n, table)
  }

  /** A node named after its address, which `reg` gives again. */
  ghost predicate Located(n: Node, stem: seq<byte>, address: nat, radix: nat, table: seq<Entry>) {
    NamedAt(n, stem, address, radix) && n.children == [] && Holds(n, table)
  }

  ghost predicate IsCpus(n: Node, g: Guest, cpuCompatible: seq<byte>, psci: bool) {
    && n.name == Letters("cpus") && Holds(n, CpusTable()) && |n.children| == g.vcpus
    && forall k :: 0 <= k < g.vcpus ==> Located(n.children[k], Letters("cpu"), k, 10, CpuTable(k, cpuCompatible, psci))
  }

  /** Where the interrupt controller stands among the root's children. */
  function IntcAt(psci: bool): nat { if psci then 3 else 2 }

  /** Where the first device stands. */
  function DevicesAt(g: Guest, psci: bool): nat { IntcAt(psci) + if g.vuart then 4 else 2 }

  ghost predicate DescribesPlatform(nodes: seq<Node>, g: Guest, l: Layout, psci: bool)
    requires |nodes| == DevicesAt(g, psci) - 2
  {
    var intc := IntcAt(psci) - 2;
    && (psci ==> Plainly(nodes[0], "psci", PsciTable()))
    && Located(nodes[intc], Letters("intc"), l.gicdBase, 16, IntcTable(g, l))
    && Plainly(nodes[intc + 1], "timer", TimerTable())
    && (g.vuart ==> Plainly(nodes[intc + 2], "apb-pclk", ClockTable()) &&
                    Located(nodes[intc + 3], Letters("uart"), l.vuartBase, 16, UartTable(l)))
  }

  /** The guest's tree: memory, one node for each vCPU, the platform, one node for each
      device in order, and what was chosen. */
  ghost predicate Describes(root: Node, g: Guest, l: Layout, cpuCompatible: seq<byte>, psci: bool) {
    var nodes, first := root.children, DevicesAt(g, psci);
    && root.name == [] && Holds(root, RootTable(g)) && |nodes| == first + |g.devices| + 1
    && Located(nodes[0], Letters("memory"), l.ipaBase, 16, MemoryTable(g, l))
    && IsCpus(nodes[1], g, cpuCompatible, psci)
    && DescribesPlatform(nodes[2..first], g, l, psci)
    && (forall i :: 0 <= i < |g.devices| ==>
          Located(nodes[first + i], g.devices[i].id, g.devices[i].guestIpa, 16, DeviceTable(g.devices[i], g, l)))
    && Plainly(nodes[first + |g.devices|], "chosen", ChosenTable(g, if g.vuart then nodes[first - 1].name else []))
  }

  // --- Values --------------------------------------------------------------------------

  lemma AsciiIs()
    ensures forall s: string :: Ascii(s) == Letters(s)
  {}

  lemma BigEndianSnoc(b: seq<byte>, last: byte)
    ensures BigEndian(b + [last]) == BigEndian(b) * 256 + last
  {
    assert (b + [last])[..|b|] == b;
  }

  lemma BigEndian32(v: u32)
    ensures BigEndian(BE32(v)) == v
  {
    var b := BE32(v);
    BE32Back(v);
    assert b[..0] == [] && b[..1] == b[..0] + [b[0]] && b[..2] == b[..1] + [b[1]];
    assert b[..3] == b[..2] + [b[2]] && b == b[..3] + [b[3]];
    BigEndianSnoc(b[..0], b[0]);
    BigEndianSnoc(b[..1], b[1]);
    BigEndianSnoc(b[..2], b[2]);
    BigEndianSnoc(b[..3], b[3]);
  }

  lemma BigEndianJoin(a: seq<byte>, b: seq<byte>)
    requires |b| == 4
    ensures BigEndian(a + b) == BigEndian(a) * TWO_32 + BigEndian(b)
  {
    BigEndianAfter(a, b, 4);
    assert b[..4] == b && Shifted(1) == 256 && Shifted(2) == 0x1_0000 && Shifted(3) == 0x100_0000 && Shifted(4) == TWO_32;
  }

  function Shifted(n: nat): nat { if n == 0 then 1 else 256 * Shifted(n - 1) }

  lemma {:induction false} BigEndianAfter(a: seq<byte>, b: seq<byte>, n: nat)
    requires n <= |b|
    ensures BigEndian(a + b[..n]) == BigEndian(a) * Shifted(n) + BigEndian(b[..n])
    decreases n
  {
    if n == 0 {
      assert a + b[..0] == a;
    } else {
      BigEndianAfter(a, b, n - 1);
      BigEndianOn(a, b, n - 1);
      assert b[..n - 1 + 1] == b[..n];
      OneByteUp(BigEndian(a + b[..n - 1]), BigEndian(a), Shifted(n - 1), BigEndian(b[..n - 1]), b[n - 1]);
    }
  }

  lemma OneByteUp(x: nat, a: nat, s: nat, y: nat, d: nat)
    requires x == a * s + y
    ensures x * 256 + d == a * (256 * s) + (y * 256 + d)
  {
    assert a * (256 * s) == 256 * (a * s);
  }

  lemma BigEndianOn(a: seq<byte>, b: seq<byte>, i: nat)
    requires i < |b|
    ensures BigEndian(a + b[..i + 1]) == BigEndian(a + b[..i]) * 256 + b[i]
    ensures BigEndian(b[..i + 1]) == BigEndian(b[..i]) * 256 + b[i]
  {
    assert a + b[..i + 1] == a + b[..i] + [b[i]] && b[..i + 1] == b[..i] + [b[i]];
    BigEndianSnoc(a + b[..i], b[i]);
    BigEndianSnoc(b[..i], b[i]);
  }

  lemma BigEndian64(v: u64)
    ensures BigEndian(BE64(v)) == v
  {
    BigEndian32(v / TWO_32);
    BigEndian32(v % TWO_32);
    BigEndianJoin(BE32(v / TWO_32), BE32(v % TWO_32));
  }

  lemma {:induction false} CellAt32(values: seq<u32>, i: nat)
    requires i < |values|
    ensures U32s(values)[4 * i..4 * i + 4] == BE32(values[i])
    decreases |values|
  {
    var before, all := values[..|values| - 1], U32s(values);
    if i < |before| {
      CellAt32(before, i);
      assert all[4 * i..4 * i + 4] == U32s(before)[4 * i..4 * i + 4];
    } else {
      assert all[4 * i..4 * i + 4] == BE32(values[i]);
    }
  }

  lemma Cells32Back(values: seq<u32>)
    ensures Cells32(U32s(values)) == values
  {
    forall i | 0 <= i < |values| ensures Cells32(U32s(values))[i] == values[i] {
      CellAt32(values, i);
      BigEndian32(values[i]);
    }
  }

  lemma {:induction false} CellAt64(values: seq<u64>, i: nat)
    requires i < |values|
    ensures U64s(values)[8 * i..8 * i + 8] == BE64(values[i])
    decreases |values|
  {
    var before, all := values[..|values| - 1], U64s(values);
    if i < |before| {
      CellAt64(before, i);
      assert all[8 * i..8 * i + 8] == U64s(before)[8 * i..8 * i + 8];
    } else {
      assert all[8 * i..8 * i + 8] == BE64(values[i]);
    }
  }

  lemma Cells64Back(values: seq<u64>)
    ensures Cells64(U64s(values)) == values
  {
    forall i | 0 <= i < |values| ensures Cells64(U64s(values))[i] == values[i] {
      CellAt64(values, i);
      BigEndian64(values[i]);
    }
  }

  lemma OneString(text: seq<byte>)
    ensures Strings([text]) == text + [0]
  {
    assert [text][..0] == [];
    assert Strings([]) + text + [0] == text + [0];
  }

  lemma TwoStrings(a: seq<byte>, b: seq<byte>)
    ensures Strings([a, b]) == a + [0] + b + [0]
  {
    OneString(a);
    assert [a, b][..1] == [a];
  }

  // --- Names ------------------------------------------------------------------------------

  lemma Divided(n: nat, radix: nat)
    requires radix == 10 || radix == 16
    ensures n / radix * radix + n % radix == n && (n >= radix ==> n / radix < n)
  {
    if radix == 10 {}
  }

  lemma DigitBack(d: nat)
    requires d < 16
    ensures DigitValue(Digit(d)) == d
  {}

  lemma {:induction false} NumberBack(n: nat, radix: nat)
    requires radix == 10 || radix == 16
    ensures ValueOf(Number(n, radix), radix) == n
    decreases n
  {
    var before := if n < radix then [] else Number(n / radix, radix);
    var digits := before + [Digit(n % radix)];
    assert Number(n, radix) == digits && digits[..|digits| - 1] == before;
    DigitBack(n % radix);
    Divided(n, radix);
    if n >= radix { NumberBack(n / radix, radix); }
    OneMoreDigit(before, n, radix);
  }

  lemma OneMoreDigit(before: seq<byte>, n: nat, radix: nat)
    requires (radix == 10 || radix == 16) && ValueOf(before, radix) == n / radix
    ensures ValueOf(before + [Digit(n % radix)], radix) == n
  {
    var digits := before + [Digit(n % radix)];
    assert digits[..|before|] == before;
    DigitBack(n % radix);
    Divided(n, radix);
  }

  lemma {:induction false} StemBack(stem: seq<byte>, rest: seq<byte>)
    requires FdtGuest.AT !in stem
    ensures Stem(stem + [FdtGuest.AT] + rest) == stem
    decreases |stem|
  {
    var name := stem + [FdtGuest.AT] + rest;
    if stem != [] {
      assert name[0] == stem[0] && name[1..] == stem[1..] + [FdtGuest.AT] + rest;
      StemBack(stem[1..], rest);
    }
  }

  lemma NamedBack(n: Node, stem: seq<byte>, address: nat, radix: nat)
    requires FdtGuest.AT !in stem && (radix == 10 || radix == 16) && n.name == stem + [FdtGuest.AT] + Number(address, radix)
    ensures NamedAt(n, stem, address, radix)
  {
    StemBack(stem, Number(address, radix));
    NumberBack(address, radix);
    assert n.name[|stem| + 1..] == Number(address, radix);
  }

  // --- Each node ---------------------------------------------------------------------------

  function Bare(name: seq<byte>, props: seq<Call>): Node
    requires AllProps(props)
  {
    Node(name, Pairs(props), [])
  }

  /** The call writes the entry. */
  ghost predicate Writes(call: Call, entry: Entry) {
    && call.Prop? && call.name == Ascii(entry.name)
    && match entry.value
       case Empty => call.data == []
       case Text(text) => call.data == Strings([text])
       case Texts(a, b) => call.data == Strings([a, b])
       case Cells(cells) => (forall i :: 0 <= i < |cells| ==> cells[i] < TWO_32) && call.data == U32s(cells)
       case Wide(cells) => (forall i :: 0 <= i < |cells| ==> cells[i] < TWO_64) && call.data == U64s(cells)
  }

  lemma WrittenReads(call: Call, entry: Entry)
    requires Writes(call, entry)
    ensures call.name == Letters(entry.name) && ReadsAs(call.data, entry.value)
  {
    AsciiIs();
    match entry.value
    case Empty =>
    case Text(text) => OneString(text);
    case Texts(a, b) => TwoStrings(a, b);
    case Cells(cells) => Cells32Back(cells);
    case Wide(cells) => Cells64Back(cells);
  }

  ghost predicate WritesAll(props: seq<Call>, table: seq<Entry>) {
    |props| == |table| && forall i :: 0 <= i < |table| ==> Writes(props[i], table[i])
  }

  /** What a node's properties hold, by name. */
  lemma HoldsWritten(n: Node, props: seq<Call>, table: seq<Entry>)
    requires Distinct(table) && WritesAll(props, table)
    requires AllProps(props) && n.props == Pairs(props)
    ensures Holds(n, table)
  {
    forall i | 0 <= i < |table| ensures n.props[i].name == Letters(table[i].name) { WrittenReads(props[i], table[i]); }
    forall i | 0 <= i < |table| ensures HoldsOne(n, table[i]) {
      FindAt(n.props, table, i);
      WrittenReads(props[i], table[i]);
    }
  }

  lemma MemoryDistinct(g: Guest, l: Layout)
    ensures Distinct(MemoryTable(g, l))
  {}

  lemma MemoryWritten(g: Guest, l: Layout)
    ensures AllProps(MemoryProps(g, l)) && WritesAll(MemoryProps(g, l), MemoryTable(g, l))
  {
    AsciiIs();
    var p, t := MemoryProps(g, l), MemoryTable(g, l);
    assert Writes(p[0], t[0]);
    assert Writes(p[1], t[1]);
  }

  lemma CpuDistinct(k: u32, cpuCompatible: seq<byte>, psci: bool)
    ensures Distinct(CpuTable(k, cpuCompatible, psci))
  {}

  lemma CpuWritten(k: u32, cpuCompatible: seq<byte>, psci: bool)
    ensures AllProps(CpuProps(k, cpuCompatible, psci))
    ensures WritesAll(CpuProps(k, cpuCompatible, psci), CpuTable(k, cpuCompatible, psci))
  {
    AsciiIs();
    var p, t := CpuProps(k, cpuCompatible, psci), CpuTable(k, cpuCompatible, psci);
    assert Writes(p[0], t[0]);
    assert Writes(p[1], t[1]);
    assert Writes(p[2], t[2]);
  }

  lemma PsciDistinct()
    ensures Distinct(PsciTable())
  {}

  lemma PsciWritten()
    ensures AllProps(PsciProps()) && WritesAll(PsciProps(), PsciTable())
  {
    AsciiIs();
    var p, t := PsciProps(), PsciTable();
    assert Writes(p[0], t[0]);
    assert Writes(p[1], t[1]);
  }

  lemma IntcDistinct(g: Guest, l: Layout)
    ensures Distinct(IntcTable(g, l))
  {}

  lemma IntcWritten(g: Guest, l: Layout)
    ensures AllProps(IntcProps(g, l)) && WritesAll(IntcProps(g, l), IntcTable(g, l))
  {
    AsciiIs();
    var p, t := IntcProps(g, l), IntcTable(g, l);
    assert Writes(p[0], t[0]);
    assert Writes(p[1], t[1]);
    assert Writes(p[2], t[2]);
    assert Writes(p[3], t[3]);
    assert Writes(p[4], t[4]);
  }

  lemma TimerDistinct()
    ensures Distinct(TimerTable())
  {}

  lemma TimerWritten()
    ensures AllProps(TimerProps()) && WritesAll(TimerProps(), TimerTable())
  {
    AsciiIs();
    var p, t := TimerProps(), TimerTable();
    assert Writes(p[0], t[0]);
    assert Writes(p[1], t[1]);
  }

  lemma ClockDistinct()
    ensures Distinct(ClockTable())
  {}

  lemma ClockWritten()
    ensures AllProps(ClockProps()) && WritesAll(ClockProps(), ClockTable())
  {
    AsciiIs();
    var p, t := ClockProps(), ClockTable();
    assert Writes(p[0], t[0]);
    assert Writes(p[1], t[1]);
    assert Writes(p[2], t[2]);
    assert Writes(p[3], t[3]);
    assert Writes(p[4], t[4]);
  }

  lemma UartDistinct(l: Layout)
    ensures Distinct(UartTable(l))
  {}

  lemma UartWritten(l: Layout)
    ensures AllProps(UartProps(l)) && WritesAll(UartProps(l), UartTable(l))
  {
    AsciiIs();
    var p, t := UartProps(l), UartTable(l);
    assert Writes(p[0], t[0]);
    assert Writes(p[1], t[1]);
    assert Writes(p[2], t[2]);
    assert Writes(p[3], t[3]);
    assert Writes(p[4], t[4]);
  }

  lemma DeviceDistinct(d: Device, g: Guest, l: Layout)
    ensures Distinct(DeviceTable(d, g, l))
  {}

  lemma DeviceWritten(d: Device, g: Guest, l: Layout)
    ensures AllProps(DeviceProps(d, g, l)) && WritesAll(DeviceProps(d, g, l), DeviceTable(d, g, l))
  {
    AsciiIs();
    var p, t := DeviceProps(d, g, l), DeviceTable(d, g, l);
    assert Writes(p[0], t[0]);
    assert Writes(p[1], t[1]);
    assert Writes(p[2], t[2]);
    assert Writes(p[3], t[3]);
    if d.coherent { assert Writes(p[4], t[4]); }
  }

  lemma ChosenDistinct(g: Guest, uart: seq<byte>)
    ensures Distinct(ChosenTable(g, uart))
  {}

  lemma ChosenWritten(g: Guest, l: Layout, uart: seq<byte>)
    requires g.vuart ==> uart == Addressed(Ascii("uart"), l.vuartBase)
    ensures AllProps(ChosenProps(g, l)) && WritesAll(ChosenProps(g, l), ChosenTable(g, uart))
  {
    AsciiIs();
    assert g.vuart ==> Ascii("/uart@") + Hex(l.vuartBase) == Letters("/") + uart;
  }

  lemma DistinctMore(table: seq<Entry>, entry: Entry)
    requires Distinct(table) && forall i :: 0 <= i < |table| ==> Apart(table[i].name, entry.name)
    ensures Distinct(table + [entry])
  {}

  lemma AlwaysDistinct(g: Guest)
    ensures Distinct(RootAlways(g)) && (forall i :: 0 <= i < 5 ==> Apart(RootAlways(g)[i].name, "nova,autostart"))
    ensures forall i :: 0 <= i < 5 ==> Apart(RootAlways(g)[i].name, "nova,affinity")
  {}

  lemma RootDistinct(g: Guest)
    ensures Distinct(RootTable(g))
  {
    AlwaysDistinct(g);
    var auto := RootAlways(g) + If(g.autostart, Entry("nova,autostart", Empty));
    if g.autostart { DistinctMore(RootAlways(g), Entry("nova,autostart", Empty)); }
    if g.cores.Some? {
      assert Apart("nova,autostart", "nova,affinity");
      DistinctMore(auto, Entry("nova,affinity", Cells(g.cores.value)));
    }
  }

  lemma RootWritten(g: Guest)
    ensures AllProps(RootProps(g)) && WritesAll(RootProps(g), RootTable(g))
  {
    AsciiIs();
    var p, t := RootProps(g), RootTable(g);
    assert Writes(p[0], t[0]);
    assert Writes(p[1], t[1]);
    assert Writes(p[2], t[2]);
    assert Writes(p[3], t[3]);
    assert Writes(p[4], t[4]);
  }

  // --- The whole tree -----------------------------------------------------------------------

  lemma LeafAdds(name: seq<byte>, props: seq<Call>)
    requires AllProps(props)
    ensures Adds(Leaf(name, props), [Bare(name, props)])
  {
    AddsNone();
    NodeAdds(name, props, [], []);
    assert [Begin(name)] + props + [] + [End] == Leaf(name, props);
  }

  lemma PlainNode(name: string, props: seq<Call>, table: seq<Entry>) returns (n: Node)
    requires AllProps(props) && Distinct(table) && WritesAll(props, table)
    ensures Adds(Leaf(Ascii(name), props), [n]) && Plainly(n, name, table)
  {
    n := Bare(Ascii(name), props);
    LeafAdds(Ascii(name), props);
    HoldsWritten(n, props, table);
  }

  lemma LocatedNode(stem: seq<byte>, address: nat, radix: nat, props: seq<Call>, table: seq<Entry>) returns (n: Node)
    requires AllProps(props) && Distinct(table) && WritesAll(props, table)
    requires FdtGuest.AT !in stem && (radix == 10 || radix == 16)
    ensures Adds(Leaf(stem + [FdtGuest.AT] + Number(address, radix), props), [n])
    ensures Located(n, stem, address, radix, table) && n.name == stem + [FdtGuest.AT] + Number(address, radix)
  {
    n := Bare(stem + [FdtGuest.AT] + Number(address, radix), props);
    LeafAdds(n.name, props);
    HoldsWritten(n, props, table);
    NamedBack(n, stem, address, radix);
  }

  /** The literal stems hold no `@`, and are spelt alike on both sides. */
  lemma Stems()
    ensures forall s: string :: Ascii(s) == Letters(s)
    ensures FdtGuest.AT !in Letters("memory") && FdtGuest.AT !in Letters("cpu")
    ensures FdtGuest.AT !in Letters("intc") && FdtGuest.AT !in Letters("uart")
  {
    AsciiIs();
  }

  lemma MemoryAdds(g: Guest, l: Layout) returns (n: Node)
    ensures Adds(Leaf(Addressed(Ascii("memory"), l.ipaBase), MemoryProps(g, l)), [n])
    ensures Located(n, Letters("memory"), l.ipaBase, 16, MemoryTable(g, l))
  {
    Stems();
    MemoryDistinct(g, l);
    MemoryWritten(g, l);
    n := LocatedNode(Letters("memory"), l.ipaBase, 16, MemoryProps(g, l), MemoryTable(g, l));
  }

  lemma CpuAdds(k: u32, cpuCompatible: seq<byte>, psci: bool) returns (n: Node)
    ensures Adds(CpuNode(k, cpuCompatible, psci), [n])
    ensures Located(n, Letters("cpu"), k, 10, CpuTable(k, cpuCompatible, psci))
  {
    Stems();
    CpuDistinct(k, cpuCompatible, psci);
    CpuWritten(k, cpuCompatible, psci);
    n := LocatedNode(Letters("cpu"), k, 10, CpuProps(k, cpuCompatible, psci), CpuTable(k, cpuCompatible, psci));
  }

  lemma {:induction false} EachCpuAdds(vcpus: u32, cpuCompatible: seq<byte>, psci: bool) returns (nodes: seq<Node>)
    ensures Adds(Flat(CpuNodes(vcpus, cpuCompatible, psci)), nodes) && |nodes| == vcpus
    ensures forall k :: 0 <= k < vcpus ==> Located(nodes[k], Letters("cpu"), k, 10, CpuTable(k, cpuCompatible, psci))
  {
    var all := CpuNodes(vcpus, cpuCompatible, psci);
    nodes := [];
    AddsNone();
    for k := 0 to vcpus
      invariant |nodes| == k && Adds(Flat(all[..k]), nodes)
      invariant forall i :: 0 <= i < k ==> Located(nodes[i], Letters("cpu"), i, 10, CpuTable(i, cpuCompatible, psci))
    {
      var n := CpuAdds(k, cpuCompatible, psci);
      assert all[..k + 1][..k] == all[..k];
      AddsJoin(Flat(all[..k]), nodes, all[k], [n]);
      nodes := nodes + [n];
    }
    assert all[..vcpus] == all;
  }

  lemma CpusAdds(g: Guest, cpuCompatible: seq<byte>, psci: bool) returns (n: Node)
    ensures Adds(GuestDtb.Cpus(g, cpuCompatible, psci), [n]) && IsCpus(n, g, cpuCompatible, psci)
  {
    var props := [PropU32("#address-cells", [1]), PropU32("#size-cells", [0])];
    var children := EachCpuAdds(g.vcpus, cpuCompatible, psci);
    n := Node(Ascii("cpus"), Pairs(props), children);
    AsciiIs();
    assert Writes(props[0], CpusTable()[0]) && Writes(props[1], CpusTable()[1]);
    HoldsWritten(n, props, CpusTable());
    NodeAdds(Ascii("cpus"), props, Flat(CpuNodes(g.vcpus, cpuCompatible, psci)), children);
    assert CpusHead() == [Begin(Ascii("cpus"))] + props;
  }

  lemma PlatformAdds(g: Guest, l: Layout, psci: bool) returns (nodes: seq<Node>)
    ensures Adds(Platform(g, l, psci), nodes)
    ensures |nodes| == DevicesAt(g, psci) - 2 && DescribesPlatform(nodes, g, l, psci)
    ensures g.vuart ==> nodes[|nodes| - 1].name == Addressed(Ascii("uart"), l.vuartBase)
  {
    var psciNode, intc, timer := PsciIntcTimer(g, l);
    var clock, uart := ClockUart(l);
    nodes := FiveAdd(psci, g.vuart, Leaf(Ascii("psci"), PsciProps()), psciNode,
                     Leaf(Addressed(Ascii("intc"), l.gicdBase), IntcProps(g, l)), intc,
                     Leaf(Ascii("timer"), TimerProps()), timer, Leaf(Ascii("apb-pclk"), ClockProps()), clock,
                     Leaf(Addressed(Ascii("uart"), l.vuartBase), UartProps(l)), uart);
    PlatformIs(nodes, g, l, psci, psciNode, intc, timer, clock, uart);
  }

  lemma PlatformIs(nodes: seq<Node>, g: Guest, l: Layout, psci: bool,
                   psciNode: Node, intc: Node, timer: Node, clock: Node, uart: Node)
    requires nodes == (if psci then [psciNode] else []) + [intc] + [timer] + (if g.vuart then [clock] + [uart] else [])
    requires Plainly(psciNode, "psci", PsciTable()) && Located(intc, Letters("intc"), l.gicdBase, 16, IntcTable(g, l))
    requires Plainly(timer, "timer", TimerTable()) && Plainly(clock, "apb-pclk", ClockTable())
    requires Located(uart, Letters("uart"), l.vuartBase, 16, UartTable(l))
    ensures |nodes| == DevicesAt(g, psci) - 2 && DescribesPlatform(nodes, g, l, psci)
    ensures g.vuart ==> nodes[|nodes| - 1] == uart
  {
    var at := IntcAt(psci) - 2;
    assert (psci ==> nodes[0] == psciNode) && nodes[at] == intc && nodes[at + 1] == timer;
    assert g.vuart ==> nodes[at + 2] == clock && nodes[at + 3] == uart;
  }

  lemma PsciIntcTimer(g: Guest, l: Layout) returns (psci: Node, intc: Node, timer: Node)
    ensures Adds(Leaf(Ascii("psci"), PsciProps()), [psci]) && Plainly(psci, "psci", PsciTable())
    ensures Adds(Leaf(Addressed(Ascii("intc"), l.gicdBase), IntcProps(g, l)), [intc])
    ensures Located(intc, Letters("intc"), l.gicdBase, 16, IntcTable(g, l))
    ensures Adds(Leaf(Ascii("timer"), TimerProps()), [timer]) && Plainly(timer, "timer", TimerTable())
  {
    Stems();
    PsciDistinct();
    PsciWritten();
    psci := PlainNode("psci", PsciProps(), PsciTable());
    IntcDistinct(g, l);
    IntcWritten(g, l);
    intc := LocatedNode(Letters("intc"), l.gicdBase, 16, IntcProps(g, l), IntcTable(g, l));
    TimerDistinct();
    TimerWritten();
    timer := PlainNode("timer", TimerProps(), TimerTable());
  }

  lemma ClockUart(l: Layout) returns (clock: Node, uart: Node)
    ensures Adds(Leaf(Ascii("apb-pclk"), ClockProps()), [clock]) && Plainly(clock, "apb-pclk", ClockTable())
    ensures Adds(Leaf(Addressed(Ascii("uart"), l.vuartBase), UartProps(l)), [uart])
    ensures Located(uart, Letters("uart"), l.vuartBase, 16, UartTable(l)) && uart.name == Addressed(Ascii("uart"), l.vuartBase)
  {
    Stems();
    ClockDistinct();
    ClockWritten();
    clock := PlainNode("apb-pclk", ClockProps(), ClockTable());
    UartDistinct(l);
    UartWritten(l);
    uart := LocatedNode(Letters("uart"), l.vuartBase, 16, UartProps(l), UartTable(l));
  }

  lemma FiveAdd(p: bool, v: bool, a: seq<Call>, x: Node, b: seq<Call>, y: Node, c: seq<Call>, z: Node,
                d: seq<Call>, u: Node, e: seq<Call>, w: Node) returns (nodes: seq<Node>)
    requires Adds(a, [x]) && Adds(b, [y]) && Adds(c, [z]) && Adds(d, [u]) && Adds(e, [w])
    ensures Adds((if p then a else []) + b + c + (if v then d + e else []), nodes)
    ensures nodes == (if p then [x] else []) + [y] + [z] + (if v then [u] + [w] else [])
  {
    AddsNone();
    var first, last := if p then a else [], if v then d + e else [];
    var xs, ws := if p then [x] else [], if v then [u] + [w] else [];
    AddsJoin(d, [u], e, [w]);
    AddsJoin(first, xs, b, [y]);
    AddsJoin(first + b, xs + [y], c, [z]);
    AddsJoin(first + b + c, xs + [y] + [z], last, ws);
    nodes := xs + [y] + [z] + ws;
  }

  lemma DeviceAdds(d: Device, g: Guest, l: Layout) returns (n: Node)
    requires GuestRecovery.LogicalId(d.id)
    ensures Adds(DeviceNode(d, g, l), [n]) && Located(n, d.id, d.guestIpa, 16, DeviceTable(d, g, l))
  {
    DeviceDistinct(d, g, l);
    DeviceWritten(d, g, l);
    n := LocatedNode(d.id, d.guestIpa, 16, DeviceProps(d, g, l), DeviceTable(d, g, l));
  }

  lemma EachDeviceAdds(g: Guest, l: Layout) returns (nodes: seq<Node>)
    requires GuestRecovery.Named(g)
    ensures Adds(Flat(DeviceNodes(g, l)), nodes) && |nodes| == |g.devices|
    ensures forall i :: 0 <= i < |g.devices| ==>
              Located(nodes[i], g.devices[i].id, g.devices[i].guestIpa, 16, DeviceTable(g.devices[i], g, l))
  {
    var all := DeviceNodes(g, l);
    nodes := [];
    AddsNone();
    for k := 0 to |all|
      invariant |nodes| == k && Adds(Flat(all[..k]), nodes)
      invariant forall i :: 0 <= i < k ==>
                  Located(nodes[i], g.devices[i].id, g.devices[i].guestIpa, 16, DeviceTable(g.devices[i], g, l))
    {
      var n := DeviceAdds(g.devices[k], g, l);
      assert all[..k + 1][..k] == all[..k];
      AddsJoin(Flat(all[..k]), nodes, all[k], [n]);
      nodes := nodes + [n];
    }
    assert all[..|all|] == all;
  }

  lemma ChosenAdds(g: Guest, l: Layout, uart: seq<byte>) returns (n: Node)
    requires g.vuart ==> uart == Addressed(Ascii("uart"), l.vuartBase)
    ensures Adds(Leaf(Ascii("chosen"), ChosenProps(g, l)), [n]) && Plainly(n, "chosen", ChosenTable(g, uart))
  {
    AsciiIs();
    ChosenDistinct(g, uart);
    ChosenWritten(g, l, uart);
    n := PlainNode("chosen", ChosenProps(g, l), ChosenTable(g, uart));
  }

  lemma RootAdds(props: seq<Call>, a: seq<Call>, x: Node, b: seq<Call>, y: Node, c: seq<Call>, zs: seq<Node>,
                 d: seq<Call>, us: seq<Node>, e: seq<Call>, w: Node)
    requires AllProps(props) && Adds(a, [x]) && Adds(b, [y]) && Adds(c, zs) && Adds(d, us) && Adds(e, [w])
    ensures Adds(([Begin([])] + props) + (a + b) + (c + d + e) + [End], [Node([], Pairs(props), [x, y] + zs + us + [w])])
  {
    AddsJoin(a, [x], b, [y]);
    AddsJoin(c, zs, d, us);
    AddsJoin(c + d, zs + us, e, [w]);
    AddsJoin(a + b, [x] + [y], c + d + e, zs + us + [w]);
    assert [x] + [y] + (zs + us + [w]) == [x, y] + zs + us + [w];
    NodeAdds([], props, a + b + (c + d + e), [x, y] + zs + us + [w]);
    assert [Begin([])] + props + (a + b + (c + d + e)) + [End] == ([Begin([])] + props) + (a + b) + (c + d + e) + [End];
  }

  lemma GuestTreeIs(g: Guest, l: Layout, cpuCompatible: seq<byte>, psci: bool) returns (root: Node)
    requires GuestRecovery.Named(g)
    ensures TreeOf(GuestCalls(g, l, cpuCompatible, psci)) == Some(root) && Describes(root, g, l, cpuCompatible, psci)
  {
    var memory := MemoryAdds(g, l);
    var cpus := CpusAdds(g, cpuCompatible, psci);
    var platform := PlatformAdds(g, l, psci);
    var devices := EachDeviceAdds(g, l);
    var chosen := ChosenAdds(g, l, if g.vuart then platform[|platform| - 1].name else []);
    RootDistinct(g);
    RootWritten(g);
    root := Node([], Pairs(RootProps(g)), [memory, cpus] + platform + devices + [chosen]);
    HoldsWritten(root, RootProps(g), RootTable(g));
    RootAdds(RootProps(g), Leaf(Addressed(Ascii("memory"), l.ipaBase), MemoryProps(g, l)), memory,
             GuestDtb.Cpus(g, cpuCompatible, psci), cpus, Platform(g, l, psci), platform,
             Flat(DeviceNodes(g, l)), devices, Leaf(Ascii("chosen"), ChosenProps(g, l)), chosen);
    TreeIs(GuestCalls(g, l, cpuCompatible, psci), root);
    Assembled(root, g, l, cpuCompatible, psci, memory, cpus, platform, devices, chosen);
  }

  /** `== true` keeps the description one fact, not each of its parts. */
  lemma Assembled(root: Node, g: Guest, l: Layout, cpuCompatible: seq<byte>, psci: bool,
                  memory: Node, cpus: Node, platform: seq<Node>, devices: seq<Node>, chosen: Node)
    requires root.name == [] && Holds(root, RootTable(g)) && root.children == [memory, cpus] + platform + devices + [chosen]
    requires Located(memory, Letters("memory"), l.ipaBase, 16, MemoryTable(g, l)) && IsCpus(cpus, g, cpuCompatible, psci)
    requires |platform| == DevicesAt(g, psci) - 2 && DescribesPlatform(platform, g, l, psci) && |devices| == |g.devices|
    requires forall i :: 0 <= i < |g.devices| ==>
               Located(devices[i], g.devices[i].id, g.devices[i].guestIpa, 16, DeviceTable(g.devices[i], g, l))
    requires Plainly(chosen, "chosen", ChosenTable(g, if g.vuart then platform[|platform| - 1].name else []))
    ensures Describes(root, g, l, cpuCompatible, psci) == true
  {
    PartsOf(memory, cpus, platform, devices, chosen);
  }

  lemma PartsOf(x: Node, y: Node, zs: seq<Node>, us: seq<Node>, w: Node)
    ensures var all, first := [x, y] + zs + us + [w], 2 + |zs|;
            && |all| == first + |us| + 1 && all[0] == x && all[1] == y && all[2..first] == zs && all[first + |us|] == w
            && (forall i :: 0 <= i < |us| ==> all[first + i] == us[i])
            && (zs != [] ==> all[first - 1] == zs[|zs| - 1])
  {}

  /** What a guest finds in the blob it is given, node by node. */
  lemma BlobDescribesGuest(g: Guest, l: Layout, cpuCompatible: seq<byte>, psci: bool, blob: seq<byte>) returns (root: Node)
    requires GuestRecovery.Named(g) && Finished(AllWritten(GuestCalls(g, l, cpuCompatible, psci))) == Some(blob)
    ensures ReadBlob(blob).Some? && TreeOf(ReadBlob(blob).value) == Some(root) && Describes(root, g, l, cpuCompatible, psci)
  {
    GuestRecovery.GuestReadsItself(g, l, cpuCompatible, psci, blob);
    root := GuestTreeIs(g, l, cpuCompatible, psci);
  }
}
