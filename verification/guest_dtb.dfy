/** The tree one guest is given, and what the guest reads back out of it. */
module GuestDtb {
  import opened Words
  import opened Fdt
  import opened FdtRoundTrip
  import opened FdtGuest

  type Spi = x: nat | 32 <= x < 1020 witness 32

  datatype Device = Device(
    id: seq<byte>, compatible: seq<byte>, guestIpa: u64, mmioSize: u64, level: bool, virtualIntid: Spi, coherent: bool)

  datatype Guest = Guest(
    name: seq<byte>, memorySize: u64, vcpus: u32, vuart: bool, bootargs: seq<byte>, cores: Option<seq<u32>>,
    autostart: bool, devices: seq<Device>)

  datatype Layout = Layout(
    ipaBase: u64, gicdBase: u64, gicdFrame: u32, gicrBase: u64, gicrFrame: u32, vuartBase: u64, vuartSpi: Spi)

  const PHANDLE_GIC: u32 := 1
  const PHANDLE_CLK: u32 := 2
  const GIC_SPI: u32 := 0
  const GIC_PPI: u32 := 1
  const EDGE_RISING: u32 := 1
  const LEVEL_HIGH: u32 := 4

  // --- Text ---------------------------------------------------------------------------

  /** A literal's bytes: every one of them is printable. */
  function Ascii(s: string): (b: seq<byte>)
    ensures |b| == |s| && NoNul(b)
  {
    seq(|s|, i requires 0 <= i < |s| => if ' ' <= s[i] <= '~' then s[i] as int else 63)
  }

  function Digit(d: nat): byte
    requires d < 16
  {
    if d < 10 then 48 + d else 87 + d
  }

  function Number(n: nat, radix: nat): (b: seq<byte>)
    requires 2 <= radix <= 16
    ensures |b| > 0 && NoNul(b)
  {
    (if n < radix then [] else Number(n / radix, radix)) + [Digit(n % radix)]
  }

  function Hex(n: nat): (b: seq<byte>)
    ensures |b| > 0 && NoNul(b)
  {
    Number(n, 16)
  }

  /** f"{stem}@{address:x}" */
  function Addressed(stem: seq<byte>, address: nat): seq<byte> { stem + [AT] + Hex(address) }

  // --- Properties ------------------------------------------------------------------------

  function U32s(values: seq<u32>): (b: seq<byte>)
    ensures |b| == 4 * |values|
  {
    if values == [] then [] else U32s(values[..|values| - 1]) + BE32(values[|values| - 1])
  }

  function U64s(values: seq<u64>): (b: seq<byte>)
    ensures |b| == 8 * |values|
  {
    if values == [] then [] else U64s(values[..|values| - 1]) + BE64(values[|values| - 1])
  }

  function Strings(values: seq<seq<byte>>): seq<byte> {
    if values == [] then [] else Strings(values[..|values| - 1]) + values[|values| - 1] + [0]
  }

  function PropU32(name: string, values: seq<u32>): Call { Prop(Ascii(name), U32s(values)) }

  function PropU64(name: string, values: seq<u64>): Call { Prop(Ascii(name), U64s(values)) }

  function PropStr(name: string, values: seq<seq<byte>>): Call { Prop(Ascii(name), Strings(values)) }

  function Flag(name: string): Call { Prop(Ascii(name), []) }

  function When(c: bool, call: Call): seq<Call> { if c then [call] else [] }

  // --- The tree ------------------------------------------------------------------------------

  /** A node with properties and no children. */
  function Leaf(name: seq<byte>, props: seq<Call>): seq<Call> { [Begin(name)] + props + [End] }

  function RootProps(g: Guest): seq<Call> {
    [PropStr("compatible", [Ascii("novavisor,guest")]), PropStr("model", [g.name]),
     PropU32("#address-cells", [2]), PropU32("#size-cells", [2]), PropU32("interrupt-parent", [PHANDLE_GIC])]
    + When(g.autostart, Flag("nova,autostart"))
    + (if g.cores.Some? then [PropU32("nova,affinity", g.cores.value)] else [])
  }

  function MemoryProps(g: Guest, l: Layout): seq<Call> {
    [PropStr("device_type", [Ascii("memory")]), PropU64("reg", [l.ipaBase, g.memorySize])]
  }

  function CpuProps(n: u32, cpuCompatible: seq<byte>, psci: bool): seq<Call> {
    [PropStr("device_type", [Ascii("cpu")]), PropStr("compatible", [cpuCompatible]), PropU32("reg", [n])]
    + When(psci, PropStr("enable-method", [Ascii("psci")]))
  }

  function CpuNode(n: u32, cpuCompatible: seq<byte>, psci: bool): seq<Call> {
    Leaf(Ascii("cpu") + [AT] + Number(n, 10), CpuProps(n, cpuCompatible, psci))
  }

  function CpuNodes(n: u32, cpuCompatible: seq<byte>, psci: bool): (r: seq<seq<Call>>)
    ensures |r| == n
  {
    seq(n, k requires 0 <= k < n => CpuNode(k, cpuCompatible, psci))
  }

  function Flat(nodes: seq<seq<Call>>): seq<Call> {
    if nodes == [] then [] else Flat(nodes[..|nodes| - 1]) + nodes[|nodes| - 1]
  }

  function CpusHead(): seq<Call> {
    [Begin(Ascii("cpus")), PropU32("#address-cells", [1]), PropU32("#size-cells", [0])]
  }

  function PsciProps(): seq<Call> {
    [PropStr("compatible", [Ascii("arm,psci-1.0"), Ascii("arm,psci-0.2")]), PropStr("method", [Ascii("hvc")])]
  }

  function IntcProps(g: Guest, l: Layout): seq<Call> {
    [PropStr("compatible", [Ascii("arm,gic-v3")]), Flag("interrupt-controller"), PropU32("#interrupt-cells", [3]),
     PropU64("reg", [l.gicdBase, l.gicdFrame, l.gicrBase, FrameBytes(l.gicrFrame, g.vcpus)]), PropU32("phandle", [PHANDLE_GIC])]
  }

  function FrameBytes(frame: u32, vcpus: u32): u64 {
    Product(frame, vcpus);
    frame * vcpus
  }

  lemma Product(a: u32, b: u32)
    ensures 0 <= a * b < TWO_64
  {
    Scaled(a, TWO_32 - 1, b);
  }

  lemma Scaled(i: nat, j: nat, k: nat)
    requires i <= j
    ensures 0 <= i * k <= j * k
  {}

  function TimerProps(): seq<Call> {
    [PropStr("compatible", [Ascii("arm,armv8-timer")]),
     PropU32("interrupts", [GIC_PPI, 13, LEVEL_HIGH, GIC_PPI, 14, LEVEL_HIGH, GIC_PPI, 11, LEVEL_HIGH, GIC_PPI, 10, LEVEL_HIGH])]
  }

  function ClockProps(): seq<Call> {
    [PropStr("compatible", [Ascii("fixed-clock")]), PropU32("#clock-cells", [0]), PropU32("clock-frequency", [24_000_000]),
     PropStr("clock-output-names", [Ascii("clk24mhz")]), PropU32("phandle", [PHANDLE_CLK])]
  }

  function UartProps(l: Layout): seq<Call> {
    [PropStr("compatible", [Ascii("arm,pl011"), Ascii("arm,primecell")]), PropU64("reg", [l.vuartBase, 0x1000]),
     PropU32("interrupts", [GIC_SPI, l.vuartSpi - 32, LEVEL_HIGH]), PropU32("clocks", [PHANDLE_CLK, PHANDLE_CLK]),
     PropStr("clock-names", [Ascii("uartclk"), Ascii("apb_pclk")])]
  }

  function DeviceProps(d: Device, g: Guest, l: Layout): seq<Call> {
    [PropStr("compatible", [d.compatible]), PropU64("reg", [d.guestIpa, d.mmioSize]),
     PropU32("interrupts", [GIC_SPI, d.virtualIntid - 32, if d.level then LEVEL_HIGH else EDGE_RISING]),
     PropU64("nova,dma-window", [l.ipaBase, g.memorySize])]
    + When(d.coherent, Flag("dma-coherent"))
  }

  function DeviceNode(d: Device, g: Guest, l: Layout): seq<Call> {
    Leaf(Addressed(d.id, d.guestIpa), DeviceProps(d, g, l))
  }

  function DeviceNodes(g: Guest, l: Layout): (r: seq<seq<Call>>)
    ensures |r| == |g.devices|
  {
    seq(|g.devices|, i requires 0 <= i < |g.devices| => DeviceNode(g.devices[i], g, l))
  }

  function ChosenProps(g: Guest, l: Layout): seq<Call> {
    When(g.vuart, PropStr("stdout-path", [Ascii("/uart@") + Hex(l.vuartBase)]))
    + When(g.bootargs != [], PropStr("bootargs", [g.bootargs]))
  }

  /** What stands between the cpus and the devices. */
  function Platform(g: Guest, l: Layout, psci: bool): seq<Call> {
    (if psci then Leaf(Ascii("psci"), PsciProps()) else [])
    + Leaf(Addressed(Ascii("intc"), l.gicdBase), IntcProps(g, l))
    + Leaf(Ascii("timer"), TimerProps())
    + (if g.vuart then Leaf(Ascii("apb-pclk"), ClockProps()) + Leaf(Addressed(Ascii("uart"), l.vuartBase), UartProps(l)) else [])
  }

  function Cpus(g: Guest, cpuCompatible: seq<byte>, psci: bool): seq<Call> {
    CpusHead() + Flat(CpuNodes(g.vcpus, cpuCompatible, psci)) + [End]
  }

  function GuestCalls(g: Guest, l: Layout, cpuCompatible: seq<byte>, psci: bool): seq<Call> {
    ([Begin([])] + RootProps(g))
    + (Leaf(Addressed(Ascii("memory"), l.ipaBase), MemoryProps(g, l)) + Cpus(g, cpuCompatible, psci))
    + (Platform(g, l, psci) + Flat(DeviceNodes(g, l)) + Leaf(Ascii("chosen"), ChosenProps(g, l)))
    + [End]
  }

  // --- Writing it ------------------------------------------------------------------------------

  function Emitted(w: Image, calls: seq<Call>): Image {
    if calls == [] then w else Written(Emitted(w, calls[..|calls| - 1]), calls[|calls| - 1])
  }

  lemma {:induction false} EmittedIsWritten(calls: seq<Call>)
    ensures Emitted(BLANK, calls) == AllWritten(calls)
    decreases |calls|
  {
    if calls != [] { EmittedIsWritten(calls[..|calls| - 1]); }
  }

  method Emit(w: FdtWriter, calls: seq<Call>, ghost done: seq<Call>) returns (ghost all: seq<Call>)
    requires w.View() == Emitted(BLANK, done)
    modifies w
    ensures all == done + calls && w.View() == Emitted(BLANK, all)
  {
    assert done + calls[..0] == done;
    for i := 0 to |calls|
      invariant w.View() == Emitted(BLANK, done + calls[..i])
    {
      OneMoreCall(BLANK, done, calls, i);
      match calls[i]
      case Begin(name) => w.BeginNode(name);
      case End => w.EndNode();
      case Prop(name, data) => w.Property(name, data);
    }
    assert calls[..|calls|] == calls;
    all := done + calls;
  }

  lemma OneMoreCall(w: Image, done: seq<Call>, calls: seq<Call>, i: nat)
    requires i < |calls|
    ensures Emitted(w, done + calls[..i + 1]) == Written(Emitted(w, done + calls[..i]), calls[i])
  {
    var more := done + calls[..i + 1];
    assert more[|more| - 1] == calls[i] && more[..|more| - 1] == done + calls[..i];
  }

  /** Node after node: the loops over the cpus and over the devices. */
  method EmitEach(w: FdtWriter, nodes: seq<seq<Call>>, ghost done: seq<Call>) returns (ghost all: seq<Call>)
    requires w.View() == Emitted(BLANK, done)
    modifies w
    ensures all == done + Flat(nodes) && w.View() == Emitted(BLANK, all)
  {
    all := done;
    for n := 0 to |nodes|
      invariant all == done + Flat(nodes[..n]) && w.View() == Emitted(BLANK, all)
    {
      assert nodes[..n + 1][..n] == nodes[..n];
      all := Emit(w, nodes[n], all);
    }
    assert nodes[..|nodes|] == nodes;
  }

  method BuildGuestDtb(g: Guest, l: Layout, cpuCompatible: seq<byte>, psci: bool) returns (blob: Option<seq<byte>>)
    ensures blob == Finished(AllWritten(GuestCalls(g, l, cpuCompatible, psci)))
  {
    var w := new FdtWriter();
    var root, memory := [Begin([])] + RootProps(g), Leaf(Addressed(Ascii("memory"), l.ipaBase), MemoryProps(g, l));
    var platform, chosen := Platform(g, l, psci), Leaf(Ascii("chosen"), ChosenProps(g, l));
    var cpuHead, cpuNodes, devices := CpusHead(), CpuNodes(g.vcpus, cpuCompatible, psci), DeviceNodes(g, l);
    ghost var done := Emit(w, root, []);
    done := Emit(w, memory, done);
    done := Emit(w, cpuHead, done);
    done := EmitEach(w, cpuNodes, done);
    done := Emit(w, [End], done);
    done := Emit(w, platform, done);
    done := EmitEach(w, devices, done);
    done := Emit(w, chosen, done);
    done := Emit(w, [End], done);
    Grouped(root, memory, cpuHead, Flat(cpuNodes), platform, Flat(devices), chosen, [End]);
    EmittedIsWritten(done);
    blob := w.Finish();
  }

  lemma Grouped(a: seq<Call>, b: seq<Call>, c: seq<Call>, cs: seq<Call>, d: seq<Call>, e: seq<Call>, f: seq<Call>, z: seq<Call>)
    ensures [] + a + b + c + cs + z + d + e + f + z == a + (b + (c + cs + z)) + (d + e + f) + z
  {}
}
