/** What a guest reads out of the tree it was given is what it was given. */
module GuestRecovery {
  import opened Words
  import opened Fdt
  import opened FdtRoundTrip
  import opened FdtGuest
  import opened GuestDtb

  // --- What a node does to the walk --------------------------------------------------

  lemma {:induction false} MetJoin(w: Walk, a: seq<Call>, b: seq<Call>)
    ensures MetAll(w, a + b) == MetAll(MetAll(w, a), b)
    decreases |a|
  {
    if a == [] {
      assert a + b == b;
    } else {
      assert (a + b)[1..] == a[1..] + b;
      MetJoin(Met(w, a[0]), a[1..], b);
    }
  }

  ghost predicate AllProps(calls: seq<Call>) { forall i :: 0 <= i < |calls| ==> calls[i].Prop? }

  /** The size the last usable `reg` gives. */
  function LastReg(props: seq<Call>, otherwise: nat): nat
    requires AllProps(props)
  {
    if props == [] then otherwise
    else
      var p := props[0];
      LastReg(props[1..], if p.name == REG && |p.data| >= 16 then FromBE64(p.data[8..16]) else otherwise)
  }

  lemma {:induction false} PropsMet(w: Walk, props: seq<Call>)
    requires AllProps(props)
    ensures MetAll(w, props) ==
            if w.depth == 2 && w.node.Memory? then w.(memSize := LastReg(props, w.memSize)) else w
    decreases |props|
  {
    if props != [] {
      assert AllProps(props[1..]);
      PropsMet(Met(w, props[0]), props[1..]);
    }
  }

  /** A child of the root with only properties: read if it is a memory node, passed
      over if it is anything else. */
  lemma LeafMet(w: Walk, name: seq<byte>, props: seq<Call>)
    requires w.depth == 1 && w.node.Other? && AllProps(props)
    ensures MetAll(w, Leaf(name, props)) ==
            w.(memSize := if NameIs(name, MEMORY) then LastReg(props, w.memSize) else w.memSize)
  {
    var inside := Met(w, Begin(name));
    MetJoin(w, [Begin(name)] + props, [End]);
    MetJoin(w, [Begin(name)], props);
    OneMet(w, Begin(name));
    PropsMet(inside, props);
    OneMet(MetAll(inside, props), End);
  }

  lemma OneMet(w: Walk, call: Call)
    ensures MetAll(w, [call]) == Met(w, call)
  {
    assert [call][1..] == [];
  }

  /** A child of the cpus node named as one is counted. */
  lemma CpuMet(w: Walk, name: seq<byte>, props: seq<Call>)
    requires w.depth == 2 && w.node.Cpus? && AllProps(props) && NameIs(name, CPU)
    ensures MetAll(w, Leaf(name, props)) == w.(cpus := w.cpus + 1)
  {
    var inside := Met(w, Begin(name));
    MetJoin(w, [Begin(name)] + props, [End]);
    MetJoin(w, [Begin(name)], props);
    OneMet(w, Begin(name));
    PropsMet(inside, props);
    OneMet(MetAll(inside, props), End);
  }

  lemma {:induction false} CpusMet(w: Walk, nodes: seq<seq<Call>>)
    requires w.depth == 2 && w.node.Cpus? && forall k :: 0 <= k < |nodes| ==> CountsOne(nodes[k])
    ensures MetAll(w, Flat(nodes)) == w.(cpus := w.cpus + |nodes|)
    decreases |nodes|
  {
    if nodes != [] {
      var rest, last := nodes[..|nodes| - 1], nodes[|nodes| - 1];
      CpusMet(w, rest);
      MetJoin(w, Flat(rest), last);
      assert CountsOne(last);
    }
  }

  ghost predicate CountsOne(node: seq<Call>) {
    forall w: Walk :: w.depth == 2 && w.node.Cpus? ==> MetAll(w, node) == w.(cpus := w.cpus + 1)
  }

  lemma CpuNodeCounts(n: u32, cpuCompatible: seq<byte>, psci: bool)
    ensures CountsOne(CpuNode(n, cpuCompatible, psci))
  {
    var name, props := Ascii("cpu") + [AT] + Number(n, 10), CpuProps(n, cpuCompatible, psci);
    assert Ascii("cpu") == CPU;
    assert NameIs(name, CPU) by { assert name[..3] == CPU && name[3] == AT; }
    forall w: Walk | w.depth == 2 && w.node.Cpus? ensures MetAll(w, CpuNode(n, cpuCompatible, psci)) == w.(cpus := w.cpus + 1) {
      CpuMet(w, name, props);
    }
  }

  // --- What each part of a guest's tree does -------------------------------------------

  /** A node that passes a guest by. */
  ghost predicate Silent(node: seq<Call>) {
    forall w: Walk :: w.depth == 1 && w.node.Other? ==> MetAll(w, node) == w
  }

  lemma OtherNode(name: seq<byte>, props: seq<Call>)
    requires AllProps(props) && !NameIs(name, MEMORY)
    ensures Silent(Leaf(name, props))
  {
    forall w: Walk | w.depth == 1 && w.node.Other? ensures MetAll(w, Leaf(name, props)) == w {
      LeafMet(w, name, props);
    }
  }

  lemma PrefixAt(p: seq<byte>, s: seq<byte>, i: nat)
    ensures p <= s && i < |p| ==> p[i] == s[i]
  {}

  lemma NotMemory(name: seq<byte>)
    requires name != [] && name[0] != MEMORY[0]
    ensures !NameIs(name, MEMORY)
  {
    PrefixAt(MEMORY, name, 0);
  }

  lemma SilentJoin(a: seq<Call>, b: seq<Call>)
    requires Silent(a) && Silent(b)
    ensures Silent(a + b)
  {
    forall w: Walk | w.depth == 1 && w.node.Other? ensures MetAll(w, a + b) == w {
      MetJoin(w, a, b);
    }
  }

  lemma SilentNone()
    ensures Silent([])
  {}

  lemma PsciSilent()
    ensures Silent(Leaf(Ascii("psci"), PsciProps()))
  {
    NotMemory(Ascii("psci"));
    OtherNode(Ascii("psci"), PsciProps());
  }

  lemma IntcSilent(g: Guest, l: Layout)
    ensures Silent(Leaf(Addressed(Ascii("intc"), l.gicdBase), IntcProps(g, l)))
  {
    NotMemory(Addressed(Ascii("intc"), l.gicdBase));
    OtherNode(Addressed(Ascii("intc"), l.gicdBase), IntcProps(g, l));
  }

  lemma TimerSilent()
    ensures Silent(Leaf(Ascii("timer"), TimerProps()))
  {
    NotMemory(Ascii("timer"));
    OtherNode(Ascii("timer"), TimerProps());
  }

  lemma ClockSilent()
    ensures Silent(Leaf(Ascii("apb-pclk"), ClockProps()))
  {
    NotMemory(Ascii("apb-pclk"));
    OtherNode(Ascii("apb-pclk"), ClockProps());
  }

  lemma UartSilent(l: Layout)
    ensures Silent(Leaf(Addressed(Ascii("uart"), l.vuartBase), UartProps(l)))
  {
    NotMemory(Addressed(Ascii("uart"), l.vuartBase));
    OtherNode(Addressed(Ascii("uart"), l.vuartBase), UartProps(l));
  }

  lemma ChosenSilent(g: Guest, l: Layout)
    ensures Silent(Leaf(Ascii("chosen"), ChosenProps(g, l)))
  {
    NotMemory(Ascii("chosen"));
    OtherNode(Ascii("chosen"), ChosenProps(g, l));
  }

  lemma PlatformSilent(g: Guest, l: Layout, psci: bool)
    ensures Silent(Platform(g, l, psci))
  {
    var a := if psci then Leaf(Ascii("psci"), PsciProps()) else [];
    var b, c := Leaf(Addressed(Ascii("intc"), l.gicdBase), IntcProps(g, l)), Leaf(Ascii("timer"), TimerProps());
    var d1, d2 := Leaf(Ascii("apb-pclk"), ClockProps()), Leaf(Addressed(Ascii("uart"), l.vuartBase), UartProps(l));
    var d := if g.vuart then d1 + d2 else [];
    PsciSilent();
    SilentNone();
    IntcSilent(g, l);
    TimerSilent();
    ClockSilent();
    UartSilent(l);
    SilentJoin(d1, d2);
    SilentJoin(a, b);
    SilentJoin(a + b, c);
    SilentJoin(a + b + c, d);
  }

  // --- Devices ---------------------------------------------------------------------------

  /** A logical identifier holds letters, digits, `_` and `-`. */
  predicate LogicalId(id: seq<byte>) {
    id != [] && NoNul(id) && AT !in id
  }

  /** Only a device called just that is taken for the memory node. */
  lemma DeviceName(id: seq<byte>, address: nat)
    requires LogicalId(id)
    ensures NameIs(Addressed(id, address), MEMORY) <==> id == MEMORY
  {
    var name := Addressed(id, address);
    assert name[|id|] == AT && AT !in MEMORY;
    assert name[..|id|] == id;
    PrefixAt(MEMORY, name, |id|);
    assert |id| > |MEMORY| ==> name[|MEMORY|] == id[|MEMORY|];
    assert MEMORY <= name ==> name[..|MEMORY|] == MEMORY;
    assert id == MEMORY ==> name[..|MEMORY|] == MEMORY;
  }

  /** The size a tree's devices leave a guest reading as its memory. */
  function MemoryAfter(devices: seq<Device>, otherwise: nat): nat {
    if devices == [] then otherwise
    else if devices[|devices| - 1].id == MEMORY then devices[|devices| - 1].mmioSize
    else MemoryAfter(devices[..|devices| - 1], otherwise)
  }

  lemma PairData(a: u64, b: u64)
    ensures |U64s([a, b])| == 16 && FromBE64(U64s([a, b])[8..16]) == b
  {
    assert [a, b][..1] == [a] && [a][..0] == [];
    assert U64s([a]) == U64s([]) + BE64(a);
    assert U64s([a, b]) == BE64(a) + BE64(b);
    assert U64s([a, b])[8..16] == BE64(b);
    BE64Back(b);
  }

  lemma RegName()
    ensures Ascii("reg") == REG
  {}

  lemma LastRegOf(before: seq<Call>, a: u64, b: u64, after: seq<Call>, otherwise: nat)
    requires AllProps(before) && AllProps(after)
    requires forall i :: 0 <= i < |after| ==> after[i].name != REG
    ensures AllProps(before + [PropU64("reg", [a, b])] + after)
    ensures LastReg(before + [PropU64("reg", [a, b])] + after, otherwise) == b
    decreases |before|
  {
    var props := before + [PropU64("reg", [a, b])] + after;
    RegName();
    if before == [] {
      PairData(a, b);
      assert props[1..] == after;
      NoReg(after, b);
    } else {
      assert AllProps(before[1..]);
      assert props[1..] == before[1..] + [PropU64("reg", [a, b])] + after;
      var p := props[0];
      LastRegOf(before[1..], a, b, after, if p.name == REG && |p.data| >= 16 then FromBE64(p.data[8..16]) else otherwise);
    }
  }

  lemma {:induction false} NoReg(props: seq<Call>, otherwise: nat)
    requires AllProps(props) && forall i :: 0 <= i < |props| ==> props[i].name != REG
    ensures LastReg(props, otherwise) == otherwise
    decreases |props|
  {
    if props != [] {
      assert AllProps(props[1..]);
      NoReg(props[1..], otherwise);
    }
  }

  lemma DeviceReg(d: Device, g: Guest, l: Layout, otherwise: nat)
    ensures AllProps(DeviceProps(d, g, l)) && LastReg(DeviceProps(d, g, l), otherwise) == d.mmioSize
  {
    var after :=
      [PropU32("interrupts", [GIC_SPI, d.virtualIntid - 32, if d.level then LEVEL_HIGH else EDGE_RISING]),
       PropU64("nova,dma-window", [l.ipaBase, g.memorySize])] + When(d.coherent, Flag("dma-coherent"));
    LastRegOf([PropStr("compatible", [d.compatible])], d.guestIpa, d.mmioSize, after, otherwise);
    assert DeviceProps(d, g, l) ==
           [PropStr("compatible", [d.compatible])] + [PropU64("reg", [d.guestIpa, d.mmioSize])] + after;
  }

  lemma DeviceMet(w: Walk, d: Device, g: Guest, l: Layout)
    requires w.depth == 1 && w.node.Other? && LogicalId(d.id)
    ensures MetAll(w, DeviceNode(d, g, l)) == w.(memSize := if d.id == MEMORY then d.mmioSize else w.memSize)
  {
    DeviceName(d.id, d.guestIpa);
    DeviceReg(d, g, l, w.memSize);
    LeafMet(w, Addressed(d.id, d.guestIpa), DeviceProps(d, g, l));
  }

  lemma {:induction false} DevicesMet(w: Walk, g: Guest, l: Layout, n: nat)
    requires w.depth == 1 && w.node.Other? && n <= |g.devices|
    requires forall d :: d in g.devices ==> LogicalId(d.id)
    ensures MetAll(w, Flat(DeviceNodes(g, l)[..n])) == w.(memSize := MemoryAfter(g.devices[..n], w.memSize))
    decreases n
  {
    if n > 0 {
      DevicesMet(w, g, l, n - 1);
      var nodes, last := DeviceNodes(g, l)[..n], g.devices[n - 1];
      assert nodes[..n - 1] == DeviceNodes(g, l)[..n - 1] && nodes[n - 1] == DeviceNode(last, g, l);
      assert g.devices[..n][..n - 1] == g.devices[..n - 1];
      MetJoin(w, Flat(nodes[..n - 1]), nodes[n - 1]);
      DeviceMet(MetAll(w, Flat(nodes[..n - 1])), last, g, l);
    }
  }

  // --- The whole tree -----------------------------------------------------------------------

  lemma RootMet(g: Guest)
    ensures MetAll(START, [Begin([])] + RootProps(g)) == Walk(1, Other, 0, 0)
  {
    MetJoin(START, [Begin([])], RootProps(g));
    OneMet(START, Begin([]));
    PropsMet(Met(START, Begin([])), RootProps(g));
  }

  lemma MemoryMet(w: Walk, g: Guest, l: Layout)
    requires w.depth == 1 && w.node.Other?
    ensures MetAll(w, Leaf(Addressed(Ascii("memory"), l.ipaBase), MemoryProps(g, l))) == w.(memSize := g.memorySize)
  {
    var name, props := Addressed(Ascii("memory"), l.ipaBase), MemoryProps(g, l);
    assert Ascii("memory") == MEMORY;
    assert name[..6] == MEMORY && name[6] == AT;
    LastRegOf([PropStr("device_type", [Ascii("memory")])], l.ipaBase, g.memorySize, [], w.memSize);
    assert props == [PropStr("device_type", [Ascii("memory")])] + [PropU64("reg", [l.ipaBase, g.memorySize])] + [];
    LeafMet(w, name, props);
  }

  lemma HeadMet(w: Walk)
    requires w.depth == 1 && w.node.Other?
    ensures MetAll(w, CpusHead()) == w.(depth := 2, node := FdtGuest.Cpus)
  {
    var name, props := Ascii("cpus"), [PropU32("#address-cells", [1]), PropU32("#size-cells", [0])];
    assert name == CPUS;
    NotMemory(name);
    assert CpusHead() == [Begin(name)] + props;
    MetJoin(w, [Begin(name)], props);
    OneMet(w, Begin(name));
    PropsMet(Met(w, Begin(name)), props);
  }

  lemma CpusNodeMet(w: Walk, g: Guest, cpuCompatible: seq<byte>, psci: bool)
    requires w.depth == 1 && w.node.Other?
    ensures MetAll(w, GuestDtb.Cpus(g, cpuCompatible, psci)) == w.(cpus := w.cpus + g.vcpus)
  {
    HeadMet(w);
    AllCount(g.vcpus, cpuCompatible, psci);
    CountedMet(w, CpusHead(), CpuNodes(g.vcpus, cpuCompatible, psci));
  }

  lemma AllCount(n: u32, cpuCompatible: seq<byte>, psci: bool)
    ensures forall k :: 0 <= k < n ==> CountsOne(CpuNodes(n, cpuCompatible, psci)[k])
  {
    forall k | 0 <= k < n ensures CountsOne(CpuNodes(n, cpuCompatible, psci)[k]) {
      CpuNodeCounts(k, cpuCompatible, psci);
    }
  }

  lemma CountedMet(w: Walk, head: seq<Call>, nodes: seq<seq<Call>>)
    requires w.depth == 1 && w.node.Other? && MetAll(w, head) == w.(depth := 2, node := FdtGuest.Cpus)
    requires forall k :: 0 <= k < |nodes| ==> CountsOne(nodes[k])
    ensures MetAll(w, head + Flat(nodes) + [End]) == w.(cpus := w.cpus + |nodes|)
  {
    var inside, all := w.(depth := 2, node := FdtGuest.Cpus), Flat(nodes);
    CpusMet(inside, nodes);
    ThreeMet(w, head, all, End);
  }

  lemma ThreeMet(w: Walk, head: seq<Call>, all: seq<Call>, last: Call)
    ensures MetAll(w, head + all + [last]) == Met(MetAll(MetAll(w, head), all), last)
  {
    MetJoin(w, head + all, [last]);
    MetJoin(w, head, all);
    OneMet(MetAll(MetAll(w, head), all), last);
  }

  /** Every device of a guest's spec carries a logical identifier. */
  predicate Named(g: Guest) { forall d :: d in g.devices ==> LogicalId(d.id) }

  lemma TreeMet(g: Guest, l: Layout, cpuCompatible: seq<byte>, psci: bool)
    requires Named(g)
    ensures MetAll(START, GuestCalls(g, l, cpuCompatible, psci)) == Walk(0, Other, MemoryAfter(g.devices, g.memorySize), g.vcpus)
  {
    var root, memory := [Begin([])] + RootProps(g), Leaf(Addressed(Ascii("memory"), l.ipaBase), MemoryProps(g, l));
    var cpus, platform := GuestDtb.Cpus(g, cpuCompatible, psci), Platform(g, l, psci);
    var devices, chosen := Flat(DeviceNodes(g, l)), Leaf(Ascii("chosen"), ChosenProps(g, l));
    RootMet(g);
    MemoryMet(Walk(1, Other, 0, 0), g, l);
    CpusNodeMet(Walk(1, Other, g.memorySize, 0), g, cpuCompatible, psci);
    PlatformSilent(g, l, psci);
    DevicesMet(Walk(1, Other, g.memorySize, g.vcpus), g, l, |g.devices|);
    assert DeviceNodes(g, l)[..|g.devices|] == DeviceNodes(g, l) && g.devices[..|g.devices|] == g.devices;
    ChosenSilent(g, l);
    InTurn(root, memory, cpus, platform, devices, chosen);
    OneMet(Walk(1, Other, MemoryAfter(g.devices, g.memorySize), g.vcpus), End);
    MetJoin(START, root + (memory + cpus) + (platform + devices + chosen), [End]);
  }

  lemma InTurn(a: seq<Call>, b: seq<Call>, c: seq<Call>, d: seq<Call>, e: seq<Call>, f: seq<Call>)
    ensures MetAll(START, a + (b + c) + (d + e + f)) ==
            MetAll(MetAll(MetAll(MetAll(MetAll(MetAll(START, a), b), c), d), e), f)
  {
    MetJoin(START, a + (b + c), d + e + f);
    MetJoin(START, a, b + c);
    MetJoin(MetAll(START, a), b, c);
    var w := MetAll(MetAll(MetAll(START, a), b), c);
    MetJoin(w, d + e, f);
    MetJoin(w, d, e);
  }

  lemma {:induction false} DepthMet(w: Walk, calls: seq<Call>)
    ensures MetAll(w, calls).depth == w.depth + Depth(calls)
    decreases |calls|
  {
    if calls != [] {
      var before, last := calls[..|calls| - 1], calls[|calls| - 1];
      DepthMet(w, before);
      MetJoin(w, before, [last]);
      OneMet(MetAll(w, before), last);
      assert calls == before + [last];
    }
  }

  // --- Every name is a C string -----------------------------------------------------------------

  lemma EncodableJoin(a: seq<Call>, b: seq<Call>)
    requires Encodable(a) && Encodable(b)
    ensures Encodable(a + b)
  {
    forall i | 0 <= i < |a + b| ensures EncodableCall((a + b)[i]) {
      assert if i < |a| then EncodableCall(a[i]) else EncodableCall(b[i - |a|]);
    }
  }

  lemma LeafEncodable(name: seq<byte>, props: seq<Call>)
    requires NoNul(name) && Encodable(props)
    ensures Encodable(Leaf(name, props))
  {
    EncodableJoin([Begin(name)], props);
    EncodableJoin([Begin(name)] + props, [End]);
  }

  lemma {:induction false} FlatEncodable(nodes: seq<seq<Call>>)
    requires forall k :: 0 <= k < |nodes| ==> Encodable(nodes[k])
    ensures Encodable(Flat(nodes))
    decreases |nodes|
  {
    if nodes != [] {
      FlatEncodable(nodes[..|nodes| - 1]);
      EncodableJoin(Flat(nodes[..|nodes| - 1]), nodes[|nodes| - 1]);
    }
  }

  lemma NoNulJoin(a: seq<byte>, b: seq<byte>)
    requires NoNul(a) && NoNul(b)
    ensures NoNul(a + b)
  {}

  lemma AddressedNoNul(stem: seq<byte>, address: nat)
    requires NoNul(stem)
    ensures NoNul(Addressed(stem, address))
  {
    NoNulJoin(stem, [AT]);
    NoNulJoin(stem + [AT], Hex(address));
  }

  lemma CpusEncodable(g: Guest, cpuCompatible: seq<byte>, psci: bool)
    ensures Encodable(GuestDtb.Cpus(g, cpuCompatible, psci))
  {
    var nodes := CpuNodes(g.vcpus, cpuCompatible, psci);
    forall k | 0 <= k < |nodes| ensures Encodable(nodes[k]) {
      NoNulJoin(Ascii("cpu"), [AT]);
      NoNulJoin(Ascii("cpu") + [AT], Number(k, 10));
      LeafEncodable(Ascii("cpu") + [AT] + Number(k, 10), CpuProps(k, cpuCompatible, psci));
    }
    FlatEncodable(nodes);
    EncodableJoin(CpusHead(), Flat(nodes));
    EncodableJoin(CpusHead() + Flat(nodes), [End]);
  }

  lemma DevicesEncodable(g: Guest, l: Layout)
    requires Named(g)
    ensures Encodable(Flat(DeviceNodes(g, l)))
  {
    var nodes := DeviceNodes(g, l);
    forall k | 0 <= k < |nodes| ensures Encodable(nodes[k]) {
      var d := g.devices[k];
      assert LogicalId(d.id);
      AddressedNoNul(d.id, d.guestIpa);
      LeafEncodable(Addressed(d.id, d.guestIpa), DeviceProps(d, g, l));
    }
    FlatEncodable(nodes);
  }

  lemma PlatformEncodable(g: Guest, l: Layout, psci: bool)
    ensures Encodable(Platform(g, l, psci))
  {
    var a := if psci then Leaf(Ascii("psci"), PsciProps()) else [];
    var b, c := Leaf(Addressed(Ascii("intc"), l.gicdBase), IntcProps(g, l)), Leaf(Ascii("timer"), TimerProps());
    var d1, d2 := Leaf(Ascii("apb-pclk"), ClockProps()), Leaf(Addressed(Ascii("uart"), l.vuartBase), UartProps(l));
    var d := if g.vuart then d1 + d2 else [];
    LeafEncodable(Ascii("psci"), PsciProps());
    AddressedNoNul(Ascii("intc"), l.gicdBase);
    LeafEncodable(Addressed(Ascii("intc"), l.gicdBase), IntcProps(g, l));
    LeafEncodable(Ascii("timer"), TimerProps());
    LeafEncodable(Ascii("apb-pclk"), ClockProps());
    AddressedNoNul(Ascii("uart"), l.vuartBase);
    LeafEncodable(Addressed(Ascii("uart"), l.vuartBase), UartProps(l));
    EncodableJoin(d1, d2);
    EncodableJoin(a, b);
    EncodableJoin(a + b, c);
    EncodableJoin(a + b + c, d);
  }

  lemma TreeEncodable(g: Guest, l: Layout, cpuCompatible: seq<byte>, psci: bool)
    requires Named(g)
    ensures Encodable(GuestCalls(g, l, cpuCompatible, psci))
  {
    var root, memory := [Begin([])] + RootProps(g), Leaf(Addressed(Ascii("memory"), l.ipaBase), MemoryProps(g, l));
    var cpus, platform := GuestDtb.Cpus(g, cpuCompatible, psci), Platform(g, l, psci);
    var devices, chosen := Flat(DeviceNodes(g, l)), Leaf(Ascii("chosen"), ChosenProps(g, l));
    RootEncodable(g);
    MemoryEncodable(g, l);
    CpusEncodable(g, cpuCompatible, psci);
    PlatformEncodable(g, l, psci);
    DevicesEncodable(g, l);
    LeafEncodable(Ascii("chosen"), ChosenProps(g, l));
    AllEncodable(root, memory, cpus, platform, devices, chosen);
  }

  lemma RootEncodable(g: Guest)
    ensures Encodable([Begin([])] + RootProps(g))
  {}

  lemma MemoryEncodable(g: Guest, l: Layout)
    ensures Encodable(Leaf(Addressed(Ascii("memory"), l.ipaBase), MemoryProps(g, l)))
  {
    AddressedNoNul(Ascii("memory"), l.ipaBase);
    LeafEncodable(Addressed(Ascii("memory"), l.ipaBase), MemoryProps(g, l));
  }

  lemma AllEncodable(root: seq<Call>, memory: seq<Call>, cpus: seq<Call>, platform: seq<Call>, devices: seq<Call>,
                     chosen: seq<Call>)
    requires Encodable(root) && Encodable(memory) && Encodable(cpus)
    requires Encodable(platform) && Encodable(devices) && Encodable(chosen)
    ensures Encodable(root + (memory + cpus) + (platform + devices + chosen) + [End])
  {
    EncodableJoin(memory, cpus);
    EncodableJoin(platform, devices);
    EncodableJoin(platform + devices, chosen);
    EncodableJoin(root, memory + cpus);
    EncodableJoin(root + (memory + cpus), platform + devices + chosen);
    EncodableJoin(root + (memory + cpus) + (platform + devices + chosen), [End]);
  }

  // --- Main results ----------------------------------------------------------------------------

  /** The blob a guest is handed reads back as its tree, and what the guest makes of
      it is its own vCPU count and, unless a device is called "memory", its own
      memory size. */
  lemma GuestReadsItself(g: Guest, l: Layout, cpuCompatible: seq<byte>, psci: bool, blob: seq<byte>)
    requires Named(g) && Finished(AllWritten(GuestCalls(g, l, cpuCompatible, psci))) == Some(blob)
    ensures |blob| < TWO_32 && ReadBlob(blob) == Some(GuestCalls(g, l, cpuCompatible, psci))
    ensures GuestInfo(GuestCalls(g, l, cpuCompatible, psci)) ==
            Info(g.vcpus > 0 && MemoryAfter(g.devices, g.memorySize) > 0, MemoryAfter(g.devices, g.memorySize), g.vcpus)
  {
    var calls := GuestCalls(g, l, cpuCompatible, psci);
    TreeEncodable(g, l, cpuCompatible, psci);
    WritesReadBack(calls);
    FinishedBlocks(AllWritten(calls), blob);
    TreeMet(g, l, cpuCompatible, psci);
  }

  /** No tree is refused but one too large for its 32-bit sizes. */
  lemma TreeIsBalanced(g: Guest, l: Layout, cpuCompatible: seq<byte>, psci: bool)
    requires Named(g)
    ensures var w := AllWritten(GuestCalls(g, l, cpuCompatible, psci));
            Finished(w).None? <==> HEADER_SIZE + RSVMAP_SIZE + |w.st| + 4 + |w.strings| >= TWO_32
  {
    var calls := GuestCalls(g, l, cpuCompatible, psci);
    TreeEncodable(g, l, cpuCompatible, psci);
    TreeMet(g, l, cpuCompatible, psci);
    DepthMet(START, calls);
    WritesReadBack(calls);
  }

  /** A guest with a vCPU and memory is told exactly that, unless the last device
      called "memory" has another size. */
  lemma ToldExactly(g: Guest, l: Layout, cpuCompatible: seq<byte>, psci: bool)
    requires Named(g)
    ensures GuestInfo(GuestCalls(g, l, cpuCompatible, psci)) == Info(true, g.memorySize, g.vcpus) <==>
            && g.vcpus > 0 && g.memorySize > 0
            && forall k :: 0 <= k < |g.devices| && g.devices[k].id == MEMORY && LastSo(g.devices, k)
                           ==> g.devices[k].mmioSize == g.memorySize
  {
    TreeMet(g, l, cpuCompatible, psci);
    AfterIsLast(g.devices, g.memorySize);
  }

  /** From the configuration to the guest and back: the tree is built, handed over
      and parsed, and the guest ends with its own numbers exactly when it should. */
  method HandOver(g: Guest, l: Layout, cpuCompatible: seq<byte>, psci: bool) returns (told: Option<Outcome>)
    requires Named(g)
    ensures told.Some? ==>
            told.value == Parsed(GuestInfo(GuestCalls(g, l, cpuCompatible, psci)))
    ensures told.Some? ==>
            (told.value == Parsed(Info(true, g.memorySize, g.vcpus)) <==>
              && g.vcpus > 0 && g.memorySize > 0
              && forall k :: 0 <= k < |g.devices| && g.devices[k].id == MEMORY && LastSo(g.devices, k)
                             ==> g.devices[k].mmioSize == g.memorySize)
    ensures var w := AllWritten(GuestCalls(g, l, cpuCompatible, psci));
            told.None? <==> HEADER_SIZE + RSVMAP_SIZE + |w.st| + 4 + |w.strings| >= TWO_32
  {
    var blob := BuildGuestDtb(g, l, cpuCompatible, psci);
    TreeIsBalanced(g, l, cpuCompatible, psci);
    if blob.None? { return None; }
    GuestReadsItself(g, l, cpuCompatible, psci, blob.value);
    ToldExactly(g, l, cpuCompatible, psci);
    var outcome := ParseGuest(Some(blob.value));
    return Some(outcome);
  }

  /** No later device has the k'th one's name. */
  predicate LastSo(devices: seq<Device>, k: nat)
    requires k < |devices|
  {
    forall j :: k < j < |devices| ==> devices[j].id != devices[k].id
  }

  lemma {:induction false} AfterIsLast(devices: seq<Device>, otherwise: nat)
    ensures MemoryAfter(devices, otherwise) == otherwise <==>
            forall k :: 0 <= k < |devices| && devices[k].id == MEMORY && LastSo(devices, k)
                        ==> devices[k].mmioSize == otherwise
    decreases |devices|
  {
    if devices != [] {
      var rest, n := devices[..|devices| - 1], |devices| - 1;
      AfterIsLast(rest, otherwise);
      assert LastSo(devices, n);
      if devices[n].id != MEMORY {
        forall k | 0 <= k < n && devices[k].id == MEMORY ensures LastSo(devices, k) <==> LastSo(rest, k) {
          assert forall j :: k < j < n ==> rest[j] == devices[j];
        }
      }
    }
  }
}
