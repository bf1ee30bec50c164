/** Flattened device trees: what a blob's bytes mean, and the writer that makes them.

    Layout follows sections 5.2, 5.4 and 5.5 of the Devicetree Specification v0.4. */
module Fdt {
  import opened Words

  const MAGIC: nat := 0xD00D_FEED
  const BEGIN_NODE: nat := 1
  const END_NODE: nat := 2
  const PROP: nat := 3
  const NOP: nat := 4
  const END: nat := 9
  const HEADER_SIZE: nat := 40
  const RSVMAP_SIZE: nat := 16

  /** One structure token and what belongs to it. Names are encoded bytes. */
  datatype Call = Begin(name: seq<byte>) | End | Prop(name: seq<byte>, data: seq<byte>)

  // --- Bytes ---------------------------------------------------------------------

  function BE32(v: nat): (b: seq<byte>)
    ensures |b| == 4
  {
    [v / 0x100_0000 % 0x100, v / 0x1_0000 % 0x100, v / 0x100 % 0x100, v % 0x100]
  }

  function FromBE32(b: seq<byte>): (v: u32)
    requires |b| == 4
  {
    var b0: nat, b1: nat, b2: nat, b3: nat := b[0], b[1], b[2], b[3];
    b0 * 0x100_0000 + b1 * 0x1_0000 + b2 * 0x100 + b3
  }

  lemma BE32Back(v: u32)
    ensures FromBE32(BE32(v)) == v
  {
    var a, b, c := v / 0x100, v / 0x1_0000, v / 0x100_0000;
    assert b == a / 0x100 && c == b / 0x100 && c < 0x100;
    assert v == a * 0x100 + v % 0x100;
    assert a == b * 0x100 + a % 0x100;
    assert b == c * 0x100 + b % 0x100;
  }

  function BE64(v: nat): (b: seq<byte>)
    ensures |b| == 8
  {
    BE32(v / TWO_32) + BE32(v % TWO_32)
  }

  function FromBE64(b: seq<byte>): nat
    requires |b| == 8
  {
    FromBE32(b[..4]) * TWO_32 + FromBE32(b[4..])
  }

  lemma BE64Back(v: u64)
    ensures FromBE64(BE64(v)) == v
  {
    BE32Back(v / TWO_32);
    BE32Back(v % TWO_32);
    assert BE64(v)[..4] == BE32(v / TWO_32) && BE64(v)[4..] == BE32(v % TWO_32);
  }

  function At32(b: seq<byte>, at: nat): u32
    requires at + 4 <= |b|
  {
    FromBE32(b[at..at + 4])
  }

  /** The next multiple of four. */
  function Up4(n: nat): nat { (n + 3) / 4 * 4 }

  function Zeros(n: nat): (z: seq<byte>)
    ensures |z| == n
  {
    seq(n, _ => 0)
  }

  function Padded(b: seq<byte>): (p: seq<byte>)
    ensures |p| == Up4(|b|) && |p| % 4 == 0 && b <= p
  {
    b + Zeros(Up4(|b|) - |b|)
  }

  /** A C string: the bytes up to the first NUL. */
  function UntilNul(b: seq<byte>): (name: Option<seq<byte>>)
    ensures name.Some? ==> |name.value| < |b| && b[|name.value|] == 0 && name.value == b[..|name.value|]
    ensures name.Some? ==> forall i :: 0 <= i < |name.value| ==> name.value[i] != 0
  {
    if b == [] then None
    else if b[0] == 0 then Some([])
    else
      match UntilNul(b[1..])
      case None => None
      case Some(rest) => Some([b[0]] + rest)
  }

  predicate NoNul(name: seq<byte>) { forall i :: 0 <= i < |name| ==> name[i] != 0 }

  lemma {:induction false} UntilNulBack(name: seq<byte>, rest: seq<byte>)
    requires NoNul(name)
    ensures UntilNul(name + [0] + rest) == Some(name)
    decreases |name|
  {
    var whole := name + [0] + rest;
    if name == [] {
      assert whole[0] == 0;
    } else {
      assert whole[0] == name[0] != 0;
      assert whole[1..] == name[1..] + [0] + rest;
      UntilNulBack(name[1..], rest);
      assert name == [name[0]] + name[1..];
    }
  }

  // --- Reading any blob --------------------------------------------------------------

  /** What stands at the front of a structure block: its end, a token of this size
      (a nop where it stands for no call), or nothing a reader can take. */
  datatype Front = Stop | Bad | Step(call: Option<Call>, size: nat)

  function NextToken(st: seq<byte>, strings: seq<byte>): (front: Front)
    ensures front.Step? ==> 0 < front.size <= |st|
  {
    if |st| < 4 then Bad
    else
      var token := At32(st, 0);
      if token == END then Stop
      else if token == NOP then Step(None, 4)
      else if token == END_NODE then Step(Some(End), 4)
      else if token == BEGIN_NODE then
        match UntilNul(st[4..])
        case None => Bad
        case Some(name) =>
          var next := 4 + Up4(|name| + 1);
          if next > |st| then Bad else Step(Some(Begin(name)), next)
      else if token == PROP && |st| >= 12 then
        var len: nat, off := At32(st, 4), At32(st, 8);
        var next := 12 + Up4(len);
        if next > |st| || off > |strings| then Bad
        else
          match UntilNul(strings[off..])
          case None => Bad
          case Some(name) => Step(Some(Prop(name, st[12..12 + len])), next)
      else Bad
  }

  /** The calls a structure block stands for, up to its end token. */
  function ReadCalls(st: seq<byte>, strings: seq<byte>): Option<seq<Call>>
    decreases |st|
  {
    match NextToken(st, strings)
    case Stop => Some([])
    case Bad => None
    case Step(call, size) =>
      match ReadCalls(st[size..], strings)
      case None => None
      case Some(calls) => Some(if call.Some? then [call.value] + calls else calls)
  }

  /** The two blocks a blob's header points at. */
  datatype Blocks = Blocks(st: seq<byte>, strings: seq<byte>)

  function BlocksOf(blob: seq<byte>): Option<Blocks> {
    if |blob| < HEADER_SIZE || At32(blob, 0) != MAGIC then None
    else
      var offStruct, offStrings := At32(blob, 8), At32(blob, 12);
      var sizeStrings, sizeStruct := At32(blob, 32), At32(blob, 36);
      if offStruct + sizeStruct > |blob| || offStrings + sizeStrings > |blob| then None
      else Some(Blocks(blob[offStruct..offStruct + sizeStruct], blob[offStrings..offStrings + sizeStrings]))
  }

  function ReadBlob(blob: seq<byte>): Option<seq<Call>> {
    match BlocksOf(blob)
    case None => None
    case Some(blocks) => ReadCalls(blocks.st, blocks.strings)
  }

  // --- What the writer has so far -----------------------------------------------------

  datatype Image = Image(st: seq<byte>, strings: seq<byte>, offsets: map<seq<byte>, nat>, depth: int)

  const BLANK := Image([], [], map[], 0)

  function Interned(w: Image, name: seq<byte>): (r: Image)
    ensures name in r.offsets
  {
    if name in w.offsets then w
    else w.(offsets := w.offsets[name := |w.strings|], strings := w.strings + name + [0])
  }

  function Written(w: Image, call: Call): Image {
    match call
    case Begin(name) => w.(st := Padded(w.st + BE32(BEGIN_NODE) + name + [0]), depth := w.depth + 1)
    case End => w.(st := w.st + BE32(END_NODE), depth := w.depth - 1)
    case Prop(name, data) =>
      var v := Interned(w, name);
      v.(st := Padded(v.st + BE32(PROP) + BE32(|data|) + BE32(v.offsets[name]) + data))
  }

  function AllWritten(calls: seq<Call>): Image {
    if calls == [] then BLANK else Written(AllWritten(calls[..|calls| - 1]), calls[|calls| - 1])
  }

  /** finish(): nothing while a node is open, and nothing that 32-bit sizes cannot
      describe. */
  function Finished(w: Image): Option<seq<byte>> {
    var st := w.st + BE32(END);
    var offStruct := HEADER_SIZE + RSVMAP_SIZE;
    var offStrings := offStruct + |st|;
    var total := offStrings + |w.strings|;
    if w.depth != 0 || total >= TWO_32 then None
    else Some(Header(total, offStruct, offStrings, |w.strings|, |st|) + Zeros(RSVMAP_SIZE) + st + w.strings)
  }

  function Header(total: nat, offStruct: nat, offStrings: nat, sizeStrings: nat, sizeStruct: nat): (h: seq<byte>)
    ensures |h| == HEADER_SIZE
  {
    BE32(MAGIC) + BE32(total) + BE32(offStruct) + BE32(offStrings) + BE32(HEADER_SIZE) +
    BE32(17) + BE32(16) + BE32(0) + BE32(sizeStrings) + BE32(sizeStruct)
  }

  // --- The writer as it runs -----------------------------------------------------------

  class FdtWriter {
    var st: seq<byte>
    var strings: seq<byte>
    var offsets: map<seq<byte>, nat>
    var depth: int

    function View(): Image
      reads this
    {
      Image(st, strings, offsets, depth)
    }

    constructor ()
      ensures View() == BLANK
    {
      st, strings, offsets, depth := [], [], map[], 0;
    }

    method Pad4()
      modifies this`st
      ensures st == Padded(old(st))
    {
      ghost var was := st;
      while |st| % 4 != 0
        invariant |was| <= |st| <= Up4(|was|) && st == was + Zeros(|st| - |was|)
        decreases Up4(|was|) - |st|
      {
        st := st + [0];
      }
    }

    method StringOffset(name: seq<byte>) returns (offset: nat)
      modifies this`strings, this`offsets
      ensures View() == Interned(old(View()), name) && offset == offsets[name]
    {
      if name !in offsets {
        offsets := offsets[name := |strings|];
        strings := strings + name + [0];
      }
      return offsets[name];
    }

    method BeginNode(name: seq<byte>)
      modifies this
      ensures View() == Written(old(View()), Begin(name))
    {
      st := st + BE32(BEGIN_NODE);
      st := st + name + [0];
      Pad4();
      depth := depth + 1;
    }

    method EndNode()
      modifies this
      ensures View() == Written(old(View()), End)
    {
      st := st + BE32(END_NODE);
      depth := depth - 1;
    }

    method Property(name: seq<byte>, data: seq<byte>)
      modifies this
      ensures View() == Written(old(View()), Prop(name, data))
    {
      var offset := StringOffset(name);
      st := st + BE32(PROP) + BE32(|data|) + BE32(offset);
      st := st + data;
      Pad4();
    }

    method Finish() returns (blob: Option<seq<byte>>)
      modifies this
      ensures blob == Finished(old(View()))
    {
      if depth != 0 {
        return None;
      }
      st := st + BE32(END);
      var offStruct := HEADER_SIZE + RSVMAP_SIZE;
      var offStrings := offStruct + |st|;
      var total := offStrings + |strings|;
      if total >= TWO_32 {
        return None;
      }
      return Some(Header(total, offStruct, offStrings, |strings|, |st|) + Zeros(RSVMAP_SIZE) + st + strings);
    }
  }

  // --- Structure blocks, token by token --------------------------------------------------

  function Token(call: Call, offsets: map<seq<byte>, nat>): seq<byte>
    requires call.Prop? ==> call.name in offsets
  {
    match call
    case Begin(name) => BE32(BEGIN_NODE) + Padded(name + [0])
    case End => BE32(END_NODE)
    case Prop(name, data) => BE32(PROP) + BE32(|data|) + BE32(offsets[name]) + Padded(data)
  }

  predicate Named(calls: seq<Call>, offsets: map<seq<byte>, nat>) {
    forall i :: 0 <= i < |calls| && calls[i].Prop? ==> calls[i].name in offsets
  }

  function Tokens(calls: seq<Call>, offsets: map<seq<byte>, nat>): seq<byte>
    requires Named(calls, offsets)
  {
    if calls == [] then []
    else
      assert Named(calls[1..], offsets);
      Token(calls[0], offsets) + Tokens(calls[1..], offsets)
  }

  lemma {:induction false} TokensSnoc(calls: seq<Call>, last: Call, offsets: map<seq<byte>, nat>)
    requires Named(calls, offsets) && (last.Prop? ==> last.name in offsets)
    ensures Named(calls + [last], offsets)
    ensures Tokens(calls + [last], offsets) == Tokens(calls, offsets) + Token(last, offsets)
    decreases |calls|
  {
    if calls == [] {
      TokensCons(last, [], offsets);
      assert calls + [last] == [last] + [];
    } else {
      assert calls == [calls[0]] + calls[1..];
      assert Named(calls[1..], offsets);
      TokensSnoc(calls[1..], last, offsets);
      TokensCons(calls[0], calls[1..] + [last], offsets);
      Joined(calls[0], calls[1..], last);
      Associates(Token(calls[0], offsets), Tokens(calls[1..], offsets), Token(last, offsets));
    }
  }

  lemma Joined(first: Call, rest: seq<Call>, last: Call)
    ensures ([first] + rest) + [last] == [first] + (rest + [last])
    ensures ([first] + rest)[0] == first && ([first] + rest)[1..] == rest
  {}

  lemma Associates(a: seq<byte>, b: seq<byte>, c: seq<byte>)
    ensures (a + b) + c == a + (b + c)
  {}

  lemma TokensCons(first: Call, rest: seq<Call>, offsets: map<seq<byte>, nat>)
    requires Named(rest, offsets) && (first.Prop? ==> first.name in offsets)
    ensures Named([first] + rest, offsets)
    ensures Tokens([first] + rest, offsets) == Token(first, offsets) + Tokens(rest, offsets)
  {
    assert ([first] + rest)[1..] == rest;
  }

  lemma {:induction false} TokensStable(calls: seq<Call>, before: map<seq<byte>, nat>, after: map<seq<byte>, nat>)
    requires Named(calls, before) && forall n :: n in before ==> n in after && after[n] == before[n]
    ensures Named(calls, after) && Tokens(calls, after) == Tokens(calls, before)
    decreases |calls|
  {
    if calls != [] {
      assert Named(calls[1..], before);
      TokensStable(calls[1..], before, after);
    }
  }

  lemma TokenAligned(call: Call, offsets: map<seq<byte>, nat>)
    requires call.Prop? ==> call.name in offsets
    ensures |Token(call, offsets)| % 4 == 0
  {}

  lemma SumAligned(a: nat, b: nat)
    requires a % 4 == 0 && b % 4 == 0
    ensures (a + b) % 4 == 0
  {}

  lemma {:induction false} TokensAligned(calls: seq<Call>, offsets: map<seq<byte>, nat>)
    requires Named(calls, offsets)
    ensures |Tokens(calls, offsets)| % 4 == 0
    decreases |calls|
  {
    if calls != [] {
      assert Named(calls[1..], offsets);
      TokenAligned(calls[0], offsets);
      TokensAligned(calls[1..], offsets);
      SumAligned(|Token(calls[0], offsets)|, |Tokens(calls[1..], offsets)|);
    }
  }

  lemma PaddedAfter(before: seq<byte>, b: seq<byte>)
    requires |before| % 4 == 0
    ensures Padded(before + b) == before + Padded(b)
  {}
}
