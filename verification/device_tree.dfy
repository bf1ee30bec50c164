/** A device tree as whoever receives one reads it: nodes with properties and children,
    properties by name, values in big-endian cells, unit addresses in node names.
    Nothing here knows how a tree is written. */
module DeviceTree {
  import opened Words
  import opened Fdt
  import FdtGuest

  datatype Property = Property(name: seq<byte>, data: seq<byte>)

  datatype Node = Node(name: seq<byte>, props: seq<Property>, children: seq<Node>)

  // --- Nodes -----------------------------------------------------------------------

  /** The open nodes, outermost first, after one more call. */
  function Take(open: seq<Node>, call: Call): Option<seq<Node>> {
    if open == [] then None
    else
      var above, top := open[..|open| - 1], open[|open| - 1];
      match call
      case Begin(name) => Some(open + [Node(name, [], [])])
      case Prop(name, data) => Some(above + [top.(props := top.props + [Property(name, data)])])
      case End =>
        if above == [] then None
        else
          var parent := above[|above| - 1];
          Some(above[..|above| - 1] + [parent.(children := parent.children + [top])])
  }

  function TakeAll(open: seq<Node>, calls: seq<Call>): Option<seq<Node>>
    decreases |calls|
  {
    if calls == [] then Some(open)
    else
      match Take(open, calls[0])
      case None => None
      case Some(next) => TakeAll(next, calls[1..])
  }

  /** Stands above the root. */
  const NOWHERE := Node([], [], [])

  /** The one tree the calls describe. */
  function TreeOf(calls: seq<Call>): Option<Node> {
    match TakeAll([NOWHERE], calls)
    case Some(open) =>
      if |open| == 1 && open[0].props == [] && |open[0].children| == 1 then Some(open[0].children[0]) else None
    case None => None
  }

  // --- Properties --------------------------------------------------------------------

  function Find(props: seq<Property>, name: seq<byte>): Option<seq<byte>> {
    if props == [] then None
    else if props[0].name == name then Some(props[0].data)
    else Find(props[1..], name)
  }

  /** Text as bytes; a question mark for what is not printable ASCII. */
  function Letters(s: string): seq<byte> {
    seq(|s|, i requires 0 <= i < |s| => if ' ' <= s[i] <= '~' then s[i] as int else 63)
  }

  function Get(n: Node, name: string): Option<seq<byte>> { Find(n.props, Letters(name)) }

  function BigEndian(data: seq<byte>): nat {
    if data == [] then 0 else BigEndian(data[..|data| - 1]) * 256 + data[|data| - 1]
  }

  function Cells32(data: seq<byte>): seq<nat> {
    seq(|data| / 4, i requires 0 <= i < |data| / 4 => BigEndian(data[4 * i..4 * i + 4]))
  }

  function Cells64(data: seq<byte>): seq<nat> {
    seq(|data| / 8, i requires 0 <= i < |data| / 8 => BigEndian(data[8 * i..8 * i + 8]))
  }

  /** What a property's bytes can be read as, to the last of them. */
  datatype Value =
    | Empty
    | Text(text: seq<byte>)
    | Texts(first: seq<byte>, second: seq<byte>)
    | Cells(cells: seq<nat>)                        // 32 bits each
    | Wide(cells: seq<nat>)                         // 64 bits each

  predicate ReadsAs(data: seq<byte>, v: Value) {
    match v
    case Empty => data == []
    case Text(text) => data == text + [0]
    case Texts(first, second) => data == first + [0] + second + [0]
    case Cells(cells) => |data| == 4 * |cells| && Cells32(data) == cells
    case Wide(cells) => |data| == 8 * |cells| && Cells64(data) == cells
  }

  datatype Entry = Entry(name: string, value: Value)

  /** The node has these properties, found by name, and no others. */
  ghost predicate Holds(n: Node, table: seq<Entry>) {
    && |n.props| == |table|
    && forall i :: 0 <= i < |table| ==> HoldsOne(n, table[i]) && n.props[i].name == Letters(table[i].name)
  }

  predicate HoldsOne(n: Node, entry: Entry) {
    var data := Get(n, entry.name);
    data.Some? && ReadsAs(data.value, entry.value)
  }

  // --- Names ---------------------------------------------------------------------------

  /** Up to the first `@`. */
  function Stem(name: seq<byte>): seq<byte> {
    if name == [] || name[0] == FdtGuest.AT then [] else [name[0]] + Stem(name[1..])
  }

  function DigitValue(b: byte): nat {
    if 48 <= b <= 57 then b - 48 else if 97 <= b <= 122 then b - 87 else 0
  }

  function ValueOf(digits: seq<byte>, radix: nat): nat {
    if digits == [] then 0 else ValueOf(digits[..|digits| - 1], radix) * radix + DigitValue(digits[|digits| - 1])
  }

  /** The name is the stem, an `@`, and the address in this radix. */
  predicate NamedAt(n: Node, stem: seq<byte>, address: nat, radix: nat) {
    && |stem| < |n.name| && Stem(n.name) == stem && n.name[|stem|] == FdtGuest.AT
    && ValueOf(n.name[|stem| + 1..], radix) == address
  }

  // --- What calls add to a tree ----------------------------------------------------------

  /** These nodes under the innermost open one. */
  function Under(open: seq<Node>, nodes: seq<Node>): (r: seq<Node>)
    requires open != []
    ensures |r| == |open|
  {
    var top := open[|open| - 1];
    open[..|open| - 1] + [top.(children := top.children + nodes)]
  }

  ghost predicate Adds(calls: seq<Call>, nodes: seq<Node>) {
    forall open: seq<Node> :: open != [] ==> TakeAll(open, calls) == Some(Under(open, nodes))
  }

  lemma {:induction false} TakeJoin(open: seq<Node>, a: seq<Call>, b: seq<Call>)
    requires TakeAll(open, a).Some?
    ensures TakeAll(open, a + b) == TakeAll(TakeAll(open, a).value, b)
    decreases |a|
  {
    if a == [] {
      assert a + b == b;
    } else {
      assert (a + b)[0] == a[0] && (a + b)[1..] == a[1..] + b;
      TakeJoin(Take(open, a[0]).value, a[1..], b);
    }
  }

  lemma TakeOne(open: seq<Node>, call: Call)
    ensures TakeAll(open, [call]) == Take(open, call)
  {
    assert [call][1..] == [];
    if Take(open, call).Some? { assert TakeAll(Take(open, call).value, []) == Take(open, call); }
  }

  lemma AddsNone()
    ensures Adds([], [])
  {
    forall open: seq<Node> | open != [] ensures TakeAll(open, []) == Some(Under(open, [])) {
      var top := open[|open| - 1];
      assert top.children + [] == top.children;
      assert Under(open, []) == open;
    }
  }

  lemma AddsJoin(a: seq<Call>, xs: seq<Node>, b: seq<Call>, ys: seq<Node>)
    requires Adds(a, xs) && Adds(b, ys)
    ensures Adds(a + b, xs + ys)
  {
    forall open: seq<Node> | open != [] ensures TakeAll(open, a + b) == Some(Under(open, xs + ys)) {
      TakeJoin(open, a, b);
      var top := open[|open| - 1];
      assert top.children + xs + ys == top.children + (xs + ys);
      assert Under(Under(open, xs), ys) == Under(open, xs + ys);
    }
  }

  ghost predicate AllProps(calls: seq<Call>) { forall i :: 0 <= i < |calls| ==> calls[i].Prop? }

  function Pairs(calls: seq<Call>): (r: seq<Property>)
    requires AllProps(calls)
    ensures |r| == |calls|
  {
    seq(|calls|, i requires 0 <= i < |calls| => Property(calls[i].name, calls[i].data))
  }

  lemma {:induction false} PropsTaken(open: seq<Node>, name: seq<byte>, had: seq<Property>, calls: seq<Call>)
    requires AllProps(calls)
    ensures TakeAll(open + [Node(name, had, [])], calls) == Some(open + [Node(name, had + Pairs(calls), [])])
    decreases |calls|
  {
    if calls == [] {
      assert had + Pairs(calls) == had;
    } else {
      var now, first := open + [Node(name, had, [])], Property(calls[0].name, calls[0].data);
      assert now[..|now| - 1] == open;
      assert AllProps(calls[1..]);
      assert had + Pairs(calls) == had + [first] + Pairs(calls[1..]);
      PropsTaken(open, name, had + [first], calls[1..]);
    }
  }

  /** A node: its name, its properties, its children, its end. */
  lemma NodeAdds(name: seq<byte>, props: seq<Call>, inner: seq<Call>, children: seq<Node>)
    requires AllProps(props) && Adds(inner, children)
    ensures Adds([Begin(name)] + props + inner + [End], [Node(name, Pairs(props), children)])
  {
    forall open: seq<Node> | open != []
      ensures TakeAll(open, [Begin(name)] + props + inner + [End]) == Some(Under(open, [Node(name, Pairs(props), children)]))
    {
      NodeTaken(open, name, props, inner, children);
    }
  }

  lemma NodeTaken(open: seq<Node>, name: seq<byte>, props: seq<Call>, inner: seq<Call>, children: seq<Node>)
    requires open != [] && AllProps(props) && Adds(inner, children)
    ensures TakeAll(open, [Begin(name)] + props + inner + [End]) == Some(Under(open, [Node(name, Pairs(props), children)]))
  {
    var node := Node(name, Pairs(props), []);
    TakeOne(open, Begin(name));
    TakeJoin(open, [Begin(name)], props);
    PropsTaken(open, name, [], props);
    assert [] + Pairs(props) == Pairs(props);
    TakeJoin(open, [Begin(name)] + props, inner);
    assert [] + children == children;
    assert Under(open + [node], children) == open + [node.(children := children)];
    TakeJoin(open, [Begin(name)] + props + inner, [End]);
    TakeOne(open + [node.(children := children)], End);
    Ended(open, node.(children := children));
  }

  lemma Ended(open: seq<Node>, node: Node)
    requires open != []
    ensures Take(open + [node], End) == Some(Under(open, [node]))
  {
    var all := open + [node];
    assert all[..|all| - 1] == open && all[|all| - 1] == node;
  }

  lemma TreeIs(calls: seq<Call>, root: Node)
    requires Adds(calls, [root])
    ensures TreeOf(calls) == Some(root)
  {
    assert [] + [root] == [root];
    assert Under([NOWHERE], [root]) == [NOWHERE.(children := [root])];
  }

  // --- Reading a property back -------------------------------------------------------------

  /** Told apart by their lengths or by their first letters. */
  predicate Apart(a: string, b: string) {
    |a| != |b| || (a != "" && a[0] != b[0] && ' ' <= a[0] <= '~' && ' ' <= b[0] <= '~')
  }

  ghost predicate Distinct(table: seq<Entry>) {
    forall i, j :: 0 <= i < j < |table| ==> Apart(table[i].name, table[j].name)
  }

  /** The properties carry these names. */
  ghost predicate Carries(props: seq<Property>, table: seq<Entry>) {
    |table| == |props| && forall i :: 0 <= i < |table| ==> props[i].name == Letters(table[i].name)
  }

  lemma LettersApart(a: string, b: string)
    requires Apart(a, b)
    ensures Letters(a) != Letters(b)
  {
    if |a| == |b| { assert Letters(a)[0] != Letters(b)[0]; }
  }

  lemma {:induction false} FindAt(props: seq<Property>, table: seq<Entry>, k: nat)
    requires Carries(props, table) && Distinct(table) && k < |props|
    ensures Find(props, Letters(table[k].name)) == Some(props[k].data)
    decreases k
  {
    if k > 0 {
      LettersApart(table[0].name, table[k].name);
      FindAt(props[1..], table[1..], k - 1);
    }
  }
}
