/** The guest's own reader of the blob it is handed. */
module FdtGuest {
  import opened Words
  import opened Fdt

  const MEMORY: seq<byte> := [109, 101, 109, 111, 114, 121]
  const CPUS: seq<byte> := [99, 112, 117, 115]
  const CPU: seq<byte> := [99, 112, 117]
  const REG: seq<byte> := [114, 101, 103]
  const AT: byte := 64

  // --- What the calls of a tree say about a guest -----------------------------------

  datatype Node = Other | Memory | Cpus

  datatype Walk = Walk(depth: int, node: Node, memSize: nat, cpus: nat)
  const START := Walk(0, Other, 0, 0)

  /** `want`, up to an optional unit address. */
  predicate NameIs(name: seq<byte>, want: seq<byte>) {
    want <= name && (|name| == |want| || name[|want|] == AT)
  }

  function Met(w: Walk, call: Call): Walk {
    match call
    case Begin(name) =>
      var depth := w.depth + 1;
      if depth == 2 then
        w.(depth := depth, node := if NameIs(name, MEMORY) then Memory else if NameIs(name, CPUS) then Cpus else Other)
      else if depth == 3 && w.node.Cpus? && NameIs(name, CPU) then w.(depth := depth, cpus := w.cpus + 1)
      else w.(depth := depth)
    case End =>
      var depth := w.depth - 1;
      w.(depth := depth, node := if depth < 2 then Other else w.node)
    case Prop(name, data) =>
      if w.depth == 2 && w.node.Memory? && |data| >= 16 && name == REG then w.(memSize := FromBE64(data[8..16])) else w
  }

  function MetAll(w: Walk, calls: seq<Call>): Walk
    decreases |calls|
  {
    if calls == [] then w else MetAll(Met(w, calls[0]), calls[1..])
  }

  datatype Info = Info(ok: bool, memSize: nat, cpus: nat)
  const NOTHING := Info(false, 0, 0)

  /** What a guest is told by a tree. */
  function GuestInfo(calls: seq<Call>): Info { InfoOf(MetAll(START, calls)) }

  function InfoOf(w: Walk): Info { Info(w.cpus > 0 && w.memSize > 0, w.memSize, w.cpus) }

  // --- The reader as it runs -----------------------------------------------------------

  /** What a parse comes to. `Escapes` stands for every read outside the blob, and
      for a position past what 32 bits hold. */
  datatype Outcome = Parsed(info: Info) | Escapes

  /** One aligned big-endian load, or nothing outside the blob. */
  function Load(blob: seq<byte>, at: nat): Option<u32> {
    if at + 4 <= |blob| then Some(At32(blob, at)) else None
  }

  /** The length of the C string at `at`. */
  method NameLength(blob: seq<byte>, at: nat) returns (len: Option<nat>)
    ensures len.None? <==> at > |blob| || UntilNul(blob[at..]).None?
    ensures len.Some? ==>
              && len.value == |UntilNul(blob[at..]).value| && at + len.value < |blob| && blob[at + len.value] == 0
              && UntilNul(blob[at..]).value == blob[at..at + len.value] && NoNul(blob[at..at + len.value])
  {
    if at > |blob| {
      return None;
    }
    var n := 0;
    while at + n < |blob| && blob[at + n] != 0
      invariant at + n <= |blob|
      invariant UntilNul(blob[at..]).Some? <==> UntilNul(blob[at + n..]).Some?
      invariant UntilNul(blob[at..]).Some? ==>
                  |UntilNul(blob[at..]).value| == n + |UntilNul(blob[at + n..]).value|
    {
      assert blob[at + n..][1..] == blob[at + (n + 1)..];
      n := n + 1;
    }
    if at + n >= |blob| {
      return None;
    }
    assert UntilNul(blob[at..]).value == blob[at..][..n] == blob[at..at + n];
    return Some(n);
  }

  /** fdt_name_is, on a name whose end has been found. */
  method NameMatches(blob: seq<byte>, at: nat, len: nat, want: seq<byte>) returns (matches: bool)
    requires at + len < |blob| && blob[at + len] == 0 && NoNul(blob[at..at + len]) && NoNul(want)
    ensures matches == NameIs(blob[at..at + len], want)
  {
    var i := 0;
    while i < |want|
      invariant i <= |want| && i <= len && blob[at..at + i] == want[..i]
    {
      if blob[at + i] != want[i] {
        assert i < len ==> blob[at..at + len][i] == blob[at + i];
        return false;
      }
      assert blob[at..at + len + 1][i] == blob[at + i];
      i := i + 1;
    }
    assert want == want[..|want|];
    assert i < len ==> blob[at..at + len][i] == blob[at + i];
    matches := blob[at + i] == 0 || blob[at + i] == AT;
    assert i < len ==> blob[at..at + len][i] != 0;
  }

  /** fdt_streq against a literal: nothing when the comparison leaves the blob. */
  method StringIs(blob: seq<byte>, at: nat, want: seq<byte>) returns (same: Option<bool>)
    requires NoNul(want)
    ensures at <= |blob| && UntilNul(blob[at..]).Some? ==> same == Some(UntilNul(blob[at..]).value == want)
  {
    if at > |blob| {
      return None;
    }
    ghost var name := UntilNul(blob[at..]);
    var i := 0;
    while i < |want| && at + i < |blob| && blob[at + i] == want[i]
      invariant i <= |want| && at + i <= |blob|
      invariant name.Some? ==> i <= |name.value| && name.value[..i] == want[..i]
    {
      assert name.Some? ==> blob[at..][i] == blob[at + i];
      i := i + 1;
    }
    if at + i >= |blob| {
      return None;
    }
    assert name.Some? ==> blob[at..][i] == blob[at + i];
    assert name.Some? && name.value == want ==> i == |want|;
    return Some(if i < |want| then false else blob[at + i] == 0);
  }

  /** What a node's name changes. */
  method OnBegin(blob: seq<byte>, at: nat, len: nat, w: Walk) returns (next: Walk)
    requires at + len < |blob| && blob[at + len] == 0 && NoNul(blob[at..at + len])
    ensures next == Met(w, Begin(blob[at..at + len]))
  {
    next := w.(depth := w.depth + 1);
    if next.depth == 2 {
      var memory := NameMatches(blob, at, len, MEMORY);
      var cpus := NameMatches(blob, at, len, CPUS);
      next := next.(node := if memory then Memory else if cpus then Cpus else Other);
    } else if next.depth == 3 && next.node.Cpus? {
      var cpu := NameMatches(blob, at, len, CPU);
      if cpu {
        next := next.(cpus := next.cpus + 1);
      }
    }
  }

  /** This call is the property whose name and data lie here. */
  predicate PropAs(blob: seq<byte>, name: nat, at: nat, len: nat, call: Option<Call>) {
    && call.Some? && call.value.Prop? && at + len <= |blob| && call.value.data == blob[at..at + len]
    && name <= |blob| && UntilNul(blob[name..]) == Some(call.value.name)
  }

  /** What a property changes: nothing unless it is the memory node's `reg`. */
  method OnProp(blob: seq<byte>, name: nat, at: nat, len: nat, w: Walk, ghost call: Option<Call>)
    returns (next: Option<Walk>)
    ensures PropAs(blob, name, at, len, call) ==> next == Some(Met(w, call.value))
  {
    if !(w.depth == 2 && w.node.Memory? && len >= 16) {
      return Some(w);
    }
    var reg := StringIs(blob, name, REG);
    if reg.None? {
      return None;
    }
    if !reg.value {
      return Some(w);
    }
    var high := Load(blob, at + 8);
    var low := Load(blob, at + 12);
    if high.None? || low.None? {
      return None;
    }
    if at + len <= |blob| {
      CellPair(blob, at, len);
    }
    assert PropAs(blob, name, at, len, call) ==> call.value.data[8..16] == blob[at..at + len][8..16];
    return Some(w.(memSize := high.value * TWO_32 + low.value));
  }

  lemma CellPair(blob: seq<byte>, at: nat, len: nat)
    requires at + len <= |blob| && len >= 16
    ensures FromBE64(blob[at..at + len][8..16]) == At32(blob, at + 8) * TWO_32 + At32(blob, at + 12)
  {
    var data := blob[at..at + len];
    SliceSlice(blob, at, at + len, 8, 16);
    SliceSlice(blob, at + 8, at + 16, 0, 4);
    SliceSlice(blob, at + 8, at + 16, 4, 8);
  }

  method ParseGuest(dtb: Option<seq<byte>>) returns (outcome: Outcome)
    ensures dtb.None? ==> outcome == Parsed(NOTHING)
    ensures dtb.Some? && |dtb.value| >= 4 && At32(dtb.value, 0) != MAGIC ==> outcome == Parsed(NOTHING)
    ensures dtb.Some? && |dtb.value| < TWO_32 && ReadBlob(dtb.value).Some? ==>
              outcome == Parsed(GuestInfo(ReadBlob(dtb.value).value))
  {
    if dtb.None? {
      return Parsed(NOTHING);
    }
    var blob := dtb.value;
    var magic := Load(blob, 0);
    if magic.None? {
      return Escapes;
    }
    if magic.value != MAGIC {
      return Parsed(NOTHING);
    }
    var offStruct, offStrings, sizeStruct := Load(blob, 8), Load(blob, 12), Load(blob, 36);
    if offStruct.None? || offStrings.None? || sizeStruct.None? {
      return Escapes;
    }
    outcome := ParseBlocks(blob, offStruct.value, offStrings.value, sizeStruct.value);
  }

  // --- Where the tokens are --------------------------------------------------------------

  /** The token at `pos` of the block, a nop where it stands for no call, and where
      the next one is. */
  predicate TokenAt(blob: seq<byte>, s: nat, strs: nat, pos: nat, call: Option<Call>, next: nat) {
    && s + pos + 4 <= |blob|
    && match call
       case None => At32(blob, s + pos) == NOP && next == pos + 4
       case Some(End) => At32(blob, s + pos) == END_NODE && next == pos + 4
       case Some(Begin(name)) =>
         && At32(blob, s + pos) == BEGIN_NODE && UntilNul(blob[s + pos + 4..]) == Some(name)
         && next == pos + 4 + Up4(|name| + 1)
       case Some(Prop(name, data)) =>
         At32(blob, s + pos) == PROP && PropBody(blob, s + pos, strs, name, data) && next == pos + 12 + Up4(|data|)
  }

  /** A property's size, name and data, at `at`. */
  predicate PropBody(blob: seq<byte>, at: nat, strs: nat, name: seq<byte>, data: seq<byte>) {
    && at + 12 + |data| <= |blob| && At32(blob, at + 4) == |data| && blob[at + 12..at + 12 + |data|] == data
    && strs + At32(blob, at + 8) <= |blob| && UntilNul(blob[strs + At32(blob, at + 8)..]) == Some(name)
  }

  datatype Mark = Mark(pos: nat, call: Option<Call>)

  /** Where the k'th token starts: the end token after them all. */
  function PosOf(marks: seq<Mark>, k: nat, stop: nat): nat { if k < |marks| then marks[k].pos else stop }

  /** The tokens lie end to end from `pos` to the end token at `stop`. */
  ghost predicate Marked(blob: seq<byte>, s: nat, strs: nat, marks: seq<Mark>, pos: nat, stop: nat) {
    && PosOf(marks, 0, stop) == pos
    && (forall k :: 0 <= k < |marks| ==> TokenAt(blob, s, strs, marks[k].pos, marks[k].call, PosOf(marks, k + 1, stop)))
    && s + stop + 4 <= |blob| && At32(blob, s + stop) == END
  }

  function CallsOf(marks: seq<Mark>): seq<Call> {
    if marks == [] then []
    else (if marks[0].call.Some? then [marks[0].call.value] else []) + CallsOf(marks[1..])
  }

  /** The walk as the marks are met. */
  function MetMarks(marks: seq<Mark>): Walk {
    if marks == [] then START
    else
      var w, call := MetMarks(marks[..|marks| - 1]), marks[|marks| - 1].call;
      if call.Some? then Met(w, call.value) else w
  }

  lemma {:induction false} MetMarksFrom(w: Walk, done: seq<Mark>, left: seq<Mark>)
    requires MetMarks(done) == w
    ensures MetMarks(done + left) == MetAll(w, CallsOf(left))
    decreases |left|
  {
    if left == [] {
      assert done + left == done;
    } else {
      var more := done + [left[0]];
      assert more[..|more| - 1] == done;
      assert done + left == more + left[1..];
      if left[0].call.Some? {
        assert CallsOf(left)[1..] == CallsOf(left[1..]);
      } else {
        assert CallsOf(left) == CallsOf(left[1..]);
      }
      MetMarksFrom(MetMarks(more), more, left[1..]);
    }
  }

  // --- From what a blob reads as to where its tokens are -------------------------------------

  lemma {:induction false} UntilNulMore(b: seq<byte>, more: seq<byte>)
    requires UntilNul(b).Some?
    ensures UntilNul(b + more) == UntilNul(b)
    decreases |b|
  {
    if b[0] != 0 {
      assert (b + more)[1..] == b[1..] + more;
      UntilNulMore(b[1..], more);
    }
  }

  /** A string inside a block is the same string in the blob. */
  lemma StringInBlock(blob: seq<byte>, s: nat, block: seq<byte>, at: nat)
    requires s + |block| <= |blob| && block == blob[s..s + |block|] && at <= |block| && UntilNul(block[at..]).Some?
    ensures UntilNul(blob[s + at..]) == UntilNul(block[at..])
  {
    UntilNulMore(block[at..], blob[s + |block|..]);
    assert blob[s + at..] == block[at..] + blob[s + |block|..];
  }

  /** `rest` is what the blob holds from `at` to the end of its structure block. */
  ghost predicate Rest(blob: seq<byte>, at: nat, rest: seq<byte>) {
    at + |rest| <= |blob| && rest == blob[at..at + |rest|]
  }

  lemma WordInRest(blob: seq<byte>, at: nat, rest: seq<byte>, k: nat)
    requires Rest(blob, at, rest) && k + 4 <= |rest|
    ensures At32(rest, k) == At32(blob, at + k)
  {
    SliceSlice(blob, at, at + |rest|, k, k + 4);
  }

  lemma RestFrom(blob: seq<byte>, at: nat, rest: seq<byte>, n: nat)
    requires Rest(blob, at, rest) && n <= |rest|
    ensures Rest(blob, at + n, rest[n..])
  {
    assert rest[n..] == blob[at + n..at + |rest|];
  }

  lemma BeginPlaced(blob: seq<byte>, s: nat, strs: nat, pos: nat, rest: seq<byte>, name: seq<byte>)
    requires Rest(blob, s + pos, rest) && |rest| >= 4 && At32(rest, 0) == BEGIN_NODE
    requires UntilNul(rest[4..]) == Some(name)
    ensures TokenAt(blob, s, strs, pos, Some(Begin(name)), pos + 4 + Up4(|name| + 1))
  {
    WordInRest(blob, s + pos, rest, 0);
    RestFrom(blob, s + pos, rest, 4);
    assert rest[4..][0..] == rest[4..];
    StringInBlock(blob, s + pos + 4, rest[4..], 0);
  }

  lemma PropPlaced(blob: seq<byte>, at: nat, strs: nat, rest: seq<byte>, strings: seq<byte>, len: nat, off: nat,
                   name: seq<byte>)
    requires Rest(blob, at, rest) && Rest(blob, strs, strings) && 12 + Up4(len) <= |rest|
    requires len == At32(rest, 4) && off == At32(rest, 8)
    requires off <= |strings| && UntilNul(strings[off..]) == Some(name)
    ensures At32(blob, at) == At32(rest, 0) && PropBody(blob, at, strs, name, rest[12..12 + len])
  {
    PropWords(blob, at, rest);
    PropData(blob, at, rest, len);
    StringInBlock(blob, strs, strings, off);
  }

  lemma PropWords(blob: seq<byte>, at: nat, rest: seq<byte>)
    requires Rest(blob, at, rest) && |rest| >= 12
    ensures At32(blob, at) == At32(rest, 0) && At32(blob, at + 4) == At32(rest, 4) && At32(blob, at + 8) == At32(rest, 8)
  {
    WordInRest(blob, at, rest, 0);
    WordInRest(blob, at, rest, 4);
    WordInRest(blob, at, rest, 8);
  }

  lemma PropData(blob: seq<byte>, at: nat, rest: seq<byte>, len: nat)
    requires Rest(blob, at, rest) && 12 + len <= |rest|
    ensures rest[12..12 + len] == blob[at + 12..at + 12 + len]
  {
    SliceSlice(blob, at, at + |rest|, 12, 12 + len);
  }

  /** A token read is where the blob holds it. */
  lemma TokenRead(blob: seq<byte>, s: nat, strs: nat, pos: nat, rest: seq<byte>, strings: seq<byte>)
    requires Rest(blob, s + pos, rest) && Rest(blob, strs, strings)
    ensures var front := NextToken(rest, strings);
            && (front.Step? ==> TokenAt(blob, s, strs, pos, front.call, pos + front.size))
            && (front.Stop? ==> |rest| >= 4 && At32(blob, s + pos) == END)
  {
    if |rest| >= 4 {
      WordInRest(blob, s + pos, rest, 0);
      if At32(rest, 0) == BEGIN_NODE {
        BeginRead(blob, s, strs, pos, rest, strings);
      } else if At32(rest, 0) == PROP {
        PropRead(blob, s, strs, pos, rest, strings);
      }
    }
  }

  lemma BeginRead(blob: seq<byte>, s: nat, strs: nat, pos: nat, rest: seq<byte>, strings: seq<byte>)
    requires Rest(blob, s + pos, rest) && |rest| >= 4 && At32(rest, 0) == BEGIN_NODE
    ensures var front := NextToken(rest, strings);
            !front.Stop? && (front.Step? ==> TokenAt(blob, s, strs, pos, front.call, pos + front.size))
  {
    if UntilNul(rest[4..]).Some? {
      BeginPlaced(blob, s, strs, pos, rest, UntilNul(rest[4..]).value);
    }
  }

  lemma PropRead(blob: seq<byte>, s: nat, strs: nat, pos: nat, rest: seq<byte>, strings: seq<byte>)
    requires Rest(blob, s + pos, rest) && Rest(blob, strs, strings) && |rest| >= 4 && At32(rest, 0) == PROP
    ensures var front := NextToken(rest, strings);
            !front.Stop? && (front.Step? ==> TokenAt(blob, s, strs, pos, front.call, pos + front.size))
  {
    if NextToken(rest, strings).Step? {
      var len: nat, off: nat := At32(rest, 4), At32(rest, 8);
      PropPlaced(blob, s + pos, strs, rest, strings, len, off, UntilNul(strings[off..]).value);
    }
  }

  lemma {:induction false} MarksOf(blob: seq<byte>, s: nat, strs: nat, pos: nat, rest: seq<byte>, strings: seq<byte>)
    returns (marks: seq<Mark>, stop: nat)
    requires Rest(blob, s + pos, rest) && Rest(blob, strs, strings) && ReadCalls(rest, strings).Some?
    ensures Marked(blob, s, strs, marks, pos, stop) && Some(CallsOf(marks)) == ReadCalls(rest, strings)
    ensures stop + 4 <= pos + |rest|
    decreases |rest|
  {
    var front := NextToken(rest, strings);
    TokenRead(blob, s, strs, pos, rest, strings);
    if front.Stop? {
      marks, stop := [], pos;
    } else {
      var more;
      more, stop := MarksAfter(blob, s, strs, pos, rest, strings, front);
      marks := [Mark(pos, front.call)] + more;
      OneMoreMark(blob, s, strs, pos, front.call, pos + front.size, more, stop);
    }
  }

  /** The marks past the first token, and what they say of the whole. */
  lemma {:induction false} MarksAfter(blob: seq<byte>, s: nat, strs: nat, pos: nat, rest: seq<byte>, strings: seq<byte>,
                                      front: Front)
    returns (more: seq<Mark>, stop: nat)
    requires Rest(blob, s + pos, rest) && Rest(blob, strs, strings) && ReadCalls(rest, strings).Some?
    requires front == NextToken(rest, strings) && front.Step?
    ensures Marked(blob, s, strs, more, pos + front.size, stop) && stop + 4 <= pos + |rest|
    ensures ReadCalls(rest, strings) == Some((if front.call.Some? then [front.call.value] else []) + CallsOf(more))
    decreases |rest|, 0
  {
    RestFrom(blob, s + pos, rest, front.size);
    more, stop := MarksOf(blob, s, strs, pos + front.size, rest[front.size..], strings);
    assert [] + CallsOf(more) == CallsOf(more);
  }

  lemma OneMoreMark(blob: seq<byte>, s: nat, strs: nat, pos: nat, call: Option<Call>, next: nat, more: seq<Mark>, stop: nat)
    requires Marked(blob, s, strs, more, next, stop) && TokenAt(blob, s, strs, pos, call, next)
    ensures Marked(blob, s, strs, [Mark(pos, call)] + more, pos, stop)
    ensures CallsOf([Mark(pos, call)] + more) == (if call.Some? then [call.value] else []) + CallsOf(more)
  {
    var marks := [Mark(pos, call)] + more;
    assert marks[1..] == more;
    forall k | 0 <= k < |marks| ensures TokenAt(blob, s, strs, marks[k].pos, marks[k].call, PosOf(marks, k + 1, stop)) {
      assert PosOf(marks, k + 1, stop) == PosOf(more, k, stop);
      if k > 0 {
        assert TokenAt(blob, s, strs, more[k - 1].pos, more[k - 1].call, PosOf(more, k, stop));
      }
    }
  }

  // --- The loop ---------------------------------------------------------------------------

  /** One turn of the loop: on to the next token, stop at the end, or leave the blob. */
  datatype Turn = On(pos: nat, walk: Walk) | Stop | Leave

  method TakeBegin(blob: seq<byte>, s: nat, strs: nat, pos: nat, w: Walk, ghost call: Option<Call>, ghost next: nat)
    returns (turn: Turn)
    requires s + pos + 4 <= |blob| && At32(blob, s + pos) == BEGIN_NODE
    ensures !turn.Stop? && (turn.On? ==> turn.pos > pos)
    ensures TokenAt(blob, s, strs, pos, call, next) ==> call.Some? && turn == On(next, Met(w, call.value))
  {
    var len := NameLength(blob, s + pos + 4);
    if len.None? {
      return Leave;
    }
    var walk := OnBegin(blob, s + pos + 4, len.value, w);
    turn := On(pos + 4 + Up4(len.value + 1), walk);
  }

  method TakeProp(blob: seq<byte>, s: nat, strs: nat, pos: nat, w: Walk, ghost call: Option<Call>, ghost next: nat)
    returns (turn: Turn)
    requires s + pos + 4 <= |blob| && At32(blob, s + pos) == PROP
    ensures !turn.Stop? && (turn.On? ==> turn.pos > pos)
    ensures TokenAt(blob, s, strs, pos, call, next) ==> call.Some? && turn == On(next, Met(w, call.value))
  {
    var length, nameOff := Load(blob, s + pos + 4), Load(blob, s + pos + 8);
    if length.None? || nameOff.None? {
      return Leave;
    }
    var walk := OnProp(blob, strs + nameOff.value, s + pos + 12, length.value, w, call);
    if walk.None? {
      return Leave;
    }
    turn := On(pos + 12 + Up4(length.value), walk.value);
  }

  method Take(blob: seq<byte>, s: nat, strs: nat, pos: nat, w: Walk, ghost call: Option<Call>, ghost next: nat)
    returns (turn: Turn)
    ensures turn.On? ==> turn.pos > pos
    ensures s + pos + 4 <= |blob| && At32(blob, s + pos) == END ==> turn.Stop?
    ensures TokenAt(blob, s, strs, pos, call, next) ==>
              turn == On(next, if call.Some? then Met(w, call.value) else w)
  {
    var token := Load(blob, s + pos);
    if token.None? {
      return Leave;
    }
    if token.value == BEGIN_NODE {
      turn := TakeBegin(blob, s, strs, pos, w, call, next);
    } else if token.value == END_NODE {
      return On(pos + 4, Met(w, End));
    } else if token.value == PROP {
      turn := TakeProp(blob, s, strs, pos, w, call, next);
    } else if token.value == NOP {
      return On(pos + 4, w);
    } else {
      return Turn.Stop;
    }
  }

  lemma BlobMarks(blob: seq<byte>, s: nat, strs: nat, size: u32) returns (marks: seq<Mark>, stop: nat)
    requires ReadBlob(blob).Some? && s == At32(blob, 8) && strs == At32(blob, 12) && size == At32(blob, 36)
    ensures Marked(blob, s, strs, marks, 0, stop) && stop + 4 <= size
    ensures InfoOf(MetMarks(marks)) == GuestInfo(ReadBlob(blob).value)
  {
    var blocks := BlocksOf(blob).value;
    marks, stop := MarksOf(blob, s, strs, 0, blocks.st, blocks.strings);
    MetMarksFrom(START, [], marks);
    assert [] + marks == marks;
  }

  lemma NextMark(marks: seq<Mark>, stop: nat, k: nat, pos: nat, w: Walk)
    requires Follows(marks, stop, k, pos, w) && k < |marks|
    ensures Follows(marks, stop, k + 1, PosOf(marks, k + 1, stop),
                    if marks[k].call.Some? then Met(w, marks[k].call.value) else w)
  {
    assert marks[..k + 1][..k] == marks[..k];
  }

  /** No token starts past the end token. */
  lemma {:induction false} MarkInside(blob: seq<byte>, s: nat, strs: nat, marks: seq<Mark>, stop: nat, size: nat, k: nat)
    requires Marked(blob, s, strs, marks, PosOf(marks, 0, stop), stop) && stop + 4 <= size && k < |marks|
    ensures PosOf(marks, k, stop) < PosOf(marks, k + 1, stop) <= stop
    decreases |marks| - k
  {
    assert TokenAt(blob, s, strs, marks[k].pos, marks[k].call, PosOf(marks, k + 1, stop));
    if k + 1 < |marks| {
      MarkInside(blob, s, strs, marks, stop, size, k + 1);
    }
  }

  method ParseBlocks(blob: seq<byte>, s: nat, strs: nat, size: u32) returns (outcome: Outcome)
    requires |blob| >= HEADER_SIZE && At32(blob, 0) == MAGIC
    requires s == At32(blob, 8) && strs == At32(blob, 12) && size == At32(blob, 36)
    ensures |blob| < TWO_32 && ReadBlob(blob).Some? ==> outcome == Parsed(GuestInfo(ReadBlob(blob).value))
  {
    ghost var marks: seq<Mark>, stop: nat := [], 0;
    if |blob| < TWO_32 && ReadBlob(blob).Some? {
      marks, stop := BlobMarks(blob, s, strs, size);
    }
    outcome := ParseTokens(blob, s, strs, size, marks, stop);
  }

  /** The loop: through the tokens where the header's blocks are, as far as its size
      and the blob allow. */
  method ParseTokens(blob: seq<byte>, s: nat, strs: nat, size: u32, ghost marks: seq<Mark>, ghost stop: nat)
    returns (outcome: Outcome)
    ensures Sized(blob, s, strs, marks, stop, size) ==> outcome == Parsed(InfoOf(MetMarks(marks)))
  {
    ghost var k: nat := 0;
    var pos: nat, w := 0, START;
    while pos + 4 <= size
      invariant Sized(blob, s, strs, marks, stop, size) ==> Follows(marks, stop, k, pos, w) && pos + 4 <= size
      decreases size + 4 - pos
    {
      var turn := TakeNext(blob, s, strs, pos, w, marks, stop, size, k);
      if turn.Leave? || (turn.On? && turn.pos + 4 >= TWO_32) {
        return Escapes;
      }
      if turn.Stop? {
        break;
      }
      k := k + 1;
      pos, w := turn.pos, turn.walk;
    }
    assert k == |marks| ==> marks[..k] == marks;
    return Parsed(InfoOf(w));
  }

  /** The tokens lie in the blob and end inside the block. */
  ghost predicate Sized(blob: seq<byte>, s: nat, strs: nat, marks: seq<Mark>, stop: nat, size: u32) {
    Marked(blob, s, strs, marks, 0, stop) && stop + 4 <= size
  }

  method TakeNext(blob: seq<byte>, s: nat, strs: nat, pos: nat, w: Walk, ghost marks: seq<Mark>, ghost stop: nat,
                  ghost size: u32, ghost k: nat)
    returns (turn: Turn)
    ensures turn.On? ==> turn.pos > pos
    ensures Sized(blob, s, strs, marks, stop, size) && Follows(marks, stop, k, pos, w) ==>
              if k < |marks| then turn.On? && Follows(marks, stop, k + 1, turn.pos, turn.walk) && turn.pos + 4 <= size
              else turn.Stop?
  {
    ghost var call, next := if k < |marks| then marks[k].call else None, PosOf(marks, k + 1, stop);
    if Sized(blob, s, strs, marks, stop, size) && Follows(marks, stop, k, pos, w) {
      if k < |marks| {
        MarkOn(blob, s, strs, pos, w, marks, stop, size, k);
      } else {
        MarkEnds(blob, s, strs, marks, stop);
        assert pos == stop;
      }
    }
    turn := Take(blob, s, strs, pos, w, call, next);
  }

  lemma MarkOn(blob: seq<byte>, s: nat, strs: nat, pos: nat, w: Walk, marks: seq<Mark>, stop: nat, size: u32, k: nat)
    requires Sized(blob, s, strs, marks, stop, size) && Follows(marks, stop, k, pos, w) && k < |marks|
    ensures TokenAt(blob, s, strs, pos, marks[k].call, PosOf(marks, k + 1, stop))
    ensures PosOf(marks, k + 1, stop) + 4 <= size
    ensures Follows(marks, stop, k + 1, PosOf(marks, k + 1, stop),
                    if marks[k].call.Some? then Met(w, marks[k].call.value) else w)
  {
    MarkAt(blob, s, strs, marks, stop, k);
    MarkInside(blob, s, strs, marks, stop, size, k);
    NextMark(marks, stop, k, pos, w);
  }

  lemma MarkEnds(blob: seq<byte>, s: nat, strs: nat, marks: seq<Mark>, stop: nat)
    requires Marked(blob, s, strs, marks, 0, stop)
    ensures s + stop + 4 <= |blob| && At32(blob, s + stop) == END
  {}

  lemma MarkAt(blob: seq<byte>, s: nat, strs: nat, marks: seq<Mark>, stop: nat, k: nat)
    requires Marked(blob, s, strs, marks, 0, stop) && k < |marks|
    ensures TokenAt(blob, s, strs, PosOf(marks, k, stop), marks[k].call, PosOf(marks, k + 1, stop))
  {}

  /** The walk has met the first k marks and stands at the next. */
  ghost predicate Follows(marks: seq<Mark>, stop: nat, k: nat, pos: nat, w: Walk) {
    k <= |marks| && pos == PosOf(marks, k, stop) && w == MetMarks(marks[..k])
  }
}
