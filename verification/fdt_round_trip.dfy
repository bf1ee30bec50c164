/** Whatever is written reads back. */
module FdtRoundTrip {
  import opened Words
  import opened Fdt

  // --- The writer's state, from the calls made --------------------------------------

  /** Every name handed to the writer is a C string and every size fits its field. */
  predicate Encodable(calls: seq<Call>) {
    forall i :: 0 <= i < |calls| ==> EncodableCall(calls[i])
  }

  predicate EncodableCall(call: Call) { call.End? || NoNul(call.name) }

  /** Each name is in the strings once, where its offset says, and the strings hold
      nothing else: they are `order`, end to end. */
  ghost predicate Interns(strings: seq<byte>, offsets: map<seq<byte>, nat>) {
    forall name :: name in offsets ==> NamedAt(strings, offsets[name], name)
  }

  predicate NamedAt(strings: seq<byte>, at: nat, name: seq<byte>) {
    at + |name| < |strings| && strings[at..at + |name|] == name && strings[at + |name|] == 0 && NoNul(name)
  }

  lemma InternedKeeps(w: Image, name: seq<byte>)
    requires Interns(w.strings, w.offsets) && NoNul(name)
    ensures var v := Interned(w, name);
            && Interns(v.strings, v.offsets)
            && forall n :: n in w.offsets ==> n in v.offsets && v.offsets[n] == w.offsets[n]
  {
    var v := Interned(w, name);
    forall n | n in v.offsets ensures NamedAt(v.strings, v.offsets[n], n) {
      if n in w.offsets {
        assert NamedAt(w.strings, w.offsets[n], n);
        assert v.strings[v.offsets[n]..v.offsets[n] + |n|] == w.strings[w.offsets[n]..w.offsets[n] + |n|];
      }
    }
  }

  /** What the writer has is these calls' tokens and their names. */
  ghost predicate Holds(w: Image, calls: seq<Call>) {
    Interns(w.strings, w.offsets) && Named(calls, w.offsets) && w.st == Tokens(calls, w.offsets)
  }

  lemma {:induction false} WrittenIs(calls: seq<Call>)
    requires Encodable(calls)
    ensures Holds(AllWritten(calls), calls)
    decreases |calls|
  {
    if calls != [] {
      var before, last := calls[..|calls| - 1], calls[|calls| - 1];
      LastAndBefore(calls);
      WrittenIs(before);
      HoldsMore(before, last, AllWritten(before));
      assert calls == before + [last];
    }
  }

  lemma LastAndBefore(calls: seq<Call>)
    requires Encodable(calls) && calls != []
    ensures EncodableCall(calls[|calls| - 1]) && Encodable(calls[..|calls| - 1])
  {
    var before := calls[..|calls| - 1];
    assert EncodableCall(calls[|calls| - 1]);
    forall i | 0 <= i < |before| ensures EncodableCall(before[i]) {
      assert EncodableCall(calls[i]);
    }
  }

  lemma HoldsMore(before: seq<Call>, last: Call, w: Image)
    requires Holds(w, before) && EncodableCall(last)
    ensures Holds(Written(w, last), before + [last])
  {
    if last.Prop? {
      InternedKeeps(w, last.name);
    }
    OneMoreToken(before, last, w);
  }

  lemma OneMoreToken(before: seq<Call>, last: Call, w: Image)
    requires Named(before, w.offsets) && w.st == Tokens(before, w.offsets)
    requires last.Prop? ==>
               forall n :: n in w.offsets ==>
                 n in Interned(w, last.name).offsets && Interned(w, last.name).offsets[n] == w.offsets[n]
    ensures Named(before + [last], Written(w, last).offsets)
    ensures Written(w, last).st == Tokens(before + [last], Written(w, last).offsets)
  {
    var after := Written(w, last).offsets;
    TokensStable(before, w.offsets, after);
    TokensSnoc(before, last, after);
    TokensAligned(before, after);
    TokenWritten(w, last);
  }

  lemma TokenWritten(w: Image, call: Call)
    requires |w.st| % 4 == 0
    ensures call.Prop? ==> call.name in Written(w, call).offsets
    ensures Written(w, call).st == w.st + Token(call, Written(w, call).offsets)
  {
    match call
    case Begin(name) =>
      Aligned32(w.st, BE32(BEGIN_NODE), name + [0]);
      assert w.st + BE32(BEGIN_NODE) + name + [0] == w.st + (BE32(BEGIN_NODE) + (name + [0]));
    case End =>
    case Prop(name, data) =>
      var head := BE32(PROP) + BE32(|data|) + BE32(Interned(w, name).offsets[name]);
      Aligned32(w.st, head, data);
      assert w.st + BE32(PROP) + BE32(|data|) + BE32(Interned(w, name).offsets[name]) + data == w.st + (head + data);
  }

  lemma Aligned32(st: seq<byte>, head: seq<byte>, b: seq<byte>)
    requires |st| % 4 == 0 && |head| % 4 == 0
    ensures Padded(st + (head + b)) == st + (head + Padded(b))
  {
    SumAligned(|st|, |head|);
    PaddedAfter(st + head, b);
    assert st + (head + b) == (st + head) + b;
    assert st + (head + Padded(b)) == (st + head) + Padded(b);
  }

  // --- Tokens read back --------------------------------------------------------------

  lemma HeadOf(v: u32, rest: seq<byte>)
    ensures At32(BE32(v) + rest, 0) == v && (BE32(v) + rest)[4..] == rest
  {
    assert (BE32(v) + rest)[0..4] == BE32(v);
    BE32Back(v);
  }

  lemma ReadBegin(name: seq<byte>, rest: seq<byte>, strings: seq<byte>)
    requires NoNul(name)
    ensures NextToken(BE32(BEGIN_NODE) + Padded(name + [0]) + rest, strings) ==
            Step(Some(Begin(name)), 4 + Up4(|name| + 1))
  {
    var tail := Zeros(Up4(|name| + 1) - (|name| + 1)) + rest;
    assert BE32(BEGIN_NODE) + Padded(name + [0]) + rest == BE32(BEGIN_NODE) + (name + [0] + tail);
    HeadOf(BEGIN_NODE, name + [0] + tail);
    UntilNulBack(name, tail);
  }

  lemma ReadProp(name: seq<byte>, data: seq<byte>, off: u32, rest: seq<byte>, strings: seq<byte>)
    requires NamedAt(strings, off, name) && |data| < TWO_32
    ensures NextToken(BE32(PROP) + BE32(|data|) + BE32(off) + Padded(data) + rest, strings) ==
            Step(Some(Prop(name, data)), 12 + Up4(|data|))
  {
    var st := BE32(PROP) + BE32(|data|) + BE32(off) + Padded(data) + rest;
    PropFields(data, off, rest);
    NameBack(strings, off, name);
    assert st[12..12 + |data|] == data;
  }

  lemma PropFields(data: seq<byte>, off: u32, rest: seq<byte>)
    requires |data| < TWO_32
    ensures var st := BE32(PROP) + BE32(|data|) + BE32(off) + Padded(data) + rest;
            At32(st, 0) == PROP && At32(st, 4) == |data| && At32(st, 8) == off
  {
    var st := BE32(PROP) + BE32(|data|) + BE32(off) + Padded(data) + rest;
    assert st[0..4] == BE32(PROP) && st[4..8] == BE32(|data|) && st[8..12] == BE32(off);
    BE32Back(PROP);
    BE32Back(|data|);
    BE32Back(off);
  }

  lemma NameBack(strings: seq<byte>, off: nat, name: seq<byte>)
    requires NamedAt(strings, off, name)
    ensures off <= |strings| && UntilNul(strings[off..]) == Some(name)
  {
    var rest := strings[off + |name| + 1..];
    assert strings[off..] == name + [0] + rest;
    UntilNulBack(name, rest);
  }

  ghost predicate Fits(calls: seq<Call>, offsets: map<seq<byte>, nat>) {
    forall i :: 0 <= i < |calls| ==> FitsCall(calls[i], offsets)
  }

  predicate FitsCall(call: Call, offsets: map<seq<byte>, nat>) {
    call.Prop? ==> call.name in offsets && offsets[call.name] < TWO_32 && |call.data| < TWO_32
  }

  lemma FirstAndRest(calls: seq<Call>, offsets: map<seq<byte>, nat>)
    requires Encodable(calls) && Named(calls, offsets) && Fits(calls, offsets) && calls != []
    ensures EncodableCall(calls[0]) && FitsCall(calls[0], offsets)
    ensures Encodable(calls[1..]) && Named(calls[1..], offsets) && Fits(calls[1..], offsets)
  {
    assert EncodableCall(calls[0]) && FitsCall(calls[0], offsets);
    forall i | 0 <= i < |calls| - 1 ensures EncodableCall(calls[1..][i]) && FitsCall(calls[1..][i], offsets) {
      assert EncodableCall(calls[i + 1]) && FitsCall(calls[i + 1], offsets);
    }
  }

  lemma {:induction false} ReadTokens(calls: seq<Call>, offsets: map<seq<byte>, nat>, strings: seq<byte>)
    requires Encodable(calls) && Named(calls, offsets) && Interns(strings, offsets) && Fits(calls, offsets)
    ensures ReadCalls(Tokens(calls, offsets) + BE32(END), strings) == Some(calls)
    decreases |calls|
  {
    if calls == [] {
      HeadOf(END, []);
      assert Tokens(calls, offsets) + BE32(END) == BE32(END) + [];
    } else {
      FirstAndRest(calls, offsets);
      ReadTokens(calls[1..], offsets, strings);
      ReadOneMore(calls, offsets, strings);
    }
  }

  lemma ReadOneMore(calls: seq<Call>, offsets: map<seq<byte>, nat>, strings: seq<byte>)
    requires calls != [] && EncodableCall(calls[0]) && FitsCall(calls[0], offsets) && Interns(strings, offsets)
    requires Named(calls, offsets) && Named(calls[1..], offsets)
    requires ReadCalls(Tokens(calls[1..], offsets) + BE32(END), strings) == Some(calls[1..])
    ensures ReadCalls(Tokens(calls, offsets) + BE32(END), strings) == Some(calls)
  {
    var token, rest, end := Token(calls[0], offsets), Tokens(calls[1..], offsets), BE32(END);
    TokensFirst(calls, offsets);
    ReadToken(calls[0], offsets, strings, rest + end);
    ReadJoined(token, rest, end, strings, calls[0], calls[1..]);
    assert calls == [calls[0]] + calls[1..];
  }

  lemma TokensFirst(calls: seq<Call>, offsets: map<seq<byte>, nat>)
    requires calls != [] && Named(calls, offsets) && Named(calls[1..], offsets)
    ensures Tokens(calls, offsets) == Token(calls[0], offsets) + Tokens(calls[1..], offsets)
  {}

  lemma ReadJoined(token: seq<byte>, rest: seq<byte>, end: seq<byte>, strings: seq<byte>, call: Call, calls: seq<Call>)
    requires NextToken(token + (rest + end), strings) == Step(Some(call), |token|)
    requires ReadCalls(rest + end, strings) == Some(calls)
    ensures ReadCalls(token + rest + end, strings) == Some([call] + calls)
  {
    Associates(token, rest, end);
    OneRead(token, rest + end, strings, call, calls);
  }

  lemma OneRead(token: seq<byte>, rest: seq<byte>, strings: seq<byte>, call: Call, calls: seq<Call>)
    requires NextToken(token + rest, strings) == Step(Some(call), |token|) && ReadCalls(rest, strings) == Some(calls)
    ensures ReadCalls(token + rest, strings) == Some([call] + calls)
  {
    assert (token + rest)[|token|..] == rest;
  }

  lemma ReadToken(call: Call, offsets: map<seq<byte>, nat>, strings: seq<byte>, rest: seq<byte>)
    requires EncodableCall(call) && FitsCall(call, offsets) && Interns(strings, offsets)
    ensures NextToken(Token(call, offsets) + rest, strings) == Step(Some(call), |Token(call, offsets)|)
  {
    match call
    case Begin(name) => ReadBegin(name, rest, strings);
    case End => HeadOf(END_NODE, rest);
    case Prop(name, data) => ReadProp(name, data, offsets[name], rest, strings);
  }

  // --- The whole blob ------------------------------------------------------------------

  predicate Balanced(calls: seq<Call>) { Depth(calls) == 0 }

  function Depth(calls: seq<Call>): int {
    if calls == [] then 0
    else
      var last := calls[|calls| - 1];
      Depth(calls[..|calls| - 1]) + if last.Begin? then 1 else if last.End? then -1 else 0
  }

  lemma {:induction false} DepthIs(calls: seq<Call>)
    ensures AllWritten(calls).depth == Depth(calls)
    decreases |calls|
  {
    if calls != [] { DepthIs(calls[..|calls| - 1]); }
  }

  lemma Field(h: seq<byte>, before: seq<byte>, v: u32, rest: seq<byte>)
    requires h == before + BE32(v) + rest
    ensures At32(h, |before|) == v
  {
    assert h[|before|..|before| + 4] == BE32(v);
    BE32Back(v);
  }

  lemma TenWords(a: seq<byte>, b: seq<byte>, c: seq<byte>, d: seq<byte>, e: seq<byte>, f: seq<byte>, g: seq<byte>,
                 h: seq<byte>, i: seq<byte>, j: seq<byte>)
    requires |a| == |b| == |c| == |d| == |e| == |f| == |g| == |h| == |i| == |j| == 4
    ensures var s := a + b + c + d + e + f + g + h + i + j;
            s[0..4] == a && s[8..12] == c && s[12..16] == d && s[32..36] == i && s[36..40] == j
  {}

  lemma HeaderFields(total: nat, offStruct: u32, offStrings: u32, sizeStrings: u32, sizeStruct: u32)
    ensures HeaderSays(Header(total, offStruct, offStrings, sizeStrings, sizeStruct), offStruct, offStrings, sizeStrings, sizeStruct)
  {
    TenWords(BE32(MAGIC), BE32(total), BE32(offStruct), BE32(offStrings), BE32(HEADER_SIZE), BE32(17), BE32(16), BE32(0),
             BE32(sizeStrings), BE32(sizeStruct));
    BE32Back(MAGIC);
    BE32Back(offStruct);
    BE32Back(offStrings);
    BE32Back(sizeStrings);
    BE32Back(sizeStruct);
  }

  lemma FinishedBlocks(w: Image, blob: seq<byte>)
    requires Finished(w) == Some(blob)
    ensures BlocksOf(blob) == Some(Blocks(w.st + BE32(END), w.strings)) && |blob| < TWO_32
  {
    FinishedHeader(w, blob);
    FinishedSlices(w, blob);
  }

  /** What the fields of a blob's header say. */
  predicate HeaderSays(b: seq<byte>, offStruct: nat, offStrings: nat, sizeStrings: nat, sizeStruct: nat) {
    && |b| >= HEADER_SIZE
    && At32(b, 0) == MAGIC && At32(b, 8) == offStruct && At32(b, 12) == offStrings
    && At32(b, 32) == sizeStrings && At32(b, 36) == sizeStruct
  }

  lemma FinishedHeader(w: Image, blob: seq<byte>)
    requires Finished(w) == Some(blob)
    ensures var offStruct, size := HEADER_SIZE + RSVMAP_SIZE, |w.st| + 4;
            && |blob| == offStruct + size + |w.strings| < TWO_32
            && HeaderSays(blob, offStruct, offStruct + size, |w.strings|, size)
  {
    var offStruct, size := HEADER_SIZE + RSVMAP_SIZE, |w.st| + 4;
    FinishedSize(w, blob);
    var h, rest := FinishedParts(w, blob);
    SamePrefix(h, rest, offStruct, offStruct + size, |w.strings|, size);
  }

  lemma FinishedParts(w: Image, blob: seq<byte>) returns (h: seq<byte>, rest: seq<byte>)
    requires Finished(w) == Some(blob)
    ensures blob == h + rest && |h| == HEADER_SIZE
    ensures var offStruct, size := HEADER_SIZE + RSVMAP_SIZE, |w.st| + 4;
            HeaderSays(h, offStruct, offStruct + size, |w.strings|, size)
  {
    FinishedSize(w, blob);
    var offStruct, size := HEADER_SIZE + RSVMAP_SIZE, |w.st| + 4;
    var total := offStruct + size + |w.strings|;
    h := Header(total, offStruct, offStruct + size, |w.strings|, size);
    rest := Zeros(RSVMAP_SIZE) + (w.st + BE32(END)) + w.strings;
    HeaderFields(total, offStruct, offStruct + size, |w.strings|, size);
    Regrouped(h, Zeros(RSVMAP_SIZE), w.st + BE32(END), w.strings);
  }

  lemma FinishedSize(w: Image, blob: seq<byte>)
    requires Finished(w) == Some(blob)
    ensures |blob| == HEADER_SIZE + RSVMAP_SIZE + |w.st| + 4 + |w.strings| < TWO_32
  {}

  lemma Regrouped(a: seq<byte>, b: seq<byte>, c: seq<byte>, d: seq<byte>)
    ensures a + b + c + d == a + (b + c + d)
  {}

  lemma FinishedSlices(w: Image, blob: seq<byte>)
    requires Finished(w) == Some(blob)
    ensures var offStruct, size := HEADER_SIZE + RSVMAP_SIZE, |w.st| + 4;
            && |blob| == offStruct + size + |w.strings|
            && blob[offStruct..offStruct + size] == w.st + BE32(END)
            && blob[offStruct + size..offStruct + size + |w.strings|] == w.strings
  {}

  lemma SamePrefix(h: seq<byte>, rest: seq<byte>, offStruct: nat, offStrings: nat, sizeStrings: nat, sizeStruct: nat)
    requires |h| == HEADER_SIZE && HeaderSays(h, offStruct, offStrings, sizeStrings, sizeStruct)
    ensures HeaderSays(h + rest, offStruct, offStrings, sizeStrings, sizeStruct)
  {
    var b := h + rest;
    assert b[0..4] == h[0..4] && b[8..12] == h[8..12] && b[12..16] == h[12..16];
    assert b[32..36] == h[32..36] && b[36..40] == h[36..40];
  }

  lemma {:induction false} TokensCover(calls: seq<Call>, offsets: map<seq<byte>, nat>, strings: seq<byte>)
    requires Named(calls, offsets) && Interns(strings, offsets)
    requires |Tokens(calls, offsets)| < TWO_32 && |strings| < TWO_32
    ensures Fits(calls, offsets)
    decreases |calls|
  {
    if calls != [] {
      var rest := calls[1..];
      assert Named(rest, offsets);
      TokensCover(rest, offsets, strings);
      if calls[0].Prop? {
        assert NamedAt(strings, offsets[calls[0].name], calls[0].name);
        assert |Token(calls[0], offsets)| >= |calls[0].data|;
      }
      forall i | 0 <= i < |calls| ensures FitsCall(calls[i], offsets) {
        if i > 0 {
          assert FitsCall(rest[i - 1], offsets);
        }
      }
    }
  }

  /** Any calls at all: the writer gives no blob exactly when a node is left open, or
      one closed too many, or the blob outgrows its 32-bit sizes; every blob it gives
      has its structure block aligned, and reads back as the very calls exactly when no
      name in them holds a NUL, each name then kept whole. */
  lemma WritesReadBack(calls: seq<Call>)
    ensures var w := AllWritten(calls);
            && (Finished(w).None? <==>
                  !Balanced(calls) || HEADER_SIZE + RSVMAP_SIZE + |w.st| + 4 + |w.strings| >= TWO_32)
            && (Finished(w).Some? ==>
                  && (ReadBlob(Finished(w).value) == Some(calls) <==> Encodable(calls))
                  && |w.st| % 4 == 0 && (Encodable(calls) ==> Interns(w.strings, w.offsets)))
  {
    var w := AllWritten(calls);
    DepthIs(calls);
    StructureAligned(calls);
    if Encodable(calls) { WrittenIs(calls); }
    if Finished(w).Some? {
      var blob := Finished(w).value;
      if Encodable(calls) { EncodableReadsBack(calls); }
      if ReadBlob(blob) == Some(calls) { ReadIsEncodable(BlocksOf(blob).value.st, BlocksOf(blob).value.strings); }
    }
  }

  lemma EncodableReadsBack(calls: seq<Call>)
    requires Encodable(calls) && Finished(AllWritten(calls)).Some?
    ensures ReadBlob(Finished(AllWritten(calls)).value) == Some(calls)
  {
    var w := AllWritten(calls);
    WrittenIs(calls);
    FinishedBlocks(w, Finished(w).value);
    TokensCover(calls, w.offsets, w.strings);
    ReadTokens(calls, w.offsets, w.strings);
  }

  /** A reader's names end at the first NUL, so they hold none. */
  lemma {:induction false} ReadIsEncodable(st: seq<byte>, strings: seq<byte>)
    requires ReadCalls(st, strings).Some?
    ensures Encodable(ReadCalls(st, strings).value)
    decreases |st|
  {
    var front := NextToken(st, strings);
    if front.Step? {
      ReadIsEncodable(st[front.size..], strings);
      var rest := ReadCalls(st[front.size..], strings).value;
      if front.call.Some? {
        TokenIsEncodable(st, strings);
        EncodableFront(front.call.value, rest);
      }
    }
  }

  lemma TokenIsEncodable(st: seq<byte>, strings: seq<byte>)
    requires NextToken(st, strings).Step? && NextToken(st, strings).call.Some?
    ensures EncodableCall(NextToken(st, strings).call.value)
  {}

  lemma EncodableFront(first: Call, rest: seq<Call>)
    requires EncodableCall(first) && Encodable(rest)
    ensures Encodable([first] + rest)
  {
    var calls := [first] + rest;
    forall i | 0 <= i < |calls| ensures EncodableCall(calls[i]) {
      assert i > 0 ==> EncodableCall(rest[i - 1]);
    }
  }

  /** Whatever the names, every token ends on a multiple of four. */
  lemma {:induction false} StructureAligned(calls: seq<Call>)
    ensures |AllWritten(calls).st| % 4 == 0
    decreases |calls|
  {
    if calls != [] {
      StructureAligned(calls[..|calls| - 1]);
    }
  }

  // --- No name twice -----------------------------------------------------------------------

  function Names(calls: seq<Call>): set<seq<byte>> {
    set i | 0 <= i < |calls| && calls[i].Prop? :: calls[i].name
  }

  /** The bytes the names take, each once. */
  ghost function Sizes(names: set<seq<byte>>): nat {
    if names == {} then 0
    else
      var name :| name in names;
      |name| + 1 + Sizes(names - {name})
  }

  lemma {:induction false} SizesLess(names: set<seq<byte>>, name: seq<byte>)
    requires name in names
    ensures Sizes(names) == |name| + 1 + Sizes(names - {name})
    decreases |names|
  {
    var first :| first in names && Sizes(names) == |first| + 1 + Sizes(names - {first});
    if first != name {
      SizesLess(names - {first}, name);
      SizesLess(names - {name}, first);
      assert names - {first} - {name} == names - {name} - {first};
    }
  }

  /** The strings block is exactly as long as the distinct names with their NULs. */
  lemma {:induction false} StringsAreNames(calls: seq<Call>)
    ensures AllWritten(calls).offsets.Keys == Names(calls)
    ensures |AllWritten(calls).strings| == Sizes(Names(calls))
    decreases |calls|
  {
    if calls != [] {
      var before, last := calls[..|calls| - 1], calls[|calls| - 1];
      StringsAreNames(before);
      NamesSnoc(before, last);
      assert calls == before + [last];
      if last.Prop? && last.name !in Names(before) {
        SizesLess(Names(calls), last.name);
        assert Names(calls) - {last.name} == Names(before);
      }
    }
  }

  lemma NamesSnoc(before: seq<Call>, last: Call)
    ensures Names(before + [last]) == if last.Prop? then Names(before) + {last.name} else Names(before)
  {
    var calls := before + [last];
    forall n | n in Names(before) ensures n in Names(calls) {
      var i :| 0 <= i < |before| && before[i].Prop? && before[i].name == n;
      assert calls[i] == before[i];
    }
    if last.Prop? {
      assert calls[|before|] == last;
    }
  }
}
