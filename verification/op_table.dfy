/** The op table: dispatching through it and advertising it agree. */
module OpTables {
  import opened Words
  import opened CommandRing

  const CAP: nat := 16
  const ANSWER_MASK: nat := 0xFFFF

  type u16 = x: nat | x <= ANSWER_MASK
  type Handler = nat

  datatype Arg = Arg(kind: byte, lo: u32, hi: u32, def: u32)
  const NO_ARG := Arg(0, 1, 0, 0)

  datatype Op = Op(op: u16, words: byte, a: Arg, b: Arg, run: Option<Handler>)
  const NO_OP := Op(0, 0, NO_ARG, NO_ARG, None)

  /** static_cast<std::uint16_t>(op) */
  function Truncated(op: u64): u16 { op % (ANSWER_MASK + 1) }

  /** What dispatch comes to: no op claims the command, or this handler runs it. */
  datatype Answer = Unknown | Ran(handler: Handler)

  /** One op as a host reads it in the page. */
  datatype Row = Row(op: u16, words: byte, a: Arg, b: Arg)

  function AsRow(entry: Op): Row { Row(entry.op, entry.words, entry.a, entry.b) }

  /** Every entry is callable and no opcode is claimed twice. */
  ghost predicate Sound(entries: seq<Op>) {
    && |entries| <= CAP
    && (forall i :: 0 <= i < |entries| ==> entries[i].op != 0 && entries[i].run.Some?)
    && (forall i, j :: 0 <= i < j < |entries| ==> entries[i].op != entries[j].op)
  }

  ghost predicate Claims(entries: seq<Op>, op: nat) {
    exists i :: 0 <= i < |entries| && entries[i].op == op
  }

  class OpTable {
    const row: array<Op>
    var count: nat

    ghost predicate Valid()
      reads this, row
    {
      row.Length == CAP && count <= CAP && Sound(row[..count])
    }

    ghost function Contents(): seq<Op>
      reads this, row
      requires count <= row.Length
    {
      row[..count]
    }

    constructor ()
      ensures Valid() && Contents() == [] && fresh(row)
    {
      row := new Op[CAP](_ => NO_OP);
      count := 0;
    }

    method Find(op: u16) returns (at: Option<nat>)
      requires Valid()
      ensures at.Some? <==> Claims(Contents(), op)
      ensures at.Some? ==> at.value < count && row[at.value].op == op
    {
      for i := 0 to count
        invariant forall j :: 0 <= j < i ==> row[j].op != op
      {
        if row[i].op == op {
          assert Contents()[i].op == op;
          return Some(i);
        }
      }
      return None;
    }

    /** Appends, or changes nothing and says which. */
    method Declare(entry: Op) returns (ok: bool)
      requires Valid()
      modifies this, row
      ensures Valid()
      ensures ok <==> old(count < CAP) && entry.op != 0 && entry.run.Some? && !Claims(old(Contents()), entry.op)
      ensures Contents() == if ok then old(Contents()) + [entry] else old(Contents())
    {
      if count == row.Length || entry.op == 0 || entry.run.None? {
        return false;
      }
      var taken := Find(entry.op);
      if taken.Some? {
        return false;
      }
      ghost var before := Contents();
      row[count] := entry;
      count := count + 1;
      assert row[..count] == before + [entry];
      StaysSound(before, entry);
      return true;
    }

    /** The opcode is loaded twice, from a record the producer can still write: once
        for the width check and once, truncated, for the search. An unclaimed opcode
        runs something only if it passed the check as another and is wide itself. */
    method Dispatch(checked: u64, searched: u64) returns (answer: Answer)
      requires Valid()
      ensures answer.Ran? <==> checked <= ANSWER_MASK && Claims(Contents(), Truncated(searched))
      ensures answer.Ran? ==>
              exists i :: 0 <= i < |Contents()| && Contents()[i].op == Truncated(searched)
                          && Contents()[i].run == Some(answer.handler)
      ensures checked == searched ==> (answer.Ran? <==> Claims(Contents(), searched))
      ensures answer.Ran? ==> (Claims(Contents(), searched) <==> searched <= ANSWER_MASK)
    {
      if checked > ANSWER_MASK {
        return Unknown;
      }
      var at := Find(Truncated(searched));
      if at.None? {
        return Unknown;
      }
      assert Contents()[at.value] == row[at.value];
      return Ran(row[at.value].run.value);
    }

    /** The rows format() writes into the page. */
    method Rows() returns (rows: seq<Row>)
      requires Valid()
      ensures |rows| == count && forall i :: 0 <= i < count ==> rows[i] == AsRow(row[i])
    {
      rows := [];
      for i := 0 to count
        invariant |rows| == i && forall j :: 0 <= j < i ==> rows[j] == AsRow(row[j])
      {
        rows := rows + [AsRow(row[i])];
      }
    }
  }

  lemma StaysSound(entries: seq<Op>, entry: Op)
    requires Sound(entries) && |entries| < CAP && entry.op != 0 && entry.run.Some? && !Claims(entries, entry.op)
    ensures Sound(entries + [entry])
  {
    forall i | 0 <= i < |entries| ensures entries[i].op != entry.op {}
  }

  /** What is advertised is what is accepted: a command is carried out exactly when
      a row names its opcode, and one row names each. */
  lemma AdvertisedIsAccepted(entries: seq<Op>, rows: seq<Row>, op: nat)
    requires Sound(entries) && |rows| == |entries| && forall i :: 0 <= i < |rows| ==> rows[i] == AsRow(entries[i])
    ensures Claims(entries, op) <==> exists i :: 0 <= i < |rows| && rows[i].op == op
    ensures forall i, j :: 0 <= i < |rows| && 0 <= j < |rows| && rows[i].op == op == rows[j].op ==> i == j
    ensures op == 0 || op > ANSWER_MASK ==> !Claims(entries, op)
  {
    if Claims(entries, op) {
      var i :| 0 <= i < |entries| && entries[i].op == op;
      assert rows[i].op == op;
    }
  }
}
