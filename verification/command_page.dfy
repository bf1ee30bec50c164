/** The command ring as one caller at a time sees it, and the table of ops behind
    it. */
module CommandPage {
  import opened Words
  import opened CommandRing
  import opened CommandUntrusted

  // --- push() and drain() uninterrupted --------------------------------------------

  /** push()'s accesses. */
  function PushSteps(command: Record): seq<Step> {
    [Push(command), Check, StoreField, StoreField, StoreField, Publish]
  }

  /** drain()'s accesses when `n` commands wait. */
  function TakeSteps(n: nat): seq<Step> {
    if n == 0 then [Release] else [ReadField, ReadField, ReadField, HandOver] + TakeSteps(n - 1)
  }

  /** What is left of a drain, run to its end with nothing in between. */
  lemma {:induction false} TakesAll(s: State, n: nat) returns (t: State)
    requires |s.slots| == SLOTS && s.consumer.Draining? && s.consumer.fields == 0 && n <= SLOTS
    requires s.consumer.write == Wrap(s.consumer.index + n)
    ensures Run(s, TakeSteps(n)) == Some(t)
    ensures t.delivered == s.delivered + SlotRun(s.slots, s.consumer.index, n)
    ensures t.consumer.Resting? && t.last == Minus64(s.consumer.write, s.consumer.read)
    ensures t.widx == s.widx && t.slots == s.slots && t.producer == s.producer
    ensures t.ridx == if s.consumer.write != s.consumer.read then s.consumer.write else s.ridx
    decreases n
  {
    var c := s.consumer;
    ModUnique(c.index, 0, c.index, TWO_64);
    SameMod(c.index, c.index + n, TWO_64);
    if n == 0 {
      t := TakesNone(s);
    } else {
      var u := TakesOne(s);
      WrapShift(c.index, n);
      t := TakesAll(u, n - 1);
      OneThenRest(s, u, t, n);
    }
  }

  lemma TakesNone(s: State) returns (t: State)
    requires |s.slots| == SLOTS && s.consumer.Draining? && s.consumer.index == s.consumer.write
    ensures Run(s, TakeSteps(0)) == Some(t) && t == Apply(s, Release)
  {
    t := Apply(s, Release);
    assert [Release][1..] == [] && Run(t, []) == Some(t);
  }

  lemma OneThenRest(s: State, u: State, t: State, n: nat)
    requires 0 < n <= SLOTS == |s.slots| && s.consumer.Draining? && u.consumer.Draining? && u.slots == s.slots
    requires Run(s, [ReadField, ReadField, ReadField, HandOver]) == Some(u) && Run(u, TakeSteps(n - 1)) == Some(t)
    requires u.consumer.index == Wrap(s.consumer.index + 1)
    requires u.delivered == s.delivered + [s.slots[Spot(s.consumer.index)]]
    requires t.delivered == u.delivered + SlotRun(s.slots, u.consumer.index, n - 1)
    ensures Run(s, TakeSteps(n)) == Some(t)
    ensures t.delivered == s.delivered + SlotRun(s.slots, s.consumer.index, n)
  {
    Shifted(s.slots, s.consumer.index, n);
    RunJoin(s, [ReadField, ReadField, ReadField, HandOver], TakeSteps(n - 1));
  }

  lemma WrapShift(index: u64, n: nat)
    requires n > 0
    ensures Wrap(index + n) == Wrap(Wrap(index + 1) + (n - 1))
  {
    ModSplit(index + 1, TWO_64);
    ModShift(Wrap(index + 1) + (n - 1), (index + 1) / TWO_64, TWO_64);
  }

  lemma Shifted(slots: seq<Record>, index: u64, n: nat)
    requires 0 < n <= SLOTS == |slots|
    ensures [slots[Spot(index)]] + SlotRun(slots, Wrap(index + 1), n - 1) == SlotRun(slots, index, n)
  {
    var left, right := [slots[Spot(index)]] + SlotRun(slots, Wrap(index + 1), n - 1), SlotRun(slots, index, n);
    forall j | 0 <= j < n ensures left[j] == right[j] {
      if j > 0 {
        SameSpot(index, j);
      }
    }
  }

  lemma SameSpot(index: u64, j: nat)
    requires j > 0
    ensures Spot(Wrap(index + 1) + (j - 1)) == Spot(index + j)
  {
    WrapShift(index, j);
    SpotOfWrap(Wrap(index + 1) + (j - 1));
    SpotOfWrap(index + j);
  }

  lemma TakesOne(s: State) returns (u: State)
    requires |s.slots| == SLOTS && s.consumer.Draining? && s.consumer.fields == 0 && s.consumer.index != s.consumer.write
    ensures Run(s, [ReadField, ReadField, ReadField, HandOver]) == Some(u)
    ensures u == s.(consumer := s.consumer.(index := Wrap(s.consumer.index + 1), got := BLANK),
                    delivered := s.delivered + [s.slots[Spot(s.consumer.index)]])
  {
    var c, r := s.consumer, s.slots[Spot(s.consumer.index)];
    var s1 := s.(consumer := c.(fields := 1, got := c.got.(op := r.op)));
    var s2 := s.(consumer := c.(fields := 2, got := Record(r.op, r.a, c.got.b)));
    var s3 := s.(consumer := c.(fields := 3, got := r));
    assert Apply(s, ReadField) == s1;
    assert Apply(s1, ReadField) == s2;
    assert Apply(s2, ReadField) == s3;
    u := Apply(s3, HandOver);
    Run4(s, s1, s2, s3, u, ReadField, ReadField, ReadField, HandOver);
  }

  /** drain()'s accesses on a page nobody else touches. */
  function DrainSteps(s: State): seq<Step>
    requires |s.slots| == SLOTS
  {
    [Drain, Sample] + if Minus64(s.widx, s.ridx) > SLOTS then [Resync] else TakeSteps(Minus64(s.widx, s.ridx))
  }

  /** An uninterrupted drain hands over everything that waits and nothing else. */
  lemma DrainAlone(s: State) returns (t: State)
    requires Quiescent(s)
    ensures Run(s, DrainSteps(s)) == Some(t)
    ensures t.delivered == Waiting(s.widx, s.ridx, s.slots) && t.last == |t.delivered|
    ensures t.ridx == s.widx && t.widx == s.widx && t.slots == s.slots && t.producer.Idle? && t.consumer.Resting?
  {
    var n := Minus64(s.widx, s.ridx);
    var a := Apply(s, Drain);
    var b := Apply(a, Sample);
    RangeIsUnsigned(s.widx, s.ridx);
    BackMod(s.widx, s.ridx, TWO_64);
    Run2(s, a, b, Drain, Sample);
    if n > SLOTS {
      t := Apply(b, Resync);
      assert Run(t, []) == Some(t) && [Resync][1..] == [];
      RunJoin(s, [Drain, Sample], [Resync]);
    } else {
      t := TakesAll(b, n);
      RunJoin(s, [Drain, Sample], TakeSteps(n));
      ModUnique(0, 0, 0, TWO_64);
    }
  }

  // --- The ring object --------------------------------------------------------------

  class Ring {
    var placed: bool
    var widx: u64
    var ridx: u64
    const records: array<Record>

    /** Inert: what runs before the page is placed. */
    constructor ()
      ensures !placed && fresh(records) && records.Length == SLOTS
    {
      placed, widx, ridx := false, 0, 0;
      records := new Record[SLOTS](_ => BLANK);
    }

    /** format() and place(): both indices back to zero, the records left alone. */
    method Place()
      requires records.Length == SLOTS
      modifies this
      ensures placed && widx == 0 && ridx == 0 && Contents() == []
    {
      placed, widx, ridx := true, 0, 0;
      ModUnique(0, 0, 0, TWO_64);
    }

    /** The page with nobody inside a call. */
    ghost function View(): State
      reads this, records
      requires records.Length == SLOTS
    {
      State(widx, ridx, records[..], Idle, Resting, ridx, Contents(), [], 0, 0, 0, 0)
    }

    ghost function Contents(): seq<Record>
      reads this, records
      requires records.Length == SLOTS
    {
      Waiting(widx, ridx, records[..])
    }

    method Enqueue(command: Record) returns (ok: bool)
      requires records.Length == SLOTS
      modifies this, records
      ensures ok <==> old(placed && Minus64(widx, ridx) < SLOTS)
      ensures placed == old(placed)
      ensures !ok ==> View() == old(View())
      ensures ok ==>
              && Contents() == old(Contents()) + [command]
              && Run(old(View()), PushSteps(command)) == Some(View())
    {
      if !placed {
        return false;
      }
      var write, read := widx, ridx;
      if Minus64(write, read) >= SLOTS {
        return false;
      }
      ghost var was := View();
      var i := write % SLOTS;
      records[i] := records[i].(op := command.op);
      records[i] := records[i].(a := command.a);
      records[i] := records[i].(b := command.b);
      widx := (write + 1) % TWO_64;
      assert records[..] == was.slots[Spot(write) := command];
      OneMoreWaits(was.widx, was.ridx, was.slots, command);
      ghost var t := Pushes(was, command);
      return true;
    }

    /** Every command that waits, oldest first; what is past the ring's depth is
        skipped, not obeyed. */
    method Collect() returns (count: nat, handed: seq<Record>)
      requires records.Length == SLOTS
      modifies this
      ensures placed == old(placed) && widx == old(widx) && records[..] == old(records[..])
      ensures !placed ==> count == 0 && handed == [] && ridx == old(ridx)
      ensures placed ==> count == |handed| && handed == old(Contents()) && ridx == widx && Contents() == []
      ensures placed ==> exists t :: Run(old(View()), DrainSteps(old(View()))) == Some(t) && Shows(t, count, handed)
    {
      if !placed {
        return 0, [];
      }
      ghost var t := DrainAlone(View());
      var read, write := ridx, widx;
      ModUnique(0, 0, 0, TWO_64);
      var ahead := Ahead(write, read);
      if ahead < 0 || ahead > SLOTS {
        ridx := write;
        assert Shows(t, 0, []);
        return 0, [];
      }
      handed := CopyRun(read, write);
      if write != read {
        ridx := write;
      }
      count := ahead;
      assert Shows(t, count, handed);
    }

    /** The page is as this state has it, and a drain just gave this. */
    ghost predicate Shows(t: State, count: nat, handed: seq<Record>)
      reads this, records
    {
      && t.widx == widx && t.ridx == ridx && t.slots == records[..] && t.producer.Idle? && t.consumer.Resting?
      && t.delivered == handed && t.last == count
    }

    /** The drain's loop: each record from `read` up to `write`. */
    method CopyRun(read: u64, write: u64) returns (handed: seq<Record>)
      requires records.Length == SLOTS && Minus64(write, read) <= SLOTS
      ensures handed == SlotRun(records[..], read, Minus64(write, read))
    {
      ghost var ahead := Minus64(write, read);
      var index := read;
      handed := [];
      BackMod(write, read, TWO_64);
      ModUnique(read, 0, read, TWO_64);
      while index != write
        invariant |handed| <= ahead && index == Wrap(read + |handed|)
        invariant forall j :: 0 <= j < |handed| ==> handed[j] == records[Spot(read + j)]
        decreases ahead - |handed|
      {
        SameMod(read + |handed|, read + ahead, TWO_64);
        SpotOfWrap(read + |handed|);
        handed := handed + [records[index % SLOTS]];
        NextMod(read + |handed| - 1, TWO_64);
        index := (index + 1) % TWO_64;
      }
      SameMod(read + |handed|, read + ahead, TWO_64);
    }
  }

  lemma OneMoreWaits(widx: u64, ridx: u64, slots: seq<Record>, command: Record)
    requires |slots| == SLOTS && Minus64(widx, ridx) < SLOTS
    ensures Waiting(Wrap(widx + 1), ridx, slots[Spot(widx) := command]) == Waiting(widx, ridx, slots) + [command]
  {
    var n := Minus64(widx, ridx);
    OneFurther(widx, ridx);
    var after := SlotRun(slots[Spot(widx) := command], ridx, n + 1);
    var before := SlotRun(slots, ridx, n) + [command];
    forall j | 0 <= j < n + 1 ensures after[j] == before[j] {
      if j < n {
        SlotsDistinct(ridx + j, ridx + n, SLOTS);
        assert Spot(ridx + j) != Spot(ridx + n);
      } else {
        assert after[j] == slots[Spot(widx) := command][Spot(ridx + n)];
      }
    }
  }

  lemma OneFurther(widx: u64, ridx: u64)
    requires Minus64(widx, ridx) < SLOTS
    ensures Minus64(Wrap(widx + 1), ridx) == Minus64(widx, ridx) + 1
    ensures Spot(ridx + Minus64(widx, ridx)) == Spot(widx)
  {
    var n := Minus64(widx, ridx);
    BackMod(widx, ridx, TWO_64);
    NextMod(ridx + n, TWO_64);
    ModUnique(ridx, 0, ridx, TWO_64);
    MinusMod(ridx + n + 1, ridx, TWO_64);
    SpotOfWrap(ridx + n);
  }
}
