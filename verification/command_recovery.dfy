/** What is left of a ring once its producer keeps the protocol again: from which
    pages nothing more is lost, and how it is lost from every other. */
module CommandRecovery {
  import opened Words
  import opened CommandRing
  import opened CommandUntrusted

  // --- What a page owes ----------------------------------------------------------

  /** The record a drain makes of a slot it has read `fields` fields of. */
  function Completed(slot: Record, got: Record, fields: nat): Record {
    Record(if fields > 0 then got.op else slot.op, if fields > 1 then got.a else slot.a, if fields > 2 then got.b else slot.b)
  }

  /** What the drain under way has still to hand over. */
  function Rest(slots: seq<Record>, c: Consumer): seq<Record>
    requires |slots| == SLOTS && c.Draining?
  {
    var n := Minus64(c.write, c.index);
    if n == 0 then []
    else [Completed(slots[Spot(c.index)], c.got, c.fields)] + SlotRun(slots, c.index + 1, n - 1)
  }

  /** Everything the ring will hand over if nothing more is pushed. */
  function Owed(s: State): seq<Record>
    requires |s.slots| == SLOTS
  {
    match s.consumer
    case Resting => Waiting(s.widx, s.ridx, s.slots)
    case Began(_) => Waiting(s.widx, s.ridx, s.slots)
    case Resyncing(write) => Waiting(s.widx, write, s.slots)
    case Draining(_, _, write, _, _) => Rest(s.slots, s.consumer) + Waiting(s.widx, write, s.slots)
  }

  /** No drain is part way to an index the producer has taken back. */
  predicate Recoverable(s: State) {
    match s.consumer
    case Resting => true
    case Began(_) => true
    case Resyncing(_) => Minus64(s.widx, s.ridx) >= SLOTS
    case Draining(read, _, write, _, _) => Minus64(write, read) <= Minus64(s.widx, read)
  }

  predicate ProducerSound(s: State) {
    match s.producer
    case Idle => true
    case Sampled(_, write) => write == s.widx
    case Storing(command, write, fields) =>
      && write == s.widx && fields <= FIELDS && Minus64(s.widx, s.ridx) < SLOTS && |s.slots| == SLOTS
      && Partly(s.slots[Spot(s.widx)], command, fields)
  }

  predicate Good(s: State) { Bounded(s) && ProducerSound(s) && Recoverable(s) }

  // --- Arithmetic of three indices ------------------------------------------------------

  lemma MinusSplit(a: u64, b: u64, c: u64)
    requires Minus64(b, a) <= Minus64(c, a)
    ensures Minus64(c, b) == Minus64(c, a) - Minus64(b, a)
  {}

  lemma MinusPast(a: u64, b: u64, c: u64)
    requires Minus64(c, a) < Minus64(b, a)
    ensures Minus64(c, b) == TWO_64 + Minus64(c, a) - Minus64(b, a)
  {}

  lemma MinusNext(a: u64, b: u64)
    requires Minus64(a, b) < SLOTS
    ensures Minus64(Wrap(a + 1), b) == Minus64(a, b) + 1
  {}

  /** Where a drain stands between the index it began at and the one it sampled. */
  lemma Standing(s: State)
    requires Bounded(s) && s.consumer.Draining?
    ensures var c := s.consumer;
            && Minus64(c.index, c.read) == Taken(s) <= Minus64(c.write, c.read)
            && Minus64(c.write, c.index) == Minus64(c.write, c.read) - Taken(s)
  {
    var c := s.consumer;
    ModUnique(c.read, 0, c.read, TWO_64);
    MinusMod(c.read + Taken(s), c.read, TWO_64);
    MinusSplit(c.read, c.index, c.write);
  }

  lemma StandingOn(s: State)
    requires Bounded(s) && Enabled(s, HandOver)
    ensures var c, d := s.consumer, Apply(s, HandOver).consumer;
            0 < Minus64(c.write, c.index) == Minus64(d.write, d.index) + 1
  {
    HandOverBounded(s);
    Standing(s);
    Standing(Apply(s, HandOver));
  }

  // --- Runs of slots ------------------------------------------------------------------------

  lemma SpotShift(a: nat, j: nat)
    ensures Spot(Wrap(a) + j) == Spot(a + j)
  {
    ModSplit(a, TWO_64);
    ModOfMod(a, TWO_64, SLOTS);
    ModSplit(Wrap(a), SLOTS);
    ModSplit(a, SLOTS);
    ModShift(a % SLOTS + j, Wrap(a) / SLOTS, SLOTS);
    ModShift(a % SLOTS + j, a / SLOTS, SLOTS);
  }

  lemma RunWrap(slots: seq<Record>, a: nat, n: nat)
    requires |slots| == SLOTS
    ensures SlotRun(slots, Wrap(a), n) == SlotRun(slots, a, n)
  {
    forall j | 0 <= j < n ensures SlotRun(slots, Wrap(a), n)[j] == SlotRun(slots, a, n)[j] {
      SpotShift(a, j);
    }
  }

  lemma RunHead(slots: seq<Record>, a: nat, n: nat)
    requires |slots| == SLOTS && n > 0
    ensures SlotRun(slots, a, n) == [slots[Spot(a)]] + SlotRun(slots, a + 1, n - 1)
  {
    var tail := SlotRun(slots, a + 1, n - 1);
    forall j | 1 <= j < n ensures SlotRun(slots, a, n)[j] == tail[j - 1] {
      assert a + 1 + (j - 1) == a + j;
    }
  }

  /** Storing past a run, within one lap, leaves the run alone. */
  lemma RunKept(slots: seq<Record>, a: nat, n: nat, k: nat, at: nat, r: Record)
    requires |slots| == SLOTS && n <= k < SLOTS && at == Spot(a + k)
    ensures SlotRun(slots[at := r], a, n) == SlotRun(slots, a, n)
  {
    var kept, before := SlotRun(slots[at := r], a, n), SlotRun(slots, a, n);
    forall j | 0 <= j < n ensures kept[j] == before[j] {
      SlotsDistinct(a + j, a + k, SLOTS);
      assert kept[j] == slots[at := r][Spot(a + j)];
    }
  }

  lemma SpotFrom(write: u64, read: u64)
    ensures Spot(write) == Spot(read + Minus64(write, read))
  {
    BackMod(write, read, TWO_64);
    SpotOfWrap(read + Minus64(write, read));
  }

  lemma WaitingKept(slots: seq<Record>, widx: u64, from: u64, r: Record)
    requires |slots| == SLOTS && Minus64(widx, from) < SLOTS
    ensures Waiting(widx, from, slots[Spot(widx) := r]) == Waiting(widx, from, slots)
  {
    SpotFrom(widx, from);
    RunKept(slots, from, Minus64(widx, from), Minus64(widx, from), Spot(widx), r);
  }

  lemma WaitingMore(slots: seq<Record>, widx: u64, from: u64)
    requires |slots| == SLOTS && Minus64(widx, from) < SLOTS
    ensures Waiting(Wrap(widx + 1), from, slots) == Waiting(widx, from, slots) + [slots[Spot(widx)]]
  {
    MinusNext(widx, from);
    SpotFrom(widx, from);
  }

  /** The drain's own slots are out of an honest producer's reach. */
  lemma RestKept(s: State, r: Record)
    requires Bounded(s) && Recoverable(s) && s.consumer.Draining? && Minus64(s.widx, s.ridx) < SLOTS
    ensures Rest(s.slots[Spot(s.widx) := r], s.consumer) == Rest(s.slots, s.consumer)
  {
    var c := s.consumer;
    var n, k := Minus64(c.write, c.index), Minus64(s.widx, c.index);
    Standing(s);
    MinusSplit(c.read, c.index, s.widx);
    SpotFrom(s.widx, c.index);
    if n > 0 {
      SlotsDistinct(c.index, c.index + k, SLOTS);
      assert c.index + 1 + (k - 1) == c.index + k;
      RunKept(s.slots, c.index + 1, n - 1, k - 1, Spot(s.widx), r);
    }
  }

  // --- One honest step -----------------------------------------------------------------------

  /** Between two states: what was owed or pushed since is handed over or owed. */
  ghost predicate Balanced(s: State, t: State)
    requires |s.slots| == SLOTS
  {
    && |t.slots| == SLOTS && s.accepted <= t.accepted && s.delivered <= t.delivered
    && t.delivered[|s.delivered|..] + Owed(t) == Owed(s) + t.accepted[|s.accepted|..]
  }

  lemma StoreFieldGood(s: State)
    requires Good(s) && Enabled(s, StoreField)
    ensures Good(Apply(s, StoreField)) && Owed(Apply(s, StoreField)) == Owed(s)
  {
    var r := WithField(s.slots[Spot(s.widx)], s.producer.command, s.producer.fields);
    match s.consumer
    case Resting => WaitingKept(s.slots, s.widx, s.ridx, r);
    case Began(_) => WaitingKept(s.slots, s.widx, s.ridx, r);
    case Resyncing(_) =>
    case Draining(read, _, write, _, _) =>
      MinusSplit(read, write, s.widx);
      WaitingKept(s.slots, s.widx, write, r);
      RestKept(s, r);
  }

  lemma PublishOwed(s: State)
    requires Good(s) && Enabled(s, Publish)
    ensures Owed(Apply(s, Publish)) == Owed(s) + [s.producer.command]
  {
    match s.consumer
    case Resting => WaitingMore(s.slots, s.widx, s.ridx);
    case Began(_) => WaitingMore(s.slots, s.widx, s.ridx);
    case Resyncing(_) =>
    case Draining(read, _, write, _, _) =>
      MinusSplit(read, write, s.widx);
      WaitingMore(s.slots, s.widx, write);
  }

  lemma PublishGood(s: State)
    requires Good(s) && Enabled(s, Publish)
    ensures Good(Apply(s, Publish)) && Owed(Apply(s, Publish)) == Owed(s) + [s.producer.command]
  {
    MinusNext(s.widx, s.ridx);
    PublishOwed(s);
  }

  lemma SampleGood(s: State)
    requires Good(s) && Enabled(s, Sample)
    ensures Good(Apply(s, Sample)) && Owed(Apply(s, Sample)) == Owed(s)
  {
    SampleBounded(s);
    RangeIsUnsigned(s.widx, s.ridx);
    ModUnique(0, 0, 0, TWO_64);
    assert Waiting(s.widx, s.widx, s.slots) == [];
    var n := Minus64(s.widx, s.ridx);
    if 0 < n <= SLOTS {
      RunHead(s.slots, s.ridx, n);
    }
  }

  lemma HandOverOwed(s: State)
    requires Bounded(s) && Enabled(s, HandOver)
    ensures Owed(s) == [s.consumer.got] + Owed(Apply(s, HandOver))
  {
    var c, d := s.consumer, Apply(s, HandOver).consumer;
    var rest, waiting := Rest(s.slots, d), Waiting(s.widx, c.write, s.slots);
    StandingOn(s);
    RestOn(s.slots, c, d);
    assert Completed(s.slots[Spot(c.index)], c.got, FIELDS) == c.got;
    assert Owed(Apply(s, HandOver)) == rest + waiting;
    assert ([c.got] + rest) + waiting == [c.got] + (rest + waiting);
  }

  lemma HandOverGood(s: State)
    requires Good(s) && Enabled(s, HandOver)
    ensures Good(Apply(s, HandOver)) && Owed(s) == [s.consumer.got] + Owed(Apply(s, HandOver))
  {
    HandOverOwed(s);
    HandOverBounded(s);
  }

  /** One slot on, the head is gone and nothing of the next is read. */
  lemma RestOn(slots: seq<Record>, c: Consumer, d: Consumer)
    requires |slots| == SLOTS && c.Draining? && d == c.(index := Wrap(c.index + 1), fields := 0, got := BLANK)
    requires 0 < Minus64(c.write, c.index) == Minus64(d.write, d.index) + 1
    ensures Rest(slots, c) == [Completed(slots[Spot(c.index)], c.got, c.fields)] + Rest(slots, d)
  {
    var n := Minus64(c.write, c.index);
    RunWrap(slots, c.index + 1, n - 1);
    if n > 1 {
      RunHead(slots, Wrap(c.index + 1), n - 1);
    }
  }

  lemma ReleaseGood(s: State)
    requires Good(s) && Enabled(s, Release)
    ensures Good(Apply(s, Release)) && Owed(Apply(s, Release)) == Owed(s)
  {
    var c := s.consumer;
    ModUnique(0, 0, 0, TWO_64);
    MinusSplit(c.read, c.write, s.widx);
    assert Rest(s.slots, c) == [];
  }

  lemma ReadFieldGood(s: State)
    requires Good(s) && Enabled(s, ReadField)
    ensures Good(Apply(s, ReadField)) && Owed(Apply(s, ReadField)) == Owed(s)
  {
    StepBounded(s, ReadField);
    var c, slot := s.consumer, s.slots[Spot(s.consumer.index)];
    assert Completed(slot, WithField(c.got, slot, c.fields), c.fields + 1) == Completed(slot, c.got, c.fields);
  }

  /** A call begun or refused, or ridx stored where the drain resynchronises. */
  lemma QuietGood(s: State, step: Step)
    requires Good(s) && Enabled(s, step) && (step.Push? || step.Check? || step.Drain? || step.Resync?)
    ensures Good(Apply(s, step)) && Owed(Apply(s, step)) == Owed(s)
  {}

  lemma StepGood(s: State, step: Step)
    requires Good(s) && Enabled(s, step) && Honest(step)
    ensures Good(Apply(s, step)) && Balanced(s, Apply(s, step))
  {
    match step
    case StoreField => StoreFieldGood(s);
    case Publish => PublishGood(s);
    case Sample => SampleGood(s);
    case HandOver => HandOverGood(s);
    case ReadField => ReadFieldGood(s);
    case Release => ReleaseGood(s);
    case _ => QuietGood(s, step);
  }

  lemma BalancedOn(s: State, t: State, u: State)
    requires |s.slots| == SLOTS && |t.slots| == SLOTS && Balanced(s, t) && Balanced(t, u)
    ensures Balanced(s, u)
  {
    var got, more := t.delivered[|s.delivered|..], u.delivered[|t.delivered|..];
    var pushed, later := t.accepted[|s.accepted|..], u.accepted[|t.accepted|..];
    assert u.delivered[|s.delivered|..] == got + more;
    assert u.accepted[|s.accepted|..] == pushed + later;
    assert got + more + Owed(u) == got + (Owed(t) + later) == Owed(s) + pushed + later;
  }

  lemma {:induction false} GoodRun(s: State, steps: seq<Step>)
    requires Good(s) && Run(s, steps).Some? && AllHonest(steps)
    ensures Good(Run(s, steps).value) && Balanced(s, Run(s, steps).value)
    decreases |steps|
  {
    if steps != [] {
      var u := Apply(s, steps[0]);
      assert Honest(steps[0]);
      StepGood(s, steps[0]);
      GoodRun(u, steps[1..]);
      BalancedOn(s, u, Run(s, steps).value);
    }
  }

  // --- What a producer is promised ---------------------------------------------------------------

  ghost predicate AllHonest(steps: seq<Step>) { forall i :: 0 <= i < |steps| ==> Honest(steps[i]) }

  /** What is handed over since `s` is these records and then the later pushes, each
      once and in order; whenever no drain is under way, what is missing waits. */
  ghost predicate Served(s: State, t: State, owed: seq<Record>) {
    && |t.slots| == SLOTS && s.accepted <= t.accepted && s.delivered <= t.delivered
    && var got, pushed := t.delivered[|s.delivered|..], t.accepted[|s.accepted|..];
       && got <= owed + pushed
       && (t.consumer.Resting? ==> got + Waiting(t.widx, t.ridx, t.slots) == owed + pushed)
  }

  /** Whatever a producer that keeps the protocol does from here, it is served. */
  ghost predicate Delivers(s: State, owed: seq<Record>) {
    forall steps :: Run(s, steps).Some? && AllHonest(steps) ==> Served(s, Run(s, steps).value, owed)
  }

  lemma RecoverableDelivers(s: State)
    requires Bounded(s) && s.producer.Idle? && Recoverable(s)
    ensures Delivers(s, Owed(s))
  {
    forall steps | Run(s, steps).Some? && AllHonest(steps) ensures Served(s, Run(s, steps).value, Owed(s)) {
      GoodRun(s, steps);
    }
  }

  // --- How it goes wrong from everywhere else ------------------------------------------------------

  /** The drain under way, alone, up to the index it sampled. */
  lemma {:induction false} Drains(s: State) returns (steps: seq<Step>, t: State)
    requires Bounded(s) && s.consumer.Draining?
    ensures Run(s, steps) == Some(t) && AllHonest(steps) && Bounded(t) && s.delivered <= t.delivered
    ensures t.consumer.Draining? && t.consumer.index == t.consumer.write == s.consumer.write
    ensures t.consumer.read == s.consumer.read
    ensures t.widx == s.widx && t.ridx == s.ridx && t.slots == s.slots && t.accepted == s.accepted && t.producer == s.producer
    decreases Left(s)
  {
    var c := s.consumer;
    if c.index == c.write {
      steps, t := [], s;
    } else {
      var step := if c.fields < FIELDS then ReadField else HandOver;
      StepBounded(s, step);
      DrainEnds(s, step);
      var rest;
      rest, t := Drains(Apply(s, step));
      steps := [step] + rest;
      assert steps[1..] == rest;
    }
  }

  /** Nothing waits at an index the producer has yet to reach again. */
  lemma NothingWaits(widx: u64, write: u64, read: u64, slots: seq<Record>)
    requires |slots| == SLOTS && Minus64(widx, read) <= SLOTS
    requires Minus64(widx, read) <= Minus64(write, read) && (Minus64(write, read) <= SLOTS || Minus64(widx, read) == SLOTS)
    ensures Waiting(widx, write, slots) == []
  {
    if Minus64(widx, read) < Minus64(write, read) {
      MinusPast(read, write, widx);
    } else {
      MinusSplit(read, write, widx);
    }
  }

  lemma Releases(s: State) returns (t: State)
    requires Bounded(s) && s.consumer.Draining? && s.consumer.index == s.consumer.write
    ensures Run(s, [Release]) == Some(t) && t.consumer.Resting? && t.ridx == s.consumer.write
    ensures t.widx == s.widx && t.slots == s.slots && t.accepted == s.accepted && t.delivered == s.delivered
  {
    t := Apply(s, Release);
    assert Run(t, [Release][1..]) == Some(t);
  }

  /** A drain on its way past the write index: a command pushed once it has read its
      last slot is published and then jumped over, handed over neither by this drain
      nor by any other. */
  lemma LostInDrain(s: State, command: Record) returns (quiet: seq<Step>, t: State, busy: seq<Step>, u: State)
    requires Bounded(s) && s.producer.Idle? && s.consumer.Draining? && !Recoverable(s)
    ensures Run(s, quiet) == Some(t) && AllHonest(quiet) && t.consumer.Resting? && |t.slots| == SLOTS
    ensures Run(s, busy) == Some(u) && AllHonest(busy) && u.consumer.Resting? && |u.slots| == SLOTS
    ensures t.accepted == s.accepted && u.accepted == s.accepted + [command]
    ensures s.delivered <= t.delivered == u.delivered
    ensures Waiting(t.widx, t.ridx, t.slots) == Waiting(u.widx, u.ridx, u.slots) == []
  {
    var steps, m := Drains(s);
    var c, push := m.consumer, [Push(command), Check, StoreField, StoreField, StoreField, Publish];
    t := Releases(m);
    quiet := steps + [Release];
    RunJoin(s, steps, [Release]);
    NothingWaits(m.widx, c.write, c.read, m.slots);
    var p := Pushes(m, command);
    u := Releases(p);
    busy := steps + push + [Release];
    RunJoin(s, steps, push);
    RunJoin(s, steps + push, [Release]);
    MinusNext(m.widx, m.ridx);
    NothingWaits(p.widx, c.write, c.read, p.slots);
  }

  /** Pushes until the ring is full. */
  lemma {:induction false} Fills(s: State, command: Record) returns (steps: seq<Step>, t: State)
    requires |s.slots| == SLOTS && s.producer.Idle? && Minus64(s.widx, s.ridx) <= SLOTS
    ensures Run(s, steps) == Some(t) && AllHonest(steps)
    ensures s.accepted <= t.accepted && |t.accepted| == |s.accepted| + SLOTS - Minus64(s.widx, s.ridx)
    ensures t.delivered == s.delivered && t.consumer == s.consumer && |t.slots| == SLOTS
    ensures t.ridx == s.ridx && Minus64(t.widx, t.ridx) == SLOTS
    decreases SLOTS - Minus64(s.widx, s.ridx)
  {
    if Minus64(s.widx, s.ridx) == SLOTS {
      steps, t := [], s;
    } else {
      var push := [Push(command), Check, StoreField, StoreField, StoreField, Publish];
      MinusNext(s.widx, s.ridx);
      var u := Pushes(s, command);
      var rest;
      rest, t := Fills(u, command);
      RunJoin(s, push, rest);
      steps := push + rest;
    }
  }

  /** A drain about to resynchronise over a ring with room: every command of a
      producer that fills it meanwhile is jumped over. */
  lemma LostInResync(s: State, command: Record) returns (steps: seq<Step>, t: State)
    requires Bounded(s) && s.producer.Idle? && s.consumer.Resyncing? && !Recoverable(s)
    ensures Run(s, steps) == Some(t) && AllHonest(steps) && t.consumer.Resting? && |t.slots| == SLOTS
    ensures s.accepted <= t.accepted && |t.accepted| == |s.accepted| + SLOTS - Minus64(s.widx, s.ridx) > |s.accepted|
    ensures t.delivered == s.delivered && Waiting(t.widx, t.ridx, t.slots) == []
  {
    var fill, m := Fills(s, command);
    t := Apply(m, Resync);
    assert Run(t, [Resync][1..]) == Some(t);
    RunJoin(s, fill, [Resync]);
    steps := fill + [Resync];
    RangeIsUnsigned(s.consumer.write, s.ridx);
    NothingWaits(m.widx, s.consumer.write, s.ridx, m.slots);
  }

  lemma NotServed(s: State, owed: seq<Record>)
    requires Bounded(s) && s.producer.Idle? && !Recoverable(s)
    ensures !Delivers(s, owed)
  {
    if s.consumer.Draining? {
      var quiet, t, busy, u := LostInDrain(s, BLANK);
      if Served(s, t, owed) {
        assert |owed| == |t.delivered| - |s.delivered|;
        assert !Served(s, u, owed);
      }
    } else {
      var steps, t := LostInResync(s, BLANK);
      assert !Served(s, t, owed);
    }
  }

  // --- Main result -----------------------------------------------------------------------------------

  /** After any misbehaviour at all, a producer that keeps the protocol from here on
      is served, every later push exactly once and in order, if and only if no drain
      is under way to an index past the one the page now shows, nor about to store
      one over a ring with room. */
  lemma Recovers(s: State, wild: seq<Step>)
    requires |s.slots| == SLOTS && s.consumer.Resting? && Run(s, wild).Some? && Run(s, wild).value.producer.Idle?
    ensures var t := Run(s, wild).value;
            && |t.slots| == SLOTS
            && (Recoverable(t) ==> Delivers(t, Owed(t)))
            && ((exists owed :: Delivers(t, owed)) <==> Recoverable(t))
  {
    RunBounded(s, wild);
    var t := Run(s, wild).value;
    if Recoverable(t) {
      RecoverableDelivers(t);
    } else {
      forall owed ensures !Delivers(t, owed) {
        NotServed(t, owed);
      }
    }
  }
}
