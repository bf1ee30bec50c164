/** EL2's drain against a producer that keeps no protocol. */
module CommandUntrusted {
  import opened Words
  import opened CommandRing

  // --- A drain is bounded whatever the page does -------------------------------------

  /** How many this drain has handed over. */
  function Taken(s: State): int { |s.delivered| - s.start }

  /** What holds under any interference with the write index and the records. */
  predicate Bounded(s: State) {
    && |s.slots| == SLOTS
    && match s.consumer
       case Resting => true
       case Began(read) => read == s.ridx
       case Resyncing(write) => OutOfRange(write, s.ridx)
       case Draining(read, index, write, fields, _) =>
         && read == s.ridx && 0 <= Taken(s) <= Minus64(write, read) <= SLOTS
         && index == Wrap(read + Taken(s)) && fields <= FIELDS
         && (fields > 0 ==> index != write)
  }

  lemma HandOverBounded(s: State)
    requires Bounded(s) && Enabled(s, HandOver)
    ensures Bounded(Apply(s, HandOver)) && Taken(Apply(s, HandOver)) == Taken(s) + 1
  {
    BackMod(s.consumer.write, s.consumer.read, TWO_64);
    SameMod(s.consumer.read + Taken(s), s.consumer.read + Minus64(s.consumer.write, s.consumer.read), TWO_64);
    NextMod(s.consumer.read + Taken(s), TWO_64);
  }

  lemma SampleBounded(s: State)
    requires Bounded(s) && Enabled(s, Sample)
    ensures Bounded(Apply(s, Sample))
  {
    RangeIsUnsigned(s.widx, s.ridx);
    ModUnique(s.ridx, 0, s.ridx, TWO_64);
  }

  lemma StepBounded(s: State, step: Step)
    requires Bounded(s) && Enabled(s, step)
    ensures Bounded(Apply(s, step))
  {
    if step.HandOver? {
      HandOverBounded(s);
    } else if step.Sample? {
      SampleBounded(s);
    }
  }

  lemma {:induction false} RunBounded(s: State, steps: seq<Step>)
    requires Bounded(s) && Run(s, steps).Some?
    ensures Bounded(Run(s, steps).value)
    decreases |steps|
  {
    if steps != [] {
      StepBounded(s, steps[0]);
      RunBounded(Apply(s, steps[0]), steps[1..]);
    }
  }

  /** However the producer moves its index and the records, a drain hands over at
      most a ring, returns exactly how many it handed over, and leaves ridx at the
      index it sampled. */
  lemma DrainIsBounded(s: State, steps: seq<Step>)
    requires |s.slots| == SLOTS && s.consumer.Resting? && Run(s, steps).Some?
    ensures var t := Run(s, steps).value;
            && (t.consumer.Draining? ==> 0 <= Taken(t) <= SLOTS)
            && (Enabled(t, Release) ==>
                  var u := Apply(t, Release);
                  u.last == Taken(t) && u.ridx == t.consumer.write && u.delivered == t.delivered)
            && (Enabled(t, Resync) ==>
                  var u := Apply(t, Resync);
                  u.last == 0 && u.ridx == t.consumer.write && u.delivered == t.delivered)
            && (Enabled(t, Sample) ==>
                  var u := Apply(t, Sample);
                  u.consumer.write == t.widx && (u.consumer.Draining? ==> Taken(u) == 0))
  {
    RunBounded(s, steps);
    var t := Run(s, steps).value;
    if Enabled(t, Release) {
      BackMod(t.consumer.write, t.consumer.read, TWO_64);
      SameMod(t.consumer.read + Taken(t), t.consumer.read + Minus64(t.consumer.write, t.consumer.read), TWO_64);
      if t.consumer.write == t.consumer.read {
        ModUnique(0, 0, 0, TWO_64);
      }
    }
  }

  predicate OwnStep(step: Step) {
    step.Sample? || step.Resync? || step.ReadField? || step.HandOver? || step.Release?
  }

  /** How many of its own accesses a drain can still make. */
  function Left(s: State): int {
    match s.consumer
    case Resting => 0
    case Began(_) => (FIELDS + 1) * SLOTS + 2
    case Resyncing(_) => 1
    case Draining(read, _, write, fields, _) => (FIELDS + 1) * (Minus64(write, read) - Taken(s)) - fields + 1
  }

  /** A drain's own steps use up a fixed allowance that nothing the producer does
      can raise: at most four accesses a slot and three more. */
  lemma DrainEnds(s: State, step: Step)
    requires Bounded(s) && Enabled(s, step) && !step.Drain?
    ensures if OwnStep(step) then Left(Apply(s, step)) < Left(s) else Left(Apply(s, step)) == Left(s)
    ensures OwnStep(step) ==> 0 <= Left(Apply(s, step))
  {
    if step.HandOver? {
      HandOverBounded(s);
    } else if step.Sample? {
      SampleBounded(s);
    } else if step.ReadField? {
      BackMod(s.consumer.write, s.consumer.read, TWO_64);
      SameMod(s.consumer.read + Taken(s), s.consumer.read + Minus64(s.consumer.write, s.consumer.read), TWO_64);
    }
  }

  // --- Runs put together ---------------------------------------------------------------

  lemma {:induction false} RunJoin(s: State, a: seq<Step>, b: seq<Step>)
    requires Run(s, a).Some?
    ensures Run(s, a + b) == Run(Run(s, a).value, b)
    decreases |a|
  {
    if a == [] {
      assert a + b == b;
    } else {
      RunJoin(Apply(s, a[0]), a[1..], b);
      assert (a + b)[1..] == a[1..] + b;
    }
  }

  lemma Run4(s: State, a: State, b: State, c: State, d: State, w: Step, x: Step, y: Step, z: Step)
    requires Enabled(s, w) && Apply(s, w) == a && Enabled(a, x) && Apply(a, x) == b
    requires Enabled(b, y) && Apply(b, y) == c && Enabled(c, z) && Apply(c, z) == d
    ensures Run(s, [w, x, y, z]) == Some(d)
  {
    Run2(s, a, b, w, x);
    Run2(b, c, d, y, z);
    RunJoin(s, [w, x], [y, z]);
    assert [w, x] + [y, z] == [w, x, y, z];
  }

  lemma Run2(s: State, a: State, b: State, w: Step, x: Step)
    requires Enabled(s, w) && Apply(s, w) == a && Enabled(a, x) && Apply(a, x) == b
    ensures Run(s, [w, x]) == Some(b)
  {
    assert [w, x][1..] == [x];
    assert Run(a, [x]) == Run(b, [x][1..]);
    assert Run(b, []) == Some(b);
  }

  /** One push with nothing in between. */
  lemma Pushes(s: State, command: Record) returns (t: State)
    requires |s.slots| == SLOTS && s.producer.Idle? && Minus64(s.widx, s.ridx) < SLOTS
    ensures t == s.(widx := Wrap(s.widx + 1), slots := s.slots[Spot(s.widx) := command], accepted := s.accepted + [command])
    ensures Run(s, [Push(command), Check, StoreField, StoreField, StoreField, Publish]) == Some(t)
  {
    var i, stale := Spot(s.widx), s.slots[Spot(s.widx)];
    var a := s.(producer := Sampled(command, s.widx));
    var b := s.(producer := Storing(command, s.widx, 0));
    var c := s.(producer := Storing(command, s.widx, 1), slots := s.slots[i := stale.(op := command.op)]);
    var d := s.(producer := Storing(command, s.widx, 2), slots := s.slots[i := Record(command.op, command.a, stale.b)]);
    var e := s.(producer := Storing(command, s.widx, 3), slots := s.slots[i := command]);
    t := s.(widx := Wrap(s.widx + 1), slots := s.slots[i := command], accepted := s.accepted + [command]);
    assert Apply(b, StoreField) == c;
    assert Apply(c, StoreField) == d;
    assert Apply(d, StoreField) == e;
    Run4(s, a, b, c, d, Push(command), Check, StoreField, StoreField);
    Run2(d, e, t, StoreField, Publish);
    RunJoin(s, [Push(command), Check, StoreField, StoreField], [StoreField, Publish]);
    assert [Push(command), Check, StoreField, StoreField] + [StoreField, Publish] ==
           [Push(command), Check, StoreField, StoreField, StoreField, Publish];
  }
}
