/** The host's command ring: an untrusted producer and EL2's drain, one memory
    access per step.

    Accesses are sequentially consistent here. The fields from `base` on are
    history that no step's outcome depends on. */
module CommandRing {
  import opened Words

  const SLOTS: nat := 128
  const HALF_64: nat := 0x8000_0000_0000_0000
  const FIELDS: nat := 3

  datatype Record = Record(op: u64, a: u64, b: u64)
  const BLANK := Record(0, 0, 0)

  /** push(), between its accesses. */
  datatype Producer =
    | Idle
    | Sampled(command: Record, write: u64)                // widx loaded
    | Storing(command: Record, write: u64, fields: nat)   // room found, this many fields stored

  /** drain(), between its accesses. */
  datatype Consumer =
    | Resting
    | Began(read: u64)                                    // ridx loaded
    | Resyncing(write: u64)                               // the producer broke the protocol
    | Draining(read: u64, index: u64, write: u64, fields: nat, got: Record)

  datatype State = State(
    widx: u64, ridx: u64, slots: seq<Record>, producer: Producer, consumer: Consumer,
    base: nat,                 // the count ridx stood for when counting began
    accepted: seq<Record>,     // every command push() published
    delivered: seq<Record>,    // every command handed to `consume`
    freed: nat,                // how many were delivered when ridx was last stored
    start: nat,                // how many were delivered when this drain sampled widx
    seen: nat,                 // how many were accepted when this drain sampled widx
    last: nat)                 // what the last finished drain returned

  datatype Step =
    | Push(command: Record) | Check | StoreField | Publish
    | Drain | Sample | Resync | ReadField | HandOver | Release
    | Meddle(widx: u64, slots: seq<Record>)               // a producer outside the protocol

  function Spot(k: nat): (i: nat)
    ensures i < SLOTS
  {
    k % SLOTS
  }

  function Wrap(k: nat): u64 { k % TWO_64 }

  /** static_cast<std::int64_t>(write - read) */
  function Ahead(write: u64, read: u64): int {
    var d := Minus64(write, read);
    if d < HALF_64 then d else d - TWO_64
  }

  predicate OutOfRange(write: u64, read: u64) { Ahead(write, read) < 0 || Ahead(write, read) > SLOTS }

  /** The k'th field of `r`, stored over `slot`. */
  function WithField(slot: Record, r: Record, k: nat): Record {
    if k == 0 then slot.(op := r.op) else if k == 1 then slot.(a := r.a) else slot.(b := r.b)
  }

  predicate Enabled(s: State, step: Step) {
    && |s.slots| == SLOTS
    && match step
       case Push(_) => s.producer.Idle?
       case Check => s.producer.Sampled?
       case StoreField => s.producer.Storing? && s.producer.fields < FIELDS
       case Publish => s.producer.Storing? && s.producer.fields == FIELDS
       case Drain => s.consumer.Resting?
       case Sample => s.consumer.Began?
       case Resync => s.consumer.Resyncing?
       case ReadField => s.consumer.Draining? && s.consumer.index != s.consumer.write && s.consumer.fields < FIELDS
       case HandOver => s.consumer.Draining? && s.consumer.index != s.consumer.write && s.consumer.fields == FIELDS
       case Release => s.consumer.Draining? && s.consumer.index == s.consumer.write
       case Meddle(_, slots) => |slots| == SLOTS
  }

  function Apply(s: State, step: Step): State
    requires Enabled(s, step)
  {
    match step
    case Push(command) => s.(producer := Sampled(command, s.widx))
    case Check =>
      if Minus64(s.producer.write, s.ridx) >= SLOTS then s.(producer := Idle)
      else s.(producer := Storing(s.producer.command, s.producer.write, 0))
    case StoreField =>
      var p := s.producer;
      var i := Spot(p.write);
      s.(slots := s.slots[i := WithField(s.slots[i], p.command, p.fields)], producer := p.(fields := p.fields + 1))
    case Publish =>
      s.(widx := Wrap(s.producer.write + 1), producer := Idle, accepted := s.accepted + [s.producer.command])
    case Drain => s.(consumer := Began(s.ridx))
    case Sample =>
      if OutOfRange(s.widx, s.consumer.read) then s.(consumer := Resyncing(s.widx))
      else
        s.(consumer := Draining(s.consumer.read, s.consumer.read, s.widx, 0, BLANK),
           start := |s.delivered|, seen := |s.accepted|)
    case Resync =>
      s.(ridx := s.consumer.write, consumer := Resting, base := s.consumer.write, last := 0)
    case ReadField =>
      var c := s.consumer;
      s.(consumer := c.(fields := c.fields + 1, got := WithField(c.got, s.slots[Spot(c.index)], c.fields)))
    case HandOver =>
      var c := s.consumer;
      s.(consumer := c.(index := Wrap(c.index + 1), fields := 0, got := BLANK), delivered := s.delivered + [c.got])
    case Release =>
      var c := s.consumer;
      s.(ridx := if c.write != c.read then c.write else s.ridx,
         consumer := Resting, freed := |s.delivered|, last := Minus64(c.write, c.read))
    case Meddle(widx, slots) => s.(widx := widx, slots := slots, producer := Idle)
  }

  predicate Honest(step: Step) { !step.Meddle? }

  function Run(s: State, steps: seq<Step>): Option<State>
    decreases |steps|
  {
    if steps == [] then Some(s)
    else if Enabled(s, steps[0]) then Run(Apply(s, steps[0]), steps[1..])
    else None
  }

  // --- Where counting begins --------------------------------------------------------

  /** What a drain would find: nothing where it would resynchronise. */
  function Waiting(widx: u64, ridx: u64, slots: seq<Record>): seq<Record>
    requires |slots| == SLOTS
  {
    if Minus64(widx, ridx) > SLOTS then []
    else SlotRun(slots, ridx, Minus64(widx, ridx))
  }

  /** `n` slots from the one count `from` selects. */
  function SlotRun(slots: seq<Record>, from: nat, n: nat): (r: seq<Record>)
    requires |slots| == SLOTS
    ensures |r| == n
  {
    seq(n, j requires 0 <= j < n => slots[Spot(from + j)])
  }

  /** Neither side inside a call, whatever the page holds: how format() leaves it,
      and how any other history does. */
  predicate Quiescent(s: State) {
    && |s.slots| == SLOTS && s.producer.Idle? && s.consumer.Resting?
    && s.base == s.ridx && s.accepted == Waiting(s.widx, s.ridx, s.slots)
    && s.delivered == [] && s.freed == 0 && s.start == 0 && s.seen == 0
  }

  // --- What every honest step keeps ----------------------------------------------------

  predicate Keeps(slots: seq<Record>, k: nat, r: Record)
    requires |slots| == SLOTS
  {
    slots[Spot(k)] == r
  }

  /** Every command accepted and not yet freed is whole in its slot. */
  ghost predicate Intact(slots: seq<Record>, base: nat, accepted: seq<Record>, from: nat) {
    && |slots| == SLOTS
    && forall j: nat :: from <= j < |accepted| ==> Keeps(slots, base + j, accepted[j])
  }

  /** The first `k` fields of `got` are `whole`'s. */
  predicate Partly(got: Record, whole: Record, k: nat) {
    (k > 0 ==> got.op == whole.op) && (k > 1 ==> got.a == whole.a) && (k > 2 ==> got.b == whole.b)
  }

  predicate Counted(s: State) {
    && s.freed <= |s.delivered| <= |s.accepted| <= s.freed + SLOTS
    && s.delivered == s.accepted[..|s.delivered|]
    && s.widx == Wrap(s.base + |s.accepted|) && s.ridx == Wrap(s.base + s.freed)
  }

  predicate ProducerOk(s: State) {
    match s.producer
    case Idle => true
    case Sampled(_, write) => write == s.widx
    case Storing(command, write, fields) =>
      && write == s.widx && fields <= FIELDS && |s.accepted| < s.freed + SLOTS && |s.slots| == SLOTS
      && Partly(s.slots[Spot(s.base + |s.accepted|)], command, fields)
  }

  predicate ConsumerOk(s: State) {
    match s.consumer
    case Resting => |s.delivered| == s.freed
    case Began(read) => read == s.ridx && |s.delivered| == s.freed
    case Resyncing(_) => false
    case Draining(read, index, write, fields, got) =>
      && read == s.ridx && s.start == s.freed && |s.delivered| <= s.seen <= |s.accepted|
      && index == Wrap(s.base + |s.delivered|) && write == Wrap(s.base + s.seen) && fields <= FIELDS
      && (fields > 0 ==> |s.delivered| < s.seen && Partly(got, s.accepted[|s.delivered|], fields))
  }

  ghost predicate InStep(s: State) {
    Counted(s) && Intact(s.slots, s.base, s.accepted, |s.delivered|) && ProducerOk(s) && ConsumerOk(s)
  }

  /** Indices too far apart for anything to be accepted or delivered: until the
      next drain stores ridx, the ring is shut. */
  predicate Shut(s: State) {
    && |s.slots| == SLOTS && s.accepted == [] && s.delivered == [] && s.freed == 0
    && Minus64(s.widx, s.ridx) > SLOTS
    && (s.producer.Idle? || (s.producer.Sampled? && s.producer.write == s.widx))
    && match s.consumer
       case Resting => true
       case Began(read) => read == s.ridx
       case Resyncing(write) => write == s.widx
       case Draining(_, _, _, _, _) => false
  }

  ghost predicate Inv(s: State) { InStep(s) || Shut(s) }

  // --- Arithmetic of the wrap --------------------------------------------------------

  lemma SpotOfWrap(k: nat)
    ensures Spot(Wrap(k)) == Spot(k)
  {
    ModOfMod(k, TWO_64, SLOTS);
  }

  /** The signed test and the unsigned one refuse the same pairs. */
  lemma RangeIsUnsigned(write: u64, read: u64)
    ensures OutOfRange(write, read) <==> Minus64(write, read) > SLOTS
  {}

  // --- One step at a time --------------------------------------------------------------

  lemma QuiescentInv(s: State)
    requires Quiescent(s)
    ensures Inv(s)
  {
    if Minus64(s.widx, s.ridx) <= SLOTS {
      var n := Minus64(s.widx, s.ridx);
      ModUnique(s.ridx, 0, s.ridx, TWO_64);
      BackMod(s.widx, s.ridx, TWO_64);
    }
  }

  lemma CheckInv(s: State)
    requires InStep(s) && Enabled(s, Check)
    ensures InStep(Apply(s, Check))
    ensures Apply(s, Check).producer.Idle? <==> |s.accepted| == s.freed + SLOTS
  {
    MinusMod(s.base + |s.accepted|, s.base + s.freed, TWO_64);
    assert Minus64(s.producer.write, s.ridx) == |s.accepted| - s.freed;
  }

  lemma StoreFieldInv(s: State)
    requires InStep(s) && Enabled(s, StoreField)
    ensures InStep(Apply(s, StoreField))
  {
    var s', n := Apply(s, StoreField), s.base + |s.accepted|;
    SpotOfWrap(n);
    forall j: nat | |s.delivered| <= j < |s.accepted| ensures Keeps(s'.slots, s.base + j, s.accepted[j]) {
      assert Keeps(s.slots, s.base + j, s.accepted[j]);
      SlotsDistinct(s.base + j, n, SLOTS);
    }
  }

  lemma IntactMore(slots: seq<Record>, base: nat, accepted: seq<Record>, from: nat, command: Record)
    requires Intact(slots, base, accepted, from) && Keeps(slots, base + |accepted|, command)
    ensures Intact(slots, base, accepted + [command], from)
  {
    var more := accepted + [command];
    forall j: nat | from <= j < |more| ensures Keeps(slots, base + j, more[j]) {
      assert j < |accepted| ==> Keeps(slots, base + j, accepted[j]);
    }
  }

  lemma PublishInv(s: State)
    requires InStep(s) && Enabled(s, Publish)
    ensures InStep(Apply(s, Publish))
  {
    NextMod(s.base + |s.accepted|, TWO_64);
    assert Keeps(s.slots, s.base + |s.accepted|, s.producer.command);
    IntactMore(s.slots, s.base, s.accepted, |s.delivered|, s.producer.command);
  }

  lemma SampleInv(s: State)
    requires InStep(s) && Enabled(s, Sample)
    ensures InStep(Apply(s, Sample)) && Apply(s, Sample).consumer.Draining?
  {
    RangeIsUnsigned(s.widx, s.ridx);
    MinusMod(s.base + |s.accepted|, s.base + s.freed, TWO_64);
  }

  lemma ReadFieldInv(s: State)
    requires InStep(s) && Enabled(s, ReadField)
    ensures InStep(Apply(s, ReadField))
  {
    var d := |s.delivered|;
    SameMod(s.base + d, s.base + s.seen, TWO_64);
    SpotOfWrap(s.base + d);
    assert Keeps(s.slots, s.base + d, s.accepted[d]);
  }

  lemma HandOverInv(s: State)
    requires InStep(s) && Enabled(s, HandOver)
    ensures InStep(Apply(s, HandOver)) && Apply(s, HandOver).delivered == s.delivered + [s.accepted[|s.delivered|]]
  {
    NextMod(s.base + |s.delivered|, TWO_64);
    assert s.consumer.got == s.accepted[|s.delivered|];
  }

  lemma ReleaseInv(s: State)
    requires InStep(s) && Enabled(s, Release)
    ensures InStep(Apply(s, Release))
    ensures |s.delivered| == s.seen && Apply(s, Release).last == |s.delivered| - s.start
    ensures Apply(s, Release).ridx == s.consumer.write
  {
    SameMod(s.base + |s.delivered|, s.base + s.seen, TWO_64);
    SameMod(s.base + s.freed, s.base + s.seen, TWO_64);
    MinusMod(s.base + s.seen, s.base + s.freed, TWO_64);
  }

  lemma ShutInv(s: State, step: Step)
    requires Shut(s) && Enabled(s, step) && Honest(step)
    ensures Inv(Apply(s, step))
  {
    if step.Sample? {
      RangeIsUnsigned(s.widx, s.ridx);
    } else if step.Resync? {
      ModUnique(s.widx, 0, s.widx, TWO_64);
    }
  }

  lemma StepInv(s: State, step: Step)
    requires Inv(s) && Enabled(s, step) && Honest(step)
    ensures Inv(Apply(s, step))
  {
    if Shut(s) && !InStep(s) {
      ShutInv(s, step);
    } else {
      match step
      case Push(_) =>
      case Check => CheckInv(s);
      case StoreField => StoreFieldInv(s);
      case Publish => PublishInv(s);
      case Drain =>
      case Sample => SampleInv(s);
      case Resync =>
      case ReadField => ReadFieldInv(s);
      case HandOver => HandOverInv(s);
      case Release => ReleaseInv(s);
    }
  }

  lemma {:induction false} RunInv(s: State, steps: seq<Step>)
    requires Inv(s) && Run(s, steps).Some? && forall i :: 0 <= i < |steps| ==> Honest(steps[i])
    ensures Inv(Run(s, steps).value)
    decreases |steps|
  {
    if steps != [] {
      assert Honest(steps[0]);
      StepInv(s, steps[0]);
      RunInv(Apply(s, steps[0]), steps[1..]);
    }
  }

  // --- Main results ------------------------------------------------------------------------

  /** From any page and any interleaving of protocol steps, what `consume` was
      given is a prefix of what was waiting and then pushed: none lost, repeated,
      reordered or half written, wherever the 64-bit indices stood and however
      often they wrap. */
  lemma DeliversInOrder(s: State, steps: seq<Step>)
    requires Quiescent(s) && Run(s, steps).Some? && forall i :: 0 <= i < |steps| ==> Honest(steps[i])
    ensures var t := Run(s, steps).value;
            && t.delivered <= t.accepted && |t.accepted| <= |t.delivered| + SLOTS
            && Waiting(s.widx, s.ridx, s.slots) <= t.accepted
  {
    QuiescentInv(s);
    RunInv(s, steps);
    AcceptedGrows(s, steps);
  }

  lemma {:induction false} AcceptedGrows(s: State, steps: seq<Step>)
    requires Run(s, steps).Some?
    ensures s.accepted <= Run(s, steps).value.accepted
    decreases |steps|
  {
    if steps != [] {
      AcceptedGrows(Apply(s, steps[0]), steps[1..]);
    }
  }

  /** A drain that finishes has delivered everything published before it looked,
      and returns how many that was; push() refuses exactly when no slot is free,
      or while the ring is shut. */
  lemma EachCallAnswers(s: State, steps: seq<Step>)
    requires Quiescent(s) && Run(s, steps).Some? && forall i :: 0 <= i < |steps| ==> Honest(steps[i])
    ensures var t := Run(s, steps).value;
            && (Enabled(t, Release) ==>
                  |t.delivered| == t.seen && Apply(t, Release).last == t.seen - t.start <= SLOTS)
            && (Enabled(t, Check) ==>
                  (Apply(t, Check).producer.Idle? <==> |t.accepted| == t.freed + SLOTS || Shut(t)))
  {
    QuiescentInv(s);
    RunInv(s, steps);
    var t := Run(s, steps).value;
    if InStep(t) {
      if Enabled(t, Release) { ReleaseInv(t); }
      if Enabled(t, Check) { CheckInv(t); MinusMod(t.base + |t.accepted|, t.base + t.freed, TWO_64); }
    }
  }
}
