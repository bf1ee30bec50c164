/** The guests' single-producer single-consumer ring, one memory access per step.

    `base`, `pushed` and `popped` are history: the count both indices stood for
    when counting began, every value published, and how many were taken. */
module GuestRing {
  import opened Words

  const SLOTS: nat := 16

  /** ring_push(), between its accesses. */
  datatype Producer =
    | Idle
    | Loaded(value: u64, w: u32)     // widx loaded
    | Room(value: u64, w: u32)       // ridx loaded, a slot is free
    | Stored(value: u64, w: u32)     // the slot is written

  /** ring_pop(), between its accesses. */
  datatype Consumer =
    | Resting
    | Looked(r: u32)                 // ridx loaded
    | Found(r: u32)                  // widx loaded, a slot is waiting
    | Got(r: u32, value: u64)        // the slot is read

  datatype Ring = Ring(
    widx: u32, ridx: u32, slots: seq<u64>, producer: Producer, consumer: Consumer,
    base: nat, pushed: seq<u64>, popped: nat)

  datatype Step =
    | BeginPush(value: u64) | CheckRoom | StoreSlot | Publish
    | BeginPop | CheckAny | TakeSlot | FreeSlot

  function Spot(k: nat): (i: nat)
    ensures i < SLOTS
  {
    k % SLOTS
  }

  function Wrap(k: nat): u32 { k % TWO_32 }

  predicate Enabled(s: Ring, step: Step) {
    && |s.slots| == SLOTS
    && match step
       case BeginPush(_) => s.producer.Idle?
       case CheckRoom => s.producer.Loaded?
       case StoreSlot => s.producer.Room?
       case Publish => s.producer.Stored?
       case BeginPop => s.consumer.Resting?
       case CheckAny => s.consumer.Looked?
       case TakeSlot => s.consumer.Found?
       case FreeSlot => s.consumer.Got?
  }

  function Apply(s: Ring, step: Step): Ring
    requires Enabled(s, step)
  {
    match step
    case BeginPush(value) => s.(producer := Loaded(value, s.widx))
    case CheckRoom =>
      if Minus32(s.producer.w, s.ridx) == SLOTS then s.(producer := Idle)
      else s.(producer := Room(s.producer.value, s.producer.w))
    case StoreSlot =>
      s.(slots := s.slots[Spot(s.producer.w) := s.producer.value], producer := Stored(s.producer.value, s.producer.w))
    case Publish =>
      s.(widx := Wrap(s.producer.w + 1), producer := Idle, pushed := s.pushed + [s.producer.value])
    case BeginPop => s.(consumer := Looked(s.ridx))
    case CheckAny =>
      if s.widx == s.consumer.r then s.(consumer := Resting) else s.(consumer := Found(s.consumer.r))
    case TakeSlot => s.(consumer := Got(s.consumer.r, s.slots[Spot(s.consumer.r)]))
    case FreeSlot => s.(ridx := Wrap(s.consumer.r + 1), consumer := Resting, popped := s.popped + 1)
  }

  // --- What every step keeps ----------------------------------------------------------

  predicate Keeps(slots: seq<u64>, k: nat, v: u64)
    requires |slots| == SLOTS
  {
    slots[Spot(k)] == v
  }

  ghost predicate Intact(slots: seq<u64>, base: nat, pushed: seq<u64>, from: nat) {
    |slots| == SLOTS && forall j: nat :: from <= j < |pushed| ==> Keeps(slots, base + j, pushed[j])
  }

  predicate Counted(s: Ring) {
    && s.popped <= |s.pushed| <= s.popped + SLOTS
    && s.widx == Wrap(s.base + |s.pushed|) && s.ridx == Wrap(s.base + s.popped)
  }

  predicate ProducerOk(s: Ring) {
    match s.producer
    case Idle => true
    case Loaded(_, w) => w == s.widx
    case Room(_, w) => w == s.widx && |s.pushed| < s.popped + SLOTS
    case Stored(value, w) =>
      w == s.widx && |s.pushed| < s.popped + SLOTS && |s.slots| == SLOTS && Keeps(s.slots, s.base + |s.pushed|, value)
  }

  predicate ConsumerOk(s: Ring) {
    match s.consumer
    case Resting => true
    case Looked(r) => r == s.ridx
    case Found(r) => r == s.ridx && s.popped < |s.pushed|
    case Got(r, value) => r == s.ridx && s.popped < |s.pushed| && value == s.pushed[s.popped]
  }

  ghost predicate Inv(s: Ring) {
    Counted(s) && Intact(s.slots, s.base, s.pushed, s.popped) && ProducerOk(s) && ConsumerOk(s)
  }

  /** An empty ring, both indices wherever an earlier life left them. */
  predicate Empty(s: Ring) {
    && |s.slots| == SLOTS && s.widx == s.ridx == s.base && s.producer.Idle? && s.consumer.Resting?
    && s.pushed == [] && s.popped == 0
  }

  lemma EmptyInv(s: Ring)
    requires Empty(s)
    ensures Inv(s)
  {
    ModUnique(s.base, 0, s.base, TWO_32);
  }

  lemma SpotOfWrap(k: nat)
    ensures Spot(Wrap(k)) == Spot(k)
  {
    ModOfMod(k, TWO_32, SLOTS);
  }

  lemma CheckRoomInv(s: Ring)
    requires Inv(s) && Enabled(s, CheckRoom)
    ensures Inv(Apply(s, CheckRoom))
    ensures Apply(s, CheckRoom).producer.Idle? <==> |Queue(s)| == SLOTS
  {
    MinusMod(s.base + |s.pushed|, s.base + s.popped, TWO_32);
  }

  lemma StoreSlotInv(s: Ring)
    requires Inv(s) && Enabled(s, StoreSlot)
    ensures Inv(Apply(s, StoreSlot))
  {
    var s', n := Apply(s, StoreSlot), s.base + |s.pushed|;
    SpotOfWrap(n);
    forall j: nat | s.popped <= j < |s.pushed| ensures Keeps(s'.slots, s.base + j, s.pushed[j]) {
      assert Keeps(s.slots, s.base + j, s.pushed[j]);
      SlotsDistinct(s.base + j, n, SLOTS);
    }
  }

  lemma PublishInv(s: Ring)
    requires Inv(s) && Enabled(s, Publish)
    ensures Inv(Apply(s, Publish))
  {
    NextMod(s.base + |s.pushed|, TWO_32);
    IntactMore(s.slots, s.base, s.pushed, s.popped, s.producer.value);
  }

  lemma IntactMore(slots: seq<u64>, base: nat, pushed: seq<u64>, from: nat, value: u64)
    requires Intact(slots, base, pushed, from) && Keeps(slots, base + |pushed|, value)
    ensures Intact(slots, base, pushed + [value], from)
  {
    var more := pushed + [value];
    forall j: nat | from <= j < |more| ensures Keeps(slots, base + j, more[j]) {
      assert j < |pushed| ==> Keeps(slots, base + j, pushed[j]);
    }
  }

  lemma CheckAnyInv(s: Ring)
    requires Inv(s) && Enabled(s, CheckAny)
    ensures Inv(Apply(s, CheckAny))
    ensures Apply(s, CheckAny).consumer.Resting? <==> Queue(s) == []
  {
    SameMod(s.base + s.popped, s.base + |s.pushed|, TWO_32);
  }

  lemma TakeSlotInv(s: Ring)
    requires Inv(s) && Enabled(s, TakeSlot)
    ensures Inv(Apply(s, TakeSlot))
  {
    SpotOfWrap(s.base + s.popped);
    assert Keeps(s.slots, s.base + s.popped, s.pushed[s.popped]);
  }

  lemma FreeSlotInv(s: Ring)
    requires Inv(s) && Enabled(s, FreeSlot)
    ensures Inv(Apply(s, FreeSlot))
  {
    NextMod(s.base + s.popped, TWO_32);
  }

  lemma StepInv(s: Ring, step: Step)
    requires Inv(s) && Enabled(s, step)
    ensures Inv(Apply(s, step))
  {
    match step
    case BeginPush(_) =>
    case CheckRoom => CheckRoomInv(s);
    case StoreSlot => StoreSlotInv(s);
    case Publish => PublishInv(s);
    case BeginPop =>
    case CheckAny => CheckAnyInv(s);
    case TakeSlot => TakeSlotInv(s);
    case FreeSlot => FreeSlotInv(s);
  }

  // --- The bounded FIFO it is ------------------------------------------------------------

  /** The queue this ring stands for. */
  function Queue(s: Ring): seq<u64>
    requires s.popped <= |s.pushed|
  {
    s.pushed[s.popped..]
  }

  /** Each access is one step of a bounded FIFO: publishing enqueues where there was
      room, freeing dequeues the value that was read, a push refuses just when the
      queue is full, a pop just when it is empty, and no other access is seen. */
  ghost predicate Refines(s: Ring, step: Step)
    requires Inv(s) && Enabled(s, step)
  {
    var t := Apply(s, step);
    && t.popped <= |t.pushed| && |Queue(t)| <= SLOTS
    && match step
       case Publish => |Queue(s)| < SLOTS && Queue(t) == Queue(s) + [s.producer.value]
       case FreeSlot => Queue(s) != [] && s.consumer.value == Queue(s)[0] && Queue(t) == Queue(s)[1..]
       case CheckRoom => Queue(t) == Queue(s) && (t.producer.Idle? <==> |Queue(s)| == SLOTS)
       case CheckAny => Queue(t) == Queue(s) && (t.consumer.Resting? <==> Queue(s) == [])
       case _ => Queue(t) == Queue(s)
  }

  lemma StepRefines(s: Ring, step: Step)
    requires Inv(s) && Enabled(s, step)
    ensures Refines(s, step)
  {
    StepInv(s, step);
    if step.CheckRoom? {
      CheckRoomInv(s);
    } else if step.CheckAny? {
      CheckAnyInv(s);
    }
  }

  function Run(s: Ring, steps: seq<Step>): Option<Ring>
    decreases |steps|
  {
    if steps == [] then Some(s)
    else if Enabled(s, steps[0]) then Run(Apply(s, steps[0]), steps[1..])
    else None
  }

  /** From an empty ring, under every interleaving and wherever the 32-bit indices
      start, every step is a step of the FIFO. */
  lemma {:induction false} RefinesFifo(s: Ring, steps: seq<Step>, step: Step)
    requires Inv(s) && Run(s, steps).Some? && Enabled(Run(s, steps).value, step)
    ensures Inv(Run(s, steps).value) && Refines(Run(s, steps).value, step)
    decreases |steps|
  {
    if steps == [] {
      StepRefines(s, step);
    } else {
      StepInv(s, steps[0]);
      RefinesFifo(Apply(s, steps[0]), steps[1..], step);
    }
  }
}
