/** Two guests on two cores over two rings: the initiator across its warm resets and
    the responder that outlives them, one memory access per step. */
module PingPong {
  import opened Words
  import G = GuestRing

  const READY: u64 := TWO_64 - 1
  const DONE: u64 := TWO_64 - 2
  const RUNS: nat := 4                  // three guest faults, then the farewell

  datatype Failure = VmStart | BadReady | EchoMismatch | BadDone

  datatype Ping =
    | Boot | StartPeer | AwaitReady
    | Sending(round: nat) | AwaitEcho(round: nat)
    | Faulting | SendingDone | AwaitDone | Over | Failed(why: Failure)

  datatype Pong = Off | Announcing | Waiting | Echoing(value: u64) | Farewell | Retired

  /** `run` is the initiator's own, lost at a reset; `count` is RUN_COUNT in the
      shared page. `resets` is history. ring0 carries to the responder, ring1 back. */
  datatype State = State(
    ping: Ping, pong: Pong, run: nat, count: nat, resets: nat, ring0: G.Ring, ring1: G.Ring)

  datatype Step =
    | Enter                       // main() increments the run counter
    | Start(ok: bool)             // hvc_vm_start and its answer
    | PingRing(access: G.Step)    // the initiator's next ring access
    | PongRing(access: G.Step)    // the responder's next ring access
    | Reset                       // a guest fault restarts the initiator

  predicate Pushes(access: G.Step) { access.BeginPush? || access.CheckRoom? || access.StoreSlot? || access.Publish? }

  /** What the initiator is pushing. */
  function PingSays(s: State, rounds: nat): Option<u64>
    requires rounds < DONE
  {
    match s.ping
    case Sending(round) => if round <= rounds then Some(round) else None
    case SendingDone => Some(DONE)
    case _ => None
  }

  predicate PingListens(s: State) { s.ping.AwaitReady? || s.ping.AwaitEcho? || s.ping.AwaitDone? }

  /** What the responder is pushing. */
  function PongSays(s: State): Option<u64> {
    match s.pong
    case Announcing => Some(READY)
    case Echoing(value) => Some(value)
    case Farewell => Some(DONE)
    case _ => None
  }

  predicate Says(access: G.Step, what: Option<u64>) {
    what.Some? && Pushes(access) && (access.BeginPush? ==> access.value == what.value)
  }

  predicate Enabled(s: State, step: Step, rounds: nat)
    requires rounds < DONE
  {
    match step
    case Enter => s.ping.Boot?
    case Start(_) => s.ping.StartPeer?
    case PingRing(access) =>
      if Pushes(access) then Says(access, PingSays(s, rounds)) && G.Enabled(s.ring0, access)
      else PingListens(s) && G.Enabled(s.ring1, access)
    case PongRing(access) =>
      if Pushes(access) then Says(access, PongSays(s)) && G.Enabled(s.ring1, access)
      else s.pong.Waiting? && G.Enabled(s.ring0, access)
    case Reset => s.ping.Faulting?
  }

  /** After the rounds, and at every later entry. */
  function Onward(run: nat): Ping { if run < RUNS then Faulting else SendingDone }

  function NextRound(run: nat, round: nat, rounds: nat): Ping {
    if round < rounds then Sending(round + 1) else Onward(run)
  }

  /** pop_wait returned this value. */
  function Heard(s: State, value: u64, rounds: nat): Ping {
    match s.ping
    case AwaitReady => if value != READY then Failed(BadReady) else NextRound(s.run, 0, rounds)
    case AwaitEcho(round) => if value != round then Failed(EchoMismatch) else NextRound(s.run, round, rounds)
    case AwaitDone => if value != DONE then Failed(BadDone) else Over
    case _ => s.ping
  }

  function Apply(s: State, step: Step, rounds: nat): State
    requires rounds < DONE && Enabled(s, step, rounds)
  {
    match step
    case Enter =>
      var run := s.count + 1;
      s.(run := run, count := run, ping := if run == 1 then StartPeer else Onward(run))
    case Start(ok) => if ok then s.(pong := Announcing, ping := AwaitReady) else s.(ping := Failed(VmStart))
    case PingRing(access) =>
      if Pushes(access) then
        var ring := G.Apply(s.ring0, access);
        if !access.Publish? then s.(ring0 := ring)
        else s.(ring0 := ring, ping := if s.ping.SendingDone? then AwaitDone else AwaitEcho(s.ping.round))
      else
        var ring := G.Apply(s.ring1, access);
        if !access.FreeSlot? then s.(ring1 := ring)
        else s.(ring1 := ring, ping := Heard(s, s.ring1.consumer.value, rounds))
    case PongRing(access) =>
      if Pushes(access) then
        var ring := G.Apply(s.ring1, access);
        if !access.Publish? then s.(ring1 := ring)
        else s.(ring1 := ring, pong := if s.pong.Farewell? then Retired else Waiting)
      else
        var ring := G.Apply(s.ring0, access);
        if !access.FreeSlot? then s.(ring0 := ring)
        else s.(ring0 := ring, pong := if s.ring0.consumer.value == DONE then Farewell else Echoing(s.ring0.consumer.value))
    case Reset => s.(ping := Boot, run := 0, resets := s.resets + 1)
  }

  function Run(s: State, steps: seq<Step>, rounds: nat): Option<State>
    requires rounds < DONE
    decreases |steps|
  {
    if steps == [] then Some(s)
    else if Enabled(s, steps[0], rounds) then Run(Apply(s, steps[0], rounds), steps[1..], rounds)
    else None
  }

  predicate Initial(s: State) {
    s.ping.Boot? && s.pong.Off? && s.count == 0 && s.resets == 0 && G.Empty(s.ring0) && G.Empty(s.ring1)
  }

  // --- What is said when -----------------------------------------------------------------

  /** Where the one message is, for each point of the conversation. */
  predicate Talk(s: State, q0: seq<u64>, q1: seq<u64>, rounds: nat) {
    match s.ping
    case Boot => s.count == s.resets < RUNS && q0 == q1 == [] && (if s.count == 0 then s.pong.Off? else s.pong.Waiting?)
    case StartPeer => s.run == 1 && s.pong.Off? && q0 == q1 == []
    case AwaitReady =>
      s.run == 1 && q0 == [] && ((s.pong.Announcing? && q1 == []) || (s.pong.Waiting? && q1 == [READY]))
    case Sending(round) => s.run == 1 && 1 <= round <= rounds && s.pong.Waiting? && q0 == q1 == []
    case AwaitEcho(round) =>
      && s.run == 1 && 1 <= round <= rounds
      && ((s.pong.Waiting? && ((q0 == [round] && q1 == []) || (q0 == [] && q1 == [round])))
          || (s.pong.Echoing? && s.pong.value == round && q0 == q1 == []))
    case Faulting => 1 <= s.run < RUNS && s.pong.Waiting? && q0 == q1 == []
    case SendingDone => s.run == RUNS && s.pong.Waiting? && q0 == q1 == []
    case AwaitDone =>
      && s.run == RUNS
      && ((s.pong.Waiting? && q0 == [DONE] && q1 == [])
          || (s.pong.Farewell? && q0 == q1 == [])
          || (s.pong.Retired? && q0 == [] && q1 == [DONE]))
    case Over => s.run == RUNS && s.pong.Retired? && q0 == q1 == []
    case Failed(why) => why.VmStart? && s.pong.Off? && q0 == q1 == []
  }

  predicate Counts(s: State) {
    if s.ping.Boot? then s.count == s.resets else s.count == s.run == s.resets + 1
  }

  /** A core is part way through an access of a ring only where its program is. */
  predicate Placed(s: State, rounds: nat)
    requires rounds < DONE
  {
    && (!s.ring0.producer.Idle? ==> PingSays(s, rounds) == Some(s.ring0.producer.value))
    && (!s.ring1.producer.Idle? ==> PongSays(s) == Some(s.ring1.producer.value))
    && (!s.ring1.consumer.Resting? ==> PingListens(s))
    && (!s.ring0.consumer.Resting? ==> s.pong.Waiting?)
  }

  ghost predicate Inv(s: State, rounds: nat)
    requires rounds < DONE
  {
    && G.Inv(s.ring0) && G.Inv(s.ring1) && Counts(s) && Placed(s, rounds)
    && Talk(s, G.Queue(s.ring0), G.Queue(s.ring1), rounds)
  }

  lemma InitialInv(s: State, rounds: nat)
    requires rounds < DONE && Initial(s)
    ensures Inv(s, rounds)
  {
    G.EmptyInv(s.ring0);
    G.EmptyInv(s.ring1);
  }

  lemma PingPushInv(s: State, access: G.Step, rounds: nat)
    requires rounds < DONE && Inv(s, rounds) && Enabled(s, PingRing(access), rounds) && Pushes(access)
    ensures Inv(Apply(s, PingRing(access), rounds), rounds)
  {
    G.StepInv(s.ring0, access);
    G.StepRefines(s.ring0, access);
  }

  lemma PingPopInv(s: State, access: G.Step, rounds: nat)
    requires rounds < DONE && Inv(s, rounds) && Enabled(s, PingRing(access), rounds) && !Pushes(access)
    ensures Inv(Apply(s, PingRing(access), rounds), rounds)
  {
    G.StepInv(s.ring1, access);
    G.StepRefines(s.ring1, access);
  }

  lemma PongPushInv(s: State, access: G.Step, rounds: nat)
    requires rounds < DONE && Inv(s, rounds) && Enabled(s, PongRing(access), rounds) && Pushes(access)
    ensures Inv(Apply(s, PongRing(access), rounds), rounds)
  {
    G.StepInv(s.ring1, access);
    G.StepRefines(s.ring1, access);
  }

  lemma PongPopInv(s: State, access: G.Step, rounds: nat)
    requires rounds < DONE && Inv(s, rounds) && Enabled(s, PongRing(access), rounds) && !Pushes(access)
    ensures Inv(Apply(s, PongRing(access), rounds), rounds)
  {
    G.StepInv(s.ring0, access);
    G.StepRefines(s.ring0, access);
  }

  lemma StepInv(s: State, step: Step, rounds: nat)
    requires rounds < DONE && Inv(s, rounds) && Enabled(s, step, rounds)
    ensures Inv(Apply(s, step, rounds), rounds)
  {
    match step
    case Enter =>
    case Start(_) =>
    case PingRing(access) =>
      if Pushes(access) { PingPushInv(s, access, rounds); } else { PingPopInv(s, access, rounds); }
    case PongRing(access) =>
      if Pushes(access) { PongPushInv(s, access, rounds); } else { PongPopInv(s, access, rounds); }
    case Reset =>
  }

  lemma {:induction false} RunInv(s: State, steps: seq<Step>, rounds: nat)
    requires rounds < DONE && Inv(s, rounds) && Run(s, steps, rounds).Some?
    ensures Inv(Run(s, steps, rounds).value, rounds)
    decreases |steps|
  {
    if steps != [] {
      StepInv(s, steps[0], rounds);
      RunInv(Apply(s, steps[0], rounds), steps[1..], rounds);
    }
  }

  // --- Main results ------------------------------------------------------------------------

  /** For any round count below the markers and every interleaving of the two cores'
      accesses: no ready, echo or done mismatch, at most one message in flight, and
      when the initiator finishes it has been reset three times and the responder
      has retired on the DONE exchange. */
  lemma NeverMismatched(s: State, steps: seq<Step>, rounds: nat)
    requires rounds < DONE && Initial(s) && Run(s, steps, rounds).Some?
    ensures var t := Run(s, steps, rounds).value;
            && (t.ping.Failed? ==> t.ping.why.VmStart?)
            && t.ring0.popped <= |t.ring0.pushed| && t.ring1.popped <= |t.ring1.pushed|
            && |G.Queue(t.ring0)| + |G.Queue(t.ring1)| <= 1
            && (t.ping.Over? ==> t.resets == 3 && t.pong.Retired? && t.run == RUNS)
            && (t.pong.Retired? ==> t.resets == 3)
  {
    InitialInv(s, rounds);
    RunInv(s, steps, rounds);
  }

  // --- It finishes ----------------------------------------------------------------------

  /** Steps of the conversation from the end of the rounds, or a later entry, on. */
  function After(run: nat): nat { if run < RUNS then 2 * (RUNS - run) + 4 else 4 }

  function Hops(s: State, q0: seq<u64>, q1: seq<u64>, rounds: nat): int {
    match s.ping
    case Boot => if s.count == 0 then 4 + 4 * rounds + After(1) else 1 + After(s.count + 1)
    case StartPeer => 3 + 4 * rounds + After(1)
    case AwaitReady => (if q1 == [] then 2 else 1) + 4 * rounds + After(1)
    case Sending(round) => 4 * (rounds - round + 1) + After(s.run)
    case AwaitEcho(round) =>
      4 * (rounds - round) + After(s.run) + if q0 != [] then 3 else if q1 != [] then 1 else 2
    case Faulting => After(s.run)
    case SendingDone => 4
    case AwaitDone => if q0 != [] then 3 else if q1 != [] then 1 else 2
    case Over => 0
    case Failed(_) => 0
  }

  function PushLeft(p: G.Producer): nat {
    match p
    case Idle => 4
    case Loaded(_, _) => 3
    case Room(_, _) => 2
    case Stored(_, _) => 1
  }

  function PopLeft(c: G.Consumer): nat {
    match c
    case Resting => 4
    case Looked(_) => 3
    case Found(_) => 2
    case Got(_, _) => 1
  }

  /** Accesses left of the call the working core is in. */
  function Accesses(s: State, q0: seq<u64>, q1: seq<u64>, rounds: nat): nat
    requires rounds < DONE
  {
    if s.ping.Over? || s.ping.Failed? then 0
    else if PingSays(s, rounds).Some? then PushLeft(s.ring0.producer)
    else if q0 != [] then PopLeft(s.ring0.consumer)
    else if q1 != [] then PopLeft(s.ring1.consumer)
    else if PongSays(s).Some? then PushLeft(s.ring1.producer)
    else 0
  }

  function Measure(s: State, rounds: nat): int
    requires rounds < DONE && s.ring0.popped <= |s.ring0.pushed| && s.ring1.popped <= |s.ring1.pushed|
  {
    5 * Hops(s, G.Queue(s.ring0), G.Queue(s.ring1), rounds) + Accesses(s, G.Queue(s.ring0), G.Queue(s.ring1), rounds)
  }

  /** A look at a ring with nothing in it. */
  predicate Polls(s: State, step: Step)
    requires s.ring0.popped <= |s.ring0.pushed| && s.ring1.popped <= |s.ring1.pushed|
  {
    match step
    case PingRing(access) => (access.BeginPop? || access.CheckAny?) && G.Queue(s.ring1) == []
    case PongRing(access) => (access.BeginPop? || access.CheckAny?) && G.Queue(s.ring0) == []
    case _ => false
  }

  /** The access the core that is not waiting makes next. */
  function NextPush(p: G.Producer, value: u64): G.Step {
    match p
    case Idle => G.BeginPush(value)
    case Loaded(_, _) => G.CheckRoom
    case Room(_, _) => G.StoreSlot
    case Stored(_, _) => G.Publish
  }

  function NextPop(c: G.Consumer): G.Step {
    match c
    case Resting => G.BeginPop
    case Looked(_) => G.CheckAny
    case Found(_) => G.TakeSlot
    case Got(_, _) => G.FreeSlot
  }

  function Work(s: State, q0: seq<u64>, q1: seq<u64>, rounds: nat): Step
    requires rounds < DONE
  {
    if s.ping.Boot? then Enter
    else if s.ping.StartPeer? then Start(true)
    else if s.ping.Faulting? then Reset
    else if PingSays(s, rounds).Some? then PingRing(NextPush(s.ring0.producer, PingSays(s, rounds).value))
    else if q0 != [] then PongRing(NextPop(s.ring0.consumer))
    else if q1 != [] then PingRing(NextPop(s.ring1.consumer))
    else if PongSays(s).Some? then PongRing(NextPush(s.ring1.producer, PongSays(s).value))
    else Reset
  }

  ghost predicate Nearer(s: State, step: Step, rounds: nat)
    requires rounds < DONE && Inv(s, rounds) && Enabled(s, step, rounds)
  {
    var t := Apply(s, step, rounds);
    && t.ring0.popped <= |t.ring0.pushed| && t.ring1.popped <= |t.ring1.pushed|
    && if Polls(s, step) then Measure(t, rounds) == Measure(s, rounds) else Measure(t, rounds) < Measure(s, rounds)
  }

  lemma PingPushNearer(s: State, access: G.Step, rounds: nat)
    requires rounds < DONE && Inv(s, rounds) && Enabled(s, PingRing(access), rounds) && Pushes(access)
    ensures Nearer(s, PingRing(access), rounds)
  {
    G.StepInv(s.ring0, access);
    G.StepRefines(s.ring0, access);
  }

  lemma PingPopNearer(s: State, access: G.Step, rounds: nat)
    requires rounds < DONE && Inv(s, rounds) && Enabled(s, PingRing(access), rounds) && !Pushes(access)
    ensures Nearer(s, PingRing(access), rounds)
  {
    if access.FreeSlot? { PingHears(s, rounds); } else { PingLooks(s, access, rounds); }
  }

  lemma PingLooks(s: State, access: G.Step, rounds: nat)
    requires rounds < DONE && Inv(s, rounds) && Enabled(s, PingRing(access), rounds)
    requires !Pushes(access) && !access.FreeSlot?
    ensures Nearer(s, PingRing(access), rounds)
  {
    G.StepRefines(s.ring1, access);
  }

  lemma PingHears(s: State, rounds: nat)
    requires rounds < DONE && Inv(s, rounds) && Enabled(s, PingRing(G.FreeSlot), rounds)
    ensures Nearer(s, PingRing(G.FreeSlot), rounds)
  {
    G.StepRefines(s.ring1, G.FreeSlot);
  }

  lemma PongPushNearer(s: State, access: G.Step, rounds: nat)
    requires rounds < DONE && Inv(s, rounds) && Enabled(s, PongRing(access), rounds) && Pushes(access)
    ensures Nearer(s, PongRing(access), rounds)
  {
    G.StepRefines(s.ring1, access);
  }

  lemma PongLooks(s: State, access: G.Step, rounds: nat)
    requires rounds < DONE && Inv(s, rounds) && Enabled(s, PongRing(access), rounds)
    requires !Pushes(access) && !access.FreeSlot?
    ensures Nearer(s, PongRing(access), rounds)
  {
    G.StepRefines(s.ring0, access);
  }

  lemma PongHears(s: State, rounds: nat)
    requires rounds < DONE && Inv(s, rounds) && Enabled(s, PongRing(G.FreeSlot), rounds)
    ensures Nearer(s, PongRing(G.FreeSlot), rounds)
  {
    G.StepRefines(s.ring0, G.FreeSlot);
  }

  lemma PongNearer(s: State, access: G.Step, rounds: nat)
    requires rounds < DONE && Inv(s, rounds) && Enabled(s, PongRing(access), rounds)
    ensures Nearer(s, PongRing(access), rounds)
  {
    if Pushes(access) {
      PongPushNearer(s, access, rounds);
    } else if access.FreeSlot? {
      PongHears(s, rounds);
    } else {
      PongLooks(s, access, rounds);
    }
  }

  /** Every access but a look at an empty ring brings the end nearer, and such a look
      takes nothing back. */
  lemma StepNearer(s: State, step: Step, rounds: nat)
    requires rounds < DONE && Inv(s, rounds) && Enabled(s, step, rounds)
    ensures Nearer(s, step, rounds)
  {
    match step
    case PingRing(access) =>
      if Pushes(access) { PingPushNearer(s, access, rounds); } else { PingPopNearer(s, access, rounds); }
    case PongRing(access) => PongNearer(s, access, rounds);
    case _ =>
  }

  /** Until the initiator is over one core always has such an access to make. */
  lemma NeverStuck(s: State, steps: seq<Step>, rounds: nat)
    requires rounds < DONE && Initial(s) && Run(s, steps, rounds).Some?
    ensures var t := Run(s, steps, rounds).value;
            && t.ring0.popped <= |t.ring0.pushed| && t.ring1.popped <= |t.ring1.pushed|
            && (t.ping.Over? || t.ping.Failed? ||
                (var work := Work(t, G.Queue(t.ring0), G.Queue(t.ring1), rounds);
                 Enabled(t, work, rounds) && !Polls(t, work)))
  {
    InitialInv(s, rounds);
    RunInv(s, steps, rounds);
    var t := Run(s, steps, rounds).value;
    if !t.ping.Over? && !t.ping.Failed? {
      HasWork(t, rounds);
    }
  }

  lemma HasWork(s: State, rounds: nat)
    requires rounds < DONE && Inv(s, rounds) && !s.ping.Over? && !s.ping.Failed?
    ensures var work := Work(s, G.Queue(s.ring0), G.Queue(s.ring1), rounds);
            Enabled(s, work, rounds) && !Polls(s, work)
  {}

  /** The accesses of a run that are not looks at an empty ring. */
  function Working(s: State, steps: seq<Step>, rounds: nat): nat
    requires rounds < DONE
    decreases |steps|
  {
    if steps == [] || !Enabled(s, steps[0], rounds) || s.ring0.popped > |s.ring0.pushed| || s.ring1.popped > |s.ring1.pushed|
    then 0
    else (if Polls(s, steps[0]) then 0 else 1) + Working(Apply(s, steps[0], rounds), steps[1..], rounds)
  }

  /** So whatever the interleaving, at most a fixed number of accesses stand between
      the start and the DONE exchange: twenty a round and seventy more. */
  lemma FinishesInTime(s: State, steps: seq<Step>, rounds: nat)
    requires rounds < DONE && Initial(s) && Run(s, steps, rounds).Some?
    ensures Working(s, steps, rounds) <= 20 * rounds + 70
  {
    InitialInv(s, rounds);
    WorkIsBounded(s, steps, rounds);
  }

  lemma {:induction false} WorkIsBounded(s: State, steps: seq<Step>, rounds: nat)
    requires rounds < DONE && Inv(s, rounds) && Run(s, steps, rounds).Some?
    ensures 0 <= Working(s, steps, rounds) <= Measure(s, rounds)
    decreases |steps|
  {
    if steps == [] {
      NeverNegative(s, rounds);
    } else {
      StepInv(s, steps[0], rounds);
      StepNearer(s, steps[0], rounds);
      WorkIsBounded(Apply(s, steps[0], rounds), steps[1..], rounds);
    }
  }

  lemma NeverNegative(s: State, rounds: nat)
    requires rounds < DONE && Inv(s, rounds)
    ensures Measure(s, rounds) >= 0
  {}

  // --- What was said ---------------------------------------------------------------------

  function Rounds(n: nat): (r: seq<u64>)
    requires n < DONE
    ensures |r| == n && forall i :: 0 <= i < n ==> r[i] == i + 1
  {
    seq(n, i requires 0 <= i < n => i + 1)
  }

  lemma OneMoreRound(n: nat)
    requires n + 1 < DONE
    ensures Rounds(n + 1) == Rounds(n) + [n + 1]
  {}

  predicate RoundOk(s: State, rounds: nat) {
    (s.ping.Sending? || s.ping.AwaitEcho? ==> 1 <= s.ping.round <= rounds)
  }

  /** What the initiator has sent, for each point of its program. */
  function Sent(s: State, rounds: nat): seq<u64>
    requires rounds < DONE && RoundOk(s, rounds)
  {
    match s.ping
    case Boot => if s.count == 0 then [] else Rounds(rounds)
    case StartPeer => []
    case AwaitReady => []
    case Sending(round) => Rounds(round - 1)
    case AwaitEcho(round) => Rounds(round)
    case Faulting => Rounds(rounds)
    case SendingDone => Rounds(rounds)
    case AwaitDone => Rounds(rounds) + [DONE]
    case Over => Rounds(rounds) + [DONE]
    case Failed(_) => []
  }

  /** And what it has been told. */
  function Told(s: State, rounds: nat): seq<u64>
    requires rounds < DONE && RoundOk(s, rounds)
  {
    match s.ping
    case Boot => if s.count == 0 then [] else [READY] + Rounds(rounds)
    case StartPeer => []
    case AwaitReady => []
    case Sending(round) => [READY] + Rounds(round - 1)
    case AwaitEcho(round) => [READY] + Rounds(round - 1)
    case Faulting => [READY] + Rounds(rounds)
    case SendingDone => [READY] + Rounds(rounds)
    case AwaitDone => [READY] + Rounds(rounds)
    case Over => [READY] + Rounds(rounds) + [DONE]
    case Failed(_) => []
  }

  ghost predicate Transcript(s: State, rounds: nat)
    requires rounds < DONE && Inv(s, rounds)
  {
    && RoundOk(s, rounds) && s.ring1.popped <= |s.ring1.pushed|
    && s.ring0.pushed == Sent(s, rounds) && s.ring1.pushed[..s.ring1.popped] == Told(s, rounds)
  }

  lemma PingPushTranscript(s: State, access: G.Step, rounds: nat)
    requires rounds < DONE && Inv(s, rounds) && Transcript(s, rounds)
    requires Enabled(s, PingRing(access), rounds) && Pushes(access)
    ensures Inv(Apply(s, PingRing(access), rounds), rounds) && Transcript(Apply(s, PingRing(access), rounds), rounds)
  {
    PingPushInv(s, access, rounds);
    if s.ping.Sending? { OneMoreRound(s.ping.round - 1); }
  }

  lemma PingPopTranscript(s: State, access: G.Step, rounds: nat)
    requires rounds < DONE && Inv(s, rounds) && Transcript(s, rounds)
    requires Enabled(s, PingRing(access), rounds) && !Pushes(access)
    ensures Inv(Apply(s, PingRing(access), rounds), rounds) && Transcript(Apply(s, PingRing(access), rounds), rounds)
  {
    PingPopInv(s, access, rounds);
    if access.FreeSlot? {
      HeardTranscript(s, rounds);
    } else {
      LookFrame(s, access, rounds);
      SameTalk(s, Apply(s, PingRing(access), rounds), rounds);
    }
  }

  /** Looking at a ring moves nothing in it. */
  lemma LookFrame(s: State, access: G.Step, rounds: nat)
    requires rounds < DONE && Enabled(s, PingRing(access), rounds) && !Pushes(access) && !access.FreeSlot?
    ensures var t := Apply(s, PingRing(access), rounds);
            && t.ping == s.ping && t.count == s.count && t.ring0.pushed == s.ring0.pushed
            && t.ring1.popped == s.ring1.popped && t.ring1.pushed == s.ring1.pushed
  {}

  /** The value freed is the one after those told before. */
  lemma NextTold(r: G.Ring)
    requires G.Inv(r) && G.Enabled(r, G.FreeSlot)
    ensures var t := G.Apply(r, G.FreeSlot);
            && t.pushed == r.pushed && r.popped + 1 == t.popped <= |t.pushed|
            && t.pushed[..t.popped] == r.pushed[..r.popped] + [r.consumer.value]
  {
    G.StepRefines(r, G.FreeSlot);
    assert G.Queue(r)[0] == r.pushed[r.popped];
  }

  lemma HeardTranscript(s: State, rounds: nat)
    requires rounds < DONE && Inv(s, rounds) && Transcript(s, rounds) && Enabled(s, PingRing(G.FreeSlot), rounds)
    ensures var t := Apply(s, PingRing(G.FreeSlot), rounds);
            && RoundOk(t, rounds) && t.ring1.popped <= |t.ring1.pushed| && t.ring0.pushed == Sent(t, rounds)
            && t.ring1.pushed[..t.ring1.popped] == Told(t, rounds)
  {
    NextTold(s.ring1);
    HeardRight(s, rounds);
    HeardGrows(s, s.ring1.consumer.value, rounds);
  }

  /** What it hears is what was due. */
  lemma HeardRight(s: State, rounds: nat)
    requires rounds < DONE && Inv(s, rounds) && Enabled(s, PingRing(G.FreeSlot), rounds)
    ensures s.ring1.consumer.value == if s.ping.AwaitReady? then READY else if s.ping.AwaitEcho? then s.ping.round else DONE
    ensures s.ping.AwaitReady? ==> s.run == 1
    ensures s.ping.AwaitEcho? ==> s.run == 1
    ensures s.ping.AwaitDone? ==> s.run == RUNS
  {
    G.StepRefines(s.ring1, G.FreeSlot);
  }

  lemma HeardGrows(s: State, value: u64, rounds: nat)
    requires rounds < DONE && PingListens(s) && RoundOk(s, rounds) && (s.ping.AwaitDone? ==> s.run == RUNS)
    requires s.ping.AwaitReady? || s.ping.AwaitEcho? ==> s.run == 1
    requires value == if s.ping.AwaitReady? then READY else if s.ping.AwaitEcho? then s.ping.round else DONE
    ensures var t := s.(ping := Heard(s, value, rounds));
            RoundOk(t, rounds) && Told(t, rounds) == Told(s, rounds) + [value] && Sent(t, rounds) == Sent(s, rounds)
  {
    if s.ping.AwaitReady? {
      assert Rounds(0) == [];
    } else if s.ping.AwaitEcho? {
      OneMoreRound(s.ping.round - 1);
      assert [READY] + Rounds(s.ping.round - 1) + [s.ping.round] == [READY] + Rounds(s.ping.round);
    }
  }

  lemma PongTranscript(s: State, access: G.Step, rounds: nat)
    requires rounds < DONE && Inv(s, rounds) && Transcript(s, rounds) && Enabled(s, PongRing(access), rounds)
    ensures Inv(Apply(s, PongRing(access), rounds), rounds) && Transcript(Apply(s, PongRing(access), rounds), rounds)
  {
    StepInv(s, PongRing(access), rounds);
    PongFrame(s, access, rounds);
    SameTalk(s, Apply(s, PongRing(access), rounds), rounds);
  }

  /** The responder adds to what it says and moves nothing of the initiator's. */
  lemma PongFrame(s: State, access: G.Step, rounds: nat)
    requires rounds < DONE && Enabled(s, PongRing(access), rounds)
    ensures var t := Apply(s, PongRing(access), rounds);
            && t.ping == s.ping && t.count == s.count && t.ring0.pushed == s.ring0.pushed
            && t.ring1.popped == s.ring1.popped && s.ring1.pushed <= t.ring1.pushed
  {}

  lemma SameTalk(s: State, t: State, rounds: nat)
    requires rounds < DONE && RoundOk(s, rounds) && s.ring1.popped <= |s.ring1.pushed|
    requires s.ring0.pushed == Sent(s, rounds) && s.ring1.pushed[..s.ring1.popped] == Told(s, rounds)
    requires t.ping == s.ping && t.count == s.count && t.ring0.pushed == s.ring0.pushed
    requires t.ring1.popped == s.ring1.popped && s.ring1.pushed <= t.ring1.pushed
    ensures RoundOk(t, rounds) && t.ring1.popped <= |t.ring1.pushed|
    ensures t.ring0.pushed == Sent(t, rounds) && t.ring1.pushed[..t.ring1.popped] == Told(t, rounds)
  {}

  lemma QuietTranscript(s: State, step: Step, rounds: nat)
    requires rounds < DONE && Inv(s, rounds) && Transcript(s, rounds) && Enabled(s, step, rounds)
    requires step.Enter? || step.Start? || step.Reset?
    ensures Inv(Apply(s, step, rounds), rounds) && Transcript(Apply(s, step, rounds), rounds)
  {
    StepInv(s, step, rounds);
    QuietFrame(s, step, rounds);
  }

  /** Entering, starting and resetting say nothing. */
  lemma QuietFrame(s: State, step: Step, rounds: nat)
    requires rounds < DONE && Enabled(s, step, rounds) && (step.Enter? || step.Start? || step.Reset?)
    requires s.ping.Faulting? ==> s.count > 0
    ensures var t := Apply(s, step, rounds);
            && t.ring0 == s.ring0 && t.ring1 == s.ring1 && RoundOk(s, rounds) && RoundOk(t, rounds)
            && Sent(t, rounds) == Sent(s, rounds) && Told(t, rounds) == Told(s, rounds)
  {}

  lemma StepTranscript(s: State, step: Step, rounds: nat)
    requires rounds < DONE && Inv(s, rounds) && Transcript(s, rounds) && Enabled(s, step, rounds)
    ensures Inv(Apply(s, step, rounds), rounds) && Transcript(Apply(s, step, rounds), rounds)
  {
    match step
    case PingRing(access) =>
      if Pushes(access) { PingPushTranscript(s, access, rounds); } else { PingPopTranscript(s, access, rounds); }
    case PongRing(access) => PongTranscript(s, access, rounds);
    case _ => QuietTranscript(s, step, rounds);
  }

  lemma {:induction false} RunTranscript(s: State, steps: seq<Step>, rounds: nat)
    requires rounds < DONE && Inv(s, rounds) && Transcript(s, rounds) && Run(s, steps, rounds).Some?
    ensures Inv(Run(s, steps, rounds).value, rounds) && Transcript(Run(s, steps, rounds).value, rounds)
    decreases |steps|
  {
    if steps != [] {
      StepTranscript(s, steps[0], rounds);
      RunTranscript(Apply(s, steps[0], rounds), steps[1..], rounds);
    }
  }

  /** However the accesses interleave, by the end the initiator has sent every round in
      order and DONE, across its resets, and the responder READY, every round and DONE. */
  lemma SaidEverything(s: State, steps: seq<Step>, rounds: nat)
    requires rounds < DONE && Initial(s) && Run(s, steps, rounds).Some? && Run(s, steps, rounds).value.ping.Over?
    ensures var t := Run(s, steps, rounds).value;
            && t.ring0.pushed == Rounds(rounds) + [DONE] && t.ring1.pushed == [READY] + Rounds(rounds) + [DONE]
            && t.ring0.popped == rounds + 1 && t.ring1.popped == rounds + 2
  {
    InitialInv(s, rounds);
    RunTranscript(s, steps, rounds);
    var t := Run(s, steps, rounds).value;
    assert |G.Queue(t.ring0)| == |t.ring0.pushed| - t.ring0.popped && |G.Queue(t.ring1)| == |t.ring1.pushed| - t.ring1.popped;
  }

  /** The exchange fails exactly when the hypervisor refused to start the responder. */
  lemma FailsIffRefused(s: State, steps: seq<Step>, rounds: nat)
    requires rounds < DONE && Initial(s) && Run(s, steps, rounds).Some?
    ensures Run(s, steps, rounds).value.ping.Failed? <==> Start(false) in steps
  {
    InitialInv(s, rounds);
    RefusalFails(s, steps, rounds);
  }

  lemma {:induction false} RefusalFails(s: State, steps: seq<Step>, rounds: nat)
    requires rounds < DONE && Inv(s, rounds) && Run(s, steps, rounds).Some?
    ensures Run(s, steps, rounds).value.ping.Failed? <==> s.ping.Failed? || Start(false) in steps
    decreases |steps|
  {
    if steps != [] {
      var t := Apply(s, steps[0], rounds);
      StepInv(s, steps[0], rounds);
      RefusalFails(t, steps[1..], rounds);
      StepFails(s, steps[0], rounds);
      assert steps == [steps[0]] + steps[1..];
    }
  }

  lemma StepFails(s: State, step: Step, rounds: nat)
    requires rounds < DONE && Inv(s, rounds) && Enabled(s, step, rounds)
    ensures Apply(s, step, rounds).ping.Failed? <==> s.ping.Failed? || step == Start(false)
  {
    StepInv(s, step, rounds);
  }
}
