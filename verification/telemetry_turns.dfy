/** What one publishing turn does, in the interleaved protocol: for whom, with which
    stamp, within what budget, and what it leaves when nobody interferes. */
module TelemetryTurns {
  import opened Words
  import opened Rounds
  import opened Telemetry
  import opened TelemetrySafety
  import opened TelemetryPublisher
  import opened TelemetryTail
  import opened FreshRuns
  import L = SpinLock
  import LockProgress

  // --- What a core was asked for -------------------------------------------------

  datatype Asked = Asked(kind: Kind, stamp: u64)

  /** The last call a core made in a run. */
  function LastCall(steps: seq<Step>, t: Tid): Option<Asked> {
    if steps == [] then None
    else
      var last := steps[|steps| - 1];
      if last.Call? && last.t == t then Some(Asked(last.kind, last.stamp)) else LastCall(steps[..|steps| - 1], t)
  }

  /** The slots a turn may still open: within its budget, and within the table. */
  predicate Affords(cfg: Config, turn: Turn) {
    match turn
    case Periodic(visited, spent) => spent < cfg.budget && visited < |cfg.spans|
    case Final(index) => index < |cfg.spans|
  }

  predicate TurnOf(turn: Turn, stamp: u64, asked: Option<Asked>) {
    && asked.Some? && stamp == asked.value.stamp && (turn.Periodic? <==> asked.value.kind.Budgeted?)
  }

  /** A core in a turn is in the turn it called for, with the stamp it called with; it
      opens a slot only if the turn can pay; and one that moved shows that stamp. */
  ghost predicate AsAsked(cfg: Config, s: State, t: Tid, asked: Option<Asked>)
    requires t in s.works
  {
    match s.works[t]
    case Out => true
    case Pending(kind, stamp) => asked == Some(Asked(kind, stamp))
    case Between(turn, stamp) => TurnOf(turn, stamp, asked)
    case Opening(turn, stamp, _) => TurnOf(turn, stamp, asked) && Affords(cfg, turn)
    case Copying(turn, stamp, _, _, _, _) => TurnOf(turn, stamp, asked) && Affords(cfg, turn)
    case Closing(turn, stamp, _, moved) =>
      && TurnOf(turn, stamp, asked) && Affords(cfg, turn)
      && SlotOf(s.cursor, turn) < |s.cells| && (moved ==> s.cells[SlotOf(s.cursor, turn)].stamp == stamp)
    case Leaving => true
  }

  ghost predicate AllAsAsked(cfg: Config, s: State, done: seq<Step>) {
    forall t :: t in s.works ==> AsAsked(cfg, s, t, LastCall(done, t))
  }

  lemma LastCallSnoc(done: seq<Step>, step: Step, t: Tid)
    ensures LastCall(done + [step], t) ==
            if step.Call? && step.t == t then Some(Asked(step.kind, step.stamp)) else LastCall(done, t)
  {
    assert (done + [step])[..|done|] == done;
  }

  /** The core that steps. */
  lemma MineAsAsked(cfg: Config, s: State, t: Tid, asked: Option<Asked>)
    requires Base(cfg, s) && Enabled(cfg, s, Advance(t)) && AsAsked(cfg, s, t, asked)
    ensures var e := Apply(cfg, s, Advance(t)); t in e.works && AsAsked(cfg, e, t, asked)
  {
    assert WorkShape(cfg, s.cursor, s.works[t]) && PhaseFits(s.works[t], s.lock.phase[t]);
  }

  /** Any other: it is inside no window that this step could touch. */
  lemma OtherAsAsked(cfg: Config, s: State, t: Tid, u: Tid, asked: Option<Asked>)
    requires Base(cfg, s) && Enabled(cfg, s, Advance(t)) && u in s.works && u != t && AsAsked(cfg, s, u, asked)
    ensures var e := Apply(cfg, s, Advance(t)); u in e.works && AsAsked(cfg, e, u, asked)
  {
    OnlyItsWork(cfg, s, t);
    if s.works[u].Closing? && InTurn(s.works[t]) { OneInTurn(cfg, s, t, u); }
    if s.works[u].Closing? { CellsStay(cfg, s, t); }
  }

  lemma CellsStay(cfg: Config, s: State, t: Tid)
    requires Base(cfg, s) && Enabled(cfg, s, Advance(t)) && !InTurn(s.works[t])
    ensures Apply(cfg, s, Advance(t)).cells == s.cells && Apply(cfg, s, Advance(t)).cursor == s.cursor
  {
    assert PhaseFits(s.works[t], s.lock.phase[t]);
  }

  lemma StepAsAsked(cfg: Config, s: State, done: seq<Step>, step: Step)
    requires Base(cfg, s) && Enabled(cfg, s, step) && AllAsAsked(cfg, s, done)
    ensures AllAsAsked(cfg, Apply(cfg, s, step), done + [step])
  {
    var e := Apply(cfg, s, step);
    forall u | u in e.works ensures AsAsked(cfg, e, u, LastCall(done + [step], u)) {
      LastCallSnoc(done, step, u);
      if step.Advance? {
        OnlyItsWork(cfg, s, step.t);
        assert u in s.works;
        if u == step.t { MineAsAsked(cfg, s, u, LastCall(done, u)); } else { OtherAsAsked(cfg, s, step.t, u, LastCall(done, u)); }
      } else {
        assert u in s.works && AsAsked(cfg, s, u, LastCall(done, u));
      }
    }
  }

  lemma {:induction false} RunAsAsked(cfg: Config, s: State, done: seq<Step>, steps: seq<Step>, e: State)
    requires Base(cfg, s) && AllAsAsked(cfg, s, done) && Reaches(cfg, s, steps, e)
    ensures AllAsAsked(cfg, e, done + steps)
    decreases |steps|
  {
    if steps == [] {
      assert done + steps == done;
    } else {
      ApplyBase(cfg, s, steps[0]);
      StepAsAsked(cfg, s, done, steps[0]);
      RunAsAsked(cfg, Apply(cfg, s, steps[0]), done + [steps[0]], steps[1..], e);
      assert done + [steps[0]] + steps[1..] == done + steps;
    }
  }

  /** In every reachable state. */
  lemma TurnsAreAsAsked(cfg: Config, threads: set<Tid>, start: State, steps: seq<Step>, e: State)
    requires |threads| <= TWO_32 && Initial(cfg, threads, start) && Reaches(cfg, start, steps, e)
    ensures AllAsAsked(cfg, e, steps)
  {
    InitialInv(cfg, threads, start);
    RunAsAsked(cfg, start, [], steps, e);
    assert [] + steps == steps;
  }

  /** What one closing step appends: the version moves by at most one, and then the
      stamp is the call's. */
  ghost predicate ClosesFor(before: seq<Close>, after: seq<Close>, asked: Option<Asked>) {
    && before != [] && asked.Some? && |after| == |before| + 1 && after == before + [Last(after)]
    && (Last(after).version == Last(before).version ||
        (Last(after).version == Last(before).version + 1 && Last(after).stamp == asked.value.stamp))
  }

  lemma ClosedFor(cfg: Config, s: State, t: Tid, i: nat, asked: Option<Asked>)
    requires Base(cfg, s) && Enabled(cfg, s, Advance(t)) && i < |cfg.spans| && s.closes[i] != []
    requires AsAsked(cfg, s, t, asked) && Apply(cfg, s, Advance(t)).closes[i] != s.closes[i]
    ensures ClosesFor(s.closes[i], Apply(cfg, s, Advance(t)).closes[i], asked)
    ensures s.works[t].Closing? && SlotOf(s.cursor, s.works[t].turn) == i
  {
    assert WorkShape(cfg, s.cursor, s.works[t]) && PhaseFits(s.works[t], s.lock.phase[t]);
  }

  /** So in every run, whatever else goes on: a step that closes a slot does so for the
      core's own call, and if the content moved the close carries that call's stamp. */
  lemma CloseCarriesStamp(cfg: Config, threads: set<Tid>, start: State, steps: seq<Step>, s: State, t: Tid, i: nat)
    requires |threads| <= TWO_32 && Initial(cfg, threads, start) && Reaches(cfg, start, steps, s)
    requires Shape(cfg, s) && Enabled(cfg, s, Advance(t)) && i < |cfg.spans|
    requires Apply(cfg, s, Advance(t)).closes[i] != s.closes[i]
    ensures ClosesFor(s.closes[i], Apply(cfg, s, Advance(t)).closes[i], LastCall(steps, t))
  {
    InitialInv(cfg, threads, start);
    RunBase(cfg, start, steps, s);
    TurnsAreAsAsked(cfg, threads, start, steps, s);
    ClosedOnce(cfg, start, steps, s, i);
    ClosedFor(cfg, s, t, i, LastCall(steps, t));
  }

  /** And where the source holds still inside the windows, that close is to the one
      before it what a sequential publish with the call's stamp makes of a cell. */
  lemma CloseIsPublish(cfg: Config, threads: set<Tid>, start: State, steps: seq<Step>, s: State, t: Tid, i: nat)
    requires |threads| <= TWO_32 && Initial(cfg, threads, start) && Reaches(cfg, start, steps, s) && StillRun(cfg, start, steps)
    requires Shape(cfg, s) && Enabled(cfg, s, Advance(t)) && i < |cfg.spans|
    requires Apply(cfg, s, Advance(t)).closes[i] != s.closes[i]
    ensures ClosesFor(s.closes[i], Apply(cfg, s, Advance(t)).closes[i], LastCall(steps, t))
    ensures CellOfClose(Last(Apply(cfg, s, Advance(t)).closes[i])) ==
            Published(CellOfClose(Last(s.closes[i])), Last(Apply(cfg, s, Advance(t)).closes[i]).payload,
                      LastCall(steps, t).value.stamp)
  {
    InitialInv(cfg, threads, start);
    RunInv(cfg, start, steps, s);
    TurnsAreAsAsked(cfg, threads, start, steps, s);
    PublishedFor(cfg, s, t, i, LastCall(steps, t));
  }

  lemma PublishedFor(cfg: Config, s: State, t: Tid, i: nat, asked: Option<Asked>)
    requires Inv(cfg, s) && Enabled(cfg, s, Advance(t)) && i < |cfg.spans| && AsAsked(cfg, s, t, asked)
    requires Apply(cfg, s, Advance(t)).closes[i] != s.closes[i]
    ensures ClosesFor(s.closes[i], Apply(cfg, s, Advance(t)).closes[i], asked)
    ensures CellOfClose(Last(Apply(cfg, s, Advance(t)).closes[i])) ==
            Published(CellOfClose(Last(s.closes[i])), Last(Apply(cfg, s, Advance(t)).closes[i]).payload, asked.value.stamp)
  {
    assert CellOk(cfg, s, i);
    ClosedFor(cfg, s, t, i, asked);
    OneClose(cfg, s, t, i);
    NextClose(s.closes[i], Apply(cfg, s, Advance(t)).closes[i], asked);
  }

  function CellOfClose(c: Close): Cell { Cell(c.sequence, c.stamp, c.payload) }

  /** What the step reads of the open cell. */
  lemma OneClose(cfg: Config, s: State, t: Tid, i: nat)
    requires Inv(cfg, s) && Enabled(cfg, s, Advance(t)) && i < |cfg.spans|
    requires s.works[t].Closing? && SlotOf(s.cursor, s.works[t].turn) == i
    ensures var e := Apply(cfg, s, Advance(t));
            s.closes[i] != [] && |e.closes[i]| == |s.closes[i]| + 1 &&
            var a, b := Last(s.closes[i]), Last(e.closes[i]);
            && (b.version != a.version <==> b.payload != a.payload)
            && b.sequence == (if b.version != a.version then (a.sequence + 2) % TWO_64 else a.sequence)
            && (b.version == a.version ==> b.stamp == a.stamp)
  {
    assert WorkShape(cfg, s.cursor, s.works[t]) && PhaseFits(s.works[t], s.lock.phase[t]);
    assert CellOk(cfg, s, i) && Owns(s, t, i);
  }

  lemma NextClose(before: seq<Close>, after: seq<Close>, asked: Option<Asked>)
    requires ClosesFor(before, after, asked)
    requires var a, b := Last(before), Last(after);
             && (b.version != a.version <==> b.payload != a.payload)
             && b.sequence == (if b.version != a.version then (a.sequence + 2) % TWO_64 else a.sequence)
             && (b.version == a.version ==> b.stamp == a.stamp)
    ensures CellOfClose(Last(after)) == Published(CellOfClose(Last(before)), Last(after).payload, asked.value.stamp)
  {}

  /** bind() gave each slot its first close. */
  lemma {:induction false} ClosedOnce(cfg: Config, s: State, steps: seq<Step>, e: State, i: nat)
    requires Base(cfg, s) && Reaches(cfg, s, steps, e) && i < |cfg.spans| && s.closes[i] != []
    ensures |e.closes| == |cfg.spans| && e.closes[i] != []
    decreases |steps|
  {
    if steps != [] {
      ApplyBase(cfg, s, steps[0]);
      CursorStep(cfg, s, steps[0], i);
      ClosedOnce(cfg, Apply(cfg, s, steps[0]), steps[1..], e, i);
    }
  }

  // --- A turn with nobody else about -------------------------------------------------

  function Advances(t: Tid, n: nat): seq<Step> { seq(n, _ => Advance(t)) }

  /** The core alone gets from one state to the other, by the next accesses of its turn. */
  ghost predicate Alone(cfg: Config, s: State, t: Tid, e: State) {
    exists n: nat :: Reaches(cfg, s, Advances(t, n), e)
  }

  lemma AloneNot(cfg: Config, s: State, t: Tid)
    ensures Alone(cfg, s, t, s)
  {
    assert Reaches(cfg, s, Advances(t, 0), s);
  }

  lemma AloneOn(cfg: Config, s: State, t: Tid, m: State, e: State)
    requires Alone(cfg, s, t, m) && Alone(cfg, m, t, e)
    ensures Alone(cfg, s, t, e)
  {
    var a: nat :| Reaches(cfg, s, Advances(t, a), m);
    var b: nat :| Reaches(cfg, m, Advances(t, b), e);
    Then(cfg, s, Advances(t, a), m, Advances(t, b), e);
    assert Advances(t, a) + Advances(t, b) == Advances(t, a + b);
  }

  lemma AloneBase(cfg: Config, s: State, t: Tid, e: State)
    requires Base(cfg, s) && Alone(cfg, s, t, e)
    ensures Base(cfg, e)
  {
    var n: nat :| Reaches(cfg, s, Advances(t, n), e);
    RunBase(cfg, s, Advances(t, n), e);
  }

  lemma AloneOnce(cfg: Config, s: State, t: Tid) returns (e: State)
    requires Base(cfg, s) && Enabled(cfg, s, Advance(t))
    ensures e == Apply(cfg, s, Advance(t)) && Base(cfg, e) && Alone(cfg, s, t, e)
  {
    e := Apply(cfg, s, Advance(t));
    ApplyBase(cfg, s, Advance(t));
    assert Advances(t, 1)[1..] == [] && Advances(t, 1)[0] == Advance(t);
    assert Reaches(cfg, e, [], e);
    assert Reaches(cfg, s, Advances(t, 1), e);
  }

  // One slot.

  /** The core is copying slot i: `at` bytes are the global's, the rest as they were,
      and it knows whether any differed. */
  ghost predicate CopiedTo(cfg: Config, s: State, t: Tid, turn: Turn, stamp: u64, was: Cell, at: nat, moved: bool) {
    match WorkOf(s, t)
    case Copying(turn', stamp', start, at', moved', Nothing) =>
      && turn' == turn && stamp' == stamp && start == was.sequence && at' == at && moved' == moved
      && SlotOf(s.cursor, turn) < |cfg.spans| == |s.cells| == |s.live|
      && var i := SlotOf(s.cursor, turn);
         && |was.payload| == |s.live[i]| == cfg.spans[i].bytes && at <= cfg.spans[i].bytes
         && s.cells[i] == Cell((was.sequence + 1) % TWO_64, was.stamp, s.live[i][..at] + was.payload[at..])
         && (moved <==> s.live[i][..at] != was.payload[..at])
    case _ => false
  }

  function WorkOf(s: State, t: Tid): Work { if t in s.works then s.works[t] else Out }

  /** Everything else is as it was. */
  predicate Elsewhere(s: State, e: State, t: Tid, i: nat) {
    && t in s.works && t in e.works && e.works == s.works[t := e.works[t]]
    && i < |s.cells| == |e.cells| && e.cells == s.cells[i := e.cells[i]]
    && e.live == s.live && e.lock == s.lock && e.readers == s.readers && e.accepted == s.accepted
  }

  lemma ElsewhereOn(s: State, m: State, e: State, t: Tid, i: nat)
    requires Elsewhere(s, m, t, i) && Elsewhere(m, e, t, i)
    ensures Elsewhere(s, e, t, i)
  {}

  /** The first access of a unit: a word of the global, or a byte compared. */
  function HalfOf(w: Work, span: Span, payload: seq<byte>, live: seq<byte>): Work
    requires w.Copying? && w.at < |live| == |payload| == span.bytes
  {
    if WordAt(span, w.at) then w.(held := Loaded(live[w.at..w.at + WORD]))
    else w.(moved := w.moved || payload[w.at] != live[w.at], held := Compared)
  }

  /** The first half done. */
  ghost predicate Halved(cfg: Config, s: State, m: State, t: Tid, turn: Turn) {
    var i := SlotOf(s.cursor, turn);
    && i < |cfg.spans| && i < |s.live| && Elsewhere(s, m, t, i) && m.cursor == s.cursor && m.cells == s.cells
    && s.works[t].Copying? && s.works[t].at < |s.live[i]| == |s.cells[i].payload| == cfg.spans[i].bytes
    && m.works[t] == HalfOf(s.works[t], cfg.spans[i], s.cells[i].payload, s.live[i])
  }

  lemma HalfUnit(cfg: Config, s: State, t: Tid, turn: Turn, stamp: u64, was: Cell, at: nat, moved: bool)
    requires Base(cfg, s) && CopiedTo(cfg, s, t, turn, stamp, was, at, moved)
    requires at < cfg.spans[SlotOf(s.cursor, turn)].bytes
    ensures Halved(cfg, s, Apply(cfg, s, Advance(t)), t, turn)
  {
    assert CellShape(cfg, s, SlotOf(s.cursor, turn)) && WorkShape(cfg, s.cursor, s.works[t]);
  }

  /** The second: the word stored, or the byte read again and stored. */
  ghost predicate HalfStored(cfg: Config, s: State, e: State, t: Tid, w: Work) {
    var i := if w.Copying? then SlotOf(s.cursor, w.turn) else 0;
    && w.Copying? && i < |cfg.spans| && i < |s.live| && Elsewhere(s, e, t, i) && e.cursor == s.cursor
    && w.at < cfg.spans[i].bytes == |s.cells[i].payload| == |s.live[i]|
    && var cell := s.cells[i];
       if w.held.Loaded? then
         && WordAt(cfg.spans[i], w.at) && |w.held.word| == WORD
         && e.cells[i] == cell.(payload := cell.payload[..w.at] + w.held.word + cell.payload[w.at + WORD..])
         && e.works[t] == w.(at := w.at + WORD, held := Nothing,
                             moved := w.moved || cell.payload[w.at..w.at + WORD] != w.held.word)
       else
         && e.cells[i] == cell.(payload := cell.payload[w.at := s.live[i][w.at]])
         && e.works[t] == w.(at := w.at + 1, held := Nothing)
  }

  lemma OtherHalf(cfg: Config, s: State, t: Tid, w: Work)
    requires Base(cfg, s) && t in s.works && s.works[t] == w && w.Copying? && !w.held.Nothing?
    ensures HalfStored(cfg, s, Apply(cfg, s, Advance(t)), t, w)
  {
    assert WorkShape(cfg, s.cursor, w) && CellShape(cfg, s, SlotOf(s.cursor, w.turn));
  }

  /** One word, or one byte, and on. */
  lemma UnitAlone(cfg: Config, s: State, t: Tid, turn: Turn, stamp: u64, was: Cell, at: nat, moved: bool)
    returns (e: State, next: nat, moves: bool)
    requires Base(cfg, s) && CopiedTo(cfg, s, t, turn, stamp, was, at, moved)
    requires at < cfg.spans[SlotOf(s.cursor, turn)].bytes
    ensures Alone(cfg, s, t, e) && Base(cfg, e)
    ensures e.cursor == s.cursor && Elsewhere(s, e, t, SlotOf(s.cursor, turn)) && next > at
    ensures CopiedTo(cfg, e, t, turn, stamp, was, next, moves)
  {
    var m := AloneOnce(cfg, s, t);
    HalfUnit(cfg, s, t, turn, stamp, was, at, moved);
    e := AloneOnce(cfg, m, t);
    OtherHalf(cfg, m, t, m.works[t]);
    AloneOn(cfg, s, t, m, e);
    next, moves := Unit(cfg, s, m, e, t, turn, stamp, was, at, moved);
  }

  /** The two halves together. */
  lemma Unit(cfg: Config, s: State, m: State, e: State, t: Tid, turn: Turn, stamp: u64, was: Cell, at: nat, moved: bool)
    returns (next: nat, moves: bool)
    requires CopiedTo(cfg, s, t, turn, stamp, was, at, moved) && at < cfg.spans[SlotOf(s.cursor, turn)].bytes
    requires Halved(cfg, s, m, t, turn) && HalfStored(cfg, m, e, t, m.works[t])
    ensures e.cursor == s.cursor && Elsewhere(s, e, t, SlotOf(s.cursor, turn))
    ensures next > at && CopiedTo(cfg, e, t, turn, stamp, was, next, moves)
  {
    var i := SlotOf(s.cursor, turn);
    ElsewhereOn(s, m, e, t, i);
    if WordAt(cfg.spans[i], at) {
      next := at + WORD;
      WordCopied(s.live[i], was.payload, at);
    } else {
      next := at + 1;
      ByteCopied(s.live[i], was.payload, at);
    }
    moves := s.live[i][..next] != was.payload[..next];
  }

  lemma WordCopied(live: seq<byte>, was: seq<byte>, at: nat)
    requires |live| == |was| && at + WORD <= |live|
    ensures var p, word := live[..at] + was[at..], live[at..at + WORD];
            && p[..at] + word + p[at + WORD..] == live[..at + WORD] + was[at + WORD..]
            && (live[..at + WORD] != was[..at + WORD] <==> live[..at] != was[..at] || p[at..at + WORD] != word)
  {
    assert live[..at + WORD] == live[..at] + live[at..at + WORD];
    assert was[..at + WORD] == was[..at] + was[at..at + WORD];
    var p := live[..at] + was[at..];
    assert p[at..at + WORD] == was[at..at + WORD] && p[at + WORD..] == was[at + WORD..] && p[..at] == live[..at];
  }

  lemma ByteCopied(live: seq<byte>, was: seq<byte>, at: nat)
    requires |live| == |was| && at < |live|
    ensures var p := live[..at] + was[at..];
            && p[at := live[at]] == live[..at + 1] + was[at + 1..]
            && (live[..at + 1] != was[..at + 1] <==> live[..at] != was[..at] || p[at] != live[at])
  {
    assert live[..at + 1] == live[..at] + [live[at]];
    assert was[..at + 1] == was[..at] + [was[at]];
  }

  lemma {:induction false} CopyAlone(cfg: Config, s: State, t: Tid, turn: Turn, stamp: u64, was: Cell, at: nat, moved: bool)
    returns (e: State, moves: bool)
    requires Base(cfg, s) && CopiedTo(cfg, s, t, turn, stamp, was, at, moved)
    ensures Alone(cfg, s, t, e) && Base(cfg, e) && e.cursor == s.cursor && Elsewhere(s, e, t, SlotOf(s.cursor, turn))
    ensures CopiedTo(cfg, e, t, turn, stamp, was, cfg.spans[SlotOf(s.cursor, turn)].bytes, moves)
    decreases cfg.spans[SlotOf(s.cursor, turn)].bytes - at
  {
    if at == cfg.spans[SlotOf(s.cursor, turn)].bytes {
      e, moves := s, moved;
      AloneNot(cfg, s, t);
    } else {
      var m, next, further := UnitAlone(cfg, s, t, turn, stamp, was, at, moved);
      e, moves := CopyAlone(cfg, m, t, turn, stamp, was, next, further);
      AloneOn(cfg, s, t, m, e);
      ElsewhereOn(s, m, e, t, SlotOf(s.cursor, turn));
    }
  }

  lemma OpensAlone(cfg: Config, s: State, t: Tid, turn: Turn, stamp: u64) returns (e: State)
    requires Base(cfg, s) && t in s.works && s.works[t] == Between(turn, stamp) && Affords(cfg, turn)
    ensures SlotOf(s.cursor, turn) < |cfg.spans| == |s.cells| == |s.live|
    ensures Alone(cfg, s, t, e) && Base(cfg, e) && e.cursor == s.cursor && Elsewhere(s, e, t, SlotOf(s.cursor, turn))
    ensures CopiedTo(cfg, e, t, turn, stamp, s.cells[SlotOf(s.cursor, turn)], 0, false)
  {
    var m := AloneOnce(cfg, s, t);
    SequenceLoaded(cfg, s, t, turn, stamp);
    e := AloneOnce(cfg, m, t);
    WindowOpened(cfg, m, t, turn, stamp, s.cells[SlotOf(s.cursor, turn)].sequence);
    AloneOn(cfg, s, t, m, e);
    LoadedAndOpened(cfg, s, m, e, t, turn, stamp);
  }

  ghost predicate Sequenced(cfg: Config, s: State, m: State, t: Tid, turn: Turn, stamp: u64) {
    var i := SlotOf(s.cursor, turn);
    && i < |cfg.spans| == |s.cells| == |s.live| && |s.cells[i].payload| == |s.live[i]| == cfg.spans[i].bytes
    && m.cells == s.cells && m.cursor == s.cursor && Elsewhere(s, m, t, i)
    && m.works[t] == Opening(turn, stamp, s.cells[i].sequence)
  }

  /** The sequence loaded. */
  lemma SequenceLoaded(cfg: Config, s: State, t: Tid, turn: Turn, stamp: u64)
    requires Base(cfg, s) && t in s.works && s.works[t] == Between(turn, stamp) && Affords(cfg, turn)
    ensures Sequenced(cfg, s, Apply(cfg, s, Advance(t)), t, turn, stamp)
  {
    assert CellShape(cfg, s, SlotOf(s.cursor, turn));
  }

  ghost predicate Opened(cfg: Config, s: State, e: State, t: Tid, turn: Turn, stamp: u64, start: u64) {
    var i := SlotOf(s.cursor, turn);
    && i < |cfg.spans| && e.cursor == s.cursor && Elsewhere(s, e, t, i)
    && e.cells[i] == s.cells[i].(sequence := (start + 1) % TWO_64)
    && e.works[t] == Copying(turn, stamp, start, 0, false, Nothing)
  }

  /** The odd sequence stored. */
  lemma WindowOpened(cfg: Config, s: State, t: Tid, turn: Turn, stamp: u64, start: u64)
    requires Base(cfg, s) && t in s.works && s.works[t] == Opening(turn, stamp, start)
    ensures Opened(cfg, s, Apply(cfg, s, Advance(t)), t, turn, stamp, start)
  {
    assert WorkShape(cfg, s.cursor, s.works[t]);
  }

  lemma LoadedAndOpened(cfg: Config, s: State, m: State, e: State, t: Tid, turn: Turn, stamp: u64)
    requires Sequenced(cfg, s, m, t, turn, stamp)
    requires Opened(cfg, m, e, t, turn, stamp, s.cells[SlotOf(s.cursor, turn)].sequence)
    ensures e.cursor == s.cursor && Elsewhere(s, e, t, SlotOf(s.cursor, turn))
    ensures CopiedTo(cfg, e, t, turn, stamp, s.cells[SlotOf(s.cursor, turn)], 0, false)
  {
    var i := SlotOf(s.cursor, turn);
    ElsewhereOn(s, m, e, t, i);
    NothingCopied(s.live[i], s.cells[i].payload);
  }

  lemma NothingCopied(live: seq<byte>, was: seq<byte>)
    requires |live| == |was|
    ensures live[..0] + was[0..] == was && live[..0] == was[..0]
    ensures live[..|live|] + was[|live|..] == live && live[..|live|] == live && was[..|live|] == was
  {}

  /** Where the stamp has been stored, if anything moved. */
  ghost predicate Stamped(cfg: Config, s: State, m: State, t: Tid, turn: Turn, stamp: u64, was: Cell, moved: bool) {
    var i := SlotOf(s.cursor, turn);
    && i < |cfg.spans| && i < |s.live| && m.cursor == s.cursor && Elsewhere(s, m, t, i)
    && (moved <==> s.live[i] != was.payload)
    && m.cells[i] == Cell((was.sequence + 1) % TWO_64, if moved then stamp else was.stamp, s.live[i])
    && m.works[t] == Closing(turn, stamp, was.sequence, moved)
  }

  lemma StampStored(cfg: Config, s: State, t: Tid, turn: Turn, stamp: u64, was: Cell, moved: bool)
    requires Base(cfg, s) && SlotOf(s.cursor, turn) < |cfg.spans|
    requires CopiedTo(cfg, s, t, turn, stamp, was, cfg.spans[SlotOf(s.cursor, turn)].bytes, moved)
    ensures Stamped(cfg, s, Apply(cfg, s, Advance(t)), t, turn, stamp, was, moved)
  {
    var i := SlotOf(s.cursor, turn);
    NothingCopied(s.live[i], was.payload);
    assert CellShape(cfg, s, i) && WorkShape(cfg, s.cursor, s.works[t]);
  }

  /** Where the even sequence has been stored, and the turn is further. */
  ghost predicate Shut(cfg: Config, s: State, e: State, t: Tid, turn: Turn, stamp: u64, start: u64, moved: bool) {
    var i := SlotOf(s.cursor, turn);
    && i < |cfg.spans| && Elsewhere(s, e, t, i)
    && e.cells[i] == s.cells[i].(sequence := if moved then (start + 2) % TWO_64 else start)
    && e.works[t] == Between(Further(turn, cfg.spans[i].bytes), stamp)
    && e.cursor == if turn.Periodic? then (s.cursor + 1) % |cfg.spans| else s.cursor
  }

  lemma WindowShut(cfg: Config, s: State, t: Tid, turn: Turn, stamp: u64, start: u64, moved: bool)
    requires Base(cfg, s) && t in s.works && s.works[t] == Closing(turn, stamp, start, moved)
    ensures Shut(cfg, s, Apply(cfg, s, Advance(t)), t, turn, stamp, start, moved)
  {
    assert WorkShape(cfg, s.cursor, s.works[t]);
  }

  /** A slot published, and the turn one slot on. */
  ghost predicate SlotDone(cfg: Config, s: State, e: State, t: Tid, turn: Turn, stamp: u64) {
    match WorkOf(e, t)
    case Between(turn', stamp') =>
      var i := SlotOf(s.cursor, turn);
      && i < |cfg.spans| == |s.cells| == |s.live| && Elsewhere(s, e, t, i)
      && turn' == Further(turn, cfg.spans[i].bytes) && stamp' == stamp
      && e.cells[i] == Published(s.cells[i], s.live[i], stamp)
      && e.cursor == if turn.Periodic? then (s.cursor + 1) % |cfg.spans| else s.cursor
    case _ => false
  }

  lemma StampedAndShut(cfg: Config, s: State, full: State, m: State, e: State, t: Tid, turn: Turn, stamp: u64, moved: bool)
    requires SlotOf(s.cursor, turn) < |cfg.spans| == |s.cells| == |s.live| && full.cursor == s.cursor
    requires Elsewhere(s, full, t, SlotOf(s.cursor, turn))
    requires Stamped(cfg, full, m, t, turn, stamp, s.cells[SlotOf(s.cursor, turn)], moved)
    requires Shut(cfg, m, e, t, turn, stamp, s.cells[SlotOf(s.cursor, turn)].sequence, moved)
    ensures SlotDone(cfg, s, e, t, turn, stamp)
  {
    ElsewhereOn(s, full, m, t, SlotOf(s.cursor, turn));
    ElsewhereOn(s, m, e, t, SlotOf(s.cursor, turn));
  }

  /** A slot of a turn, from the load of its sequence to the store that shuts it. */
  lemma SlotAlone(cfg: Config, s: State, t: Tid, turn: Turn, stamp: u64) returns (e: State)
    requires Base(cfg, s) && t in s.works && s.works[t] == Between(turn, stamp) && Affords(cfg, turn)
    ensures Alone(cfg, s, t, e) && SlotDone(cfg, s, e, t, turn, stamp)
  {
    var open := OpensAlone(cfg, s, t, turn, stamp);
    var i := SlotOf(s.cursor, turn);
    var full, moved := CopyAlone(cfg, open, t, turn, stamp, s.cells[i], 0, false);
    AloneOn(cfg, s, t, open, full);
    ElsewhereOn(s, open, full, t, i);
    e := RestAlone(cfg, s, full, t, turn, stamp, moved);
    AloneOn(cfg, s, t, full, e);
  }

  lemma RestAlone(cfg: Config, s: State, full: State, t: Tid, turn: Turn, stamp: u64, moved: bool) returns (e: State)
    requires Base(cfg, full) && full.cursor == s.cursor && SlotOf(s.cursor, turn) < |cfg.spans| == |s.cells| == |s.live|
    requires Elsewhere(s, full, t, SlotOf(s.cursor, turn))
    requires CopiedTo(cfg, full, t, turn, stamp, s.cells[SlotOf(s.cursor, turn)], cfg.spans[SlotOf(s.cursor, turn)].bytes, moved)
    ensures Alone(cfg, full, t, e) && SlotDone(cfg, s, e, t, turn, stamp)
  {
    var was := s.cells[SlotOf(s.cursor, turn)];
    var m := AloneOnce(cfg, full, t);
    StampStored(cfg, full, t, turn, stamp, was, moved);
    e := AloneOnce(cfg, m, t);
    WindowShut(cfg, m, t, turn, stamp, was.sequence, moved);
    AloneOn(cfg, full, t, m, e);
    StampedAndShut(cfg, s, full, m, e, t, turn, stamp, moved);
  }

  // The whole turn.

  /** A budgeted turn from `from`, this many slots in: those published, and no more
      than the budget paid for. */
  ghost predicate BudgetedSoFar(cfg: Config, s: State, e: State, t: Tid, stamp: u64, visited: nat, spent: nat)
    requires Declared(cfg)
  {
    match WorkOf(e, t)
    case Between(Periodic(visited', spent'), stamp') =>
      && visited' == visited && spent' == spent && stamp' == stamp
      && |cfg.spans| == |s.cells| == |s.live| > s.cursor && visited <= |cfg.spans|
      && e.works == s.works[t := e.works[t]] && e.live == s.live && e.lock == s.lock
      && e.cells == Visited(s.cells, s.live, s.cursor, visited, stamp)
      && Turning(Sizes(cfg), s.cursor, cfg.budget, visited, spent, e.cursor)
    case _ => false
  }

  lemma {:induction false} BudgetAlone(cfg: Config, s: State, m: State, t: Tid, stamp: u64, visited: nat, spent: nat)
    returns (e: State, count: nat, paid: nat)
    requires Declared(cfg) && Base(cfg, m) && BudgetedSoFar(cfg, s, m, t, stamp, visited, spent)
    ensures Alone(cfg, m, t, e) && BudgetedSoFar(cfg, s, e, t, stamp, count, paid)
    ensures count == |cfg.spans| || paid >= cfg.budget
    decreases |cfg.spans| - visited
  {
    if visited == |cfg.spans| || spent >= cfg.budget {
      e, count, paid := m, visited, spent;
      AloneNot(cfg, m, t);
    } else {
      var n, more := BudgetOnce(cfg, s, m, t, stamp, visited, spent);
      e, count, paid := BudgetAlone(cfg, s, n, t, stamp, visited + 1, more);
      AloneOn(cfg, m, t, n, e);
    }
  }

  lemma BudgetOnce(cfg: Config, s: State, m: State, t: Tid, stamp: u64, visited: nat, spent: nat)
    returns (n: State, more: nat)
    requires Declared(cfg) && Base(cfg, m) && BudgetedSoFar(cfg, s, m, t, stamp, visited, spent)
    requires visited < |cfg.spans| && spent < cfg.budget
    ensures Alone(cfg, m, t, n) && Base(cfg, n) && BudgetedSoFar(cfg, s, n, t, stamp, visited + 1, more)
  {
    n := SlotAlone(cfg, m, t, Periodic(visited, spent), stamp);
    more := spent + cfg.spans[m.cursor].bytes;
    AloneBase(cfg, m, t, n);
    OneMoreVisit(cfg, s, m, n, t, stamp, visited, spent);
  }

  lemma OneMoreVisit(cfg: Config, s: State, m: State, n: State, t: Tid, stamp: u64, visited: nat, spent: nat)
    requires Declared(cfg) && BudgetedSoFar(cfg, s, m, t, stamp, visited, spent) && visited < |cfg.spans| && spent < cfg.budget
    requires m.cursor < |cfg.spans| && SlotDone(cfg, m, n, t, Periodic(visited, spent), stamp)
    ensures BudgetedSoFar(cfg, s, n, t, stamp, visited + 1, spent + cfg.spans[m.cursor].bytes)
  {
    TurnGrows(Sizes(cfg), s.cursor, cfg.budget, visited, spent, m.cursor);
    CellsGrow(s.cells, s.live, s.cursor, visited, stamp);
    NextIsMod(m.cursor, |cfg.spans|);
  }

  /** A full turn this many slots in: those published, the cursor untouched. */
  ghost predicate FullSoFar(cfg: Config, s: State, e: State, t: Tid, stamp: u64, index: nat) {
    match WorkOf(e, t)
    case Between(Final(index'), stamp') =>
      && index' == index && stamp' == stamp && |cfg.spans| == |s.cells| == |s.live| && index <= |cfg.spans|
      && e.works == s.works[t := e.works[t]] && e.live == s.live && e.lock == s.lock
      && e.cells == Swath(s.cells, s.live, index, stamp) && e.cursor == s.cursor
    case _ => false
  }

  lemma {:induction false} FullAlone(cfg: Config, s: State, m: State, t: Tid, stamp: u64, index: nat) returns (e: State)
    requires Base(cfg, m) && FullSoFar(cfg, s, m, t, stamp, index)
    ensures Alone(cfg, m, t, e) && FullSoFar(cfg, s, e, t, stamp, |cfg.spans|)
    decreases |cfg.spans| - index
  {
    if index == |cfg.spans| {
      e := m;
      AloneNot(cfg, m, t);
    } else {
      var n := SlotAlone(cfg, m, t, Final(index), stamp);
      OneMoreOfAll(cfg, s, m, n, t, stamp, index);
      AloneBase(cfg, m, t, n);
      e := FullAlone(cfg, s, n, t, stamp, index + 1);
      AloneOn(cfg, m, t, n, e);
    }
  }

  lemma OneMoreOfAll(cfg: Config, s: State, m: State, n: State, t: Tid, stamp: u64, index: nat)
    requires FullSoFar(cfg, s, m, t, stamp, index) && index < |cfg.spans|
    requires SlotDone(cfg, m, n, t, Final(index), stamp)
    ensures FullSoFar(cfg, s, n, t, stamp, index + 1)
  {
    assert Swath(s.cells, s.live, index + 1, stamp) ==
           Swath(s.cells, s.live, index, stamp)[index := Published(s.cells[index], s.live[index], stamp)];
  }

  /** No core is in a turn or on its way to one. */
  ghost predicate Quiet(s: State) {
    forall t :: t in s.works ==> s.works[t].Out?
  }

  /** The region, the globals and the cursor are as they were; so is every other core. */
  predicate OnlyMoved(s: State, e: State, t: Tid, w: Work) {
    e.works == s.works[t := w] && e.cells == s.cells && e.live == s.live && e.cursor == s.cursor
  }

  /** The lock taken: a ticket, one look, and the turn begins. */
  lemma AcquiresAlone(cfg: Config, s: State, t: Tid, kind: Kind, stamp: u64) returns (e: State)
    requires Base(cfg, s) && t in s.works && s.works[t] == Pending(kind, stamp)
    requires forall u :: u in s.lock.phase ==> s.lock.phase[u].Idle?
    ensures Alone(cfg, s, t, e) && Base(cfg, e) && OnlyMoved(s, e, t, Between(Begin(kind), stamp))
  {
    LockProgress.NobodyOwes(s.lock);
    var drawn := AloneOnce(cfg, s, t);
    assert drawn == s.(lock := L.Apply(s.lock, L.Draw(t)));
    var held := AloneOnce(cfg, drawn, t);
    assert held == drawn.(lock := L.Apply(drawn.lock, L.Poll(t)));
    e := AloneOnce(cfg, held, t);
    AloneOn(cfg, s, t, drawn, held);
    AloneOn(cfg, s, t, held, e);
  }

  /** Nothing more to publish: the lock passed on. */
  lemma LeavesAlone(cfg: Config, s: State, t: Tid, turn: Turn, stamp: u64) returns (e: State)
    requires Base(cfg, s) && t in s.works && s.works[t] == Between(turn, stamp) && !More(cfg, turn)
    ensures Alone(cfg, s, t, e) && OnlyMoved(s, e, t, Out)
  {
    assert PhaseFits(s.works[t], s.lock.phase[t]);
    var leaving := AloneOnce(cfg, s, t);
    assert leaving == s.(works := s.works[t := Leaving]);
    e := UnlocksAlone(cfg, leaving, t);
    assert s.works[t := Leaving][t := Out] == s.works[t := Out];
    AloneOn(cfg, s, t, leaving, e);
  }

  lemma UnlocksAlone(cfg: Config, s: State, t: Tid) returns (e: State)
    requires Base(cfg, s) && t in s.works && s.works[t] == Leaving
    requires t in s.lock.phase && s.lock.phase[t].Holding?
    ensures Alone(cfg, s, t, e) && OnlyMoved(s, e, t, Out)
  {
    var loaded := AloneOnce(cfg, s, t);
    assert loaded == s.(lock := L.Apply(s.lock, L.LoadServing(t)));
    e := AloneOnce(cfg, loaded, t);
    AloneOn(cfg, s, t, loaded, e);
  }

  /** What a call with nobody else about leaves in the region. */
  ghost predicate PublishedBy(cfg: Config, s: State, e: State, kind: Kind, stamp: u64, count: nat)
    requires Declared(cfg) && (kind.Full? || cfg.spans != [])
  {
    && |cfg.spans| == |s.cells| == |s.live| && e.live == s.live
    && match kind
       case Full => e.cells == Swath(s.cells, s.live, |cfg.spans|, stamp) && e.cursor == s.cursor
       case Budgeted =>
         && TurnStops(Sizes(cfg), s.cursor, cfg.budget, count)
         && e.cells == Visited(s.cells, s.live, s.cursor, count, stamp)
         && e.cursor == CursorAt(s.cursor, count, |cfg.spans|)
  }

  lemma TurnAlone(cfg: Config, s: State, t: Tid, kind: Kind, stamp: u64) returns (e: State, count: nat, turn: Turn)
    requires Declared(cfg) && Base(cfg, s) && (kind.Full? || cfg.spans != [])
    requires t in s.works && s.works[t] == Between(Begin(kind), stamp)
    ensures Alone(cfg, s, t, e) && PublishedBy(cfg, s, e, kind, stamp, count) && !More(cfg, turn)
    ensures e.works == s.works[t := Between(turn, stamp)]
  {
    assert s.works == s.works[t := s.works[t]];
    if kind.Full? {
      assert Swath(s.cells, s.live, 0, stamp) == s.cells;
      e := FullAlone(cfg, s, s, t, stamp, 0);
      count, turn := 0, Final(|cfg.spans|);
    } else {
      var paid;
      e, count, paid := BudgetAlone(cfg, s, s, t, stamp, 0, 0);
      turn := Periodic(count, paid);
    }
  }

  /** publish() and publish_all() with nobody else about: from any reachable state with
      every core out, a core that calls gets back out by its own accesses, and what it
      leaves is what the sequential publisher leaves: each slot from the cursor on, as
      many as the budget pays for and no more, or every slot once; the global's bytes
      with the call's stamp wherever they moved. */
  lemma CallAlonePublishes(cfg: Config, threads: set<Tid>, start: State, steps: seq<Step>, s: State,
                           t: Tid, kind: Kind, stamp: u64)
    returns (e: State, count: nat)
    requires |threads| <= TWO_32 && Declared(cfg) && Initial(cfg, threads, start) && Reaches(cfg, start, steps, s)
    requires Shape(cfg, s) && Quiet(s) && Enabled(cfg, s, Call(t, kind, stamp))
    ensures Alone(cfg, Apply(cfg, s, Call(t, kind, stamp)), t, e) && Quiet(e)
    ensures PublishedBy(cfg, s, e, kind, stamp, count)
  {
    InitialInv(cfg, threads, start);
    RunBase(cfg, start, steps, s);
    e, count := QuietCall(cfg, s, t, kind, stamp);
  }

  lemma QuietCall(cfg: Config, s: State, t: Tid, kind: Kind, stamp: u64) returns (e: State, count: nat)
    requires Declared(cfg) && Base(cfg, s) && Quiet(s) && Enabled(cfg, s, Call(t, kind, stamp))
    ensures Alone(cfg, Apply(cfg, s, Call(t, kind, stamp)), t, e) && Quiet(e)
    ensures PublishedBy(cfg, s, e, kind, stamp, count)
  {
    var called := Apply(cfg, s, Call(t, kind, stamp));
    ApplyBase(cfg, s, Call(t, kind, stamp));
    AllIdle(cfg, s);
    var begun := AcquiresAlone(cfg, called, t, kind, stamp);
    var over, turn;
    over, count, turn := TurnAlone(cfg, begun, t, kind, stamp);
    AloneBase(cfg, begun, t, over);
    e := LeavesAlone(cfg, over, t, turn, stamp);
    AloneOn(cfg, called, t, begun, over);
    AloneOn(cfg, called, t, over, e);
    OutAgain(cfg, s, called, begun, over, e, t, kind, stamp, count, turn);
  }

  lemma OutAgain(cfg: Config, s: State, called: State, begun: State, over: State, e: State,
                 t: Tid, kind: Kind, stamp: u64, count: nat, turn: Turn)
    requires Declared(cfg) && (kind.Full? || cfg.spans != []) && Quiet(s)
    requires OnlyMoved(s, called, t, Pending(kind, stamp)) && OnlyMoved(called, begun, t, Between(Begin(kind), stamp))
    requires PublishedBy(cfg, begun, over, kind, stamp, count) && over.works == begun.works[t := Between(turn, stamp)]
    requires OnlyMoved(over, e, t, Out)
    ensures PublishedBy(cfg, s, e, kind, stamp, count) && Quiet(e)
  {}

  lemma AllIdle(cfg: Config, s: State)
    requires Shape(cfg, s) && Quiet(s)
    ensures forall u :: u in s.lock.phase ==> s.lock.phase[u].Idle?
  {
    forall u | u in s.lock.phase ensures s.lock.phase[u].Idle? {
      assert u in s.works && PhaseFits(s.works[u], s.lock.phase[u]);
    }
  }
}
