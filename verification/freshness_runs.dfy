/** The staleness bound over interleaved runs: other globals written at any moment,
    readers at any moment, and full turns of other cores between the budgeted ones. */
module FreshRuns {
  import opened Words
  import opened Rounds
  import opened Telemetry
  import opened TelemetrySafety
  import opened TelemetryPublisher
  import opened Freshness
  import opened TelemetryTail

  function Sizes(cfg: Config): (sizes: seq<Size>)
    requires Declared(cfg)
    ensures |sizes| == |cfg.spans| && forall i :: 0 <= i < |sizes| ==> sizes[i] == cfg.spans[i].bytes
  {
    seq(|cfg.spans|, i requires 0 <= i < |cfg.spans| => cfg.spans[i].bytes)
  }

  // --- Counting over a run ---------------------------------------------------------

  predicate Periodically(s: State, t: Tid) { t in s.works && InTurn(s.works[t]) && s.works[t].turn.Periodic? }

  /** The step ends a budgeted turn. */
  predicate Ends(cfg: Config, s: State, step: Step) {
    step.Advance? && Periodically(s, step.t) && s.works[step.t].Between? && !More(cfg, s.works[step.t].turn)
  }

  /** The step closes a slot of a budgeted turn and moves the cursor on. */
  predicate Moves(s: State, step: Step) {
    step.Advance? && Periodically(s, step.t) && s.works[step.t].Closing?
  }

  ghost function Ended(cfg: Config, s: State, steps: seq<Step>): nat
    decreases |steps|
  {
    if steps == [] || !Shape(cfg, s) || !Enabled(cfg, s, steps[0]) then 0
    else (if Ends(cfg, s, steps[0]) then 1 else 0) + Ended(cfg, Apply(cfg, s, steps[0]), steps[1..])
  }

  ghost function Moved(cfg: Config, s: State, steps: seq<Step>): nat
    decreases |steps|
  {
    if steps == [] || !Shape(cfg, s) || !Enabled(cfg, s, steps[0]) then 0
    else (if Moves(s, steps[0]) then 1 else 0) + Moved(cfg, Apply(cfg, s, steps[0]), steps[1..])
  }

  /** How far the budgeted turn under way has got; nowhere, if there is none. */
  ghost predicate Underway(s: State, visited: nat, spent: nat) {
    && (forall t :: Periodically(s, t) ==> s.works[t].turn == Periodic(visited, spent))
    && ((forall t :: !Periodically(s, t)) ==> visited == spent == 0)
  }

  // --- What one step does to the counts ------------------------------------------------

  lemma OnlyOne(cfg: Config, s: State, step: Step, t: Tid, u: Tid)
    requires Base(cfg, s) && Enabled(cfg, s, step)
    requires var e := Apply(cfg, s, step); t in e.works && u in e.works && InTurn(e.works[t]) && InTurn(e.works[u])
    ensures t == u
  {
    ApplyBase(cfg, s, step);
    OneInTurn(cfg, Apply(cfg, s, step), t, u);
  }

  /** The core whose budgeted turn is under way takes a step. */
  lemma AccountMine(cfg: Config, s: State, t: Tid, visited: nat, spent: nat)
    requires Base(cfg, s) && Enabled(cfg, s, Advance(t)) && Underway(s, visited, spent) && Periodically(s, t)
    ensures var e := Apply(cfg, s, Advance(t));
            if Ends(cfg, s, Advance(t)) then Underway(e, 0, 0) && (visited >= |cfg.spans| || spent >= cfg.budget)
            else if Moves(s, Advance(t)) then
              s.cursor < |cfg.spans| && Underway(e, visited + 1, spent + cfg.spans[s.cursor].bytes)
            else Underway(e, visited, spent)
  {
    var e, w := Apply(cfg, s, Advance(t)), s.works[t];
    assert WorkShape(cfg, s.cursor, w);
    assert w.turn == Periodic(visited, spent);
    forall u | u != t ensures !Periodically(e, u) {
      if Periodically(e, u) { OneInTurn(cfg, s, t, u); }
    }
    assert Ends(cfg, s, Advance(t)) || Periodically(e, t);
  }

  /** A core begins a budgeted turn: nobody else was in one. */
  lemma AccountBegin(cfg: Config, s: State, t: Tid, visited: nat, spent: nat)
    requires Base(cfg, s) && Enabled(cfg, s, Advance(t)) && Underway(s, visited, spent)
    requires !Periodically(s, t) && Periodically(Apply(cfg, s, Advance(t)), t)
    ensures Underway(Apply(cfg, s, Advance(t)), visited, spent)
  {
    var e := Apply(cfg, s, Advance(t));
    OnlyItsWork(cfg, s, t);
    assert e.works[t].turn == Periodic(0, 0);
    forall u | u != t ensures !Periodically(s, u) && !Periodically(e, u) {
      if Periodically(s, u) || Periodically(e, u) { OnlyOne(cfg, s, Advance(t), t, u); }
    }
  }

  lemma OnlyItsWork(cfg: Config, s: State, t: Tid)
    requires Base(cfg, s) && Enabled(cfg, s, Advance(t))
    ensures var e := Apply(cfg, s, Advance(t)); t in e.works && e.works == s.works[t := e.works[t]]
  {
    assert WorkShape(cfg, s.cursor, s.works[t]) && PhaseFits(s.works[t], s.lock.phase[t]);
    assert s.works == s.works[t := s.works[t]];
  }

  lemma SameUnderway(s: State, e: State, visited: nat, spent: nat)
    requires Underway(s, visited, spent)
    requires forall t :: Periodically(e, t) <==> Periodically(s, t)
    requires forall t :: Periodically(e, t) ==> e.works[t].turn == s.works[t].turn
    ensures Underway(e, visited, spent)
  {}

  lemma ElsewhereUnderway(s: State, e: State, t: Tid, visited: nat, spent: nat)
    requires Underway(s, visited, spent) && !Periodically(s, t) && !Periodically(e, t)
    requires t in s.works && t in e.works && e.works == s.works[t := e.works[t]]
    ensures Underway(e, visited, spent)
  {
    forall u ensures Periodically(e, u) <==> Periodically(s, u) {}
    SameUnderway(s, e, visited, spent);
  }

  /** Any other step leaves the turn under way where it is. */
  lemma AccountOther(cfg: Config, s: State, t: Tid, visited: nat, spent: nat)
    requires Base(cfg, s) && Enabled(cfg, s, Advance(t)) && Underway(s, visited, spent)
    requires !Periodically(s, t) && !Periodically(Apply(cfg, s, Advance(t)), t)
    ensures Underway(Apply(cfg, s, Advance(t)), visited, spent)
  {
    OnlyItsWork(cfg, s, t);
    ElsewhereUnderway(s, Apply(cfg, s, Advance(t)), t, visited, spent);
  }

  /** What the turn under way has visited and spent after a step. */
  function Later(cfg: Config, s: State, step: Step, visited: nat, spent: nat): (nat, nat) {
    if Ends(cfg, s, step) then (0, 0)
    else if Moves(s, step) && s.cursor < |cfg.spans| then (visited + 1, spent + cfg.spans[s.cursor].bytes)
    else (visited, spent)
  }

  lemma Account(cfg: Config, s: State, step: Step, visited: nat, spent: nat)
    requires Base(cfg, s) && Enabled(cfg, s, step) && Underway(s, visited, spent)
    ensures var (v, p) := Later(cfg, s, step, visited, spent); Underway(Apply(cfg, s, step), v, p)
    ensures Ends(cfg, s, step) ==> visited >= |cfg.spans| || spent >= cfg.budget
  {
    var e := Apply(cfg, s, step);
    if !step.Advance? {
      SameUnderway(s, e, visited, spent);
    } else if Periodically(s, step.t) {
      AccountMine(cfg, s, step.t, visited, spent);
    } else if Periodically(e, step.t) {
      AccountBegin(cfg, s, step.t, visited, spent);
    } else {
      AccountOther(cfg, s, step.t, visited, spent);
    }
  }

  lemma CursorStep(cfg: Config, s: State, step: Step, i: nat)
    requires cfg.spans != [] && Base(cfg, s) && Enabled(cfg, s, step) && i < |cfg.spans|
    ensures var e := Apply(cfg, s, step);
            && |e.closes| == |s.closes| == |cfg.spans| && |s.closes[i]| <= |e.closes[i]|
            && e.cursor == (if Moves(s, step) then (s.cursor + 1) % |cfg.spans| else s.cursor)
            && (Moves(s, step) && i == s.cursor ==> |e.closes[i]| == |s.closes[i]| + 1)
  {
    if step.Advance? {
      assert WorkShape(cfg, s.cursor, s.works[step.t]) && PhaseFits(s.works[step.t], s.lock.phase[step.t]);
    }
  }

  // --- What a run does to them -----------------------------------------------------------

  /** Either this has come round, or each of these turns spent its budget. */
  predicate Paid(sizes: seq<Size>, from: nat, budget: nat, visited: nat, spent: nat, moved: nat, ended: nat)
    requires sizes != []
  {
    visited + moved >= |sizes| || spent + Swept(sizes, from, moved) >= ended * budget
  }

  lemma PaidMove(sizes: seq<Size>, from: nat, budget: nat, visited: nat, spent: nat, moved: nat, ended: nat)
    requires from < |sizes|
    requires Paid(sizes, (from + 1) % |sizes|, budget, visited + 1, spent + sizes[from], moved, ended)
    ensures Paid(sizes, from, budget, visited, spent, moved + 1, ended)
  {
    ModUnique(from, 0, from, |sizes|);
    Reduced(from + 1, |sizes|);
    SweptSameSlot(sizes, (from + 1) % |sizes|, from + 1, moved);
  }

  lemma PaidEnd(sizes: seq<Size>, from: nat, budget: nat, visited: nat, spent: nat, moved: nat, ended: nat)
    requires sizes != [] && Paid(sizes, from, budget, 0, 0, moved, ended) && (visited >= |sizes| || spent >= budget)
    ensures Paid(sizes, from, budget, visited, spent, moved, ended + 1)
  {
    OneMoreTurn(ended, budget);
  }

  lemma StepPaid(cfg: Config, s: State, step: Step, visited: nat, spent: nat, moved: nat, ended: nat,
                 movedNow: nat, endedNow: nat)
    requires Declared(cfg) && cfg.spans != [] && Base(cfg, s) && Enabled(cfg, s, step) && Underway(s, visited, spent)
    requires var later := Later(cfg, s, step, visited, spent);
             Paid(Sizes(cfg), Apply(cfg, s, step).cursor, cfg.budget, later.0, later.1, moved, ended)
    requires movedNow == moved + if Moves(s, step) then 1 else 0
    requires endedNow == ended + if Ends(cfg, s, step) then 1 else 0
    ensures Paid(Sizes(cfg), s.cursor, cfg.budget, visited, spent, movedNow, endedNow)
  {
    var cursor := Apply(cfg, s, step).cursor;
    CursorStep(cfg, s, step, 0);
    Account(cfg, s, step, visited, spent);
    StepPays(Sizes(cfg), s.cursor, cursor, cfg.budget, visited, spent, Later(cfg, s, step, visited, spent), moved, ended,
             movedNow, endedNow, Moves(s, step), Ends(cfg, s, step));
  }

  lemma StepPays(sizes: seq<Size>, from: nat, cursor: nat, budget: nat, visited: nat, spent: nat, later: (nat, nat),
                 moved: nat, ended: nat, movedNow: nat, endedNow: nat, moves: bool, ends: bool)
    requires from < |sizes| && cursor == (if moves then (from + 1) % |sizes| else from) && !(moves && ends)
    requires ends ==> visited >= |sizes| || spent >= budget
    requires later == if ends then (0, 0) else if moves then (visited + 1, spent + sizes[from]) else (visited, spent)
    requires movedNow == moved + (if moves then 1 else 0) && endedNow == ended + if ends then 1 else 0
    requires Paid(sizes, cursor, budget, later.0, later.1, moved, ended)
    ensures Paid(sizes, from, budget, visited, spent, movedNow, endedNow)
  {
    if ends {
      PaidEnd(sizes, from, budget, visited, spent, moved, ended);
    } else if moves {
      PaidMove(sizes, from, budget, visited, spent, moved, ended);
    }
  }

  lemma Counts(cfg: Config, s: State, steps: seq<Step>)
    requires steps != [] && Shape(cfg, s) && Enabled(cfg, s, steps[0])
    ensures var m, rest := Apply(cfg, s, steps[0]), steps[1..];
            && Moved(cfg, s, steps) == Moved(cfg, m, rest) + (if Moves(s, steps[0]) then 1 else 0)
            && Ended(cfg, s, steps) == Ended(cfg, m, rest) + if Ends(cfg, s, steps[0]) then 1 else 0
  {}

  lemma {:induction false} RunAccounts(cfg: Config, s: State, steps: seq<Step>, e: State, visited: nat, spent: nat)
    requires Declared(cfg) && cfg.spans != [] && Base(cfg, s) && Reaches(cfg, s, steps, e) && Underway(s, visited, spent)
    ensures Paid(Sizes(cfg), s.cursor, cfg.budget, visited, spent, Moved(cfg, s, steps), Ended(cfg, s, steps))
    decreases |steps|
  {
    if steps == [] {
      PaidNothing(Sizes(cfg), s.cursor, cfg.budget, visited, spent);
    } else {
      var m := StepOn(cfg, s, steps[0], visited, spent);
      var v, p := Later(cfg, s, steps[0], visited, spent).0, Later(cfg, s, steps[0], visited, spent).1;
      RunAccounts(cfg, m, steps[1..], e, v, p);
      PaidBefore(cfg, s, steps, m, visited, spent);
    }
  }

  lemma StepOn(cfg: Config, s: State, step: Step, visited: nat, spent: nat) returns (m: State)
    requires Base(cfg, s) && Enabled(cfg, s, step) && Underway(s, visited, spent)
    ensures m == Apply(cfg, s, step) && Base(cfg, m)
    ensures Underway(m, Later(cfg, s, step, visited, spent).0, Later(cfg, s, step, visited, spent).1)
  {
    m := Apply(cfg, s, step);
    ApplyBase(cfg, s, step);
    Account(cfg, s, step, visited, spent);
  }

  lemma PaidBefore(cfg: Config, s: State, steps: seq<Step>, m: State, visited: nat, spent: nat)
    requires Declared(cfg) && cfg.spans != [] && steps != [] && Base(cfg, s) && Enabled(cfg, s, steps[0])
    requires Underway(s, visited, spent) && m == Apply(cfg, s, steps[0])
    requires var later := Later(cfg, s, steps[0], visited, spent);
             Paid(Sizes(cfg), m.cursor, cfg.budget, later.0, later.1, Moved(cfg, m, steps[1..]), Ended(cfg, m, steps[1..]))
    ensures Paid(Sizes(cfg), s.cursor, cfg.budget, visited, spent, Moved(cfg, s, steps), Ended(cfg, s, steps))
  {
    Counts(cfg, s, steps);
    StepPaid(cfg, s, steps[0], visited, spent, Moved(cfg, m, steps[1..]), Ended(cfg, m, steps[1..]),
             Moved(cfg, s, steps), Ended(cfg, s, steps));
  }

  lemma PaidNothing(sizes: seq<Size>, from: nat, budget: nat, visited: nat, spent: nat)
    requires sizes != []
    ensures Paid(sizes, from, budget, visited, spent, 0, 0)
  {}

  /** Every slot the cursor passed was closed. */
  lemma {:induction false} RunCloses(cfg: Config, s: State, steps: seq<Step>, e: State, i: nat)
    requires cfg.spans != [] && Base(cfg, s) && Reaches(cfg, s, steps, e) && i < |cfg.spans|
    ensures |e.closes| == |s.closes| == |cfg.spans| && |s.closes[i]| <= |e.closes[i]|
    ensures Visits(s.cursor, Moved(cfg, s, steps), |cfg.spans|, i) ==> |s.closes[i]| < |e.closes[i]|
    decreases |steps|
  {
    if steps != [] {
      var m, rest := Apply(cfg, s, steps[0]), steps[1..];
      ApplyBase(cfg, s, steps[0]);
      CursorStep(cfg, s, steps[0], i);
      RunCloses(cfg, m, rest, e, i);
      if Visits(s.cursor, Moved(cfg, s, steps), |cfg.spans|, i) { PassedBefore(cfg, s, steps, m, i); }
    }
  }

  /** A passed slot is closed by the first step or passed by the others. */
  lemma PassedBefore(cfg: Config, s: State, steps: seq<Step>, m: State, i: nat)
    requires cfg.spans != [] && Base(cfg, s) && steps != [] && Enabled(cfg, s, steps[0]) && m == Apply(cfg, s, steps[0])
    requires i < |cfg.spans| && Visits(s.cursor, Moved(cfg, s, steps), |cfg.spans|, i)
    ensures (Moves(s, steps[0]) && i == s.cursor) || Visits(m.cursor, Moved(cfg, m, steps[1..]), |cfg.spans|, i)
  {
    CursorStep(cfg, s, steps[0], i);
    Counts(cfg, s, steps);
    Passes(s.cursor, m.cursor, Moved(cfg, m, steps[1..]), Moved(cfg, s, steps), |cfg.spans|, i, Moves(s, steps[0]));
  }

  lemma Passes(from: nat, cursor: nat, moved: nat, movedNow: nat, n: nat, i: nat, moves: bool)
    requires from < n && cursor == (if moves then (from + 1) % n else from) && movedNow == moved + if moves then 1 else 0
    requires Visits(from, movedNow, n, i)
    ensures (moves && i == from) || Visits(cursor, moved, n, i)
  {
    if moves { VisitsOn(from, moved, n, i); }
  }

  lemma VisitsOn(from: nat, count: nat, n: nat, i: nat)
    requires from < n
    ensures Visits(from, count + 1, n, i) <==> i == from || Visits((from + 1) % n, count, n, i)
  {
    ReachesSplit(from, 1, count, n, i);
    ModUnique(from, 0, from, n);
    assert Lands(from, 0, n, i) <==> i == from;
  }

  // --- What a copy of a still global holds --------------------------------------------------

  /** Whoever is inside slot i's window has copied the global as it is. */
  ghost predicate Tracks(s: State, i: nat) {
    && i < |s.cells| == |s.live| == |s.closes| && |s.cells[i].payload| == |s.live[i]|
    && forall t :: Owns(s, t, i) ==> CopiedSo(s.works[t], s.cells[i].payload, s.live[i])
  }

  predicate CopiedSo(w: Work, payload: seq<byte>, live: seq<byte>)
    requires |payload| == |live|
  {
    && (w.Copying? ==>
          && w.at <= |live| && payload[..w.at] == live[..w.at]
          && (w.held.Loaded? ==> w.at + WORD <= |live| && w.held.word == live[w.at..w.at + WORD]))
    && (w.Closing? ==> payload == live)
  }

  /** Slot i shows its global, and so does its last close. */
  predicate UpToNow(s: State, i: nat) {
    && i < |s.cells| == |s.live| == |s.closes| && s.closes[i] != []
    && s.cells[i].payload == s.live[i] == Last(s.closes[i]).payload
  }

  /** One copying access, on the words it touches. */
  lemma CopyTracks(cfg: Config, s: State, t: Tid, i: nat)
    requires Base(cfg, s) && Tracks(s, i) && i < |cfg.spans|
    requires t in s.works && s.works[t].Copying? && SlotOf(s.cursor, s.works[t].turn) == i
    ensures var e := Apply(cfg, s, Advance(t));
            && t in e.works && |e.cells| == |s.cells| && e.live == s.live && |e.cells[i].payload| == |s.live[i]|
            && CopiedSo(e.works[t], e.cells[i].payload, e.live[i])
            && (s.cells[i].payload == s.live[i] ==> e.cells[i].payload == s.live[i])
  {
    var w, payload, live := s.works[t], s.cells[i].payload, s.live[i];
    assert Owns(s, t, i) && WorkShape(cfg, s.cursor, w) && CellShape(cfg, s, i);
    var e := Apply(cfg, s, Advance(t));
    match w.held
    case Loaded(word) =>
      assert live[..w.at] + live[w.at..w.at + WORD] == live[..w.at + WORD];
      assert e.cells[i].payload == payload[..w.at] + word + payload[w.at + WORD..];
      assert live[..w.at] + live[w.at..w.at + WORD] + live[w.at + WORD..] == live;
    case Compared =>
      assert payload[w.at := live[w.at]][..w.at + 1] == payload[..w.at] + [live[w.at]];
      assert live[..w.at + 1] == live[..w.at] + [live[w.at]];
    case Nothing =>
      if !WordAt(cfg.spans[i], w.at) && w.at == |live| {
        assert payload[..w.at] == payload && live[..w.at] == live;
      }
  }

  lemma AdvanceTracks(cfg: Config, s: State, t: Tid, i: nat)
    requires Base(cfg, s) && Enabled(cfg, s, Advance(t)) && i < |cfg.spans| && Tracks(s, i)
    ensures var e := Apply(cfg, s, Advance(t));
            && Tracks(e, i) && |s.closes[i]| <= |e.closes[i]|
            && (UpToNow(s, i) || |s.closes[i]| < |e.closes[i]| ==> UpToNow(e, i))
  {
    var e, w := Apply(cfg, s, Advance(t)), s.works[t];
    assert WorkShape(cfg, s.cursor, w) && PhaseFits(w, s.lock.phase[t]) && CellShape(cfg, s, i);
    if w.Copying? && SlotOf(s.cursor, w.turn) == i {
      CopyTracks(cfg, s, t, i);
    }
    if w.Closing? && SlotOf(s.cursor, w.turn) == i {
      assert Owns(s, t, i);
    }
    forall u | Owns(e, u, i) ensures CopiedSo(e.works[u], e.cells[i].payload, e.live[i]) {
      OthersTrack(cfg, s, t, u, i);
    }
  }

  /** Whoever owns the slot after a step is the core that took it, or owned it. */
  lemma OthersTrack(cfg: Config, s: State, t: Tid, u: Tid, i: nat)
    requires Base(cfg, s) && Enabled(cfg, s, Advance(t)) && i < |cfg.spans| && Tracks(s, i)
    requires Owns(Apply(cfg, s, Advance(t)), u, i)
    ensures var e := Apply(cfg, s, Advance(t));
            |e.cells| == |s.cells| && |e.cells[i].payload| == |e.live[i]| && CopiedSo(e.works[u], e.cells[i].payload, e.live[i])
  {
    var e, w := Apply(cfg, s, Advance(t)), s.works[t];
    assert WorkShape(cfg, s.cursor, w) && PhaseFits(w, s.lock.phase[t]) && CellShape(cfg, s, i);
    if u == t {
      if w.Copying? { CopyTracks(cfg, s, t, i); }
    } else {
      assert e.works[u] == s.works[u];
      if InTurn(w) {
        OneInTurn(cfg, s, t, u);
      } else {
        assert Owns(s, u, i);
      }
    }
  }

  ghost predicate LeavesAlone(step: Step, i: nat) { !(step.Change? && step.slot == i) }

  lemma StepTracks(cfg: Config, s: State, step: Step, i: nat)
    requires Base(cfg, s) && Enabled(cfg, s, step) && i < |cfg.spans| && Tracks(s, i) && LeavesAlone(step, i)
    ensures var e := Apply(cfg, s, step);
            && Tracks(e, i) && |s.closes[i]| <= |e.closes[i]|
            && (UpToNow(s, i) || |s.closes[i]| < |e.closes[i]| ==> UpToNow(e, i))
  {
    if step.Advance? {
      AdvanceTracks(cfg, s, step.t, i);
    } else {
      var e := Apply(cfg, s, step);
      assert e.cells == s.cells && e.closes == s.closes && e.live[i] == s.live[i] && e.cursor == s.cursor;
      forall u | Owns(e, u, i) ensures CopiedSo(e.works[u], e.cells[i].payload, e.live[i]) {
        assert Owns(s, u, i);
      }
    }
  }

  lemma {:induction false} RunTracks(cfg: Config, s: State, steps: seq<Step>, e: State, i: nat)
    requires Base(cfg, s) && Reaches(cfg, s, steps, e) && i < |cfg.spans| && Tracks(s, i)
    requires forall k :: 0 <= k < |steps| ==> LeavesAlone(steps[k], i)
    ensures Tracks(e, i) && |s.closes[i]| <= |e.closes[i]|
    ensures UpToNow(s, i) || |s.closes[i]| < |e.closes[i]| ==> UpToNow(e, i)
    decreases |steps|
  {
    if steps != [] {
      ApplyBase(cfg, s, steps[0]);
      assert LeavesAlone(steps[0], i);
      StepTracks(cfg, s, steps[0], i);
      RunTracks(cfg, Apply(cfg, s, steps[0]), steps[1..], e, i);
    }
  }

  // --- Main result ---------------------------------------------------------------------------

  /** No core is in a turn. */
  ghost predicate Between(s: State) { forall t :: t in s.works ==> !InTurn(s.works[t]) }

  /** From any reachable moment: once as many budgeted turns have ended as the payload
      takes, and one more if a turn was under way, with anything else in between, each
      slot has been published again, and one whose global was left alone meanwhile
      shows it. */
  lemma StaleNoLonger(cfg: Config, threads: set<Tid>, start: State, before: seq<Step>, s: State, steps: seq<Step>, e: State,
                      i: nat)
    requires Declared(cfg) && cfg.budget > 0 && i < |cfg.spans| && |threads| <= TWO_32
    requires Initial(cfg, threads, start) && Reaches(cfg, start, before, s) && Reaches(cfg, s, steps, e)
    requires Ended(cfg, s, steps) >= CeilDiv(Total(Sizes(cfg)), cfg.budget) + if Between(s) then 0 else 1
    ensures |e.closes| == |s.closes| == |cfg.spans| && |s.closes[i]| < |e.closes[i]|
    ensures (forall k :: 0 <= k < |steps| ==> LeavesAlone(steps[k], i)) ==> UpToNow(e, i)
  {
    InitialInv(cfg, threads, start);
    RunBase(cfg, start, before, s);
    if Between(s) {
      FreshFromBetween(cfg, s, steps, e, i);
    } else {
      var m, rest := NextEnd(cfg, s, steps, e, i);
      FreshFromBetween(cfg, m, rest, e, i);
      if forall k :: 0 <= k < |steps| ==> LeavesAlone(steps[k], i) {
        forall k | 0 <= k < |rest| ensures LeavesAlone(rest[k], i) {
          assert rest[k] in steps;
        }
      }
    }
  }

  lemma FreshFromBetween(cfg: Config, s: State, steps: seq<Step>, e: State, i: nat)
    requires Declared(cfg) && cfg.budget > 0 && i < |cfg.spans| && Base(cfg, s) && Between(s) && Reaches(cfg, s, steps, e)
    requires Ended(cfg, s, steps) >= CeilDiv(Total(Sizes(cfg)), cfg.budget)
    ensures |e.closes| == |s.closes| == |cfg.spans| && |s.closes[i]| < |e.closes[i]|
    ensures (forall k :: 0 <= k < |steps| ==> LeavesAlone(steps[k], i)) ==> UpToNow(e, i)
  {
    RunAccounts(cfg, s, steps, e, 0, 0);
    RoundFrom(Sizes(cfg), s.cursor, cfg.budget, Moved(cfg, s, steps), Ended(cfg, s, steps));
    OnceRound(s.cursor, Moved(cfg, s, steps), |cfg.spans|, i);
    RunCloses(cfg, s, steps, e, i);
    if forall k :: 0 <= k < |steps| ==> LeavesAlone(steps[k], i) {
      assert CellShape(cfg, s, i);
      assert Tracks(s, i);
      RunTracks(cfg, s, steps, e, i);
    }
  }

  /** The core that ends its turn was the only one in one. */
  lemma EndsBetween(cfg: Config, s: State, step: Step)
    requires Base(cfg, s) && Enabled(cfg, s, step) && Ends(cfg, s, step)
    ensures Between(Apply(cfg, s, step))
  {
    var t, e := step.t, Apply(cfg, s, step);
    OnlyItsWork(cfg, s, t);
    forall u | u in e.works ensures !InTurn(e.works[u]) {
      if u != t && InTurn(e.works[u]) { OneInTurn(cfg, s, t, u); }
    }
  }

  /** Where a run's first budgeted turn ends, and the run from there. */
  lemma {:induction false} NextEnd(cfg: Config, s: State, steps: seq<Step>, e: State, i: nat)
    returns (m: State, rest: seq<Step>)
    requires cfg.spans != [] && i < |cfg.spans| && Base(cfg, s) && Reaches(cfg, s, steps, e) && Ended(cfg, s, steps) > 0
    ensures Base(cfg, m) && Between(m) && Reaches(cfg, m, rest, e) && Ended(cfg, m, rest) == Ended(cfg, s, steps) - 1
    ensures |m.closes| == |s.closes| == |cfg.spans| && |s.closes[i]| <= |m.closes[i]|
    ensures forall step :: step in rest ==> step in steps
    decreases |steps|
  {
    var n := OneStep(cfg, s, steps, e, i);
    if Ends(cfg, s, steps[0]) {
      m, rest := n, steps[1..];
    } else {
      m, rest := NextEnd(cfg, n, steps[1..], e, i);
    }
  }

  lemma OneStep(cfg: Config, s: State, steps: seq<Step>, e: State, i: nat) returns (n: State)
    requires cfg.spans != [] && i < |cfg.spans| && Base(cfg, s) && steps != [] && Reaches(cfg, s, steps, e)
    ensures Base(cfg, n) && Reaches(cfg, n, steps[1..], e)
    ensures |n.closes| == |s.closes| == |cfg.spans| && |s.closes[i]| <= |n.closes[i]|
    ensures Ended(cfg, s, steps) == Ended(cfg, n, steps[1..]) + if Ends(cfg, s, steps[0]) then 1 else 0
    ensures Ends(cfg, s, steps[0]) ==> Between(n)
  {
    n := Apply(cfg, s, steps[0]);
    ApplyBase(cfg, s, steps[0]);
    CursorStep(cfg, s, steps[0], i);
    Counts(cfg, s, steps);
    if Ends(cfg, s, steps[0]) { EndsBetween(cfg, s, steps[0]); }
  }

  lemma RoundFrom(sizes: seq<Size>, from: nat, budget: nat, moved: nat, ended: nat)
    requires sizes != [] && budget > 0 && ended >= CeilDiv(Total(sizes), budget)
    requires Paid(sizes, from, budget, 0, 0, moved, ended)
    ensures moved >= |sizes|
  {
    if moved < |sizes| {
      SweptAround(sizes, from);
      SweptGrows(sizes, from, moved, |sizes|);
      CeilCovers(Total(sizes), budget, ended);
    }
  }
}
