/** The telemetry seqlock: any number of publishing cores, serialised by the
    ticket lock, against any number of readers, one memory access per step.

    Accesses are sequentially consistent here. Source globals change under the
    copy at any moment. `closes` and `accepted` are history: every closing store
    of a slot's sequence with what the region then held, and every reading a
    reader took as stable. Nothing in the protocol reads them. */
module Telemetry {
  import opened Words
  import L = SpinLock

  type Tid = L.Tid
  type Rid = nat

  /** A declared span: a global's address and the length copied. */
  datatype Span = Span(source: nat, bytes: nat)

  datatype Config = Config(spans: seq<Span>, budget: nat)

  const WORD: nat := 8

  /** copy_changed takes the word loop on this span at this offset. The
      destination is word aligned by placement, so the source decides. */
  predicate WordAt(span: Span, at: nat) {
    span.source % WORD == 0 && at + WORD <= span.bytes
  }

  /** The span is copied by whole words only, with no byte tail. */
  predicate WholeWords(span: Span) {
    span.source % WORD == 0 && span.bytes % WORD == 0
  }

  /** One slot of the region: its sequence, its stamp, its payload. */
  datatype Cell = Cell(sequence: u64, stamp: u64, payload: seq<byte>)

  datatype Kind = Budgeted | Full                 // publish, publish_all
  datatype Turn = Periodic(visited: nat, spent: nat) | Final(index: nat)

  datatype Held =
    | Nothing
    | Loaded(word: seq<byte>)    // the word loop's `value`
    | Compared                   // the byte loop has compared and not yet stored

  datatype Work =
    | Out
    | Pending(kind: Kind, stamp: u64)
    | Between(turn: Turn, stamp: u64)
    | Opening(turn: Turn, stamp: u64, start: u64)
    | Copying(turn: Turn, stamp: u64, start: u64, at: nat, moved: bool, held: Held)
    | Closing(turn: Turn, stamp: u64, start: u64, moved: bool)
    | Leaving

  /** A reader part way through a slot. `from` is history: how many closes the
      slot had seen when the sequence was sampled. */
  datatype Reader = Reader(slot: nat, before: u64, got: seq<byte>, stamp: Option<u64>, from: nat)

  datatype Close = Close(sequence: u64, version: nat, payload: seq<byte>, stamp: u64)
  datatype Accepted =
    Accepted(slot: nat, sequence: u64, payload: seq<byte>, stamp: u64, from: nat, to: nat)

  datatype State = State(
    lock: L.Lock,
    works: map<Tid, Work>,
    cells: seq<Cell>,
    live: seq<seq<byte>>,
    cursor: nat,
    readers: map<Rid, Reader>,
    closes: seq<seq<Close>>,
    accepted: seq<Accepted>)

  datatype Step =
    | Call(t: Tid, kind: Kind, stamp: u64)
    | Advance(t: Tid)                         // the next access of t's turn
    | Change(slot: nat, bytes: seq<byte>)     // the machine writes the global
    | Sample(r: Rid, slot: nat)               // the reader's first load
    | TakeByte(r: Rid)
    | TakeStamp(r: Rid)
    | Check(r: Rid)                           // the reader's last load

  // --- Shape: what makes every step's accesses land inside the region ---------

  predicate InTurn(w: Work) { w.Between? || w.Opening? || w.Copying? || w.Closing? }

  function SlotOf(cursor: nat, turn: Turn): nat {
    match turn
    case Periodic(_, _) => cursor
    case Final(index) => index
  }

  predicate WorkShape(cfg: Config, cursor: nat, w: Work) {
    && (w.Opening? || w.Copying? || w.Closing? ==> SlotOf(cursor, w.turn) < |cfg.spans|)
    && (w.Copying? ==>
          var span := cfg.spans[SlotOf(cursor, w.turn)];
          && w.at <= span.bytes
          && (w.held.Loaded? ==> WordAt(span, w.at) && |w.held.word| == WORD)
          && (w.held.Compared? ==> w.at < span.bytes && !WordAt(span, w.at)))
  }

  predicate CellShape(cfg: Config, s: State, i: nat)
    requires i < |cfg.spans| == |s.cells| == |s.live|
  {
    |s.cells[i].payload| == |s.live[i]| == cfg.spans[i].bytes
  }

  ghost predicate Shape(cfg: Config, s: State) {
    && |s.cells| == |s.live| == |s.closes| == |cfg.spans|
    && (forall i :: 0 <= i < |cfg.spans| ==> CellShape(cfg, s, i))
    && (cfg.spans != [] ==> s.cursor < |cfg.spans|)
    && s.works.Keys == s.lock.phase.Keys
    && (forall t :: t in s.works ==> WorkShape(cfg, s.cursor, s.works[t]))
    && (forall t :: t in s.works ==> PhaseFits(s.works[t], s.lock.phase[t]))
    && (forall r :: r in s.readers ==> s.readers[r].slot < |cfg.spans|)
  }

  /** Where a core can be in the lock, given where it is in its turn. */
  predicate PhaseFits(w: Work, p: L.Phase) {
    match w
    case Out => p.Idle?
    case Pending(_, _) => p.Idle? || p.Waiting? || p.Holding?
    case Leaving => p.Holding? || p.Releasing?
    case _ => p.Holding?
  }

  // --- Steps -------------------------------------------------------------------

  predicate More(cfg: Config, turn: Turn) {
    match turn
    case Periodic(visited, spent) => visited < |cfg.spans| && spent < cfg.budget
    case Final(index) => index < |cfg.spans|
  }

  function Begin(kind: Kind): Turn {
    match kind
    case Budgeted => Periodic(0, 0)
    case Full => Final(0)
  }

  function Further(turn: Turn, bytes: nat): Turn {
    match turn
    case Periodic(visited, spent) => Periodic(visited + 1, spent + bytes)
    case Final(index) => Final(index + 1)
  }

  ghost predicate Enabled(cfg: Config, s: State, step: Step)
    requires Shape(cfg, s)
  {
    match step
    case Call(t, kind, _) =>
      t in s.works && s.works[t].Out? && (kind.Full? || cfg.spans != [])
    case Advance(t) => t in s.works && !s.works[t].Out?
    case Change(slot, bytes) => slot < |cfg.spans| && |bytes| == cfg.spans[slot].bytes
    case Sample(r, slot) => r !in s.readers && slot < |cfg.spans|
    case TakeByte(r) => r in s.readers && |s.readers[r].got| < cfg.spans[s.readers[r].slot].bytes
    case TakeStamp(r) => r in s.readers && s.readers[r].stamp.None?
    case Check(r) =>
      r in s.readers && s.readers[r].stamp.Some? && |s.readers[r].got| == cfg.spans[s.readers[r].slot].bytes
  }

  function Apply(cfg: Config, s: State, step: Step): State
    requires Shape(cfg, s) && Enabled(cfg, s, step)
  {
    match step
    case Call(t, kind, stamp) => s.(works := s.works[t := Pending(kind, stamp)])
    case Advance(t) =>
      (match s.works[t]
       case Pending(kind, stamp) => Acquire(s, t, kind, stamp)
       case Between(turn, stamp) => LoadSequence(cfg, s, t, turn, stamp)
       case Opening(turn, stamp, start) => OpenWindow(s, t, turn, stamp, start)
       case Copying(_, _, _, _, _, _) => Copy(cfg, s, t, s.works[t])
       case Closing(turn, stamp, start, moved) => CloseWindow(cfg, s, t, turn, stamp, start, moved)
       case Leaving => Release(s, t))
    case Change(slot, bytes) => s.(live := s.live[slot := bytes])
    case Sample(r, slot) =>
      // odd: the writer is inside, and this attempt comes back unstable
      if s.cells[slot].sequence % 2 != 0 then s
      else s.(readers := s.readers[r := Reader(slot, s.cells[slot].sequence, [], None, |s.closes[slot]|)])
    case TakeByte(r) =>
      var reader := s.readers[r];
      assert CellShape(cfg, s, reader.slot);
      var b := s.cells[reader.slot].payload[|reader.got|];
      s.(readers := s.readers[r := reader.(got := reader.got + [b])])
    case TakeStamp(r) =>
      var reader := s.readers[r];
      s.(readers := s.readers[r := reader.(stamp := Some(s.cells[reader.slot].stamp))])
    case Check(r) =>
      var reader := s.readers[r];
      var s' := s.(readers := s.readers - {r});
      if s.cells[reader.slot].sequence != reader.before then s'
      else s'.(accepted := s.accepted +
        [Accepted(reader.slot, reader.before, reader.got, reader.stamp.value, reader.from, |s.closes[reader.slot]|)])
  }

  /** Guard's constructor, then the start of the turn. */
  function Acquire(s: State, t: Tid, kind: Kind, stamp: u64): State
    requires t in s.lock.phase && (s.lock.phase[t].Idle? || s.lock.phase[t].Waiting? || s.lock.phase[t].Holding?)
  {
    match s.lock.phase[t]
    case Idle => s.(lock := L.Apply(s.lock, L.Draw(t)))
    case Waiting(_) => s.(lock := L.Apply(s.lock, L.Poll(t)))
    case Holding => s.(works := s.works[t := Between(Begin(kind), stamp)])
  }

  /** Guard's destructor. */
  function Release(s: State, t: Tid): State
    requires t in s.lock.phase && (s.lock.phase[t].Holding? || s.lock.phase[t].Releasing?)
  {
    match s.lock.phase[t]
    case Holding => s.(lock := L.Apply(s.lock, L.LoadServing(t)))
    case Releasing(_) => s.(lock := L.Apply(s.lock, L.StoreServing(t)), works := s.works[t := Out])
  }

  function LoadSequence(cfg: Config, s: State, t: Tid, turn: Turn, stamp: u64): State
    requires |s.cells| == |cfg.spans| && (cfg.spans != [] ==> s.cursor < |cfg.spans|)
  {
    if More(cfg, turn)
    then s.(works := s.works[t := Opening(turn, stamp, s.cells[SlotOf(s.cursor, turn)].sequence)])
    else s.(works := s.works[t := Leaving])
  }

  function OpenWindow(s: State, t: Tid, turn: Turn, stamp: u64, start: u64): State
    requires SlotOf(s.cursor, turn) < |s.cells|
  {
    var i := SlotOf(s.cursor, turn);
    s.(cells := s.cells[i := s.cells[i].(sequence := (start + 1) % TWO_64)],
       works := s.works[t := Copying(turn, stamp, start, 0, false, Nothing)])
  }

  /** copy_changed and the stamp, one access at a time. */
  function Copy(cfg: Config, s: State, t: Tid, w: Work): State
    requires w.Copying? && |s.cells| == |s.live| == |cfg.spans| && WorkShape(cfg, s.cursor, w)
    requires CellShape(cfg, s, SlotOf(s.cursor, w.turn))
  {
    var i := SlotOf(s.cursor, w.turn);
    var span, cell, live := cfg.spans[i], s.cells[i], s.live[i];
    match w.held
    case Loaded(word) =>
      var moved := w.moved || cell.payload[w.at..w.at + WORD] != word;
      var payload := cell.payload[..w.at] + word + cell.payload[w.at + WORD..];
      s.(cells := s.cells[i := cell.(payload := payload)],
         works := s.works[t := w.(at := w.at + WORD, moved := moved, held := Nothing)])
    case Compared =>
      // the byte loop reads the source again to store it
      s.(cells := s.cells[i := cell.(payload := cell.payload[w.at := live[w.at]])],
         works := s.works[t := w.(at := w.at + 1, held := Nothing)])
    case Nothing =>
      if WordAt(span, w.at) then
        s.(works := s.works[t := w.(held := Loaded(live[w.at..w.at + WORD]))])
      else if w.at < span.bytes then
        s.(works := s.works[t := w.(moved := w.moved || cell.payload[w.at] != live[w.at], held := Compared)])
      else
        s.(cells := s.cells[i := if w.moved then cell.(stamp := w.stamp) else cell],
           works := s.works[t := Closing(w.turn, w.stamp, w.start, w.moved)])
  }

  function CloseWindow(cfg: Config, s: State, t: Tid, turn: Turn, stamp: u64, start: u64, moved: bool): State
    requires |s.cells| == |s.closes| == |cfg.spans| && SlotOf(s.cursor, turn) < |cfg.spans|
  {
    var i := SlotOf(s.cursor, turn);
    var cell := s.cells[i].(sequence := if moved then (start + 2) % TWO_64 else start);
    var version := Version(s.closes[i]) + if moved then 1 else 0;
    s.(cells := s.cells[i := cell],
       works := s.works[t := Between(Further(turn, cfg.spans[i].bytes), stamp)],
       cursor := if turn.Periodic? then (s.cursor + 1) % |cfg.spans| else s.cursor,
       closes := s.closes[i := s.closes[i] + [Close(cell.sequence, version, cell.payload, cell.stamp)]])
  }

  function Version(closes: seq<Close>): nat {
    if closes == [] then 0 else closes[|closes| - 1].version
  }

  // --- Runs --------------------------------------------------------------------

  /** bind() has cleared the table; the payloads and the globals hold anything. */
  ghost predicate Initial(cfg: Config, threads: set<Tid>, s: State) {
    && |s.cells| == |s.live| == |s.closes| == |cfg.spans|
    && (forall i :: 0 <= i < |cfg.spans| ==>
          && CellShape(cfg, s, i)
          && s.cells[i].sequence == 0 && s.cells[i].stamp == 0
          && s.closes[i] == [Close(0, 0, s.cells[i].payload, 0)])
    && s.cursor == 0
    && s.lock == L.Init(threads)
    && s.works == (map t | t in threads :: Out)
    && s.readers == map[]
    && s.accepted == []
  }

  ghost predicate Reaches(cfg: Config, s: State, steps: seq<Step>, e: State)
    decreases |steps|
  {
    if steps == [] then e == s
    else Shape(cfg, s) && Enabled(cfg, s, steps[0]) && Reaches(cfg, Apply(cfg, s, steps[0]), steps[1..], e)
  }
}
