/** What the telemetry protocol keeps, step by step, and what a reader may
    conclude from an even sequence. */
module TelemetrySafety {
  import opened Words
  import opened Telemetry
  import L = SpinLock

  // --- Every access stays inside the region -----------------------------------

  ghost predicate Base(cfg: Config, s: State) {
    && Shape(cfg, s)
    && L.Inv(s.lock)
    && |s.lock.phase| <= TWO_32
  }

  /** The lock makes every sequence single-writer: one core at a time is in a turn. */
  lemma OneInTurn(cfg: Config, s: State, t: Tid, u: Tid)
    requires Base(cfg, s) && t in s.works && u in s.works
    requires InTurn(s.works[t]) && InTurn(s.works[u])
    ensures t == u
  {
    L.InvExclusive(s.lock);
    assert PhaseFits(s.works[t], s.lock.phase[t]) && PhaseFits(s.works[u], s.lock.phase[u]);
    assert L.Inside(s.lock, t) && L.Inside(s.lock, u);
  }

  /** One core's work moves on and the cells keep their sizes. */
  lemma ShapeFrame(cfg: Config, s: State, s': State, t: Tid)
    requires Shape(cfg, s) && t in s.works && t in s'.works
    requires |s'.cells| == |s'.live| == |s'.closes| == |cfg.spans|
    requires forall i :: 0 <= i < |cfg.spans| ==> CellShape(cfg, s', i)
    requires cfg.spans != [] ==> s'.cursor < |cfg.spans|
    requires s'.works == s.works[t := s'.works[t]]
    requires t in s.lock.phase && s'.lock.phase.Keys == s.lock.phase.Keys
    requires forall u :: u in s.lock.phase && u != t ==> s'.lock.phase[u] == s.lock.phase[u]
    requires s'.cursor == s.cursor || forall u :: u in s.works && u != t ==> !InTurn(s.works[u])
    requires WorkShape(cfg, s'.cursor, s'.works[t]) && PhaseFits(s'.works[t], s'.lock.phase[t])
    requires s'.readers == s.readers
    ensures Shape(cfg, s')
  {
    forall u | u in s'.works ensures WorkShape(cfg, s'.cursor, s'.works[u]) {
      assert WorkShape(cfg, s.cursor, s.works[u]);
    }
    forall u | u in s'.works ensures PhaseFits(s'.works[u], s'.lock.phase[u]) {
      assert PhaseFits(s.works[u], s.lock.phase[u]);
    }
  }

  lemma ApplyBase(cfg: Config, s: State, step: Step)
    requires Base(cfg, s) && Enabled(cfg, s, step)
    ensures Base(cfg, Apply(cfg, s, step))
  {
    match step
    case Call(t, kind, stamp) =>
      var s' := Apply(cfg, s, step);
      assert PhaseFits(s.works[t], s.lock.phase[t]);
      forall i | 0 <= i < |cfg.spans| ensures CellShape(cfg, s', i) {
        assert CellShape(cfg, s, i);
      }
      ShapeFrame(cfg, s, s', t);
    case Advance(t) => AdvanceBase(cfg, s, t);
    case Change(slot, bytes) => ChangeBase(cfg, s, slot, bytes);
    case _ =>
      var s' := Apply(cfg, s, step);
      assert s' == s.(readers := s'.readers, accepted := s'.accepted);
      ReaderFrame(cfg, s, s'.readers, s'.accepted);
  }

  lemma ChangeBase(cfg: Config, s: State, slot: nat, bytes: seq<byte>)
    requires Base(cfg, s) && Enabled(cfg, s, Change(slot, bytes))
    ensures Base(cfg, Apply(cfg, s, Change(slot, bytes)))
  {
    var s' := Apply(cfg, s, Change(slot, bytes));
    forall i | 0 <= i < |cfg.spans| ensures CellShape(cfg, s', i) {
      assert CellShape(cfg, s, i);
    }
  }

  lemma ReaderFrame(cfg: Config, s: State, readers: map<Rid, Reader>, accepted: seq<Accepted>)
    requires Base(cfg, s)
    requires forall r :: r in readers ==> readers[r].slot < |cfg.spans|
    ensures Base(cfg, s.(readers := readers, accepted := accepted))
  {
    var s' := s.(readers := readers, accepted := accepted);
    forall i | 0 <= i < |cfg.spans| ensures CellShape(cfg, s', i) {
      assert CellShape(cfg, s, i);
    }
  }

  lemma AdvanceBase(cfg: Config, s: State, t: Tid)
    requires Base(cfg, s) && Enabled(cfg, s, Advance(t))
    ensures Base(cfg, Apply(cfg, s, Advance(t)))
  {
    assert WorkShape(cfg, s.cursor, s.works[t]) && PhaseFits(s.works[t], s.lock.phase[t]);
    if s.works[t].Pending? || s.works[t].Leaving? {
      LockBase(cfg, s, t);
    } else if s.works[t].Copying? {
      CopyBase(cfg, s, t);
    } else {
      TurnBase(cfg, s, t);
    }
  }

  lemma LockBase(cfg: Config, s: State, t: Tid)
    requires Base(cfg, s) && Enabled(cfg, s, Advance(t)) && (s.works[t].Pending? || s.works[t].Leaving?)
    ensures Base(cfg, Apply(cfg, s, Advance(t)))
  {
    var s' := Apply(cfg, s, Advance(t));
    assert PhaseFits(s.works[t], s.lock.phase[t]);
    var phase := s.lock.phase[t];
    if s.works[t].Pending? && !phase.Holding? {
      L.ApplyInv(s.lock, if phase.Idle? then L.Draw(t) else L.Poll(t));
    } else if s.works[t].Leaving? {
      L.ApplyInv(s.lock, if phase.Holding? then L.LoadServing(t) else L.StoreServing(t));
    }
    assert |s'.lock.phase.Keys| == |s.lock.phase.Keys|;
    forall i | 0 <= i < |cfg.spans| ensures CellShape(cfg, s', i) {
      assert CellShape(cfg, s, i);
    }
    ShapeFrame(cfg, s, s', t);
  }

  lemma CopyBase(cfg: Config, s: State, t: Tid)
    requires Base(cfg, s) && Enabled(cfg, s, Advance(t)) && s.works[t].Copying?
    ensures Base(cfg, Apply(cfg, s, Advance(t)))
  {
    var s', slot := Apply(cfg, s, Advance(t)), SlotOf(s.cursor, s.works[t].turn);
    assert PhaseFits(s.works[t], s.lock.phase[t]);
    assert WorkShape(cfg, s.cursor, s.works[t]);
    assert CellShape(cfg, s, slot);
    forall i | 0 <= i < |cfg.spans| ensures CellShape(cfg, s', i) {
      assert CellShape(cfg, s, i);
    }
    assert WorkShape(cfg, s.cursor, s'.works[t]);
    ShapeFrame(cfg, s, s', t);
  }

  lemma TurnBase(cfg: Config, s: State, t: Tid)
    requires Base(cfg, s) && Enabled(cfg, s, Advance(t))
    requires s.works[t].Between? || s.works[t].Opening? || s.works[t].Closing?
    ensures Base(cfg, Apply(cfg, s, Advance(t)))
  {
    var s' := Apply(cfg, s, Advance(t));
    assert PhaseFits(s.works[t], s.lock.phase[t]);
    assert WorkShape(cfg, s.cursor, s.works[t]);
    forall i | 0 <= i < |cfg.spans| ensures CellShape(cfg, s', i) {
      assert CellShape(cfg, s, i);
    }
    forall u | u in s.works && u != t ensures !InTurn(s.works[u]) {
      if InTurn(s.works[u]) { OneInTurn(cfg, s, t, u); }
    }
    ShapeFrame(cfg, s, s', t);
  }

  lemma {:induction false} RunBase(cfg: Config, s: State, steps: seq<Step>, e: State)
    requires Base(cfg, s) && Reaches(cfg, s, steps, e)
    ensures Base(cfg, e)
    decreases |steps|
  {
    if steps != [] {
      ApplyBase(cfg, s, steps[0]);
      RunBase(cfg, Apply(cfg, s, steps[0]), steps[1..], e);
    }
  }

  // --- One sequence, one publication ------------------------------------------

  /** Changes so far, as the even sequence that names them. */
  function Named(version: nat): u64 { (2 * version) % TWO_64 }

  predicate SameContent(a: Close, b: Close) {
    a.payload == b.payload && a.stamp == b.stamp
  }

  predicate Follows(a: Close, b: Close) {
    || (b.version == a.version && SameContent(a, b))
    || (b.version == a.version + 1 && a.payload != b.payload)
  }

  ghost predicate ClosesOk(log: seq<Close>) {
    && log != []
    && (forall k :: 0 <= k < |log| ==> log[k].sequence == Named(log[k].version))
    && (forall k :: 0 <= k < |log| - 1 ==> Follows(log[k], log[k + 1]))
  }

  function Last(log: seq<Close>): Close
    requires log != []
  {
    log[|log| - 1]
  }

  lemma {:induction false} VersionsGrow(log: seq<Close>, a: nat, b: nat)
    requires ClosesOk(log) && a <= b < |log|
    ensures log[a].version <= log[b].version <= log[a].version + (b - a)
    ensures log[a].version == log[b].version ==> SameContent(log[a], log[b])
    decreases b
  {
    if a < b {
      VersionsGrow(log, a, b - 1);
      assert Follows(log[b - 1], log[b - 1 + 1]);
    }
  }

  lemma NamedInjective(v: nat, w: nat)
    requires Named(v) == Named(w) && -0x8000_0000_0000_0000 < v - w < 0x8000_0000_0000_0000
    ensures v == w
  {
    ModInjective(2 * v, 2 * w, TWO_64);
  }

  lemma NamedParity(v: nat)
    ensures Named(v) % 2 == 0 && (Named(v) + 1) % TWO_64 % 2 == 1
    ensures (Named(v) + 2) % TWO_64 == Named(v + 1)
  {}

  predicate Owns(s: State, t: Tid, i: int) {
    && t in s.works
    && (s.works[t].Copying? || s.works[t].Closing?)
    && SlotOf(s.cursor, s.works[t].turn) == i
  }

  predicate Settled(cell: Cell, last: Close) {
    cell.sequence == last.sequence && cell.payload == last.payload && cell.stamp == last.stamp
  }

  /** Inside the window. `moved` says exactly whether the payload differs from
      what was last published, counting a byte compared and not yet stored. */
  predicate OpenCell(span: Span, cell: Cell, live: seq<byte>, last: Close, w: Work)
    requires w.Copying? || w.Closing?
  {
    && cell.sequence == (last.sequence + 1) % TWO_64
    && w.start == last.sequence
    && (!w.moved ==> cell.stamp == last.stamp)
    && |cell.payload| == |last.payload| == |live|
    && (w.Closing? ==> (w.moved <==> cell.payload != last.payload))
    && (w.Copying? ==>
          && w.at <= |live|
          && cell.payload[w.at..] == last.payload[w.at..]
          && (WholeWords(span) ==> w.at % WORD == 0)
          && (w.held.Compared? ==>
                w.at < |live| && (w.moved <==> cell.payload != last.payload || cell.payload[w.at] != live[w.at]))
          && (!w.held.Compared? ==> (w.moved <==> cell.payload != last.payload)))
  }

  ghost predicate CellOk(cfg: Config, s: State, i: nat)
    requires i < |s.cells| == |s.closes| == |s.live| == |cfg.spans|
  {
    && ClosesOk(s.closes[i])
    && ((forall t :: t in s.works ==> !Owns(s, t, i)) ==> Settled(s.cells[i], Last(s.closes[i])))
    && (forall t :: Owns(s, t, i) ==> OpenCell(cfg.spans[i], s.cells[i], s.live[i], Last(s.closes[i]), s.works[t]))
  }

  predicate OpeningOk(s: State, t: Tid)
    requires t in s.works
  {
    s.works[t].Opening? ==>
      var i := SlotOf(s.cursor, s.works[t].turn);
      i < |s.cells| && s.works[t].start == s.cells[i].sequence
  }

  /** The slot has not moved past this version, and is not about to. */
  ghost predicate Quiet(s: State, i: nat, version: int)
    requires i < |s.closes|
  {
    && Version(s.closes[i]) == version
    && (forall t :: Owns(s, t, i) ==> !s.works[t].moved)
  }

  ghost predicate ReaderOk(s: State, r: Reader) {
    && r.slot < |s.closes|
    && 1 <= r.from <= |s.closes[r.slot]|
    && var base := s.closes[r.slot][r.from - 1];
       && r.before == base.sequence
       && (Quiet(s, r.slot, base.version) ==>
             && r.got <= base.payload
             && (r.stamp.Some? ==> r.stamp.value == base.stamp))
  }

  /** Fewer than 2^63 closes lie between two points of a slot's history, so the
      64-bit sequence cannot have come round. */
  predicate Near(a: int, b: int) { b - a < 0x8000_0000_0000_0000 }

  /** A reading accepted as stable is what the last close before it published,
      unless 2^63 closes fitted inside the reading. */
  predicate AcceptedOk(closes: seq<seq<Close>>, a: Accepted) {
    && a.slot < |closes|
    && 1 <= a.from <= a.to <= |closes[a.slot]|
    && (Near(a.from, a.to) ==>
          var c := closes[a.slot][a.from - 1];
          a.sequence == c.sequence && a.payload == c.payload && a.stamp == c.stamp)
  }

  ghost predicate Inv(cfg: Config, s: State) {
    Base(cfg, s) && Safe(cfg, s)
  }

  ghost predicate Safe(cfg: Config, s: State) {
    && |s.cells| == |s.closes| == |s.live| == |cfg.spans|
    && (forall i :: 0 <= i < |cfg.spans| ==> CellOk(cfg, s, i))
    && (forall t :: t in s.works ==> OpeningOk(s, t))
    && (forall r :: r in s.readers ==> ReaderOk(s, s.readers[r]))
    && (forall k :: 0 <= k < |s.accepted| ==> AcceptedOk(s.closes, s.accepted[k]))
  }

  ghost predicate AllWholeWords(cfg: Config) {
    forall i :: 0 <= i < |cfg.spans| ==> WholeWords(cfg.spans[i])
  }

  lemma InitialInv(cfg: Config, threads: set<Tid>, s: State)
    requires Initial(cfg, threads, s) && |threads| <= TWO_32
    ensures Inv(cfg, s)
  {
    L.InitInv(threads);
    assert s.lock.phase.Keys == threads;
    forall i | 0 <= i < |cfg.spans| ensures CellOk(cfg, s, i) {
      assert CellShape(cfg, s, i);
    }
  }

  // --- Readers and the outside world ------------------------------------------

  /** Only a reader moved: cells, cores and history are as they were. */
  lemma ReaderStep(cfg: Config, s: State, step: Step)
    requires Inv(cfg, s) && Enabled(cfg, s, step)
    requires step.Sample? || step.TakeByte? || step.TakeStamp? || step.Check?
    ensures Inv(cfg, Apply(cfg, s, step))
  {
    var s' := Apply(cfg, s, step);
    assert s' == s.(readers := s'.readers, accepted := s'.accepted);
    match step
    case Sample(r, slot) =>
      if s.cells[slot].sequence % 2 == 0 {
        SampleOk(cfg, s, r, slot);
        ReadersFrame(cfg, s, s'.readers, s'.accepted);
      }
    case TakeByte(r) =>
      TakeByteOk(cfg, s, r);
      ReadersFrame(cfg, s, s'.readers, s'.accepted);
    case TakeStamp(r) =>
      TakeStampOk(cfg, s, r);
      ReadersFrame(cfg, s, s'.readers, s'.accepted);
    case Check(r) =>
      if s.cells[s.readers[r].slot].sequence == s.readers[r].before {
        CheckOk(cfg, s, r);
      }
      ReadersFrame(cfg, s, s'.readers, s'.accepted);
  }

  lemma ReadersFrame(cfg: Config, s: State, readers: map<Rid, Reader>, accepted: seq<Accepted>)
    requires Inv(cfg, s)
    requires forall r :: r in readers ==> ReaderOk(s, readers[r])
    requires forall k :: 0 <= k < |accepted| ==> AcceptedOk(s.closes, accepted[k])
    ensures Inv(cfg, s.(readers := readers, accepted := accepted))
  {
    var s' := s.(readers := readers, accepted := accepted);
    ReaderFrame(cfg, s, readers, accepted);
    forall t, i: int ensures Owns(s', t, i) == Owns(s, t, i) {}
    forall i | 0 <= i < |cfg.spans| ensures CellOk(cfg, s', i) {
      assert CellOk(cfg, s, i);
    }
    forall t | t in s'.works ensures OpeningOk(s', t) {
      assert OpeningOk(s, t);
    }
    forall r | r in readers ensures ReaderOk(s', readers[r]) {
      assert ReaderOk(s, readers[r]);
    }
  }

  /** An even sequence is read only while the slot's window is shut. */
  lemma EvenIsSettled(cfg: Config, s: State, i: nat)
    requires Inv(cfg, s) && i < |cfg.spans| && s.cells[i].sequence % 2 == 0
    ensures forall t :: t in s.works ==> !Owns(s, t, i)
    ensures s.closes[i] != [] && Settled(s.cells[i], Last(s.closes[i]))
  {
    assert CellOk(cfg, s, i);
    NamedParity(Last(s.closes[i]).version);
  }

  lemma SampleOk(cfg: Config, s: State, r: Rid, slot: nat)
    requires Inv(cfg, s) && Enabled(cfg, s, Sample(r, slot)) && s.cells[slot].sequence % 2 == 0
    ensures ReaderOk(s, Apply(cfg, s, Sample(r, slot)).readers[r])
  {
    EvenIsSettled(cfg, s, slot);
    assert CellOk(cfg, s, slot);
  }

  /** While the slot is quiet, the region holds what the last close published. */
  lemma QuietContent(cfg: Config, s: State, i: nat, k: nat)
    requires Inv(cfg, s) && i < |cfg.spans| && k < |s.closes[i]|
    requires Quiet(s, i, s.closes[i][k].version)
    ensures s.cells[i].payload == s.closes[i][k].payload && s.cells[i].stamp == s.closes[i][k].stamp
  {
    assert CellOk(cfg, s, i);
    VersionsGrow(s.closes[i], k, |s.closes[i]| - 1);
    if t :| Owns(s, t, i) {
      assert OpenCell(cfg.spans[i], s.cells[i], s.live[i], Last(s.closes[i]), s.works[t]);
    }
  }

  lemma TakeByteOk(cfg: Config, s: State, r: Rid)
    requires Inv(cfg, s) && Enabled(cfg, s, TakeByte(r))
    ensures ReaderOk(s, Apply(cfg, s, TakeByte(r)).readers[r])
  {
    var reader := s.readers[r];
    assert ReaderOk(s, reader) && CellShape(cfg, s, reader.slot);
    var base := s.closes[reader.slot][reader.from - 1];
    if Quiet(s, reader.slot, base.version) {
      QuietContent(cfg, s, reader.slot, reader.from - 1);
    }
  }

  lemma TakeStampOk(cfg: Config, s: State, r: Rid)
    requires Inv(cfg, s) && Enabled(cfg, s, TakeStamp(r))
    ensures ReaderOk(s, Apply(cfg, s, TakeStamp(r)).readers[r])
  {
    var reader := s.readers[r];
    assert ReaderOk(s, reader);
    var base := s.closes[reader.slot][reader.from - 1];
    if Quiet(s, reader.slot, base.version) {
      QuietContent(cfg, s, reader.slot, reader.from - 1);
    }
  }

  /** The two samples agree, so nothing moved between them. */
  lemma CheckOk(cfg: Config, s: State, r: Rid)
    requires Inv(cfg, s) && Enabled(cfg, s, Check(r))
    requires s.cells[s.readers[r].slot].sequence == s.readers[r].before
    ensures var reader := s.readers[r];
            AcceptedOk(s.closes, Accepted(reader.slot, reader.before, reader.got, reader.stamp.value,
                                          reader.from, |s.closes[reader.slot]|))
  {
    var reader := s.readers[r];
    var i, log := reader.slot, s.closes[reader.slot];
    assert ReaderOk(s, reader) && CellOk(cfg, s, i) && CellShape(cfg, s, i);
    var base := log[reader.from - 1];
    if Near(reader.from, |log|) {
      NamedParity(base.version);
      EvenIsSettled(cfg, s, i);
      VersionsGrow(log, reader.from - 1, |log| - 1);
      NamedInjective(base.version, Last(log).version);
      assert Quiet(s, i, base.version);
    }
  }

  /** The machine writes a global. Whole words tolerate that at any moment; a
      span with a byte tail only while nobody has its window open. */
  ghost predicate Tolerated(cfg: Config, s: State, step: Step)
    requires Shape(cfg, s) && Enabled(cfg, s, step)
  {
    step.Change? && !WholeWords(cfg.spans[step.slot]) ==> forall t :: !Owns(s, t, step.slot)
  }

  lemma ChangeStep(cfg: Config, s: State, slot: nat, bytes: seq<byte>)
    requires Inv(cfg, s) && Enabled(cfg, s, Change(slot, bytes)) && Tolerated(cfg, s, Change(slot, bytes))
    ensures Inv(cfg, Apply(cfg, s, Change(slot, bytes)))
  {
    ApplyBase(cfg, s, Change(slot, bytes));
    var s' := Apply(cfg, s, Change(slot, bytes));
    forall t, i: int ensures Owns(s', t, i) == Owns(s, t, i) {}
    ChangeCell(cfg, s, slot, bytes);
    forall i | 0 <= i < |cfg.spans| ensures CellOk(cfg, s', i) {
      assert CellOk(cfg, s, i);
    }
    forall t | t in s'.works ensures OpeningOk(s', t) { assert OpeningOk(s, t); }
    forall r | r in s'.readers ensures ReaderOk(s', s'.readers[r]) {
      KeepReader(s, s', s.readers[r]);
    }
  }

  lemma ChangeCell(cfg: Config, s: State, slot: nat, bytes: seq<byte>)
    requires Shape(cfg, s) && slot < |cfg.spans| && CellOk(cfg, s, slot) && |bytes| == cfg.spans[slot].bytes
    requires !WholeWords(cfg.spans[slot]) ==> forall t :: !Owns(s, t, slot)
    ensures CellOk(cfg, s.(live := s.live[slot := bytes]), slot)
  {
    var s' := s.(live := s.live[slot := bytes]);
    assert CellShape(cfg, s, slot);
    forall t ensures Owns(s', t, slot) == Owns(s, t, slot) {}
    forall t | Owns(s', t, slot)
      ensures OpenCell(cfg.spans[slot], s'.cells[slot], bytes, Last(s.closes[slot]), s.works[t])
    {
      assert OpenCell(cfg.spans[slot], s.cells[slot], s.live[slot], Last(s.closes[slot]), s.works[t]);
      assert WorkShape(cfg, s.cursor, s.works[t]);
      if s.works[t].Copying? && s.works[t].held.Compared? { NoTail(cfg.spans[slot], s.works[t].at); }
    }
  }

  /** A whole-word span never reaches the byte loop. */
  lemma NoTail(span: Span, at: nat)
    requires WholeWords(span) && at % WORD == 0 && at < span.bytes
    ensures WordAt(span, at)
  {}

  /** A step that touches no cell, no history and no open window. */
  lemma OtherStep(cfg: Config, s: State, s': State)
    requires Inv(cfg, s) && Base(cfg, s')
    requires s'.cells == s.cells && s'.closes == s.closes && s'.readers == s.readers && s'.accepted == s.accepted
    requires s'.live == s.live
    requires forall t, i: int :: Owns(s', t, i) <==> Owns(s, t, i)
    requires forall t, i: int :: Owns(s, t, i) ==> t in s'.works && s'.works[t] == s.works[t]
    requires forall t :: t in s'.works ==> OpeningOk(s', t)
    ensures Inv(cfg, s')
  {
    forall i | 0 <= i < |cfg.spans| ensures CellOk(cfg, s', i) {
      assert CellOk(cfg, s, i);
      if forall t :: t in s'.works ==> !Owns(s', t, i) {
        forall t | t in s.works ensures !Owns(s, t, i) { assert Owns(s', t, i) <==> Owns(s, t, i); }
      }
    }
    forall r | r in s'.readers ensures ReaderOk(s', s'.readers[r]) {
      KeepReader(s, s', s.readers[r]);
    }
  }

  lemma KeepReader(s: State, s': State, r: Reader)
    requires ReaderOk(s, r) && s'.closes == s.closes
    requires forall v :: Quiet(s', r.slot, v) ==> Quiet(s, r.slot, v)
    ensures ReaderOk(s', r)
  {}

  lemma CallStep(cfg: Config, s: State, t: Tid, kind: Kind, stamp: u64)
    requires Inv(cfg, s) && Enabled(cfg, s, Call(t, kind, stamp))
    ensures Inv(cfg, Apply(cfg, s, Call(t, kind, stamp)))
  {
    ApplyBase(cfg, s, Call(t, kind, stamp));
    var s' := Apply(cfg, s, Call(t, kind, stamp));
    LocalStep(cfg, s, s', t);
  }

  /** t changes what it is doing without holding a window open before or after. */
  lemma LocalStep(cfg: Config, s: State, s': State, t: Tid)
    requires Inv(cfg, s) && Base(cfg, s') && t in s.works && t in s'.works
    requires s'.cells == s.cells && s'.closes == s.closes && s'.readers == s.readers && s'.accepted == s.accepted
    requires s'.cursor == s.cursor && s'.live == s.live && s'.works == s.works[t := s'.works[t]]
    requires !s.works[t].Copying? && !s.works[t].Closing? && !s'.works[t].Copying? && !s'.works[t].Closing?
    requires OpeningOk(s', t)
    ensures Inv(cfg, s')
  {
    forall u, i: int ensures Owns(s', u, i) == Owns(s, u, i) {}
    forall u | u in s'.works ensures OpeningOk(s', u) {
      assert OpeningOk(s, u);
    }
    OtherStep(cfg, s, s');
  }

  // --- The publisher's steps ---------------------------------------------------

  /** t is the only core that can own a window or be about to open one. */
  ghost predicate Sole(s: State, t: Tid) {
    && t in s.works
    && (forall u, i: int :: Owns(s, u, i) ==> u == t)
    && (forall u :: u in s.works && s.works[u].Opening? ==> u == t)
  }

  lemma InTurnIsSole(cfg: Config, s: State, t: Tid)
    requires Base(cfg, s) && t in s.works && InTurn(s.works[t])
    ensures Sole(s, t)
  {
    forall u | u in s.works && InTurn(s.works[u]) ensures u == t {
      OneInTurn(cfg, s, t, u);
    }
  }

  /** t works on slot i: what the step must show for everything to carry over. */
  lemma SlotStep(cfg: Config, s: State, s': State, t: Tid, i: nat)
    requires Safe(cfg, s) && i < |cfg.spans| && Sole(s, t) && Sole(s', t)
    requires |s'.cells| == |s'.closes| == |cfg.spans| && s'.live == s.live
    requires s'.cells == s.cells[i := s'.cells[i]] && s'.closes == s.closes[i := s'.closes[i]]
    requires s'.readers == s.readers && s'.accepted == s.accepted
    requires forall j: int :: Owns(s, t, j) ==> j == i
    requires forall j: int :: Owns(s', t, j) ==> j == i
    requires s.closes[i] <= s'.closes[i]
    requires CellOk(cfg, s', i)
    requires OpeningOk(s', t)
    requires forall v :: v <= Version(s.closes[i]) && Quiet(s', i, v) ==> Quiet(s, i, v)
    ensures Safe(cfg, s')
  {
    forall j | 0 <= j < |cfg.spans| ensures CellOk(cfg, s', j) {
      assert CellOk(cfg, s, j);
    }
    forall r | r in s'.readers ensures ReaderOk(s', s'.readers[r]) {
      SlotReader(cfg, s, s', t, i, s.readers[r]);
    }
    forall k | 0 <= k < |s.accepted| ensures AcceptedOk(s'.closes, s.accepted[k]) {
      assert AcceptedOk(s.closes, s.accepted[k]);
    }
  }

  lemma SlotReader(cfg: Config, s: State, s': State, t: Tid, i: nat, r: Reader)
    requires Safe(cfg, s) && ReaderOk(s, r) && i < |cfg.spans| && |s'.closes| == |s.closes|
    requires s'.closes == s.closes[i := s'.closes[i]] && s.closes[i] <= s'.closes[i]
    requires forall u, j: int :: Owns(s, u, j) ==> u == t && j == i
    requires forall v :: v <= Version(s.closes[i]) && Quiet(s', i, v) ==> Quiet(s, i, v)
    ensures ReaderOk(s', r)
  {
    assert CellOk(cfg, s, r.slot);
    var base := s.closes[r.slot][r.from - 1];
    VersionsGrow(s.closes[r.slot], r.from - 1, |s.closes[r.slot]| - 1);
    if Quiet(s', r.slot, base.version) {
      assert Quiet(s, r.slot, base.version);
    }
  }

  lemma LoadStep(cfg: Config, s: State, t: Tid)
    requires Inv(cfg, s) && Enabled(cfg, s, Advance(t)) && s.works[t].Between?
    ensures Inv(cfg, Apply(cfg, s, Advance(t)))
  {
    ApplyBase(cfg, s, Advance(t));
    LocalStep(cfg, s, Apply(cfg, s, Advance(t)), t);
  }

  lemma LockStep(cfg: Config, s: State, t: Tid)
    requires Inv(cfg, s) && Enabled(cfg, s, Advance(t)) && (s.works[t].Pending? || s.works[t].Leaving?)
    ensures Inv(cfg, Apply(cfg, s, Advance(t)))
  {
    ApplyBase(cfg, s, Advance(t));
    assert PhaseFits(s.works[t], s.lock.phase[t]);
    LocalStep(cfg, s, Apply(cfg, s, Advance(t)), t);
  }

  lemma OpenStep(cfg: Config, s: State, s': State, t: Tid)
    requires Safe(cfg, s) && Sole(s, t) && Sole(s', t) && s.works[t].Opening?
    requires WorkShape(cfg, s.cursor, s.works[t]) && CellShape(cfg, s, SlotOf(s.cursor, s.works[t].turn))
    requires s' == OpenWindow(s, t, s.works[t].turn, s.works[t].stamp, s.works[t].start)
    ensures Safe(cfg, s')
  {
    var i := SlotOf(s.cursor, s.works[t].turn);
    assert OpeningOk(s, t) && CellOk(cfg, s, i);
    OpenCellOk(cfg, s, s', t, i);
    SlotStep(cfg, s, s', t, i);
  }

  lemma OpenCellOk(cfg: Config, s: State, s': State, t: Tid, i: nat)
    requires |s.cells| == |s.closes| == |s.live| == |cfg.spans| && i < |s.cells| && CellOk(cfg, s, i) && CellShape(cfg, s, i)
    requires t in s.works && s.works[t].Opening? && i == SlotOf(s.cursor, s.works[t].turn)
    requires OpeningOk(s, t)
    requires forall u, j: int :: Owns(s, u, j) ==> u == t
    requires forall u, j: int :: Owns(s', u, j) ==> u == t
    requires s' == OpenWindow(s, t, s.works[t].turn, s.works[t].stamp, s.works[t].start)
    ensures CellOk(cfg, s', i)
    ensures forall v :: Quiet(s', i, v) ==> Quiet(s, i, v)
  {
    forall u | u in s.works ensures !Owns(s, u, i) {}
    assert Owns(s', t, i);
  }

  lemma CopyStep(cfg: Config, s: State, s': State, t: Tid)
    requires Safe(cfg, s) && Sole(s, t) && Sole(s', t) && s.works[t].Copying?
    requires WorkShape(cfg, s.cursor, s.works[t])
    requires CellShape(cfg, s, SlotOf(s.cursor, s.works[t].turn))
    requires s' == Copy(cfg, s, t, s.works[t])
    ensures Safe(cfg, s')
  {
    var i := SlotOf(s.cursor, s.works[t].turn);
    assert CellOk(cfg, s, i);
    CopyCellOk(cfg, s, s', t, i);
    SlotStep(cfg, s, s', t, i);
  }

  lemma CopyCellOk(cfg: Config, s: State, s': State, t: Tid, i: nat)
    requires |s.cells| == |s.live| == |s.closes| == |cfg.spans| && i < |cfg.spans|
    requires CellOk(cfg, s, i) && CellShape(cfg, s, i)
    requires t in s.works && s.works[t].Copying? && i == SlotOf(s.cursor, s.works[t].turn)
    requires WorkShape(cfg, s.cursor, s.works[t])
    requires forall u, j: int :: Owns(s, u, j) ==> u == t
    requires forall u, j: int :: Owns(s', u, j) ==> u == t
    requires s' == Copy(cfg, s, t, s.works[t])
    ensures CellOk(cfg, s', i)
    ensures forall v :: Quiet(s', i, v) ==> Quiet(s, i, v)
  {
    assert Owns(s, t, i);
    assert OpenCell(cfg.spans[i], s.cells[i], s.live[i], Last(s.closes[i]), s.works[t]);
    CopyKeepsCell(cfg, s, t);
    assert Owns(s', t, i);
    assert s'.closes == s.closes;
  }

  /** Every copy step keeps `moved` exact. */
  lemma CopyKeepsCell(cfg: Config, s: State, t: Tid)
    requires |s.cells| == |s.live| == |s.closes| == |cfg.spans| && t in s.works && s.works[t].Copying?
    requires var i := SlotOf(s.cursor, s.works[t].turn);
             && i < |cfg.spans| && s.closes[i] != []
             && WorkShape(cfg, s.cursor, s.works[t]) && CellShape(cfg, s, i)
             && OpenCell(cfg.spans[i], s.cells[i], s.live[i], Last(s.closes[i]), s.works[t])
    ensures var i, s' := SlotOf(s.cursor, s.works[t].turn), Copy(cfg, s, t, s.works[t]);
            && OpenCell(cfg.spans[i], s'.cells[i], s.live[i], Last(s.closes[i]), s'.works[t])
            && (s.works[t].moved ==> s'.works[t].moved)
  {
    var w, i := s.works[t], SlotOf(s.cursor, s.works[t].turn);
    var cell := s.cells[i];
    if w.held.Loaded? {
      var payload := cell.payload[..w.at] + w.held.word + cell.payload[w.at + WORD..];
      if cell.payload[w.at..w.at + WORD] == w.held.word {
        assert payload == cell.payload;
      }
    }
  }

  lemma CloseStep(cfg: Config, s: State, s': State, t: Tid)
    requires Safe(cfg, s) && Sole(s, t) && Sole(s', t) && s.works[t].Closing?
    requires WorkShape(cfg, s.cursor, s.works[t])
    requires var w := s.works[t]; s' == CloseWindow(cfg, s, t, w.turn, w.stamp, w.start, w.moved)
    ensures Safe(cfg, s')
  {
    var i := SlotOf(s.cursor, s.works[t].turn);
    assert CellOk(cfg, s, i);
    CloseCellOk(cfg, s, s', t, i);
    SlotStep(cfg, s, s', t, i);
  }

  lemma CloseCellOk(cfg: Config, s: State, s': State, t: Tid, i: nat)
    requires |s.cells| == |s.closes| == |s.live| == |cfg.spans| && i < |cfg.spans| && CellOk(cfg, s, i)
    requires t in s.works && s.works[t].Closing? && i == SlotOf(s.cursor, s.works[t].turn)
    requires forall u, j: int :: Owns(s, u, j) ==> u == t
    requires forall u, j: int :: Owns(s', u, j) ==> u == t
    requires var w := s.works[t]; s' == CloseWindow(cfg, s, t, w.turn, w.stamp, w.start, w.moved)
    ensures CellOk(cfg, s', i) && s.closes[i] <= s'.closes[i]
    ensures forall v :: v <= Version(s.closes[i]) && Quiet(s', i, v) ==> Quiet(s, i, v)
  {
    assert Owns(s, t, i);
    CloseLog(cfg.spans[i], s.live[i], s.closes[i], s'.closes[i], s.cells[i], s'.cells[i], s.works[t]);
  }

  lemma CloseLog(span: Span, live: seq<byte>, log: seq<Close>, log': seq<Close>, cell: Cell, cell': Cell, w: Work)
    requires w.Closing? && ClosesOk(log) && OpenCell(span, cell, live, Last(log), w)
    requires cell' == cell.(sequence := if w.moved then (w.start + 2) % TWO_64 else w.start)
    requires log' == log + [Close(cell'.sequence, Version(log) + (if w.moved then 1 else 0), cell'.payload, cell'.stamp)]
    ensures ClosesOk(log') && Settled(cell', Last(log'))
  {
    NamedParity(Last(log).version);
    assert Follows(Last(log), Last(log'));
    forall k | 0 <= k < |log'| - 1 ensures Follows(log'[k], log'[k + 1]) {
      if k < |log| - 1 { assert Follows(log[k], log[k + 1]); }
    }
  }

  lemma AdvanceStep(cfg: Config, s: State, t: Tid)
    requires Inv(cfg, s) && Enabled(cfg, s, Advance(t))
    ensures Inv(cfg, Apply(cfg, s, Advance(t)))
  {
    match s.works[t]
    case Pending(_, _) => LockStep(cfg, s, t);
    case Leaving => LockStep(cfg, s, t);
    case Between(_, _) => LoadStep(cfg, s, t);
    case _ => WindowStep(cfg, s, t);
  }

  lemma WindowStep(cfg: Config, s: State, t: Tid)
    requires Inv(cfg, s) && Enabled(cfg, s, Advance(t))
    requires s.works[t].Opening? || s.works[t].Copying? || s.works[t].Closing?
    ensures Inv(cfg, Apply(cfg, s, Advance(t)))
  {
    var s', i := Apply(cfg, s, Advance(t)), SlotOf(s.cursor, s.works[t].turn);
    ApplyBase(cfg, s, Advance(t));
    assert WorkShape(cfg, s.cursor, s.works[t]);
    assert CellShape(cfg, s, i);
    InTurnIsSole(cfg, s, t);
    InTurnIsSole(cfg, s', t);
    match s.works[t]
    case Opening(_, _, _) => OpenStep(cfg, s, s', t);
    case Copying(turn, _, _, _, _, _) => CopyStep(cfg, s, s', t);
    case Closing(_, _, _, _) => CloseStep(cfg, s, s', t);
  }

  lemma StepInv(cfg: Config, s: State, step: Step)
    requires Inv(cfg, s) && Enabled(cfg, s, step) && Tolerated(cfg, s, step)
    ensures Inv(cfg, Apply(cfg, s, step))
  {
    match step
    case Call(t, kind, stamp) => CallStep(cfg, s, t, kind, stamp);
    case Change(slot, bytes) => ChangeStep(cfg, s, slot, bytes);
    case Advance(t) => AdvanceStep(cfg, s, t);
    case _ => ReaderStep(cfg, s, step);
  }

  // --- What every run gives a reader -------------------------------------------

  /** One even sequence names one payload and stamp, and a close moves the
      sequence exactly when the payload moved. */
  ghost predicate SequenceNamesValue(log: seq<Close>) {
    && (forall a, b :: 0 <= a < b < |log| && Near(a, b) && log[a].sequence == log[b].sequence ==>
          SameContent(log[a], log[b]))
    && (forall a :: 0 <= a < |log| - 1 ==>
          (log[a].sequence == log[a + 1].sequence <==> log[a].payload == log[a + 1].payload))
  }

  /** A reader whose cursor still equals the slot's sequence has lost nothing by
      skipping it: the region holds the very reading it already took. */
  ghost predicate SkipHidesNothing(s: State, a: Accepted) {
    && a.slot < |s.cells| == |s.closes|
    && (Near(a.from, |s.closes[a.slot]|) && s.cells[a.slot].sequence == a.sequence ==>
          s.cells[a.slot].payload == a.payload && s.cells[a.slot].stamp == a.stamp)
  }

  ghost predicate Faithful(s: State) {
    && (forall k :: 0 <= k < |s.accepted| ==> AcceptedOk(s.closes, s.accepted[k]) && SkipHidesNothing(s, s.accepted[k]))
    && (forall i :: 0 <= i < |s.closes| ==> SequenceNamesValue(s.closes[i]))
  }

  lemma ClosesNameValues(log: seq<Close>)
    requires ClosesOk(log)
    ensures SequenceNamesValue(log)
  {
    forall a, b | 0 <= a < b < |log| && Near(a, b) && log[a].sequence == log[b].sequence
      ensures SameContent(log[a], log[b])
    {
      VersionsGrow(log, a, b);
      NamedInjective(log[a].version, log[b].version);
    }
    forall a | 0 <= a < |log| - 1
      ensures log[a].sequence == log[a + 1].sequence <==> log[a].payload == log[a + 1].payload
    {
      assert Follows(log[a], log[a + 1]);
      if log[a].sequence == log[a + 1].sequence {
        NamedInjective(log[a].version, log[a + 1].version);
      }
    }
  }

  lemma SkipOk(cfg: Config, s: State, a: Accepted)
    requires Inv(cfg, s) && AcceptedOk(s.closes, a)
    ensures SkipHidesNothing(s, a)
  {
    var log, cell := s.closes[a.slot], s.cells[a.slot];
    assert CellOk(cfg, s, a.slot);
    if Near(a.from, |log|) && cell.sequence == a.sequence {
      var base := log[a.from - 1];
      NamedParity(base.version);
      EvenIsSettled(cfg, s, a.slot);
      VersionsGrow(log, a.from - 1, |log| - 1);
      NamedInjective(base.version, Last(log).version);
    }
  }

  lemma InvFaithful(cfg: Config, s: State)
    requires Inv(cfg, s)
    ensures Faithful(s)
  {
    forall i | 0 <= i < |s.closes| ensures SequenceNamesValue(s.closes[i]) {
      assert CellOk(cfg, s, i);
      ClosesNameValues(s.closes[i]);
    }
    forall k | 0 <= k < |s.accepted|
      ensures AcceptedOk(s.closes, s.accepted[k]) && SkipHidesNothing(s, s.accepted[k])
    {
      SkipOk(cfg, s, s.accepted[k]);
    }
  }

  /** A run in which no global with a byte tail is written inside its own window. */
  ghost predicate StillRun(cfg: Config, s: State, steps: seq<Step>)
    decreases |steps|
  {
    steps != [] ==>
      && Shape(cfg, s) && Enabled(cfg, s, steps[0]) && Tolerated(cfg, s, steps[0])
      && StillRun(cfg, Apply(cfg, s, steps[0]), steps[1..])
  }

  lemma {:induction false} RunInv(cfg: Config, s: State, steps: seq<Step>, e: State)
    requires Inv(cfg, s) && Reaches(cfg, s, steps, e) && StillRun(cfg, s, steps)
    ensures Inv(cfg, e)
    decreases |steps|
  {
    if steps != [] {
      StepInv(cfg, s, steps[0]);
      RunInv(cfg, Apply(cfg, s, steps[0]), steps[1..], e);
    }
  }

  /** In every interleaving of publishing cores, readers and a changing machine,
      each reading taken as stable is one publication, whole. */
  lemma StillRunsAreFaithful(cfg: Config, threads: set<Tid>, s: State, steps: seq<Step>, e: State)
    requires |threads| <= TWO_32 && Initial(cfg, threads, s)
    requires Reaches(cfg, s, steps, e) && StillRun(cfg, s, steps)
    ensures Faithful(e)
  {
    InitialInv(cfg, threads, s);
    RunInv(cfg, s, steps, e);
    InvFaithful(cfg, e);
  }

  /** The periodic turn and the final turn never overlap, on any spans, in any
      run: each slot's sequence has one writer at a time. */
  lemma SingleWriter(cfg: Config, threads: set<Tid>, s: State, steps: seq<Step>, e: State, t: Tid, u: Tid)
    requires |threads| <= TWO_32 && Initial(cfg, threads, s) && Reaches(cfg, s, steps, e)
    requires t in e.works && u in e.works && InTurn(e.works[t]) && InTurn(e.works[u])
    ensures t == u
  {
    InitialInv(cfg, threads, s);
    RunBase(cfg, s, steps, e);
    OneInTurn(cfg, e, t, u);
  }

  lemma {:induction false} WholeWordRunsAreStill(cfg: Config, s: State, steps: seq<Step>, e: State)
    requires AllWholeWords(cfg) && Reaches(cfg, s, steps, e)
    ensures StillRun(cfg, s, steps)
    decreases |steps|
  {
    if steps != [] {
      WholeWordRunsAreStill(cfg, Apply(cfg, s, steps[0]), steps[1..], e);
    }
  }
}
