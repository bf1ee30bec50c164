/** Exactly which spans the protocol can publish from a machine that keeps
    running: the byte loop of copy_changed reads its source twice, once to
    compare and once to store, so a byte tail can move without its sequence. */
module TelemetryTail {
  import opened Words
  import opened Telemetry
  import opened TelemetrySafety
  import L = SpinLock

  /** declare() refuses an empty span. */
  ghost predicate Declared(cfg: Config) {
    forall i :: 0 <= i < |cfg.spans| ==> cfg.spans[i].bytes > 0
  }

  ghost predicate Sound(cfg: Config) {
    forall threads, s, steps, e ::
      |threads| <= TWO_32 && Initial(cfg, threads, s) && Reaches(cfg, s, steps, e) ==> Faithful(e)
  }

  /** Safe against a racing machine exactly when every span is whole words on an
      aligned source. */
  lemma SoundIffWholeWords(cfg: Config)
    requires Declared(cfg)
    ensures Sound(cfg) <==> AllWholeWords(cfg)
  {
    if AllWholeWords(cfg) {
      forall threads, s, steps, e
        | |threads| <= TWO_32 && Initial(cfg, threads, s) && Reaches(cfg, s, steps, e)
        ensures Faithful(e)
      {
        WholeWordRunsAreStill(cfg, s, steps, e);
        StillRunsAreFaithful(cfg, threads, s, steps, e);
      }
    } else {
      var j :| 0 <= j < |cfg.spans| && !WholeWords(cfg.spans[j]);
      var e := TornTail(cfg, j);
      var steps :| Reaches(cfg, Start(cfg), steps, e);
      StartInitial(cfg);
      assert !Faithful(e);
    }
  }

  // --- The failing run ---------------------------------------------------------

  function Zeros(n: nat): seq<byte> { seq(n, _ => 0) }

  function Start(cfg: Config): State {
    var n := |cfg.spans|;
    State(
      L.Init({0}),
      map[0 := Out],
      seq(n, i requires 0 <= i < n => Cell(0, 0, Zeros(cfg.spans[i].bytes))),
      seq(n, i requires 0 <= i < n => Zeros(cfg.spans[i].bytes)),
      0,
      map[],
      seq(n, i requires 0 <= i < n => [Close(0, 0, Zeros(cfg.spans[i].bytes), 0)]),
      [])
  }

  lemma StartInitial(cfg: Config)
    ensures Initial(cfg, {0}, Start(cfg))
  {}

  lemma {:induction false} Then(cfg: Config, s: State, a: seq<Step>, m: State, b: seq<Step>, e: State)
    requires Reaches(cfg, s, a, m) && Reaches(cfg, m, b, e)
    ensures Reaches(cfg, s, a + b, e)
    decreases |a|
  {
    if a == [] {
      assert a + b == b;
    } else {
      assert (a + b)[0] == a[0] && (a + b)[1..] == a[1..] + b;
      Then(cfg, Apply(cfg, s, a[0]), a[1..], m, b, e);
    }
  }

  /** Some schedule leads here from the start. */
  ghost predicate Led(cfg: Config, e: State) {
    exists steps :: Reaches(cfg, Start(cfg), steps, e)
  }

  lemma LedBase(cfg: Config, s: State)
    requires Led(cfg, s)
    ensures Base(cfg, s)
  {
    StartInitial(cfg);
    InitialInv(cfg, {0}, Start(cfg));
    var steps :| Reaches(cfg, Start(cfg), steps, s);
    RunBase(cfg, Start(cfg), steps, s);
  }

  lemma One(cfg: Config, s: State, step: Step)
    requires Led(cfg, s) && Shape(cfg, s) && Enabled(cfg, s, step)
    ensures Led(cfg, Apply(cfg, s, step)) && Shape(cfg, Apply(cfg, s, step))
  {
    var e := Apply(cfg, s, step);
    var steps :| Reaches(cfg, Start(cfg), steps, s);
    assert [step][1..] == [];
    assert Reaches(cfg, e, [], e);
    Then(cfg, Start(cfg), steps, s, [step], e);
    assert Reaches(cfg, Start(cfg), steps + [step], e);
    LedBase(cfg, e);
  }

  predicate Fresh(cfg: Config, s: State, i: nat)
    requires i < |cfg.spans| == |s.cells| == |s.live| == |s.closes|
  {
    && s.cells[i] == Cell(0, 0, Zeros(cfg.spans[i].bytes))
    && s.live[i] == Zeros(cfg.spans[i].bytes)
    && s.closes[i] == [Close(0, 0, Zeros(cfg.spans[i].bytes), 0)]
  }

  ghost predicate FreshFrom(cfg: Config, s: State, k: int)
    requires |cfg.spans| == |s.cells| == |s.live| == |s.closes|
  {
    forall i :: 0 <= k <= i < |cfg.spans| ==> Fresh(cfg, s, i)
  }

  lemma FreshKept(cfg: Config, s: State, e: State, k: int)
    requires |cfg.spans| == |s.cells| == |s.live| == |s.closes| == |e.cells| == |e.live| == |e.closes|
    requires FreshFrom(cfg, s, k)
    requires forall i :: 0 <= k <= i < |cfg.spans| ==>
               e.cells[i] == s.cells[i] && e.live[i] == s.live[i] && e.closes[i] == s.closes[i]
    ensures FreshFrom(cfg, e, k)
  {
    forall i | 0 <= k <= i < |cfg.spans| ensures Fresh(cfg, e, i) { assert Fresh(cfg, s, i); }
  }

  /** Core 0 is doing this, no reader is part way, and every slot from k on is untouched. */
  ghost predicate Doing(cfg: Config, s: State, work: Work, k: nat) {
    && Led(cfg, s) && Shape(cfg, s)
    && 0 in s.works && s.works[0] == work && s.readers == map[]
    && FreshFrom(cfg, s, k)
  }

  /** Slot k's window is open over this payload and this source. */
  ghost predicate Inside(cfg: Config, s: State, work: Work, k: nat, payload: seq<byte>, live: seq<byte>) {
    && k < |cfg.spans| && Doing(cfg, s, work, k + 1)
    && s.cells[k] == Cell(1, 0, payload)
    && s.live[k] == live
    && s.closes[k] == [Close(0, 0, Zeros(cfg.spans[k].bytes), 0)]
  }

  function Copied(k: nat, at: nat, held: Held): Work { Copying(Final(k), 0, 0, at, false, held) }

  lemma StartLed(cfg: Config)
    ensures Led(cfg, Start(cfg)) && Shape(cfg, Start(cfg))
  {
    assert Reaches(cfg, Start(cfg), [], Start(cfg));
    LedBase(cfg, Start(cfg));
  }

  lemma AskTurn(cfg: Config) returns (e: State)
    ensures Doing(cfg, e, Pending(Full, 0), 0) && e.lock == L.Init({0})
  {
    StartLed(cfg);
    e := Apply(cfg, Start(cfg), Call(0, Full, 0));
    One(cfg, Start(cfg), Call(0, Full, 0));
    forall i | 0 <= i < |cfg.spans| ensures Fresh(cfg, e, i) {}
  }

  lemma DrawTicket(cfg: Config) returns (e: State)
    ensures Doing(cfg, e, Pending(Full, 0), 0)
    ensures e.lock.phase == map[0 := L.Waiting(0)] && e.lock.serving == 0
  {
    var s := AskTurn(cfg);
    e := Apply(cfg, s, Advance(0));
    One(cfg, s, Advance(0));
    FreshKept(cfg, s, e, 0);
  }

  lemma TakeLock(cfg: Config) returns (e: State)
    ensures Doing(cfg, e, Pending(Full, 0), 0) && e.lock.phase == map[0 := L.Holding]
  {
    var s := DrawTicket(cfg);
    e := Apply(cfg, s, Advance(0));
    One(cfg, s, Advance(0));
    FreshKept(cfg, s, e, 0);
  }

  lemma EnterTurn(cfg: Config) returns (e: State)
    ensures Doing(cfg, e, Between(Final(0), 0), 0)
  {
    var s := TakeLock(cfg);
    e := Apply(cfg, s, Advance(0));
    One(cfg, s, Advance(0));
    FreshKept(cfg, s, e, 0);
  }

  lemma LoadSlot(cfg: Config, s: State, k: nat) returns (e: State)
    requires Doing(cfg, s, Between(Final(k), 0), k) && k < |cfg.spans|
    ensures Doing(cfg, e, Opening(Final(k), 0, 0), k)
    ensures e.accepted == s.accepted
  {
    assert Fresh(cfg, s, k);
    e := Apply(cfg, s, Advance(0));
    One(cfg, s, Advance(0));
    FreshKept(cfg, s, e, k);
  }

  lemma OpenSlot(cfg: Config, s: State, k: nat) returns (e: State)
    requires Doing(cfg, s, Between(Final(k), 0), k) && k < |cfg.spans|
    ensures Inside(cfg, e, Copied(k, 0, Nothing), k, Zeros(cfg.spans[k].bytes), Zeros(cfg.spans[k].bytes))
    ensures e.accepted == s.accepted
  {
    var m := LoadSlot(cfg, s, k);
    assert Fresh(cfg, m, k);
    e := Apply(cfg, m, Advance(0));
    One(cfg, m, Advance(0));
    FreshKept(cfg, m, e, k + 1);
  }

  /** One access inside the window, leaving the other slots alone. */
  lemma InsideStep(cfg: Config, s: State, k: nat, at: nat, held: Held, payload: seq<byte>, live: seq<byte>)
    returns (e: State)
    requires Inside(cfg, s, Copied(k, at, held), k, payload, live)
    ensures WorkShape(cfg, s.cursor, Copied(k, at, held)) && |payload| == |live| == cfg.spans[k].bytes
    ensures Shape(cfg, s) && Enabled(cfg, s, Advance(0)) && e == Apply(cfg, s, Advance(0))
    ensures Inside(cfg, e, e.works[0], k, e.cells[k].payload, live)
    ensures e.accepted == s.accepted
  {
    var work := Copied(k, at, held);
    assert WorkShape(cfg, s.cursor, work) && CellShape(cfg, s, k);
    e := Apply(cfg, s, Advance(0));
    One(cfg, s, Advance(0));
    FreshKept(cfg, s, e, k + 1);
  }

  /** What the first access of a unit holds of a zero payload. */
  function Half(span: Span, at: nat): Held { if WordAt(span, at) then Loaded(Zeros(WORD)) else Compared }

  lemma FirstHalf(cfg: Config, s: State, k: nat, at: nat) returns (m: State)
    requires k < |cfg.spans| && at < cfg.spans[k].bytes
    requires Inside(cfg, s, Copied(k, at, Nothing), k, Zeros(cfg.spans[k].bytes), Zeros(cfg.spans[k].bytes))
    ensures Inside(cfg, m, Copied(k, at, Half(cfg.spans[k], at)), k, Zeros(cfg.spans[k].bytes), Zeros(cfg.spans[k].bytes))
    ensures m.accepted == s.accepted
  {
    var zeros := Zeros(cfg.spans[k].bytes);
    m := InsideStep(cfg, s, k, at, Nothing, zeros, zeros);
    if WordAt(cfg.spans[k], at) { assert zeros[at..at + WORD] == Zeros(WORD); }
    assert m.works[0] == Copied(k, at, Half(cfg.spans[k], at)) && m.cells[k].payload == zeros;
  }

  /** Two accesses move one unit of an unchanged payload. */
  lemma CopyUnit(cfg: Config, s: State, k: nat, at: nat) returns (e: State)
    requires k < |cfg.spans| && at < cfg.spans[k].bytes
    requires Inside(cfg, s, Copied(k, at, Nothing), k, Zeros(cfg.spans[k].bytes), Zeros(cfg.spans[k].bytes))
    ensures var next := at + if WordAt(cfg.spans[k], at) then WORD else 1;
            Inside(cfg, e, Copied(k, next, Nothing), k, Zeros(cfg.spans[k].bytes), Zeros(cfg.spans[k].bytes))
    ensures e.accepted == s.accepted
  {
    var zeros := Zeros(cfg.spans[k].bytes);
    var m := FirstHalf(cfg, s, k, at);
    e := InsideStep(cfg, m, k, at, Half(cfg.spans[k], at), zeros, zeros);
    if WordAt(cfg.spans[k], at) { assert zeros[at..at + WORD] == Zeros(WORD); }
    assert e.cells[k].payload == zeros;
  }

  /** The word loop never lands past a byte the byte loop will copy. */
  predicate Reachable(span: Span, at: nat, target: nat) {
    && at <= target <= span.bytes
    && (WordAt(span, at) ==> at % WORD == 0)
    && (target == span.bytes || (target == span.bytes - 1 && !WholeWords(span)))
  }

  lemma NextReachable(span: Span, at: nat, target: nat)
    requires Reachable(span, at, target) && at < target
    ensures Reachable(span, at + if WordAt(span, at) then WORD else 1, target)
  {}

  lemma {:induction false} CopyTo(cfg: Config, s: State, k: nat, at: nat, target: nat) returns (e: State)
    requires k < |cfg.spans| && Reachable(cfg.spans[k], at, target)
    requires Inside(cfg, s, Copied(k, at, Nothing), k, Zeros(cfg.spans[k].bytes), Zeros(cfg.spans[k].bytes))
    ensures Inside(cfg, e, Copied(k, target, Nothing), k, Zeros(cfg.spans[k].bytes), Zeros(cfg.spans[k].bytes))
    ensures e.accepted == s.accepted
    decreases target - at
  {
    if at == target {
      e := s;
    } else {
      var m := CopyUnit(cfg, s, k, at);
      NextReachable(cfg.spans[k], at, target);
      e := CopyTo(cfg, m, k, at + if WordAt(cfg.spans[k], at) then WORD else 1, target);
    }
  }

  lemma FinishCopy(cfg: Config, s: State, k: nat, payload: seq<byte>, live: seq<byte>) returns (e: State)
    requires k < |cfg.spans| && Inside(cfg, s, Copied(k, cfg.spans[k].bytes, Nothing), k, payload, live)
    ensures Inside(cfg, e, Closing(Final(k), 0, 0, false), k, payload, live)
    ensures e.accepted == s.accepted
  {
    e := InsideStep(cfg, s, k, cfg.spans[k].bytes, Nothing, payload, live);
  }

  /** With the whole span copied and nothing found moved, the window shuts on
      the sequence it opened from, whatever the payload holds by then. */
  lemma CloseSlot(cfg: Config, s: State, k: nat, payload: seq<byte>, live: seq<byte>) returns (e: State)
    requires k < |cfg.spans| && Inside(cfg, s, Copied(k, cfg.spans[k].bytes, Nothing), k, payload, live)
    ensures Doing(cfg, e, Between(Final(k + 1), 0), k + 1)
    ensures e.closes[k] == [Close(0, 0, Zeros(cfg.spans[k].bytes), 0), Close(0, 0, payload, 0)]
    ensures e.cells[k] == Cell(0, 0, payload)
    ensures e.accepted == s.accepted
  {
    var m := FinishCopy(cfg, s, k, payload, live);
    e := Apply(cfg, m, Advance(0));
    One(cfg, m, Advance(0));
    FreshKept(cfg, m, e, k + 1);
  }

  lemma {:induction false} SkipTo(cfg: Config, j: nat) returns (e: State)
    requires j <= |cfg.spans|
    ensures Doing(cfg, e, Between(Final(j), 0), j)
    decreases j
  {
    if j == 0 {
      e := EnterTurn(cfg);
    } else {
      var zeros := Zeros(cfg.spans[j - 1].bytes);
      var s1 := SkipTo(cfg, j - 1);
      var s2 := OpenSlot(cfg, s1, j - 1);
      var s3 := CopyTo(cfg, s2, j - 1, 0, cfg.spans[j - 1].bytes);
      e := CloseSlot(cfg, s3, j - 1, zeros, zeros);
    }
  }

  /** The machine writes slot k's global inside the window. */
  lemma WriteGlobal(cfg: Config, s: State, work: Work, k: nat, payload: seq<byte>, live: seq<byte>, now: seq<byte>)
    returns (e: State)
    requires Inside(cfg, s, work, k, payload, live) && |now| == cfg.spans[k].bytes
    ensures Inside(cfg, e, work, k, payload, now)
    ensures e.accepted == s.accepted
  {
    e := Apply(cfg, s, Change(k, now));
    One(cfg, s, Change(k, now));
    FreshKept(cfg, s, e, k + 1);
  }

  /** The last byte is compared, the machine writes it, and it is stored: the
      payload moves and the sequence comes back to where it was. */
  lemma TearLastByte(cfg: Config, s: State, k: nat, torn: seq<byte>) returns (e: State)
    requires k < |cfg.spans| && cfg.spans[k].bytes > 0 && !WholeWords(cfg.spans[k])
    requires torn == Zeros(cfg.spans[k].bytes)[cfg.spans[k].bytes - 1 := 1]
    requires var zeros := Zeros(cfg.spans[k].bytes);
             Inside(cfg, s, Copied(k, cfg.spans[k].bytes - 1, Nothing), k, zeros, zeros)
    ensures Doing(cfg, e, Between(Final(k + 1), 0), k + 1) && e.accepted == s.accepted
    ensures e.cells[k] == Cell(0, 0, torn)
    ensures e.closes[k] == [Close(0, 0, Zeros(cfg.spans[k].bytes), 0), Close(0, 0, torn, 0)]
  {
    var last, zeros := cfg.spans[k].bytes - 1, Zeros(cfg.spans[k].bytes);
    var s1 := InsideStep(cfg, s, k, last, Nothing, zeros, zeros);
    assert s1.works[0] == Copied(k, last, Compared) && s1.cells[k].payload == zeros;
    var s3 := StoreTorn(cfg, s1, k, torn);
    e := CloseSlot(cfg, s3, k, torn, torn);
  }

  /** Between the byte loop's two reads. */
  lemma StoreTorn(cfg: Config, s: State, k: nat, torn: seq<byte>) returns (e: State)
    requires k < |cfg.spans| && cfg.spans[k].bytes > 0
    requires torn == Zeros(cfg.spans[k].bytes)[cfg.spans[k].bytes - 1 := 1]
    requires var zeros := Zeros(cfg.spans[k].bytes);
             Inside(cfg, s, Copied(k, cfg.spans[k].bytes - 1, Compared), k, zeros, zeros)
    ensures Inside(cfg, e, Copied(k, cfg.spans[k].bytes, Nothing), k, torn, torn) && e.accepted == s.accepted
  {
    var last, zeros := cfg.spans[k].bytes - 1, Zeros(cfg.spans[k].bytes);
    var m := WriteGlobal(cfg, s, Copied(k, last, Compared), k, zeros, zeros, torn);
    e := InsideStep(cfg, m, k, last, Compared, zeros, torn);
    assert e.works[0] == Copied(k, last + 1, Nothing) && e.cells[k].payload == torn;
  }

  // --- A reader beside it ------------------------------------------------------

  function Midway(s: State, i: nat, n: nat): State
    requires i < |s.cells| == |s.closes| && n <= |s.cells[i].payload|
  {
    s.(readers := map[0 := Reader(i, s.cells[i].sequence, s.cells[i].payload[..n], None, |s.closes[i]|)])
  }

  lemma NextByte(cfg: Config, s: State, i: nat, n: nat)
    requires i < |cfg.spans| && 0 < n <= cfg.spans[i].bytes
    requires |s.cells| == |s.closes| && Shape(cfg, s) && |s.cells[i].payload| == cfg.spans[i].bytes
    requires Shape(cfg, Midway(s, i, n - 1))
    ensures Enabled(cfg, Midway(s, i, n - 1), TakeByte(0))
    ensures Apply(cfg, Midway(s, i, n - 1), TakeByte(0)) == Midway(s, i, n)
  {
    var payload := s.cells[i].payload;
    assert payload[..n] == payload[..n - 1] + [payload[n - 1]];
    var m := Midway(s, i, n - 1);
    assert m.readers[0].got == payload[..n - 1];
    assert Apply(cfg, m, TakeByte(0)).readers == Midway(s, i, n).readers;
  }

  lemma {:induction false} ReadBytes(cfg: Config, s: State, i: nat, n: nat)
    requires Led(cfg, s) && Shape(cfg, s) && s.readers == map[] && i < |cfg.spans| && s.cells[i].sequence % 2 == 0
    requires n <= |s.cells[i].payload| == cfg.spans[i].bytes
    ensures Led(cfg, Midway(s, i, n)) && Shape(cfg, Midway(s, i, n))
    decreases n
  {
    if n == 0 {
      One(cfg, s, Sample(0, i));
      assert Apply(cfg, s, Sample(0, i)) == Midway(s, i, 0);
    } else {
      ReadBytes(cfg, s, i, n - 1);
      NextByte(cfg, s, i, n);
      One(cfg, Midway(s, i, n - 1), TakeByte(0));
    }
  }

  /** A whole reading with nothing in between is taken as stable. */
  lemma ReadSlot(cfg: Config, s: State, i: nat) returns (e: State)
    requires Led(cfg, s) && Shape(cfg, s) && s.readers == map[] && i < |cfg.spans| && s.cells[i].sequence % 2 == 0
    ensures Led(cfg, e) && Shape(cfg, e)
    ensures var c, n := s.cells[i], |s.closes[i]|;
            e == s.(accepted := s.accepted + [Accepted(i, c.sequence, c.payload, c.stamp, n, n)])
  {
    assert CellShape(cfg, s, i);
    var n := cfg.spans[i].bytes;
    ReadBytes(cfg, s, i, n);
    var m := Midway(s, i, n);
    One(cfg, m, TakeStamp(0));
    var w := Apply(cfg, m, TakeStamp(0));
    e := Apply(cfg, w, Check(0));
    One(cfg, w, Check(0));
    assert s.cells[i].payload[..n] == s.cells[i].payload;
    assert e.readers == s.readers;
  }

  lemma NamesBroken(e: State, k: nat, torn: seq<byte>, zeros: seq<byte>)
    requires k < |e.closes| && |torn| == |zeros| > 0 && torn[|torn| - 1] != zeros[|torn| - 1]
    requires e.closes[k] == [Close(0, 0, zeros, 0), Close(0, 0, torn, 0)]
    ensures !Faithful(e)
  {
    var log := e.closes[k];
    assert log[0].sequence == log[1].sequence && !SameContent(log[0], log[1]);
    assert !SequenceNamesValue(log);
  }

  /** One reader, twice: before the turn and after it. Both readings are taken as
      stable, under one sequence, and they differ. */
  predicate Fooled(s: State, j: nat) {
    exists a, b :: 0 <= a < b < |s.accepted| && s.accepted[a].slot == s.accepted[b].slot == j
                   && s.accepted[a].sequence == s.accepted[b].sequence && s.accepted[a].payload != s.accepted[b].payload
  }

  lemma TornTail(cfg: Config, j: nat) returns (e: State)
    requires Declared(cfg) && j < |cfg.spans| && !WholeWords(cfg.spans[j])
    ensures Led(cfg, e) && !Faithful(e) && Fooled(e, j)
  {
    var bytes, zeros := cfg.spans[j].bytes, Zeros(cfg.spans[j].bytes);
    var torn := zeros[bytes - 1 := 1];
    var s0 := SkipTo(cfg, j);
    var s1 := ReadFresh(cfg, s0, j);
    var s2 := OpenSlot(cfg, s1, j);
    var s3 := CopyTo(cfg, s2, j, 0, bytes - 1);
    var s4 := TearLastByte(cfg, s3, j, torn);
    e := ReadSlot(cfg, s4, j);
    NamesBroken(e, j, torn, zeros);
    var n := |s0.accepted|;
    assert e.accepted[n].payload == zeros && zeros[bytes - 1] != torn[bytes - 1] && e.accepted[n + 1].payload == torn;
  }

  lemma ReadFresh(cfg: Config, s: State, j: nat) returns (e: State)
    requires Doing(cfg, s, Between(Final(j), 0), j) && j < |cfg.spans|
    ensures Doing(cfg, e, Between(Final(j), 0), j)
    ensures e.accepted == s.accepted + [Accepted(j, 0, Zeros(cfg.spans[j].bytes), 0, 1, 1)]
  {
    assert Fresh(cfg, s, j);
    e := ReadSlot(cfg, s, j);
    FreshKept(cfg, s, e, j);
  }
}
