/** How stale a published value can be: turns one after another over still globals. */
module Freshness {
  import opened Words
  import opened Rounds
  import opened Telemetry
  import opened TelemetryPublisher

  /** Turn after turn over globals that hold still, each turn with its own stamp. */
  function AfterTurns(cells: seq<Cell>, sources: seq<seq<byte>>, from: nat, counts: seq<nat>, stamps: seq<u64>)
    : (r: seq<Cell>)
    requires |sources| == |cells| > 0 && |stamps| == |counts|
    ensures |r| == |cells|
    decreases |counts|
  {
    if counts == [] then cells
    else AfterTurns(Visited(cells, sources, from, counts[0], stamps[0]), sources,
                    (from + counts[0]) % |cells|, counts[1..], stamps[1..])
  }

  /** The slot shows what the global holds, and its sequence moved at most once
      to say so: not at all if it already did. */
  predicate UpToDate(was: Cell, now: Cell, source: seq<byte>) {
    && now.payload == source
    && now.sequence == (if was.payload == source then was.sequence else (was.sequence + 2) % TWO_64)
  }

  lemma ReachesSplit(from: nat, a: nat, b: nat, n: nat, i: nat)
    requires n > 0
    ensures Visits(from, a + b, n, i) <==> Visits(from, a, n, i) || Visits((from + a) % n, b, n, i)
  {
    if Visits(from, a + b, n, i) { ReachesEither(from, a, b, n, i); }
    if Visits((from + a) % n, b, n, i) { ReachesLater(from, a, b, n, i); }
  }

  lemma ReachesEither(from: nat, a: nat, b: nat, n: nat, i: nat)
    requires n > 0 && Visits(from, a + b, n, i)
    ensures Visits(from, a, n, i) || Visits((from + a) % n, b, n, i)
  {
    var c :| 0 <= c < a + b && Lands(from, c, n, i);
    if c >= a {
      LandsShift(from, a, c - a, n, i);
    }
  }

  lemma ReachesLater(from: nat, a: nat, b: nat, n: nat, i: nat)
    requires n > 0 && Visits((from + a) % n, b, n, i)
    ensures Visits(from, a + b, n, i)
  {
    var c :| 0 <= c < b && Lands((from + a) % n, c, n, i);
    LandsShift(from, a, c, n, i);
  }

  lemma LandsShift(from: nat, a: nat, c: nat, n: nat, i: nat)
    requires n > 0
    ensures Lands((from + a) % n, c, n, i) <==> Lands(from, a + c, n, i)
  {
    ModSplit(from + a, n);
    ModShift((from + a) % n + c, (from + a) / n, n);
  }

  lemma {:induction false} TurnsReach(cells: seq<Cell>, sources: seq<seq<byte>>, from: nat, counts: seq<nat>,
                                      stamps: seq<u64>, i: nat)
    requires |sources| == |cells| && |stamps| == |counts| && i < |cells|
    ensures var after := AfterTurns(cells, sources, from, counts, stamps)[i];
            if Visits(from, Sum(counts), |cells|, i) then UpToDate(cells[i], after, sources[i]) else after == cells[i]
    decreases |counts|
  {
    if counts != [] {
      var n := |cells|;
      var next := Visited(cells, sources, from, counts[0], stamps[0]);
      VisitedSlot(cells, sources, from, counts[0], stamps[0], i);
      TurnsReach(next, sources, (from + counts[0]) % n, counts[1..], stamps[1..], i);
      ReachesSplit(from, counts[0], Sum(counts[1..]), n, i);
    }
  }

  lemma OnceRound(from: nat, count: nat, n: nat, i: nat)
    requires n > 0 && count >= n && i < n
    ensures Visits(from, count, n, i)
  {
    var c := (i - from) % n;
    ModSplit(i - from, n);
    assert from + c == i + (-((i - from) / n)) * n;
    ModShift(i, -((i - from) / n), n);
    ModUnique(i, 0, i, n);
    assert Lands(from, c, n, i);
  }

  /** The staleness bound: after ceil(published bytes / budget) turns, from any
      cursor, every slot shows its global. */
  lemma EveryoneUpToDate(sizes: seq<Size>, cells: seq<Cell>, sources: seq<seq<byte>>, from: nat, budget: nat,
                         counts: seq<nat>, stamps: seq<u64>)
    requires |sizes| == |cells| == |sources| > 0 && |stamps| == |counts|
    requires budget > 0 && Turns(sizes, from, budget, counts)
    requires |counts| >= CeilDiv(Total(sizes), budget)
    ensures var after := AfterTurns(cells, sources, from, counts, stamps);
            forall i :: 0 <= i < |cells| ==> UpToDate(cells[i], after[i], sources[i])
  {
    TurnsComeRound(sizes, from, budget, counts);
    forall i | 0 <= i < |cells|
      ensures UpToDate(cells[i], AfterTurns(cells, sources, from, counts, stamps)[i], sources[i])
    {
      OnceRound(from, Sum(counts), |cells|, i);
      TurnsReach(cells, sources, from, counts, stamps, i);
    }
  }
}
