/** The ticket lock comes free: what unlock() leaves, whose step is next, and how many
    steps can be made before a waiting thread is in. */
module LockProgress {
  import opened Words
  import opened SpinLock

  // --- unlock() ------------------------------------------------------------------

  /** The holder's own accesses to the end of unlock(): a load of serving_ and a store
      of one more, or the store alone once it has loaded. */
  function Unlocking(t: Tid, p: Phase): seq<Step> {
    if p.Holding? then [LoadServing(t), StoreServing(t)] else [StoreServing(t)]
  }

  /** From any reachable state with a thread inside, its own accesses take it out,
      serve the next ticket and move nothing else. */
  lemma UnlockPassesOn(threads: set<Tid>, steps: seq<Step>, t: Tid)
    requires |threads| <= TWO_32 && Run(Init(threads), steps).Some? && Inside(Run(Init(threads), steps).value, t)
    ensures var s := Run(Init(threads), steps).value;
            Run(s, Unlocking(t, s.phase[t])) ==
            Some(Lock(s.next, (s.serving + 1) % TWO_32, s.phase[t := Idle], s.drawn, s.entered, s.left + 1))
  {
    var s := Reached(threads, steps);
    InsideIsOldest(s, t);
    if s.phase[t].Holding? {
      var m := Apply(s, LoadServing(t));
      StoresOnce(m, t);
      assert [LoadServing(t), StoreServing(t)][1..] == [StoreServing(t)];
      assert m.phase[t := Idle] == s.phase[t := Idle];
    } else {
      StoresOnce(s, t);
    }
  }

  lemma StoresOnce(s: Lock, t: Tid)
    requires t in s.phase && s.phase[t].Releasing?
    ensures Run(s, [StoreServing(t)]) ==
            Some(Lock(s.next, (s.phase[t].seen + 1) % TWO_32, s.phase[t := Idle], s.drawn, s.entered, s.left + 1))
  {
    var e := Apply(s, StoreServing(t));
    assert [StoreServing(t)][1..] == [] && Run(e, []) == Some(e);
  }

  lemma Reached(threads: set<Tid>, steps: seq<Step>) returns (s: Lock)
    requires |threads| <= TWO_32 && Run(Init(threads), steps).Some?
    ensures s == Run(Init(threads), steps).value && Inv(s) && |s.phase| <= TWO_32
  {
    s := Run(Init(threads), steps).value;
    InitInv(threads);
    assert Init(threads).phase.Keys == threads;
    RunInv(Init(threads), steps);
    assert |s.phase.Keys| == |s.phase|;
  }

  // --- lock() --------------------------------------------------------------------

  /** On a lock nobody has or wants, drawing and one look are enough. */
  lemma LockAlone(threads: set<Tid>, steps: seq<Step>, t: Tid)
    requires |threads| <= TWO_32 && Run(Init(threads), steps).Some? && t in threads
    requires forall u :: u in Run(Init(threads), steps).value.phase ==> Run(Init(threads), steps).value.phase[u].Idle?
    ensures var s := Run(Init(threads), steps).value;
            Run(s, [Draw(t), Poll(t)]) ==
            Some(Lock((s.next + 1) % TWO_32, s.serving, s.phase[t := Holding], s.drawn + [t], s.entered + [t], s.left))
  {
    var s := Reached(threads, steps);
    ThreadsStay(Init(threads), steps);
    NobodyOwes(s);
    DrawsAndEnters(s, t);
  }

  lemma {:induction false} ThreadsStay(s: Lock, steps: seq<Step>)
    requires Run(s, steps).Some?
    ensures Run(s, steps).value.phase.Keys == s.phase.Keys
    decreases |steps|
  {
    if steps != [] { ThreadsStay(Apply(s, steps[0]), steps[1..]); }
  }

  lemma NobodyOwes(s: Lock)
    requires Inv(s) && forall u :: u in s.phase ==> s.phase[u].Idle?
    ensures s.left == |s.entered| == |s.drawn| && s.next == s.serving
  {
    assert s.left < |s.drawn| ==> Outstanding(s, s.left);
  }

  lemma DrawsAndEnters(s: Lock, t: Tid)
    requires t in s.phase && s.phase[t].Idle? && s.next == s.serving
    ensures Run(s, [Draw(t), Poll(t)]) ==
            Some(Lock((s.next + 1) % TWO_32, s.serving, s.phase[t := Holding], s.drawn + [t], s.entered + [t], s.left))
  {
    var m := Apply(s, Draw(t));
    var e := Apply(m, Poll(t));
    assert m.phase[t := Holding] == s.phase[t := Holding];
    assert [Draw(t), Poll(t)][1..] == [Poll(t)] && [Poll(t)][1..] == [];
    assert Run(e, []) == Some(e) && Run(m, [Poll(t)]) == Some(e);
  }

  // --- Progress ------------------------------------------------------------------

  /** A look that finds another ticket served. */
  predicate Fruitless(s: Lock, step: Step) {
    step.Poll? && step.t in s.phase && s.phase[step.t].Waiting? && s.phase[step.t].ticket != s.serving
  }

  /** What the thread with the oldest ticket not yet released does next. */
  function Foremost(s: Lock): Step
    requires s.left < |s.drawn|
  {
    var t := s.drawn[s.left];
    if t !in s.phase || s.phase[t].Waiting? then Poll(t)
    else if s.phase[t].Holding? then LoadServing(t)
    else StoreServing(t)
  }

  /** While any thread is in the lock or waiting for it, one of them can make a step
      that is not a fruitless look. */
  lemma NeverStuck(threads: set<Tid>, steps: seq<Step>, t: Tid)
    requires |threads| <= TWO_32 && Run(Init(threads), steps).Some?
    requires var s := Run(Init(threads), steps).value; t in s.phase && !s.phase[t].Idle?
    ensures var s := Run(Init(threads), steps).value;
            && s.left < |s.drawn|
            && Enabled(s, Foremost(s)) && !Fruitless(s, Foremost(s))
  {
    var s := Reached(threads, steps);
    var i :| Owes(s, i, t);
    assert Outstanding(s, s.left);
  }

  /** Accesses left of the unreleased entry, if there is one: its load and its store. */
  function Inner(s: Lock): nat {
    if |s.entered| <= s.left then 0
    else if s.left < |s.drawn| && s.drawn[s.left] in s.phase && s.phase[s.drawn[s.left]].Releasing? then 1
    else 2
  }

  /** Accesses to be made, fruitless looks apart, before the i'th ticket's owner is in:
      three for each ticket before it, and its own look. */
  function Ahead(s: Lock, i: nat): int {
    if |s.entered| > s.left then 3 * (i - s.left - 1) + Inner(s) + 1 else 3 * (i - s.left) + 1
  }

  /** Until the i'th ticket's owner is in, a draw and a fruitless look leave it as far
      from entering as it was, and every other access of any thread brings it one
      nearer, to none when it enters: later tickets never delay it. */
  lemma EachStepCounts(s: Lock, step: Step, i: nat)
    requires Inv(s) && |s.phase| <= TWO_32 && Enabled(s, step) && |s.entered| <= i < |s.drawn|
    ensures var e := Apply(s, step);
            && Ahead(s, i) > 0
            && (step.Draw? || Fruitless(s, step) ==> Ahead(e, i) == Ahead(s, i) && e.entered == s.entered)
            && (!step.Draw? && !Fruitless(s, step) ==>
                  if |e.entered| > i then Ahead(s, i) == 1 else Ahead(e, i) == Ahead(s, i) - 1)
  {
    var t := step.t;
    match step
    case Draw(_) =>
      if |s.entered| > s.left { assert Outstanding(s, s.left); }
    case Poll(_) =>
      if !Fruitless(s, step) { PollIsNext(s, t); }
    case LoadServing(_) => InsideIsOldest(s, t);
    case StoreServing(_) => InsideIsOldest(s, t);
  }

  /** The accesses of a run that are neither draws nor fruitless looks. */
  function Fruitful(s: Lock, steps: seq<Step>): nat
    decreases |steps|
  {
    if steps == [] || !Enabled(s, steps[0]) then 0
    else (if steps[0].Draw? || Fruitless(s, steps[0]) then 0 else 1) + Fruitful(Apply(s, steps[0]), steps[1..])
  }

  /** So a waiting thread's wait is bounded by those before it, whatever the threads
      after it do: once the run has made that many fruitful accesses it has entered. */
  lemma {:induction false} WaitIsBounded(s: Lock, steps: seq<Step>, i: nat)
    requires Inv(s) && |s.phase| <= TWO_32 && Run(s, steps).Some? && |s.entered| <= i < |s.drawn|
    ensures var e := Run(s, steps).value;
            |e.entered| > i || Fruitful(s, steps) + Ahead(e, i) == Ahead(s, i)
    ensures Fruitful(s, steps) >= Ahead(s, i) ==> |Run(s, steps).value.entered| > i
    decreases |steps|
  {
    if steps == [] {
      AheadLeft(s, i);
    } else {
      var m := Apply(s, steps[0]);
      EachStepCounts(s, steps[0], i);
      ApplyInv(s, steps[0]);
      Grows(s, steps[0]);
      if |m.entered| > i {
        EntriesStay(m, steps[1..]);
      } else {
        WaitIsBounded(m, steps[1..], i);
      }
    }
  }

  lemma AheadLeft(s: Lock, i: nat)
    requires Inv(s) && |s.entered| <= i < |s.drawn|
    ensures Ahead(s, i) > 0
  {}

  lemma Grows(s: Lock, step: Step)
    requires Enabled(s, step)
    ensures s.drawn <= Apply(s, step).drawn && s.entered <= Apply(s, step).entered
    ensures |Apply(s, step).phase| == |s.phase|
  {
    assert Apply(s, step).phase.Keys == s.phase.Keys;
    assert |Apply(s, step).phase.Keys| == |Apply(s, step).phase| && |s.phase.Keys| == |s.phase|;
  }

  lemma {:induction false} EntriesStay(s: Lock, steps: seq<Step>)
    requires Run(s, steps).Some?
    ensures s.entered <= Run(s, steps).value.entered
    decreases |steps|
  {
    if steps != [] {
      Grows(s, steps[0]);
      EntriesStay(Apply(s, steps[0]), steps[1..]);
    }
  }

  /** From any reachable state: the owner of the i'th ticket is the i'th to enter, and
      has entered once three fruitful accesses were made for each ticket from the one
      served to its own, and one more. */
  lemma EntersInTime(threads: set<Tid>, before: seq<Step>, steps: seq<Step>, i: nat)
    requires |threads| <= TWO_32 && Run(Init(threads), before).Some? && Run(Run(Init(threads), before).value, steps).Some?
    requires var s := Run(Init(threads), before).value;
             |s.entered| <= i < |s.drawn| && Fruitful(s, steps) >= 3 * (i - s.left) + 1
    ensures var s := Run(Init(threads), before).value;
            var e := Run(s, steps).value;
            |e.entered| > i && e.entered[i] == s.drawn[i]
  {
    var s := Reached(threads, before);
    WaitIsBounded(s, steps, i);
    DrawsStay(s, steps);
    RunInv(s, steps);
  }

  lemma {:induction false} DrawsStay(s: Lock, steps: seq<Step>)
    requires Run(s, steps).Some?
    ensures s.drawn <= Run(s, steps).value.drawn
    decreases |steps|
  {
    if steps != [] {
      Grows(s, steps[0]);
      DrawsStay(Apply(s, steps[0]), steps[1..]);
    }
  }
}
