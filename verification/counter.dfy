/** next_nonzero: a shared 64-bit counter advanced by a load and a retried
    compare-exchange, one atomic access at a time. */
module MonotonicCounter {
  import opened Words

  type Tid = nat

  datatype Caller = Outside | Looping(current: u64)

  /** `handed` is history: every value returned, in order. */
  datatype Counter = Counter(value: u64, callers: map<Tid, Caller>, handed: seq<u64>)

  datatype Step =
    | Load(t: Tid)
    | Exchange(t: Tid, spurious: bool)   // the weak form may fail with no contention

  function Next(current: u64): u64 {
    var next := (current + 1) % TWO_64;
    if next == 0 then 1 else next
  }

  predicate Enabled(s: Counter, step: Step) {
    && step.t in s.callers
    && match step
       case Load(t) => s.callers[t].Outside?
       case Exchange(t, _) => s.callers[t].Looping?
  }

  function Apply(s: Counter, step: Step): Counter
    requires Enabled(s, step)
  {
    match step
    case Load(t) => s.(callers := s.callers[t := Looping(s.value)])
    case Exchange(t, spurious) =>
      var current := s.callers[t].current;
      if s.value == current && !spurious
      then Counter(Next(current), s.callers[t := Outside], s.handed + [Next(current)])
      else s.(callers := s.callers[t := Looping(s.value)])
  }

  function Run(s: Counter, steps: seq<Step>): Option<Counter>
    decreases |steps|
  {
    if steps == [] then Some(s)
    else if Enabled(s, steps[0]) then Run(Apply(s, steps[0]), steps[1..])
    else None
  }

  /** The live values are the 2^64 - 1 nonzero ones, visited in a ring. */
  const LIVE: nat := TWO_64 - 1

  function Nth(start: u64, i: nat): u64 { (start + i) % LIVE + 1 }

  ghost predicate Inv(start: u64, s: Counter) {
    && (forall i :: 0 <= i < |s.handed| ==> s.handed[i] == Nth(start, i))
    && s.value == (if s.handed == [] then start else s.handed[|s.handed| - 1])
  }

  lemma {:induction false} RunInv(start: u64, s: Counter, steps: seq<Step>)
    requires Inv(start, s) && Run(s, steps).Some?
    ensures Inv(start, Run(s, steps).value)
    decreases |steps|
  {
    if steps != [] {
      StepInv(start, s, steps[0]);
      RunInv(start, Apply(s, steps[0]), steps[1..]);
    }
  }

  lemma StepInv(start: u64, s: Counter, step: Step)
    requires Inv(start, s) && Enabled(s, step)
    ensures Inv(start, Apply(s, step))
  {
    if s.handed == [] {
      FirstLive(start);
    } else {
      NextLive(start, |s.handed| - 1);
    }
  }

  lemma FirstLive(start: u64)
    ensures Next(start) == Nth(start, 0)
  {
    if start == TWO_64 - 1 {
      ModUnique(TWO_64, 1, 0, TWO_64);
      ModUnique(start, 1, 0, LIVE);
    } else {
      ModUnique(start + 1, 0, start + 1, TWO_64);
      ModUnique(start, 0, start, LIVE);
    }
  }

  lemma NextLive(start: u64, i: nat)
    ensures Next(Nth(start, i)) == Nth(start, i + 1)
  {
    var m := (start + i) % LIVE;
    ModSplit(start + i, LIVE);
    if m + 1 == LIVE {
      ModUnique(start + i + 1, (start + i) / LIVE + 1, 0, LIVE);
      ModUnique(TWO_64, 1, 0, TWO_64);
    } else {
      ModUnique(start + i + 1, (start + i) / LIVE, m + 1, LIVE);
      ModUnique(m + 2, 0, m + 2, TWO_64);
    }
  }

  /** However the calls interleave and retry, no value handed out is zero, and
      two calls get the same value exactly when a whole lap of the nonzero
      values separates them. */
  lemma DistinctUntilLap(start: u64, callers: map<Tid, Caller>, steps: seq<Step>, i: nat, j: nat)
    requires forall t :: t in callers ==> callers[t].Outside?
    requires Run(Counter(start, callers, []), steps).Some?
    requires i < |Run(Counter(start, callers, []), steps).value.handed|
    requires j < |Run(Counter(start, callers, []), steps).value.handed|
    ensures var handed := Run(Counter(start, callers, []), steps).value.handed;
            handed[i] != 0 && (handed[i] == handed[j] <==> (i - j) % LIVE == 0)
  {
    RunInv(start, Counter(start, callers, []), steps);
    SameValue(start, i, j);
  }

  /** Two counts reach one value exactly when whole laps separate them. */
  lemma SameValue(start: u64, i: nat, j: nat)
    ensures Nth(start, i) == Nth(start, j) <==> (i - j) % LIVE == 0
  {
    var a, b := start + i, start + j;
    ModSplit(a, LIVE);
    ModSplit(b, LIVE);
    ModSplit(i - j, LIVE);
    if a % LIVE == b % LIVE {
      ModUnique(i - j, a / LIVE - b / LIVE, 0, LIVE);
    }
    if (i - j) % LIVE == 0 {
      ModShift(b, (i - j) / LIVE, LIVE);
    }
  }

  // --- Progress ------------------------------------------------------------------

  /** A caller nobody interrupts has its value in two accesses: the next live one. */
  lemma CallAlone(s: Counter, t: Tid)
    requires t in s.callers && s.callers[t].Outside?
    ensures Run(s, [Load(t), Exchange(t, false)]) ==
            Some(Counter(Next(s.value), s.callers, s.handed + [Next(s.value)]))
  {
    var m := Apply(s, Load(t));
    var e := Apply(m, Exchange(t, false));
    assert e.callers == s.callers;
    assert [Load(t), Exchange(t, false)][1..] == [Exchange(t, false)] && [Exchange(t, false)][1..] == [];
    assert Run(e, []) == Some(e) && Run(m, [Exchange(t, false)]) == Some(e);
  }

  /** Nothing was handed out from one state to the other. */
  predicate Unmoved(s: Counter, e: Counter) { e.handed == s.handed && e.value == s.value }

  /** A call that loses does so to one that wins: a caller inside its loop, left alone
      by the weak form, fails only if a value was handed out since it last looked, and
      then looks again. */
  lemma {:induction false} LosesOnlyToAnother(s: Counter, steps: seq<Step>, t: Tid)
    requires t in s.callers && s.callers[t] == Looping(s.value) && Run(s, steps).Some?
    requires forall k :: 0 <= k < |steps| ==> steps[k].t != t
    ensures var e := Run(s, steps).value;
            && t in e.callers && e.callers[t] == Looping(s.value) && s.handed <= e.handed
            && (e.handed == s.handed ==> Unmoved(s, e))
            && var f := Apply(e, Exchange(t, false));
               if e.value == s.value then f.handed == e.handed + [Next(e.value)] && f.callers[t].Outside?
               else e.handed != s.handed && f == e.(callers := e.callers[t := Looping(e.value)])
    decreases |steps|
  {
    if steps != [] {
      Others(s, steps, t);
    }
  }

  lemma {:induction false} Others(s: Counter, steps: seq<Step>, t: Tid)
    requires t in s.callers && s.callers[t].Looping? && Run(s, steps).Some?
    requires forall k :: 0 <= k < |steps| ==> steps[k].t != t
    ensures var e := Run(s, steps).value;
            && t in e.callers && e.callers[t] == s.callers[t] && s.handed <= e.handed
            && (e.handed == s.handed ==> Unmoved(s, e))
    decreases |steps|
  {
    if steps != [] {
      assert steps[0].t != t;
      Others(Apply(s, steps[0]), steps[1..], t);
    }
  }
}
