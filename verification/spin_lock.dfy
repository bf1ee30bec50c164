/** The ticket lock, one atomic load, store or read-modify-write at a time.

    `next` and `serving` are the two 32-bit atomics. The last two fields are
    history that no step reads: every ticket drawn and every entry made, in
    order. `left` counts completed releases. */
module SpinLock {
  import opened Words

  type Tid = nat

  datatype Phase =
    | Idle
    | Waiting(ticket: u32)      // drew a ticket, polling `serving`
    | Holding                   // inside the critical section
    | Releasing(seen: u32)      // unlock() has loaded `serving`, not yet stored

  datatype Lock = Lock(
    next: u32,
    serving: u32,
    phase: map<Tid, Phase>,
    drawn: seq<Tid>,
    entered: seq<Tid>,
    left: nat)

  datatype Step =
    | Draw(t: Tid)              // next_.fetch_add(1)
    | Poll(t: Tid)              // one load of serving_ in the spin loop
    | LoadServing(t: Tid)       // unlock(): serving_.load
    | StoreServing(t: Tid)      // unlock(): serving_.store

  function Init(threads: set<Tid>): Lock {
    Lock(0, 0, map t | t in threads :: Idle, [], [], 0)
  }

  predicate Enabled(s: Lock, step: Step) {
    && step.t in s.phase
    && match step
       case Draw(t) => s.phase[t].Idle?
       case Poll(t) => s.phase[t].Waiting?
       case LoadServing(t) => s.phase[t].Holding?
       case StoreServing(t) => s.phase[t].Releasing?
  }

  function Apply(s: Lock, step: Step): Lock
    requires Enabled(s, step)
  {
    match step
    case Draw(t) =>
      s.(next := (s.next + 1) % TWO_32, phase := s.phase[t := Waiting(s.next)], drawn := s.drawn + [t])
    case Poll(t) =>
      if s.serving == s.phase[t].ticket
      then s.(phase := s.phase[t := Holding], entered := s.entered + [t])
      else s
    case LoadServing(t) =>
      s.(phase := s.phase[t := Releasing(s.serving)])
    case StoreServing(t) =>
      s.(serving := (s.phase[t].seen + 1) % TWO_32, phase := s.phase[t := Idle], left := s.left + 1)
  }

  /** The state after a schedule, or None when the schedule asks for a step no
      thread could take. */
  function Run(s: Lock, steps: seq<Step>): Option<Lock>
    decreases |steps|
  {
    if steps == [] then Some(s)
    else if Enabled(s, steps[0]) then Run(Apply(s, steps[0]), steps[1..])
    else None
  }

  predicate Inside(s: Lock, t: Tid) {
    t in s.phase && (s.phase[t].Holding? || s.phase[t].Releasing?)
  }

  ghost predicate Exclusive(s: Lock) {
    forall t, u :: Inside(s, t) && Inside(s, u) ==> t == u
  }

  /** What the i'th draw's owner is doing while the draw is outstanding. */
  predicate Outstanding(s: Lock, i: nat)
    requires i < |s.drawn|
  {
    && s.drawn[i] in s.phase
    && var p := s.phase[s.drawn[i]];
       if i < |s.entered| then p == Holding || p == Releasing(s.serving)
       else p == Waiting(i % TWO_32)
  }

  /** The i'th draw is t's and has not been released. */
  predicate Owes(s: Lock, i: int, t: Tid) {
    0 <= s.left <= i < |s.drawn| && s.drawn[i] == t
  }

  ghost predicate Inv(s: Lock) {
    && s.left <= |s.entered| <= s.left + 1
    && |s.entered| <= |s.drawn|
    && s.entered == s.drawn[..|s.entered|]
    && s.next == |s.drawn| % TWO_32
    && s.serving == s.left % TWO_32
    && (forall i :: s.left <= i < |s.drawn| ==> Outstanding(s, i))
    && (forall i, j :: s.left <= i < j < |s.drawn| ==> s.drawn[i] != s.drawn[j])
    && (forall t :: t in s.phase && !s.phase[t].Idle? ==> exists i :: Owes(s, i, t))
  }

  lemma InitInv(threads: set<Tid>)
    ensures Inv(Init(threads))
  {}

  /** No more draws are outstanding than there are threads. */
  lemma OutstandingBound(s: Lock)
    requires Inv(s)
    ensures |s.drawn| - s.left <= |s.phase|
  {
    forall i | 0 <= i < |s.drawn[s.left..]| ensures s.drawn[s.left..][i] in s.phase.Keys {
      assert Outstanding(s, s.left + i);
    }
    DistinctBound(s.drawn[s.left..], s.phase.Keys);
  }

  lemma {:induction false} DistinctBound(xs: seq<Tid>, within: set<Tid>)
    requires forall i, j :: 0 <= i < j < |xs| ==> xs[i] != xs[j]
    requires forall i :: 0 <= i < |xs| ==> xs[i] in within
    ensures |xs| <= |within|
  {
    if xs != [] {
      DistinctBound(xs[1..], within - {xs[0]});
    }
  }

  /** A poll that succeeds is the oldest outstanding draw's, and finds nobody inside. */
  lemma PollIsNext(s: Lock, t: Tid)
    requires Inv(s) && |s.phase| <= TWO_32
    requires t in s.phase && s.phase[t].Waiting? && s.phase[t].ticket == s.serving
    ensures s.left == |s.entered| < |s.drawn| && s.drawn[s.left] == t
  {
    OutstandingBound(s);
    var i :| Owes(s, i, t);
    assert Outstanding(s, i);
    ModInjective(i, s.left, TWO_32);
  }

  lemma ApplyInv(s: Lock, step: Step)
    requires Inv(s) && |s.phase| <= TWO_32 && Enabled(s, step)
    ensures Inv(Apply(s, step)) && Apply(s, step).phase.Keys == s.phase.Keys
  {
    var t := step.t;
    match step
    case Draw(_) =>
      DrawInv(s, t);
    case Poll(_) =>
      if s.serving == s.phase[t].ticket {
        PollIsNext(s, t);
        PollInv(s, t);
      }
    case LoadServing(_) =>
      InsideIsOldest(s, t);
      LoadInv(s, t);
    case StoreServing(_) =>
      InsideIsOldest(s, t);
      StoreInv(s, t);
  }

  lemma InsideIsOldest(s: Lock, t: Tid)
    requires Inv(s) && Inside(s, t)
    ensures |s.entered| == s.left + 1 && s.drawn[s.left] == t && Outstanding(s, s.left)
  {
    var i :| Owes(s, i, t);
    assert Outstanding(s, i);
  }

  /** An outstanding draw stays outstanding unless it is the oldest and was released. */
  lemma KeepOwing(s: Lock, n: Lock, t: Tid)
    requires exists i :: Owes(s, i, t)
    requires s.drawn <= n.drawn
    requires n.left == s.left || (n.left == s.left + 1 && s.left < |s.drawn| && s.drawn[s.left] != t)
    ensures exists i :: Owes(n, i, t)
  {
    var i :| Owes(s, i, t);
    assert Owes(n, i, t);
  }

  lemma DrawInv(s: Lock, t: Tid)
    requires Inv(s) && Enabled(s, Draw(t))
    ensures Inv(Apply(s, Draw(t)))
  {
    var n := Apply(s, Draw(t));
    DrawOutstanding(s, t);
    forall u | u in n.phase && !n.phase[u].Idle? ensures exists i :: Owes(n, i, u) {
      if u == t { assert Owes(n, |s.drawn|, t); } else { KeepOwing(s, n, u); }
    }
    assert n.entered == n.drawn[..|n.entered|];
  }

  lemma DrawOutstanding(s: Lock, t: Tid)
    requires Inv(s) && Enabled(s, Draw(t))
    ensures var n := Apply(s, Draw(t));
            && n.next == |n.drawn| % TWO_32
            && (forall i :: s.left <= i < |n.drawn| ==> Outstanding(n, i))
            && (forall i, j :: s.left <= i < j < |n.drawn| ==> n.drawn[i] != n.drawn[j])
  {
    var n := Apply(s, Draw(t));
    NextMod(|s.drawn|, TWO_32);
    forall i | s.left <= i < |s.drawn| ensures s.drawn[i] != t && Outstanding(n, i) {
      assert Outstanding(s, i);
    }
  }

  lemma PollInv(s: Lock, t: Tid)
    requires Inv(s) && Enabled(s, Poll(t)) && s.serving == s.phase[t].ticket
    requires s.left == |s.entered| < |s.drawn| && s.drawn[s.left] == t
    ensures Inv(Apply(s, Poll(t)))
  {
    var n := Apply(s, Poll(t));
    forall i | n.left <= i < |n.drawn| ensures Outstanding(n, i) {
      assert Outstanding(s, i);
    }
    assert n.entered == n.drawn[..|n.entered|];
    forall u | u in n.phase && !n.phase[u].Idle? ensures exists i :: Owes(n, i, u) {
      if u == t { assert Owes(n, s.left, t); } else { KeepOwing(s, n, u); }
    }
  }

  lemma LoadInv(s: Lock, t: Tid)
    requires Inv(s) && Enabled(s, LoadServing(t))
    requires |s.entered| == s.left + 1 && s.drawn[s.left] == t
    ensures Inv(Apply(s, LoadServing(t)))
  {
    var n := Apply(s, LoadServing(t));
    forall u | u in n.phase && !n.phase[u].Idle? ensures exists i :: Owes(n, i, u) {
      KeepOwing(s, n, u);
    }
    forall i | n.left <= i < |n.drawn| ensures Outstanding(n, i) {
      assert Outstanding(s, i);
    }
  }

  lemma StoreInv(s: Lock, t: Tid)
    requires Inv(s) && Enabled(s, StoreServing(t))
    requires |s.entered| == s.left + 1 && s.drawn[s.left] == t && Outstanding(s, s.left)
    ensures Inv(Apply(s, StoreServing(t)))
  {
    var n := Apply(s, StoreServing(t));
    NextMod(s.left, TWO_32);
    forall i | n.left <= i < |n.drawn| ensures Outstanding(n, i) {
      StaysOutstanding(s, t, i);
    }
    StillOwing(s, n, t);
  }

  /** Past the draw released every other one goes on waiting. */
  lemma StaysOutstanding(s: Lock, t: Tid, i: nat)
    requires Inv(s) && Enabled(s, StoreServing(t)) && |s.entered| == s.left + 1 && s.drawn[s.left] == t
    requires s.left < i < |s.drawn|
    ensures Outstanding(Apply(s, StoreServing(t)), i)
  {
    assert Outstanding(s, i);
    assert s.drawn[i] != t;
  }

  lemma StillOwing(s: Lock, n: Lock, t: Tid)
    requires Inv(s) && Enabled(s, StoreServing(t)) && n == Apply(s, StoreServing(t))
    requires |s.entered| == s.left + 1 && s.drawn[s.left] == t
    ensures forall u :: u in n.phase && !n.phase[u].Idle? ==> exists i :: Owes(n, i, u)
  {
    forall u | u in n.phase && !n.phase[u].Idle? ensures exists i :: Owes(n, i, u) {
      assert u != t;
      KeepOwing(s, n, u);
    }
  }

  lemma {:induction false} RunInv(s: Lock, steps: seq<Step>)
    requires Inv(s) && |s.phase| <= TWO_32
    requires Run(s, steps).Some?
    ensures Inv(Run(s, steps).value) && Run(s, steps).value.phase.Keys == s.phase.Keys
    decreases |steps|
  {
    if steps != [] {
      ApplyInv(s, steps[0]);
      var n := Apply(s, steps[0]);
      assert |n.phase.Keys| == |s.phase.Keys|;
      RunInv(n, steps[1..]);
    }
  }

  lemma InvExclusive(s: Lock)
    requires Inv(s)
    ensures Exclusive(s)
  {
    forall t, u | Inside(s, t) && Inside(s, u) ensures t == u {
      InsideIsOldest(s, t);
      InsideIsOldest(s, u);
    }
  }

  /** First come, first served: whatever the schedule, the entries made are the
      draws made, in the order they were made, and at most one draw past the
      releases has entered. */
  lemma FifoGrants(threads: set<Tid>, steps: seq<Step>)
    requires |threads| <= TWO_32 && Run(Init(threads), steps).Some?
    ensures var s := Run(Init(threads), steps).value;
            s.entered <= s.drawn && s.left <= |s.entered| <= s.left + 1
  {
    InitInv(threads);
    assert Init(threads).phase.Keys == threads;
    RunInv(Init(threads), steps);
  }

  /** A free lock is never stuck: once the holder is out, the oldest draw's next
      poll succeeds and every other waiter's fails. */
  lemma OldestEntersNext(threads: set<Tid>, steps: seq<Step>, t: Tid)
    requires |threads| <= TWO_32 && Run(Init(threads), steps).Some?
    requires var s := Run(Init(threads), steps).value;
             s.left == |s.entered| < |s.drawn| && t in s.phase && s.phase[t].Waiting?
    ensures var s := Run(Init(threads), steps).value;
            Inside(Apply(s, Poll(t)), t) <==> t == s.drawn[s.left]
  {
    InitInv(threads);
    assert Init(threads).phase.Keys == threads;
    RunInv(Init(threads), steps);
    var s := Run(Init(threads), steps).value;
    assert Outstanding(s, s.left);
    if s.phase[t].ticket == s.serving {
      PollIsNext(s, t);
    }
  }

  // --- Exactly how many threads the wrapping tickets can serialise ------------

  ghost predicate AlwaysExclusive(threads: set<Tid>) {
    forall steps :: Run(Init(threads), steps).Some? ==> Exclusive(Run(Init(threads), steps).value)
  }

  /** The ticket space is 2^32 wide, and that is exactly how many threads it
      keeps apart: one more, and some schedule puts two of them inside. */
  lemma ExclusiveIff(threads: set<Tid>)
    ensures AlwaysExclusive(threads) <==> |threads| <= TWO_32
  {
    if |threads| <= TWO_32 {
      forall steps | Run(Init(threads), steps).Some?
        ensures Exclusive(Run(Init(threads), steps).value)
      {
        InitInv(threads);
        assert Init(threads).phase.Keys == threads;
        RunInv(Init(threads), steps);
        InvExclusive(Run(Init(threads), steps).value);
      }
    } else {
      var steps := TwoInside(threads);
      assert Run(Init(threads), steps).Some?;
    }
  }

  function Draws(order: seq<Tid>): seq<Step> {
    seq(|order|, i requires 0 <= i < |order| => Draw(order[i]))
  }

  /** Everyone draws, nobody enters. */
  lemma {:induction false} DrawAll(s: Lock, order: seq<Tid>)
    requires forall i :: 0 <= i < |order| ==> order[i] in s.phase && s.phase[order[i]].Idle?
    requires forall i, j :: 0 <= i < j < |order| ==> order[i] != order[j]
    ensures Run(s, Draws(order)).Some?
    ensures var n := Run(s, Draws(order)).value;
            && n.serving == s.serving
            && n.phase.Keys == s.phase.Keys
            && (forall i :: 0 <= i < |order| ==> n.phase[order[i]] == Waiting((s.next + i) % TWO_32))
            && (forall t :: t in s.phase && t !in order ==> n.phase[t] == s.phase[t])
    decreases |order|
  {
    if order != [] {
      var n, rest := Apply(s, Draw(order[0])), order[1..];
      assert Draws(order)[0] == Draw(order[0]) && Draws(order)[1..] == Draws(rest);
      forall i | 0 <= i < |rest| ensures rest[i] == order[i + 1] != order[0] {}
      DrawAll(n, rest);
      DrawnAll(s, order, Run(n, Draws(rest)).value);
    }
  }

  /** What the first draw and the rest leave. */
  lemma DrawnAll(s: Lock, order: seq<Tid>, e: Lock)
    requires order != [] && order[0] in s.phase && forall i, j :: 0 <= i < j < |order| ==> order[i] != order[j]
    requires e.phase.Keys == s.phase.Keys
    requires forall i :: 0 <= i < |order| - 1 ==>
               order[1..][i] in e.phase && e.phase[order[1..][i]] == Waiting(((s.next + 1) % TWO_32 + i) % TWO_32)
    requires forall t :: t in s.phase && t !in order[1..] ==>
               e.phase[t] == if t == order[0] then Waiting(s.next) else s.phase[t]
    ensures forall i :: 0 <= i < |order| ==> order[i] in e.phase && e.phase[order[i]] == Waiting((s.next + i) % TWO_32)
    ensures forall t :: t in s.phase && t !in order ==> e.phase[t] == s.phase[t]
  {
    forall i | 0 <= i < |order| ensures order[i] in e.phase && e.phase[order[i]] == Waiting((s.next + i) % TWO_32) {
      FirstOnce(order);
      if i > 0 {
        assert order[i] == order[1..][i - 1];
        NextTicket(s.next, i);
      }
    }
    forall t | t in s.phase && t !in order ensures e.phase[t] == s.phase[t] {
      assert t !in order[1..] && t != order[0];
    }
  }

  lemma FirstOnce(order: seq<Tid>)
    requires order != [] && forall i, j :: 0 <= i < j < |order| ==> order[i] != order[j]
    ensures order[0] !in order[1..]
  {}

  lemma NextTicket(next: u32, i: nat)
    requires i > 0
    ensures ((next + 1) % TWO_32 + (i - 1)) % TWO_32 == (next + i) % TWO_32
  {}

  lemma {:induction false} RunConcat(s: Lock, a: seq<Step>, b: seq<Step>)
    requires Run(s, a).Some?
    ensures Run(s, a + b) == Run(Run(s, a).value, b)
    decreases |a|
  {
    if a == [] {
      assert a + b == b;
    } else {
      assert (a + b)[1..] == a[1..] + b;
      RunConcat(Apply(s, a[0]), a[1..], b);
    }
  }

  lemma {:induction false} Enumerate(threads: set<Tid>, n: nat) returns (order: seq<Tid>)
    requires n <= |threads|
    ensures |order| == n
    ensures forall i :: 0 <= i < n ==> order[i] in threads
    ensures forall i, j :: 0 <= i < j < n ==> order[i] != order[j]
    decreases n
  {
    if n == 0 {
      order := [];
    } else {
      var t :| t in threads;
      var rest := Enumerate(threads - {t}, n - 1);
      order := [t] + rest;
    }
  }

  lemma TwoInside(threads: set<Tid>) returns (steps: seq<Step>)
    requires |threads| > TWO_32
    ensures Run(Init(threads), steps).Some? && !Exclusive(Run(Init(threads), steps).value)
  {
    var order := Enumerate(threads, TWO_32 + 1);
    var first, last := order[0], order[TWO_32];
    var start := Init(threads);
    DrawAll(start, order);
    var waiting := Run(start, Draws(order)).value;
    assert waiting.phase[first] == Waiting(0);
    assert waiting.phase[last] == Waiting(0);
    var one := Apply(waiting, Poll(first));
    var two := Apply(one, Poll(last));
    assert Run(waiting, [Poll(first), Poll(last)]) == Some(two) by {
      assert [Poll(first), Poll(last)][1..] == [Poll(last)];
      assert Run(two, []) == Some(two);
      assert [Poll(last)][1..] == [];
      assert Run(one, [Poll(last)]) == Some(two);
    }
    steps := Draws(order) + [Poll(first), Poll(last)];
    RunConcat(start, Draws(order), [Poll(first), Poll(last)]);
    assert Inside(two, first) && Inside(two, last) && first != last;
  }
}
