/** The arithmetic of a budgeted round-robin: how far one turn gets, and how many
    turns it takes to come round. Independent of what a visit does. */
module Rounds {
  import opened Words

  type Size = n: nat | n > 0 witness 1

  /** Bytes of `count` consecutive slots starting at `from`, going round. */
  function Swept(sizes: seq<Size>, from: nat, count: nat): nat
    requires sizes != []
    decreases count
  {
    if count == 0 then 0 else sizes[from % |sizes|] + Swept(sizes, from + 1, count - 1)
  }

  function Total(sizes: seq<Size>): nat {
    if sizes == [] then 0 else sizes[0] + Total(sizes[1..])
  }

  /** A turn from `from` stops after this many slots: once round, or as soon as
      the budget is spent, whichever comes first. */
  ghost predicate TurnStops(sizes: seq<Size>, from: nat, budget: nat, count: nat)
    requires sizes != []
  {
    && count <= |sizes|
    && (count == |sizes| || Swept(sizes, from, count) >= budget)
    && (forall c :: 0 <= c < count ==> Swept(sizes, from, c) < budget)
  }

  lemma {:induction false} SweptSplit(sizes: seq<Size>, from: nat, a: nat, b: nat)
    requires sizes != []
    ensures Swept(sizes, from, a + b) == Swept(sizes, from, a) + Swept(sizes, from + a, b)
    decreases a
  {
    if a > 0 {
      SweptSplit(sizes, from + 1, a - 1, b);
    }
  }

  lemma SweptGrows(sizes: seq<Size>, from: nat, a: nat, b: nat)
    requires sizes != [] && a < b
    ensures Swept(sizes, from, a) < Swept(sizes, from, b)
  {
    SweptSplit(sizes, from, a, b - a);
  }

  /** From the front, one full sweep is everything. */
  lemma {:induction false} SweptFront(sizes: seq<Size>, from: nat)
    requires from < |sizes|
    ensures Swept(sizes, from, |sizes| - from) == Total(sizes[from..])
    decreases |sizes| - from
  {
    ModUnique(from, 0, from, |sizes|);
    assert sizes[from..][0] == sizes[from] && sizes[from..][1..] == sizes[from + 1..];
    if from + 1 < |sizes| {
      SweptFront(sizes, from + 1);
    } else {
      assert sizes[from + 1..] == [];
    }
  }

  /** From anywhere, one full sweep is everything. */
  lemma {:induction false} SweptAround(sizes: seq<Size>, from: nat)
    requires sizes != []
    ensures Swept(sizes, from, |sizes|) == Total(sizes)
    decreases from
  {
    if from == 0 {
      SweptFront(sizes, 0);
      assert sizes[0..] == sizes;
    } else {
      SweptAround(sizes, from - 1);
      SweptSplit(sizes, from - 1, 1, |sizes| - 1);
      SweptSplit(sizes, from, |sizes| - 1, 1);
      LapSlot(from - 1, |sizes|);
      assert Swept(sizes, from - 1, 1) == sizes[(from - 1) % |sizes|];
      assert Swept(sizes, from + (|sizes| - 1), 1) == sizes[(from - 1 + |sizes|) % |sizes|];
    }
  }

  lemma LapSlot(i: nat, n: nat)
    requires n > 0
    ensures (i + n) % n == i % n
  {
    ModShift(i, 1, n);
  }

  /** A run of turns: how many slots each one visited. */
  ghost predicate Turns(sizes: seq<Size>, from: nat, budget: nat, counts: seq<nat>)
    requires sizes != []
    decreases |counts|
  {
    counts != [] ==>
      && TurnStops(sizes, from, budget, counts[0])
      && Turns(sizes, (from + counts[0]) % |sizes|, budget, counts[1..])
  }

  /** The cursor is kept reduced; the sweep does not notice. */
  lemma {:induction false} SweptSameSlot(sizes: seq<Size>, a: nat, b: nat, count: nat)
    requires sizes != [] && a % |sizes| == b % |sizes|
    ensures Swept(sizes, a, count) == Swept(sizes, b, count)
    decreases count
  {
    if count > 0 {
      NextSlot(a, b, |sizes|);
      SweptSameSlot(sizes, a + 1, b + 1, count - 1);
    }
  }

  function Sum(counts: seq<nat>): nat {
    if counts == [] then 0 else counts[0] + Sum(counts[1..])
  }

  function CeilDiv(a: nat, b: nat): nat
    requires b > 0
  {
    (a + b - 1) / b
  }

  /** Either the run has come round, or every turn in it spent its whole budget. */
  lemma {:induction false} RunSpends(sizes: seq<Size>, from: nat, budget: nat, counts: seq<nat>)
    requires sizes != [] && Turns(sizes, from, budget, counts)
    ensures Sum(counts) >= |sizes| || Swept(sizes, from, Sum(counts)) >= |counts| * budget
    decreases |counts|
  {
    if counts != [] && counts[0] < |sizes| {
      RunSpends(sizes, (from + counts[0]) % |sizes|, budget, counts[1..]);
      Reduced(from + counts[0], |sizes|);
      SweptSameSlot(sizes, (from + counts[0]) % |sizes|, from + counts[0], Sum(counts[1..]));
      SweptSplit(sizes, from, counts[0], Sum(counts[1..]));
      OneMoreTurn(|counts[1..]|, budget);
    }
  }

  lemma OneMoreTurn(turns: nat, budget: nat)
    ensures (turns + 1) * budget == turns * budget + budget
  {}

  /** Freshness: that many turns, from any cursor, come all the way round. */
  lemma TurnsComeRound(sizes: seq<Size>, from: nat, budget: nat, counts: seq<nat>)
    requires sizes != [] && budget > 0 && Turns(sizes, from, budget, counts)
    requires |counts| >= CeilDiv(Total(sizes), budget)
    ensures Sum(counts) >= |sizes|
  {
    RunSpends(sizes, from, budget, counts);
    if Sum(counts) < |sizes| {
      SweptAround(sizes, from);
      SweptGrows(sizes, from, Sum(counts), |sizes|);
      CeilCovers(Total(sizes), budget, |counts|);
    }
  }

  lemma CeilCovers(total: nat, budget: nat, turns: nat)
    requires budget > 0 && turns >= CeilDiv(total, budget)
    ensures turns * budget >= total
  {
    var q := CeilDiv(total, budget);
    assert q * budget + (total + budget - 1) % budget == total + budget - 1;
    assert turns * budget >= q * budget by {
      assert turns * budget == q * budget + (turns - q) * budget;
    }
  }

  /** No turn overspends by more than the slot it ends on. */
  lemma TurnOverrun(sizes: seq<Size>, from: nat, budget: nat, count: nat)
    requires sizes != [] && TurnStops(sizes, from, budget, count) && count > 0
    ensures Swept(sizes, from, count) < budget + sizes[(from + count - 1) % |sizes|]
  {
    SweptSplit(sizes, from, count - 1, 1);
    assert Swept(sizes, from + (count - 1), 1) == sizes[(from + count - 1) % |sizes|];
  }

  /** A zero budget visits nothing, for ever. */
  lemma {:induction false} ZeroBudgetStalls(sizes: seq<Size>, from: nat, counts: seq<nat>)
    requires sizes != [] && Turns(sizes, from, 0, counts)
    ensures Sum(counts) == 0
    decreases |counts|
  {
    if counts != [] {
      assert Swept(sizes, from, 0) == 0;
      ZeroBudgetStalls(sizes, (from + counts[0]) % |sizes|, counts[1..]);
    }
  }
}
