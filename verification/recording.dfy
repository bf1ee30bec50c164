/** A loaded run: checkpoints folded from its own frames, seeks answered from them,
    and records placed on the wire's clock. */
module Recordings {
  import opened Words
  import opened Sorting

  datatype Frame = Frame(kind: string, topic: string, stamp: Option<nat>, span: Option<nat>, data: nat)
  {
    /** frame.get("ts", 0) */
    function Ts(): nat { if stamp.Some? then stamp.value else 0 }

    /** The newest record a drain took in. */
    function Newest(): nat { if span.Some? then span.value else 0 }
  }

  /** Does this frame carry a topic's reading? */
  predicate Reading(f: Frame) { f.kind == "snapshot" && f.topic != "topo" }

  datatype Checkpoint = Checkpoint(at: nat, ts: nat, topics: map<string, Frame>)

  // --- What a seek means ----------------------------------------------------------

  function Seen(state: map<string, Frame>, f: Frame): map<string, Frame> {
    if Reading(f) then state[f.topic := f] else state
  }

  /** Every topic's latest reading among these frames. */
  function Latest(frames: seq<Frame>): map<string, Frame> {
    if frames == [] then map[] else Seen(Latest(frames[..|frames| - 1]), frames[|frames| - 1])
  }

  lemma LatestNext(frames: seq<Frame>, index: nat)
    requires index < |frames|
    ensures Latest(frames[..index + 1]) == Seen(Latest(frames[..index]), frames[index])
  {
    assert frames[..index + 1][..index] == frames[..index];
  }

  /** The i'th frame gives topic k a reading. */
  predicate Gives(frames: seq<Frame>, k: string, i: nat)
    requires i < |frames|
  {
    frames[i].kind == "snapshot" && frames[i].topic == k && k != "topo"
  }

  /** The i'th frame is the last to do so by `ts`. */
  ghost predicate LastGiven(frames: seq<Frame>, k: string, ts: int, i: nat) {
    && i < |frames| && Gives(frames, k, i) && frames[i].Ts() <= ts
    && forall j :: i < j < |frames| && frames[j].Ts() <= ts ==> !Gives(frames, k, j)
  }

  /** The newest reading of each topic and nothing else: a topic is in it exactly when
      a frame gave it a reading, and with the last frame that did. */
  lemma {:induction false} LatestIs(frames: seq<Frame>, k: string)
    ensures k in Latest(frames) <==> exists i :: 0 <= i < |frames| && Gives(frames, k, i)
    ensures forall i :: 0 <= i < |frames| && Gives(frames, k, i) && (forall j :: i < j < |frames| ==> !Gives(frames, k, j))
                        ==> Latest(frames)[k] == frames[i]
    decreases |frames|
  {
    if frames != [] {
      var n, rest := |frames| - 1, frames[..|frames| - 1];
      LatestIs(rest, k);
      assert forall i :: 0 <= i < n ==> (Gives(rest, k, i) <==> Gives(frames, k, i));
      if Gives(frames, k, n) {
        assert Latest(frames)[k] == frames[n];
      } else {
        assert k in Latest(frames) <==> k in Latest(rest);
        assert k in Latest(rest) ==> Latest(frames)[k] == Latest(rest)[k];
      }
    }
  }

  /** The frames stamped no later than `ts`. */
  function UpTo(frames: seq<Frame>, ts: int): seq<Frame> {
    if frames == [] then []
    else UpTo(frames[..|frames| - 1], ts) + if frames[|frames| - 1].Ts() <= ts then [frames[|frames| - 1]] else []
  }

  /** No frame in time comes after a later one: as of `ts`, the clock has not run
      backwards. */
  ghost predicate InTime(frames: seq<Frame>, ts: int) {
    forall i, j :: 0 <= i < j < |frames| && frames[i].Ts() > ts ==> frames[j].Ts() > ts
  }

  /** Frames in time up front and none after are a prefix. */
  lemma {:induction false} UpToIsPrefix(frames: seq<Frame>, ts: int, n: nat)
    requires n <= |frames|
    requires forall i :: 0 <= i < n ==> frames[i].Ts() <= ts
    requires forall i :: n <= i < |frames| ==> frames[i].Ts() > ts
    ensures UpTo(frames, ts) == frames[..n]
    decreases |frames|
  {
    if frames != [] {
      var rest := frames[..|frames| - 1];
      UpToIsPrefix(rest, ts, if n == |frames| then n - 1 else n);
      if n == |frames| {
        assert frames[..n] == rest + [frames[n - 1]];
      } else {
        assert frames[..n] == rest[..n];
      }
    }
  }

  /** The same of the frames by `ts`, wherever they stand. */
  lemma {:induction false} LatestUpToHas(frames: seq<Frame>, ts: int, k: string)
    ensures k in Latest(UpTo(frames, ts)) <==> exists i :: 0 <= i < |frames| && Gives(frames, k, i) && frames[i].Ts() <= ts
    decreases |frames|
  {
    if frames != [] {
      var n, rest := |frames| - 1, frames[..|frames| - 1];
      LatestUpToHas(rest, ts, k);
      UpToNext(frames, ts);
      assert forall i :: 0 <= i < n ==> (Gives(rest, k, i) <==> Gives(frames, k, i));
    }
  }

  lemma {:induction false} LatestUpToValue(frames: seq<Frame>, ts: int, k: string, i: nat)
    requires LastGiven(frames, k, ts, i)
    ensures k in Latest(UpTo(frames, ts)) && Latest(UpTo(frames, ts))[k] == frames[i]
    decreases |frames|
  {
    var n, rest := |frames| - 1, frames[..|frames| - 1];
    UpToNext(frames, ts);
    if i < n {
      GivenBefore(frames, k, ts, i);
      LatestUpToValue(rest, ts, k, i);
      assert frames[n].Ts() <= ts ==> !Gives(frames, k, n);
    }
  }

  lemma GivenBefore(frames: seq<Frame>, k: string, ts: int, i: nat)
    requires LastGiven(frames, k, ts, i) && i < |frames| - 1
    ensures LastGiven(frames[..|frames| - 1], k, ts, i)
  {
    var rest := frames[..|frames| - 1];
    forall j | i < j < |rest| && rest[j].Ts() <= ts ensures !Gives(rest, k, j) {
      assert !Gives(frames, k, j);
    }
  }

  lemma UpToNext(frames: seq<Frame>, ts: int)
    requires frames != []
    ensures var n := |frames| - 1;
            Latest(UpTo(frames, ts)) ==
            if frames[n].Ts() <= ts then Seen(Latest(UpTo(frames[..n], ts)), frames[n]) else Latest(UpTo(frames[..n], ts))
  {
    var n := |frames| - 1;
    var before := UpTo(frames[..n], ts);
    if frames[n].Ts() <= ts {
      assert (before + [frames[n]])[..|before|] == before;
    } else {
      assert before + [] == before;
    }
  }

  /** What a seek promises: each topic's last reading by `ts`, and no other topic. */
  ghost predicate AsOf(state: map<string, Frame>, frames: seq<Frame>, ts: int) {
    && (forall k :: k in state <==> exists i :: 0 <= i < |frames| && Gives(frames, k, i) && frames[i].Ts() <= ts)
    && (forall k, i: nat :: LastGiven(frames, k, ts, i) ==> k in state && state[k] == frames[i])
  }

  lemma LatestIsAsOf(frames: seq<Frame>, ts: int)
    ensures AsOf(Latest(UpTo(frames, ts)), frames, ts)
  {
    var state := Latest(UpTo(frames, ts));
    forall k ensures k in state <==> exists i :: 0 <= i < |frames| && Gives(frames, k, i) && frames[i].Ts() <= ts {
      LatestUpToHas(frames, ts, k);
    }
    forall k, i: nat | LastGiven(frames, k, ts, i) ensures k in state && state[k] == frames[i] {
      LatestUpToValue(frames, ts, k, i);
    }
  }

  // --- Checkpoints ---------------------------------------------------------------------

  /** Each checkpoint is the state before the frame it points at, in stream order. */
  ghost predicate Agrees(marks: seq<Checkpoint>, frames: seq<Frame>) {
    && (forall k :: 0 <= k < |marks| ==> MarkOf(marks[k], frames))
    && (forall j, k :: 0 <= j < k < |marks| ==> marks[j].at < marks[k].at)
  }

  predicate MarkOf(mark: Checkpoint, frames: seq<Frame>) {
    mark.at < |frames| && mark.ts == frames[mark.at].Ts() && mark.topics == Latest(frames[..mark.at])
  }

  /** The checkpoints a stream has, one each interval. */
  function Marks(frames: seq<Frame>, every: nat): seq<Checkpoint>
    requires every > 0
  {
    if frames == [] then []
    else
      var n := |frames| - 1;
      Marks(frames[..n], every) + if n % every == 0 then [Checkpoint(n, frames[n].Ts(), Latest(frames[..n]))] else []
  }

  lemma {:induction false} MarksAgree(frames: seq<Frame>, every: nat)
    requires every > 0
    ensures Agrees(Marks(frames, every), frames)
    ensures forall at :: 0 <= at < |frames| && at % every == 0 ==>
              exists k :: 0 <= k < |Marks(frames, every)| && Marks(frames, every)[k].at == at
    decreases |frames|
  {
    if frames != [] {
      var n := |frames| - 1;
      var rest, before, marks := frames[..n], Marks(frames[..n], every), Marks(frames, every);
      MarksAgree(rest, every);
      forall k | 0 <= k < |before| ensures MarkOf(marks[k], frames) {
        assert MarkOf(before[k], rest);
        assert frames[..before[k].at] == rest[..before[k].at];
      }
      forall at | 0 <= at < |frames| && at % every == 0 ensures exists k :: 0 <= k < |marks| && marks[k].at == at {
        if at < n {
          var k :| 0 <= k < |before| && before[k].at == at;
          assert marks[k].at == at;
        } else {
          assert marks[|before|].at == at;
        }
      }
    }
  }

  method Fold(frames: seq<Frame>, every: nat) returns (marks: seq<Checkpoint>)
    requires every > 0
    ensures marks == Marks(frames, every) && Agrees(marks, frames)
    ensures forall at :: 0 <= at < |frames| && at % every == 0 ==> exists k :: 0 <= k < |marks| && marks[k].at == at
  {
    marks := [];
    var state: map<string, Frame> := map[];
    for index := 0 to |frames|
      invariant state == Latest(frames[..index]) && marks == Marks(frames[..index], every)
    {
      var frame := frames[index];
      LatestNext(frames, index);
      assert frames[..index + 1][..index] == frames[..index];
      if index % every == 0 {
        marks := marks + [Checkpoint(index, frame.Ts(), state)];
      }
      if Reading(frame) {
        state := state[frame.topic := frame];
      }
    }
    assert frames[..|frames|] == frames;
    MarksAgree(frames, every);
  }

  // --- Where a seek starts and stops -------------------------------------------------------

  /** The frame the last checkpoint before the first one too late points at. */
  function Resume(marks: seq<Checkpoint>, ts: int): nat {
    if marks == [] || marks[0].ts > ts then 0
    else if |marks| == 1 || marks[1].ts > ts then marks[0].at
    else Resume(marks[1..], ts)
  }

  /** The frames a scan applies before the first later one. */
  function Prefix(frames: seq<Frame>, ts: int): seq<Frame> {
    if frames == [] || frames[0].Ts() > ts then [] else [frames[0]] + Prefix(frames[1..], ts)
  }

  /** How many frames are in a seek's answer: all before the checkpoint, in time or
      not, and those it then scans. */
  function Reach(frames: seq<Frame>, marks: seq<Checkpoint>, ts: int): nat {
    var start := Resume(marks, ts);
    if start > |frames| then |frames| else start + |Prefix(frames[start..], ts)|
  }

  /** What a seek answers at this interval. */
  function Answer(frames: seq<Frame>, every: nat, ts: int): map<string, Frame>
    requires every > 0
  {
    MarksAgree(frames, every);
    Stops(frames, Marks(frames, every), ts);
    Latest(frames[..Reach(frames, Marks(frames, every), ts)])
  }

  lemma {:induction false} PrefixStops(frames: seq<Frame>, ts: int)
    ensures var n := |Prefix(frames, ts)|;
            && n <= |frames|
            && (forall i :: 0 <= i < n ==> frames[i].Ts() <= ts)
            && (n < |frames| ==> frames[n].Ts() > ts)
  {
    if frames != [] && frames[0].Ts() <= ts {
      PrefixStops(frames[1..], ts);
    }
  }

  /** The leading checkpoints in time, one by one. */
  lemma {:induction false} ResumeIs(marks: seq<Checkpoint>, ts: int, k: nat)
    requires k <= |marks| && (forall i :: 0 <= i < k ==> marks[i].ts <= ts) && (k < |marks| ==> marks[k].ts > ts)
    ensures Resume(marks, ts) == if k == 0 then 0 else marks[k - 1].at
    decreases |marks|
  {
    if k > 1 {
      ResumeIs(marks[1..], ts, k - 1);
    }
  }

  /** A seek starts at a checkpoint in time, or at the front, and stops at the end or
      at a later frame. */
  lemma {:induction false} Stops(frames: seq<Frame>, marks: seq<Checkpoint>, ts: int)
    requires Agrees(marks, frames)
    ensures var start, n := Resume(marks, ts), Reach(frames, marks, ts);
            && start <= n <= |frames|
            && (start == 0 || (start < |frames| && frames[start].Ts() <= ts))
            && (forall i :: start <= i < n ==> frames[i].Ts() <= ts)
            && (n < |frames| ==> frames[n].Ts() > ts)
  {
    ResumesInTime(frames, marks, ts);
    var start := Resume(marks, ts);
    PrefixStops(frames[start..], ts);
    var n := start + |Prefix(frames[start..], ts)|;
    forall i | start <= i < n ensures frames[i].Ts() <= ts {
      assert frames[start..][i - start].Ts() <= ts;
    }
  }

  /** The one place where that scan can stop, and where it does in time. */
  lemma StopsHere(frames: seq<Frame>, marks: seq<Checkpoint>, ts: int, n: nat)
    requires Agrees(marks, frames) && Resume(marks, ts) <= n <= |frames|
    requires forall i :: Resume(marks, ts) <= i < n ==> frames[i].Ts() <= ts
    requires n < |frames| ==> frames[n].Ts() > ts
    ensures n == Reach(frames, marks, ts)
    ensures InTime(frames, ts) ==> UpTo(frames, ts) == frames[..n]
  {
    Stops(frames, marks, ts);
    if InTime(frames, ts) { ReachIsUpTo(frames, marks, ts); }
  }

  lemma {:induction false} ResumesInTime(frames: seq<Frame>, marks: seq<Checkpoint>, ts: int)
    requires forall k :: 0 <= k < |marks| ==> MarkOf(marks[k], frames)
    ensures var start := Resume(marks, ts); start == 0 || (start < |frames| && frames[start].Ts() <= ts)
    decreases |marks|
  {
    if marks != [] {
      assert MarkOf(marks[0], frames);
      ResumesInTime(frames, marks[1..], ts);
    }
  }

  predicate AllInTime(frames: seq<Frame>, start: nat, end: nat, ts: int)
    requires end <= |frames|
  {
    forall i :: start <= i < end ==> frames[i].Ts() <= ts
  }

  /** From the checkpoint resumed at, applies frames until the end or a later one. */
  method At(frames: seq<Frame>, marks: seq<Checkpoint>, ts: int) returns (state: map<string, Frame>)
    requires Agrees(marks, frames)
    ensures Reach(frames, marks, ts) <= |frames| && state == Latest(frames[..Reach(frames, marks, ts)])
    ensures InTime(frames, ts) ==> state == Latest(UpTo(frames, ts)) && AsOf(state, frames, ts)
  {
    var start;
    state, start := Nearest(frames, marks, ts);
    var index := start;
    while index < |frames| && frames[index].Ts() <= ts
      invariant start <= index <= |frames| && AllInTime(frames, start, index, ts)
      invariant state == Latest(frames[..index])
    {
      LatestNext(frames, index);
      if Reading(frames[index]) {
        state := state[frames[index].topic := frames[index]];
      }
      index := index + 1;
    }
    StopsHere(frames, marks, ts, index);
    LatestIsAsOf(frames, ts);
  }

  /** The last checkpoint before the first one too late, if any. */
  method Nearest(frames: seq<Frame>, marks: seq<Checkpoint>, ts: int) returns (state: map<string, Frame>, start: nat)
    requires Agrees(marks, frames)
    ensures start == Resume(marks, ts) <= |frames| && state == Latest(frames[..start])
    ensures InTime(frames, ts) ==> forall i :: 0 <= i < start ==> frames[i].Ts() <= ts
  {
    state, start := map[], 0;
    var k := 0;
    while k < |marks| && marks[k].ts <= ts
      invariant 0 <= k <= |marks| && start <= |frames| && state == Latest(frames[..start])
      invariant forall i :: 0 <= i < k ==> marks[i].ts <= ts
      invariant start == if k == 0 then 0 else marks[k - 1].at
    {
      assert MarkOf(marks[k], frames);
      state, start := marks[k].topics, marks[k].at;
      k := k + 1;
    }
    ResumeIs(marks, ts, k);
    Stops(frames, marks, ts);
  }

  /** Fold, then seek. */
  method Seek(frames: seq<Frame>, every: nat, ts: int) returns (state: map<string, Frame>)
    requires every > 0
    ensures state == Answer(frames, every, ts)
    ensures InTime(frames, ts) ==> state == Latest(UpTo(frames, ts)) && AsOf(state, frames, ts)
  {
    var marks := Fold(frames, every);
    state := At(frames, marks, ts);
    LatestIsAsOf(frames, ts);
  }

  // --- Exactly when a seek is right ---------------------------------------------------------

  lemma ReachIsUpTo(frames: seq<Frame>, marks: seq<Checkpoint>, ts: int)
    requires Agrees(marks, frames) && InTime(frames, ts)
    ensures Reach(frames, marks, ts) <= |frames| && UpTo(frames, ts) == frames[..Reach(frames, marks, ts)]
  {
    Stops(frames, marks, ts);
    UpToIsPrefix(frames, ts, Reach(frames, marks, ts));
  }

  /** The k'th frame alone carries a reading. */
  function OneReading(stamps: seq<nat>, k: nat): (frames: seq<Frame>)
    ensures |frames| == |stamps| && forall i :: 0 <= i < |stamps| ==> frames[i].Ts() == stamps[i]
  {
    seq(|stamps|, i requires 0 <= i < |stamps| => Frame(if i == k then "snapshot" else "event", "", Some(stamps[i]), None, 0))
  }

  lemma {:induction false} LatestHas(frames: seq<Frame>, k: nat)
    requires forall i :: 0 <= i < |frames| ==> (Reading(frames[i]) <==> i == k) && frames[i].topic == ""
    ensures "" in Latest(frames) <==> k < |frames|
    decreases |frames|
  {
    if frames != [] {
      LatestHas(frames[..|frames| - 1], k);
    }
  }

  lemma {:induction false} UpToHas(frames: seq<Frame>, ts: int, k: nat)
    requires forall i :: 0 <= i < |frames| ==> (Reading(frames[i]) <==> i == k) && frames[i].topic == ""
    ensures "" in Latest(UpTo(frames, ts)) <==> k < |frames| && frames[k].Ts() <= ts
    decreases |frames|
  {
    if frames != [] {
      var n := |frames| - 1;
      UpToHas(frames[..n], ts, k);
      if frames[n].Ts() <= ts {
        assert UpTo(frames, ts)[..|UpTo(frames, ts)| - 1] == UpTo(frames[..n], ts);
      } else {
        assert UpTo(frames, ts) == UpTo(frames[..n], ts);
      }
    }
  }

  /** Frames stamped like this. */
  predicate Stamped(frames: seq<Frame>, stamps: seq<nat>) {
    |frames| == |stamps| && forall i :: 0 <= i < |stamps| ==> frames[i].Ts() == stamps[i]
  }

  /** Whether the one reading is in the answer, and whether it should be. */
  lemma OneIsWrong(stamps: seq<nat>, k: nat, every: nat, ts: int)
    requires every > 0 && k < |stamps|
    ensures var frames := OneReading(stamps, k);
            Answer(frames, every, ts) == Latest(UpTo(frames, ts)) ==>
              (k < Reach(frames, Marks(frames, every), ts) <==> stamps[k] <= ts)
  {
    var frames := OneReading(stamps, k);
    MarksAgree(frames, every);
    Stops(frames, Marks(frames, every), ts);
    LatestHas(frames[..Reach(frames, Marks(frames, every), ts)], k);
    UpToHas(frames, ts, k);
  }

  /** A frame in time that the answer misses, or a later one that it has. */
  lemma WrongFrame(stamps: seq<nat>, every: nat, ts: int, i: nat, j: nat) returns (k: nat)
    requires every > 0 && i < j < |stamps| && stamps[i] > ts && stamps[j] <= ts
    ensures k < |stamps| && Answer(OneReading(stamps, k), every, ts) != Latest(UpTo(OneReading(stamps, k), ts))
  {
    SameReach(OneReading(stamps, i), OneReading(stamps, j), every, ts);
    OneIsWrong(stamps, i, every, ts);
    OneIsWrong(stamps, j, every, ts);
    k := if Answer(OneReading(stamps, i), every, ts) != Latest(UpTo(OneReading(stamps, i), ts)) then i else j;
  }

  /** Where a seek stops depends on the timestamps alone. */
  lemma SameReach(a: seq<Frame>, b: seq<Frame>, every: nat, ts: int)
    requires every > 0 && |a| == |b| && forall i :: 0 <= i < |a| ==> a[i].Ts() == b[i].Ts()
    ensures Reach(a, Marks(a, every), ts) == Reach(b, Marks(b, every), ts)
  {
    SameMarks(a, b, every);
    SameResume(Marks(a, every), Marks(b, every), ts);
    var start := Resume(Marks(a, every), ts);
    if start <= |a| { SamePrefix(a[start..], b[start..], ts); }
  }

  lemma {:induction false} SameMarks(a: seq<Frame>, b: seq<Frame>, every: nat)
    requires every > 0 && |a| == |b| && forall i :: 0 <= i < |a| ==> a[i].Ts() == b[i].Ts()
    ensures var x, y := Marks(a, every), Marks(b, every);
            |x| == |y| && forall k :: 0 <= k < |x| ==> x[k].at == y[k].at && x[k].ts == y[k].ts
    decreases |a|
  {
    if a != [] {
      SameMarks(a[..|a| - 1], b[..|b| - 1], every);
    }
  }

  lemma {:induction false} SameResume(x: seq<Checkpoint>, y: seq<Checkpoint>, ts: int)
    requires |x| == |y| && forall k :: 0 <= k < |x| ==> x[k].at == y[k].at && x[k].ts == y[k].ts
    ensures Resume(x, ts) == Resume(y, ts)
    decreases |x|
  {
    if x != [] {
      SameResume(x[1..], y[1..], ts);
    }
  }

  lemma {:induction false} SamePrefix(a: seq<Frame>, b: seq<Frame>, ts: int)
    requires |a| == |b| && forall i :: 0 <= i < |a| ==> a[i].Ts() == b[i].Ts()
    ensures |Prefix(a, ts)| == |Prefix(b, ts)|
  {
    if a != [] {
      SamePrefix(a[1..], b[1..], ts);
    }
  }

  /** At every interval alike: a seek answers with exactly the frames in time,
      whatever they carry, if and only if none of them comes after a later one. */
  lemma SeekIsRightIff(stamps: seq<nat>, every: nat, ts: int)
    requires every > 0
    ensures (forall frames :: Stamped(frames, stamps) ==> Answer(frames, every, ts) == Latest(UpTo(frames, ts))) <==>
            forall i, j :: 0 <= i < j < |stamps| && stamps[i] > ts ==> stamps[j] > ts
  {
    if forall i, j :: 0 <= i < j < |stamps| && stamps[i] > ts ==> stamps[j] > ts {
      forall frames | Stamped(frames, stamps) ensures Answer(frames, every, ts) == Latest(UpTo(frames, ts)) {
        MarksAgree(frames, every);
        ReachIsUpTo(frames, Marks(frames, every), ts);
      }
    } else {
      var i, j :| 0 <= i < j < |stamps| && stamps[i] > ts && stamps[j] <= ts;
      var k := WrongFrame(stamps, every, ts, i, j);
      assert Stamped(OneReading(stamps, k), stamps);
    }
  }

  lemma MarksOfThree(a: Frame, b: Frame, c: Frame)
    ensures Marks([a, b, c], 1) ==
            [Checkpoint(0, a.Ts(), map[]), Checkpoint(1, b.Ts(), Latest([a])), Checkpoint(2, c.Ts(), Latest([a, b]))]
    ensures Marks([a, b, c], 2) == [Checkpoint(0, a.Ts(), map[]), Checkpoint(2, c.Ts(), Latest([a, b]))]
  {
    assert [a, b, c][..2] == [a, b] && [a, b][..1] == [a] && [a][..0] == [];
    assert Marks([a], 1) == [Checkpoint(0, a.Ts(), map[])] == Marks([a], 2);
    assert Marks([a, b], 1) == [Checkpoint(0, a.Ts(), map[]), Checkpoint(1, b.Ts(), Latest([a]))];
    assert Marks([a, b], 2) == [Checkpoint(0, a.Ts(), map[])];
  }

  /** So off time order the interval shows. Three topics, the second read later than
      `ts` and the others in time: with a checkpoint at every second frame all three
      are answered, with one at every frame only the first, and neither is right. */
  lemma IntervalShows(a: Frame, b: Frame, c: Frame, ts: int)
    requires a.Ts() <= ts < b.Ts() && c.Ts() <= ts && Reading(a) && Reading(b) && Reading(c)
    ensures Answer([a, b, c], 2, ts).Keys == {a.topic, b.topic, c.topic}
    ensures Answer([a, b, c], 1, ts).Keys == {a.topic}
    ensures Latest(UpTo([a, b, c], ts)).Keys == {a.topic, c.topic}
  {
    var frames := [a, b, c];
    MarksOfThree(a, b, c);
    ResumeIs(Marks(frames, 1), ts, 1);
    ResumeIs(Marks(frames, 2), ts, 2);
    assert Prefix([c], ts) == [c];
    assert frames[1..] == [b, c];
    assert Prefix(frames, ts) == [a];
    assert frames[0..] == frames && frames[2..] == [c];
    assert Reach(frames, Marks(frames, 1), ts) == 1 && Reach(frames, Marks(frames, 2), ts) == 3;
    assert frames[..3] == frames && frames[..2] == [a, b] && frames[..1] == [a];
    LatestNext(frames, 0);
    LatestNext(frames, 1);
    LatestNext(frames, 2);
    assert UpTo([a], ts) == [a] == UpTo([a, b], ts) by { assert [a, b][..1] == [a]; }
    assert UpTo(frames, ts) == [a, c] && [a, c][..1] == [a];
  }

  // --- Records on the wire's clock --------------------------------------------------------------

  /** Which drains took records in up to where, and when the bridge said so. */
  datatype Drain = Drain(to: nat, ts: nat)

  predicate Before(x: Drain, y: Drain) { x.to < y.to || (x.to == y.to && x.ts <= y.ts) }

  ghost predicate InOrder(drains: seq<Drain>) { Sorted(drains, Before) }

  predicate Drained(f: Frame) { f.topic == "trace" && f.kind == "event" }

  function DrainsIn(frames: seq<Frame>): seq<Drain> {
    if frames == [] then []
    else
      var f := frames[|frames| - 1];
      DrainsIn(frames[..|frames| - 1]) + if Drained(f) then [Drain(f.Newest(), f.Ts())] else []
  }

  /** One drain for each trace event and none for any other frame, with its span's end
      and its own timestamp, or zero where it has none. */
  lemma {:induction false} DrainsAre(frames: seq<Frame>, d: Drain)
    ensures d in DrainsIn(frames) <==>
            exists i :: 0 <= i < |frames| && frames[i].topic == "trace" && frames[i].kind == "event" && DrainedAt(frames[i], d)
    decreases |frames|
  {
    if frames != [] {
      var n, rest := |frames| - 1, frames[..|frames| - 1];
      DrainsAre(rest, d);
      assert frames == rest + [frames[n]];
      assert forall i :: 0 <= i < n ==> frames[i] == rest[i];
      if DrainedAt(frames[n], d) { assert d == Drain(frames[n].Newest(), frames[n].Ts()); }
    }
  }

  predicate DrainedAt(f: Frame, d: Drain) {
    && (match f.span case Some(end) => d.to == end case None => d.to == 0)
    && (match f.stamp case Some(at) => d.ts == at case None => d.ts == 0)
  }

  method DrainsOf(frames: seq<Frame>) returns (drains: seq<Drain>)
    ensures InOrder(drains) && multiset(drains) == multiset(DrainsIn(frames))
  {
    drains := [];
    for i := 0 to |frames|
      invariant InOrder(drains) && multiset(drains) == multiset(DrainsIn(frames[..i]))
    {
      assert frames[..i + 1][..i] == frames[..i];
      if Drained(frames[i]) {
        drains := Insert(drains, Drain(frames[i].Newest(), frames[i].Ts()), Before);
      }
    }
    assert frames[..|frames|] == frames;
  }

  /** The first drain, in drain order, that took a record stamped `cntpct` in. */
  ghost predicate First(drains: seq<Drain>, cntpct: nat, e: Drain) {
    e in drains && e.to >= cntpct && forall d :: d in drains && d.to >= cntpct ==> Before(e, d)
  }

  /** The bisection finds the least drain, in drain order, to reach `cntpct`; past them
      all it answers the last frame's time. */
  method WireTs(frames: seq<Frame>, drains: seq<Drain>, cntpct: nat) returns (ts: nat)
    requires InOrder(drains)
    ensures (exists d :: d in drains && d.to >= cntpct) ==> exists e :: First(drains, cntpct, e) && e.ts == ts
    ensures (forall d :: d in drains ==> d.to < cntpct) ==> ts == if frames == [] then 0 else frames[|frames| - 1].Ts()
  {
    var low, high := 0, |drains|;
    while low < high
      invariant 0 <= low <= high <= |drains|
      invariant forall k :: 0 <= k < low ==> drains[k].to < cntpct
      invariant forall k :: high <= k < |drains| ==> drains[k].to >= cntpct
    {
      var middle := (low + high) / 2;
      if drains[middle].to < cntpct {
        low := middle + 1;
      } else {
        high := middle;
      }
    }
    if low < |drains| {
      ts := drains[low].ts;
      assert First(drains, cntpct, drains[low]);
    } else {
      ts := if frames == [] then 0 else frames[|frames| - 1].Ts();
    }
  }

  /** Over a run whose drains reach further as time goes on, that is the earliest
      frame by which the record had been handed over. */
  lemma FirstToReach(stream: seq<Drain>, drains: seq<Drain>, cntpct: nat, e: Drain, d: Drain)
    requires multiset(drains) == multiset(stream) && First(drains, cntpct, e) && d in drains && d.to >= cntpct
    requires forall i, j :: 0 <= i < j < |stream| ==> stream[i].to <= stream[j].to && stream[i].ts <= stream[j].ts
    ensures e.ts <= d.ts
  {
    var i := Placed(stream, drains, e);
    var j := Placed(stream, drains, d);
    assert Before(e, d);
  }

  lemma Placed(stream: seq<Drain>, drains: seq<Drain>, x: Drain) returns (i: nat)
    requires multiset(drains) == multiset(stream) && x in drains
    ensures i < |stream| && stream[i] == x
  {
    assert x in multiset(drains);
    assert x in multiset(stream);
    i :| 0 <= i < |stream| && stream[i] == x;
  }
}
