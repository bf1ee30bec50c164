/** A ring buffer that keeps the newest records sorted by timestamp, whatever order
    they come in. */
module Histories {
  import opened Words

  type Payload = seq<byte>
  datatype Record = Record(ts: nat, payload: Payload)

  // --- What the ring stands for ---------------------------------------------------

  function LastN<T>(s: seq<T>, n: nat): (r: seq<T>)
    ensures |r| == if |s| <= n then |s| else n
  {
    if |s| <= n then s else s[|s| - n..]
  }

  ghost predicate InTime(s: seq<Record>) {
    forall i, j :: 0 <= i < j < |s| ==> s[i].ts <= s[j].ts
  }

  /** Where a record of this time belongs: after the last one not newer. */
  function Place(s: seq<Record>, ts: nat): (p: nat)
    ensures p <= |s|
  {
    if s == [] || s[|s| - 1].ts <= ts then |s| else Place(s[..|s| - 1], ts)
  }

  function Inserted(s: seq<Record>, r: Record): seq<Record> {
    s[..Place(s, r.ts)] + [r] + s[Place(s, r.ts)..]
  }

  lemma {:induction false} PlaceSplits(s: seq<Record>, ts: nat)
    requires InTime(s)
    ensures forall i :: 0 <= i < |s| ==> (i < Place(s, ts) <==> s[i].ts <= ts)
  {
    if s != [] && s[|s| - 1].ts > ts {
      PlaceSplits(s[..|s| - 1], ts);
    }
  }

  lemma PlaceIs(s: seq<Record>, ts: nat, p: nat)
    requires InTime(s) && p <= |s|
    requires forall i :: 0 <= i < |s| ==> (i < p <==> s[i].ts <= ts)
    ensures Place(s, ts) == p
  {
    PlaceSplits(s, ts);
    var q := Place(s, ts);
    assert p < |s| ==> (p < q <==> s[p].ts <= ts);
    assert q < |s| ==> (q < p <==> s[q].ts <= ts);
  }

  lemma InsertedInTime(s: seq<Record>, r: Record)
    requires InTime(s)
    ensures InTime(Inserted(s, r))
  {
    PlaceSplits(s, r.ts);
  }

  /** Laying a record in and then forgetting, or the other way round. */
  lemma Spliced(s: seq<Record>, r: Record, p: nat, n: nat, t: seq<Record>, q: nat)
    requires p <= |s| && t == LastN(s, n) && q == if p < |s| - |t| then 0 else p - (|s| - |t|)
    ensures LastN(t[..q] + [r] + t[q..], n) == LastN(s[..p] + [r] + s[p..], n)
  {
    var cut := |s| - |t|;
    if cut == 0 {
      assert t == s;
    } else if p <= cut {
      SplicedBelow(s, r, p, cut);
      DropsTo(s[..p] + [r] + s[p..], n, cut + 1);
      DropsTo(t[..0] + [r] + t[0..], n, 1);
    } else {
      SplicedInside(s, r, p, cut);
      DropsTo(s[..p] + [r] + s[p..], n, cut + 1);
      DropsTo(t[..q] + [r] + t[q..], n, 1);
    }
  }

  lemma DropsTo(s: seq<Record>, n: nat, k: nat)
    requires |s| == n + k
    ensures LastN(s, n) == s[k..]
  {}

  lemma SplicedBelow(s: seq<Record>, r: Record, p: nat, cut: nat)
    requires p <= cut <= |s|
    ensures (s[..p] + [r] + s[p..])[cut + 1..] == s[cut..]
    ensures (s[cut..][..0] + [r] + s[cut..][0..])[1..] == s[cut..]
  {}

  lemma SplicedInside(s: seq<Record>, r: Record, p: nat, cut: nat)
    requires cut < p <= |s|
    ensures (s[..p] + [r] + s[p..])[cut + 1..] == s[cut + 1..p] + [r] + s[p..]
    ensures (s[cut..][..p - cut] + [r] + s[cut..][p - cut..])[1..] == s[cut + 1..p] + [r] + s[p..]
  {}

  /** Forgetting before the insertion loses nothing that forgetting after it keeps. */
  lemma ForgetFirst(s: seq<Record>, r: Record, n: nat)
    requires InTime(s)
    ensures LastN(Inserted(LastN(s, n), r), n) == LastN(Inserted(s, r), n)
  {
    var cut := |s| - |LastN(s, n)|;
    var p := Place(s, r.ts);
    var q := if p < cut then 0 else p - cut;
    PlaceOfLast(s, r.ts, n, p, q);
    Spliced(s, r, p, n, LastN(s, n), q);
  }

  lemma PlaceOfLast(s: seq<Record>, ts: nat, n: nat, p: nat, q: nat)
    requires InTime(s) && p == Place(s, ts) && |LastN(s, n)| <= |s|
    requires var cut := |s| - |LastN(s, n)|; q == if p < cut then 0 else p - cut
    ensures Place(LastN(s, n), ts) == q
  {
    PlaceSplits(s, ts);
    PlaceIs(LastN(s, n), ts, q);
  }

  // --- The log, sorted ------------------------------------------------------------------

  /** A record and when it arrived. */
  datatype Arrival = Arrival(record: Record, order: nat)

  predicate Earlier(x: Arrival, y: Arrival) {
    x.record.ts < y.record.ts || (x.record.ts == y.record.ts && x.order < y.order)
  }

  function Arrivals(log: seq<Record>): seq<Arrival> {
    seq(|log|, i requires 0 <= i < |log| => Arrival(log[i], i))
  }

  function Records(s: seq<Arrival>): (r: seq<Record>)
    ensures |r| == |s|
  {
    seq(|s|, i requires 0 <= i < |s| => s[i].record)
  }

  /** The whole log with each record inserted as it came. */
  function Sorted(log: seq<Record>): seq<Record> {
    if log == [] then [] else Inserted(Sorted(log[..|log| - 1]), log[|log| - 1])
  }

  lemma {:induction false} SortedInTime(log: seq<Record>)
    ensures InTime(Sorted(log)) && |Sorted(log)| == |log|
  {
    if log != [] {
      SortedInTime(log[..|log| - 1]);
      InsertedInTime(Sorted(log[..|log| - 1]), log[|log| - 1]);
    }
  }

  ghost predicate Ordered(s: seq<Arrival>) {
    forall i, j :: 0 <= i < j < |s| ==> Earlier(s[i], s[j])
  }

  /** Sorting keeps every record once, by time and then by arrival. */
  lemma {:induction false} SortedIsStable(log: seq<Record>) returns (order: seq<Arrival>)
    ensures Ordered(order) && multiset(order) == multiset(Arrivals(log)) && Records(order) == Sorted(log)
    ensures forall k :: 0 <= k < |order| ==> order[k].order < |log|
    decreases |log|
  {
    if log == [] {
      order := [];
    } else {
      var rest, last := log[..|log| - 1], log[|log| - 1];
      var before := SortedIsStable(rest);
      SortedInTime(rest);
      var p := Place(Sorted(rest), last.ts);
      PlaceSplits(Sorted(rest), last.ts);
      var newest := Arrival(last, |rest|);
      order := before[..p] + [newest] + before[p..];
      StaysOrdered(before, p, newest, Sorted(rest));
      OneMore(before, p, newest, Sorted(rest));
      OrdersBelow(before, p, newest);
      assert Arrivals(log) == Arrivals(rest) + [newest];
    }
  }

  lemma OrdersBelow(s: seq<Arrival>, p: nat, newest: Arrival)
    requires p <= |s| && forall k :: 0 <= k < |s| ==> s[k].order < newest.order
    ensures var t := s[..p] + [newest] + s[p..]; forall k :: 0 <= k < |t| ==> t[k].order < newest.order + 1
  {}

  lemma OneMore(s: seq<Arrival>, p: nat, newest: Arrival, plain: seq<Record>)
    requires p <= |s| && Records(s) == plain
    ensures multiset(s[..p] + [newest] + s[p..]) == multiset(s + [newest])
    ensures Records(s[..p] + [newest] + s[p..]) == plain[..p] + [newest.record] + plain[p..]
  {
    assert s == s[..p] + s[p..];
  }

  lemma StaysOrdered(s: seq<Arrival>, p: nat, newest: Arrival, plain: seq<Record>)
    requires Ordered(s) && p <= |s| && Records(s) == plain
    requires forall k :: 0 <= k < |s| ==> s[k].order < newest.order
    requires forall k :: 0 <= k < |plain| ==> (k < p <==> plain[k].ts <= newest.record.ts)
    ensures Ordered(s[..p] + [newest] + s[p..])
  {
    forall k | 0 <= k < |s| ensures k < p <==> s[k].record.ts <= newest.record.ts {
      assert plain[k] == s[k].record;
    }
  }

  // --- The ring ---------------------------------------------------------------------------

  /** The slot a count selects: whole laps come off. */
  function Lap(j: nat, cap: nat): (k: nat)
    requires cap > 0
    ensures k < cap
    decreases j
  {
    if j < cap then j else Lap(j - cap, cap)
  }

  lemma {:induction false} LapIsMod(j: nat, cap: nat)
    requires cap > 0
    ensures Lap(j, cap) == j % cap
    decreases j
  {
    if j < cap {
      ModUnique(j, 0, j, cap);
    } else {
      LapIsMod(j - cap, cap);
      ModShift(j - cap, 1, cap);
    }
  }

  lemma LapsDistinct(i: nat, j: nat, cap: nat)
    requires cap > 0 && i < j < i + cap
    ensures Lap(i, cap) != Lap(j, cap)
  {
    LapIsMod(i, cap);
    LapIsMod(j, cap);
    SlotsDistinct(i, j, cap);
  }

  /** The ring's last lap is the last lap of this stream. */
  ghost predicate Tracks(buf: seq<Record>, head: nat, stream: seq<Record>) {
    && |stream| == head && |buf| > 0
    && forall j :: 0 <= j < head && head <= j + |buf| ==> SlotHolds(buf, j, stream[j])
  }

  ghost predicate SlotHolds(buf: seq<Record>, j: nat, r: Record)
    requires |buf| > 0
  {
    buf[Lap(j, |buf|)] == r
  }

  /** The stream a ring is, read round and round: the slots an unwinding re-reads. */
  ghost function Unrolled(buf: seq<Record>, head: nat): (stream: seq<Record>)
    requires |buf| > 0
    ensures Tracks(buf, head, stream)
  {
    seq(head, j requires 0 <= j < head => buf[Lap(j, |buf|)])
  }

  /** The records a ring retains, oldest first. */
  ghost function Retained(buf: seq<Record>, head: nat): seq<Record>
    requires |buf| > 0
  {
    LastN(Unrolled(buf, head), |buf|)
  }

  lemma TracksRetained(buf: seq<Record>, head: nat, stream: seq<Record>)
    requires Tracks(buf, head, stream)
    ensures Retained(buf, head) == LastN(stream, |buf|)
  {
    var n := |LastN(stream, |buf|)|;
    forall i | 0 <= i < n ensures Retained(buf, head)[i] == LastN(stream, |buf|)[i] {
      assert SlotHolds(buf, head - n + i, stream[head - n + i]);
    }
  }

  lemma Pushed(buf: seq<Record>, head: nat, stream: seq<Record>, r: Record)
    requires Tracks(buf, head, stream)
    ensures Tracks(buf[Lap(head, |buf|) := r], head + 1, stream + [r])
  {
    var after := buf[Lap(head, |buf|) := r];
    forall j | 0 <= j < head + 1 && head + 1 <= j + |buf| ensures SlotHolds(after, j, (stream + [r])[j]) {
      if j < head {
        LapsDistinct(j, head, |buf|);
        assert SlotHolds(buf, j, stream[j]);
      }
    }
  }

  /** Unwinding to `h` writes nothing, so what is left still is the stream's start. */
  lemma Unwound(buf: seq<Record>, head: nat, h: nat)
    requires |buf| > 0 && h <= head
    ensures Tracks(buf, h, Unrolled(buf, head)[..h])
  {}

  function Reversed(s: seq<Record>): (r: seq<Record>)
    ensures |r| == |s|
  {
    seq(|s|, k requires 0 <= k < |s| => s[|s| - 1 - k])
  }

  lemma PutBackIs(stream: seq<Record>, h: nat, r: Record, later: seq<Record>)
    requires h <= |stream| && |later| == |stream| - h
    requires forall j :: h <= j < |stream| ==> later[|stream| - 1 - j] == stream[j]
    ensures stream[..h] + [r] + Reversed(later) == stream[..h] + [r] + stream[h..]
  {
    ReversedIs(stream, h, later);
  }

  lemma ReversedIs(stream: seq<Record>, h: nat, later: seq<Record>)
    requires h <= |stream| && |later| == |stream| - h
    requires forall j :: h <= j < |stream| ==> later[|stream| - 1 - j] == stream[j]
    ensures Reversed(later) == stream[h..]
  {
    var left, right := Reversed(later), stream[h..];
    assert |left| == |right|;
    forall k | 0 <= k < |left| ensures left[k] == right[k] {
      assert left[k] == later[|later| - 1 - k] && right[k] == stream[h + k];
      assert later[|stream| - 1 - (h + k)] == stream[h + k];
    }
  }

  /** Everything from h on was newer than `ts`, the record before is not, and `later`
      is what was newer, newest first. */
  ghost predicate Lifted(stream: seq<Record>, top: nat, h: nat, ts: nat, later: seq<Record>) {
    && h <= top == |stream| && |later| == top - h
    && (forall j :: h <= j < top ==> later[top - 1 - j] == stream[j] && stream[j].ts > ts)
    && (h > 0 ==> stream[h - 1].ts <= ts)
  }

  lemma LandedBack(was: seq<Record>, top: nat, h: nat, r: Record, later: seq<Record>, now: seq<Record>)
    requires |was| > 0 && |now| == |was| > 0 && InTime(Retained(was, top))
    requires Lifted(Unrolled(was, top), top, h, r.ts, later)
    requires Tracks(now, top + 1, Unrolled(was, top)[..h] + [r] + Reversed(later))
    ensures InTime(Retained(now, top + 1)) && Retained(now, top + 1) == LastN(Inserted(Retained(was, top), r), |was|)
  {
    PutBackIs(Unrolled(was, top), h, r, later);
    Landed(was, top, h, r, now);
  }

  lemma Landed(was: seq<Record>, top: nat, h: nat, r: Record, now: seq<Record>)
    requires |now| == |was| > 0 && h <= top && InTime(Retained(was, top))
    requires forall j :: h <= j < top ==> Unrolled(was, top)[j].ts > r.ts
    requires h > 0 ==> Unrolled(was, top)[h - 1].ts <= r.ts
    requires Tracks(now, top + 1, Unrolled(was, top)[..h] + [r] + Unrolled(was, top)[h..])
    ensures InTime(Retained(now, top + 1)) && Retained(now, top + 1) == LastN(Inserted(Retained(was, top), r), |was|)
  {
    TracksRetained(now, top + 1, Unrolled(was, top)[..h] + [r] + Unrolled(was, top)[h..]);
    UnwoundPlace(was, top, h, r);
    InsertedInTime(Retained(was, top), r);
  }

  /** A record not older than the newest goes on the end. */
  lemma PushedNewest(buf: seq<Record>, head: nat, r: Record)
    requires |buf| > 0 && InTime(Retained(buf, head))
    requires head > 0 ==> buf[Lap(head - 1, |buf|)].ts <= r.ts
    ensures var after := Retained(buf[Lap(head, |buf|) := r], head + 1);
            InTime(after) && after == LastN(Inserted(Retained(buf, head), r), |buf|)
  {
    var stream := Unrolled(buf, head);
    Pushed(buf, head, stream, r);
    TracksRetained(buf[Lap(head, |buf|) := r], head + 1, stream + [r]);
    assert stream[..head] + [r] + stream[head..] == stream + [r];
    UnwoundPlace(buf, head, head, r);
    InsertedInTime(Retained(buf, head), r);
  }

  /** Every slot of a full ring retains something: what a lap re-reads is retained. */
  lemma UnrolledIsRetained(buf: seq<Record>, head: nat, j: nat) returns (i: nat)
    requires |buf| > 0 && j < head
    ensures i < |Retained(buf, head)| && Retained(buf, head)[i] == Unrolled(buf, head)[j]
    decreases head - j
  {
    var n := |Retained(buf, head)|;
    if head - n <= j {
      i := j - (head - n);
    } else {
      i := UnrolledIsRetained(buf, head, j + |buf|);
    }
  }

  /** Where the unwinding stopped, seen from the records retained: inside them at
      their own place, or below them all. */
  lemma UnwoundPlace(buf: seq<Record>, head: nat, h: nat, r: Record)
    requires |buf| > 0 && h <= head && InTime(Retained(buf, head))
    requires forall j :: h <= j < head ==> Unrolled(buf, head)[j].ts > r.ts
    requires h > 0 ==> Unrolled(buf, head)[h - 1].ts <= r.ts
    ensures LastN(Unrolled(buf, head)[..h] + [r] + Unrolled(buf, head)[h..], |buf|) ==
            LastN(Inserted(Retained(buf, head), r), |buf|)
  {
    var cut := head - |Retained(buf, head)|;
    if h < cut && h > 0 {
      NothingOlder(buf, head, h, r);
    }
    StoppedAt(Unrolled(buf, head), |buf|, h, r);
    Spliced(Unrolled(buf, head), r, h, |buf|, Retained(buf, head), if h < cut then 0 else h - cut);
  }

  lemma StoppedAt(stream: seq<Record>, n: nat, h: nat, r: Record)
    requires h <= |stream| && InTime(LastN(stream, n)) && |LastN(stream, n)| <= |stream|
    requires forall j :: h <= j < |stream| ==> stream[j].ts > r.ts
    requires h > 0 ==> stream[h - 1].ts <= r.ts
    ensures var cut := |stream| - |LastN(stream, n)|;
            Place(LastN(stream, n), r.ts) == if h < cut then 0 else h - cut
  {
    var kept := LastN(stream, n);
    var cut := |stream| - |kept|;
    var p := if h < cut then 0 else h - cut;
    assert kept == stream[cut..];
    forall i | 0 <= i < |kept| ensures i < p <==> kept[i].ts <= r.ts {
      if i < p - 1 {
        assert kept[i].ts <= kept[p - 1].ts;
      }
    }
    PlaceIs(kept, r.ts, p);
  }

  /** A lap below the retained records re-reads one of them, and all were newer. */
  lemma NothingOlder(buf: seq<Record>, head: nat, h: nat, r: Record)
    requires |buf| > 0 && 0 < h < head - |Retained(buf, head)|
    requires forall j :: h <= j < head ==> Unrolled(buf, head)[j].ts > r.ts
    ensures Unrolled(buf, head)[h - 1].ts > r.ts
  {
    var i := UnrolledIsRetained(buf, head, h - 1);
    assert Retained(buf, head)[i] == Unrolled(buf, head)[head - |Retained(buf, head)| + i];
  }

  // --- The window asked about -----------------------------------------------------------

  function Between(s: seq<Record>, first: int, last: int): seq<Record> {
    if s == [] then []
    else
      var r := s[|s| - 1];
      Between(s[..|s| - 1], first, last) + if first <= r.ts <= last then [r] else []
  }

  /** How many are older: a scan from the start. */
  function Older(s: seq<Record>, ts: int): nat {
    if s == [] then 0 else Older(s[..|s| - 1], ts) + if s[|s| - 1].ts < ts then 1 else 0
  }

  lemma {:induction false} OlderIs(s: seq<Record>, ts: int, n: nat)
    requires n <= |s|
    requires forall i :: 0 <= i < n ==> s[i].ts < ts
    requires forall i :: n <= i < |s| ==> s[i].ts >= ts
    ensures Older(s, ts) == n
    decreases |s|
  {
    if s != [] {
      OlderIs(s[..|s| - 1], ts, if n == |s| then n - 1 else n);
    }
  }

  lemma {:induction false} BetweenIs(s: seq<Record>, first: int, last: int, start: nat, stop: nat)
    requires start <= |s| && stop <= |s|
    requires forall i :: 0 <= i < |s| ==> (i < start <==> s[i].ts < first)
    requires forall i :: 0 <= i < |s| ==> (i < stop <==> s[i].ts <= last)
    ensures Between(s, first, last) == if start < stop then s[start..stop] else []
    decreases |s|
  {
    if s != [] {
      var rest := s[..|s| - 1];
      var low, high := if start == |s| then start - 1 else start, if stop == |s| then stop - 1 else stop;
      BetweenIs(rest, first, last, low, high);
      if start < stop && stop == |s| {
        LastOf(s, start);
      }
    }
  }

  lemma LastOf(s: seq<Record>, start: nat)
    requires start < |s|
    ensures s[start..|s|] == s[..|s| - 1][start..|s| - 1] + [s[|s| - 1]]
  {}

  ghost predicate AllOlder(s: seq<Record>, n: nat, ts: int)
    requires n <= |s|
  {
    forall i :: 0 <= i < n ==> s[i].ts < ts
  }

  ghost predicate NoneOlder(s: seq<Record>, n: nat, ts: int) {
    forall i :: n <= i < |s| ==> s[i].ts >= ts
  }

  ghost predicate SplitAt(s: seq<Record>, n: nat, ts: int)
    requires n <= |s|
  {
    AllOlder(s, n, ts) && NoneOlder(s, n, ts)
  }

  /** Where the bisection lands is what a scan from the start counts. */
  lemma BisectIsScan(s: seq<Record>, n: nat, ts: int)
    requires n <= |s|
    requires SplitAt(s, n, ts)
    ensures n == Older(s, ts)
  {
    OlderIs(s, ts, n);
  }

  lemma Halved(s: seq<Record>, middle: nat, ts: int)
    requires InTime(s) && middle < |s|
    ensures if s[middle].ts < ts then AllOlder(s, middle + 1, ts) else NoneOlder(s, middle, ts)
  {}

  lemma WindowIs(s: seq<Record>, first: int, last: int, start: nat, stop: nat)
    requires start <= |s| && stop <= |s| && SplitAt(s, start, first) && SplitAt(s, stop, last + 1)
    ensures Between(s, first, last) == if start < stop then s[start..stop] else []
  {
    BetweenIs(s, first, last, start, stop);
  }

  // --- The ring as it runs ------------------------------------------------------------------

  datatype Held = Held(first: nat, last: nat, count: nat, full: bool)

  class History {
    const capacity: nat
    const buf: array<Record>
    var head: nat

    ghost predicate Valid()
      reads this, buf
    {
      capacity > 0 && buf.Length == capacity && InTime(Contents())
    }

    ghost function Contents(): seq<Record>
      reads this, buf
      requires buf.Length > 0
    {
      Retained(buf[..], head)
    }

    constructor (capacity: nat)
      requires capacity >= 1
      ensures Valid() && fresh(buf) && this.capacity == capacity && head == 0 && Contents() == []
    {
      this.capacity := capacity;
      buf := new Record[capacity](_ => Record(0, []));
      head := 0;
    }

    method Reset()
      requires Valid()
      modifies this
      ensures Valid() && Contents() == [] && head == 0
    {
      head := 0;
    }

    function Len(): nat
      reads this
    {
      if head < capacity then head else capacity
    }

    /** The buffer slot of a retained record, counted from the oldest. */
    function Slot(index: nat): (k: nat)
      reads this
      requires capacity > 0 && index < Len()
      ensures k == Lap(head - Len() + index, capacity)
    {
      LapIsMod(head - Len() + index, capacity);
      (head - Len() + index) % capacity
    }

    method At(index: nat) returns (r: Record)
      requires Valid() && index < Len()
      ensures r == Contents()[index]
    {
      r := buf[Slot(index)];
    }

    method Push(r: Record)
      requires capacity > 0 && buf.Length == capacity
      modifies this, buf
      ensures head == old(head) + 1
      ensures buf[..] == old(buf[..])[Lap(old(head), capacity) := r]
    {
      LapIsMod(head, capacity);
      buf[head % capacity] := r;
      head := head + 1;
    }

    /** Lift the records newer than `ts`, newest first, off the end of the ring. */
    method Lift(ts: nat) returns (later: seq<Record>)
      requires capacity > 0 && buf.Length == capacity
      modifies this`head
      ensures Lifted(Unrolled(buf[..], old(head)), old(head), head, ts, later)
    {
      ghost var stream, top := Unrolled(buf[..], head), head;
      later := [];
      while Len() > 0 && Newest().ts > ts
        invariant head <= top && |later| == top - head
        invariant forall j :: head <= j < top ==> later[top - 1 - j] == stream[j] && stream[j].ts > ts
        decreases head
      {
        later := later + [Newest()];
        head := head - 1;
      }
    }

    /** The newest record retained, read back out of the ring. */
    function Newest(): (r: Record)
      reads this, buf
      requires capacity > 0 && buf.Length == capacity && Len() > 0
      ensures r == buf[Lap(head - 1, capacity)]
    {
      assert head - Len() + (Len() - 1) == head - 1;
      buf[Slot(Len() - 1)]
    }

    /** Inserting into the wrapping buffer is inserting into its contents and forgetting
        the oldest past the capacity. */
    method Insert(record: Record)
      requires Valid()
      modifies this, buf
      ensures Valid() && head == old(head) + 1
      ensures Contents() == LastN(Inserted(old(Contents()), record), capacity)
    {
      ghost var was, top := buf[..], head;
      if Len() == 0 || record.ts >= Newest().ts {
        Push(record);
        PushedNewest(was, top, record);
      } else {
        InsertUnder(record);
      }
    }

    method InsertUnder(record: Record)
      requires Valid()
      modifies this, buf
      ensures Valid() && head == old(head) + 1
      ensures Contents() == LastN(Inserted(old(Contents()), record), capacity)
    {
      ghost var was, top := buf[..], head;
      var later := Lift(record.ts);
      LayUnder(record, later, was, top);
    }

    /** With the newer records lifted: this one, and they over it. */
    method LayUnder(record: Record, later: seq<Record>, ghost was: seq<Record>, ghost top: nat)
      requires capacity > 0 && buf.Length == capacity && buf[..] == was && InTime(Retained(was, top))
      requires Lifted(Unrolled(was, top), top, head, record.ts, later)
      modifies this, buf
      ensures Valid() && head == top + 1
      ensures Contents() == LastN(Inserted(Retained(was, top), record), capacity)
    {
      ghost var h, stream := head, Unrolled(was, top);
      Unwound(was, top, h);
      Pushed(was, h, stream[..h], record);
      Push(record);
      PutBack(later, stream[..h] + [record]);
      LandedBack(was, top, h, record, later, buf[..]);
    }

    method PutBack(later: seq<Record>, ghost under: seq<Record>)
      requires capacity > 0 && buf.Length == capacity && Tracks(buf[..], head, under)
      modifies this, buf
      ensures head == old(head) + |later| && Tracks(buf[..], head, under + Reversed(later))
    {
      var i := |later|;
      assert under == under + Reversed(later[|later|..]);
      while i > 0
        invariant 0 <= i <= |later| && head == old(head) + (|later| - i)
        invariant Tracks(buf[..], head, under + Reversed(later[i..]))
      {
        i := i - 1;
        Pushed(buf[..], head, under + Reversed(later[i + 1..]), later[i]);
        assert later[i..] == [later[i]] + later[i + 1..];
        assert under + Reversed(later[i..]) == under + Reversed(later[i + 1..]) + [later[i]];
        Push(later[i]);
      }
      assert later[0..] == later;
    }

    /** The index splits the contents: earlier before it, `ts` or later from it on. */
    method Bisect(ts: int) returns (low: nat)
      requires Valid()
      ensures low <= |Contents()| && SplitAt(Contents(), low, ts)
    {
      ghost var kept := Contents();
      low := 0;
      var high := Len();
      while low < high
        invariant low <= high <= |kept| && kept == Contents()
        invariant AllOlder(kept, low, ts) && NoneOlder(kept, high, ts)
      {
        var middle := (low + high) / 2;
        var r := At(middle);
        Halved(kept, middle, ts);
        if r.ts < ts {
          low := middle + 1;
        } else {
          high := middle;
        }
      }
    }

    /** `count` slots from `from` on, in whole pieces. */
    method Copied(from: nat, count: nat) returns (out: seq<Record>)
      requires capacity > 0 && buf.Length == capacity && from < capacity && count <= capacity
      ensures var ahead := if count < capacity - from then count else capacity - from;
              out == buf[..][from..from + ahead] + buf[..][..count - ahead]
    {
      var ahead := if count < capacity - from then count else capacity - from;
      out := buf[from..from + ahead];
      if ahead < count {
        out := out + buf[..count - ahead];
      }
    }

    method Bounds(first: int, last: int) returns (start: nat, stop: nat)
      requires Valid()
      ensures start <= |Contents()| && stop <= |Contents()|
      ensures Between(Contents(), first, last) == if start < stop then Contents()[start..stop] else []
    {
      ghost var was := buf[..];
      start := Bisect(first);
      assert buf[..] == was;
      stop := Bisect(last + 1);
      assert buf[..] == was;
      WindowIs(Retained(was, head), first, last, start, stop);
    }

    /** The records of this window, in one piece or in two across the seam. */
    method Slice(first: int, last: int) returns (out: seq<Record>)
      requires Valid()
      ensures out == Between(Contents(), first, last)
    {
      var start, stop := Bounds(first, last);
      out := if start >= stop then [] else CopyOut(start, stop - start);
    }

    /** A run of retained records, copied from the ring in whole pieces. */
    function CopyOut(start: nat, count: nat): (out: seq<Record>)
      reads this, buf
      requires capacity > 0 && buf.Length == capacity && start + count <= |Contents()| && count > 0
      ensures out == Contents()[start..start + count]
    {
      var from := Slot(start);
      var ahead := if count < capacity - from then count else capacity - from;
      TwoPieces(buf[..], head, start, count, from, ahead);
      assert buf[..][from..from + ahead] == buf[from..from + ahead];
      assert buf[..][..count - ahead] == buf[..count - ahead];
      buf[from..from + ahead] + if ahead < count then buf[..count - ahead] else []
    }

    method Span() returns (held: Held)
      requires Valid()
      ensures held.count == |Contents()| && held.full == (head > capacity)
      ensures Contents() == [] ==> held.first == 0 && held.last == 0
      ensures Contents() != [] ==> held.first == Contents()[0].ts && held.last == Contents()[|Contents()| - 1].ts
    {
      if Len() == 0 {
        return Held(0, 0, 0, false);
      }
      var oldest := At(0);
      var newest := At(Len() - 1);
      return Held(oldest.ts, newest.ts, Len(), head > capacity);
    }

    method Append(records: seq<Record>)
      requires Valid()
      modifies this, buf
      ensures Valid() && head == old(head) + |records|
      ensures Contents() == AppendAll(old(Contents()), records, capacity)
    {
      for i := 0 to |records|
        invariant Valid() && head == old(head) + i
        invariant Contents() == AppendAll(old(Contents()), records[..i], capacity)
      {
        assert records[..i + 1][..i] == records[..i];
        Insert(records[i]);
      }
      assert records[..|records|] == records;
    }
  }

  /** A retained run is contiguous in the ring, or wraps once. */
  lemma TwoPieces(buf: seq<Record>, head: nat, start: nat, count: nat, from: nat, ahead: nat)
    requires |buf| > 0 && start + count <= |Retained(buf, head)|
    requires from == Lap(head - |Retained(buf, head)| + start, |buf|)
    requires ahead == if count < |buf| - from then count else |buf| - from
    ensures Retained(buf, head)[start..start + count] == buf[from..from + ahead] + buf[..count - ahead]
  {
    var piece := Retained(buf, head)[start..start + count];
    var joined := buf[from..from + ahead] + buf[..count - ahead];
    assert |piece| == |joined| == count;
    forall i | 0 <= i < count ensures piece[i] == joined[i] {
      PieceAt(buf, head, start, count, from, ahead, i);
    }
  }

  lemma PieceAt(buf: seq<Record>, head: nat, start: nat, count: nat, from: nat, ahead: nat, i: nat)
    requires |buf| > 0 && start + count <= |Retained(buf, head)| && i < count
    requires from == Lap(head - |Retained(buf, head)| + start, |buf|)
    requires ahead == if count < |buf| - from then count else |buf| - from
    ensures Retained(buf, head)[start + i] == (buf[from..from + ahead] + buf[..count - ahead])[i]
  {
    RetainedAt(buf, head, start + i);
    Ahead(head - |Retained(buf, head)| + start, i, |buf|);
    OfPieces(buf, from, ahead, count, i);
  }

  lemma OfPieces(buf: seq<Record>, from: nat, ahead: nat, count: nat, i: nat)
    requires from < |buf| && i < count <= |buf| && ahead == if count < |buf| - from then count else |buf| - from
    ensures var at := if from + i < |buf| then from + i else from + i - |buf|;
            (buf[from..from + ahead] + buf[..count - ahead])[i] == buf[at]
  {}

  lemma RetainedAt(buf: seq<Record>, head: nat, j: nat)
    requires |buf| > 0 && j < |Retained(buf, head)|
    ensures Retained(buf, head)[j] == buf[Lap(head - |Retained(buf, head)| + j, |buf|)]
  {
    assert Retained(buf, head)[j] == Unrolled(buf, head)[head - |Retained(buf, head)| + j];
  }

  lemma {:induction false} Ahead(base: nat, i: nat, cap: nat)
    requires cap > 0 && i < cap
    ensures Lap(base + i, cap) == if Lap(base, cap) + i < cap then Lap(base, cap) + i else Lap(base, cap) + i - cap
    decreases base
  {
    if base >= cap {
      Ahead(base - cap, i, cap);
    }
  }

  function AppendAll(kept: seq<Record>, records: seq<Record>, cap: nat): seq<Record> {
    if records == [] then kept
    else LastN(Inserted(AppendAll(kept, records[..|records| - 1], cap), records[|records| - 1]), cap)
  }

  /** From empty, whatever the order and however many laps, the ring holds the
      `cap` last records of the log sorted by time and then by arrival. */
  lemma {:induction false} HoldsTheNewest(log: seq<Record>, cap: nat)
    ensures AppendAll([], log, cap) == LastN(Sorted(log), cap)
    decreases |log|
  {
    if log != [] {
      var rest := log[..|log| - 1];
      HoldsTheNewest(rest, cap);
      SortedInTime(rest);
      ForgetFirst(Sorted(rest), log[|log| - 1], cap);
    }
  }

  /** However a log is cut into batches, appending them is appending it whole. */
  lemma {:induction false} BatchesJoin(kept: seq<Record>, a: seq<Record>, b: seq<Record>, cap: nat)
    ensures AppendAll(AppendAll(kept, a, cap), b, cap) == AppendAll(kept, a + b, cap)
    decreases |b|
  {
    if b == [] {
      assert a + b == a;
    } else {
      BatchesJoin(kept, a, b[..|b| - 1], cap);
      assert (a + b)[..|a + b| - 1] == a + b[..|b| - 1];
    }
  }
}
