/** The life of a query: one running and one waiting for each connection and topic.

    Everything happens on one thread, so a schedule is a sequence of whole events:
    a request scheduled, a running query ending, a connection coming or going, the
    bridge closing. `asked` and `log` are history. */
module Dispatchers {
  import opened Words

  type Conn = nat

  /** A request is one object: two requests that read alike differ in `id`. */
  datatype Request = Request(id: nat, conn: Option<Conn>, topic: string)

  datatype Key = Key(conn: Option<Conn>, topic: string)

  datatype Slot = Slot(active: Request, replacement: Option<Request>)

  datatype How = Answered | Rejected | Cancelled | Superseded
  datatype Ended = Ended(request: Request, how: How)

  datatype State = State(
    queries: map<Key, Slot>, tasks: set<Request>, live: set<Conn>, closing: bool,
    asked: seq<Request>, log: seq<Ended>)

  datatype Event =
    | Ask(request: Request)
    | End(request: Request, how: How)
    | Connect(conn: Conn)
    | Disconnect(conn: Conn)
    | Close

  function KeyOf(r: Request): Key { Key(r.conn, r.topic) }

  /** request_live, with the connections there are now. */
  predicate Live(r: Request, live: set<Conn>) { r.conn.None? || r.conn.value in live }

  predicate Enabled(s: State, e: Event) {
    match e
    case Ask(r) => !s.closing && Live(r, s.live) && r !in s.asked
    case End(r, how) => r in s.tasks && !how.Superseded?
    case Connect(c) => !s.closing && c !in s.live && forall r :: r in s.asked ==> r.conn != Some(c)
    case Disconnect(c) => c in s.live
    case Close => !s.closing
  }

  // --- schedule_query, finish_query, disconnect_queries ---------------------------------

  function Scheduled(s: State, r: Request): State {
    var key := KeyOf(r);
    var t := s.(asked := s.asked + [r]);
    if key !in s.queries then t.(queries := s.queries[key := Slot(r, None)], tasks := s.tasks + {r})
    else
      var slot := s.queries[key];
      t.(queries := s.queries[key := slot.(replacement := Some(r))],
         log := if slot.replacement.Some? then s.log + [Ended(slot.replacement.value, Superseded)] else s.log)
  }

  /** The end of _run_query: what is published, then finish_query. */
  function Finished(s: State, r: Request, how: How): State {
    Released(s.(tasks := s.tasks - {r}, log := if Live(r, s.live) then s.log + [Ended(r, how)] else s.log), r)
  }

  /** The slot this request ran in goes to the one waiting, or goes. */
  function Released(s: State, r: Request): State {
    var key := KeyOf(r);
    if key !in s.queries || s.queries[key].active != r then s
    else
      var replacement := s.queries[key].replacement;
      if replacement.Some? && Live(replacement.value, s.live)
      then s.(queries := s.queries[key := Slot(replacement.value, None)], tasks := s.tasks + {replacement.value})
      else s.(queries := s.queries - {key})
  }

  function Without(queries: map<Key, Slot>, c: Conn): map<Key, Slot> {
    map key | key in queries && key.conn != Some(c) :: queries[key]
  }

  function Apply(s: State, e: Event): State
    requires Enabled(s, e)
  {
    match e
    case Ask(r) => Scheduled(s, r)
    case End(r, how) => Finished(s, r, how)
    case Connect(c) => s.(live := s.live + {c})
    case Disconnect(c) => s.(live := s.live - {c}, queries := Without(s.queries, c))
    case Close => s.(closing := true, queries := map[])
  }

  function Run(s: State, events: seq<Event>): Option<State>
    decreases |events|
  {
    if events == [] then Some(s)
    else if Enabled(s, events[0]) then Run(Apply(s, events[0]), events[1..])
    else None
  }

  const IDLE := State(map[], {}, {}, false, [], [])

  // --- What every schedule keeps ------------------------------------------------------------

  predicate Waits(s: State, r: Request) {
    KeyOf(r) in s.queries && s.queries[KeyOf(r)].replacement == Some(r)
  }

  function Outcomes(log: seq<Ended>, r: Request): nat {
    if log == [] then 0
    else Outcomes(log[..|log| - 1], r) + if log[|log| - 1].request == r then 1 else 0
  }

  /** In how many places a request is. */
  function Places(s: State, r: Request): nat {
    (if r in s.tasks then 1 else 0) + (if Waits(s, r) then 1 else 0) + Outcomes(s.log, r)
  }

  ghost predicate SlotsOk(s: State) {
    forall key :: key in s.queries ==>
      && KeyOf(s.queries[key].active) == key && s.queries[key].active in s.tasks
      && (s.queries[key].replacement.Some? ==> KeyOf(s.queries[key].replacement.value) == key)
  }

  /** Nothing runs for a live connection but the active query of its slot. */
  ghost predicate TasksOk(s: State) {
    forall r :: r in s.tasks && Live(r, s.live) ==> KeyOf(r) in s.queries && s.queries[KeyOf(r)].active == r
  }

  ghost predicate Conserved(s: State) {
    && (forall r :: r in s.asked && Live(r, s.live) ==> Places(s, r) == 1)
    && (forall r :: r !in s.asked ==> Places(s, r) == 0)
  }

  /** The request superseded was not the newest for its key. */
  predicate NewerAsked(asked: seq<Request>, r: Request) {
    exists i, j :: 0 <= i < j < |asked| && asked[i] == r && KeyOf(asked[j]) == KeyOf(r)
  }

  ghost predicate NewestKept(s: State) {
    forall k :: 0 <= k < |s.log| && s.log[k].how.Superseded? ==> NewerAsked(s.asked, s.log[k].request)
  }

  ghost predicate Inv(s: State) {
    (s.closing || (SlotsOk(s) && TasksOk(s) && Conserved(s))) && NewestKept(s)
  }

  lemma OutcomesSnoc(log: seq<Ended>, e: Ended, r: Request)
    ensures Outcomes(log + [e], r) == Outcomes(log, r) + if e.request == r then 1 else 0
  {
    assert (log + [e])[..|log|] == log;
  }

  lemma NewerStays(s: State, asked: seq<Request>)
    requires NewestKept(s) && s.asked <= asked
    ensures NewestKept(s.(asked := asked))
  {
    forall k | 0 <= k < |s.log| && s.log[k].how.Superseded? ensures NewerAsked(asked, s.log[k].request) {
      assert NewerAsked(s.asked, s.log[k].request);
      var i, j :| 0 <= i < j < |s.asked| && s.asked[i] == s.log[k].request && KeyOf(s.asked[j]) == KeyOf(s.log[k].request);
      assert asked[i] == s.asked[i] && asked[j] == s.asked[j];
    }
  }

  lemma AskConserves(s: State, r: Request)
    requires !s.closing && SlotsOk(s) && Conserved(s) && Enabled(s, Ask(r))
    ensures Conserved(Scheduled(s, r))
  {
    var t := Scheduled(s, r);
    assert Places(s, r) == 0;
    forall q ensures Places(t, q) == if q == r then 1 else Places(s, q) {
      if KeyOf(r) in s.queries && s.queries[KeyOf(r)].replacement.Some? {
        OutcomesSnoc(s.log, Ended(s.queries[KeyOf(r)].replacement.value, Superseded), q);
      }
    }
  }

  lemma AskNewest(s: State, r: Request)
    requires !s.closing && SlotsOk(s) && Conserved(s) && NewestKept(s) && Enabled(s, Ask(r))
    ensures NewestKept(Scheduled(s, r))
  {
    NewerStays(s, s.asked + [r]);
    if KeyOf(r) in s.queries && s.queries[KeyOf(r)].replacement.Some? {
      var earlier := s.queries[KeyOf(r)].replacement.value;
      assert Waits(s, earlier) && Places(s, earlier) > 0;
      assert earlier in s.asked;
      var i :| 0 <= i < |s.asked| && s.asked[i] == earlier;
      var asked := s.asked + [r];
      assert asked[i] == earlier && asked[|s.asked|] == r;
      assert NewerAsked(asked, earlier);
    }
  }

  /** Freeing a slot moves the one waiting in it to where it runs, or drops it with its
      connection. */
  lemma ReleaseKeeps(s: State, r: Request, q: Request)
    requires KeyOf(r) in s.queries && s.queries[KeyOf(r)].replacement.Some? ==>
               var next := s.queries[KeyOf(r)].replacement.value;
               KeyOf(next) == KeyOf(r) && if Live(next, s.live) then next !in s.tasks else q != next
    ensures Places(Released(s, r), q) == Places(s, q)
  {}

  /** Ending moves a request from where it runs to its outcome. */
  lemma EndKeeps(s: State, r: Request, how: How, q: Request)
    requires r in s.tasks && (q == r ==> Live(r, s.live))
    ensures var log := if Live(r, s.live) then s.log + [Ended(r, how)] else s.log;
            Places(s.(tasks := s.tasks - {r}, log := log), q) == Places(s, q)
  {
    OutcomesSnoc(s.log, Ended(r, how), q);
  }

  lemma EndConserves(s: State, r: Request, how: How)
    requires !s.closing && SlotsOk(s) && TasksOk(s) && Conserved(s) && Enabled(s, End(r, how))
    ensures Conserved(Finished(s, r, how))
  {
    forall q | Live(q, s.live) || q !in s.asked ensures Places(Finished(s, r, how), q) == Places(s, q) {
      EndPlaces(s, r, how, q);
    }
  }

  lemma EndPlaces(s: State, r: Request, how: How, q: Request)
    requires !s.closing && SlotsOk(s) && TasksOk(s) && Conserved(s) && Enabled(s, End(r, how))
    requires Live(q, s.live) || q !in s.asked
    ensures Places(Finished(s, r, how), q) == Places(s, q)
  {
    var log := if Live(r, s.live) then s.log + [Ended(r, how)] else s.log;
    var ended := s.(tasks := s.tasks - {r}, log := log);
    Running(s, r);
    EndKeeps(s, r, how, q);
    if KeyOf(r) in s.queries && s.queries[KeyOf(r)].replacement.Some? {
      Replacing(s, KeyOf(r));
    }
    ReleaseKeeps(ended, r, q);
  }

  lemma Running(s: State, r: Request)
    requires Conserved(s) && r in s.tasks
    ensures r in s.asked
  {
    assert r !in s.asked ==> Places(s, r) == 0;
  }

  /** What waits is a request of the same key that does not run. */
  lemma Replacing(s: State, key: Key)
    requires SlotsOk(s) && TasksOk(s) && Conserved(s) && key in s.queries && s.queries[key].replacement.Some?
    ensures var next := s.queries[key].replacement.value;
            KeyOf(next) == key && next in s.asked && (Live(next, s.live) ==> next !in s.tasks)
  {
    var next := s.queries[key].replacement.value;
    assert Waits(s, next) && Places(s, next) > 0;
  }

  lemma EndSlots(s: State, r: Request, how: How)
    requires !s.closing && SlotsOk(s) && TasksOk(s) && Conserved(s) && Enabled(s, End(r, how))
    ensures SlotsOk(Finished(s, r, how)) && TasksOk(Finished(s, r, how))
  {
    var t := Finished(s, r, how);
    forall key | key in t.queries
      ensures KeyOf(t.queries[key].active) == key && t.queries[key].active in t.tasks
      ensures t.queries[key].replacement.Some? ==> KeyOf(t.queries[key].replacement.value) == key
    {
      assert key in s.queries;
    }
  }

  lemma GoneConserves(s: State, c: Conn)
    requires !s.closing && SlotsOk(s) && Conserved(s) && Enabled(s, Disconnect(c))
    ensures Conserved(Apply(s, Disconnect(c)))
  {
    var t := Apply(s, Disconnect(c));
    forall q: Request | q.conn != Some(c) || q !in s.asked ensures Places(t, q) <= Places(s, q) {}
    forall q: Request | q.conn != Some(c) ensures Places(t, q) == Places(s, q) {}
  }

  lemma AskInv(s: State, r: Request)
    requires Inv(s) && Enabled(s, Ask(r))
    ensures Inv(Scheduled(s, r))
  {
    AskConserves(s, r);
    AskNewest(s, r);
  }

  lemma EndInv(s: State, r: Request, how: How)
    requires Inv(s) && Enabled(s, End(r, how))
    ensures Inv(Finished(s, r, how))
  {
    EndNewest(s, r, how);
    if !s.closing {
      EndConserves(s, r, how);
      EndSlots(s, r, how);
    }
  }

  lemma EndNewest(s: State, r: Request, how: How)
    requires NewestKept(s) && !how.Superseded?
    ensures NewestKept(Finished(s, r, how)) && Finished(s, r, how).closing == s.closing
  {
    var log := if Live(r, s.live) then s.log + [Ended(r, how)] else s.log;
    assert Finished(s, r, how).log == log && Finished(s, r, how).asked == s.asked;
  }

  lemma StepInv(s: State, e: Event)
    requires Inv(s) && Enabled(s, e)
    ensures Inv(Apply(s, e))
  {
    match e
    case Ask(r) => AskInv(s, r);
    case End(r, how) => EndInv(s, r, how);
    case Connect(c) =>
      ConnectInv(s, c);
    case Disconnect(c) =>
      if !s.closing { GoneConserves(s, c); }
    case Close =>
  }

  lemma ConnectInv(s: State, c: Conn)
    requires Inv(s) && Enabled(s, Connect(c))
    ensures Inv(Apply(s, Connect(c)))
  {
    var t := Apply(s, Connect(c));
    forall r | r in s.tasks ensures r in s.asked {
      assert r !in s.asked ==> Places(s, r) == 0;
    }
  }

  lemma {:induction false} RunInv(s: State, events: seq<Event>)
    requires Inv(s) && Run(s, events).Some?
    ensures Inv(Run(s, events).value)
    decreases |events|
  {
    if events != [] {
      StepInv(s, events[0]);
      RunInv(Apply(s, events[0]), events[1..]);
    }
  }

  // --- Main results ------------------------------------------------------------------------

  /** Over every schedule, while the bridge is open: a request on a live connection is
      running, or waiting, or has ended, in one of these and once; at most one runs
      for each key; the newest request for a key is never the one superseded. */
  lemma EveryQueryEndsOnce(events: seq<Event>)
    requires Run(IDLE, events).Some?
    ensures var s := Run(IDLE, events).value;
            && (!s.closing ==>
                  && (forall r :: r in s.asked && Live(r, s.live) ==> Places(s, r) == 1)
                  && (forall q, r :: q in s.tasks && r in s.tasks && KeyOf(q) == KeyOf(r) && Live(q, s.live) ==> q == r))
            && (forall k :: 0 <= k < |s.log| && s.log[k].how.Superseded? ==> NewerAsked(s.asked, s.log[k].request))
  {
    RunInv(IDLE, events);
  }

  /** So once nothing runs, every request on a live connection has exactly one
      outcome. */
  lemma AllAnswered(events: seq<Event>, r: Request)
    requires Run(IDLE, events).Some? && !Run(IDLE, events).value.closing && Run(IDLE, events).value.tasks == {}
    requires r in Run(IDLE, events).value.asked && Live(r, Run(IDLE, events).value.live)
    ensures Outcomes(Run(IDLE, events).value.log, r) == 1
  {
    RunInv(IDLE, events);
    var s := Run(IDLE, events).value;
    assert Places(s, r) == 1;
  }

  /** What is on the log happened: an outcome is the one its request's run ended with,
      or a later request for its key took its place. */
  predicate Happened(events: seq<Event>, e: Ended) {
    if e.how.Superseded? then exists i, j :: 0 <= i < j < |events| && Displaces(events[i], events[j], e.request)
    else End(e.request, e.how) in events
  }

  predicate Displaces(earlier: Event, later: Event, r: Request) {
    earlier == Ask(r) && later.Ask? && KeyOf(later.request) == KeyOf(r)
  }

  ghost predicate AllHappened(events: seq<Event>, s: State) {
    && (forall k :: 0 <= k < |s.log| ==> Happened(events, s.log[k]))
    && (forall key :: key in s.queries && s.queries[key].replacement.Some? ==> Ask(s.queries[key].replacement.value) in events)
  }

  lemma StillHappened(events: seq<Event>, last: Event, e: Ended)
    requires Happened(events, e)
    ensures Happened(events + [last], e)
  {
    var more := events + [last];
    if e.how.Superseded? {
      var i, j :| 0 <= i < j < |events| && Displaces(events[i], events[j], e.request);
      assert Displaces(more[i], more[j], e.request);
    }
  }

  lemma StepHappened(events: seq<Event>, s: State, e: Event)
    requires AllHappened(events, s) && Enabled(s, e)
    requires forall key :: key in s.queries && s.queries[key].replacement.Some? ==> KeyOf(s.queries[key].replacement.value) == key
    ensures AllHappened(events + [e], Apply(s, e))
  {
    var more, t := events + [e], Apply(s, e);
    forall k | 0 <= k < |t.log| ensures Happened(more, t.log[k]) {
      if k < |s.log| {
        assert t.log[k] == s.log[k];
        StillHappened(events, e, s.log[k]);
      } else if e.Ask? {
        var r := s.queries[KeyOf(e.request)].replacement.value;
        var i :| 0 <= i < |events| && events[i] == Ask(r);
        assert Displaces(more[i], more[|events|], r);
      } else {
        assert more[|events|] == e;
      }
    }
    assert e in more;
  }

  lemma {:induction false} RunHappened(done: seq<Event>, s: State, events: seq<Event>)
    requires Inv(s) && AllHappened(done, s) && (s.closing ==> s.queries == map[]) && Run(s, events).Some?
    ensures AllHappened(done + events, Run(s, events).value)
    decreases |events|
  {
    if events == [] {
      assert done + events == done;
    } else {
      StepHappened(done, s, events[0]);
      StepInv(s, events[0]);
      RunHappened(done + [events[0]], Apply(s, events[0]), events[1..]);
      assert done + [events[0]] + events[1..] == done + events;
    }
  }

  /** Over every schedule: each outcome on the log is how its request's run ended, or
      stands for a request that a later one for the same key displaced. */
  lemma OutcomesHappened(events: seq<Event>, k: nat)
    requires Run(IDLE, events).Some? && k < |Run(IDLE, events).value.log|
    ensures Happened(events, Run(IDLE, events).value.log[k])
  {
    RunHappened([], IDLE, events);
    assert [] + events == events;
  }

  /** And the other way: a run that ends puts its own outcome on the log, if anyone is
      there to read it; leaves; and whichever live request waited behind it runs. */
  lemma EndTells(events: seq<Event>, r: Request, how: How)
    requires Run(IDLE, events).Some? && !Run(IDLE, events).value.closing && Enabled(Run(IDLE, events).value, End(r, how))
    requires Live(r, Run(IDLE, events).value.live)
    ensures var s, t := Run(IDLE, events).value, Apply(Run(IDLE, events).value, End(r, how));
            && t.log == s.log + [Ended(r, how)] && r !in t.tasks
            && (forall q :: Waits(s, q) && KeyOf(q) == KeyOf(r) && Live(q, s.live) ==> q in t.tasks && !Waits(t, q))
  {
    RunInv(IDLE, events);
    var s, t := Run(IDLE, events).value, Apply(Run(IDLE, events).value, End(r, how));
    EndPlaces(s, r, how, r);
    Running(s, r);
    OutcomesSnoc(s.log, Ended(r, how), r);
    assert Places(s, r) == 1 && Places(t, r) == 1;
  }

  predicate KeyLive(key: Key, live: set<Conn>) { key.conn.None? || key.conn.value in live }

  ghost predicate LiveSlots(s: State) { forall key :: key in s.queries ==> KeyLive(key, s.live) }

  /** A connection that goes takes its slots along: over every schedule whatever holds a
      slot is for someone there, so nothing that waited for one gone ever runs. */
  lemma SlotsAreLive(events: seq<Event>)
    requires Run(IDLE, events).Some?
    ensures LiveSlots(Run(IDLE, events).value)
  {
    RunLive(IDLE, events);
  }

  lemma {:induction false} RunLive(s: State, events: seq<Event>)
    requires Inv(s) && LiveSlots(s) && Run(s, events).Some?
    ensures LiveSlots(Run(s, events).value)
    decreases |events|
  {
    if events != [] {
      var t := Apply(s, events[0]);
      forall key | key in t.queries ensures KeyLive(key, t.live) {
        assert key in s.queries || (events[0].Ask? && key == KeyOf(events[0].request));
      }
      StepInv(s, events[0]);
      RunLive(t, events[1..]);
    }
  }

  // --- The dispatcher as it runs ---------------------------------------------------------------

  /** `tasks` and `log` stand for what it was given: the spawner, and the two
      publishers of outcomes. */
  class Dispatcher {
    var queries: map<Key, Slot>
    var tasks: set<Request>
    var log: seq<Ended>
    ghost var asked: seq<Request>

    ghost function View(live: set<Conn>): State
      reads this
    {
      State(queries, tasks, live, false, asked, log)
    }

    constructor ()
      ensures View({}) == IDLE
    {
      queries, tasks, log, asked := map[], {}, [], [];
    }

    method ScheduleQuery(request: Request, ghost live: set<Conn>)
      modifies this
      ensures View(live) == Scheduled(old(View(live)), request)
    {
      var key := Key(request.conn, request.topic);
      asked := asked + [request];
      if key !in queries {
        queries := queries[key := Slot(request, None)];
        tasks := tasks + {request};
        return;
      }
      var slot := queries[key];
      if slot.replacement.Some? {
        log := log + [Ended(slot.replacement.value, Superseded)];
      }
      queries := queries[key := slot.(replacement := Some(request))];
    }

    method FinishQuery(request: Request, live: set<Conn>)
      modifies this`queries, this`tasks
      ensures View(live) == Released(old(View(live)), request)
    {
      var key := Key(request.conn, request.topic);
      if key !in queries || queries[key].active != request {
        return;
      }
      var replacement := queries[key].replacement;
      ghost var was := queries;
      queries := queries - {key};
      if replacement.Some? && Live(replacement.value, live) {
        queries := queries[key := Slot(replacement.value, None)];
        assert queries == was[key := Slot(replacement.value, None)];
        tasks := tasks + {replacement.value};
      }
    }

    /** A handler has answered, refused or given up: publish what became of the
        request while anyone is there to read it, and let the next one run. */
    method EndQuery(request: Request, how: How, live: set<Conn>)
      modifies this
      ensures View(live) == Finished(old(View(live)), request, how)
    {
      tasks := tasks - {request};
      if Live(request, live) {
        log := log + [Ended(request, how)];
      }
      FinishQuery(request, live);
    }

    method DisconnectQueries(conn: Conn)
      modifies this`queries
      ensures queries == Without(old(queries), conn)
    {
      var keys := set key | key in queries && key.conn == Some(conn);
      while keys != {}
        invariant forall key :: key in keys ==> key in queries && key.conn == Some(conn)
        invariant forall key :: key in old(queries) && key.conn != Some(conn) ==> key in queries
        invariant forall key :: key in queries ==>
                    key in old(queries) && queries[key] == old(queries)[key] && (key.conn == Some(conn) ==> key in keys)
        decreases |keys|
      {
        var key :| key in keys;
        keys := keys - {key};
        queries := queries - {key};
      }
    }
  }
}
