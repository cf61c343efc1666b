/**
 The blocking connection pool as a state machine.  Every step is one critical section of the mutex,
 or a move of the condition variable: a call enters, waits, is notified, wakes for no reason, times
 out, resumes, or gives a connection back.  Every interleaving is a run.  Line numbers are those of
 utils/connection_pool.h.
 */
module PoolProtocol {
  import opened Basics

  type ConnId = nat
  /** One call of `get_connection`; the guard made from it keeps the name. */
  type CallId = nat

  datatype State = State(
    queue: seq<ConnId>,            // the pooled connections
    blocked: set<CallId>,          // waiting and not notified
    notified: set<CallId>,         // notified, not yet running again
    woken: set<CallId>,            // woken for no reason, not yet running again
    timed: set<CallId>,            // calls with a positive timeout
    held: map<CallId, ConnId>,     // calls that returned a connection not yet given back
    nulls: set<CallId>,            // calls that returned null
    calls: set<CallId>,            // every call ever made
    owned: set<ConnId>,            // every connection ever added
    given: seq<ConnId>,            // history of pushes
    taken: seq<ConnId>             // history of pops
  )

  const EMPTY := State([], {}, {}, {}, {}, map[], {}, {}, {}, [], [])

  datatype Event =
    | Enter(id: CallId, timed: bool)
    | Add(conn: ConnId, wake: Option<CallId>)
    | GiveBack(id: CallId, wake: Option<CallId>)
    | Resume(id: CallId)
    | Spurious(id: CallId)
    | Timeout(id: CallId)

  function Waiting(s: State): set<CallId> {
    s.blocked + s.notified + s.woken
  }

  /** `notify_one` may pick any blocked call, and picks one if there is one. */
  predicate WakeOk(s: State, wake: Option<CallId>) {
    if s.blocked == {} then wake == None else wake.Some? && wake.value in s.blocked
  }

  predicate Enabled(s: State, e: Event) {
    match e
    case Enter(id, timed) => id !in s.calls
    case Add(conn, wake) => conn !in s.owned && WakeOk(s, wake)
    case GiveBack(id, wake) => id in s.held && WakeOk(s, wake)
    case Resume(id) => id in s.notified + s.woken
    case Spurious(id) => id in s.blocked
    case Timeout(id) => id in Waiting(s) && id in s.timed
  }

  /** The call is no longer waiting. */
  function Awake(s: State, id: CallId): State {
    s.(blocked := s.blocked - {id}, notified := s.notified - {id}, woken := s.woken - {id})
  }

  /** Lines 43-46: take the front connection. */
  function TakeFront(s: State, id: CallId): State
    requires s.queue != []
  {
    s.(queue := s.queue[1..], held := s.held[id := s.queue[0]], taken := s.taken + [s.queue[0]])
  }

  /** Lines 54-55: push and notify one. */
  function Push(s: State, conn: ConnId, wake: Option<CallId>): State {
    var t := s.(queue := s.queue + [conn], given := s.given + [conn]);
    if wake.None? then t
    else t.(blocked := t.blocked - {wake.value}, notified := t.notified + {wake.value})
  }

  function Apply(s: State, e: Event): State
    requires Enabled(s, e)
  {
    match e
    case Enter(id, timed) =>
      var t := s.(calls := s.calls + {id}, timed := if timed then s.timed + {id} else s.timed);
      if t.queue == [] then t.(blocked := t.blocked + {id}) else TakeFront(t, id)
    case Add(conn, wake) => Push(s.(owned := s.owned + {conn}), conn, wake)
    case GiveBack(id, wake) => Push(s.(held := s.held - {id}), s.held[id], wake)
    case Resume(id) =>
      var t := Awake(s, id);
      if t.queue == [] then t.(blocked := t.blocked + {id}) else TakeFront(t, id)
    case Spurious(id) => Awake(s, id).(woken := s.woken + {id})
    case Timeout(id) =>
      var t := Awake(s, id);
      if t.queue == [] then t.(nulls := t.nulls + {id}) else TakeFront(t, id)
  }

  ghost predicate IsRun(events: seq<Event>, s: State) {
    if events == [] then s == EMPTY
    else
      var n := |events| - 1;
      exists p :: IsRun(events[..n], p) && Enabled(p, events[n]) && s == Apply(p, events[n])
  }

  // ---------- No lost wake-up ----------

  /** A call is in one place only. */
  predicate Placed(s: State) {
    && s.blocked !! s.notified && s.blocked !! s.woken && s.notified !! s.woken
    && Waiting(s) !! s.held.Keys && Waiting(s) !! s.nulls
    && Waiting(s) <= s.calls && s.held.Keys <= s.calls && s.nulls <= s.calls
  }

  /** If a call waits un-notified, every pooled connection has a notified call on its way to it. */
  predicate NoLostWakeup(s: State) {
    s.blocked != {} ==> |s.queue| <= |s.notified|
  }

  lemma PlacedStep(s: State, e: Event)
    requires Placed(s) && Enabled(s, e)
    ensures Placed(Apply(s, e))
  {
  }

  lemma WakeupStep(s: State, e: Event)
    requires Placed(s) && NoLostWakeup(s) && Enabled(s, e)
    ensures NoLostWakeup(Apply(s, e))
  {
  }

  // ---------- Exclusive ownership, FIFO, and null results ----------

  /** Every connection ever added is in the queue, once, or with exactly one call; nothing else is. */
  predicate Exclusive(s: State) {
    && Distinct(s.queue)
    && (forall a, b :: a in s.held && b in s.held && a != b ==> s.held[a] != s.held[b])
    && (forall a :: a in s.held ==> s.held[a] !in s.queue && s.held[a] in s.owned)
    && (forall c :: c in s.queue ==> c in s.owned)
    && (forall c :: c in s.owned ==> c in s.queue || exists a :: a in s.held && s.held[a] == c)
  }

  /** Connections leave in the order they came. */
  predicate Fifo(s: State) {
    s.given == s.taken + s.queue
  }

  predicate OnlyTimedNulls(s: State) {
    s.nulls <= s.timed && s.timed <= s.calls
  }

  ghost predicate HeldBy(s: State, c: ConnId) {
    exists a :: a in s.held && s.held[a] == c
  }

  lemma TakeKeepsExclusive(s: State, id: CallId)
    requires Exclusive(s) && s.queue != [] && id !in s.held
    ensures Exclusive(TakeFront(s, id))
  {
    var t, q := TakeFront(s, id), s.queue;
    assert q == [q[0]] + t.queue && q[0] in q;
    assert t.held[id] == q[0];
    forall c | c in t.owned ensures c in t.queue || HeldBy(t, c) {
      if c !in q {
        var a :| a in s.held && s.held[a] == c;
        assert t.held[a] == c;
      }
    }
    forall c | c in t.queue ensures c in t.owned && c != q[0] {
      var i :| 0 <= i < |t.queue| && t.queue[i] == c;
      assert q[i + 1] == c;
    }
  }

  /** `c` is the one connection that is neither queued nor held. */
  lemma PushKeepsExclusive(s: State, c: ConnId, wake: Option<CallId>)
    requires Distinct(s.queue) && c !in s.queue && c in s.owned
    requires forall a, b :: a in s.held && b in s.held && a != b ==> s.held[a] != s.held[b]
    requires forall a :: a in s.held ==> s.held[a] !in s.queue && s.held[a] in s.owned && s.held[a] != c
    requires forall x :: x in s.queue ==> x in s.owned
    requires forall x :: x in s.owned ==> x == c || x in s.queue || HeldBy(s, x)
    ensures Exclusive(Push(s, c, wake))
  {
  }

  lemma GiveBackKeepsExclusive(s: State, id: CallId, wake: Option<CallId>)
    requires Exclusive(s) && id in s.held
    ensures Exclusive(Push(s.(held := s.held - {id}), s.held[id], wake))
  {
    var t, c := s.(held := s.held - {id}), s.held[id];
    forall x | x in t.owned ensures x == c || x in t.queue || HeldBy(t, x) {
      if x != c && x !in s.queue {
        var a :| a in s.held && s.held[a] == x;
        assert a in t.held && t.held[a] == x;
      }
    }
    PushKeepsExclusive(t, c, wake);
  }

  lemma AddKeepsExclusive(s: State, c: ConnId, wake: Option<CallId>)
    requires Exclusive(s) && c !in s.owned
    ensures Exclusive(Push(s.(owned := s.owned + {c}), c, wake))
  {
  }

  lemma ExclusiveStep(s: State, e: Event)
    requires Placed(s) && Exclusive(s) && Enabled(s, e)
    ensures Exclusive(Apply(s, e))
  {
    match e
    case Enter(id, timed) =>
      var t := s.(calls := s.calls + {id}, timed := if timed then s.timed + {id} else s.timed);
      if t.queue != [] { TakeKeepsExclusive(t, id); }
    case Add(conn, wake) => AddKeepsExclusive(s, conn, wake);
    case GiveBack(id, wake) => GiveBackKeepsExclusive(s, id, wake);
    case Resume(id) =>
      if s.queue != [] { TakeKeepsExclusive(Awake(s, id), id); }
    case Spurious(id) =>
    case Timeout(id) =>
      if s.queue != [] { TakeKeepsExclusive(Awake(s, id), id); }
  }

  lemma FifoStep(s: State, e: Event)
    requires Fifo(s) && Enabled(s, e)
    ensures Fifo(Apply(s, e))
  {
  }

  /** Connections are conserved in number. */
  predicate Counted(s: State) {
    |s.owned| == |s.queue| + |s.held|
  }

  lemma CountedStep(s: State, e: Event)
    requires Placed(s) && Counted(s) && Enabled(s, e)
    ensures Counted(Apply(s, e))
  {
  }

  lemma NullsStep(s: State, e: Event)
    requires Placed(s) && OnlyTimedNulls(s) && Enabled(s, e)
    ensures OnlyTimedNulls(Apply(s, e))
  {
  }

  // ---------- Whole runs ----------

  ghost predicate Invariant(s: State) {
    Placed(s) && NoLostWakeup(s) && Exclusive(s) && Fifo(s) && Counted(s) && OnlyTimedNulls(s)
  }

  lemma InvariantStep(s: State, e: Event)
    requires Invariant(s) && Enabled(s, e)
    ensures Invariant(Apply(s, e))
  {
    hide Apply;
    PlacedStep(s, e);
    WakeupStep(s, e);
    ExclusiveStep(s, e);
    FifoStep(s, e);
    CountedStep(s, e);
    NullsStep(s, e);
  }

  /** Every state of every interleaving, with spurious wakes, timeouts and late arrivals. */
  lemma {:induction false} EveryRun(events: seq<Event>, s: State)
    requires IsRun(events, s)
    ensures Invariant(s)
  {
    hide Apply;
    if events != [] {
      var n := |events| - 1;
      var p :| IsRun(events[..n], p) && Enabled(p, events[n]) && s == Apply(p, events[n]);
      EveryRun(events[..n], p);
      InvariantStep(p, events[n]);
    }
  }

  /** In every run: a call left waiting while a connection is pooled has a notified call that will take one. */
  lemma NobodyIsForgotten(events: seq<Event>, s: State)
    requires IsRun(events, s) && s.blocked != {} && s.queue != []
    ensures exists id ::
      id in s.notified && Enabled(s, Resume(id)) && id in Apply(s, Resume(id)).held &&
      Apply(s, Resume(id)).held[id] == s.queue[0]
  {
    EveryRun(events, s);
    assert s.notified != {};
    var id :| id in s.notified;
    assert Apply(s, Resume(id)).held[id] == s.queue[0];
  }

  /** In every run: once no notified call is left to run, nobody waits while a connection is pooled. */
  lemma QuiescentPoolServesAll(events: seq<Event>, s: State)
    requires IsRun(events, s) && s.notified == {}
    ensures s.blocked == {} || s.queue == []
  {
    EveryRun(events, s);
  }

  /** In every run: an untimed call never returns null, and no connection is with two calls at once. */
  lemma CallsGetTheirOwn(events: seq<Event>, s: State, a: CallId, b: CallId)
    requires IsRun(events, s)
    ensures a in s.nulls ==> a in s.timed && Enter(a, true) in events && Enter(a, false) !in events
    ensures a in s.held && b in s.held && s.held[a] == s.held[b] ==> a == b
    ensures a in s.held ==> s.held[a] !in s.queue && a !in Waiting(s)
    ensures s.taken <= s.given
  {
    EveryRun(events, s);
    RunRecords(events, s, a);
  }

  // ---------- The books against the events ----------

  /** What the step records: who called, with a timeout or not, what was added, and who may get null. */
  lemma RecordStep(s: State, e: Event)
    requires Enabled(s, e)
    ensures var t := Apply(s, e);
      && t.calls == s.calls + (if e.Enter? then {e.id} else {})
      && t.timed == s.timed + (if e.Enter? && e.timed then {e.id} else {})
      && t.owned == s.owned + (if e.Add? then {e.conn} else {})
      && t.nulls == s.nulls + (if e.Timeout? && s.queue == [] then {e.id} else {})
  {
  }

  lemma NullsAreCalls(events: seq<Event>, s: State)
    requires IsRun(events, s)
    ensures s.nulls <= s.calls
  {
    EveryRun(events, s);
  }

  /** In every run: a call counts as timed iff it was made with a timeout; one made without never gets null. */
  lemma {:induction false} RunRecords(events: seq<Event>, s: State, id: CallId)
    requires IsRun(events, s)
    ensures id in s.timed <==> Enter(id, true) in events
    ensures id in s.calls <==> Enter(id, true) in events || Enter(id, false) in events
    ensures !(Enter(id, true) in events && Enter(id, false) in events)
    ensures Enter(id, false) in events ==> id !in s.nulls
    ensures id in s.nulls ==> Timeout(id) in events
  {
    hide Apply;
    if events != [] {
      var n := |events| - 1;
      var e := events[n];
      var p :| IsRun(events[..n], p) && Enabled(p, e) && s == Apply(p, e);
      NullsAreCalls(events[..n], p);
      RunRecords(events[..n], p, id);
      RecordStep(p, e);
      assert events == events[..n] + [e];
    }
  }

  /** In every run: the pool owns exactly the connections that were added. */
  lemma {:induction false} RunOwns(events: seq<Event>, s: State, c: ConnId)
    requires IsRun(events, s)
    ensures c in s.owned <==> exists wake :: Add(c, wake) in events
  {
    hide Apply;
    if events != [] {
      var n := |events| - 1;
      var e := events[n];
      var p :| IsRun(events[..n], p) && Enabled(p, e) && s == Apply(p, e);
      RunOwns(events[..n], p, c);
      RecordStep(p, e);
      assert events == events[..n] + [e];
      if c in s.owned && c !in p.owned {
        assert Add(c, e.wake) in events;
      }
    }
  }

  /** A call that gets to run while a connection is pooled takes the oldest; it waits or gets null only when none is. */
  lemma RunningCallIsServed(s: State, e: Event)
    requires Placed(s) && Enabled(s, e) && (e.Enter? || e.Resume? || e.Timeout?)
    ensures var t := Apply(s, e);
      && (s.queue != [] <==> e.id in t.held) && (s.queue == [] && e.Timeout? <==> e.id in t.nulls)
      && (s.queue == [] && !e.Timeout? <==> e.id in Waiting(t))
      && (s.queue != [] ==> t.held[e.id] == s.queue[0] && s.queue == [s.queue[0]] + t.queue)
  {
  }

  /** The connection an event hands in. */
  function HandedIn(s: State, e: Event): seq<ConnId>
    requires Enabled(s, e)
  {
    match e
    case Add(conn, _) => [conn]
    case GiveBack(id, _) => [s.held[id]]
    case _ => []
  }

  /** The connection a call holds after the event and did not before. */
  function HandedOut(s: State, e: Event, t: State): seq<ConnId> {
    if !e.Add? && e.id in t.held && e.id !in s.held then [t.held[e.id]] else []
  }

  /** A run in which the connections handed in and out were, in order, `ins` and `outs`. */
  ghost predicate Observed(events: seq<Event>, s: State, ins: seq<ConnId>, outs: seq<ConnId>) {
    if events == [] then s == EMPTY && ins == [] && outs == []
    else
      var n := |events| - 1;
      exists p, i, o :: Observed(events[..n], p, i, o) && Follows(p, i, o, events[n], s, ins, outs)
  }

  /** One more event; no call but its own gains or loses a connection. */
  predicate Follows(p: State, i: seq<ConnId>, o: seq<ConnId>, e: Event, s: State, ins: seq<ConnId>, outs: seq<ConnId>) {
    && Enabled(p, e) && s == Apply(p, e)
    && ins == i + HandedIn(p, e) && outs == o + HandedOut(p, e, s)
    && if e.Add? then s.held == p.held else s.held - {e.id} == p.held - {e.id}
  }

  lemma HistoryStep(p: State, e: Event)
    requires Placed(p) && Enabled(p, e)
    ensures Follows(p, p.given, p.taken, e, Apply(p, e), Apply(p, e).given, Apply(p, e).taken)
  {
  }

  /** In every run: the connections handed out are, in this order, the first of those handed in; the rest are queued. */
  lemma {:induction false} FirstInFirstOut(events: seq<Event>, s: State)
    requires IsRun(events, s)
    ensures Observed(events, s, s.given, s.taken) && s.given == s.taken + s.queue
  {
    hide Apply;
    EveryRun(events, s);
    if events != [] {
      var n := |events| - 1;
      var p :| IsRun(events[..n], p) && Enabled(p, events[n]) && s == Apply(p, events[n]);
      EveryRun(events[..n], p);
      FirstInFirstOut(events[..n], p);
      HistoryStep(p, events[n]);
    }
  }

  /** In every run: a call that entered waits, holds a connection, got null, or has given its connection back. */
  lemma {:induction false} EveryCallIsSomewhere(events: seq<Event>, s: State, id: CallId)
    requires IsRun(events, s) && id in s.calls
    ensures id in Waiting(s) || id in s.held || id in s.nulls || exists wake :: GiveBack(id, wake) in events
  {
    hide Apply;
    var n := |events| - 1;
    var e := events[n];
    var p :| IsRun(events[..n], p) && Enabled(p, e) && s == Apply(p, e);
    RecordStep(p, e);
    StaysSomewhere(p, e, id);
    assert events == events[..n] + [e];
    if id in p.calls {
      EveryCallIsSomewhere(events[..n], p, id);
      if exists wake :: GiveBack(id, wake) in events[..n] {
        var wake :| GiveBack(id, wake) in events[..n];
        assert GiveBack(id, wake) in events;
      } else if e.GiveBack? && e.id == id {
        assert GiveBack(id, e.wake) in events;
      }
    }
  }

  lemma StaysSomewhere(p: State, e: Event, id: CallId)
    requires Enabled(p, e)
    ensures var s := Apply(p, e);
      (id in Waiting(p) || id in p.held || id in p.nulls || (e.Enter? && e.id == id)) && !(e.GiveBack? && e.id == id)
      ==> id in Waiting(s) || id in s.held || id in s.nulls
  {
  }

  /** None is lost: the pooled and the held connections together are all that were ever added. */
  lemma NoneIsLost(events: seq<Event>, s: State)
    requires IsRun(events, s)
    ensures forall c :: c in s.owned <==> c in s.queue || HeldBy(s, c)
    ensures |s.owned| == |s.queue| + |s.held|
  {
    EveryRun(events, s);
    forall c | c in s.owned ensures c in s.queue || HeldBy(s, c) {
    }
  }
}

/** The pool object: each method is one critical section, and one step of the protocol. */
module PoolObject {
  import opened Basics
  import opened PoolProtocol

  class ConnectionPool {
    var queue: seq<ConnId>
    ghost var state: State

    ghost predicate Valid()
      reads this
    {
      queue == state.queue && Invariant(state)
    }

    constructor ()
      ensures Valid() && state == EMPTY
    {
      queue, state := [], EMPTY;
    }

    /** The end of `get_connection`: the front connection, if any. */
    method Front() returns (connection: Option<ConnId>)
      modifies this`queue
      ensures old(queue) == [] ==> connection == None && queue == []
      ensures old(queue) != [] ==> connection == Some(old(queue)[0]) && queue == old(queue)[1..]
    {
      connection := None;
      if queue != [] {
        connection := Some(queue[0]);
        queue := queue[1..];
      }
    }

    /** `get_connection` up to its first wait or its return; `waits` tells which. */
    method EnterGet(id: CallId, timeout: int) returns (connection: Option<ConnId>, waits: bool)
      requires Valid() && Enabled(state, Enter(id, timeout > 0))
      modifies this
      ensures Valid() && state == Apply(old(state), Enter(id, timeout > 0))
      ensures waits <==> id in state.blocked
      ensures !waits ==> connection.Some? && id in state.held && connection.value == state.held[id]
      ensures waits <==> old(queue) == []
      ensures !waits ==> connection == Some(old(queue)[0]) && queue == old(queue)[1..]
    {
      InvariantStep(state, Enter(id, timeout > 0));
      waits := queue == [];
      connection := Front();
      state := Apply(state, Enter(id, timeout > 0));
    }

    /** A woken or notified call runs again: the loop test decides between taking and waiting. */
    method ResumeGet(id: CallId) returns (connection: Option<ConnId>, waits: bool)
      requires Valid() && Enabled(state, Resume(id))
      modifies this
      ensures Valid() && state == Apply(old(state), Resume(id))
      ensures waits <==> id in state.blocked
      ensures !waits ==> connection.Some? && id in state.held && connection.value == state.held[id]
      ensures waits <==> old(queue) == []
      ensures !waits ==> connection == Some(old(queue)[0]) && queue == old(queue)[1..]
    {
      InvariantStep(state, Resume(id));
      waits := queue == [];
      connection := Front();
      state := Apply(state, Resume(id));
    }

    /** `wait_for` reports a timeout: leave the loop with whatever is there. */
    method TimeoutGet(id: CallId) returns (connection: Option<ConnId>)
      requires Valid() && Enabled(state, Timeout(id))
      modifies this
      ensures Valid() && state == Apply(old(state), Timeout(id))
      ensures connection.None? <==> id in state.nulls
      ensures connection.Some? ==> id in state.held && connection.value == state.held[id]
      ensures connection == if old(queue) == [] then None else Some(old(queue)[0])
      ensures queue == if old(queue) == [] then [] else old(queue)[1..]
    {
      InvariantStep(state, Timeout(id));
      connection := Front();
      state := Apply(state, Timeout(id));
    }

    /** `give_back`: push, then notify one of the blocked calls. */
    method GiveBackConnection(id: CallId, connection: ConnId) returns (ghost wake: Option<CallId>)
      requires Valid() && id in state.held && state.held[id] == connection
      modifies this
      ensures WakeOk(old(state), wake)
      ensures Valid() && state == Apply(old(state), GiveBack(id, wake)) && queue == old(queue) + [connection]
    {
      wake := NotifyOne();
      InvariantStep(state, GiveBack(id, wake));
      queue := queue + [connection];
      state := Apply(state, GiveBack(id, wake));
    }

    /** `add_connection`: the same for a connection that is new to the pool. */
    method AddConnection(connection: ConnId) returns (ghost wake: Option<CallId>)
      requires Valid() && connection !in state.owned
      modifies this
      ensures WakeOk(old(state), wake)
      ensures Valid() && state == Apply(old(state), Add(connection, wake)) && queue == old(queue) + [connection]
    {
      wake := NotifyOne();
      InvariantStep(state, Add(connection, wake));
      queue := queue + [connection];
      state := Apply(state, Add(connection, wake));
    }

    ghost method NotifyOne() returns (wake: Option<CallId>)
      ensures WakeOk(state, wake)
    {
      wake := None;
      if state.blocked != {} {
        var w :| w in state.blocked;
        wake := Some(w);
      }
    }
  }
}
