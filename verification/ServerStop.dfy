/** Accepting, serving and stopping connections: the threads of a server as interleaved atomic steps. */
module ServerStop {
  /**
   * Where the accept thread stands: waiting for a slot, in `accept`, with a stream in hand, with an id, with
   * the connection registered, past the second stop test, with the connection counted, undoing a failed
   * spawn in two steps, or gone.
   */
  datatype AcceptPc =
    | Waiting | Accepting | Accepted | Numbered(id: nat) | Registered(id: nat) | Tested(id: nat)
    | Counted(id: nat) | SpawnFailed(id: nat) | Unregistered(id: nat) | Gone

  /** Where the thread in `stop` stands. */
  datatype StopPc = Running | Flagged | Swept | Joined

  /**
   * `conns` is the registry and `active` the counter. `live` holds the connections whose thread runs,
   * `leaving` those between the two steps of their cleanup, `shut` those that were shut down, `uncloned` those
   * whose handle could not be cloned, and `early` those that passed the second stop test before the flag was set.
   */
  datatype State = State(
    max: nat, stopped: bool, conns: set<nat>, active: int, nextId: nat,
    accept: AcceptPc, stop: StopPc, live: set<nat>, leaving: set<nat>, shut: set<nat>, uncloned: set<nat>, early: set<nat>)

  /** A turn of one thread; `ok` is the outcome of the call the accept thread makes, where it makes one. */
  datatype Step = AcceptTurn(ok: bool) | ThreadTurn(id: nat) | StopTurn

  function Start(max: nat): State {
    State(max, false, {}, 0, 0, Waiting, Running, {}, {}, {}, {}, {})
  }

  /** The next action of the accept loop. */
  function AcceptNext(s: State, ok: bool): State {
    match s.accept
    case Waiting => if s.stopped then s.(accept := Gone) else if s.active < s.max then s.(accept := Accepting) else s
    case Accepting => s.(accept := if ok then Accepted else if s.stopped then Gone else Waiting)
    case Accepted => if s.stopped then s.(accept := Gone) else s.(accept := Numbered(s.nextId), nextId := s.nextId + 1)
    case Numbered(id) =>
      if ok then s.(accept := Registered(id), conns := s.conns + {id})
      else s.(accept := Registered(id), uncloned := s.uncloned + {id})
    case Registered(id) =>
      if s.stopped then s.(accept := Tested(id), shut := s.shut + {id}) else s.(accept := Tested(id), early := s.early + {id})
    case Tested(id) => s.(accept := Counted(id), active := s.active + 1)
    case Counted(id) => if ok then s.(accept := Waiting, live := s.live + {id}) else s.(accept := SpawnFailed(id))
    case SpawnFailed(id) => s.(accept := Unregistered(id), conns := s.conns - {id})
    case Unregistered(id) => s.(accept := Waiting, active := s.active - 1)
    case Gone => s
  }

  /** The next action of the cleanup of connection `id`: out of the registry, then off the counter. */
  function ThreadNext(s: State, id: nat): State {
    if id in s.live then s.(live := s.live - {id}, leaving := s.leaving + {id}, conns := s.conns - {id})
    else if id in s.leaving then s.(leaving := s.leaving - {id}, active := s.active - 1)
    else s
  }

  /** The next action of `stop`: the flag, the sweep of the registry, and the join of the accept thread. */
  function StopNext(s: State): State {
    match s.stop
    case Running => s.(stop := Flagged, stopped := true)
    case Flagged => s.(stop := Swept, shut := s.shut + s.conns)
    case Swept => if s.accept == Gone then s.(stop := Joined) else s
    case Joined => s
  }

  function Next(s: State, step: Step): State {
    match step
    case AcceptTurn(ok) => AcceptNext(s, ok)
    case ThreadTurn(id) => ThreadNext(s, id)
    case StopTurn => StopNext(s)
  }

  function Run(s: State, steps: seq<Step>): State
    decreases steps
  {
    if steps == [] then s else Run(Next(s, steps[0]), steps[1..])
  }

  // ----- the invariant

  /** The connection the accept thread has in hand and counted. */
  function InHand(pc: AcceptPc): set<nat> {
    if pc.Counted? || pc.SpawnFailed? || pc.Unregistered? then {pc.id} else {}
  }

  /** Admitted connections that are not finished. */
  function Unfinished(s: State): set<nat> {
    s.live + s.leaving + InHand(s.accept)
  }

  predicate HasId(pc: AcceptPc) {
    pc.Numbered? || pc.Registered? || pc.Tested? || pc.Counted? || pc.SpawnFailed? || pc.Unregistered?
  }

  /** Ids are new: every id in use is below the counter, and the one in hand belongs to nobody else. */
  ghost predicate Ids(s: State) {
    && (forall id :: id in s.live || id in s.leaving || id in s.conns || id in s.shut || id in s.uncloned || id in s.early ==> id < s.nextId)
    && s.live !! s.leaving
    && (HasId(s.accept) ==> s.accept.id < s.nextId && s.accept.id !in s.live && s.accept.id !in s.leaving)
    && (s.accept.Numbered? ==> s.accept.id !in s.conns && s.accept.id !in s.shut && s.accept.id !in s.uncloned && s.accept.id !in s.early)
  }

  /** The counter counts, and a slot that was waited for is still free. */
  ghost predicate Counts(s: State) {
    && s.active == |Unfinished(s)|
    && s.active <= s.max
    && (s.accept.Accepting? || s.accept.Accepted? || s.accept.Numbered? || s.accept.Registered? || s.accept.Tested? ==> s.active < s.max)
  }

  /** Running and about-to-run connections are registered, unless their handle could not be cloned. */
  ghost predicate Registry(s: State) {
    && (forall id :: id in s.live ==> id in s.conns || id in s.uncloned)
    && (s.accept.Registered? || s.accept.Tested? || s.accept.Counted? || s.accept.SpawnFailed? ==>
        s.accept.id in s.conns || s.accept.id in s.uncloned)
  }

  /** After the sweep every registered connection is shut down, but for one the accept thread is about to test. */
  ghost predicate Stopping(s: State) {
    && (s.stop != Running ==> s.stopped)
    && (s.stop == Swept || s.stop == Joined ==> forall id :: id in s.conns ==> id in s.shut || s.accept == Registered(id))
    && (s.stop == Joined ==> s.accept == Gone) && (s.accept == Gone ==> s.stopped)
  }

  /** Whoever passed the second test did so early or was shut down there, and only the registered are swept. */
  ghost predicate Tests(s: State) {
    && s.uncloned !! s.conns
    && (forall id :: id in s.uncloned && id in s.early ==> id !in s.shut)
    && (forall id :: id in s.live ==> id in s.early || id in s.shut)
    && (s.accept.Tested? || s.accept.Counted? || s.accept.SpawnFailed? ==> s.accept.id in s.early || s.accept.id in s.shut)
    && (s.accept.Registered? ==> s.accept.id !in s.early && (s.accept.id in s.uncloned ==> s.accept.id !in s.shut))
  }

  ghost predicate Inv(s: State) {
    Ids(s) && Counts(s) && Registry(s) && Stopping(s) && Tests(s)
  }

  function HandSize(pc: AcceptPc): nat {
    if pc.Counted? || pc.SpawnFailed? || pc.Unregistered? then 1 else 0
  }

  function Threads(s: State): nat {
    |s.live + s.leaving|
  }

  /** The unfinished connections are those of the threads and the one in hand. */
  lemma UnfinishedSize(s: State)
    requires Ids(s)
    ensures |Unfinished(s)| == Threads(s) + HandSize(s.accept)
  {
    var u := s.live + s.leaving;
    if HandSize(s.accept) == 1 {
      assert s.accept.id !in u;
      assert Unfinished(s) == u + {s.accept.id};
    } else {
      assert Unfinished(s) == u;
    }
  }

  lemma OneMoreLive(a: set<nat>, b: set<nat>, x: nat)
    requires x !in a && x !in b
    ensures |(a + {x}) + b| == |a + b| + 1
  {
    assert (a + {x}) + b == (a + b) + {x};
  }

  lemma MovedToLeaving(a: set<nat>, b: set<nat>, x: nat)
    requires x in a && a !! b
    ensures (a - {x}) + (b + {x}) == a + b
  {
  }

  lemma OneLess(a: set<nat>, b: set<nat>, x: nat)
    requires x in b && x !in a
    ensures |a + (b - {x})| == |a + b| - 1
  {
    assert a + (b - {x}) == (a + b) - {x};
  }

  lemma AcceptThreads(s: State, ok: bool)
    requires Ids(s)
    ensures Threads(AcceptNext(s, ok)) == Threads(s) + if s.accept.Counted? && ok then 1 else 0
  {
    if s.accept.Counted? {
      OneMoreLive(s.live, s.leaving, s.accept.id);
    }
    hide Ids;
  }

  lemma AcceptCounts(s: State, ok: bool)
    requires Inv(s)
    ensures Counts(AcceptNext(s, ok))
  {
    hide Unfinished, Threads, Ids, Registry, Stopping, Tests;
    AcceptIds(s, ok);
    UnfinishedSize(s);
    UnfinishedSize(AcceptNext(s, ok));
    AcceptThreads(s, ok);
  }

  lemma ThreadThreads(s: State, id: nat)
    requires Ids(s)
    ensures Threads(ThreadNext(s, id)) == Threads(s) - if id !in s.live && id in s.leaving then 1 else 0
  {
    if id in s.live {
      MovedToLeaving(s.live, s.leaving, id);
    } else if id in s.leaving {
      OneLess(s.live, s.leaving, id);
    }
    hide Ids;
  }

  lemma ThreadCounts(s: State, id: nat)
    requires Inv(s)
    ensures Counts(ThreadNext(s, id))
  {
    hide Unfinished, Threads, Ids, Registry, Stopping, Tests;
    ThreadIds(s, id);
    UnfinishedSize(s);
    UnfinishedSize(ThreadNext(s, id));
    ThreadThreads(s, id);
  }

  lemma AcceptIds(s: State, ok: bool)
    requires Inv(s)
    ensures Ids(AcceptNext(s, ok))
  {
    hide Counts, Registry, Stopping, Tests;
  }

  lemma AcceptRegistry(s: State, ok: bool)
    requires Inv(s)
    ensures Registry(AcceptNext(s, ok))
  {
    hide Counts, Stopping, Tests;
  }

  lemma AcceptStopping(s: State, ok: bool)
    requires Inv(s)
    ensures Stopping(AcceptNext(s, ok))
  {
    hide Counts, Registry, Tests;
  }

  lemma AcceptTests(s: State, ok: bool)
    requires Inv(s)
    ensures Tests(AcceptNext(s, ok))
  {
    hide Counts, Registry, Stopping;
  }

  lemma AcceptKeepsInv(s: State, ok: bool)
    requires Inv(s)
    ensures Inv(AcceptNext(s, ok))
  {
    AcceptCounts(s, ok);
    AcceptIds(s, ok);
    AcceptRegistry(s, ok);
    AcceptStopping(s, ok);
    AcceptTests(s, ok);
    hide AcceptNext, Counts, Ids, Registry, Stopping, Tests;
  }

  lemma ThreadIds(s: State, id: nat)
    requires Inv(s)
    ensures Ids(ThreadNext(s, id))
  {
    hide Counts, Registry, Stopping, Tests;
  }

  lemma ThreadRegistry(s: State, id: nat)
    requires Inv(s)
    ensures Registry(ThreadNext(s, id))
  {
    hide Counts, Stopping, Tests;
  }

  lemma ThreadStopping(s: State, id: nat)
    requires Inv(s)
    ensures Stopping(ThreadNext(s, id))
  {
    hide Counts, Registry, Tests;
  }

  lemma ThreadTests(s: State, id: nat)
    requires Inv(s)
    ensures Tests(ThreadNext(s, id))
  {
    hide Counts, Registry, Stopping;
  }

  lemma ThreadKeepsInv(s: State, id: nat)
    requires Inv(s)
    ensures Inv(ThreadNext(s, id))
  {
    ThreadCounts(s, id);
    ThreadIds(s, id);
    ThreadRegistry(s, id);
    ThreadStopping(s, id);
    ThreadTests(s, id);
    hide ThreadNext, Counts, Ids, Registry, Stopping, Tests;
  }

  lemma StopKeepsInv(s: State)
    requires Inv(s)
    ensures Inv(StopNext(s))
  {
  }

  lemma StepKeepsInv(s: State, step: Step)
    requires Inv(s)
    ensures Inv(Next(s, step))
  {
    hide Inv, AcceptNext, ThreadNext, StopNext;
    match step
    case AcceptTurn(ok) => AcceptKeepsInv(s, ok);
    case ThreadTurn(id) => ThreadKeepsInv(s, id);
    case StopTurn => StopKeepsInv(s);
  }

  lemma {:induction false} RunKeepsInv(s: State, steps: seq<Step>)
    requires Inv(s)
    ensures Inv(Run(s, steps)) && Run(s, steps).max == s.max
    decreases steps
  {
    hide Inv;
    if steps != [] {
      StepKeepsInv(s, steps[0]);
      RunKeepsInv(Next(s, steps[0]), steps[1..]);
    }
  }

  /**
   * In every run the counter equals the number of unfinished admitted connections and stays within the
   * limit; the accept thread ends only when the server is stopped; and once `stop` has swept the registry and joined the accept thread, a connection whose thread
   * still runs was not shut down if and only if its handle could not be cloned and it passed the second stop
   * test before the flag was set.
   */
  lemma ServerSafe(max: nat, steps: seq<Step>)
    ensures var s := Run(Start(max), steps);
            && s.active == |Unfinished(s)| <= max && (s.accept == Gone ==> s.stopped)
            && (s.stop == Joined ==> s.accept == Gone && forall id :: id in s.live ==> (id !in s.shut <==> id in s.uncloned && id in s.early))
  {
    var s0 := Start(max);
    assert Unfinished(s0) == {};
    RunKeepsInv(s0, steps);
  }

  // ----- what the threads get done

  /** `n` turns of the accept thread in which its calls go well. */
  function Turns(s: State, n: nat): State {
    if n == 0 then s else AcceptNext(Turns(s, n - 1), true)
  }

  lemma {:induction false} TurnsRun(s: State, n: nat)
    ensures Run(s, AcceptTurns(n)) == Turns(s, n)
    decreases n
  {
    if n > 0 {
      TurnsRun(s, n - 1);
      assert AcceptTurns(n) == AcceptTurns(n - 1) + [AcceptTurn(true)];
      RunSnoc(s, AcceptTurns(n - 1), AcceptTurn(true));
    }
  }

  function AcceptTurns(n: nat): seq<Step> {
    seq(n, _ => AcceptTurn(true))
  }

  lemma {:induction false} RunSnoc(s: State, steps: seq<Step>, last: Step)
    ensures Run(s, steps + [last]) == Next(Run(s, steps), last)
    decreases steps
  {
    hide Next;
    if steps == [] {
      assert steps + [last] == [last] && [last][1..] == [];
    } else {
      assert (steps + [last])[0] == steps[0] && (steps + [last])[1..] == steps[1..] + [last];
      RunSnoc(Next(s, steps[0]), steps[1..], last);
    }
  }

  /** A server that is not stopped and has a free slot admits the next connection, registered and counted. */
  lemma Admission(s: State)
    requires s.accept == Waiting && !s.stopped && s.active < s.max
    ensures Run(s, AcceptTurns(7)) == s.(live := s.live + {s.nextId}, conns := s.conns + {s.nextId}, early := s.early + {s.nextId},
                              active := s.active + 1, nextId := s.nextId + 1)
  {
    var id := s.nextId;
    var s3 := s.(accept := Numbered(id), nextId := id + 1);
    var s5 := s3.(accept := Tested(id), conns := s.conns + {id}, early := s.early + {id});
    assert Turns(s, 1) == s.(accept := Accepting);
    assert Turns(s, 2) == s.(accept := Accepted);
    assert Turns(s, 3) == s3;
    assert Turns(s, 4) == s3.(accept := Registered(id), conns := s.conns + {id});
    assert Turns(s, 5) == s5;
    assert Turns(s, 6) == s5.(accept := Counted(id), active := s.active + 1);
    TurnsRun(s, 7);
  }

  /** A failed `accept` is tried again unless the server is stopped. */
  lemma AcceptRetried(s: State)
    requires s.accept == Accepting
    ensures AcceptNext(s, false) == s.(accept := if s.stopped then Gone else Waiting)
  {
  }

  /** How many turns a stopped accept thread has before it. */
  function TurnsLeft(pc: AcceptPc): nat {
    match pc
    case Gone => 0
    case Waiting => 1
    case Accepted => 1
    case Accepting => 2
    case Counted(_) => 2
    case Unregistered(_) => 2
    case Tested(_) => 3
    case SpawnFailed(_) => 3
    case Registered(_) => 4
    case Numbered(_) => 5
  }

  lemma {:induction false} StoppedEnds(s: State, n: nat)
    requires s.stopped
    ensures Turns(s, n).stopped && Turns(s, n).stop == s.stop
    ensures TurnsLeft(Turns(s, n).accept) <= if n < TurnsLeft(s.accept) then TurnsLeft(s.accept) - n else 0
  {
    if n > 0 {
      StoppedEnds(s, n - 1);
      var t := Turns(s, n - 1);
      assert TurnsLeft(AcceptNext(t, true).accept) <= if TurnsLeft(t.accept) > 0 then TurnsLeft(t.accept) - 1 else 0;
    }
  }

  /** `stop` gets through: wherever the accept thread stands, a few turns after the sweep it can be joined. */
  lemma StopCompletes(s: State)
    requires s.stop == Running
    ensures StopNext(Run(StopNext(StopNext(s)), AcceptTurns(5))).stop == Joined
  {
    StoppedEnds(StopNext(StopNext(s)), 5);
    TurnsRun(StopNext(StopNext(s)), 5);
    hide Turns;
  }

  lemma JoinedStays(s: State, step: Step)
    requires Inv(s) && s.stop == Joined
    ensures var t := Next(s, step);
            t.stop == Joined && t.live <= s.live && t.leaving + t.live <= s.leaving + s.live && t.accept == Gone && t.active <= s.active
  {
    hide Ids, Counts, Registry;
    assert Stopping(s);
  }

  /** After the join nothing is admitted any more. */
  lemma {:induction false} NothingAfterJoin(s: State, steps: seq<Step>)
    requires Inv(s) && s.stop == Joined
    ensures var t := Run(s, steps);
            t.stop == Joined && t.live <= s.live && t.leaving + t.live <= s.leaving + s.live && t.active <= s.active
    decreases steps
  {
    if steps != [] {
      StepKeepsInv(s, steps[0]);
      JoinedStays(s, steps[0]);
      hide Next, Inv;
      NothingAfterJoin(Next(s, steps[0]), steps[1..]);
    }
  }

  /** A connection whose handle could not be cloned before the flag was set escapes the sweep. */
  lemma UnclonedEscapes()
    ensures exists steps :: var s := Run(Start(1), steps); s.stop == Joined && 0 in s.live && 0 !in s.shut
  {
    var s0 := Start(1);
    var s1 := s0.(accept := Accepting);
    var s2 := s0.(accept := Accepted);
    var s3 := s0.(accept := Numbered(0), nextId := 1);
    var s4 := s3.(accept := Registered(0), uncloned := {0});
    var s5 := s4.(accept := Tested(0), early := {0});
    var s6 := s5.(accept := Counted(0), active := 1);
    var s7 := s6.(accept := Waiting, live := {0});
    var s8 := s7.(stop := Flagged, stopped := true);
    var s9 := s8.(stop := Swept);
    var s10 := s9.(accept := Gone);
    var s11 := s10.(stop := Joined);
    assert Next(s0, AcceptTurn(true)) == s1 && Next(s1, AcceptTurn(true)) == s2 && Next(s2, AcceptTurn(true)) == s3;
    assert Next(s3, AcceptTurn(false)) == s4 by {
      assert {} + {0} == {0};
    }
    assert Next(s4, AcceptTurn(true)) == s5 by {
      assert {} + {0} == {0};
    }
    assert Next(s5, AcceptTurn(true)) == s6;
    assert Next(s6, AcceptTurn(true)) == s7 by {
      assert {} + {0} == {0};
    }
    assert Next(s7, StopTurn) == s8 && Next(s9, AcceptTurn(true)) == s10 && Next(s10, StopTurn) == s11;
    assert Next(s8, StopTurn) == s9 by {
      var none: set<nat> := {};
      assert none + none == none;
    }
    hide Next;
    var steps: seq<Step> := [];
    assert Run(s11, steps) == s11;
    steps := Prepended(s10, StopTurn, steps);
    steps := Prepended(s9, AcceptTurn(true), steps);
    steps := Prepended(s8, StopTurn, steps);
    steps := Prepended(s7, StopTurn, steps);
    steps := Prepended(s6, AcceptTurn(true), steps);
    steps := Prepended(s5, AcceptTurn(true), steps);
    steps := Prepended(s4, AcceptTurn(true), steps);
    steps := Prepended(s3, AcceptTurn(false), steps);
    steps := Prepended(s2, AcceptTurn(true), steps);
    steps := Prepended(s1, AcceptTurn(true), steps);
    steps := Prepended(s0, AcceptTurn(true), steps);
  }

  lemma Prepended(s: State, step: Step, steps: seq<Step>) returns (all: seq<Step>)
    ensures Run(s, all) == Run(Next(s, step), steps)
  {
    all := [step] + steps;
    assert all[1..] == steps;
  }
}
