/** Many requests over one pool: the counters under every interleaving of their atomic actions. */
module BalanceRuns {
  /**
   * A request: looking for a backend, having seen an idle one, holding one, having sent the body to it, or
   * done. `attempts` counts finished attempts and `sends` the times the body was sent.
   */
  datatype Pc = Choosing | Seen(b: nat) | Holding(b: nat) | Sent(b: nat) | Ended

  datatype Request = Request(pc: Pc, attempts: nat, sends: nat, canRetry: bool)

  datatype State = State(inFlight: seq<int>, requests: seq<Request>)

  /**
   * An atomic action: a load, a compare-and-swap from 0 to 1, an unconditional increment, the sending, or
   * the decrement after an attempt, which was final or failed.
   */
  datatype Action = Load(b: nat) | CompareAndSwap | Acquire(b: nat) | Send | Release(final: bool)

  datatype Turn = Turn(r: nat, action: Action)

  function Start(backends: nat, canRetry: seq<bool>): State {
    State(seq(backends, _ => 0), seq(|canRetry|, i requires 0 <= i < |canRetry| => Request(Choosing, 0, 0, canRetry[i])))
  }

  function Bump(f: seq<int>, b: nat, d: int): seq<int>
    requires b < |f|
  {
    f[b := f[b] + d]
  }

  /** The request and the counters after an action; an action that is not possible changes nothing. */
  function Act(f: seq<int>, q: Request, action: Action): (seq<int>, Request) {
    match action
    case Load(b) =>
      if q.pc == Choosing && b < |f| && f[b] == 0 then (f, q.(pc := Seen(b))) else (f, q)
    case CompareAndSwap =>
      if q.pc.Seen? && q.pc.b < |f| then
        if f[q.pc.b] == 0 then (f[q.pc.b := 1], q.(pc := Holding(q.pc.b))) else (f, q.(pc := Choosing))
      else (f, q)
    case Acquire(b) =>
      if q.pc == Choosing && b < |f| then (Bump(f, b, 1), q.(pc := Holding(b))) else (f, q)
    case Send =>
      if q.pc.Holding? then (f, q.(pc := Sent(q.pc.b), sends := q.sends + 1)) else (f, q)
    case Release(final) =>
      if q.pc.Sent? && q.pc.b < |f| then
        var ended := final || !q.canRetry || q.attempts + 1 >= |f|;
        (Bump(f, q.pc.b, -1), q.(pc := if ended then Ended else Choosing, attempts := q.attempts + 1))
      else (f, q)
  }

  function Step(s: State, t: Turn): State {
    if t.r < |s.requests| then
      var (f, q) := Act(s.inFlight, s.requests[t.r], t.action);
      State(f, s.requests[t.r := q])
    else s
  }

  function Run(s: State, turns: seq<Turn>): State
    decreases turns
  {
    if turns == [] then s else Run(Step(s, turns[0]), turns[1..])
  }

  // ----- the invariant

  predicate Holds(q: Request, b: nat) {
    (q.pc.Holding? || q.pc.Sent?) && q.pc.b == b
  }

  /** How many requests hold backend `b`. */
  function Holders(rs: seq<Request>, b: nat): nat {
    if rs == [] then 0 else Holders(rs[..|rs| - 1], b) + if Holds(rs[|rs| - 1], b) then 1 else 0
  }

  /** One request: backends that exist, attempts within the limit, and a body sent as often as attempts were made. */
  predicate RequestOk(q: Request, backends: nat) {
    && (q.pc.Seen? || q.pc.Holding? || q.pc.Sent? ==> q.pc.b < backends)
    && (!q.pc.Ended? ==> q.attempts < backends && (q.attempts > 0 ==> q.canRetry))
    && q.attempts <= backends
    && q.sends == q.attempts + (if q.pc.Sent? then 1 else 0)
    && (!q.canRetry ==> q.sends <= 1)
  }

  ghost predicate Inv(s: State) {
    && |s.inFlight| > 0
    && (forall r :: 0 <= r < |s.requests| ==> RequestOk(s.requests[r], |s.inFlight|))
    && (forall b :: 0 <= b < |s.inFlight| ==> s.inFlight[b] == Holders(s.requests, b))
  }

  lemma {:induction false} HoldersUpdate(rs: seq<Request>, r: nat, q: Request, b: nat)
    requires r < |rs|
    ensures Holders(rs[r := q], b) == Holders(rs, b) - (if Holds(rs[r], b) then 1 else 0) + (if Holds(q, b) then 1 else 0)
    decreases |rs|
  {
    hide Holds;
    var n := |rs| - 1;
    if r < n {
      HoldersUpdate(rs[..n], r, q, b);
      assert rs[r := q][..n] == rs[..n][r := q];
    } else {
      assert rs[r := q][..n] == rs[..n];
    }
  }

  /** An action moves a counter exactly when it changes who holds the backend. */
  lemma ActCounts(f: seq<int>, q: Request, action: Action, b: nat)
    requires |f| > 0 && RequestOk(q, |f|) && b < |f|
    ensures var (g, p) := Act(f, q, action);
            && |g| == |f| && RequestOk(p, |f|)
            && g[b] == f[b] - (if Holds(q, b) then 1 else 0) + (if Holds(p, b) then 1 else 0)
  {
  }

  lemma StepKeepsInv(s: State, t: Turn)
    requires Inv(s)
    ensures Inv(Step(s, t)) && |Step(s, t).inFlight| == |s.inFlight|
  {
    if t.r < |s.requests| {
      var q := s.requests[t.r];
      assert RequestOk(q, |s.inFlight|);
      var (g, p) := Act(s.inFlight, q, t.action);
      ActCounts(s.inFlight, q, t.action, 0);
      hide Act, RequestOk, Holds;
      forall b | 0 <= b < |g| ensures g[b] == Holders(s.requests[t.r := p], b) {
        ActCounts(s.inFlight, q, t.action, b);
        HoldersUpdate(s.requests, t.r, p, b);
      }
    }
  }

  lemma {:induction false} RunKeepsInv(s: State, turns: seq<Turn>)
    requires Inv(s)
    ensures Inv(Run(s, turns)) && |Run(s, turns).inFlight| == |s.inFlight|
    decreases turns
  {
    hide Inv;
    if turns != [] {
      StepKeepsInv(s, turns[0]);
      RunKeepsInv(Step(s, turns[0]), turns[1..]);
    }
  }

  lemma {:induction false} NobodyHolds(rs: seq<Request>, b: nat)
    requires forall r :: 0 <= r < |rs| ==> !Holds(rs[r], b)
    ensures Holders(rs, b) == 0
    decreases |rs|
  {
    if rs != [] {
      NobodyHolds(rs[..|rs| - 1], b);
    }
  }

  /**
   * In every interleaving each counter equals the number of requests that hold the backend, no request makes
   * more attempts than there are backends, a body that cannot be sent again is sent at most once, and once
   * all requests are done every counter is back at zero.
   */
  lemma CountersExact(backends: nat, canRetry: seq<bool>, turns: seq<Turn>)
    requires backends > 0
    ensures var s := Run(Start(backends, canRetry), turns);
            && |s.inFlight| == backends
            && (forall b :: 0 <= b < backends ==> s.inFlight[b] == Holders(s.requests, b))
            && (forall r :: 0 <= r < |s.requests| ==> s.requests[r].attempts <= backends && s.requests[r].sends <= backends)
            && (forall r :: 0 <= r < |s.requests| && !s.requests[r].canRetry ==> s.requests[r].sends <= 1)
            && ((forall r :: 0 <= r < |s.requests| ==> s.requests[r].pc.Ended?) ==> forall b :: 0 <= b < backends ==> s.inFlight[b] == 0)
  {
    var s0 := Start(backends, canRetry);
    forall b | 0 <= b < backends ensures s0.inFlight[b] == Holders(s0.requests, b) {
      NobodyHolds(s0.requests, b);
    }
    RunKeepsInv(s0, turns);
    var s := Run(s0, turns);
    forall r | 0 <= r < |s.requests| ensures s.requests[r].attempts <= backends && s.requests[r].sends <= backends {
      assert RequestOk(s.requests[r], backends);
    }
    if forall r :: 0 <= r < |s.requests| ==> s.requests[r].pc.Ended? {
      forall b | 0 <= b < backends ensures s.inFlight[b] == 0 {
        NobodyHolds(s.requests, b);
      }
    }
  }

  // ----- what a request gets done

  /** A request that holds nothing can take a backend, be sent to it and give it back, and then it is over. */
  lemma CanFinish(f: seq<int>, q: Request)
    requires |f| > 0 && RequestOk(q, |f|) && (q.pc == Choosing || q.pc.Holding?)
    ensures var (f1, q1) := if q.pc == Choosing then Act(f, q, Acquire(0)) else (f, q);
            var (f2, q2) := Act(f1, q1, Send);
            var (f3, q3) := Act(f2, q2, Release(true));
            q3.pc == Ended && q3.sends == q.sends + 1 && q3.attempts == q.attempts + 1 && (q.pc == Choosing ==> f3 == f)
  {
  }

  /** The compare-and-swap takes an idle backend, and else the request looks on. */
  lemma SwapDecides(f: seq<int>, q: Request)
    requires q.pc.Seen? && q.pc.b < |f|
    ensures var (g, p) := Act(f, q, CompareAndSwap);
            if f[q.pc.b] == 0 then Holds(p, q.pc.b) && g == f[q.pc.b := 1] else p.pc == Choosing && g == f
  {
  }

  /** After a failed attempt a request that may be retried goes on while it has attempts left. */
  lemma FailedGoesOn(f: seq<int>, q: Request)
    requires q.pc.Sent? && q.pc.b < |f| && q.canRetry && q.attempts + 1 < |f|
    ensures Act(f, q, Release(false)).1.pc == Choosing
  {
  }
}
