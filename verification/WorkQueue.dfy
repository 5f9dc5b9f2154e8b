/** The parallel work queue: workers share an index, a failure flag and the first error. */
module WorkQueue {
  import opened Options
  import opened Listing

  /**
   * Where a worker stands: at the top of its loop, past the failure test, with an index claimed, running
   * an item, with the item's error in hand, past setting the flag, or gone.
   */
  datatype Worker = Top | Ready | Claimed(i: nat) | Running(i: nat) | Failing(i: nat) | Recording(i: nat) | Exited

  /** `log` lists the items whose call returned Ok, `bad` those whose call failed, in order; an error is named by its item. */
  datatype State = State(items: nat, workers: seq<Worker>, next: nat, failed: bool, firstErr: Option<nat>, log: seq<nat>, bad: seq<nat>)

  function Start(items: nat, workers: nat): State {
    State(items, seq(workers, _ => Top), 0, false, None, [], [])
  }

  /** The next atomic action of worker `w`; `ok` is the outcome of its call, where it makes one. */
  function Step(s: State, w: nat, ok: bool): State
    requires w < |s.workers|
  {
    match s.workers[w]
    case Top => s.(workers := s.workers[w := if s.failed then Exited else Ready])
    case Ready => s.(workers := s.workers[w := Claimed(s.next)], next := s.next + 1)
    case Claimed(i) => s.(workers := s.workers[w := if i >= s.items then Exited else Running(i)])
    case Running(i) =>
      if ok then s.(workers := s.workers[w := Top], log := s.log + [i])
      else s.(workers := s.workers[w := Failing(i)], bad := s.bad + [i])
    case Failing(i) => s.(workers := s.workers[w := Recording(i)], failed := true)
    case Recording(i) =>
      s.(workers := s.workers[w := Exited], firstErr := if s.firstErr.None? then Some(i) else s.firstErr)
    case Exited => s
  }

  /** An interleaving: which worker acts, and the outcome of its call. */
  datatype Turn = Turn(worker: nat, ok: bool)

  function Run(s: State, turns: seq<Turn>): State
    decreases turns
  {
    if turns == [] then s
    else if turns[0].worker < |s.workers| then Run(Step(s, turns[0].worker, turns[0].ok), turns[1..])
    else Run(s, turns[1..])
  }

  // ----- the invariant

  /** The worker has claimed an item and not finished it. */
  predicate Busy(w: Worker) {
    w.Claimed? || w.Running?
  }

  predicate Erring(w: Worker) {
    w.Failing? || w.Recording?
  }

  /** Handed out and not finished. */
  ghost predicate Open(s: State, i: int) {
    i < s.next && i !in s.log && i !in s.bad
  }

  /** Indices are handed out once: a claimed index is below the counter, not finished, and claimed by one worker. */
  ghost predicate Claims(s: State) {
    && (forall w :: 0 <= w < |s.workers| && Busy(s.workers[w]) ==> Open(s, s.workers[w].i))
    && (forall v, w :: 0 <= v < w < |s.workers| && Busy(s.workers[v]) && Busy(s.workers[w]) ==> s.workers[v].i != s.workers[w].i)
    && (forall w :: 0 <= w < |s.workers| && s.workers[w].Running? ==> s.workers[w].i < s.items)
  }

  /** Finished items are real, different, and below the counter. */
  ghost predicate Finished(s: State) {
    && Distinct(s.log + s.bad)
    && (forall i :: i in s.log || i in s.bad ==> i < s.items && i < s.next)
  }

  ghost predicate HasBusy(s: State, i: nat) {
    exists w :: 0 <= w < |s.workers| && Busy(s.workers[w]) && s.workers[w].i == i
  }

  /** Nothing handed out is forgotten. */
  ghost predicate Covered(s: State) {
    forall i: nat :: i < s.next && i < s.items ==> i in s.log || i in s.bad || HasBusy(s, i)
  }

  ghost predicate HasErring(s: State) {
    exists w :: 0 <= w < |s.workers| && Erring(s.workers[w])
  }

  /** Errors are on their way or recorded, and workers only leave for a reason. */
  ghost predicate Errors(s: State) {
    && (s.bad != [] ==> s.firstErr.Some? || HasErring(s))
    && (s.failed ==> s.bad != [])
    && (forall w :: 0 <= w < |s.workers| && Erring(s.workers[w]) ==> s.workers[w].i in s.bad)
    && (s.firstErr.Some? ==> s.firstErr.value in s.bad)
    && (forall w :: 0 <= w < |s.workers| && s.workers[w].Recording? ==> s.failed)
    && (forall w :: 0 <= w < |s.workers| && s.workers[w].Exited? ==> s.failed || s.next > s.items)
  }

  ghost predicate Inv(s: State) {
    |s.workers| >= 1 && Claims(s) && Finished(s) && Covered(s) && Errors(s)
  }

  lemma ClaimsKept(s: State, w: nat, ok: bool)
    requires Inv(s) && w < |s.workers|
    ensures Claims(Step(s, w, ok))
  {
    hide Covered, Errors;
    var t := Step(s, w, ok);
    forall v | 0 <= v < |t.workers| && Busy(t.workers[v]) ensures Open(t, t.workers[v].i) {
      if v != w {
        assert t.workers[v] == s.workers[v] && Open(s, s.workers[v].i);
      }
    }
    forall u, v | 0 <= u < v < |t.workers| && Busy(t.workers[u]) && Busy(t.workers[v]) ensures t.workers[u].i != t.workers[v].i {
      assert u != w ==> Open(s, s.workers[u].i);
      assert v != w ==> Open(s, s.workers[v].i);
    }
  }

  lemma FinishedKept(s: State, w: nat, ok: bool)
    requires Inv(s) && w < |s.workers|
    ensures Finished(Step(s, w, ok))
  {
    hide Covered, Errors;
    if s.workers[w].Running? {
      var i := s.workers[w].i;
      assert Open(s, i);
      assert i !in s.log && i !in s.bad && i < s.items;
      if ok {
        InsertDistinct(s.log, i, s.bad);
        assert s.log + [i] + s.bad == s.log + ([i] + s.bad);
      } else {
        InsertDistinct(s.log + s.bad, i, []);
        assert s.log + (s.bad + [i]) == s.log + s.bad + ([i] + []);
        assert s.log + s.bad + [] == s.log + s.bad;
      }
    }
  }

  lemma InsertDistinct(a: seq<nat>, i: nat, b: seq<nat>)
    requires Distinct(a + b) && i !in a && i !in b
    ensures Distinct(a + ([i] + b))
  {
    var q := a + ([i] + b);
    var p := a + b;
    forall x, y | 0 <= x < y < |q| ensures q[x] != q[y] {
      if x != |a| && y != |a| {
        assert q[x] == p[if x < |a| then x else x - 1] && q[y] == p[if y < |a| then y else y - 1];
      } else if x == |a| {
        assert q[y] == b[y - |a| - 1];
      } else {
        assert q[x] == a[x];
      }
    }
  }

  lemma CoveredKept(s: State, w: nat, ok: bool)
    requires Inv(s) && w < |s.workers|
    ensures Covered(Step(s, w, ok))
  {
    hide Errors, Claims, Finished;
    var t := Step(s, w, ok);
    forall i: nat | i < t.next && i < t.items ensures i in t.log || i in t.bad || HasBusy(t, i) {
      if s.workers[w] == Ready && i == s.next {
        assert Busy(t.workers[w]) && t.workers[w].i == i;
      } else if HasBusy(s, i) {
        var v :| 0 <= v < |s.workers| && Busy(s.workers[v]) && s.workers[v].i == i;
        if v != w || s.workers[w] == Claimed(i) {
          assert Busy(t.workers[v]) && t.workers[v].i == i;
        }
      }
    }
  }

  lemma ErrorsKept(s: State, w: nat, ok: bool)
    requires Inv(s) && w < |s.workers|
    ensures Errors(Step(s, w, ok))
  {
    hide Covered, Finished;
    var t := Step(s, w, ok);
    assert Claims(s);
    if t.bad != [] && t.firstErr.None? {
      if s.workers[w].Running? && !ok {
        assert Erring(t.workers[w]);
      } else {
        var v :| 0 <= v < |s.workers| && Erring(s.workers[v]);
        assert Erring(t.workers[v]);
      }
    }
  }

  lemma StepKeepsInv(s: State, w: nat, ok: bool)
    requires Inv(s) && w < |s.workers|
    ensures Inv(Step(s, w, ok))
  {
    ClaimsKept(s, w, ok);
    FinishedKept(s, w, ok);
    CoveredKept(s, w, ok);
    ErrorsKept(s, w, ok);
  }

  lemma {:induction false} RunKeepsInv(s: State, turns: seq<Turn>)
    requires Inv(s)
    ensures Inv(Run(s, turns)) && Run(s, turns).items == s.items
    decreases turns
  {
    hide Inv;
    if turns != [] {
      var w := turns[0].worker;
      if w < |s.workers| {
        StepKeepsInv(s, w, turns[0].ok);
        RunKeepsInv(Step(s, w, turns[0].ok), turns[1..]);
      } else {
        RunKeepsInv(s, turns[1..]);
      }
    }
  }

  /** Every reachable state of the queue satisfies the invariant. */
  lemma QueueInv(items: nat, workers: nat, turns: seq<Turn>)
    requires items >= 1 && workers >= 1
    ensures var s := Run(Start(items, workers), turns); Inv(s) && s.items == items
  {
    var s0 := Start(items, workers);
    assert forall w :: 0 <= w < |s0.workers| ==> s0.workers[w] == Top;
    assert Inv(s0);
    RunKeepsInv(s0, turns);
  }

  /** All workers are gone: `run_parallel` returns, with the first error if there is one. */
  ghost predicate Returned(s: State) {
    forall w :: 0 <= w < |s.workers| ==> s.workers[w].Exited?
  }

  /** Each of the first `n` numbers once, in some order. */
  ghost predicate Order(log: seq<nat>, n: nat) {
    Distinct(log) && (forall k :: 0 <= k < |log| ==> log[k] < n)
  }

  ghost predicate CompleteOrder(log: seq<nat>, n: nat) {
    Order(log, n) && forall i: nat :: i < n ==> i in log
  }

  /**
   * In every interleaving no item is processed twice; when `run_parallel` returns Ok every item was
   * processed, successfully and exactly once, and when it returns an error that item's call failed.
   */
  lemma EachItemOnce(items: nat, workers: nat, turns: seq<Turn>)
    requires items >= 1 && workers >= 1
    ensures var s := Run(Start(items, workers), turns);
            && Order(s.log, items) && Distinct(s.log + s.bad)
            && (Returned(s) && s.firstErr.None? ==> CompleteOrder(s.log, items) && s.bad == [])
            && (Returned(s) && s.firstErr.Some? ==> s.firstErr.value in s.bad && s.firstErr.value !in s.log)
  {
    var s := Run(Start(items, workers), turns);
    QueueInv(items, workers, turns);
    var both := s.log + s.bad;
    assert forall k :: 0 <= k < |s.log| ==> both[k] == s.log[k];
    assert forall k :: 0 <= k < |s.bad| ==> both[|s.log| + k] == s.bad[k];
    assert forall k :: 0 <= k < |s.log| ==> s.log[k] in s.log;
    if Returned(s) && s.firstErr.None? {
      assert s.workers[0].Exited?;
      forall i: nat | i < items ensures i in s.log {
        assert !HasBusy(s, i);
      }
    }
  }

  // ----- after a failure, and getting done

  /** Workers that passed the failure test and have not finished their item. */
  function Pending(ws: seq<Worker>): nat {
    if ws == [] then 0 else Pending(ws[..|ws| - 1]) + One(ws[|ws| - 1])
  }

  function One(w: Worker): nat {
    if w.Ready? || w.Claimed? || w.Running? then 1 else 0
  }

  lemma {:induction false} PendingUpdate(ws: seq<Worker>, w: nat, x: Worker)
    requires w < |ws|
    ensures Pending(ws[w := x]) == Pending(ws) - One(ws[w]) + One(x)
    decreases |ws|
  {
    hide One;
    var n := |ws| - 1;
    if w < n {
      PendingUpdate(ws[..n], w, x);
      assert ws[w := x][..n] == ws[..n][w := x];
    } else {
      assert ws[w := x][..n] == ws[..n];
    }
  }

  lemma {:induction false} PendingBound(ws: seq<Worker>)
    ensures Pending(ws) <= |ws|
  {
    if ws != [] {
      PendingBound(ws[..|ws| - 1]);
    }
  }

  /** Calls made so far. */
  function Calls(s: State): nat {
    |s.log| + |s.bad|
  }

  /** Once the flag is set only the items already taken are still called, at most one by each worker, and the recorded error stays. */
  lemma {:induction false} AfterFailure(s: State, turns: seq<Turn>)
    requires s.failed
    ensures var t := Run(s, turns);
            && t.failed && Calls(t) + Pending(t.workers) <= Calls(s) + Pending(s.workers) <= Calls(s) + |s.workers|
            && (s.firstErr.Some? ==> t.firstErr == s.firstErr)
    decreases turns
  {
    PendingBound(s.workers);
    if turns != [] {
      var w := turns[0].worker;
      if w < |s.workers| {
        var t := Step(s, w, turns[0].ok);
        PendingUpdate(s.workers, w, t.workers[w]);
        assert t.workers == s.workers[w := t.workers[w]];
        hide Step;
        AfterFailure(t, turns[1..]);
      } else {
        AfterFailure(s, turns[1..]);
      }
    }
  }

  /** The first error that is recorded stays the one that is returned. */
  lemma {:induction false} FirstErrorStays(s: State, turns: seq<Turn>)
    requires s.firstErr.Some?
    ensures Run(s, turns).firstErr == s.firstErr
    decreases turns
  {
    if turns != [] {
      FirstErrorStays(if turns[0].worker < |s.workers| then Step(s, turns[0].worker, turns[0].ok) else s, turns[1..]);
    }
  }

  /** How far a worker is from being gone, if no index were handed out any more. */
  function Distance(items: nat, w: Worker): nat {
    match w
    case Exited => 0
    case Recording(_) => 1
    case Failing(_) => 2
    case Ready => 2
    case Top => 3
    case Running(_) => 4
    case Claimed(i) => if i < items then 5 else 1
  }

  function Distances(items: nat, ws: seq<Worker>): nat {
    if ws == [] then 0 else Distances(items, ws[..|ws| - 1]) + Distance(items, ws[|ws| - 1])
  }

  function Left(s: State): nat {
    6 * (if s.next < s.items then s.items - s.next else 0) + Distances(s.items, s.workers)
  }

  lemma {:induction false} DistancesUpdate(items: nat, ws: seq<Worker>, w: nat, x: Worker)
    requires w < |ws|
    ensures Distances(items, ws[w := x]) == Distances(items, ws) - Distance(items, ws[w]) + Distance(items, x)
    decreases |ws|
  {
    hide Distance;
    var n := |ws| - 1;
    if w < n {
      DistancesUpdate(items, ws[..n], w, x);
      assert ws[w := x][..n] == ws[..n][w := x];
    } else {
      assert ws[w := x][..n] == ws[..n];
    }
  }

  /** Every turn of a worker that is not gone brings the queue nearer to its end, so it returns. */
  lemma TurnsBringTheEnd(s: State, w: nat, ok: bool)
    requires w < |s.workers| && !s.workers[w].Exited?
    ensures Left(Step(s, w, ok)) < Left(s)
  {
    var t := Step(s, w, ok);
    DistancesUpdate(s.items, s.workers, w, t.workers[w]);
    assert t.workers == s.workers[w := t.workers[w]];
  }
}
