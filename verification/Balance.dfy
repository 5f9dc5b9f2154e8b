/** Backend selection and the retry loop of the proxy, without interference from other requests. */
module Balance {
  import opened Options

  const TWO32: int := 0x1_0000_0000

  datatype Policy = FirstAvailable | LeastLoaded

  /** The pool: requests in flight and the end of the broken time for each backend, and the rotation counter. */
  class Pool {
    const policy: Policy
    const failTimeout: int
    var inFlight: seq<int>
    var brokenUntil: seq<Option<int>>
    var n: nat

    /** `BackendPool::new`. */
    constructor (policy: Policy, size: nat, failTimeout: int)
      requires size < TWO32
      ensures this.policy == policy && this.failTimeout == failTimeout && Valid()
      ensures |inFlight| == size && n == 0 && forall i :: 0 <= i < size ==> inFlight[i] == 0 && brokenUntil[i] == None
    {
      this.policy := policy;
      this.failTimeout := failTimeout;
      inFlight := seq(size, _ => 0);
      brokenUntil := seq(size, _ => None);
      n := 0;
    }

    ghost predicate Valid()
      reads this
    {
      |inFlight| == |brokenUntil| && n < TWO32 && |inFlight| < TWO32
    }

    predicate Broken(i: nat, now: int)
      reads this`brokenUntil
      requires i < |brokenUntil|
    {
      brokenUntil[i].Some? && now < brokenUntil[i].value
    }

    /** `acquire` and `release`. */
    method Add(i: nat, d: int)
      requires Valid() && i < |inFlight|
      modifies this`inFlight
      ensures Valid() && inFlight == old(inFlight)[i := old(inFlight[i]) + d]
    {
      inFlight := inFlight[i := inFlight[i] + d];
    }

    /** `get_first_available_backend`: the first backend that is not broken, else the first one. */
    method FirstAvailableBackend(now: int) returns (idx: nat)
      requires Valid() && |inFlight| > 0
      modifies this`inFlight
      ensures Valid() && idx < |inFlight| && inFlight == old(inFlight)[idx := old(inFlight)[idx] + 1]
      ensures if exists i :: 0 <= i < |inFlight| && Healthy(brokenUntil[i], now)
              then Healthy(brokenUntil[idx], now) && forall i :: 0 <= i < idx ==> !Healthy(brokenUntil[i], now)
              else idx == 0
    {
      idx := 0;
      if Broken(0, now) {
        var i := 1;
        while i < |inFlight|
          invariant 1 <= i <= |inFlight| && forall k :: 0 <= k < i ==> Broken(k, now) && !Healthy(brokenUntil[k], now)
        {
          if !Broken(i, now) {
            idx := i;
            break;
          }
          i := i + 1;
        }
      }
      Add(idx, 1);
    }

    /** The first loop: the first idle healthy backend of the rotation, taken by compare-and-swap. */
    method TakeIdle(now: int, n0: nat) returns (found: Option<nat>)
      requires Valid() && |inFlight| > 0 && n0 < TWO32
      modifies this`inFlight
      ensures Valid()
      ensures found.None? ==> inFlight == old(inFlight) && forall i :: 0 <= i < |inFlight| ==> !Idle(old(inFlight), brokenUntil, At(n0, i, |inFlight|), now)
      ensures found.Some? ==> found.value < |inFlight| && Idle(old(inFlight), brokenUntil, found.value, now) && inFlight == old(inFlight)[found.value := 1]
      ensures found.Some? ==> exists i :: 0 <= i < |inFlight| && found.value == At(n0, i, |inFlight|) && NoneIdleBefore(old(inFlight), brokenUntil, n0, i, now)
    {
      hide At;
      var len := |inFlight|;
      var i := 0;
      while i < len
        invariant 0 <= i <= len && inFlight == old(inFlight) && Valid()
        invariant forall k :: 0 <= k < i ==> !Idle(inFlight, brokenUntil, At(n0, k, len), now)
      {
        var idx := At(n0, i, len);
        if !Broken(idx, now) && inFlight[idx] == 0 {
          inFlight := inFlight[idx := 1];
          return Some(idx);
        }
        i := i + 1;
      }
      return None;
    }

    /** The second loop: the least loaded healthy backend of the rotation. */
    method FindLeast(now: int, n0: nat) returns (idx: nat)
      requires Valid() && |inFlight| > 0 && n0 < TWO32
      ensures idx < |inFlight| && exists i :: 0 <= i < |inFlight| && idx == At(n0, i, |inFlight|)
      ensures forall i :: 0 <= i < |inFlight| ==> NotBetter(inFlight, brokenUntil, At(n0, i, |inFlight|), idx, now)
    {
      hide At;
      var len := |inFlight|;
      idx := At(n0, 0, len);
      var least := inFlight[idx];
      var i := 1;
      while i < len
        invariant 1 <= i <= len && idx < len && least == inFlight[idx]
        invariant exists k :: 0 <= k < i && idx == At(n0, k, len)
        invariant forall k :: 0 <= k < i ==> NotBetter(inFlight, brokenUntil, At(n0, k, len), idx, now)
      {
        var b := At(n0, i, len);
        if !Broken(b, now) && (inFlight[b] < least || Broken(idx, now)) {
          idx, least := b, inFlight[b];
        }
        i := i + 1;
      }
    }

    /** `get_least_loaded_backend`. */
    method LeastLoadedBackend(now: int) returns (idx: nat)
      requires Valid() && |inFlight| > 0 && forall i :: 0 <= i < |inFlight| ==> inFlight[i] >= 0
      modifies this`inFlight, this`n
      ensures Valid() && idx < |inFlight| && inFlight == old(inFlight)[idx := old(inFlight)[idx] + 1]
      ensures |inFlight| == 1 ==> idx == 0
      ensures |inFlight| >= 2 && old(n) + |inFlight| <= TWO32 ==>
        Best(old(inFlight), brokenUntil, idx, now) && n == if Broken(idx, now) then old(n) + 1 else idx + 1
      ensures n <= old(n) + 1 || n <= |inFlight|
    {
      hide At;
      var len := |inFlight|;
      if len == 1 {
        Add(0, 1);
        return 0;
      }
      var n0 := n;
      n := (n + 1) % TWO32;
      if n0 + len <= TWO32 {
        NoWrap(n0 + 1);
      }
      var found := TakeIdle(now, n0);
      if found.Some? {
        Swap(n0, found.value);
        return found.value;
      }
      idx := TakeLeast(now, n0);
    }

    /** The rest of the choice when no backend of the rotation is idle and healthy. */
    method TakeLeast(now: int, n0: nat) returns (idx: nat)
      requires Valid() && |inFlight| >= 2 && n0 < TWO32
      requires forall i :: 0 <= i < |inFlight| ==> !Idle(inFlight, brokenUntil, At(n0, i, |inFlight|), now)
      modifies this`inFlight, this`n
      ensures Valid() && idx < |inFlight| && inFlight == old(inFlight)[idx := old(inFlight)[idx] + 1]
      ensures n0 + |inFlight| <= TWO32 ==> Best(old(inFlight), brokenUntil, idx, now)
      ensures n == old(n) || n == idx + 1
      ensures n0 + |inFlight| <= TWO32 && old(n) == (n0 + 1) % TWO32 ==> n == if Broken(idx, now) then old(n) else idx + 1
    {
      hide At;
      var len := |inFlight|;
      var least := FindLeast(now, n0);
      if n0 + len <= TWO32 {
        forall j | 0 <= j < len ensures !Idle(inFlight, brokenUntil, j, now) && NotBetter(inFlight, brokenUntil, j, least, now) {
          var i := RotationVisits(n0, len, j);
        }
      }
      if Broken(least, now) {
        if n0 + len <= TWO32 {
          forall j | 0 <= j < len ensures Down(brokenUntil, j, now) {
            assert NotBetter(inFlight, brokenUntil, j, least, now);
          }
        }
        Add(0, 1);
        return 0;
      }
      assert !Down(brokenUntil, least, now);
      Add(least, 1);
      Swap(n0, least);
      return least;
    }

    /** The compare-and-swap of the rotation counter. */
    method Swap(n0: nat, idx: nat)
      requires Valid() && idx < |inFlight|
      modifies this`n
      ensures Valid() && n == if old(n) == (n0 + 1) % TWO32 then idx + 1 else old(n)
    {
      if n == (n0 + 1) % TWO32 {
        n := idx + 1;
      }
    }

    /** `select`. */
    method Select(now: int) returns (chosen: Option<nat>)
      requires Valid() && forall i :: 0 <= i < |inFlight| ==> inFlight[i] >= 0
      modifies this`inFlight, this`n
      ensures Valid() && (chosen.None? <==> |inFlight| == 0)
      ensures chosen.None? ==> inFlight == old(inFlight)
      ensures chosen.Some? ==> chosen.value < |inFlight| && inFlight == old(inFlight)[chosen.value := old(inFlight)[chosen.value] + 1]
      ensures chosen.Some? && policy == FirstAvailable ==>
        if exists i :: 0 <= i < |inFlight| && Healthy(brokenUntil[i], now)
        then Healthy(brokenUntil[chosen.value], now) && forall i :: 0 <= i < chosen.value ==> !Healthy(brokenUntil[i], now)
        else chosen.value == 0
      ensures policy == LeastLoaded && |inFlight| >= 2 && old(n) + |inFlight| <= TWO32 ==> Best(old(inFlight), brokenUntil, chosen.value, now)
      ensures n <= old(n) + 1 || n <= |inFlight|
    {
      if |inFlight| == 0 {
        return None;
      }
      var idx: nat;
      match policy {
        case FirstAvailable => idx := FirstAvailableBackend(now);
        case LeastLoaded => idx := LeastLoadedBackend(now);
      }
      return Some(idx);
    }
  }

  /** The i-th backend of the rotation from `n`, in u32 arithmetic. */
  function At(n: nat, i: nat, len: nat): (idx: nat)
    requires len > 0
    ensures idx < len
  {
    ((n + i) % TWO32) % len
  }

  predicate Down(brokenUntil: seq<Option<int>>, i: nat, now: int)
    requires i < |brokenUntil|
  {
    brokenUntil[i].Some? && now < brokenUntil[i].value
  }

  predicate Idle(inFlight: seq<int>, brokenUntil: seq<Option<int>>, i: nat, now: int)
    requires i < |inFlight| == |brokenUntil|
  {
    !Down(brokenUntil, i, now) && inFlight[i] == 0
  }

  /** The first `i` backends of the rotation are busy or broken. */
  ghost predicate NoneIdleBefore(inFlight: seq<int>, brokenUntil: seq<Option<int>>, n: nat, i: nat, now: int)
    requires 0 < |inFlight| == |brokenUntil|
  {
    forall k :: 0 <= k < i ==> !Idle(inFlight, brokenUntil, At(n, k, |inFlight|), now)
  }

  /** Backend `i` is no better choice than `idx`. */
  predicate NotBetter(inFlight: seq<int>, brokenUntil: seq<Option<int>>, i: nat, idx: nat, now: int)
    requires i < |inFlight| == |brokenUntil| && idx < |inFlight|
  {
    Down(brokenUntil, i, now) || (!Down(brokenUntil, idx, now) && inFlight[idx] <= inFlight[i])
  }

  /** An idle healthy backend if there is one, else a healthy one of least load, and the first only if all are broken. */
  ghost predicate Best(inFlight: seq<int>, brokenUntil: seq<Option<int>>, idx: nat, now: int)
    requires idx < |inFlight| == |brokenUntil|
  {
    if forall i :: 0 <= i < |inFlight| ==> Down(brokenUntil, i, now) then idx == 0
    else
      && !Down(brokenUntil, idx, now)
      && (forall i :: 0 <= i < |inFlight| ==> NotBetter(inFlight, brokenUntil, i, idx, now))
      && ((exists i :: 0 <= i < |inFlight| && Idle(inFlight, brokenUntil, i, now)) ==> inFlight[idx] == 0)
  }

  /** What the best choice is: healthy and of least load among the healthy ones, and the first one if none is healthy. */
  lemma BestMeaning(inFlight: seq<int>, brokenUntil: seq<Option<int>>, idx: nat, now: int)
    requires idx < |inFlight| == |brokenUntil| && Best(inFlight, brokenUntil, idx, now)
    ensures if exists i :: 0 <= i < |inFlight| && Healthy(brokenUntil[i], now)
            then Healthy(brokenUntil[idx], now) && forall i :: 0 <= i < |inFlight| && Healthy(brokenUntil[i], now) ==> inFlight[idx] <= inFlight[i]
            else idx == 0
  {
    forall i | 0 <= i < |inFlight| ensures Down(brokenUntil, i, now) == !Healthy(brokenUntil[i], now) {
    }
    if i :| 0 <= i < |inFlight| && Healthy(brokenUntil[i], now) {
      assert !Down(brokenUntil, i, now);
      forall j | 0 <= j < |inFlight| && Healthy(brokenUntil[j], now) ensures inFlight[idx] <= inFlight[j] {
        assert NotBetter(inFlight, brokenUntil, j, idx, now) && !Down(brokenUntil, j, now);
      }
    }
  }

  /** Before the counter wraps the rotation visits every backend. */
  lemma RotationVisits(n: nat, len: nat, j: nat) returns (i: nat)
    requires j < len && n + len <= TWO32
    ensures i < len && At(n, i, len) == j
  {
    var q, r := n / len, n % len;
    i := if j >= r then j - r else j - r + len;
    assert n == q * len + r;
    RemainderOf(n + i, q, r + i, len);
    NoWrap(n + i);
  }

  lemma NoWrap(m: nat)
    requires m < TWO32
    ensures m % TWO32 == m
  {
  }

  lemma RemainderOf(m: nat, q: nat, x: nat, len: nat)
    requires len > 0 && x < 2 * len && m == q * len + x
    ensures m % len == if x < len then x else x - len
  {
    if x < len {
      Unique(m, len, q, x);
    } else {
      assert (q + 1) * len == q * len + len;
      Unique(m, len, q + 1, x - len);
    }
  }

  lemma Unique(m: int, d: int, q: int, r: int)
    requires d > 0 && 0 <= r < d && m == q * d + r
    ensures m % d == r
  {
    var k := q - m / d;
    assert m == (m / d) * d + m % d;
    assert k * d == m % d - r;
    AtLeast(k, d);
    AtLeast(-k, d);
    assert (-k) * d == -(k * d);
  }

  lemma AtLeast(k: int, d: int)
    requires d > 0
    ensures k >= 1 ==> k * d >= d
  {
  }

  // ----- the retry loop

  datatype Outcome = Answered | Canceled | ConnectError | RetryStatus

  datatype Reply = Relayed | ClientGone | Unavailable | NotRetried

  /** The outcomes of the attempts and the clock readings around them. */
  datatype World = World(outcome: nat -> Outcome, selectAt: nat -> int, failAt: nat -> int)

  ghost predicate NonNegative(s: seq<int>) {
    forall i :: 0 <= i < |s| ==> s[i] >= 0
  }

  /** The backend may be used: it was never marked broken, or the time of its last mark is over. */
  ghost predicate Healthy(until: Option<int>, now: int) {
    until.None? || until.value <= now
  }

  /** While a backend is healthy that the request has not tried, attempt `k` goes to one it has not tried. */
  ghost predicate GoesOn(brokenUntil: seq<Option<int>>, tried: seq<nat>, world: World, k: nat)
    requires k < |tried|
  {
    (exists i: nat :: i < |brokenUntil| && Healthy(brokenUntil[i], world.selectAt(k)) && i !in tried[..k]) ==> tried[k] !in tried[..k]
  }

  ghost predicate AllGoOn(brokenUntil: seq<Option<int>>, tried: seq<nat>, world: World) {
    forall k :: 0 <= k < |tried| ==> GoesOn(brokenUntil, tried, world, k)
  }

  lemma NoneGoOn(brokenUntil: seq<Option<int>>, world: World)
    ensures AllGoOn(brokenUntil, [], world)
  {
  }

  /** The request is over before the first mark it makes. */
  ghost predicate Quick(world: World, timeout: int) {
    forall j: nat, k: nat :: j < k ==> world.selectAt(k) < world.failAt(j) + timeout
  }

  /** An attempt that failed in a way that can be retried. */
  ghost predicate FailedAt(world: World, k: nat) {
    world.outcome(k) == ConnectError || world.outcome(k) == RetryStatus
  }

  /** What a reply says about the attempts on `tried` in a pool of `size` backends. */
  ghost predicate ReplyMeans(reply: Reply, tried: seq<nat>, world: World, canRetry: bool, size: nat) {
    var n := |tried|;
    && n <= size && (!canRetry ==> n <= 1) && (forall k :: 0 <= k < n ==> tried[k] < size) && (forall k :: 0 <= k < n - 1 ==> canRetry && FailedAt(world, k))
    && (n < size ==> n > 0 && (world.outcome(n - 1) == Answered || world.outcome(n - 1) == Canceled || !canRetry))
    && (reply == Relayed <==> n > 0 && world.outcome(n - 1) == Answered)
    && (reply == ClientGone <==> n > 0 && world.outcome(n - 1) == Canceled)
    && (reply == NotRetried <==> !canRetry && n > 0 && FailedAt(world, n - 1))
    && (reply == Unavailable <==> n == size && (n == 0 || (canRetry && FailedAt(world, n - 1))))
  }

  /** Between attempts: all failed and may be retried, the marks are theirs, and they went on if they are `steady`. */
  ghost predicate Between(start: seq<Option<int>>, marks: seq<Option<int>>, tried: seq<nat>, world: World, canRetry: bool, timeout: int, steady: bool) {
    && |tried| <= |start| && (tried != [] ==> canRetry)
    && (forall k :: 0 <= k < |tried| ==> tried[k] < |start| && FailedAt(world, k))
    && marks == Marked(start, tried, world, canRetry, timeout)
    && (steady && canRetry && Quick(world, timeout) ==> AllGoOn(start, tried, world))
  }

  lemma BetweenNone(start: seq<Option<int>>, world: World, canRetry: bool, timeout: int, steady: bool)
    ensures Between(start, start, [], world, canRetry, timeout, steady)
  {
    MarkedNone(start, world, canRetry, timeout);
    NoneGoOn(start, world);
  }

  /** After one more attempt, on `b`. */
  lemma BetweenMore(start: seq<Option<int>>, marks: seq<Option<int>>, tried: seq<nat>, world: World, canRetry: bool, timeout: int, steady: bool,
    b: nat, after: seq<Option<int>>, verdict: Option<Reply>)
    requires Between(start, marks, tried, world, canRetry, timeout, steady) && |tried| < |start| && b < |start|
    requires after == if Marks(world.outcome(|tried|), canRetry) then marks[b := Some(world.failAt(|tried|) + timeout)] else marks
    requires verdict == Verdict(world.outcome(|tried|), canRetry)
    requires steady ==> GoesToHealthy(marks, world, |tried|, b)
    ensures after == Marked(start, tried + [b], world, canRetry, timeout)
    ensures steady && canRetry && Quick(world, timeout) ==> AllGoOn(start, tried + [b], world)
    ensures verdict.None? ==> Between(start, after, tried + [b], world, canRetry, timeout, steady)
    ensures verdict.Some? ==> ReplyMeans(verdict.value, tried + [b], world, canRetry, |start|)
  {
    hide Marked, AllGoOn, Quick, GoesToHealthy;
    MarkedStep(start, tried, b, world, canRetry, timeout);
    if steady && canRetry && Quick(world, timeout) {
      GoesFurther(start, marks, tried, b, world, timeout);
    }
  }

  /** No backend is left to try. */
  lemma BetweenEnds(start: seq<Option<int>>, marks: seq<Option<int>>, tried: seq<nat>, world: World, canRetry: bool, timeout: int, steady: bool)
    requires Between(start, marks, tried, world, canRetry, timeout, steady) && |tried| == |start|
    ensures ReplyMeans(Unavailable, tried, world, canRetry, |start|) && marks == Marked(start, tried, world, canRetry, timeout)
    ensures steady && canRetry && Quick(world, timeout) ==> AllGoOn(start, tried, world)
  {
    hide Marked, AllGoOn, Quick;
    if tried != [] {
      assert FailedAt(world, |tried| - 1);
    }
  }

  /** If a backend is healthy by the marks, then the chosen one is. */
  ghost predicate GoesToHealthy(marks: seq<Option<int>>, world: World, k: nat, b: nat) {
    b < |marks| && ((exists i: nat :: i < |marks| && Healthy(marks[i], world.selectAt(k))) ==> Healthy(marks[b], world.selectAt(k)))
  }

  /**
   * The loop of `Proxy::proxy`. Every backend taken is given back, there are at most as many attempts as
   * backends, a body that cannot be sent again is sent at most once, and only backends that failed an
   * attempt are marked broken. The reply says what became of the last attempt; a failed one that may be
   * retried is followed by another as long as there are backends, and a quick request does not come back to
   * a backend while there is a healthy one it has not tried.
   */
  method Proxy(pool: Pool, world: World, canRetry: bool) returns (reply: Reply, tried: seq<nat>)
    requires pool.Valid() && NonNegative(pool.inFlight)
    modifies pool`inFlight, pool`n, pool`brokenUntil
    ensures pool.Valid() && pool.inFlight == old(pool.inFlight)
    ensures ReplyMeans(reply, tried, world, canRetry, |pool.inFlight|)
    ensures pool.brokenUntil == Marked(old(pool.brokenUntil), tried, world, canRetry, pool.failTimeout)
    ensures canRetry && Quick(world, pool.failTimeout) && (pool.policy == FirstAvailable || old(pool.n) + 3 * |pool.inFlight| <= TWO32) ==>
      AllGoOn(old(pool.brokenUntil), tried, world)
  {
    hide Marked, Marks, Quick, AllGoOn, GoesToHealthy, Verdict;
    tried := [];
    var k := 0;
    var most := |pool.inFlight|;
    ghost var start := pool.brokenUntil;
    ghost var steady := pool.policy == FirstAvailable || pool.n + 3 * most <= TWO32;
    BetweenNone(start, world, canRetry, pool.failTimeout, steady);
    while k < most
      invariant 0 <= k == |tried| <= most && pool.Valid() && pool.inFlight == old(pool.inFlight)
      invariant pool.n <= old(pool.n) + k || pool.n <= most + k
      invariant Between(start, pool.brokenUntil, tried, world, canRetry, pool.failTimeout, steady)
    {
      ghost var marks := pool.brokenUntil;
      var b, verdict := Attempt(pool, world, k, canRetry);
      BetweenMore(start, marks, tried, world, canRetry, pool.failTimeout, steady, b, pool.brokenUntil, verdict);
      hide Between, ReplyMeans;
      tried := tried + [b];
      k := k + 1;
      if verdict.Some? {
        return verdict.value, tried;
      }
    }
    BetweenEnds(start, pool.brokenUntil, tried, world, canRetry, pool.failTimeout, steady);
    return Unavailable, tried;
  }

  /** A backend that was tried is not healthy for a quick request, so the next attempt goes elsewhere if it can. */
  lemma GoesFurther(brokenUntil: seq<Option<int>>, marks: seq<Option<int>>, tried: seq<nat>, b: nat, world: World, timeout: int)
    requires Quick(world, timeout) && marks == Marked(brokenUntil, tried, world, true, timeout) && b < |marks|
    requires forall j :: 0 <= j < |tried| ==> tried[j] < |marks| && FailedAt(world, j)
    requires GoesToHealthy(marks, world, |tried|, b)
    requires AllGoOn(brokenUntil, tried, world)
    ensures AllGoOn(brokenUntil, tried + [b], world)
  {
    var n, all := |tried|, tried + [b];
    forall j | 0 <= j < n ensures GoesOn(brokenUntil, all, world, j) {
      assert GoesOn(brokenUntil, tried, world, j);
      assert all[..j] == tried[..j];
    }
    assert all[..n] == tried;
    forall i: nat | i < |marks| && i in tried ensures !Healthy(marks[i], world.selectAt(n)) {
      TriedIsMarked(brokenUntil, tried, world, timeout, i);
    }
    hide Marked;
    if i: nat :| i < |brokenUntil| && Healthy(brokenUntil[i], world.selectAt(n)) && i !in tried {
      assert marks[i] == brokenUntil[i];
    }
  }

  /** A backend on which an attempt failed is marked from one of these attempts on. */
  lemma {:induction false} TriedIsMarked(brokenUntil: seq<Option<int>>, tried: seq<nat>, world: World, timeout: int, i: nat)
    requires i < |brokenUntil| && i in tried
    requires forall j :: 0 <= j < |tried| ==> tried[j] < |brokenUntil| && FailedAt(world, j)
    ensures exists j :: 0 <= j < |tried| && Marked(brokenUntil, tried, world, true, timeout)[i] == Some(world.failAt(j) + timeout)
    decreases |tried|
  {
    var k := |tried| - 1;
    if tried[k] == i {
      assert Marked(brokenUntil, tried, world, true, timeout)[i] == Some(world.failAt(k) + timeout);
    } else {
      TriedIsMarked(brokenUntil, tried[..k], world, timeout, i);
      var j :| 0 <= j < k && Marked(brokenUntil, tried[..k], world, true, timeout)[i] == Some(world.failAt(j) + timeout);
      assert Marked(brokenUntil, tried, world, true, timeout)[i] == Some(world.failAt(j) + timeout);
    }
  }

  /** What the client gets after an attempt, or nothing if another one follows. */
  function Verdict(o: Outcome, canRetry: bool): Option<Reply> {
    match o
    case Answered => Some(Relayed)
    case Canceled => Some(ClientGone)
    case _ => if canRetry then None else Some(NotRetried)
  }

  /** One attempt: a backend is taken, given back, and marked broken if the attempt failed for it. */
  method Attempt(pool: Pool, world: World, k: nat, canRetry: bool) returns (b: nat, verdict: Option<Reply>)
    requires pool.Valid() && NonNegative(pool.inFlight) && |pool.inFlight| > 0
    modifies pool`inFlight, pool`n, pool`brokenUntil
    ensures pool.Valid() && pool.inFlight == old(pool.inFlight) && b < |pool.inFlight|
    ensures pool.brokenUntil ==
      if Marks(world.outcome(k), canRetry) then old(pool.brokenUntil)[b := Some(world.failAt(k) + pool.failTimeout)] else old(pool.brokenUntil)
    ensures verdict == Verdict(world.outcome(k), canRetry)
    ensures pool.n <= old(pool.n) + 1 || pool.n <= |pool.inFlight|
    ensures pool.policy == FirstAvailable || old(pool.n) + |pool.inFlight| <= TWO32 ==> GoesToHealthy(old(pool.brokenUntil), world, k, b)
  {
    var now := world.selectAt(k);
    var chosen := pool.Select(now);
    b := chosen.value;
    forall i: nat | i < |pool.inFlight|
      ensures pool.Broken(i, now) == Down(pool.brokenUntil, i, now) == !Healthy(pool.brokenUntil[i], now)
    {
    }
    pool.Add(b, -1);
    assert pool.inFlight == old(pool.inFlight);
    match world.outcome(k) {
      case Answered => return b, Some(Relayed);
      case Canceled => return b, Some(ClientGone);
      case ConnectError =>
        pool.brokenUntil := pool.brokenUntil[b := Some(world.failAt(k) + pool.failTimeout)];
        if !canRetry {
          return b, Some(NotRetried);
        }
      case RetryStatus =>
        if !canRetry {
          return b, Some(NotRetried);
        }
        pool.brokenUntil := pool.brokenUntil[b := Some(world.failAt(k) + pool.failTimeout)];
    }
    return b, None;
  }

  /** Whether an attempt marks its backend broken: a retryable status does so only if the request goes on. */
  predicate Marks(o: Outcome, canRetry: bool) {
    o == ConnectError || (o == RetryStatus && canRetry)
  }

  /** The broken times after the attempts on `tried`. */
  function Marked(brokenUntil: seq<Option<int>>, tried: seq<nat>, world: World, canRetry: bool, timeout: int): (m: seq<Option<int>>)
    ensures |m| == |brokenUntil| && forall i :: 0 <= i < |m| && i !in tried ==> m[i] == brokenUntil[i]
  {
    if tried == [] then brokenUntil
    else
      var k := |tried| - 1;
      var m := Marked(brokenUntil, tried[..k], world, canRetry, timeout);
      if tried[k] < |m| && Marks(world.outcome(k), canRetry) then m[tried[k] := Some(world.failAt(k) + timeout)] else m
  }

  /**
   * What the marks mean: a backend is marked from the last attempt on it that failed to connect, or failed by
   * its status while the request could be retried; one without such an attempt keeps its mark.
   */
  lemma {:induction false} MarkedMeaning(brokenUntil: seq<Option<int>>, tried: seq<nat>, world: World, canRetry: bool, timeout: int, i: nat)
    requires i < |brokenUntil|
    ensures Marked(brokenUntil, tried, world, canRetry, timeout)[i] ==
      match LastBlame(tried, world, canRetry, i) {
        case None => brokenUntil[i]
        case Some(k) => Some(world.failAt(k) + timeout)
      }
    decreases |tried|
  {
    if tried != [] {
      MarkedMeaning(brokenUntil, tried[..|tried| - 1], world, canRetry, timeout, i);
    }
  }

  /** The last attempt that is held against backend `i`. */
  ghost function LastBlame(tried: seq<nat>, world: World, canRetry: bool, i: nat): (last: Option<nat>)
    ensures last.Some? ==> last.value < |tried| && Blames(tried, world, canRetry, i, last.value)
    ensures forall k :: 0 <= k < |tried| && (last.None? || last.value < k) ==> !Blames(tried, world, canRetry, i, k)
  {
    if tried == [] then None
    else if Blames(tried, world, canRetry, i, |tried| - 1) then Some(|tried| - 1)
    else
      var front := tried[..|tried| - 1];
      assert forall k :: 0 <= k < |front| ==> Blames(front, world, canRetry, i, k) == Blames(tried, world, canRetry, i, k);
      LastBlame(front, world, canRetry, i)
  }

  ghost predicate Blames(tried: seq<nat>, world: World, canRetry: bool, i: nat, k: nat)
    requires k < |tried|
  {
    tried[k] == i && match world.outcome(k) {
      case ConnectError => true
      case RetryStatus => canRetry
      case _ => false
    }
  }

  lemma MarkedNone(brokenUntil: seq<Option<int>>, world: World, canRetry: bool, timeout: int)
    ensures Marked(brokenUntil, [], world, canRetry, timeout) == brokenUntil
  {
  }

  lemma MarkedStep(brokenUntil: seq<Option<int>>, tried: seq<nat>, b: nat, world: World, canRetry: bool, timeout: int)
    requires b < |brokenUntil|
    ensures var m := Marked(brokenUntil, tried, world, canRetry, timeout);
            Marked(brokenUntil, tried + [b], world, canRetry, timeout)
            == if Marks(world.outcome(|tried|), canRetry) then m[b := Some(world.failAt(|tried|) + timeout)] else m
  {
    assert (tried + [b])[..|tried|] == tried;
  }
}
