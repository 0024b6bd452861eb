/** The line rate limiter of internal/agent/log_collect.go, over any run of requests. */
module RateLimit {
  import opened Basics

  type Time = int

  /** One second in nanoseconds. */
  const SECOND: Time := 1_000_000_000

  /** The window that is running, if any, and the lines admitted in it. */
  datatype Limiter = Limiter(window: Option<Time>, count: int)

  const Idle := Limiter(None, 0)

  predicate Restarts(s: Limiter, now: Time) {
    s.window.None? || now - s.window.value >= SECOND
  }

  function Step(limit: int, s: Limiter, now: Time): (Limiter, bool) {
    var r := if Restarts(s, now) then Limiter(Some(now), 0) else s;
    if r.count >= limit then (r, false) else (r.(count := r.count + 1), true)
  }

  class LineLimiter {
    var rateWindow: Option<Time>
    var rateCount: int

    constructor ()
      ensures Limiter(rateWindow, rateCount) == Idle
    {
      rateWindow, rateCount := None, 0;
    }

    method AllowRate(rateLimit: int, now: Time) returns (ok: bool)
      modifies this
      ensures (Limiter(rateWindow, rateCount), ok) == Step(rateLimit, old(Limiter(rateWindow, rateCount)), now)
    {
      if rateWindow.None? || now - rateWindow.value >= SECOND {
        rateWindow := Some(now);
        rateCount := 0;
      }
      if rateCount >= rateLimit {
        return false;
      }
      rateCount := rateCount + 1;
      return true;
    }
  }

  ghost predicate Moves(limit: int, times: seq<Time>, states: seq<Limiter>, i: nat) {
    i < |times| && i + 1 < |states| && states[i+1] == Step(limit, states[i], times[i]).0
  }

  /** Requests at these times, on a clock that does not go back. */
  ghost predicate IsRun(limit: int, times: seq<Time>, states: seq<Limiter>) {
    && |states| == |times| + 1 && states[0] == Idle
    && (forall i: nat | i < |times| :: Moves(limit, times, states, i))
    && (forall i, j | 0 <= i <= j < |times| :: times[i] <= times[j])
  }

  /** How many of the requests from `i` up to `j` are admitted. */
  function Admitted(limit: int, times: seq<Time>, states: seq<Limiter>, i: nat, j: nat): nat
    requires i <= j <= |times| < |states|
  {
    if i == j then 0
    else Admitted(limit, times, states, i, j - 1) + (if Step(limit, states[j-1], times[j-1]).1 then 1 else 0)
  }

  lemma {:induction false} AdmittedSplit(limit: int, times: seq<Time>, states: seq<Limiter>, i: nat, k: nat, j: nat)
    requires i <= k <= j <= |times| < |states|
    ensures Admitted(limit, times, states, i, j) ==
            Admitted(limit, times, states, i, k) + Admitted(limit, times, states, k, j)
  {
    if k < j { AdmittedSplit(limit, times, states, i, k, j - 1); }
  }

  lemma {:induction false} CountBounded(limit: int, times: seq<Time>, states: seq<Limiter>, n: nat)
    requires limit > 0 && IsRun(limit, times, states) && n <= |times|
    ensures 0 <= states[n].count <= limit
    ensures n > 0 ==> states[n].window.Some? && states[n].window.value <= times[n-1]
  {
    if n > 0 {
      CountBounded(limit, times, states, n - 1);
      assert Moves(limit, times, states, n - 1);
      if n > 1 { assert times[n-2] <= times[n-1]; }
    }
  }

  /** Within one window the count is what has been admitted. */
  lemma {:induction false} SameWindow(limit: int, times: seq<Time>, states: seq<Limiter>, i: nat, j: nat)
    requires limit > 0 && IsRun(limit, times, states) && i <= j <= |times|
    requires forall k | i <= k < j :: !Restarts(states[k], times[k])
    ensures Admitted(limit, times, states, i, j) == states[j].count - states[i].count
    ensures states[j].window == states[i].window
  {
    if i < j {
      SameWindow(limit, times, states, i, j - 1);
      assert Moves(limit, times, states, j - 1);
    }
  }

  /** From a restart on, for less than a second, everything happens in that window. */
  lemma {:induction false} AfterRestart(limit: int, times: seq<Time>, states: seq<Limiter>, k: nat, j: nat)
    requires limit > 0 && IsRun(limit, times, states) && k < j <= |times|
    requires Restarts(states[k], times[k]) && times[j-1] - times[k] < SECOND
    ensures Admitted(limit, times, states, k, j) == states[j].count
    ensures states[j].window == Some(times[k])
    decreases j
  {
    assert Moves(limit, times, states, j - 1);
    if j == k + 1 {
      assert Admitted(limit, times, states, k, k) == 0;
    } else {
      assert times[j-2] <= times[j-1];
      AfterRestart(limit, times, states, k, j - 1);
    }
  }

  /** The first restart from `i` on, or `j` when there is none before it. */
  lemma {:induction false} FirstRestart(times: seq<Time>, states: seq<Limiter>, i: nat, j: nat) returns (k: nat)
    requires i <= j <= |times| < |states|
    ensures i <= k <= j && (k < j ==> Restarts(states[k], times[k]))
    ensures forall m | i <= m < k :: !Restarts(states[m], times[m])
    decreases j - i
  {
    if i == j || Restarts(states[i], times[i]) { k := i; } else { k := FirstRestart(times, states, i + 1, j); }
  }

  lemma CountPositive(limit: int, times: seq<Time>, states: seq<Limiter>, n: nat)
    requires limit > 0 && IsRun(limit, times, states) && n <= |times|
    ensures if n == 0 then states[n].window.None? else states[n].count >= 1
  {
    if n > 0 {
      assert Moves(limit, times, states, n - 1);
      CountBounded(limit, times, states, n - 1);
    }
  }

  /** Less than a second never sees twice the limit, whatever happens. */
  lemma AtMostTwice(limit: int, times: seq<Time>, states: seq<Limiter>, i: nat, j: nat)
    requires limit > 0 && IsRun(limit, times, states) && i < j <= |times| && times[j-1] - times[i] < SECOND
    ensures Admitted(limit, times, states, i, j) <= 2 * limit - 1
  {
    var k := FirstRestart(times, states, i, j);
    AdmittedSplit(limit, times, states, i, k, j);
    SameWindow(limit, times, states, i, k);
    CountBounded(limit, times, states, k);
    CountPositive(limit, times, states, i);
    if k < j {
      assert times[i] <= times[k];
      AfterRestart(limit, times, states, k, j);
      CountBounded(limit, times, states, j);
    } else {
      assert Admitted(limit, times, states, j, j) == 0;
    }
  }

  /** The documented promise: within any second no more than `limit` lines. */
  ghost predicate SlidingPromise(limit: int, times: seq<Time>, states: seq<Limiter>) {
    |states| == |times| + 1 &&
    forall i: nat, j: nat | i < j <= |times| && times[j-1] - times[i] < SECOND ::
      Admitted(limit, times, states, i, j) <= limit
  }

  /** One line, then the rest of the limit just before the window ends, then a new window. */
  function BurstTimes(limit: nat): seq<Time> {
    seq(2 * limit, i => if i == 0 then 0 else if i < limit then SECOND - 1 else SECOND)
  }

  function BurstStates(limit: nat): seq<Limiter> {
    seq(2 * limit + 1, n => if n == 0 then Idle
                            else if n <= limit then Limiter(Some(0), n)
                            else Limiter(Some(SECOND), n - limit))
  }

  lemma BurstIsRun(limit: nat)
    requires limit > 0
    ensures IsRun(limit, BurstTimes(limit), BurstStates(limit))
    ensures forall i | 0 <= i < 2 * limit :: Step(limit, BurstStates(limit)[i], BurstTimes(limit)[i]).1
  {
    var times, states := BurstTimes(limit), BurstStates(limit);
    forall i: nat | i < |times| ensures Moves(limit, times, states, i) {
    }
  }

  lemma {:induction false} AllAdmitted(limit: int, times: seq<Time>, states: seq<Limiter>, i: nat, j: nat)
    requires i <= j <= |times| < |states|
    requires forall k | i <= k < j :: Step(limit, states[k], times[k]).1
    ensures Admitted(limit, times, states, i, j) == j - i
  {
    if i < j { AllAdmitted(limit, times, states, i, j - 1); }
  }

  /** The bound is attained. */
  lemma AlmostTwice(limit: int) returns (times: seq<Time>, states: seq<Limiter>)
    requires limit > 0
    ensures IsRun(limit, times, states) && |times| == 2 * limit && times[2 * limit - 1] - times[1] < SECOND
    ensures Admitted(limit, times, states, 1, 2 * limit) == 2 * limit - 1
  {
    times, states := BurstTimes(limit), BurstStates(limit);
    BurstIsRun(limit);
    AllAdmitted(limit, times, states, 1, 2 * limit);
  }

  /** The comment calls this a sliding window of one second that admits no more than the limit.
      The window is restarted, not slid: the promise holds for all runs exactly for limit 1. */
  lemma SlidingPromiseIff(limit: int)
    requires limit > 0
    ensures (forall times, states | IsRun(limit, times, states) :: SlidingPromise(limit, times, states)) <==> limit == 1
  {
    if limit == 1 {
      forall times, states | IsRun(limit, times, states) ensures SlidingPromise(limit, times, states) {
        forall i: nat, j: nat | i < j <= |times| && times[j-1] - times[i] < SECOND
          ensures Admitted(limit, times, states, i, j) <= limit
        {
          AtMostTwice(limit, times, states, i, j);
        }
      }
    } else {
      var times, states := AlmostTwice(limit);
      assert !SlidingPromise(limit, times, states);
    }
  }

  // -------------------------------------------------- what is let through

  /** The request that began the window of request `n`, from the times alone: the first one
      begins a window, and so does each one a second or more after the last beginning. */
  function WindowOf(times: seq<Time>, n: nat): (w: nat)
    requires n < |times|
    ensures w <= n
  {
    if n == 0 then 0
    else
      var w := WindowOf(times, n - 1);
      if times[n] - times[w] >= SECOND then n else w
  }

  /** Before request `n` the limiter knows when the last window began, and has let the first
      requests of it through, up to the limit. */
  lemma {:induction false} WindowsAreKept(limit: int, times: seq<Time>, states: seq<Limiter>, n: nat)
    requires limit > 0 && IsRun(limit, times, states) && 0 < n <= |times|
    ensures var w := WindowOf(times, n - 1);
            && states[n].window == Some(times[w])
            && states[n].count == Admitted(limit, times, states, w, n)
            && states[n].count == if n - w < limit then n - w else limit
  {
    assert Moves(limit, times, states, n - 1);
    var w := WindowOf(times, n - 1);
    if n > 1 {
      WindowsAreKept(limit, times, states, n - 1);
    }
    if w == n - 1 {
      assert Admitted(limit, times, states, n - 1, n - 1) == 0;
    }
  }

  /** A request is refused exactly when `limit` requests have been let through since its
      window began, less than a second before. */
  lemma RefusedIff(limit: int, times: seq<Time>, states: seq<Limiter>, n: nat)
    requires limit > 0 && IsRun(limit, times, states) && n < |times|
    ensures var w := WindowOf(times, n);
            && 0 <= times[n] - times[w] < SECOND
            && (!Step(limit, states[n], times[n]).1 <==> Admitted(limit, times, states, w, n) == limit)
            && (!Step(limit, states[n], times[n]).1 <==> n - w >= limit)
  {
    var w := WindowOf(times, n);
    assert times[w] <= times[n];
    if n > 0 { WindowsAreKept(limit, times, states, n); }
    if w == n { assert Admitted(limit, times, states, n, n) == 0; }
  }

  /** Hence a request a second or more after the last window began is let through, and so are
      `limit` requests of every window. */
  lemma NewWindowAdmits(limit: int, times: seq<Time>, states: seq<Limiter>, n: nat)
    requires limit > 0 && IsRun(limit, times, states) && n < |times|
    requires n > 0 ==> times[n] - times[WindowOf(times, n - 1)] >= SECOND
    ensures Step(limit, states[n], times[n]).1
  {
    RefusedIff(limit, times, states, n);
  }

  /** After a silence of a second the next request is always let through. */
  lemma SilenceAdmits(limit: int, times: seq<Time>, states: seq<Limiter>, n: nat)
    requires limit > 0 && IsRun(limit, times, states) && n < |times|
    requires n > 0 ==> times[n] - times[n-1] >= SECOND
    ensures Step(limit, states[n], times[n]).1
  {
    if n > 0 { assert times[WindowOf(times, n - 1)] <= times[n-1]; }
    NewWindowAdmits(limit, times, states, n);
  }

  /** Without a positive limit the limiter, were it asked, would refuse everything; the line
      loop does not ask it then. */
  lemma NoLimitRefuses(limit: int, s: Limiter, now: Time)
    requires limit <= 0 && s.count >= 0
    ensures !Step(limit, s, now).1
  {
  }
}
