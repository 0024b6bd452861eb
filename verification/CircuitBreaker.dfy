/** The circuit breaker of internal/circuitbreaker, and every interleaving of the
    calls that run through it. */
module CircuitBreaker {

  datatype State = Closed | Open | HalfOpen

  /** Durations and instants are integers (nanoseconds). */
  datatype Config = Config(failureThreshold: int, recoveryTimeout: int, halfOpenMaxCalls: int)

  const DEFAULT_RECOVERY := 30_000_000_000

  datatype Breaker = Breaker(
    state: State, failureCount: int, openedAt: int, halfOpenCalls: int, halfOpenSucc: int)

  function WithDefaults(cfg: Config): Config {
    cfg.(recoveryTimeout := if cfg.recoveryTimeout <= 0 then DEFAULT_RECOVERY else cfg.recoveryTimeout,
         halfOpenMaxCalls := if cfg.halfOpenMaxCalls <= 0 then 1 else cfg.halfOpenMaxCalls)
  }

  /** An enabled breaker after the constructor has filled in the defaults. */
  predicate Usable(cfg: Config) {
    cfg.failureThreshold > 0 && cfg.recoveryTimeout > 0 && cfg.halfOpenMaxCalls > 0
  }

  const FreshBreaker := Breaker(Closed, 0, 0, 0, 0)

  // ---------------------------------------------------- the atomic steps

  /** Asking for permission: the new state and whether the call is admitted. */
  function BeforeCall(cfg: Config, b: Breaker, now: int): (Breaker, bool) {
    match b.state
    case Closed => (b, true)
    case Open =>
      if now - b.openedAt >= cfg.recoveryTimeout
      then (b.(state := HalfOpen, halfOpenCalls := 1, halfOpenSucc := 0), true)
      else (b, false)
    case HalfOpen =>
      if b.halfOpenCalls < cfg.halfOpenMaxCalls
      then (b.(halfOpenCalls := b.halfOpenCalls + 1), true)
      else (b, false)
  }

  /** Reporting the outcome of an admitted call. */
  function AfterCall(cfg: Config, b: Breaker, ok: bool, now: int): Breaker {
    match b.state
    case Closed =>
      if ok then b.(failureCount := 0)
      else if b.failureCount + 1 >= cfg.failureThreshold
      then b.(state := Open, openedAt := now, failureCount := 0)
      else b.(failureCount := b.failureCount + 1)
    case HalfOpen =>
      if !ok then Breaker(Open, 0, now, 0, 0)
      else if b.halfOpenSucc + 1 >= cfg.halfOpenMaxCalls then Breaker(Closed, 0, b.openedAt, 0, 0)
      else b.(halfOpenSucc := b.halfOpenSucc + 1)
    case Open => b
  }

  function ResetBreaker(b: Breaker): Breaker {
    Breaker(Closed, 0, b.openedAt, 0, 0)
  }

  class CircuitBreaker {
    const cfg: Config
    var state: State
    var failureCount: int
    var openedAt: int
    var halfOpenCalls: int
    var halfOpenSucc: int

    function Value(): Breaker
      reads this
    {
      Breaker(state, failureCount, openedAt, halfOpenCalls, halfOpenSucc)
    }

    constructor (cfg: Config)
      ensures this.cfg == WithDefaults(cfg) && Value() == FreshBreaker
    {
      this.cfg := WithDefaults(cfg);
      state, failureCount, openedAt, halfOpenCalls, halfOpenSucc := Closed, 0, 0, 0, 0;
    }

    method Before(now: int) returns (admitted: bool)
      modifies this
      ensures (Value(), admitted) == BeforeCall(cfg, old(Value()), now)
    {
      match state {
        case Closed =>
          return true;
        case Open =>
          if now - openedAt >= cfg.recoveryTimeout {
            state := HalfOpen;
            halfOpenCalls := 1;
            halfOpenSucc := 0;
            return true;
          }
          return false;
        case HalfOpen =>
          if halfOpenCalls < cfg.halfOpenMaxCalls {
            halfOpenCalls := halfOpenCalls + 1;
            return true;
          }
          return false;
      }
    }

    method After(ok: bool, now: int)
      modifies this
      ensures Value() == AfterCall(cfg, old(Value()), ok, now)
    {
      match state {
        case Closed =>
          if ok {
            failureCount := 0;
          } else {
            failureCount := failureCount + 1;
            if failureCount >= cfg.failureThreshold {
              state := Open;
              openedAt := now;
              failureCount := 0;
            }
          }
        case HalfOpen =>
          if ok {
            halfOpenSucc := halfOpenSucc + 1;
            if halfOpenSucc >= cfg.halfOpenMaxCalls {
              state := Closed;
              failureCount := 0;
              halfOpenCalls := 0;
              halfOpenSucc := 0;
            }
          } else {
            state := Open;
            openedAt := now;
            failureCount := 0;
            halfOpenCalls := 0;
            halfOpenSucc := 0;
          }
        case Open =>
      }
    }

    method Reset()
      modifies this
      ensures Value() == ResetBreaker(old(Value()))
    {
      state := Closed;
      failureCount := 0;
      halfOpenCalls := 0;
      halfOpenSucc := 0;
    }

    /** One call with nothing else going on; `ok` is what the wrapped function would
        return. A disabled breaker is not touched. */
    method Execute(ok: bool, begun: int, ended: int) returns (called: bool)
      modifies this
      ensures cfg.failureThreshold <= 0 ==> called && Value() == old(Value())
      ensures cfg.failureThreshold > 0 ==>
                var (b, admitted) := BeforeCall(cfg, old(Value()), begun);
                called == admitted && Value() == if admitted then AfterCall(cfg, b, ok, ended) else b
    {
      if cfg.failureThreshold <= 0 {
        return true;
      }
      called := Before(begun);
      if called {
        After(ok, ended);
      }
    }
  }

  // ------------------------------------------------------- interleavings

  /** `period` counts the state changes so far; a call in flight carries the period in
      which it was admitted. `probeSucc` and `staleSucc` split the successes counted in
      the present half-open period by whether the call was admitted in it. */
  datatype System = System(
    b: Breaker, period: nat, flying: multiset<nat>, probeSucc: nat, staleSucc: nat)

  datatype Event = Begin(now: int) | End(tag: nat, ok: bool, now: int) | Reset(now: int)

  const FreshSystem := System(FreshBreaker, 0, multiset{}, 0, 0)

  /** Only a call in flight can end. */
  predicate Enabled(s: System, e: Event) {
    e.End? ==> e.tag in s.flying
  }

  function NextPeriod(s: System, b: Breaker): nat {
    if b.state == s.b.state then s.period else s.period + 1
  }

  function Step(cfg: Config, s: System, e: Event): System {
    match e
    case Begin(now) =>
      var (b, admitted) := BeforeCall(cfg, s.b, now);
      var p := NextPeriod(s, b);
      var counters := if p == s.period then (s.probeSucc, s.staleSucc) else (0, 0);
      System(b, p, if admitted then s.flying + multiset{p} else s.flying, counters.0, counters.1)
    case End(tag, ok, now) =>
      var b := AfterCall(cfg, s.b, ok, now);
      var p := NextPeriod(s, b);
      var counted := s.b.state == HalfOpen && ok;
      System(b, p, s.flying - multiset{tag},
             if p != s.period then 0 else if counted && tag == s.period then s.probeSucc + 1 else s.probeSucc,
             if p != s.period then 0 else if counted && tag != s.period then s.staleSucc + 1 else s.staleSucc)
    case Reset(_) =>
      var b := ResetBreaker(s.b);
      var p := NextPeriod(s, b);
      System(b, p, s.flying, if p == s.period then s.probeSucc else 0, if p == s.period then s.staleSucc else 0)
  }

  /** The probes of the present half-open period that are still running. */
  function Outstanding(s: System): nat {
    s.flying[s.period]
  }

  ghost predicate Inv(cfg: Config, s: System) {
    && (forall t | t in s.flying :: t <= s.period)
    && match s.b.state
       case Closed =>
         0 <= s.b.failureCount < cfg.failureThreshold && s.b.halfOpenCalls == s.b.halfOpenSucc == 0
       case Open =>
         s.b.failureCount == s.b.halfOpenCalls == s.b.halfOpenSucc == 0
       case HalfOpen =>
         && s.b.failureCount == 0
         && s.b.halfOpenCalls == s.probeSucc + Outstanding(s)
         && s.b.halfOpenSucc == s.probeSucc + s.staleSucc
         && 1 <= s.b.halfOpenCalls <= cfg.halfOpenMaxCalls
         && s.b.halfOpenSucc < cfg.halfOpenMaxCalls
  }

  lemma StepKeepsInv(cfg: Config, s: System, e: Event)
    requires Usable(cfg) && Inv(cfg, s) && Enabled(s, e)
    ensures Inv(cfg, Step(cfg, s, e))
  {
    match e {
      case Begin(now) => BeginKeepsInv(cfg, s, now);
      case End(tag, ok, now) => EndKeepsInv(cfg, s, tag, ok, now);
      case Reset(_) =>
    }
  }

  lemma BeginKeepsInv(cfg: Config, s: System, now: int)
    requires Usable(cfg) && Inv(cfg, s)
    ensures Inv(cfg, Step(cfg, s, Begin(now)))
  {
  }

  lemma EndKeepsInv(cfg: Config, s: System, tag: nat, ok: bool, now: int)
    requires Usable(cfg) && Inv(cfg, s) && tag in s.flying
    ensures Inv(cfg, Step(cfg, s, End(tag, ok, now)))
  {
    assert forall t | t in s.flying - multiset{tag} :: t in s.flying;
  }

  ghost predicate Moves(cfg: Config, run: seq<Event>, states: seq<System>, i: nat) {
    && i < |run| && i + 1 < |states|
    && Enabled(states[i], run[i]) && states[i+1] == Step(cfg, states[i], run[i])
  }

  /** `states[n]` is where the breaker is after the first `n` events. */
  ghost predicate IsRun(cfg: Config, run: seq<Event>, states: seq<System>) {
    && |states| == |run| + 1 && states[0] == FreshSystem
    && forall i: nat | i < |run| :: Moves(cfg, run, states, i)
  }

  lemma {:induction false} RunKeepsInv(cfg: Config, run: seq<Event>, states: seq<System>, n: nat)
    requires Usable(cfg) && IsRun(cfg, run, states) && n <= |run|
    ensures Inv(cfg, states[n])
  {
    if n > 0 {
      RunKeepsInv(cfg, run, states, n - 1);
      assert Moves(cfg, run, states, n - 1);
      StepKeepsInv(cfg, states[n-1], run[n-1]);
    }
  }

  /** Half-open never wedges: at most `max` probes run at once, the slots taken are covered
      by successes and running probes, and when no probe of this period is running the next
      call is admitted -- whatever older calls are still in flight or have come back. */
  lemma HalfOpenNeverWedges(cfg: Config, run: seq<Event>, states: seq<System>, n: nat, now: int)
    requires Usable(cfg) && IsRun(cfg, run, states) && n <= |run| && states[n].b.state == HalfOpen
    ensures var s := states[n];
            && Outstanding(s) <= s.b.halfOpenCalls <= cfg.halfOpenMaxCalls
            && s.b.halfOpenCalls <= s.b.halfOpenSucc + Outstanding(s)
            && s.b.halfOpenSucc < cfg.halfOpenMaxCalls
            && (Outstanding(s) == 0 ==> BeforeCall(cfg, s.b, now).1)
  {
    RunKeepsInv(cfg, run, states, n);
  }

  /** `k` calls, admitted one at a time and all successful. */
  function OneByOne(cfg: Config, b: Breaker, now: int, k: nat): Breaker {
    if k == 0 then b
    else AfterCall(cfg, BeforeCall(cfg, OneByOne(cfg, b, now, k - 1), now).0, true, now)
  }

  /** From a reachable half-open state without running probes, `max - halfOpenSucc`
      successful calls close the circuit, and no fewer do. */
  lemma {:induction false} SuccessesCloseIt(cfg: Config, s: System, now: int, k: nat)
    requires Usable(cfg) && Inv(cfg, s) && s.b.state == HalfOpen && Outstanding(s) == 0
    requires k <= cfg.halfOpenMaxCalls - s.b.halfOpenSucc
    ensures var b := OneByOne(cfg, s.b, now, k);
            if k == cfg.halfOpenMaxCalls - s.b.halfOpenSucc then b.state == Closed
            else b.state == HalfOpen && b.halfOpenSucc == s.b.halfOpenSucc + k
                 && b.halfOpenCalls == s.b.halfOpenCalls + k <= b.halfOpenSucc
  {
    if k > 0 { SuccessesCloseIt(cfg, s, now, k - 1); }
  }

  // ---------------------------------------------------- closing the circuit

  /** Events from state `s` on. */
  ghost predicate Path(cfg: Config, s: System, run: seq<Event>, states: seq<System>) {
    |states| == |run| + 1 && states[0] == s && forall i: nat | i < |run| :: Moves(cfg, run, states, i)
  }

  /** The half-open period of `s` ends with a completion that closes the circuit. */
  ghost predicate Closes(cfg: Config, s: System, run: seq<Event>, states: seq<System>) {
    && Path(cfg, s, run, states) && run != [] && run[|run|-1].End?
    && (forall i | 0 <= i < |run| :: states[i].b.state == HalfOpen) && states[|run|].b.state == Closed
  }

  /** All probes that a half-open period may have were sent and have come back. (None can
      have failed, because a failure opens the circuit.) */
  ghost predicate AllProbesBack(cfg: Config, before: System, after: System) {
    before.b.halfOpenCalls == cfg.halfOpenMaxCalls && before.period !in after.flying
  }

  /** What shows from outside: only probes of this period are running, and as many calls were
      let in as have succeeded or are running. */
  ghost predicate OnlyProbes(s: System) {
    && s.b.halfOpenCalls == s.b.halfOpenSucc + Outstanding(s)
    && forall t | t in s.flying :: t == s.period
  }

  lemma OnlyProbesStays(cfg: Config, s: System, e: Event)
    requires Usable(cfg) && Inv(cfg, s) && Enabled(s, e) && s.b.state == HalfOpen && OnlyProbes(s)
    ensures var s' := Step(cfg, s, e);
            && (s'.b.state == HalfOpen ==> OnlyProbes(s'))
            && (s'.b.state == Closed && e.End? ==> AllProbesBack(cfg, s, s'))
  {
  }

  lemma {:induction false} PathStays(cfg: Config, s: System, run: seq<Event>, states: seq<System>, n: nat)
    requires Usable(cfg) && Inv(cfg, s) && Closes(cfg, s, run, states) && n < |run|
    ensures Inv(cfg, states[n]) && states[n].staleSucc >= s.staleSucc
    ensures OnlyProbes(s) ==> OnlyProbes(states[n])
  {
    if n > 0 {
      PathStays(cfg, s, run, states, n - 1);
      assert Moves(cfg, run, states, n - 1);
      StepKeepsInv(cfg, states[n-1], run[n-1]);
      if OnlyProbes(s) { OnlyProbesStays(cfg, states[n-1], run[n-1]); }
    }
  }

  /** With a stale success in the count the closing comes before all probes are back. */
  lemma StaleMeansEarly(cfg: Config, s: System, run: seq<Event>, states: seq<System>)
    requires Usable(cfg) && Inv(cfg, s) && Closes(cfg, s, run, states)
    requires s.staleSucc > 0 || run[|run|-1].tag != states[|run|-1].period
    ensures !AllProbesBack(cfg, states[|run|-1], states[|run|])
  {
    var n := |run| - 1;
    PathStays(cfg, s, run, states, n);
    assert Moves(cfg, run, states, n);
  }

  lemma Prepend(cfg: Config, s: System, e: Event, run: seq<Event>, states: seq<System>)
    requires s.b.state == HalfOpen && Enabled(s, e) && Closes(cfg, Step(cfg, s, e), run, states)
    ensures Closes(cfg, s, [e] + run, [s] + states)
  {
    var run', states' := [e] + run, [s] + states;
    forall i: nat | i < |run'| ensures Moves(cfg, run', states', i) {
      if i > 0 {
        assert Moves(cfg, run, states, i - 1);
        assert run'[i] == run[i-1] && states'[i] == states[i-1] && states'[i+1] == states[i];
      }
    }
    assert forall i | 0 < i < |run'| :: states'[i] == states[i-1];
    assert run'[|run'|-1] == run[|run|-1] && states'[|run'|] == states[|run|];
  }

  lemma ClosesAtOnce(cfg: Config, s: System, e: Event)
    requires s.b.state == HalfOpen && Enabled(s, e) && e.End? && Step(cfg, s, e).b.state == Closed
    ensures Closes(cfg, s, [e], [s, Step(cfg, s, e)])
  {
    assert Moves(cfg, [e], [s, Step(cfg, s, e)], 0);
  }

  /** From every half-open state the circuit can be closed. */
  lemma {:induction false} Drive(cfg: Config, s: System) returns (run: seq<Event>, states: seq<System>)
    requires Usable(cfg) && Inv(cfg, s) && s.b.state == HalfOpen
    ensures Closes(cfg, s, run, states)
    decreases cfg.halfOpenMaxCalls - s.b.halfOpenSucc, if Outstanding(s) == 0 then 1 else 0
  {
    var e := if Outstanding(s) == 0 then Begin(0) else End(s.period, true, 0);
    var s' := Step(cfg, s, e);
    StepKeepsInv(cfg, s, e);
    if s'.b.state == Closed {
      ClosesAtOnce(cfg, s, e);
      return [e], [s, s'];
    }
    run, states := Drive(cfg, s');
    Prepend(cfg, s, e, run, states);
    run, states := [e] + run, [s] + states;
  }

  lemma ClosesEarly(cfg: Config, s: System) returns (run: seq<Event>, states: seq<System>)
    requires Usable(cfg) && Inv(cfg, s) && s.b.state == HalfOpen && !OnlyProbes(s)
    ensures Closes(cfg, s, run, states) && !AllProbesBack(cfg, states[|run|-1], states[|run|])
  {
    if s.staleSucc > 0 {
      run, states := Drive(cfg, s);
      StaleMeansEarly(cfg, s, run, states);
    } else {
      var t :| t in s.flying && t != s.period;
      var e := End(t, true, 0);
      var s' := Step(cfg, s, e);
      StepKeepsInv(cfg, s, e);
      if s'.b.state == Closed {
        ClosesAtOnce(cfg, s, e);
        run, states := [e], [s, s'];
        StaleMeansEarly(cfg, s, run, states);
      } else {
        run, states := Drive(cfg, s');
        StaleMeansEarly(cfg, s', run, states);
        Prepend(cfg, s, e, run, states);
        var n := |run|;
        run, states := [e] + run, [s] + states;
        assert states[n] == states[1..][n-1];
      }
    }
  }

  /** The documentation says the circuit closes when all probes have succeeded. From a
      half-open state that is so, whichever way the period goes on to a closing, exactly when
      no call from an earlier period is still running and none has been counted. */
  lemma ClosesOnProbesIff(cfg: Config, s: System)
    requires Usable(cfg) && Inv(cfg, s) && s.b.state == HalfOpen
    ensures (forall run, states | Closes(cfg, s, run, states) ::
               AllProbesBack(cfg, states[|run|-1], states[|run|])) <==> OnlyProbes(s)
  {
    if OnlyProbes(s) {
      forall run, states | Closes(cfg, s, run, states)
        ensures AllProbesBack(cfg, states[|run|-1], states[|run|])
      {
        PathStays(cfg, s, run, states, |run| - 1);
        assert Moves(cfg, run, states, |run| - 1);
        OnlyProbesStays(cfg, states[|run|-1], run[|run|-1]);
      }
    } else {
      var run, states := ClosesEarly(cfg, s);
    }
  }

  /** A run in which the circuit closes although its only probe has not answered yet: the
      success of a call admitted before the circuit opened is counted instead. */
  lemma StaleSuccessClosesCircuit() returns (cfg: Config, run: seq<Event>, states: seq<System>)
    ensures Usable(cfg) && IsRun(cfg, run, states) && |run| == 5
    ensures states[4].b.state == HalfOpen && Outstanding(states[4]) == 1
    ensures states[5].b.state == Closed && states[4].period in states[5].flying
  {
    cfg := Config(1, 10, 1);
    run := [Begin(0), Begin(0), End(0, false, 1), Begin(11), End(0, true, 12)];
    var s1 := Step(cfg, FreshSystem, run[0]);
    var s2 := Step(cfg, s1, run[1]);
    var s3 := Step(cfg, s2, run[2]);
    assert s3.b == Breaker(Open, 0, 1, 0, 0) && s3.period == 1 && s3.flying[0] == 1;
    var s4 := Step(cfg, s3, run[3]);
    assert s4.b == Breaker(HalfOpen, 0, 1, 1, 0) && s4.period == 2 && s4.flying[0] == 1 && s4.flying[2] >= 1;
    var s5 := Step(cfg, s4, run[4]);
    states := [FreshSystem, s1, s2, s3, s4, s5];
    RunKeepsInv(cfg, run, states, 4);
  }

  // ---------------------------------------------------------- whole traces

  /** Event `i` keeps the failure streak alive: the circuit is closed before and after it
      and it is neither a success nor a reset. */
  ghost predicate KeepsStreak(cfg: Config, run: seq<Event>, states: seq<System>, i: nat)
    requires i < |run| == |states| - 1
  {
    && states[i].b.state == Closed && states[i + 1].b.state == Closed
    && (run[i].Begin? || (run[i].End? && !run[i].ok))
  }

  /** Failed completions among the events from `k` up to `n`. */
  function Failures(run: seq<Event>, k: nat, n: nat): nat
    requires k <= n <= |run|
  {
    if n == k then 0
    else Failures(run, k, n - 1) + (if run[n-1].End? && !run[n-1].ok then 1 else 0)
  }

  /** The streak that is alive after `n` events began at event `k`. */
  ghost predicate StreakFrom(cfg: Config, run: seq<Event>, states: seq<System>, k: nat, n: nat)
    requires n <= |run| == |states| - 1
  {
    && k <= n
    && (forall i: nat | k <= i < n :: KeepsStreak(cfg, run, states, i))
    && (k > 0 ==> !KeepsStreak(cfg, run, states, k - 1))
  }

  /** At every point of every run the failure count is the number of failed completions in
      the live streak: since the last success, reset, or moment outside Closed. It stays
      below the threshold and is 0 outside Closed. */
  lemma {:induction false} FailureCountIsStreak(cfg: Config, run: seq<Event>, states: seq<System>, n: nat) returns (k: nat)
    requires Usable(cfg) && IsRun(cfg, run, states) && n <= |run|
    ensures StreakFrom(cfg, run, states, k, n) && states[n].b.failureCount == Failures(run, k, n)
    ensures states[n].b.failureCount < cfg.failureThreshold
    ensures states[n].b.state != Closed ==> states[n].b.failureCount == 0
  {
    RunKeepsInv(cfg, run, states, n);
    if n == 0 {
      k := 0;
    } else {
      RunKeepsInv(cfg, run, states, n - 1);
      k := FailureCountIsStreak(cfg, run, states, n - 1);
      assert Moves(cfg, run, states, n - 1);
      if !KeepsStreak(cfg, run, states, n - 1) {
        k := n;
      }
    }
  }

  /** The circuit opens at event `i`. */
  ghost predicate OpensAt(cfg: Config, run: seq<Event>, states: seq<System>, i: nat)
    requires i < |run| == |states| - 1
  {
    states[i].b.state != Open && states[i + 1].b.state == Open
  }

  ghost predicate AdmittedAt(cfg: Config, run: seq<Event>, states: seq<System>, j: nat)
    requires j < |run| == |states| - 1
  {
    run[j].Begin? && BeforeCall(cfg, states[j].b, run[j].now).1
  }

  ghost predicate MonotoneClock(run: seq<Event>) {
    forall i, j | 0 <= i <= j < |run| :: run[i].now <= run[j].now
  }

  /** Until the recovery timeout has passed, the circuit stays as it was opened. */
  lemma {:induction false} StaysOpenOrWaited(cfg: Config, run: seq<Event>, states: seq<System>, i: nat, m: nat)
    requires IsRun(cfg, run, states) && i < m <= |run| && OpensAt(cfg, run, states, i) && MonotoneClock(run)
    requires forall k | i < k < m :: !run[k].Reset?
    ensures || (states[m].b.state == Open && states[m].b.openedAt == run[i].now)
            || run[m-1].now - run[i].now >= cfg.recoveryTimeout
    decreases m
  {
    assert Moves(cfg, run, states, m - 1);
    if m > i + 1 {
      StaysOpenOrWaited(cfg, run, states, i, m - 1);
      assert run[m-2].now <= run[m-1].now;
    }
  }

  /** No call is admitted between an opening and its recovery timeout unless someone resets
      the breaker in between. */
  lemma NoAdmissionBeforeTimeout(cfg: Config, run: seq<Event>, states: seq<System>, i: nat, j: nat)
    requires IsRun(cfg, run, states) && i < j < |run| && MonotoneClock(run)
    requires OpensAt(cfg, run, states, i) && AdmittedAt(cfg, run, states, j)
    requires forall k | i < k < j :: !run[k].Reset?
    ensures run[j].now - run[i].now >= cfg.recoveryTimeout
  {
    StaysOpenOrWaited(cfg, run, states, i, j);
    assert run[j-1].now <= run[j].now;
  }

  // -------------------------------------------------- opening and admitting

  /** When the circuit opens. From closed: by a failed completion that makes the live streak,
      which began at event `k`, as long as the threshold, and by nothing else. From half-open:
      by any failed completion. */
  lemma OpensIff(cfg: Config, run: seq<Event>, states: seq<System>, n: nat) returns (k: nat)
    requires Usable(cfg) && IsRun(cfg, run, states) && n < |run|
    ensures StreakFrom(cfg, run, states, k, n)
    ensures states[n].b.state == Closed ==>
              (states[n+1].b.state == Open <==> Failures(run, k, n + 1) == cfg.failureThreshold && run[n].End? && !run[n].ok)
    ensures states[n].b.state == HalfOpen ==> (states[n+1].b.state == Open <==> run[n].End? && !run[n].ok)
    ensures states[n].b.state != Open && states[n+1].b.state == Open ==> states[n+1].b.openedAt == run[n].now
  {
    k := FailureCountIsStreak(cfg, run, states, n);
    assert Moves(cfg, run, states, n);
  }

  /** A closed circuit admits every call, and is not changed by admitting it. */
  lemma ClosedAdmits(cfg: Config, run: seq<Event>, states: seq<System>, n: nat, now: int)
    requires IsRun(cfg, run, states) && n <= |run| && states[n].b.state == Closed
    ensures BeforeCall(cfg, states[n].b, now) == (states[n].b, true)
  {
  }

  /** While the circuit stays open it remembers when it opened. */
  lemma {:induction false} RemembersOpening(cfg: Config, run: seq<Event>, states: seq<System>, i: nat, m: nat)
    requires Usable(cfg) && IsRun(cfg, run, states) && i < m <= |run| && OpensAt(cfg, run, states, i)
    requires forall k | i < k <= m :: states[k].b.state == Open
    ensures states[m].b.openedAt == run[i].now
    decreases m
  {
    if m == i + 1 {
      var k := OpensIff(cfg, run, states, i);
    } else {
      RemembersOpening(cfg, run, states, i, m - 1);
      assert Moves(cfg, run, states, m - 1);
    }
  }

  /** The circuit that opened at event `i` and is still open admits a call exactly when the
      recovery timeout has passed since then; the call is its first probe. */
  lemma OpenAdmitsIff(cfg: Config, run: seq<Event>, states: seq<System>, i: nat, j: nat)
    requires Usable(cfg) && IsRun(cfg, run, states) && i < j < |run| && OpensAt(cfg, run, states, i)
    requires run[j].Begin? && forall k | i < k <= j :: states[k].b.state == Open
    ensures AdmittedAt(cfg, run, states, j) <==> run[j].now - run[i].now >= cfg.recoveryTimeout
    ensures AdmittedAt(cfg, run, states, j) <==> states[j+1].b.state == HalfOpen
    ensures AdmittedAt(cfg, run, states, j) ==> Outstanding(states[j+1]) == states[j+1].b.halfOpenCalls == 1
  {
    RemembersOpening(cfg, run, states, i, j);
    assert Moves(cfg, run, states, j);
    RunKeepsInv(cfg, run, states, j);
  }

  /** Only a call after the timeout or a reset ends the open state, and a reset closes the
      circuit whatever its state. */
  lemma LeavesOpenIff(cfg: Config, run: seq<Event>, states: seq<System>, n: nat)
    requires IsRun(cfg, run, states) && n < |run|
    ensures states[n].b.state == Open ==>
              (states[n+1].b.state != Open <==> run[n].Reset? || AdmittedAt(cfg, run, states, n))
    ensures run[n].Reset? ==> states[n+1].b.state == Closed && states[n+1].b.failureCount == 0
  {
    assert Moves(cfg, run, states, n);
  }

  /** In half-open, a call is admitted exactly as long as fewer probes than the limit have been
      let in, in this period: those that succeeded and those still out. */
  lemma HalfOpenAdmitsIff(cfg: Config, run: seq<Event>, states: seq<System>, n: nat, now: int)
    requires Usable(cfg) && IsRun(cfg, run, states) && n <= |run| && states[n].b.state == HalfOpen
    ensures BeforeCall(cfg, states[n].b, now).1 <==>
            states[n].probeSucc + Outstanding(states[n]) < cfg.halfOpenMaxCalls
  {
    RunKeepsInv(cfg, run, states, n);
  }

  /** The constructor leaves what is set alone, fills in 30 seconds and one call for what is
      not, and an enabled breaker is usable after that. */
  lemma DefaultsFilledIn(cfg: Config)
    ensures var c := WithDefaults(cfg);
            && c.failureThreshold == cfg.failureThreshold
            && (cfg.recoveryTimeout > 0 ==> c.recoveryTimeout == cfg.recoveryTimeout)
            && (cfg.recoveryTimeout <= 0 ==> c.recoveryTimeout == 30_000_000_000)
            && (cfg.halfOpenMaxCalls > 0 ==> c.halfOpenMaxCalls == cfg.halfOpenMaxCalls)
            && (cfg.halfOpenMaxCalls <= 0 ==> c.halfOpenMaxCalls == 1)
            && (Usable(c) <==> cfg.failureThreshold > 0)
  {
  }
}
