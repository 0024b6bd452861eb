/** The sample rings and the "must hold for a duration" timer of
    internal/alertengine/evaluator.go, and the second ring of
    internal/agent/metrics_collect.go. Instants and durations are integers. */
module Evaluator {

  type Time = int

  // ------------------------------------------------------------ ring buffer

  /** The newest `n` elements of a history. */
  function Newest<T>(h: seq<T>, n: nat): (r: seq<T>)
    ensures |r| == if |h| <= n then |h| else n
  {
    if |h| <= n then h else h[|h|-n..]
  }

  /** Counted from the end, they are the history's own. */
  lemma NewestFromTheEnd<T>(h: seq<T>, n: nat, i: nat)
    requires i < n && i < |h|
    ensures Newest(h, n)[|Newest(h, n)| - 1 - i] == h[|h| - 1 - i]
  {
  }

  /** Where a ring of `cap` places keeps its i-th oldest element: counting from the next
      write position when it is full, from 0 otherwise, and wrapping round. */
  function Position(cap: nat, head: nat, count: nat, i: nat): int {
    var x := (if count == cap then head else 0) + i;
    if x < cap then x else x - cap
  }

  /** The places `b` hold the newest elements of the history, oldest first. */
  ghost predicate RingHolds<T>(b: seq<T>, head: nat, count: nat, history: seq<T>) {
    && |b| > 0 && head < |b|
    && count == |Newest(history, |b|)|
    && (count < |b| ==> head == count)
    && forall i: nat | i < count ::
         0 <= Position(|b|, head, count, i) < |b|
         && b[Position(|b|, head, count, i)] == Newest(history, |b|)[i]
  }

  lemma PushStep<T>(b: seq<T>, head: nat, count: nat, history: seq<T>, s: T)
    requires RingHolds(b, head, count, history)
    ensures RingHolds(b[head := s], if head + 1 < |b| then head + 1 else head + 1 - |b|,
                      if count < |b| then count + 1 else count, history + [s])
  {
    var cap := |b|;
    var head' := if head + 1 < cap then head + 1 else head + 1 - cap;
    var count' := if count < cap then count + 1 else count;
    var b', stored, stored' := b[head := s], Newest(history, cap), Newest(history + [s], cap);
    forall i: nat | i < count'
      ensures 0 <= Position(cap, head', count', i) < cap && b'[Position(cap, head', count', i)] == stored'[i]
    {
      if i < count' - 1 {
        var k := if count == cap then i + 1 else i;
        assert Position(cap, head', count', i) == Position(cap, head, count, k) != head;
        assert stored'[i] == stored[k];
      } else {
        assert Position(cap, head', count', i) == head;
        assert stored'[i] == s;
      }
    }
  }

  /** The remainder by `cap` of an index at most one round too far. */
  method Wrap(x: nat, cap: nat) returns (i: nat)
    requires x < 2 * cap
    ensures i == if x < cap then x else x - cap
  {
    i := x % cap;
  }

  /** A fixed array written round and round. `history` is everything ever pushed. */
  class Ring<T(0)> {
    const buf: array<T>
    var head: nat
    var count: nat
    ghost var history: seq<T>

    ghost predicate Valid()
      reads this, buf
    {
      RingHolds(buf[..], head, count, history)
    }

    constructor (capacity: int, default: int)
      requires default > 0
      ensures Valid() && history == [] && fresh(buf)
      ensures buf.Length == (if capacity <= 0 then default else capacity)
    {
      buf := new T[if capacity <= 0 then default else capacity];
      head, count, history := 0, 0, [];
    }

    method Push(s: T)
      requires Valid()
      modifies this, buf
      ensures Valid() && history == old(history) + [s]
    {
      PushStep(buf[..], head, count, history, s);
      buf[head] := s;
      assert buf[..] == old(buf[..])[head := s];
      head := Wrap(head + 1, buf.Length);
      if count < buf.Length {
        count := count + 1;
      }
      history := history + [s];
    }

    /** The newest element. */
    method Latest() returns (found: bool, s: T)
      requires Valid()
      ensures found <==> history != []
      ensures found ==> s == history[|history|-1]
    {
      if count == 0 {
        s := buf[0];
        return false, s;
      }
      var idx := Wrap(head + buf.Length - 1, buf.Length);
      assert idx == Position(buf.Length, head, count, count - 1);
      return true, buf[idx];
    }

    /** The i-th oldest stored element. */
    method Nth(i: nat) returns (s: T)
      requires Valid() && i < count
      ensures i < |Newest(history, buf.Length)| && s == Newest(history, buf.Length)[i]
    {
      var start := 0;
      if count == buf.Length {
        start := head;
      }
      var idx := Wrap(start + i, buf.Length);
      assert idx == Position(buf.Length, head, count, i);
      s := buf[idx];
    }

    /** The stored elements that satisfy `keep`, oldest first: what `Since` returns. */
    method Select(keep: T -> bool) returns (out: seq<T>)
      requires Valid()
      ensures out == Filter(keep, Newest(history, buf.Length))
    {
      ghost var stored := Newest(history, buf.Length);
      assert |stored| == count;
      out := [];
      for i := 0 to count
        invariant out == Filter(keep, stored[..i])
      {
        var s := Nth(i);
        assert stored[..i+1][..i] == stored[..i];
        if keep(s) {
          out := out + [s];
        }
      }
      assert stored[..count] == stored;
    }
  }

  function Filter<T>(keep: T -> bool, h: seq<T>): seq<T> {
    if h == [] then []
    else
      var n := |h| - 1;
      if keep(h[n]) then Filter(keep, h[..n]) + [h[n]] else Filter(keep, h[..n])
  }

  // ---------------------------------------------------------------- averages

  datatype Sample = Sample(ts: Time, value: real)

  function Total(h: seq<Sample>): real {
    if h == [] then 0.0 else Total(h[..|h|-1]) + h[|h|-1].value
  }

  function Mean(h: seq<Sample>): real
    requires h != []
  {
    Total(h) / |h| as real
  }

  function NotBefore(since: Time): Sample -> bool {
    (s: Sample) => s.ts >= since
  }

  /** The samples of `h` at the positions `at`. */
  ghost predicate Picks(h: seq<Sample>, at: seq<nat>, f: seq<Sample>) {
    |at| == |f| && forall k | 0 <= k < |at| :: at[k] < |h| && f[k] == h[at[k]]
  }

  ghost predicate AscendingPlaces(at: seq<nat>) {
    forall j, k | 0 <= j < k < |at| :: at[j] < at[k]
  }

  /** The selected samples are those at or after `since`, in their order. */
  lemma {:induction false} FilterSelects(since: Time, h: seq<Sample>) returns (at: seq<nat>)
    ensures Picks(h, at, Filter(NotBefore(since), h)) && AscendingPlaces(at)
    ensures forall i: nat | i < |h| :: i in at <==> since <= h[i].ts
  {
    at := [];
    if h != [] {
      var n := |h| - 1;
      var init := FilterSelects(since, h[..n]);
      if since <= h[n].ts {
        at := init + [n];
        PickOneMore(h, init, Filter(NotBefore(since), h[..n]));
      } else {
        at := init;
        assert Picks(h, at, Filter(NotBefore(since), h[..n]));
      }
    }
  }

  lemma PickOneMore(h: seq<Sample>, at: seq<nat>, f: seq<Sample>)
    requires h != [] && Picks(h[..|h|-1], at, f) && AscendingPlaces(at)
    ensures Picks(h, at + [|h|-1], f + [h[|h|-1]]) && AscendingPlaces(at + [|h|-1])
    ensures forall i: nat :: i in at + [|h|-1] <==> i in at || i == |h|-1
    ensures |h|-1 !in at
  {
  }

  /** The deviations from `c`, added up. */
  function Deviation(h: seq<Sample>, c: real): real {
    if h == [] then 0.0 else Deviation(h[..|h|-1], c) + (h[|h|-1].value - c)
  }

  lemma {:induction false} DeviationIs(h: seq<Sample>, c: real)
    ensures Deviation(h, c) == Total(h) - |h| as real * c
  {
    if h != [] { DeviationIs(h[..|h|-1], c); }
  }

  /** The average is the one value from which the samples deviate as far up as down. */
  lemma MeanBalancesIff(h: seq<Sample>, c: real)
    requires h != []
    ensures Deviation(h, c) == 0.0 <==> c == Mean(h)
  {
    DeviationIs(h, c);
    Quotient(Total(h), |h| as real, c);
  }

  lemma Quotient(x: real, n: real, c: real)
    requires n > 0.0
    ensures x - n * c == 0.0 <==> c == x / n
  {
  }

  lemma FilterOneMore(since: Time, h: seq<Sample>, i: nat)
    requires i < |h|
    ensures var a, b := Filter(NotBefore(since), h[..i]), Filter(NotBefore(since), h[..i+1]);
            if h[i].ts >= since then |b| == |a| + 1 && Total(b) == Total(a) + h[i].value else b == a
  {
    assert h[..i+1][..i] == h[..i];
    var a := Filter(NotBefore(since), h[..i]);
    assert (a + [h[i]])[..|a|] == a;
  }

  /** Sum and number of the stored samples from `since` on. */
  method SumSince(r: Ring<Sample>, since: Time) returns (sum: real, n: nat)
    requires r.Valid()
    ensures var recent := Filter(NotBefore(since), Newest(r.history, r.buf.Length));
            sum == Total(recent) && n == |recent|
  {
    ghost var stored := Newest(r.history, r.buf.Length);
    sum, n := 0.0, 0;
    for i := 0 to r.count
      invariant |stored| == r.count
      invariant sum == Total(Filter(NotBefore(since), stored[..i]))
      invariant n == |Filter(NotBefore(since), stored[..i])|
    {
      var s := r.Nth(i);
      FilterOneMore(since, stored, i);
      if s.ts >= since {
        sum := sum + s.value;
        n := n + 1;
      }
    }
    assert stored[..r.count] == stored;
  }

  /** The mean of the samples from `since` on among the stored ones. */
  method AvgSince(r: Ring<Sample>, since: Time) returns (avg: real, ok: bool)
    requires r.Valid()
    ensures var recent := Filter(NotBefore(since), Newest(r.history, r.buf.Length));
            (ok <==> recent != []) && (ok ==> avg == Mean(recent))
  {
    var sum, n := SumSince(r, since);
    if n == 0 {
      return 0.0, false;
    }
    avg := sum / n as real;
    ok := true;
  }

  /** AvgInWindow: a window of no length means the latest sample. */
  method AvgInWindow(r: Ring<Sample>, window: int, now: Time) returns (avg: real, ok: bool)
    requires r.Valid()
    ensures r.history == [] ==> !ok
    ensures r.history != [] && window <= 0 ==> ok && avg == r.history[|r.history|-1].value
    ensures r.history != [] && window > 0 ==>
              var recent := Filter(NotBefore(now - window), Newest(r.history, r.buf.Length));
              (ok <==> recent != []) && (ok ==> avg == Mean(recent))
  {
    if r.count == 0 {
      return 0.0, false;
    }
    if window <= 0 {
      var found, s := r.Latest();
      return s.value, true;
    }
    avg, ok := AvgSince(r, now - window);
  }

  // ---------------------------------------------------------- rings by device

  /** Device and metric, or device and rule. */
  type Key = (string, string)

  /** One ring for each device and metric. */
  class SampleStore {
    const maxSamples: int
    var samples: map<Key, Ring<Sample>>

    ghost predicate Valid()
      reads this, samples.Values, set k | k in samples :: samples[k].buf
    {
      && (forall k | k in samples :: samples[k].Valid())
      && (forall j, k | j in samples && k in samples && j != k ::
            samples[j] != samples[k] && samples[j].buf != samples[k].buf)
    }

    constructor (maxSamples: int)
      ensures Valid() && samples == map[] && this.maxSamples == maxSamples
    {
      this.maxSamples := maxSamples;
      samples := map[];
    }

    method AddRing(key: Key)
      requires Valid() && key !in samples
      modifies this
      ensures Valid() && key in samples && fresh(samples[key]) && fresh(samples[key].buf)
      ensures samples == old(samples)[key := samples[key]] && samples[key].history == []
    {
      var ring := new Ring<Sample>(maxSamples, 60);
      samples := samples[key := ring];
    }

    method PushTo(key: Key, s: Sample)
      requires Valid() && key in samples
      modifies samples[key], samples[key].buf
      ensures Valid()
      ensures samples[key].history == old(samples[key].history) + [s]
      ensures forall k | k in samples && k != key :: samples[k].history == old(samples[k].history)
    {
      samples[key].Push(s);
      assert forall k | k in samples && k != key :: samples[k].Valid() && samples[k].history == old(samples[k].history);
    }

    method RecordSample(key: Key, s: Sample)
      requires Valid()
      modifies this, samples.Values, set k | k in samples :: samples[k].buf
      ensures Valid()
      ensures samples.Keys == old(samples.Keys) + {key}
      ensures samples[key].history == (if key in old(samples) then old(samples[key].history) else []) + [s]
      ensures forall k | k in old(samples) && k != key ::
                samples[k] == old(samples[k]) && samples[k].history == old(samples[k].history)
    {
      if key !in samples {
        AddRing(key);
      }
      PushTo(key, s);
    }

    /** The samples of a device go when it goes offline. */
    method DropDevice(deviceID: string)
      requires Valid()
      modifies this`samples
      ensures Valid()
      ensures samples == map k | k in old(samples) && k.0 != deviceID :: old(samples)[k]
    {
      samples := map k | k in samples && k.0 != deviceID :: samples[k];
    }
  }

  // ------------------------------------------------------------------ timer

  class SatisfactionTimer {
    var since: map<Key, Time>

    constructor ()
      ensures since == map[]
    {
      since := map[];
    }

    method ShouldFire(key: Key, matched: bool, duration: int, now: Time) returns (fire: bool)
      modifies this
      ensures (fire, since) == TimerStep(old(since), Observe(key, matched, duration, now))
    {
      if !matched {
        since := since - {key};
        return false;
      }
      if duration <= 0 {
        return true;
      }
      if key !in since {
        since := since[key := now];
        return false;
      }
      if now - since[key] >= duration {
        since := since - {key};
        return true;
      }
      return false;
    }

    method Reset(deviceID: string)
      modifies this
      ensures since == TimerStep(old(since), ResetDevice(deviceID)).1
    {
      since := map k | k in since && k.0 != deviceID :: since[k];
    }

    method ResetRule(ruleID: string)
      modifies this
      ensures since == TimerStep(old(since), ResetRuleID(ruleID)).1
    {
      since := map k | k in since && k.1 != ruleID :: since[k];
    }
  }

  datatype TimerEvent =
    | Observe(key: Key, matched: bool, duration: int, now: Time)
    | ResetDevice(deviceID: string)
    | ResetRuleID(ruleID: string)

  function TimerStep(since: map<Key, Time>, e: TimerEvent): (bool, map<Key, Time>) {
    match e
    case Observe(key, matched, duration, now) =>
      if !matched then (false, since - {key})
      else if duration <= 0 then (true, since)
      else if key !in since then (false, since[key := now])
      else if now - since[key] >= duration then (true, since - {key})
      else (false, since)
    case ResetDevice(d) => (false, map k | k in since && k.0 != d :: since[k])
    case ResetRuleID(r) => (false, map k | k in since && k.1 != r :: since[k])
  }

  predicate Touches(e: TimerEvent, key: Key) {
    match e
    case Observe(k, _, _, _) => k == key
    case ResetDevice(d) => key.0 == d
    case ResetRuleID(r) => key.1 == r
  }

  ghost predicate Moves(run: seq<TimerEvent>, states: seq<map<Key, Time>>, i: nat) {
    i < |run| && i + 1 < |states| && states[i+1] == TimerStep(states[i], run[i]).1
  }

  ghost predicate IsRun(run: seq<TimerEvent>, states: seq<map<Key, Time>>) {
    && |states| == |run| + 1 && states[0] == map[]
    && forall i: nat | i < |run| :: Moves(run, states, i)
  }

  ghost predicate Fires(run: seq<TimerEvent>, states: seq<map<Key, Time>>, key: Key, n: nat)
    requires n < |run| && n < |states|
  {
    run[n].Observe? && run[n].key == key && TimerStep(states[n], run[n]).0
  }

  /** Other keys are unaffected. */
  lemma OtherKeysUnaffected(since: map<Key, Time>, e: TimerEvent, key: Key)
    requires !Touches(e, key)
    ensures var after := TimerStep(since, e).1;
            (key in after <==> key in since) && (key in since ==> after[key] == since[key])
  {
  }

  /** The streak of `key` that is running after `n` events began at observation `s`: from then
      on the rule matched at every observation of the key, nothing reset it, and it did not
      fire. */
  ghost predicate StreakFrom(run: seq<TimerEvent>, states: seq<map<Key, Time>>, key: Key, s: nat, n: nat)
    requires |states| == |run| + 1 && n <= |run|
  {
    && s < n && run[s].Observe? && run[s].key == key && run[s].matched
    && (forall i: nat | s <= i < n && Touches(run[i], key) ::
          run[i].Observe? && run[i].matched && !Fires(run, states, key, i))
    && Idle(run, states, key, s)
  }

  /** Nothing is running for `key` before event `n`: its last event, if any, was a mismatch, a
      reset or a firing. */
  ghost predicate Idle(run: seq<TimerEvent>, states: seq<map<Key, Time>>, key: Key, n: nat)
    requires |states| == |run| + 1 && n <= |run|
  {
    n == 0
    || (if Touches(run[n-1], key)
        then !run[n-1].Observe? || !run[n-1].matched || Fires(run, states, key, n - 1)
        else Idle(run, states, key, n - 1))
  }

  ghost predicate FixedDuration(run: seq<TimerEvent>, key: Key, duration: int) {
    forall i | 0 <= i < |run| && run[i].Observe? && run[i].key == key :: run[i].duration == duration
  }

  /** What the stored start means, at every point of every run: either nothing is running, or
      it is the time of the first match of the running streak. */
  lemma {:induction false} StartIsStreakBegin(run: seq<TimerEvent>, states: seq<map<Key, Time>>, key: Key,
                                              duration: int, n: nat) returns (s: nat)
    requires IsRun(run, states) && n <= |run| && duration > 0 && FixedDuration(run, key, duration)
    ensures if key in states[n] then StreakFrom(run, states, key, s, n) && states[n][key] == run[s].now
            else Idle(run, states, key, n)
  {
    s := 0;
    if n > 0 {
      s := StartIsStreakBegin(run, states, key, duration, n - 1);
      assert Moves(run, states, n - 1);
      var e := run[n-1];
      if !Touches(e, key) {
        OtherKeysUnaffected(states[n-1], e, key);
      } else if key in states[n] && key !in states[n-1] {
        s := n - 1;
      }
    }
  }

  /** Firing, exactly: an observation fires when it matches, a streak is running, and the
      streak's first match is at least `duration` ago. */
  lemma FiresIff(run: seq<TimerEvent>, states: seq<map<Key, Time>>, key: Key, duration: int, n: nat)
    requires IsRun(run, states) && n < |run| && duration > 0 && FixedDuration(run, key, duration)
    requires run[n].Observe? && run[n].key == key
    ensures Fires(run, states, key, n) <==>
            run[n].matched && exists s: nat :: StreakFrom(run, states, key, s, n) && run[n].now - run[s].now >= duration
  {
    var s := StartIsStreakBegin(run, states, key, duration, n);
    if s': nat :| StreakFrom(run, states, key, s', n) && run[n].now - run[s'].now >= duration {
      if key in states[n] {
        SameStreak(run, states, key, s, s', n);
      } else {
        NotIdle(run, states, key, s', n);
      }
    }
  }

  lemma {:induction false} NotIdle(run: seq<TimerEvent>, states: seq<map<Key, Time>>, key: Key, s: nat, n: nat)
    requires |states| == |run| + 1 && n <= |run| && StreakFrom(run, states, key, s, n)
    ensures !Idle(run, states, key, n)
    decreases n
  {
    if n > s + 1 {
      assert Touches(run[n-1], key) ==> run[n-1].Observe? && run[n-1].matched && !Fires(run, states, key, n - 1);
      if !Touches(run[n-1], key) { NotIdle(run, states, key, s, n - 1); }
    } else {
      assert Touches(run[s], key);
    }
  }

  lemma SameStreak(run: seq<TimerEvent>, states: seq<map<Key, Time>>, key: Key, s: nat, t: nat, n: nat)
    requires |states| == |run| + 1 && n <= |run|
    requires StreakFrom(run, states, key, s, n) && StreakFrom(run, states, key, t, n)
    ensures s == t
  {
    if s < t {
      assert StreakFrom(run, states, key, s, t);
      NotIdle(run, states, key, s, t);
    }
    if t < s {
      assert StreakFrom(run, states, key, t, s);
      NotIdle(run, states, key, t, s);
    }
  }

  ghost predicate MonotoneClock(run: seq<TimerEvent>) {
    forall i, j | 0 <= i <= j < |run| && run[i].Observe? && run[j].Observe? :: run[i].now <= run[j].now
  }

  /** How often `key` fires among the first `n` events. */
  ghost function Firings(run: seq<TimerEvent>, states: seq<map<Key, Time>>, key: Key, n: nat): nat
    requires n <= |run| < |states|
  {
    if n == 0 then 0 else Firings(run, states, key, n - 1) + (if Fires(run, states, key, n - 1) then 1 else 0)
  }

  /** Each firing uses up its own stretch of time: k firings need k durations. */
  lemma {:induction false} FiringsTakeTime(run: seq<TimerEvent>, states: seq<map<Key, Time>>, key: Key,
                                           duration: int, start: Time, n: nat)
    requires IsRun(run, states) && n <= |run| && duration > 0 && FixedDuration(run, key, duration) && MonotoneClock(run)
    requires forall i | 0 <= i < |run| && run[i].Observe? :: start <= run[i].now
    ensures Firings(run, states, key, n) * duration <= LastTime(run, start, n) - start
    ensures key in states[n] ==>
              Firings(run, states, key, n) * duration <= states[n][key] - start <= LastTime(run, start, n) - start
  {
    if n > 0 {
      FiringsTakeTime(run, states, key, duration, start, n - 1);
      assert Moves(run, states, n - 1);
      LastTimeGrows(run, start, n);
      var e := run[n-1];
      OneMoreFiring(Firings(run, states, key, n - 1), duration);
      if !Touches(e, key) {
        OtherKeysUnaffected(states[n-1], e, key);
      }
    }
  }

  lemma OneMoreFiring(k: nat, duration: int)
    ensures (k + 1) * duration == k * duration + duration
  {
  }

  /** The time of the last observation among the first `n` events. */
  function LastTime(run: seq<TimerEvent>, start: Time, n: nat): Time
    requires n <= |run|
  {
    if n == 0 then start else if run[n-1].Observe? then run[n-1].now else LastTime(run, start, n - 1)
  }

  lemma {:induction false} LastTimeGrows(run: seq<TimerEvent>, start: Time, n: nat)
    requires 0 < n <= |run| && MonotoneClock(run)
    requires forall i | 0 <= i < |run| && run[i].Observe? :: start <= run[i].now
    ensures LastTime(run, start, n - 1) <= LastTime(run, start, n)
    ensures forall i | n <= i < |run| && run[i].Observe? :: LastTime(run, start, n) <= run[i].now
  {
    if n > 1 { LastTimeGrows(run, start, n - 1); }
  }

  /** A rule without a duration fires at every match, and at nothing else. */
  lemma NoDurationFiresIff(since: map<Key, Time>, key: Key, matched: bool, duration: int, now: Time)
    requires duration <= 0
    ensures TimerStep(since, Observe(key, matched, duration, now)).0 <==> matched
    ensures matched ==> TimerStep(since, Observe(key, matched, duration, now)).1 == since
    ensures !matched ==> key !in TimerStep(since, Observe(key, matched, duration, now)).1
  {
  }

  /** Resetting a device or a rule forgets exactly its own keys. */
  lemma ResetsForget(since: map<Key, Time>, d: string, r: string, key: Key)
    ensures key in TimerStep(since, ResetDevice(d)).1 <==> key in since && key.0 != d
    ensures key in TimerStep(since, ResetRuleID(r)).1 <==> key in since && key.1 != r
  {
  }
}
