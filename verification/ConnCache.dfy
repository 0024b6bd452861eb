/** The connection cache with cooldown of internal/agent/grpcclient.go, over any run of
    lookups and evictions. */
module ConnCache {

  type Time = int

  const COOLDOWN := 6_000_000_000

  datatype Cache = Cache(conns: set<string>, cooldown: map<string, Time>)

  /** Looking up a connection (with what dialing would give) and evicting one. */
  datatype Event = Get(target: string, dialOk: bool, now: Time) | Evict(target: string, now: Time)

  datatype Answer = Reused | Refused | Dialed | DialFailed | Evicted

  const Empty := Cache({}, map[])

  function Step(c: Cache, e: Event): (Cache, Answer) {
    match e
    case Get(t, dialOk, now) =>
      if t in c.conns then (c, Reused)
      else if t in c.cooldown && now < c.cooldown[t] then (c, Refused)
      else if !dialOk then (c, DialFailed)
      else (c.(conns := c.conns + {t}), Dialed)
    case Evict(t, now) => (Cache(c.conns - {t}, c.cooldown[t := now + COOLDOWN]), Evicted)
  }

  class GRPCClient {
    var conns: set<string>
    var connCooldown: map<string, Time>
    var connFailures: nat

    function Value(): Cache
      reads this
    {
      Cache(conns, connCooldown)
    }

    constructor ()
      ensures Value() == Empty && connFailures == 0
    {
      conns, connCooldown, connFailures := {}, map[], 0;
    }

    method GetConn(target: string, dialOk: bool, now: Time) returns (answer: Answer)
      modifies this
      ensures (Value(), answer) == Step(old(Value()), Get(target, dialOk, now)) && connFailures == old(connFailures)
    {
      if target in conns {
        return Reused;
      }
      if target in connCooldown && now < connCooldown[target] {
        return Refused;
      }
      if !dialOk {
        return DialFailed;
      }
      conns := conns + {target};
      return Dialed;
    }

    method EvictConn(target: string, now: Time)
      modifies this
      ensures Value() == Step(old(Value()), Evict(target, now)).0 && connFailures == old(connFailures) + 1
    {
      if target in conns {
        conns := conns - {target};
      }
      connCooldown := connCooldown[target := now + COOLDOWN];
      connFailures := connFailures + 1;
    }
  }

  ghost predicate Moves(run: seq<Event>, states: seq<Cache>, i: nat) {
    i < |run| && i + 1 < |states| && states[i+1] == Step(states[i], run[i]).0
  }

  ghost predicate IsRun(run: seq<Event>, states: seq<Cache>) {
    && |states| == |run| + 1 && states[0] == Empty
    && (forall i: nat | i < |run| :: Moves(run, states, i))
    && (forall i, j | 0 <= i <= j < |run| :: run[i].now <= run[j].now)
  }

  /** Event `i` opens a new connection to the target. */
  ghost predicate DialsAt(run: seq<Event>, states: seq<Cache>, target: string, i: nat) {
    i < |run| && i < |states| && run[i].target == target && Step(states[i], run[i]).1 == Dialed
  }

  /** After a dial the target is connected, or cools down until a full window after it. */
  lemma {:induction false} ConnectedOrCooling(run: seq<Event>, states: seq<Cache>, target: string, i: nat, n: nat)
    requires IsRun(run, states) && i < n <= |run| && DialsAt(run, states, target, i)
    requires forall k | i < k < n :: !DialsAt(run, states, target, k)
    ensures target in states[n].conns
            || (target in states[n].cooldown && states[n].cooldown[target] >= run[i].now + COOLDOWN)
    decreases n
  {
    assert Moves(run, states, n - 1);
    if n > i + 1 { ConnectedOrCooling(run, states, target, i, n - 1); }
  }

  /** Successive dials to one target are at least the cooldown window apart. */
  lemma DialsAreSpaced(run: seq<Event>, states: seq<Cache>, target: string, i: nat, j: nat)
    requires IsRun(run, states) && i < j && DialsAt(run, states, target, i) && DialsAt(run, states, target, j)
    requires forall k | i < k < j :: !DialsAt(run, states, target, k)
    ensures run[j].now >= run[i].now + COOLDOWN
  {
    ConnectedOrCooling(run, states, target, i, j);
  }

  /** The dials to the target among the first `n` events. */
  ghost function Dials(run: seq<Event>, states: seq<Cache>, target: string, n: nat): nat {
    if n == 0 then 0
    else Dials(run, states, target, n - 1) + (if DialsAt(run, states, target, n - 1) then 1 else 0)
  }

  /** The last dial before `n`, when there is one. */
  lemma {:induction false} LastDial(run: seq<Event>, states: seq<Cache>, target: string, n: nat) returns (i: nat)
    requires n <= |run| && Dials(run, states, target, n) > 0
    ensures i < n && DialsAt(run, states, target, i) && forall k | i < k < n :: !DialsAt(run, states, target, k)
    ensures Dials(run, states, target, n) == Dials(run, states, target, i + 1)
  {
    if DialsAt(run, states, target, n - 1) {
      i := n - 1;
    } else {
      i := LastDial(run, states, target, n - 1);
    }
  }

  /** N dials to one target need N - 1 cooldown windows: a target that stays unreachable is
      dialed at most once per window. */
  lemma {:induction false} DialsTakeTime(run: seq<Event>, states: seq<Cache>, target: string, start: Time, n: nat)
    requires IsRun(run, states) && n < |run| && DialsAt(run, states, target, n)
    requires forall i | 0 <= i < |run| :: start <= run[i].now
    ensures Dials(run, states, target, n) * COOLDOWN <= run[n].now - start
  {
    if Dials(run, states, target, n) > 0 {
      var i := LastDial(run, states, target, n);
      DialsTakeTime(run, states, target, start, i);
      DialsAreSpaced(run, states, target, i, n);
    }
  }

  // --------------------------------------------------- what a lookup answers

  ghost predicate EvictsAt(run: seq<Event>, target: string, i: nat) {
    i < |run| && run[i].Evict? && run[i].target == target
  }

  /** The target was dialed and has not been evicted since. */
  ghost predicate Connected(run: seq<Event>, states: seq<Cache>, target: string, n: nat) {
    exists i: nat :: i < n && DialsAt(run, states, target, i) && forall k | i < k < n :: !EvictsAt(run, target, k)
  }

  /** The target was evicted less than a cooldown before `now`. */
  ghost predicate EvictedLately(run: seq<Event>, target: string, n: nat, now: Time) {
    exists i: nat :: i < n && EvictsAt(run, target, i) && now < run[i].now + COOLDOWN
  }

  lemma {:induction false} ConnectedIff(run: seq<Event>, states: seq<Cache>, target: string, n: nat)
    requires IsRun(run, states) && n <= |run|
    ensures target in states[n].conns <==> Connected(run, states, target, n)
  {
    if n > 0 {
      ConnectedIff(run, states, target, n - 1);
      assert Moves(run, states, n - 1);
      if Connected(run, states, target, n - 1) && !EvictsAt(run, target, n - 1) {
        var i: nat :| i < n - 1 && DialsAt(run, states, target, i) && forall k | i < k < n - 1 :: !EvictsAt(run, target, k);
        assert forall k | i < k < n :: !EvictsAt(run, target, k);
      }
      if DialsAt(run, states, target, n - 1) {
        assert Connected(run, states, target, n);
      }
      if Connected(run, states, target, n) && !DialsAt(run, states, target, n - 1) {
        var i: nat :| i < n && DialsAt(run, states, target, i) && forall k | i < k < n :: !EvictsAt(run, target, k);
        assert i < n - 1;
      }
    }
  }

  /** The cooldown kept for a target is that of its last eviction, which counts most. */
  lemma {:induction false} CooldownIff(run: seq<Event>, states: seq<Cache>, target: string, n: nat, now: Time)
    requires IsRun(run, states) && n <= |run|
    ensures (target in states[n].cooldown && now < states[n].cooldown[target]) <==> EvictedLately(run, target, n, now)
  {
    if n > 0 {
      CooldownIff(run, states, target, n - 1, now);
      assert Moves(run, states, n - 1);
      if EvictedLately(run, target, n - 1, now) {
        var i: nat :| i < n - 1 && EvictsAt(run, target, i) && now < run[i].now + COOLDOWN;
        assert run[i].now <= run[n-1].now;
        assert EvictedLately(run, target, n, now);
      }
      if EvictsAt(run, target, n - 1) && now < run[n-1].now + COOLDOWN {
        assert EvictedLately(run, target, n, now);
      }
    }
  }

  /** A lookup reuses the connection iff the target is connected, is refused iff it is not and
      was evicted less than a cooldown ago, and dials otherwise. */
  lemma AnswerIff(run: seq<Event>, states: seq<Cache>, n: nat)
    requires IsRun(run, states) && n < |run| && run[n].Get?
    ensures var t, answer := run[n].target, Step(states[n], run[n]).1;
            && (answer == Reused <==> Connected(run, states, t, n))
            && (answer == Refused <==> !Connected(run, states, t, n) && EvictedLately(run, t, n, run[n].now))
            && (answer == Dialed <==> !Connected(run, states, t, n) && !EvictedLately(run, t, n, run[n].now) && run[n].dialOk)
  {
    ConnectedIff(run, states, run[n].target, n);
    CooldownIff(run, states, run[n].target, n, run[n].now);
  }
}
