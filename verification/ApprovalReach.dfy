/** Exactly which flows can be approved at all, and exactly which flows never leave a
    pending request without anyone who may decide. */
module ApprovalReach {
  import opened Basics
  import opened ApprovalModel
  import opened ApprovalEngine
  import opened ApprovalSafety
  import opened ApprovalProgress

  function ApproveBy(r: Request, f: Flow, user: string, now: Time): Request {
    var v := Decide(r, f, Decision(user, true, "", now));
    if v.Ok? then v.value.0 else r
  }

  /** The users approve one after the other; refused attempts change nothing. */
  function ApproveAll(r: Request, f: Flow, users: seq<string>, now: Time): Request
    decreases |users|
  {
    if users == [] then r else ApproveAll(ApproveBy(r, f, users[0], now), f, users[1..], now)
  }

  lemma {:induction false} ApproveAllConcat(r: Request, f: Flow, a: seq<string>, b: seq<string>, now: Time)
    ensures ApproveAll(r, f, a + b, now) == ApproveAll(ApproveAll(r, f, a, now), f, b, now)
    decreases |a|
  {
    if a == [] {
      assert a + b == b;
    } else {
      assert (a + b)[1..] == a[1..] + b && (a + b)[0] == a[0];
      ApproveAllConcat(ApproveBy(r, f, a[0], now), f, a[1..], b, now);
    }
  }

  /** Pending and past nobody's deadline. */
  ghost predicate Live(r: Request, f: Flow, now: Time) {
    Good(r, f) && r.status == Pending && !IsExpired(r, now)
  }

  predicate MayDecide(r: Request, f: Flow, user: string, now: Time) {
    ValidateDecision(r, f, user, now).Ok?
  }

  ghost predicate Stuck(r: Request, f: Flow, now: Time) {
    r.status == Pending && forall u :: !MayDecide(r, f, u, now)
  }

  /** After these approvals the request is pending and nobody may decide. */
  ghost predicate Strands(r: Request, f: Flow, users: seq<string>, now: Time) {
    Stuck(ApproveAll(r, f, users, now), f, now)
  }

  /** The decisions of the step whose turn it is. */
  function OpenDecisions(r: Request): seq<Decision>
    requires 0 <= Passed(r) < |r.steps|
  {
    r.steps[Passed(r)].decisions
  }

  /** An approval by an eligible user: either the step stays open with one more decision, or
      the request moves on. */
  lemma OneApproval(r: Request, f: Flow, user: string, now: Time)
    requires Live(r, f, now) && MayDecide(r, f, user, now)
    ensures Active(r, f)
    ensures var c, r' := Passed(r), ApproveBy(r, f, user, now);
            var step, ds := f.steps[c], OpenDecisions(r);
            && Good(r', f) && !IsExpired(r', now)
            && Remaining(r', f) == Remaining(r, f) - 1 >= 0
            && if step.mode == AnyOf || |ds| + 1 >= |step.approvers|
               then Passed(r') == c + 1 && r'.status == (if c + 1 == |f.steps| then Approved else Pending)
                    && (c + 1 < |f.steps| ==> OpenDecisions(r') == [])
               else Passed(r') == c && r'.status == Pending && Active(r', f)
                    && OpenDecisions(r') == ds + [Decision(user, true, "", now)]
  {
    var d := Decision(user, true, "", now);
    AcceptedDecision(r, f, d);
    DecisionKeepsGood(r, f, d);
    DecisionLowersRemaining(r, f, d);
    RecordRecords(r, f, Passed(r), d);
    EvaluateOneMore(f.steps[Passed(r)], OpenDecisions(r), d);
    LastOrderIsLast(f, Passed(r));
    KeepsDeadline(r, f, Passed(r), d);
  }

  lemma KeepsDeadline(r: Request, f: Flow, c: nat, d: Decision)
    requires c < |f.steps| && c < |r.steps|
    ensures Record(r, f, c, c, d).0.expireAt == r.expireAt
  {
  }

  lemma {:induction false} ApproveAllKeepsGood(r: Request, f: Flow, users: seq<string>, now: Time)
    requires Good(r, f)
    ensures Good(ApproveAll(r, f, users, now), f)
    decreases |users|
  {
    if users != [] {
      var d := Decision(users[0], true, "", now);
      if Decide(r, f, d).Ok? { DecisionKeepsGood(r, f, d); }
      ApproveAllKeepsGood(ApproveBy(r, f, users[0], now), f, users[1..], now);
    }
  }

  // ---------------------------------------------------- following a list

  /** `users` could decide the step in this order. */
  ghost predicate Follows(step: FlowStep, users: seq<string>) {
    && Distinct(users)
    && (forall u | u in users :: u in step.approvers)
    && |users| <= |step.approvers|
    && (step.mode == Sequential ==>
          forall k | 0 <= k < |users| :: step.approvers[k] == "" || users[k] == step.approvers[k])
  }

  lemma NextMayDecide(r: Request, f: Flow, users: seq<string>, now: Time)
    requires Live(r, f, now) && Active(r, f)
    requires Follows(f.steps[Passed(r)], users) && |OpenDecisions(r)| < |users|
    requires Deciders(OpenDecisions(r)) == users[..|OpenDecisions(r)|]
    ensures MayDecide(r, f, users[|OpenDecisions(r)|], now)
  {
    FindCurrent(r, f);
    var ds := OpenDecisions(r);
    var u := users[|ds|];
    assert u in users;
    NotYetDecided(ds, users, u);
  }

  lemma NotYetDecided(ds: seq<Decision>, users: seq<string>, u: string)
    requires |ds| < |users| && users[|ds|] == u && Distinct(users) && Deciders(ds) == users[..|ds|]
    ensures !HasDecided(ds, u)
  {
    forall i | 0 <= i < |ds| ensures ds[i].userID != u {
      assert Deciders(ds)[i] == users[..|ds|][i] == users[i];
    }
  }

  /** While the step needs more decisions than the list has users, everyone on the list
      decides and the step stays open. */
  lemma {:induction false} FollowOpen(r: Request, f: Flow, users: seq<string>, now: Time, c: nat)
    requires Live(r, f, now) && Active(r, f) && c == Passed(r) && f.steps[c].mode != AnyOf
    requires Follows(f.steps[c], users) && |users| < |f.steps[c].approvers|
    requires |OpenDecisions(r)| <= |users| && Deciders(OpenDecisions(r)) == users[..|OpenDecisions(r)|]
    ensures var r' := ApproveAll(r, f, users[|OpenDecisions(r)|..], now);
            Live(r', f, now) && Active(r', f) && Passed(r') == c && Deciders(OpenDecisions(r')) == users
    decreases |users| - |OpenDecisions(r)|
  {
    var k := |OpenDecisions(r)|;
    if k < |users| {
      NextMayDecide(r, f, users, now);
      OneApproval(r, f, users[k], now);
      var r1 := ApproveBy(r, f, users[k], now);
      assert Deciders(OpenDecisions(r1)) == Deciders(OpenDecisions(r)) + [users[k]];
      assert users[..k] + [users[k]] == users[..k+1];
      FollowOpen(r1, f, users, now, c);
      assert users[k..][0] == users[k] && users[k..][1..] == users[k+1..];
    } else {
      assert users[..k] == users;
      assert users[k..] == [];
    }
  }

  /** Steps that can be completed: everyone on the list has to decide, and decides once. */
  ghost predicate Passable(step: FlowStep) {
    step.mode == AnyOf || Distinct(step.approvers)
  }

  /** The approvals that pass an untouched step. */
  function PassingUsers(step: FlowStep): seq<string> {
    if step.mode == AnyOf && step.approvers != [] then [step.approvers[0]] else step.approvers
  }

  /** The request has just moved past step `c`. */
  ghost predicate MovedOn(r': Request, f: Flow, c: nat, now: Time) {
    && Good(r', f) && !IsExpired(r', now) && Passed(r') == c + 1
    && r'.status == (if c + 1 == |f.steps| then Approved else Pending)
    && (c + 1 < |f.steps| ==> OpenDecisions(r') == [])
  }

  lemma PassAnyOf(r: Request, f: Flow, now: Time)
    requires Live(r, f, now) && Active(r, f) && OpenDecisions(r) == [] && f.steps[Passed(r)].mode == AnyOf
    ensures MovedOn(ApproveAll(r, f, PassingUsers(f.steps[Passed(r)]), now), f, Passed(r), now)
  {
    var user := f.steps[Passed(r)].approvers[0];
    FindCurrent(r, f);
    assert MayDecide(r, f, user, now);
    OneApproval(r, f, user, now);
    assert [user][1..] == [];
  }

  /** Everyone on the list but the last has approved. */
  lemma PassMost(r: Request, f: Flow, most: seq<string>, now: Time)
    requires Live(r, f, now) && Active(r, f) && OpenDecisions(r) == [] && f.steps[Passed(r)].mode != AnyOf
    requires Distinct(f.steps[Passed(r)].approvers)
    requires most == f.steps[Passed(r)].approvers[..|f.steps[Passed(r)].approvers|-1]
    ensures var r' := ApproveAll(r, f, most, now);
            Live(r', f, now) && Active(r', f) && Passed(r') == Passed(r) && Deciders(OpenDecisions(r')) == most
  {
    assert Deciders([]) == most[..0];
    assert most[0..] == most;
    FollowOpen(r, f, most, now, Passed(r));
  }

  lemma PassList(r: Request, f: Flow, now: Time)
    requires Live(r, f, now) && Active(r, f) && OpenDecisions(r) == [] && f.steps[Passed(r)].mode != AnyOf
    requires Distinct(f.steps[Passed(r)].approvers)
    ensures MovedOn(ApproveAll(r, f, f.steps[Passed(r)].approvers, now), f, Passed(r), now)
  {
    var c := Passed(r);
    var all := f.steps[c].approvers;
    var most, last := all[..|all|-1], all[|all|-1];
    PassMost(r, f, most, now);
    LastApprover(ApproveAll(r, f, most, now), f, c, now);
    ApproveAllConcat(r, f, most, [last], now);
    assert most + [last] == all;
  }

  lemma LastApprover(r: Request, f: Flow, c: nat, now: Time)
    requires Live(r, f, now) && Active(r, f) && Passed(r) == c && f.steps[c].mode != AnyOf
    requires Distinct(f.steps[c].approvers)
    requires Deciders(OpenDecisions(r)) == f.steps[c].approvers[..|f.steps[c].approvers|-1]
    ensures var last := f.steps[c].approvers[|f.steps[c].approvers|-1];
            MovedOn(ApproveAll(r, f, [last], now), f, c, now)
  {
    var all := f.steps[c].approvers;
    var last := all[|all|-1];
    assert |OpenDecisions(r)| == |Deciders(OpenDecisions(r))|;
    NextMayDecide(r, f, all, now);
    OneApproval(r, f, last, now);
    assert [last][1..] == [];
  }

  lemma PassStep(r: Request, f: Flow, now: Time)
    requires Live(r, f, now) && Active(r, f) && OpenDecisions(r) == [] && Passable(f.steps[Passed(r)])
    ensures MovedOn(ApproveAll(r, f, PassingUsers(f.steps[Passed(r)]), now), f, Passed(r), now)
  {
    if f.steps[Passed(r)].mode == AnyOf { PassAnyOf(r, f, now); } else { PassList(r, f, now); }
  }

  /** The request stands at the beginning of step `n`, or is approved when there is none. */
  ghost predicate AtStart(r: Request, f: Flow, n: nat, now: Time) {
    && Good(r, f) && !IsExpired(r, now) && Passed(r) == n <= |f.steps|
    && r.status == (if n == |f.steps| then Approved else Pending)
    && (n < |f.steps| ==> OpenDecisions(r) == [])
  }

  /** The passing approvals of all steps before `n` lead from one start to the next. */
  lemma {:induction false} PassSteps(r: Request, f: Flow, m: nat, n: nat, now: Time) returns (users: seq<string>)
    requires AtStart(r, f, m, now) && Contiguous(f) && m <= n <= |f.steps|
    requires forall i | 0 <= i < n :: Passable(f.steps[i])
    ensures AtStart(ApproveAll(r, f, users, now), f, n, now)
    decreases n - m
  {
    users := [];
    if m < n {
      PassStep(r, f, now);
      var first := PassingUsers(f.steps[m]);
      var r1 := ApproveAll(r, f, first, now);
      var rest := PassSteps(r1, f, m + 1, n, now);
      ApproveAllConcat(r, f, first, rest, now);
      users := first + rest;
    }
  }

  // ------------------------------------------------------------- approvable

  /** Orders 1..n, and nobody who has to decide a step is listed twice. */
  ghost predicate Approvable(f: Flow) {
    Contiguous(f) && forall i | 0 <= i < |f.steps| :: Passable(f.steps[i])
  }

  lemma ApprovedIsApprovable(r: Request, f: Flow)
    requires Good(r, f) && r.status == Approved
    ensures Approvable(f)
  {
  }

  /** Some sequence of approvals approves a fresh request exactly when the flow is
      approvable. The validation on creation lets other flows through. */
  lemma ApprovableIff(r0: Request, f: Flow, now: Time)
    requires ValidFlow(f) && !IsExpired(r0, now)
    ensures (exists users :: ApproveAll(Submitted(r0, f, now), f, users, now).status == Approved) <==> Approvable(f)
  {
    var s := Submitted(r0, f, now);
    SubmittedIsGood(r0, f, now);
    forall users | ApproveAll(s, f, users, now).status == Approved ensures Approvable(f) {
      ApproveAllKeepsGood(s, f, users, now);
      ApprovedIsApprovable(ApproveAll(s, f, users, now), f);
    }
    if Approvable(f) {
      var users := PassSteps(s, f, 0, |f.steps|, now);
      assert ApproveAll(Submitted(r0, f, now), f, users, now).status == Approved;
    }
  }

  // ------------------------------------------------------------ never stuck

  /** A step that never strands its deciders: an empty name, which stands for "anyone's
      turn", may only come last in a sequential list. */
  ghost predicate SteadyStep(step: FlowStep) {
    && Passable(step)
    && (step.mode == Sequential ==> "" !in step.approvers[..if |step.approvers| > 0 then |step.approvers|-1 else 0])
  }

  ghost predicate Steady(f: Flow) {
    Contiguous(f) && forall i | 0 <= i < |f.steps| :: SteadyStep(f.steps[i])
  }

  /** In a countersign step that is still open somebody is missing. */
  lemma SomebodyMissing(approvers: seq<string>, users: seq<string>) returns (u: string)
    requires Distinct(approvers) && |users| < |approvers|
    ensures u in approvers && u !in users
  {
    DistinctCount(approvers);
    DistinctCount(users);
    if Elements(approvers) <= Elements(users) {
      SubsetSize(Elements(approvers), Elements(users));
      assert false;
    }
    u :| u in Elements(approvers) && u !in Elements(users);
  }

  /** With a steady flow, every live request in any reachable state has someone whose
      decision would be accepted. */
  lemma SomeoneMayDecide(r: Request, f: Flow, now: Time) returns (u: string)
    requires Live(r, f, now) && Steady(f)
    ensures MayDecide(r, f, u, now)
  {
    assert Active(r, f);
    FindCurrent(r, f);
    var step, ds := f.steps[Passed(r)], OpenDecisions(r);
    match step.mode {
      case AnyOf =>
        u := step.approvers[0];
      case Countersign =>
        u := SomebodyMissing(step.approvers, Deciders(ds));
        assert forall i | 0 <= i < |ds| :: Deciders(ds)[i] in Deciders(ds);
        assert forall i | 0 <= i < |ds| :: ds[i].userID == Deciders(ds)[i];
      case Sequential =>
        u := step.approvers[|ds|];
        forall i | 0 <= i < |ds| ensures ds[i].userID == step.approvers[i] {
          assert step.approvers[..|step.approvers|-1][i] == step.approvers[i];
        }
        assert Deciders(ds) == step.approvers[..|ds|];
        NotYetDecided(ds, step.approvers, u);
    }
  }

  /** Approving as long as anyone may: it ends approved or stuck. */
  lemma {:induction false} ApproveUntilDone(r: Request, f: Flow, now: Time) returns (users: seq<string>)
    requires Live(r, f, now)
    ensures var r' := ApproveAll(r, f, users, now);
            Good(r', f) && (r'.status == Approved || Stuck(r', f, now))
    decreases Remaining(r, f)
  {
    if u :| MayDecide(r, f, u, now) {
      OneApproval(r, f, u, now);
      GoodFits(r, f);
      var r1 := ApproveBy(r, f, u, now);
      if r1.status == Approved {
        users := [u];
        assert [u][1..] == [];
      } else {
        var rest := ApproveUntilDone(r1, f, now);
        users := [u] + rest;
        assert users[1..] == rest;
      }
    } else {
      users := [];
    }
  }

  /** A sequential list with an empty name before its end: someone named later takes that
      turn, and when the later turn comes nobody is allowed to decide. */
  lemma EmptyNameStrands(r: Request, f: Flow, p: nat, now: Time) returns (users: seq<string>)
    requires Live(r, f, now) && Active(r, f) && OpenDecisions(r) == [] && f.steps[Passed(r)].mode == Sequential
    requires Distinct(f.steps[Passed(r)].approvers)
    requires p < |f.steps[Passed(r)].approvers| - 1 && f.steps[Passed(r)].approvers[p] == ""
    ensures Strands(r, f, users, now)
  {
    var c := Passed(r);
    var all := f.steps[c].approvers;
    var n := |all| - 1;
    users := all[..n][p := all[n]];
    DetourFollows(f.steps[c], p, users);
    assert Deciders([]) == users[..0];
    FollowOpen(r, f, users, now, c);
    assert users[0..] == users;
    var r' := ApproveAll(r, f, users, now);
    assert Deciders(OpenDecisions(r'))[p] == users[p] == all[n];
    TurnTaken(r', f, p, now);
  }

  lemma DetourFollows(step: FlowStep, p: nat, users: seq<string>)
    requires step.mode == Sequential && Distinct(step.approvers) && p < |step.approvers| - 1 && step.approvers[p] == ""
    requires users == step.approvers[..|step.approvers|-1][p := step.approvers[|step.approvers|-1]]
    ensures Follows(step, users)
  {
    var all, n := step.approvers, |step.approvers| - 1;
    forall u | u in users ensures u in all {
      var k :| 0 <= k < n && users[k] == u;
      assert u == if k == p then all[n] else all[k];
    }
  }

  /** When the last approver of a sequential step has decided out of turn, nobody may decide
      the last place. */
  lemma TurnTaken(r: Request, f: Flow, p: nat, now: Time)
    requires Live(r, f, now) && Active(r, f) && f.steps[Passed(r)].mode == Sequential
    requires Distinct(f.steps[Passed(r)].approvers) && p < |f.steps[Passed(r)].approvers| - 1
    requires f.steps[Passed(r)].approvers[p] == ""
    requires var all, ds := f.steps[Passed(r)].approvers, OpenDecisions(r);
             |ds| == |all| - 1 && ds[p].userID == all[|all|-1]
    ensures Stuck(r, f, now)
  {
    FindCurrent(r, f);
    var all, ds := f.steps[Passed(r)].approvers, OpenDecisions(r);
    assert NextSequentialApprover(f.steps[Passed(r)], ds) == all[|all|-1] != all[p];
    forall u ensures !MayDecide(r, f, u, now) {
      assert HasDecided(ds, all[|all|-1]);
    }
  }

  /** No sequence of approvals leaves a fresh request pending with nobody who may decide --
      exactly when the flow is steady. */
  lemma NeverStuckIff(r0: Request, f: Flow, now: Time)
    requires ValidFlow(f) && !IsExpired(r0, now)
    ensures (forall users :: !Strands(Submitted(r0, f, now), f, users, now)) <==> Steady(f)
  {
    var s := Submitted(r0, f, now);
    SubmittedIsGood(r0, f, now);
    if Steady(f) {
      forall users ensures !Strands(s, f, users, now) {
        ApproveAllKeepsGood(s, f, users, now);
        DeadlineStays(s, f, users, now);
        var r := ApproveAll(s, f, users, now);
        if r.status == Pending { var u := SomeoneMayDecide(r, f, now); }
      }
    } else {
      var users := FindStuck(r0, f, now);
      assert Strands(s, f, users, now);
    }
  }

  lemma {:induction false} DeadlineStays(r: Request, f: Flow, users: seq<string>, now: Time)
    ensures ApproveAll(r, f, users, now).expireAt == r.expireAt
    decreases |users|
  {
    if users != [] {
      DeadlineStays(ApproveBy(r, f, users[0], now), f, users[1..], now);
    }
  }

  lemma FindStuck(r0: Request, f: Flow, now: Time) returns (users: seq<string>)
    requires ValidFlow(f) && !IsExpired(r0, now) && !Steady(f)
    ensures Strands(Submitted(r0, f, now), f, users, now)
  {
    var s := Submitted(r0, f, now);
    SubmittedIsGood(r0, f, now);
    users := ApproveUntilDone(s, f, now);
    if ApproveAll(s, f, users, now).status == Approved {
      assert Approvable(f);
      var i :| 0 <= i < |f.steps| && !SteadyStep(f.steps[i]);
      users := StrandAt(s, f, i, now);
    }
  }

  /** Passing the steps before an unsteady one and stranding there. */
  lemma StrandAt(s: Request, f: Flow, i: nat, now: Time) returns (users: seq<string>)
    requires AtStart(s, f, 0, now) && Approvable(f) && i < |f.steps| && !SteadyStep(f.steps[i])
    ensures Strands(s, f, users, now)
  {
    var all := f.steps[i].approvers;
    var p :| 0 <= p < |all| - 1 && all[..|all|-1][p] == "";
    var before := PassSteps(s, f, 0, i, now);
    var r := ApproveAll(s, f, before, now);
    var detour := EmptyNameStrands(r, f, p, now);
    ApproveAllConcat(s, f, before, detour, now);
    users := before + detour;
  }
}
