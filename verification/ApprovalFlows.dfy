/** What an update of a flow means for the next decision on a request (ApprovalLife has the
    rest of its life), and when tenants keep one enabled flow for each trigger. */
module ApprovalFlows {
  import opened ApprovalModel
  import opened ApprovalEngine
  import opened ApprovalSafety

  // ------------------------------------------- updating a flow under a request

  /** May decide, leaving aside the deadline. */
  predicate Entitled(r: Request, f: Flow, user: string) {
    && r.status == Pending
    && var i, j := FindStep(f.steps, r.currentStep), FindRequestStep(r.steps, r.currentStep);
       && i < |f.steps| && j < |r.steps|
       && user in f.steps[i].approvers && !HasDecided(r.steps[j].decisions, user)
       && (f.steps[i].mode == Sequential ==>
             var next := NextSequentialApprover(f.steps[i], r.steps[j].decisions);
             next == "" || next == user)
  }

  /** How the current step stands after one more approval or rejection. */
  function Verdict(r: Request, f: Flow, approve: bool): (bool, bool)
    requires FindStep(f.steps, r.currentStep) < |f.steps| && FindRequestStep(r.steps, r.currentStep) < |r.steps|
  {
    var i, j := FindStep(f.steps, r.currentStep), FindRequestStep(r.steps, r.currentStep);
    EvaluateStep(f.steps[i], r.steps[j].decisions + [Decision("", approve, "", ZERO)])
  }

  /** The two flows treat the request's turn alike: the same people may decide, and for
      them the step has the same id, ends under the same decisions, and is or is not the
      last one. The rest of the flow may differ. */
  ghost predicate SameTurn(r: Request, f: Flow, g: Flow) {
    && (forall u :: Entitled(r, f, u) <==> Entitled(r, g, u))
    && ((exists u :: Entitled(r, f, u)) ==>
          && f.steps[FindStep(f.steps, r.currentStep)].id == g.steps[FindStep(g.steps, r.currentStep)].id
          && (forall approve :: Verdict(r, f, approve) == Verdict(r, g, approve))
          && ((exists approve :: Verdict(r, f, approve) == (true, true)) ==>
                (r.currentStep >= LastOrder(f) <==> r.currentStep >= LastOrder(g))))
  }

  /** Both flows refuse the decision, or both record it with the same outcome. */
  predicate SameOutcome(r: Request, f: Flow, g: Flow, d: Decision) {
    var x, y := Decide(r, f, d), Decide(r, g, d);
    x.Ok? == y.Ok? && (x.Ok? ==> x == y)
  }

  lemma VerdictOf(r: Request, f: Flow, d: Decision)
    requires Entitled(r, f, d.userID)
    ensures var i, j := FindStep(f.steps, r.currentStep), FindRequestStep(r.steps, r.currentStep);
            EvaluateStep(f.steps[i], r.steps[j].decisions + [d]) == Verdict(r, f, d.approve)
  {
    var i, j := FindStep(f.steps, r.currentStep), FindRequestStep(r.steps, r.currentStep);
    SameFlags(f.steps[i], r.steps[j].decisions, d, Decision("", d.approve, "", ZERO));
  }

  lemma SameFlags(step: FlowStep, ds: seq<Decision>, d: Decision, e: Decision)
    requires d.approve == e.approve
    ensures EvaluateStep(step, ds + [d]) == EvaluateStep(step, ds + [e])
  {
    var a, b := ds + [d], ds + [e];
    assert forall k | 0 <= k < |a| :: a[k].approve == b[k].approve;
    if HasReject(a) {
      var k :| 0 <= k < |a| && !a[k].approve;
      assert !b[k].approve;
    }
  }

  lemma AcceptedIffEntitled(r: Request, f: Flow, d: Decision)
    ensures Decide(r, f, d).Ok? <==> Entitled(r, f, d.userID) && !IsExpired(r, d.timestamp)
  {
  }

  lemma DecideIsRecord(r: Request, f: Flow, d: Decision)
    requires Entitled(r, f, d.userID) && !IsExpired(r, d.timestamp)
    ensures Decide(r, f, d) ==
            Ok(Record(r, f, FindStep(f.steps, r.currentStep), FindRequestStep(r.steps, r.currentStep), d))
  {
    AcceptedIffEntitled(r, f, d);
  }

  /** What is recorded depends on the flow only through these. */
  lemma RecordDependsOnTurn(r: Request, f: Flow, g: Flow, d: Decision)
    requires Entitled(r, f, d.userID) && Entitled(r, g, d.userID) && !IsExpired(r, d.timestamp)
    ensures var i, k := FindStep(f.steps, r.currentStep), FindStep(g.steps, r.currentStep);
            SameOutcome(r, f, g, d) <==>
              && f.steps[i].id == g.steps[k].id
              && Verdict(r, f, d.approve) == Verdict(r, g, d.approve)
              && (Verdict(r, f, d.approve) == (true, true) ==>
                    (r.currentStep >= LastOrder(f) <==> r.currentStep >= LastOrder(g)))
  {
    var i, k := FindStep(f.steps, r.currentStep), FindStep(g.steps, r.currentStep);
    var j := FindRequestStep(r.steps, r.currentStep);
    DecideIsRecord(r, f, d);
    DecideIsRecord(r, g, d);
    VerdictOf(r, f, d);
    VerdictOf(r, g, d);
    SameRecordIff(r, f, g, i, k, j, d);
  }

  lemma SameRecordIff(r: Request, f: Flow, g: Flow, i: nat, k: nat, j: nat, d: Decision)
    requires i < |f.steps| && k < |g.steps| && j < |r.steps| && r.status == Pending
    requires f.steps[i].order == g.steps[k].order == r.currentStep
    ensures var v, w := EvaluateStep(f.steps[i], r.steps[j].decisions + [d]), EvaluateStep(g.steps[k], r.steps[j].decisions + [d]);
            Record(r, f, i, j, d) == Record(r, g, k, j, d) <==>
              f.steps[i].id == g.steps[k].id && v == w
              && (v == (true, true) ==> (r.currentStep >= LastOrder(f) <==> r.currentStep >= LastOrder(g)))
  {
    RecordedStep(r, f, i, j, d);
    RecordedStep(r, g, k, j, d);
    DoneOrNot(f.steps[i], r.steps[j].decisions + [d]);
    DoneOrNot(g.steps[k], r.steps[j].decisions + [d]);
  }

  lemma DoneOrNot(step: FlowStep, ds: seq<Decision>)
    ensures EvaluateStep(step, ds).1 ==> EvaluateStep(step, ds).0
  {
  }

  lemma RecordedStep(r: Request, f: Flow, i: nat, j: nat, d: Decision)
    requires i < |f.steps| && j < |r.steps| && f.steps[i].order == r.currentStep && r.status == Pending
    ensures var (r', entry) := Record(r, f, i, j, d);
            var (done, passed) := EvaluateStep(f.steps[i], r.steps[j].decisions + [d]);
            && entry.stepID == f.steps[i].id
            && (r'.status == Rejected <==> done && !passed)
            && (r'.currentStep == r.currentStep <==> !(done && passed))
            && (r'.status == Approved <==> done && passed && r.currentStep >= LastOrder(f))
  {
  }

  /** The live flow decides, and the next decision on a request is unaffected by an update
      exactly when the new flow treats the request's turn as the old one did. */
  lemma NextDecisionUnnoticedIff(r: Request, f: Flow, g: Flow)
    ensures (forall d :: SameOutcome(r, f, g, d)) <==> SameTurn(r, f, g)
  {
    if SameTurn(r, f, g) {
      forall d ensures SameOutcome(r, f, g, d) {
        AcceptedIffEntitled(r, f, d);
        AcceptedIffEntitled(r, g, d);
        if Decide(r, f, d).Ok? { RecordDependsOnTurn(r, f, g, d); }
      }
    }
    if forall d :: SameOutcome(r, f, g, d) {
      forall u ensures Entitled(r, f, u) <==> Entitled(r, g, u) { SameEntitlement(r, f, g, u); }
      forall u, approve | Entitled(r, f, u)
        ensures f.steps[FindStep(f.steps, r.currentStep)].id == g.steps[FindStep(g.steps, r.currentStep)].id
        ensures Verdict(r, f, approve) == Verdict(r, g, approve)
        ensures Verdict(r, f, approve) == (true, true) ==>
                  (r.currentStep >= LastOrder(f) <==> r.currentStep >= LastOrder(g))
      {
        var d := Decision(u, approve, "", r.expireAt);
        SameEntitlement(r, f, g, u);
        assert SameOutcome(r, f, g, d);
        RecordDependsOnTurn(r, f, g, d);
      }
      if u :| Entitled(r, f, u) {
        assert forall approve :: Verdict(r, f, approve) == Verdict(r, g, approve);
      }
    }
  }

  lemma SameEntitlement(r: Request, f: Flow, g: Flow, u: string)
    requires forall d :: SameOutcome(r, f, g, d)
    ensures Entitled(r, f, u) <==> Entitled(r, g, u)
  {
    var d := Decision(u, true, "", r.expireAt);
    assert SameOutcome(r, f, g, d);
    AcceptedIffEntitled(r, f, d);
    AcceptedIffEntitled(r, g, d);
  }

  function OneStepFlow(mode: StepMode, approvers: seq<string>): Flow {
    Flow("f", "flow", "t", "shell", [FlowStep("s", "step", 1, mode, approvers, 0)], true, 1, 1)
  }

  /** A run in which a request submitted for the signatures of a and b is approved by c alone,
      because the flow was replaced in between. */
  lemma UpdateOverridesSnapshot(e: Eng)
    requires e.flows == map["f" := OneStepFlow(Countersign, ["a", "b"])] && e.requests == map[]
    ensures var r := Request("r", "f", "t", "shell", "o", "", "", "", Pending, 0, [], ZERO, ZERO, ZERO);
            var e1 := Step(e, Submit(r), 1).0;
            var e2 := Step(e1, UpdateFlow(OneStepFlow(AnyOf, ["c"])), 2).0;
            var e3 := Step(e2, Take("r", "c", true, ""), 3).0;
            "r" in e3.requests && e3.requests["r"].status == Approved
  {
    var f, g := OneStepFlow(Countersign, ["a", "b"]), OneStepFlow(AnyOf, ["c"]);
    var r := Request("r", "f", "t", "shell", "o", "", "", "", Pending, 0, [], ZERO, ZERO, ZERO);
    var e1 := Step(e, Submit(r), 1).0;
    assert e1.requests["r"] == Submitted(r, f, 1);
    var e2 := Step(e1, UpdateFlow(g), 2).0;
    assert e2.flows["f"].steps == g.steps && e2.requests == e1.requests;
    var s := e2.requests["r"];
    assert s.steps[0].order == 1;
    assert FindStep(g.steps, 1) == 0 && FindRequestStep(s.steps, 1) == 0;
    var d := Decision("c", true, "", 3);
    assert ValidateDecision(s, e2.flows["f"], "c", 3) == Ok((0, 0));
    assert EvaluateStep(g.steps[0], [] + [d]) == (true, true);
  }

  // ------------------------------------------------ one enabled flow per trigger

  /** At most one enabled flow for each tenant and trigger type. */
  ghost predicate OneEnabledFlow(e: Eng) {
    forall a, b | a in e.flows && b in e.flows && e.flows[a].enabled && e.flows[b].enabled
                  && e.flows[a].tenantID == e.flows[b].tenantID
                  && e.flows[a].triggerType == e.flows[b].triggerType :: a == b
  }

  /** The operation succeeds in storing an enabled flow although another one is enabled for
      the same tenant and trigger. */
  ghost predicate Clashes(e: Eng, op: Op, now: Time) {
    && (op.CreateFlow? || op.UpdateFlow?) && Step(e, op, now).1.Ok? && op.flow.enabled
    && exists a :: a in e.flows && a != op.flow.id && e.flows[a].enabled
                   && e.flows[a].tenantID == op.flow.tenantID && e.flows[a].triggerType == op.flow.triggerType
  }

  /** The engine is said to maintain this. An operation keeps it exactly when the caller has
      made sure that it does not enable a second flow. */
  lemma StepKeepsOneEnabledIff(e: Eng, op: Op, now: Time)
    requires FlowsValid(e) && OneEnabledFlow(e)
    ensures OneEnabledFlow(Step(e, op, now).0) <==> !Clashes(e, op, now)
  {
    var e' := Step(e, op, now).0;
    if Clashes(e, op, now) {
      var a :| a in e.flows && a != op.flow.id && e.flows[a].enabled
               && e.flows[a].tenantID == op.flow.tenantID && e.flows[a].triggerType == op.flow.triggerType;
      assert a in e'.flows && op.flow.id in e'.flows;
    } else {
      forall a, b | a in e'.flows && b in e'.flows && e'.flows[a].enabled && e'.flows[b].enabled
                    && e'.flows[a].tenantID == e'.flows[b].tenantID
                    && e'.flows[a].triggerType == e'.flows[b].triggerType
        ensures a == b
      {
        NoSecond(e, op, now, a, b);
        NoSecond(e, op, now, b, a);
      }
    }
  }

  lemma NoSecond(e: Eng, op: Op, now: Time, a: string, b: string)
    requires FlowsValid(e) && OneEnabledFlow(e) && !Clashes(e, op, now)
    requires var flows := Step(e, op, now).0.flows;
             && a in flows && b in flows && flows[a].enabled && flows[b].enabled
             && flows[a].tenantID == flows[b].tenantID && flows[a].triggerType == flows[b].triggerType
    ensures (op.CreateFlow? || op.UpdateFlow?) && Step(e, op, now).1.Ok? && a == op.flow.id ==> b == a
    ensures !((op.CreateFlow? || op.UpdateFlow?) && Step(e, op, now).1.Ok?) ==> a == b
  {
  }

  /** Over whole runs: there is never a second enabled flow exactly when no call enables one. */
  lemma AlwaysOneEnabledIff(calls: seq<Call>, states: seq<Eng>)
    requires IsRun(calls, states)
    ensures (forall n | 0 <= n <= |calls| :: OneEnabledFlow(states[n])) <==>
            (forall n | 0 <= n < |calls| :: !Clashes(states[n], calls[n].op, calls[n].now))
  {
    if forall n | 0 <= n <= |calls| :: OneEnabledFlow(states[n]) {
      forall n | 0 <= n < |calls| ensures !Clashes(states[n], calls[n].op, calls[n].now) {
        assert Moves(calls, states, n);
        RunFlowsValid(calls, states, n);
        StepKeepsOneEnabledIff(states[n], calls[n].op, calls[n].now);
        assert OneEnabledFlow(states[n+1]);
      }
    }
    if forall n | 0 <= n < |calls| :: !Clashes(states[n], calls[n].op, calls[n].now) {
      forall n | 0 <= n <= |calls| ensures OneEnabledFlow(states[n]) { NoClashSoFar(calls, states, n); }
    }
  }

  lemma {:induction false} NoClashSoFar(calls: seq<Call>, states: seq<Eng>, n: nat)
    requires IsRun(calls, states) && n <= |calls|
    requires forall k | 0 <= k < n :: !Clashes(states[k], calls[k].op, calls[k].now)
    ensures OneEnabledFlow(states[n])
  {
    if n > 0 {
      NoClashSoFar(calls, states, n - 1);
      assert Moves(calls, states, n - 1);
      RunFlowsValid(calls, states, n - 1);
      StepKeepsOneEnabledIff(states[n-1], calls[n-1].op, calls[n-1].now);
    }
  }
}
