/** What the engine answers when it refuses, and from when on the time of a step runs. */
module ApprovalAnswers {
  import opened Basics
  import opened ApprovalModel
  import opened ApprovalEngine
  import opened ApprovalSafety
  import opened ApprovalHistory

  // --------------------------------------------------------------- refusals

  predicate NamesMissingRequest(e: Eng, op: Op) {
    match op
    case Take(id, _, _, _) => id !in e.requests
    case Cancel(id, _) => id !in e.requests
    case CheckTimeout(id) => id !in e.requests
    case _ => false
  }

  ghost predicate NamesMissingFlow(e: Eng, op: Op, now: Time) {
    match op
    case CreateFlow(_) => false
    case UpdateFlow(f) => ValidFlow(f) && f.id !in e.flows
    case DeleteFlow(id) => id !in e.flows
    case Submit(r) => ValidRequest(r) && r.id !in e.requests && r.flowID !in e.flows
    case Take(id, _, _, _) => id in e.requests && e.requests[id].status == Pending && e.requests[id].flowID !in e.flows
    case Cancel(_, _) => false
    case CheckTimeout(id) =>
      && id in e.requests && e.requests[id].status == Pending && !PastDeadline(e.requests[id], now)
      && e.requests[id].flowID !in e.flows
  }

  /** Each answer has one meaning, and an operation that is refused changes nothing. */
  lemma RefusedBecause(e: Eng, op: Op, now: Time)
    ensures var (e', res) := Step(e, op, now);
            && (res.Err? ==> e' == e)
            && (res == Err(RequestNotFound) <==> NamesMissingRequest(e, op))
            && (res == Err(FlowNotFound) <==> NamesMissingFlow(e, op, now))
            && (res == Err(FlowInvalid) <==>
                  (op.CreateFlow? || op.UpdateFlow?) && !ValidFlow(op.flow))
            && (res == Err(FlowExists) <==> op.CreateFlow? && ValidFlow(op.flow) && op.flow.id in e.flows)
            && (res == Err(RequestInvalid) <==> op.Submit? && !ValidRequest(op.request))
            && (res == Err(RequestExists) <==> op.Submit? && ValidRequest(op.request) && op.request.id in e.requests)
            && (res == Err(FlowDisabled) <==>
                  && op.Submit? && ValidRequest(op.request) && op.request.id !in e.requests
                  && op.request.flowID in e.flows && !e.flows[op.request.flowID].enabled)
            && (res == Err(InvalidTransition) <==>
                  op.Cancel? && op.requestID in e.requests && e.requests[op.requestID].status != Pending)
            && (res == Err(NotPending) <==>
                  op.Take? && op.requestID in e.requests && e.requests[op.requestID].status != Pending)
  {
    if op.Take? && op.requestID in e.requests && e.requests[op.requestID].flowID in e.flows {
      var r := e.requests[op.requestID];
      DecisionRefused(r, e.flows[r.flowID], Decision(op.user, op.approve, op.comment, now));
    }
  }

  /** A poll answers true exactly if it has ended the request; every other operation that is
      accepted answers true. */
  lemma PollAnswersIff(e: Eng, op: Op, now: Time)
    requires Step(e, op, now).1.Ok?
    ensures var (e', res) := Step(e, op, now);
            && (!op.CheckTimeout? ==> res.value)
            && (op.CheckTimeout? ==>
                  && (res.value <==> e.requests[op.requestID].status == Pending && e'.requests[op.requestID].status != Pending)
                  && (!res.value ==> e' == e))
  {
  }

  /** The request waits for a step that both it and the flow have. */
  ghost predicate StepActive(r: Request, f: Flow) {
    && (exists i :: 0 <= i < |f.steps| && f.steps[i].order == r.currentStep)
    && (exists j :: 0 <= j < |r.steps| && r.steps[j].order == r.currentStep)
  }

  /** The first step of the flow with the current order, and the decisions taken on it. */
  ghost predicate AtStep(r: Request, f: Flow, step: FlowStep, ds: seq<Decision>) {
    exists i, j :: 0 <= i < |f.steps| && 0 <= j < |r.steps| && step == f.steps[i] && ds == r.steps[j].decisions
      && f.steps[i].order == r.currentStep == r.steps[j].order
      && (forall k | 0 <= k < i :: f.steps[k].order != r.currentStep)
      && (forall k | 0 <= k < j :: r.steps[k].order != r.currentStep)
  }

  /** The approvers at and behind the place that is next. */
  ghost predicate TurnPassed(step: FlowStep, ds: seq<Decision>, user: string) {
    step.mode == Sequential && |ds| < |step.approvers|
    && step.approvers[|ds|] != "" && step.approvers[|ds|] != user
  }

  /** Why a decision is refused: the request is closed, it has expired, there is no step to
      decide, the user is no approver, has decided before, or is not next in line; in this
      order. */
  lemma DecisionRefused(r: Request, f: Flow, d: Decision)
    ensures var res, open := Decide(r, f, d), r.status == Pending && !PastDeadline(r, d.timestamp);
            && (res.Err? ==> res.error in {NotPending, RequestExpired, StepNotActive, NotApprover, StepAlreadyDecided, OutOfOrder})
            && (res == Err(NotPending) <==> r.status != Pending)
            && (res == Err(RequestExpired) <==> PastDeadline(r, d.timestamp))
            && (res == Err(StepNotActive) <==> open && !StepActive(r, f))
            && (forall step, ds | open && AtStep(r, f, step, ds) ::
                  && (res == Err(NotApprover) <==> d.userID !in step.approvers)
                  && (res == Err(StepAlreadyDecided) <==> d.userID in step.approvers && d.userID in Deciders(ds))
                  && (res == Err(OutOfOrder) <==>
                        d.userID in step.approvers && d.userID !in Deciders(ds) && TurnPassed(step, ds, d.userID)))
  {
    var i, j := FindStep(f.steps, r.currentStep), FindRequestStep(r.steps, r.currentStep);
    forall step, ds | AtStep(r, f, step, ds)
      ensures i < |f.steps| && j < |r.steps| && step == f.steps[i] && ds == r.steps[j].decisions
    {
    }
    forall ds: seq<Decision> ensures HasDecided(ds, d.userID) <==> d.userID in Deciders(ds) {
      DecidersAre(ds, d.userID);
    }
  }

  lemma DecidersAre(ds: seq<Decision>, user: string)
    ensures HasDecided(ds, user) <==> user in Deciders(ds)
  {
    if HasDecided(ds, user) {
      var i :| 0 <= i < |ds| && ds[i].userID == user;
      assert Deciders(ds)[i] == user;
    }
  }

  // -------------------------------------------------------------- snapshots

  /** What a submission stores for each step of the flow, and its first history entry. */
  lemma SubmitStores(e: Eng, r: Request, now: Time)
    requires Step(e, Submit(r), now).1.Ok?
    ensures var e', f := Step(e, Submit(r), now).0, e.flows[r.flowID];
            && e'.histories == e.histories[r.id := [Entry(now, SubmitAction, r.operator, "", "submit approval request")]]
            && |e'.requests[r.id].steps| == |f.steps|
            && forall k | 0 <= k < |f.steps| ::
                 var s := e'.requests[r.id].steps[k];
                 && s.stepID == f.steps[k].id && s.order == f.steps[k].order && s.status == Pending && s.decisions == []
                 && s.startedAt == (if f.steps[k].order == 1 then now else ZERO)
  {
  }

  // ----------------------------------------------------------------- clocks

  /** A decision starts the clock of the step the request goes on to, and no other. */
  lemma ClockStarts(r: Request, f: Flow, d: Decision)
    requires Decide(r, f, d).Ok?
    ensures var r' := Decide(r, f, d).value.0;
            && |r'.steps| == |r.steps|
            && forall i | 0 <= i < |r.steps| ::
                 && r'.steps[i].order == r.steps[i].order
                 && r'.steps[i].startedAt ==
                      if r'.status == Pending && r'.currentStep != r.currentStep
                         && i == FindRequestStep(r.steps, r'.currentStep)
                      then d.timestamp else r.steps[i].startedAt
  {
    var i, j := FindStep(f.steps, r.currentStep), FindRequestStep(r.steps, r.currentStep);
    forall k | 0 <= k < |r.steps|
      ensures k < |Decide(r, f, d).value.0.steps|
      ensures var r' := Decide(r, f, d).value.0;
              && r'.steps[k].order == r.steps[k].order
              && r'.steps[k].startedAt ==
                   if r'.status == Pending && r'.currentStep != r.currentStep
                      && k == FindRequestStep(r.steps, r'.currentStep)
                   then d.timestamp else r.steps[k].startedAt
    {
      RecordClock(r, f, i, j, d, k);
    }
  }

  /** The steps once step `j` has been decided, before another one starts. */
  function Closed(steps: seq<RequestStep>, j: nat, d: Decision, status: Status): (t: seq<RequestStep>)
    requires j < |steps|
    ensures |t| == |steps|
    ensures forall k | 0 <= k < |t| :: t[k].order == steps[k].order && t[k].startedAt == steps[k].startedAt
  {
    steps[j := steps[j].(decisions := steps[j].decisions + [d], status := status)]
  }

  lemma RecordClock(r: Request, f: Flow, i: nat, j: nat, d: Decision, k: nat)
    requires i < |f.steps| && j < |r.steps| && k < |r.steps| && r.status == Pending
    requires f.steps[i].order == r.currentStep
    ensures |Record(r, f, i, j, d).0.steps| == |r.steps|
    ensures var r' := Record(r, f, i, j, d).0;
            && r'.steps[k].order == r.steps[k].order
            && r'.steps[k].startedAt ==
                 if r'.status == Pending && r'.currentStep != r.currentStep
                    && k == FindRequestStep(r.steps, r'.currentStep)
                 then d.timestamp else r.steps[k].startedAt
  {
    var t := Closed(r.steps, j, d, Approved);
    SameOrdersSamePlace(r.steps, t, r.currentStep + 1);
    assert StartStep(t, r.currentStep + 1, d.timestamp)[k].order == t[k].order;
  }

  lemma SameOrdersSamePlace(a: seq<RequestStep>, b: seq<RequestStep>, order: int)
    requires |a| == |b| && forall i | 0 <= i < |a| :: a[i].order == b[i].order
    ensures FindRequestStep(a, order) == FindRequestStep(b, order)
  {
  }

  /** The clock of the current step, if the request has such a step. */
  function Clock(r: Request): Option<Time> {
    var j := FindRequestStep(r.steps, r.currentStep);
    if j < |r.steps| then Some(r.steps[j].startedAt) else None
  }

  lemma StepClock(e: Eng, op: Op, now: Time, id: string)
    requires id in e.requests
    ensures var r, r' := e.requests[id], Step(e, op, now).0.requests[id];
            r'.status == Pending ==>
              r.status == Pending && Clock(r') == if r'.currentStep == r.currentStep then Clock(r)
                                                  else if Clock(r').Some? then Some(now) else None
  {
    var e' := Step(e, op, now).0;
    if op.Take? && op.requestID == id && Step(e, op, now).1.Ok? {
      var r, r', d := e.requests[id], e'.requests[id], Decision(op.user, op.approve, op.comment, now);
      ClockStarts(r, e.flows[r.flowID], d);
      SameOrdersSamePlace(r.steps, r'.steps, r'.currentStep);
    } else if !op.Take? || op.requestID != id {
      StatusOrSame(e, op, now, id);
    }
  }

  lemma StatusOrSame(e: Eng, op: Op, now: Time, id: string)
    requires id in e.requests && !(op.Take? && op.requestID == id)
    ensures id in Step(e, op, now).0.requests
    ensures Step(e, op, now).0.requests[id].status == Pending ==> Step(e, op, now).0.requests[id] == e.requests[id]
  {
  }

  /** In every run, flow changes included, the clock of a pending request's current step shows
      when that step became the current one: at the submission, or by the decision before. */
  lemma {:induction false} ClockTells(calls: seq<Call>, states: seq<Eng>, n: nat, id: string) returns (k: nat)
    requires IsRun(calls, states) && n <= |calls| && id in states[n].requests
    requires states[n].requests[id].status == Pending
    ensures k < n && (id !in states[k].requests || states[k].requests[id].currentStep != states[n].requests[id].currentStep)
    ensures forall i | k < i <= n ::
              id in states[i].requests && states[i].requests[id].currentStep == states[n].requests[id].currentStep
    ensures Clock(states[n].requests[id]).Some? ==> Clock(states[n].requests[id]) == Some(calls[k].now)
  {
    assert n > 0;
    assert Moves(calls, states, n - 1);
    var e, op, now := states[n-1], calls[n-1].op, calls[n-1].now;
    if id !in e.requests {
      k := n - 1;
      assert op.Submit? && op.request.id == id;
      SubmitStores(e, op.request, now);
    } else {
      StepClock(e, op, now, id);
      if states[n].requests[id].currentStep == e.requests[id].currentStep {
        k := ClockTells(calls, states, n - 1, id);
      } else {
        k := n - 1;
      }
    }
  }

  /** So a poll before the deadline rejects a request exactly if it has waited at its current
      step for longer than the step's timeout. */
  lemma PollRejectsIff(calls: seq<Call>, states: seq<Eng>, n: nat, id: string, now: Time) returns (k: nat)
    requires IsRun(calls, states) && n <= |calls| && id in states[n].requests
    requires var r := states[n].requests[id]; r.status == Pending && !PastDeadline(r, now)
    ensures k < n && (id !in states[k].requests || states[k].requests[id].currentStep != states[n].requests[id].currentStep)
    ensures forall i | k < i <= n ::
              id in states[i].requests && states[i].requests[id].currentStep == states[n].requests[id].currentStep
    ensures var r, flows := states[n].requests[id], states[n].flows;
            Step(states[n], CheckTimeout(id), now).0.requests[id].status == Rejected <==>
              && r.flowID in flows && StepActive(r, flows[r.flowID]) && calls[k].now != ZERO
              && var timeout := flows[r.flowID].steps[FindStep(flows[r.flowID].steps, r.currentStep)].timeout;
                 0 < timeout < now - calls[k].now
  {
    k := ClockTells(calls, states, n, id);
    EndsByIff(states[n], CheckTimeout(id), now, id);
  }
}
