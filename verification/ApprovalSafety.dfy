/** What holds of a request over every run of the engine that leaves its flow alone, and
    what holds whatever is done. */
module ApprovalSafety {
  import opened Basics
  import opened ApprovalModel
  import opened ApprovalEngine

  /** The documented meaning of an approved step. */
  ghost predicate ModeSatisfied(step: FlowStep, ds: seq<Decision>) {
    && (forall i | 0 <= i < |ds| :: ds[i].approve)
    && match step.mode
       case Sequential => Deciders(ds) == step.approvers
       case Countersign =>
         Distinct(Deciders(ds)) && |ds| == |step.approvers|
         && forall u :: u in Deciders(ds) <==> u in step.approvers
       case AnyOf => |ds| == 1 && ds[0].userID in step.approvers
       case OtherMode(_) => false
  }

  /** The decisions of a step that is still open. */
  ghost predicate SoFar(step: FlowStep, ds: seq<Decision>) {
    && EvaluateStep(step, ds) == (false, false)
    && (forall i | 0 <= i < |ds| :: ds[i].approve)
    && Eligible(step, ds)
  }

  /** Every decider is an approver, nobody decides twice, and in sequential mode each named
      approver is in place. */
  ghost predicate Eligible(step: FlowStep, ds: seq<Decision>) {
    && Distinct(Deciders(ds))
    && (forall i | 0 <= i < |ds| :: ds[i].userID in step.approvers)
    && (step.mode == Sequential ==>
          forall i | 0 <= i < |ds| && i < |step.approvers| ::
            step.approvers[i] == "" || ds[i].userID == step.approvers[i])
  }

  // ------------------------------------------------------------- pigeonhole

  function Elements(q: seq<string>): set<string> {
    set x | x in q
  }

  lemma {:induction false} DistinctCount(q: seq<string>)
    ensures |Elements(q)| <= |q|
    ensures Distinct(q) <==> |Elements(q)| == |q|
  {
    if q != [] {
      var init, last := q[..|q|-1], q[|q|-1];
      assert q == init + [last];
      DistinctCount(init);
      assert Elements(q) == Elements(init) + {last};
      if last in init {
        assert Elements(q) == Elements(init);
        var i :| 0 <= i < |init| && init[i] == last;
        assert q[i] == q[|q|-1];
      } else if Distinct(init) {
        assert Distinct(q);
      } else {
        var i, j :| 0 <= i < j < |init| && init[i] == init[j];
        assert q[i] == q[j];
      }
    }
  }

  /** As many distinct users as there are places, all of them taken from the list: then the
      list has no repetition and everyone on it is there. */
  lemma Pigeonhole(users: seq<string>, approvers: seq<string>)
    requires Distinct(users) && |users| >= |approvers|
    requires forall u | u in users :: u in approvers
    ensures |users| == |approvers| && Distinct(approvers)
    ensures forall u :: u in users <==> u in approvers
  {
    DistinctCount(users);
    DistinctCount(approvers);
    SubsetOfSameSize(Elements(users), Elements(approvers));
    forall u ensures u in users <==> u in approvers {
      assert u in users <==> u in Elements(users);
      assert u in approvers <==> u in Elements(approvers);
    }
  }

  lemma SubsetOfSameSize(a: set<string>, b: set<string>)
    requires a <= b && |a| >= |b|
    ensures a == b
  {
    var rest := b - a;
    assert b == a + rest;
    assert |b| == |a| + |rest|;
  }

  /** An accepted approval that completes a step satisfies the mode of that step -- even
      when an approver list holds an empty name, which switches the turn check off. */
  lemma CompletedStepSatisfiesMode(step: FlowStep, ds: seq<Decision>)
    requires EvaluateStep(step, ds) == (true, true) && Eligible(step, ds)
    requires step.mode == AnyOf ==> |ds| == 1
    ensures ModeSatisfied(step, ds)
    ensures step.mode != AnyOf ==> Distinct(step.approvers)
  {
    if step.mode != AnyOf {
      var users := Deciders(ds);
      assert forall u | u in users :: u in step.approvers;
      Pigeonhole(users, step.approvers);
      if step.mode == Sequential {
        forall i | 0 <= i < |users| ensures users[i] == step.approvers[i] {
          OwnPlace(users, step.approvers, i);
        }
      }
    }
  }

  lemma OwnPlace(users: seq<string>, approvers: seq<string>, i: nat)
    requires |users| == |approvers| && i < |users|
    requires Distinct(users) && Distinct(approvers)
    requires forall u | u in users :: u in approvers
    requires forall k | 0 <= k < |users| :: approvers[k] == "" || users[k] == approvers[k]
    ensures users[i] == approvers[i]
  {
    assert users[i] in users;
    var k :| 0 <= k < |approvers| && approvers[k] == users[i];
  }

  // ------------------------------------------------------ request invariant

  /** The first `n` orders are 1..n. */
  ghost predicate ContiguousTo(f: Flow, n: int) {
    n <= |f.steps| && forall i | 0 <= i < n :: f.steps[i].order == i + 1
  }

  ghost predicate Contiguous(f: Flow) {
    ContiguousTo(f, |f.steps|)
  }

  ghost predicate Aligned(r: Request, f: Flow) {
    && |r.steps| == |f.steps|
    && forall i | 0 <= i < |f.steps| :: r.steps[i].order == f.steps[i].order && r.steps[i].stepID == f.steps[i].id
  }

  /** How many steps have been passed. */
  function Passed(r: Request): int {
    r.currentStep - 1
  }

  /** The flow has a step whose turn it is. */
  ghost predicate Active(r: Request, f: Flow) {
    0 <= Passed(r) < |f.steps| && f.steps[Passed(r)].order == r.currentStep
  }

  ghost predicate StepsPassed(r: Request, f: Flow)
    requires Aligned(r, f) && 0 <= Passed(r) <= |f.steps|
  {
    forall i | 0 <= i < Passed(r) ::
      r.steps[i].status == Approved && ModeSatisfied(f.steps[i], r.steps[i].decisions)
      && (f.steps[i].mode != AnyOf ==> Distinct(f.steps[i].approvers))
  }

  ghost predicate StepsUntouched(r: Request, f: Flow)
    requires Aligned(r, f) && 0 <= Passed(r) <= |f.steps|
  {
    forall i | Passed(r) <= i < |f.steps| && !(i == Passed(r) && Active(r, f)) ::
      r.steps[i].status == Pending && r.steps[i].decisions == []
  }

  /** The request invariant: passed steps satisfy their modes, the current one is open, the
      later ones are untouched. */
  ghost predicate Good(r: Request, f: Flow) {
    && ValidFlow(f) && Aligned(r, f) && 0 <= Passed(r) <= |f.steps|
    && ContiguousTo(f, Passed(r)) && StepsPassed(r, f) && StepsUntouched(r, f)
    && match r.status
       case Approved => Passed(r) == |f.steps|
       case Rejected =>
         Active(r, f) && r.steps[Passed(r)].status == Rejected
         && Eligible(f.steps[Passed(r)], r.steps[Passed(r)].decisions)
       case OtherStatus(_) => false
       case _ =>
         Passed(r) < |f.steps| &&
         (Active(r, f) ==> r.steps[Passed(r)].status == Pending
                           && SoFar(f.steps[Passed(r)], r.steps[Passed(r)].decisions))
  }

  lemma SubmittedIsGood(r: Request, f: Flow, now: Time)
    requires ValidFlow(f)
    ensures Good(Submitted(r, f, now), f)
  {
    var s := Submitted(r, f, now);
    assert Passed(s) == 0;
    if Active(s, f) {
      assert Deciders([]) == [];
    }
  }

  /** Both lookups of the current step find the active one, and only that. */
  lemma FindCurrent(r: Request, f: Flow)
    requires Good(r, f)
    ensures if Active(r, f)
            then FindStep(f.steps, r.currentStep) == FindRequestStep(r.steps, r.currentStep) == Passed(r)
            else FindStep(f.steps, r.currentStep) == |f.steps|
  {
    var i := FindStep(f.steps, r.currentStep);
    if i < |f.steps| {
      CurrentPosition(r, f, i);
    }
    var j := FindRequestStep(r.steps, r.currentStep);
    if j < |r.steps| {
      assert f.steps[j].order == r.currentStep;
      CurrentPosition(r, f, j);
    }
    if Active(r, f) {
      assert r.steps[Passed(r)].order == r.currentStep;
    }
  }

  lemma CurrentPosition(r: Request, f: Flow, i: nat)
    requires Good(r, f) && i < |f.steps| && f.steps[i].order == r.currentStep
    ensures i == Passed(r) && Active(r, f)
  {
    var c := Passed(r);
    assert i >= c;
    if i > c {
      OrdersGrow(f, c, i);
    }
  }

  lemma OrdersGrow(f: Flow, i: nat, j: nat)
    requires ValidFlow(f) && i <= j < |f.steps|
    ensures f.steps[j].order >= f.steps[i].order + (j - i) && f.steps[i].order >= i + 1
    decreases j
  {
    if j > i {
      OrdersGrow(f, i, j - 1);
    } else if i > 0 {
      OrdersGrow(f, i - 1, i - 1);
      assert f.steps[i-1].order < f.steps[i].order;
    }
  }

  /** A validated decision is by an eligible user of the active step. */
  lemma AcceptedDecision(r: Request, f: Flow, d: Decision)
    requires Good(r, f) && ValidateDecision(r, f, d.userID, d.timestamp).Ok?
    ensures r.status == Pending && Active(r, f)
    ensures ValidateDecision(r, f, d.userID, d.timestamp).value == (Passed(r), Passed(r))
    ensures Eligible(f.steps[Passed(r)], r.steps[Passed(r)].decisions + [d])
  {
    FindCurrent(r, f);
    var step, ds := f.steps[Passed(r)], r.steps[Passed(r)].decisions;
    var more := ds + [d];
    assert Deciders(more) == Deciders(ds) + [d.userID];
    assert forall i | 0 <= i < |ds| :: Deciders(ds)[i] == ds[i].userID;
    if step.mode == Sequential && |ds| < |step.approvers| {
      assert NextSequentialApprover(step, ds) == step.approvers[|ds|];
    }
  }

  /** The evaluation after one more decision on an open step. */
  lemma EvaluateOneMore(step: FlowStep, ds: seq<Decision>, d: Decision)
    requires SoFar(step, ds) && !step.mode.OtherMode?
    ensures var more := ds + [d];
            && (step.mode == AnyOf ==> ds == [])
            && (!d.approve ==> EvaluateStep(step, more) == (true, false))
            && (d.approve ==> EvaluateStep(step, more) == (step.mode == AnyOf || |more| >= |step.approvers|,
                                                           step.mode == AnyOf || |more| >= |step.approvers|))
  {
    var more := ds + [d];
    assert more[|ds|] == d;
    assert forall i | 0 <= i < |ds| :: more[i] == ds[i];
  }

  /** `r'` is `r` with decision `d` recorded on step `c`. */
  ghost predicate Recorded(r: Request, r': Request, f: Flow, c: nat, d: Decision) {
    && c < |f.steps| && c < |r.steps| == |r'.steps|
    && (forall i | 0 <= i < |r.steps| && i != c :: r'.steps[i].(startedAt := r.steps[i].startedAt) == r.steps[i])
    && r'.flowID == r.flowID
    && r'.steps[c].order == r.steps[c].order && r'.steps[c].stepID == r.steps[c].stepID
    && r'.steps[c].decisions == r.steps[c].decisions + [d]
    && var (done, passed) := EvaluateStep(f.steps[c], r.steps[c].decisions + [d]);
       if !done then
         r'.status == r.status && r'.currentStep == r.currentStep && r'.steps[c].status == r.steps[c].status
       else if !passed then
         r'.status == Rejected && r'.currentStep == r.currentStep && r'.steps[c].status == Rejected
       else
         && r'.status == (if f.steps[c].order >= LastOrder(f) then Approved else r.status)
         && r'.currentStep == f.steps[c].order + 1 && r'.steps[c].status == Approved
  }

  lemma RecordRecords(r: Request, f: Flow, c: nat, d: Decision)
    requires c < |f.steps| && c < |r.steps|
    ensures Recorded(r, Record(r, f, c, c, d).0, f, c, d)
  {
  }

  lemma StillOpenIsGood(r: Request, r': Request, f: Flow, c: nat, d: Decision)
    requires Good(r, f) && r.status == Pending && Active(r, f) && c == Passed(r) && Recorded(r, r', f, c, d)
    requires EvaluateStep(f.steps[c], r.steps[c].decisions + [d]) == (false, false)
    requires Eligible(f.steps[c], r.steps[c].decisions + [d])
    ensures Good(r', f)
  {
    AllApprove(f.steps[c], r.steps[c].decisions + [d]);
    assert Active(r', f);
  }

  lemma RejectedIsGood(r: Request, r': Request, f: Flow, c: nat, d: Decision)
    requires Good(r, f) && r.status == Pending && Active(r, f) && c == Passed(r) && Recorded(r, r', f, c, d)
    requires EvaluateStep(f.steps[c], r.steps[c].decisions + [d]) == (true, false)
    requires Eligible(f.steps[c], r.steps[c].decisions + [d])
    ensures Good(r', f)
  {
    assert Active(r', f);
  }

  lemma AdvancedIsGood(r: Request, r': Request, f: Flow, c: nat, d: Decision)
    requires Good(r, f) && r.status == Pending && Active(r, f) && c == Passed(r) && Recorded(r, r', f, c, d)
    requires EvaluateStep(f.steps[c], r.steps[c].decisions + [d]) == (true, true)
    requires Eligible(f.steps[c], r.steps[c].decisions + [d])
    ensures Good(r', f)
  {
    var step, ds := f.steps[c], r.steps[c].decisions;
    EvaluateOneMore(step, ds, d);
    CompletedStepSatisfiesMode(step, ds + [d]);
    LastOrderIsLast(f, c);
    assert Passed(r') == c + 1;
    assert StepsPassed(r', f);
    assert StepsUntouched(r', f);
    if c + 1 < |f.steps| {
      assert r'.steps[c+1].status == Pending && r'.steps[c+1].decisions == [];
      NothingDecidedIsOpen(f.steps[c+1]);
    }
  }

  /** One accepted decision keeps the request invariant. */
  lemma DecisionKeepsGood(r: Request, f: Flow, d: Decision)
    requires Good(r, f) && Decide(r, f, d).Ok?
    ensures Good(Decide(r, f, d).value.0, f) && Decide(r, f, d).value.0.flowID == r.flowID
  {
    AcceptedDecision(r, f, d);
    var c := Passed(r);
    RecordRecords(r, f, c, d);
    EvaluateOneMore(f.steps[c], r.steps[c].decisions, d);
    var r' := Decide(r, f, d).value.0;
    var verdict := EvaluateStep(f.steps[c], r.steps[c].decisions + [d]);
    if verdict == (false, false) { StillOpenIsGood(r, r', f, c, d); }
    else if verdict == (true, false) { RejectedIsGood(r, r', f, c, d); }
    else { AdvancedIsGood(r, r', f, c, d); }
  }

  lemma LastOrderIsLast(f: Flow, c: nat)
    requires ValidFlow(f) && c < |f.steps|
    ensures f.steps[c].order >= LastOrder(f) <==> c + 1 == |f.steps|
  {
    OrdersGrow(f, c, |f.steps| - 1);
  }

  lemma NothingDecidedIsOpen(step: FlowStep)
    requires step.approvers != [] && !step.mode.OtherMode?
    ensures SoFar(step, [])
  {
  }

  lemma AllApprove(step: FlowStep, ds: seq<Decision>)
    requires EvaluateStep(step, ds) == (false, false) && !step.mode.OtherMode?
    ensures forall i | 0 <= i < |ds| :: ds[i].approve
  {
  }

  /** Cancelling or timing out an open request keeps the invariant as well. */
  lemma ClosingKeepsGood(r: Request, f: Flow, s: Status, now: Time)
    requires Good(r, f) && r.status == Pending && (s == Cancelled || s == TimedOut)
    ensures Good(r.(status := s, updatedAt := now), f)
  {
    assert Active(r.(status := s, updatedAt := now), f) <==> Active(r, f);
  }

  lemma StepTimeoutKeepsGood(r: Request, f: Flow, now: Time)
    requires Good(r, f) && r.status == Pending && TimedOutStep(r, f, now).0
    ensures Good(RejectStep(r, TimedOutStep(r, f, now).2, now), f)
  {
    FindCurrent(r, f);
    var r' := RejectStep(r, TimedOutStep(r, f, now).2, now);
    assert Active(r', f) <==> Active(r, f);
  }

  // ------------------------------------------------------------ the engine

  ghost predicate FlowsValid(e: Eng) {
    forall id | id in e.flows :: e.flows[id].id == id && ValidFlow(e.flows[id])
  }

  /** Request `id` runs on flow `f`, which is the engine's live flow, and is in order. */
  ghost predicate Tracked(e: Eng, id: string, f: Flow) {
    && id in e.requests && e.requests[id].flowID == f.id
    && f.id in e.flows && e.flows[f.id] == f
    && Good(e.requests[id], f)
  }

  predicate TouchesFlow(op: Op, flowID: string) {
    (op.UpdateFlow? && op.flow.id == flowID) || (op.DeleteFlow? && op.flowID == flowID)
  }

  lemma StepKeepsFlowsValid(e: Eng, op: Op, now: Time)
    requires FlowsValid(e)
    ensures FlowsValid(Step(e, op, now).0)
  {
  }

  lemma SubmitStartsTracking(e: Eng, r: Request, now: Time)
    requires FlowsValid(e) && Step(e, Submit(r), now).1.Ok?
    ensures Tracked(Step(e, Submit(r), now).0, r.id, e.flows[r.flowID])
  {
    SubmittedIsGood(r, e.flows[r.flowID], now);
  }

  lemma TakeKeepsTracked(e: Eng, rid: string, user: string, approve: bool, comment: string, now: Time,
                         id: string, f: Flow)
    requires Tracked(e, id, f)
    ensures Tracked(Step(e, Take(rid, user, approve, comment), now).0, id, f)
  {
    var d := Decision(user, approve, comment, now);
    if rid == id && Decide(e.requests[id], f, d).Ok? { DecisionKeepsGood(e.requests[id], f, d); }
  }

  lemma PollKeepsTracked(e: Eng, rid: string, now: Time, id: string, f: Flow)
    requires Tracked(e, id, f)
    ensures Tracked(Step(e, CheckTimeout(rid), now).0, id, f)
  {
    var r := e.requests[id];
    if rid == id && r.status == Pending {
      if IsExpired(r, now) {
        ClosingKeepsGood(r, f, TimedOut, now);
      } else if TimedOutStep(r, f, now).0 {
        StepTimeoutKeepsGood(r, f, now);
      }
    }
  }

  lemma StepKeepsTracked(e: Eng, op: Op, now: Time, id: string, f: Flow)
    requires Tracked(e, id, f) && !TouchesFlow(op, f.id)
    ensures Tracked(Step(e, op, now).0, id, f)
  {
    match op {
      case Take(rid, user, approve, comment) => TakeKeepsTracked(e, rid, user, approve, comment, now, id, f);
      case Cancel(rid, user) =>
        if rid == id && e.requests[id].status == Pending { ClosingKeepsGood(e.requests[id], f, Cancelled, now); }
      case CheckTimeout(rid) => PollKeepsTracked(e, rid, now, id, f);
      case CreateFlow(_) =>
      case UpdateFlow(_) =>
      case DeleteFlow(_) =>
      case Submit(_) =>
    }
  }

  // ------------------------------------------------------------------- runs

  datatype Call = Call(op: Op, now: Time)

  const EmptyEngine := Eng(map[], map[], map[])

  ghost predicate Moves(calls: seq<Call>, states: seq<Eng>, i: nat) {
    i < |calls| && i + 1 < |states| && states[i+1] == Step(states[i], calls[i].op, calls[i].now).0
  }

  /** `states[n]` is the engine after the first `n` calls, in any order and by anyone. */
  ghost predicate IsRun(calls: seq<Call>, states: seq<Eng>) {
    && |states| == |calls| + 1 && states[0] == EmptyEngine
    && forall i: nat | i < |calls| :: Moves(calls, states, i)
  }

  lemma {:induction false} RunFlowsValid(calls: seq<Call>, states: seq<Eng>, n: nat)
    requires IsRun(calls, states) && n <= |calls|
    ensures FlowsValid(states[n])
  {
    if n > 0 {
      RunFlowsValid(calls, states, n - 1);
      assert Moves(calls, states, n - 1);
      StepKeepsFlowsValid(states[n-1], calls[n-1].op, calls[n-1].now);
    }
  }

  /** Call `m` submits request `r` successfully, on flow `f`. */
  ghost predicate SubmittedAt(calls: seq<Call>, states: seq<Eng>, m: nat, r: Request, f: Flow)
    requires |states| == |calls| + 1
  {
    && m < |calls| && calls[m].op == Submit(r) && Step(states[m], calls[m].op, calls[m].now).1.Ok?
    && f == states[m].flows[r.flowID]
  }

  lemma {:induction false} RunTracks(calls: seq<Call>, states: seq<Eng>, m: nat, n: nat, r: Request, f: Flow)
    requires IsRun(calls, states) && m < n <= |calls| && SubmittedAt(calls, states, m, r, f)
    requires forall k | m < k < n :: !TouchesFlow(calls[k].op, f.id)
    ensures Tracked(states[n], r.id, f)
    decreases n
  {
    assert Moves(calls, states, n - 1);
    if n == m + 1 {
      RunFlowsValid(calls, states, m);
      SubmitStartsTracking(states[m], r, calls[m].now);
    } else {
      RunTracks(calls, states, m, n - 1, r, f);
      StepKeepsTracked(states[n-1], calls[n-1].op, calls[n-1].now, r.id, f);
    }
  }

  /** Safety over every run that leaves the request's flow alone: an approved request has,
      for every step of its flow, decisions that satisfy the step's mode, and a flow whose
      orders have a gap is never approved. */
  lemma ApprovedMeansEveryStep(calls: seq<Call>, states: seq<Eng>, m: nat, n: nat, r: Request, f: Flow)
    requires IsRun(calls, states) && m < n <= |calls| && SubmittedAt(calls, states, m, r, f)
    requires forall k | m < k < n :: !TouchesFlow(calls[k].op, f.id)
    requires r.id in states[n].requests && states[n].requests[r.id].status == Approved
    ensures var steps := states[n].requests[r.id].steps;
            && Contiguous(f) && |steps| == |f.steps|
            && forall i | 0 <= i < |steps| ::
                 && steps[i].stepID == f.steps[i].id && steps[i].status == Approved
                 && ModeSatisfied(f.steps[i], steps[i].decisions)
  {
    RunTracks(calls, states, m, n, r, f);
  }

  /** The whole picture at any moment of such a run: the steps before the current one are
      approved, the current one is undecided, later ones are pending without decisions. */
  lemma PendingPicture(calls: seq<Call>, states: seq<Eng>, m: nat, n: nat, r: Request, f: Flow)
    requires IsRun(calls, states) && m < n <= |calls| && SubmittedAt(calls, states, m, r, f)
    requires forall k | m < k < n :: !TouchesFlow(calls[k].op, f.id)
    requires r.id in states[n].requests && states[n].requests[r.id].status == Pending
    ensures var now := states[n].requests[r.id];
            && |now.steps| == |f.steps| && 1 <= now.currentStep
            && forall i | 0 <= i < |f.steps| ::
                 && (f.steps[i].order < now.currentStep ==>
                       now.steps[i].status == Approved && ModeSatisfied(f.steps[i], now.steps[i].decisions))
                 && (f.steps[i].order == now.currentStep ==>
                       now.steps[i].status == Pending && EvaluateStep(f.steps[i], now.steps[i].decisions) == (false, false))
                 && (f.steps[i].order > now.currentStep ==>
                       now.steps[i].status == Pending && now.steps[i].decisions == [])
  {
    RunTracks(calls, states, m, n, r, f);
    var now := states[n].requests[r.id];
    forall i | 0 <= i < |f.steps|
      ensures f.steps[i].order < now.currentStep ==> i < Passed(now)
      ensures f.steps[i].order == now.currentStep ==> i == Passed(now) && Active(now, f)
      ensures f.steps[i].order > now.currentStep ==> i >= Passed(now) && !(i == Passed(now) && Active(now, f))
    {
      if i >= Passed(now) { OrdersGrow(f, Passed(now), i); }
      if f.steps[i].order == now.currentStep { CurrentPosition(now, f, i); }
    }
  }

  // -------------------------------------------------- whatever is done

  /** A terminal request and its history never change again, under any operation, and every
      status change is a legal transition. */
  lemma StepRespectsTransitions(e: Eng, op: Op, now: Time, id: string)
    requires id in e.requests
    ensures var e' := Step(e, op, now).0;
            && id in e'.requests
            && (e'.requests[id].status == e.requests[id].status
                || CanTransition(e.requests[id].status, e'.requests[id].status))
            && (IsTerminal(e.requests[id].status) ==>
                  && e'.requests[id] == e.requests[id]
                  && (id in e.histories ==> id in e'.histories && e'.histories[id] == e.histories[id]))
  {
  }

  lemma {:induction false} TerminalForever(calls: seq<Call>, states: seq<Eng>, m: nat, n: nat, id: string)
    requires IsRun(calls, states) && m <= n <= |calls|
    requires id in states[m].requests && IsTerminal(states[m].requests[id].status)
    ensures id in states[n].requests && states[n].requests[id] == states[m].requests[id]
    decreases n
  {
    if m < n {
      TerminalForever(calls, states, m, n - 1, id);
      assert Moves(calls, states, n - 1);
      StepRespectsTransitions(states[n-1], calls[n-1].op, calls[n-1].now, id);
    }
  }
}
