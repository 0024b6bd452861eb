/** What the history of a request tells, over every run of the engine: who decided what and
    when, and by which operation the request came to its end. */
module ApprovalHistory {
  import opened ApprovalModel
  import opened ApprovalEngine
  import opened ApprovalSafety
  import opened ApprovalProgress

  // -------------------------------------------------- one accepted decision

  /** The entry of an accepted decision names its user, time and step. It says that the request
      advanced exactly if the request is pending on another step afterwards, and otherwise
      whether the user approved. */
  lemma DecisionEntry(r: Request, f: Flow, d: Decision)
    requires Decide(r, f, d).Ok?
    ensures var (r', entry) := Decide(r, f, d).value;
            var advanced := r'.status == Pending && r'.currentStep != r.currentStep;
            && entry.userID == d.userID && entry.timestamp == d.timestamp
            && FindStep(f.steps, r.currentStep) < |f.steps| && entry.stepID == f.steps[FindStep(f.steps, r.currentStep)].id
            && (entry.action == AdvanceAction <==> advanced)
            && (entry.action == ApproveAction <==> !advanced && d.approve)
            && (entry.action == RejectAction <==> !advanced && !d.approve)
            && entry.comment == if advanced then "step " + entry.stepID + " approved, advance to next step" else d.comment
  {
  }

  /** And the decision itself is recorded at the end of the current step's decisions, and
      nowhere else. */
  lemma DecisionRecorded(r: Request, f: Flow, d: Decision)
    requires Decide(r, f, d).Ok?
    ensures var r' := Decide(r, f, d).value.0;
            var j := FindRequestStep(r.steps, r.currentStep);
            && j < |r.steps| == |r'.steps| && r'.steps[j].decisions == r.steps[j].decisions + [d]
            && (forall i | 0 <= i < |r.steps| && i != j :: r'.steps[i].decisions == r.steps[i].decisions)
  {
  }

  /** Of the request itself only status, current step, steps and update time change. */
  lemma RestStays(r: Request, f: Flow, d: Decision)
    requires Decide(r, f, d).Ok?
    ensures var r' := Decide(r, f, d).value.0;
            && r'.updatedAt == d.timestamp
            && r'.(status := r.status, currentStep := r.currentStep, steps := r.steps, updatedAt := r.updatedAt) == r
  {
  }

  // ------------------------------------------------------------------ marks

  /** Who decided, when, and which way. */
  type Mark = (string, Time, bool)

  function Marks(tl: seq<Entry>): multiset<Mark> {
    if tl == [] then multiset{}
    else
      var e := tl[|tl|-1];
      Marks(tl[..|tl|-1]) +
      (if IsDecisionEntry(e) then multiset{(e.userID, e.timestamp, e.action != RejectAction)} else multiset{})
  }

  function MarksOf(ds: seq<Decision>): multiset<Mark> {
    if ds == [] then multiset{}
    else MarksOf(ds[..|ds|-1]) + multiset{(ds[|ds|-1].userID, ds[|ds|-1].timestamp, ds[|ds|-1].approve)}
  }

  function StepMarks(steps: seq<RequestStep>): multiset<Mark> {
    if steps == [] then multiset{} else StepMarks(steps[..|steps|-1]) + MarksOf(steps[|steps|-1].decisions)
  }

  lemma {:induction false} MarksConcat(a: seq<Entry>, b: seq<Entry>)
    ensures Marks(a + b) == Marks(a) + Marks(b)
  {
    if b == [] {
      assert a + b == a;
    } else {
      assert (a + b)[..|a + b|-1] == a + b[..|b|-1];
      MarksConcat(a, b[..|b|-1]);
    }
  }

  lemma MarksAround(a: seq<Entry>, e: Entry, b: seq<Entry>)
    ensures Marks(a + [e] + b) == Marks(a + b) + Marks([e])
  {
    MarksConcat(a + [e], b);
    MarksConcat(a, [e]);
    MarksConcat(a, b);
  }

  lemma MarksAppend(tl: seq<Entry>, e: Entry)
    ensures Marks(AppendEntry(tl, e)) == Marks(tl) + Marks([e])
  {
    var k := Slot(tl, e.timestamp);
    MarksAround(tl[..k], e, tl[k..]);
    assert tl[..k] + tl[k..] == tl;
  }

  lemma MarksOfOne(e: Entry)
    ensures Marks([e]) == if IsDecisionEntry(e) then multiset{(e.userID, e.timestamp, e.action != RejectAction)} else multiset{}
  {
    assert [e][..0] == [];
  }

  lemma {:induction false} SameStepMarks(a: seq<RequestStep>, b: seq<RequestStep>)
    requires |a| == |b| && forall i | 0 <= i < |a| :: b[i].decisions == a[i].decisions
    ensures StepMarks(a) == StepMarks(b)
  {
    if a != [] { SameStepMarks(a[..|a|-1], b[..|b|-1]); }
  }

  lemma {:induction false} OneMoreMark(a: seq<RequestStep>, b: seq<RequestStep>, j: nat, d: Decision)
    requires j < |a| == |b| && b[j].decisions == a[j].decisions + [d]
    requires forall i | 0 <= i < |a| && i != j :: b[i].decisions == a[i].decisions
    ensures StepMarks(b) == StepMarks(a) + multiset{(d.userID, d.timestamp, d.approve)}
  {
    var n := |a| - 1;
    if j < n {
      OneMoreMark(a[..n], b[..n], j, d);
    } else {
      SameStepMarks(a[..n], b[..n]);
      assert b[n].decisions[..|a[n].decisions|] == a[n].decisions;
    }
  }

  lemma {:induction false} NoMarks(steps: seq<RequestStep>)
    requires forall i | 0 <= i < |steps| :: steps[i].decisions == []
    ensures StepMarks(steps) == multiset{}
  {
    if steps != [] { NoMarks(steps[..|steps|-1]); }
  }

  // ----------------------------------------------- the history tells the truth

  /** The decision entries of the history are exactly the recorded decisions: the same users
      at the same times, approvals as approve or advance, rejections as reject. */
  ghost predicate Truthful(e: Eng, id: string) {
    id in e.requests && id in e.histories && Marks(e.histories[id]) == StepMarks(e.requests[id].steps)
  }

  /** A rejection that is accepted and sends the request on to another step. */
  ghost predicate Misrecords(e: Eng, op: Op, now: Time, id: string) {
    && op.Take? && op.requestID == id && !op.approve && id in e.requests && Step(e, op, now).1.Ok?
    && var r' := Step(e, op, now).0.requests[id];
       r'.status == Pending && r'.currentStep != e.requests[id].currentStep
  }

  ghost predicate Accepted(e: Eng, op: Op, now: Time, id: string) {
    op.Take? && op.requestID == id && Step(e, op, now).1.Ok?
  }

  /** Only an accepted decision changes the marks of a request and its history. */
  lemma NoMarksAdded(e: Eng, op: Op, now: Time, id: string)
    requires id in e.requests && id in e.histories && !Accepted(e, op, now, id)
    ensures var e' := Step(e, op, now).0;
            && id in e'.requests && id in e'.histories
            && StepMarks(e'.requests[id].steps) == StepMarks(e.requests[id].steps)
            && Marks(e'.histories[id]) == Marks(e.histories[id])
  {
    match op {
      case Take(rid, _, _, _) => if rid != id { OthersStay(e, op, now, id); }
      case Cancel(rid, user) => if rid == id { CancelAddsNoMarks(e, id, user, now); } else { OthersStay(e, op, now, id); }
      case CheckTimeout(rid) => if rid == id { PollAddsNoMarks(e, id, now); } else { OthersStay(e, op, now, id); }
      case CreateFlow(_) => OthersStay(e, op, now, id);
      case UpdateFlow(_) => OthersStay(e, op, now, id);
      case DeleteFlow(_) => OthersStay(e, op, now, id);
      case Submit(_) => OthersStay(e, op, now, id);
    }
  }

  lemma CancelAddsNoMarks(e: Eng, id: string, user: string, now: Time)
    requires id in e.requests && id in e.histories
    ensures var e' := Step(e, Cancel(id, user), now).0;
            && id in e'.requests && id in e'.histories
            && e'.requests[id].steps == e.requests[id].steps && Marks(e'.histories[id]) == Marks(e.histories[id])
  {
    var entry := Entry(now, CancelAction, user, "", "cancel approval request");
    MarksAppend(e.histories[id], entry);
    MarksOfOne(entry);
  }

  lemma TakeAddsMarks(e: Eng, id: string, user: string, approve: bool, comment: string, now: Time)
    requires id in e.requests && id in e.histories && Step(e, Take(id, user, approve, comment), now).1.Ok?
    ensures var op := Take(id, user, approve, comment);
            var e' := Step(e, op, now).0;
            && StepMarks(e'.requests[id].steps) == StepMarks(e.requests[id].steps) + multiset{(user, now, approve)}
            && Marks(e'.histories[id]) == Marks(e.histories[id]) + multiset{(user, now, approve || Misrecords(e, op, now, id))}
  {
    var r := e.requests[id];
    var f, d := e.flows[r.flowID], Decision(user, approve, comment, now);
    var (r', entry) := Decide(r, f, d).value;
    DecisionEntry(r, f, d);
    DecisionRecorded(r, f, d);
    OneMoreMark(r.steps, r'.steps, FindRequestStep(r.steps, r.currentStep), d);
    MarksAppend(e.histories[id], entry);
    MarksOfOne(entry);
  }

  lemma PollAddsNoMarks(e: Eng, id: string, now: Time)
    requires id in e.requests && id in e.histories
    ensures var e' := Step(e, CheckTimeout(id), now).0;
            && id in e'.requests && id in e'.histories
            && StepMarks(e'.requests[id].steps) == StepMarks(e.requests[id].steps)
            && Marks(e'.histories[id]) == Marks(e.histories[id])
  {
    var r := e.requests[id];
    MarksAppend(e.histories[id], TimeoutEntry("", now));
    MarksOfOne(TimeoutEntry("", now));
    if r.status == Pending && !IsExpired(r, now) && r.flowID in e.flows {
      var f := e.flows[r.flowID];
      var (late, i, j) := TimedOutStep(r, f, now);
      if late {
        SameStepMarks(r.steps, RejectStep(r, j, now).steps);
        MarksAppend(e.histories[id], TimeoutEntry(f.steps[i].id, now));
        MarksOfOne(TimeoutEntry(f.steps[i].id, now));
      }
    }
  }

  lemma SubmitIsTruthful(e: Eng, r: Request, now: Time)
    requires Step(e, Submit(r), now).1.Ok?
    ensures Truthful(Step(e, Submit(r), now).0, r.id)
  {
    NoMarks(Submitted(r, e.flows[r.flowID], now).steps);
    MarksOfOne(SubmitEntry(r, now));
  }

  lemma TakeKeepsTruthIff(e: Eng, id: string, user: string, approve: bool, comment: string, now: Time)
    requires Truthful(e, id) && Step(e, Take(id, user, approve, comment), now).1.Ok?
    ensures Truthful(Step(e, Take(id, user, approve, comment), now).0, id) <==>
            !Misrecords(e, Take(id, user, approve, comment), now, id)
  {
    var wrong := Misrecords(e, Take(id, user, approve, comment), now, id);
    var marks := Marks(e.histories[id]);
    TakeAddsMarks(e, id, user, approve, comment, now);
    SameMarkIff(marks, user, now, approve, approve || wrong);
  }

  /** An operation keeps a history truthful exactly if it is not such a rejection. */
  lemma StepKeepsTruthIff(e: Eng, op: Op, now: Time, id: string)
    requires Truthful(e, id)
    ensures Truthful(Step(e, op, now).0, id) <==> !Misrecords(e, op, now, id)
  {
    if Accepted(e, op, now, id) {
      TakeKeepsTruthIff(e, id, op.user, op.approve, op.comment, now);
    } else {
      NoMarksAdded(e, op, now, id);
      NotAcceptedIsFine(e, op, now, id);
    }
  }

  lemma NotAcceptedIsFine(e: Eng, op: Op, now: Time, id: string)
    requires !Accepted(e, op, now, id)
    ensures !Misrecords(e, op, now, id)
  {
  }

  lemma SameMarkIff(m: multiset<Mark>, user: string, now: Time, a: bool, b: bool)
    ensures m + multiset{(user, now, a)} == m + multiset{(user, now, b)} <==> a == b
  {
    if a != b {
      assert (m + multiset{(user, now, a)})[(user, now, a)] == m[(user, now, a)] + 1;
      assert (m + multiset{(user, now, b)})[(user, now, a)] == m[(user, now, a)];
    }
  }

  /** In every run, flow changes included: the history of a request is truthful at every moment
      exactly if no rejection has sent the request on. */
  lemma AlwaysTruthfulIff(calls: seq<Call>, states: seq<Eng>, n: nat, id: string)
    requires IsRun(calls, states) && n <= |calls| && id in states[n].requests
    ensures (forall k | 0 <= k <= n && id in states[k].requests :: Truthful(states[k], id)) <==>
            (forall k | 0 <= k < n :: !Misrecords(states[k], calls[k].op, calls[k].now, id))
  {
    if forall k | 0 <= k <= n && id in states[k].requests :: Truthful(states[k], id) {
      forall k | 0 <= k < n ensures !Misrecords(states[k], calls[k].op, calls[k].now, id) {
        assert Moves(calls, states, k);
        if id in states[k].requests {
          StepKeepsTruthIff(states[k], calls[k].op, calls[k].now, id);
          HistoryNumbersDecisions(calls, states, k, id);
          StepRespectsTransitions(states[k], calls[k].op, calls[k].now, id);
          assert Truthful(states[k+1], id);
        }
      }
    }
    if forall k | 0 <= k < n :: !Misrecords(states[k], calls[k].op, calls[k].now, id) {
      forall k | 0 <= k <= n && id in states[k].requests ensures Truthful(states[k], id) {
        TruthfulSoFar(calls, states, k, id);
      }
    }
  }

  lemma {:induction false} TruthfulSoFar(calls: seq<Call>, states: seq<Eng>, n: nat, id: string)
    requires IsRun(calls, states) && n <= |calls| && id in states[n].requests
    requires forall k | 0 <= k < n :: !Misrecords(states[k], calls[k].op, calls[k].now, id)
    ensures Truthful(states[n], id)
  {
    if n > 0 {
      assert Moves(calls, states, n - 1);
      var e, op, now := states[n-1], calls[n-1].op, calls[n-1].now;
      if id in e.requests {
        TruthfulSoFar(calls, states, n - 1, id);
        StepKeepsTruthIff(e, op, now, id);
      } else {
        assert op.Submit? && op.request.id == id;
        SubmitIsTruthful(e, op.request, now);
      }
    }
  }

  /** A request whose flow is left alone is never sent on by a rejection: its history is
      truthful, and a rejection always rejects it. */
  lemma RejectionRejects(r: Request, f: Flow, d: Decision)
    requires Good(r, f) && Decide(r, f, d).Ok?
    ensures Decide(r, f, d).value.0.status == Rejected <==> !d.approve
  {
    AcceptedDecision(r, f, d);
    RecordRecords(r, f, Passed(r), d);
    EvaluateOneMore(f.steps[Passed(r)], r.steps[Passed(r)].decisions, d);
  }

  /** Whatever the flow has become, an accepted rejection rejects the request exactly unless
      the current step is any-of and has an approval already. */
  lemma RejectionRejectsIff(r: Request, f: Flow, d: Decision)
    requires Decide(r, f, d).Ok? && !d.approve && ValidSteps(f.steps)
    ensures FindStep(f.steps, r.currentStep) < |f.steps| && FindRequestStep(r.steps, r.currentStep) < |r.steps|
    ensures var step, ds := f.steps[FindStep(f.steps, r.currentStep)], r.steps[FindRequestStep(r.steps, r.currentStep)].decisions;
            Decide(r, f, d).value.0.status == Rejected <==> !(step.mode == AnyOf && ds != [] && ds[0].approve)
  {
    var step, ds := f.steps[FindStep(f.steps, r.currentStep)], r.steps[FindRequestStep(r.steps, r.currentStep)].decisions;
    var more := ds + [d];
    assert more[|ds|] == d;
    if ds != [] { assert more[0] == ds[0]; }
  }

  /** A run with such a rejection: a countersign step has its first approval, the flow is
      updated to any-of, and the second approver's rejection passes the step. */
  lemma UpdateTurnsRejectionIntoAdvance()
    ensures var r := Request("r", "f", "t", "shell", "o", "", "", "", Pending, 1,
                             [RequestStep("s", 1, Pending, [Decision("a", true, "", 2)], 1),
                              RequestStep("s2", 2, Pending, [], ZERO)], 1, 2, ZERO);
            var g := Flow("f", "flow", "t", "shell", [FlowStep("s", "step", 1, AnyOf, ["a", "b"], 0),
                                                       FlowStep("s2", "step", 2, AnyOf, ["c"], 0)], true, 1, 3);
            var e := Eng(map["f" := g], map["r" := r], map["r" := []]);
            Misrecords(e, Take("r", "b", false, ""), 4, "r")
  {
    var r := Request("r", "f", "t", "shell", "o", "", "", "", Pending, 1,
                     [RequestStep("s", 1, Pending, [Decision("a", true, "", 2)], 1),
                      RequestStep("s2", 2, Pending, [], ZERO)], 1, 2, ZERO);
    var g := Flow("f", "flow", "t", "shell", [FlowStep("s", "step", 1, AnyOf, ["a", "b"], 0),
                                               FlowStep("s2", "step", 2, AnyOf, ["c"], 0)], true, 1, 3);
    assert g.steps[0].order == 1 && r.steps[0].order == 1;
    assert FindStep(g.steps, 1) == 0 && FindRequestStep(r.steps, 1) == 0;
    var d := Decision("b", false, "", 4);
    assert ValidateDecision(r, g, "b", 4) == Ok((0, 0));
    assert EvaluateStep(g.steps[0], r.steps[0].decisions + [d]) == (true, true);
    assert Decide(r, g, d) == Ok(Record(r, g, 0, 0, d));
    assert LastOrder(g) == 2;
  }

  lemma {:induction false} UntouchedIsTruthful(calls: seq<Call>, states: seq<Eng>, m: nat, n: nat, r: Request, f: Flow)
    requires IsRun(calls, states) && m < n <= |calls| && SubmittedAt(calls, states, m, r, f)
    requires forall k | m < k < n :: !TouchesFlow(calls[k].op, f.id)
    ensures Truthful(states[n], r.id)
    decreases n
  {
    assert Moves(calls, states, n - 1);
    if n == m + 1 {
      SubmitIsTruthful(states[m], r, calls[m].now);
    } else {
      var e, op, now := states[n-1], calls[n-1].op, calls[n-1].now;
      UntouchedIsTruthful(calls, states, m, n - 1, r, f);
      RunTracks(calls, states, m, n - 1, r, f);
      TrackedIsRecorded(e, op, now, r.id, f);
      StepKeepsTruthIff(e, op, now, r.id);
    }
  }

  lemma TrackedIsRecorded(e: Eng, op: Op, now: Time, id: string, f: Flow)
    requires Tracked(e, id, f)
    ensures !Misrecords(e, op, now, id)
  {
    if Accepted(e, op, now, id) && !op.approve {
      RejectionRejects(e.requests[id], f, Decision(op.user, false, op.comment, now));
    }
  }

  // ------------------------------------------------------ counting by action

  function CountAction(tl: seq<Entry>, a: Action): nat {
    if tl == [] then 0 else CountAction(tl[..|tl|-1], a) + (if tl[|tl|-1].action == a then 1 else 0)
  }

  function CountDecisions(ds: seq<Decision>, approve: bool): nat {
    if ds == [] then 0 else CountDecisions(ds[..|ds|-1], approve) + (if ds[|ds|-1].approve == approve then 1 else 0)
  }

  /** How many of the recorded decisions go this way. */
  function CountSteps(steps: seq<RequestStep>, approve: bool): nat {
    if steps == [] then 0 else CountSteps(steps[..|steps|-1], approve) + CountDecisions(steps[|steps|-1].decisions, approve)
  }

  /** `part` has the marks of `all` that go this way. */
  ghost predicate ThatWay(part: multiset<Mark>, all: multiset<Mark>, approve: bool) {
    forall x :: part[x] == if x.2 == approve then all[x] else 0
  }

  lemma {:induction false} EntriesThatWay(tl: seq<Entry>, approve: bool) returns (part: multiset<Mark>)
    ensures ThatWay(part, Marks(tl), approve)
    ensures |part| == if approve then CountAction(tl, ApproveAction) + CountAction(tl, AdvanceAction)
                      else CountAction(tl, RejectAction)
  {
    part := multiset{};
    if tl != [] {
      var e := tl[|tl|-1];
      part := EntriesThatWay(tl[..|tl|-1], approve);
      if IsDecisionEntry(e) && (e.action != RejectAction) == approve {
        part := part + multiset{(e.userID, e.timestamp, approve)};
      }
    }
  }

  lemma {:induction false} DecisionsThatWay(ds: seq<Decision>, approve: bool) returns (part: multiset<Mark>)
    ensures ThatWay(part, MarksOf(ds), approve) && |part| == CountDecisions(ds, approve)
  {
    part := multiset{};
    if ds != [] {
      var d := ds[|ds|-1];
      part := DecisionsThatWay(ds[..|ds|-1], approve);
      if d.approve == approve {
        part := part + multiset{(d.userID, d.timestamp, approve)};
      }
    }
  }

  lemma {:induction false} StepsThatWay(steps: seq<RequestStep>, approve: bool) returns (part: multiset<Mark>)
    ensures ThatWay(part, StepMarks(steps), approve) && |part| == CountSteps(steps, approve)
  {
    part := multiset{};
    if steps != [] {
      part := StepsThatWay(steps[..|steps|-1], approve);
      var last := DecisionsThatWay(steps[|steps|-1].decisions, approve);
      part := part + last;
    }
  }

  lemma SamePart(a: multiset<Mark>, b: multiset<Mark>, all: multiset<Mark>, approve: bool)
    requires ThatWay(a, all, approve) && ThatWay(b, all, approve)
    ensures a == b
  {
    assert forall x :: a[x] == b[x];
  }

  /** A truthful history numbers both kinds: reject entries are as many as rejections, approve
      and advance entries together as many as approvals. */
  lemma TruthNumbers(e: Eng, id: string)
    requires Truthful(e, id)
    ensures var tl, steps := e.histories[id], e.requests[id].steps;
            && CountAction(tl, RejectAction) == CountSteps(steps, false)
            && CountAction(tl, ApproveAction) + CountAction(tl, AdvanceAction) == CountSteps(steps, true)
  {
    var tl, steps := e.histories[id], e.requests[id].steps;
    var a := EntriesThatWay(tl, false);
    var b := StepsThatWay(steps, false);
    SamePart(a, b, Marks(tl), false);
    var c := EntriesThatWay(tl, true);
    var d := StepsThatWay(steps, true);
    SamePart(c, d, Marks(tl), true);
  }

  // ------------------------------------------------- how a request ends

  /** What the poll of a pending request finds, in terms of its fields. */
  ghost predicate PastDeadline(r: Request, now: Time) {
    r.status == Pending && r.expireAt != ZERO && now > r.expireAt
  }

  /** Step `i` of the flow is the current one and has been running longer than it may. */
  ghost predicate TooLate(r: Request, f: Flow, now: Time) {
    && r.status == Pending && !PastDeadline(r, now)
    && exists i, j :: 0 <= i < |f.steps| && 0 <= j < |r.steps|
         && i == FindStep(f.steps, r.currentStep) && j == FindRequestStep(r.steps, r.currentStep)
         && f.steps[i].timeout > 0 && r.steps[j].startedAt != ZERO && now - r.steps[j].startedAt > f.steps[i].timeout
  }

  /** The end of a request and its cause: it is cancelled exactly by a cancellation, times out
      exactly by a poll after its deadline, and is rejected by a poll exactly if the current
      step has run out of time before that. */
  lemma EndsByIff(e: Eng, op: Op, now: Time, id: string)
    requires id in e.requests && e.requests[id].status == Pending
    ensures var r, r' := e.requests[id], Step(e, op, now).0.requests[id];
            && (r'.status == Cancelled <==> op.Cancel? && op.requestID == id)
            && (r'.status == TimedOut <==> op.CheckTimeout? && op.requestID == id && PastDeadline(r, now))
            && (op.CheckTimeout? ==>
                  (r'.status == Rejected <==>
                     op.requestID == id && r.flowID in e.flows && TooLate(r, e.flows[r.flowID], now)))
            && (r'.status == Approved ==> op.Take? && op.requestID == id)
            && (r'.status == Rejected ==> (op.Take? || op.CheckTimeout?) && op.requestID == id)
  {
  }

  /** Cancellations and timeouts are entered into the history as such, once. */
  lemma EndIsLogged(e: Eng, op: Op, now: Time, id: string)
    requires id in e.requests && id in e.histories && e.requests[id].status == Pending
    ensures var e' := Step(e, op, now).0;
            && (op.Cancel? && op.requestID == id ==>
                  e'.histories[id] == AppendEntry(e.histories[id], Entry(now, CancelAction, op.user, "", "cancel approval request")))
            && (op.CheckTimeout? && op.requestID == id && e'.requests[id].status != Pending ==>
                  exists entry :: e'.histories[id] == AppendEntry(e.histories[id], entry)
                    && entry.action == TimeoutAction && entry.timestamp == now && entry.userID == ""
                    && (PastDeadline(e.requests[id], now) ==> entry.stepID == "")
                    && (!PastDeadline(e.requests[id], now) ==>
                          var f := e.flows[e.requests[id].flowID];
                          FindStep(f.steps, e.requests[id].currentStep) < |f.steps|
                          && entry.stepID == f.steps[FindStep(f.steps, e.requests[id].currentStep)].id))
  {
    if op.CheckTimeout? && op.requestID == id && Step(e, op, now).0.requests[id].status != Pending {
      PollIsLogged(e, now, id);
    }
  }

  lemma PollIsLogged(e: Eng, now: Time, id: string)
    requires id in e.requests && id in e.histories && e.requests[id].status == Pending
    requires Step(e, CheckTimeout(id), now).0.requests[id].status != Pending
    ensures var e', r := Step(e, CheckTimeout(id), now).0, e.requests[id];
            if PastDeadline(r, now) then e'.histories[id] == AppendEntry(e.histories[id], TimeoutEntry("", now))
            else
              && r.flowID in e.flows && FindStep(e.flows[r.flowID].steps, r.currentStep) < |e.flows[r.flowID].steps|
              && e'.histories[id] == AppendEntry(e.histories[id],
                   TimeoutEntry(e.flows[r.flowID].steps[FindStep(e.flows[r.flowID].steps, r.currentStep)].id, now))
  {
  }

  // ---------------------------------------------------- submitting, flows

  /** A submission is accepted exactly if the request is complete, its id is new, and its flow
      exists and is enabled at that moment. */
  lemma SubmitAcceptedIff(e: Eng, r: Request, now: Time)
    ensures Step(e, Submit(r), now).1.Ok? <==>
            && r.id != "" && r.flowID != "" && r.tenantID != "" && r.triggerType != "" && r.operator != ""
            && (r.status == OtherStatus("") || r.status in {Pending, Approved, Rejected, TimedOut, Cancelled})
            && r.id !in e.requests && r.flowID in e.flows && e.flows[r.flowID].enabled
    ensures Step(e, Submit(r), now).1.Ok? ==>
              var s := Step(e, Submit(r), now).0.requests[r.id];
              && s.status == Pending && s.currentStep == 1 && |s.steps| == |e.flows[r.flowID].steps|
              && s.updatedAt == now && s.createdAt == (if r.createdAt == ZERO then now else r.createdAt)
              && s.(status := r.status, currentStep := r.currentStep, steps := r.steps,
                    createdAt := r.createdAt, updatedAt := r.updatedAt) == r
    ensures Step(e, Submit(r), now).1.Err? ==> Step(e, Submit(r), now).0 == e
  {
  }

  /** In every run, a request was submitted to a flow that was enabled then. */
  lemma {:induction false} SubmittedWhenEnabled(calls: seq<Call>, states: seq<Eng>, n: nat, id: string) returns (m: nat)
    requires IsRun(calls, states) && n <= |calls| && id in states[n].requests
    ensures m < n && calls[m].op.Submit? && calls[m].op.request.id == id && id !in states[m].requests
    ensures var flowID := states[n].requests[id].flowID;
            flowID in states[m].flows && states[m].flows[flowID].enabled
  {
    assert n > 0;
    assert Moves(calls, states, n - 1);
    if id in states[n-1].requests {
      m := SubmittedWhenEnabled(calls, states, n - 1, id);
      FlowIDStays(states[n-1], calls[n-1].op, calls[n-1].now, id);
    } else {
      m := n - 1;
    }
  }

  lemma FlowIDStays(e: Eng, op: Op, now: Time, id: string)
    requires id in e.requests
    ensures id in Step(e, op, now).0.requests && Step(e, op, now).0.requests[id].flowID == e.requests[id].flowID
  {
  }

  /** An operation changes no request but the one it names, and that one's history. */
  lemma OthersStay(e: Eng, op: Op, now: Time, id: string)
    requires id in e.requests
    requires match op
             case Take(rid, _, _, _) => rid != id
             case Cancel(rid, _) => rid != id
             case CheckTimeout(rid) => rid != id
             case _ => true
    ensures var e' := Step(e, op, now).0;
            && id in e'.requests && e'.requests[id] == e.requests[id]
            && (id in e.histories ==> id in e'.histories && e'.histories[id] == e.histories[id])
  {
  }

  /** A flow keeps its creation time under updates, an update shows when it happened, and a
      flow is changed by creating, updating or deleting that flow only. */
  lemma FlowTimes(e: Eng, op: Op, now: Time, id: string)
    ensures var e' := Step(e, op, now).0;
            && (id in e.flows && id in e'.flows ==> e'.flows[id].createdAt == e.flows[id].createdAt)
            && (op.UpdateFlow? && op.flow.id == id && Step(e, op, now).1.Ok? ==>
                  id in e'.flows && e'.flows[id].updatedAt == now && e'.flows[id].steps == op.flow.steps
                  && e'.flows[id].enabled == op.flow.enabled)
            && (id !in e.flows && id in e'.flows ==>
                  op.CreateFlow? && op.flow.id == id && e'.flows[id].steps == op.flow.steps
                  && e'.flows[id].enabled == op.flow.enabled
                  && e'.flows[id].createdAt == (if op.flow.createdAt == ZERO then now else op.flow.createdAt)
                  && e'.flows[id].updatedAt == (if op.flow.updatedAt == ZERO then now else op.flow.updatedAt))
            && (id in e.flows && id !in e'.flows ==> op == DeleteFlow(id))
            && (id in e.flows && id in e'.flows && e'.flows[id] != e.flows[id] ==> op.UpdateFlow? && op.flow.id == id)
  {
  }

  /** A flow is accepted exactly if it is named and owned, has steps, and each step has an id
      and an order of its own, the orders positive and ascending, one of the three modes and
      somebody to decide; and if its id is new, for a creation, or known, for an update. */
  lemma FlowAcceptedIff(e: Eng, f: Flow, now: Time)
    ensures var wellFormed :=
              && f.id != "" && f.name != "" && f.tenantID != "" && f.triggerType != "" && |f.steps| > 0
              && (forall i | 0 <= i < |f.steps| ::
                    && f.steps[i].id != "" && f.steps[i].order > 0 && |f.steps[i].approvers| > 0
                    && f.steps[i].mode in {Sequential, Countersign, AnyOf})
              && (forall i, j | 0 <= i < j < |f.steps| ::
                    f.steps[i].id != f.steps[j].id && f.steps[i].order < f.steps[j].order);
            && (Step(e, CreateFlow(f), now).1.Ok? <==> wellFormed && f.id !in e.flows)
            && (Step(e, UpdateFlow(f), now).1.Ok? <==> wellFormed && f.id in e.flows)
            && (Step(e, DeleteFlow(f.id), now).1.Ok? <==> f.id in e.flows)
  {
  }
}
