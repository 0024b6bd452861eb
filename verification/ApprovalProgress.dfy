/** The pending-work query, why every run of decisions ends, and what the history counts.
    ApprovalReach says which flows can be approved and which never strand a request. */
module ApprovalProgress {
  import opened ApprovalModel
  import opened ApprovalEngine
  import opened ApprovalSafety

  // ---------------------------------------------------------- pending work

  /** The query lists a request for a user exactly when a decision by that user would be
      accepted, except that it also lists requests that have expired. */
  lemma ListedIffAccepted(e: Eng, id: string, user: string, approve: bool, comment: string, now: Time)
    requires id in e.requests
    ensures Step(e, Take(id, user, approve, comment), now).1.Ok? <==>
            AwaitsDecision(e.flows, e.requests[id], user) && !IsExpired(e.requests[id], now)
  {
    var r := e.requests[id];
    if r.status == Pending && r.flowID in e.flows {
      var f := e.flows[r.flowID];
      var i, j := FindStep(f.steps, r.currentStep), FindRequestStep(r.steps, r.currentStep);
      assert Decide(r, f, Decision(user, approve, comment, now)).Ok? <==> ValidateDecision(r, f, user, now).Ok?;
    }
  }

  // ---------------------------------------------------------- counting work

  function TotalDecisions(steps: seq<RequestStep>): nat {
    if steps == [] then 0 else TotalDecisions(steps[..|steps|-1]) + |steps[|steps|-1].decisions|
  }

  function TotalApprovers(steps: seq<FlowStep>): nat {
    if steps == [] then 0 else TotalApprovers(steps[..|steps|-1]) + |steps[|steps|-1].approvers|
  }

  /** Changing the decisions of one step only. */
  lemma {:induction false} TotalAfterOneMore(a: seq<RequestStep>, b: seq<RequestStep>, c: nat)
    requires c < |a| == |b| && |b[c].decisions| == |a[c].decisions| + 1
    requires forall i | 0 <= i < |a| && i != c :: b[i].decisions == a[i].decisions
    ensures TotalDecisions(b) == TotalDecisions(a) + 1
  {
    var n := |a| - 1;
    if c < n {
      TotalAfterOneMore(a[..n], b[..n], c);
    } else {
      SameTotal(a[..n], b[..n]);
    }
  }

  lemma {:induction false} SameTotal(a: seq<RequestStep>, b: seq<RequestStep>)
    requires |a| == |b| && forall i | 0 <= i < |a| :: b[i].decisions == a[i].decisions
    ensures TotalDecisions(a) == TotalDecisions(b)
  {
    if a != [] { SameTotal(a[..|a|-1], b[..|b|-1]); }
  }

  lemma {:induction false} TotalBounded(a: seq<RequestStep>, s: seq<FlowStep>)
    requires |a| == |s| && forall i | 0 <= i < |a| :: |a[i].decisions| <= |s[i].approvers|
    ensures TotalDecisions(a) <= TotalApprovers(s)
  {
    if a != [] { TotalBounded(a[..|a|-1], s[..|s|-1]); }
  }

  lemma EligibleFits(step: FlowStep, ds: seq<Decision>)
    requires Eligible(step, ds)
    ensures |ds| <= |step.approvers|
  {
    DistinctCount(Deciders(ds));
    DistinctCount(step.approvers);
    assert Elements(Deciders(ds)) <= Elements(step.approvers) by {
      forall u | u in Deciders(ds) ensures u in step.approvers {
        var i :| 0 <= i < |ds| && Deciders(ds)[i] == u;
        assert ds[i].userID in step.approvers;
      }
    }
    SubsetSize(Elements(Deciders(ds)), Elements(step.approvers));
  }

  lemma SubsetSize(a: set<string>, b: set<string>)
    requires a <= b
    ensures |a| <= |b|
  {
    assert b == a + (b - a);
  }

  lemma GoodFits(r: Request, f: Flow)
    requires Good(r, f)
    ensures TotalDecisions(r.steps) <= TotalApprovers(f.steps)
  {
    forall i | 0 <= i < |r.steps| ensures |r.steps[i].decisions| <= |f.steps[i].approvers| {
      if i < Passed(r) {
        assert ModeSatisfied(f.steps[i], r.steps[i].decisions);
        assert |Deciders(r.steps[i].decisions)| == |r.steps[i].decisions|;
      } else if i == Passed(r) && Active(r, f) {
        EligibleFits(f.steps[i], r.steps[i].decisions);
      }
    }
    TotalBounded(r.steps, f.steps);
  }

  /** Approvers minus decisions, over all steps. */
  function Remaining(r: Request, f: Flow): int {
    TotalApprovers(f.steps) - TotalDecisions(r.steps)
  }

  /** Every accepted decision lowers the remaining work by one, and it never goes below
      zero. */
  lemma DecisionLowersRemaining(r: Request, f: Flow, d: Decision)
    requires Good(r, f) && Decide(r, f, d).Ok?
    ensures var r' := Decide(r, f, d).value.0;
            0 <= Remaining(r', f) == Remaining(r, f) - 1
  {
    AcceptedDecision(r, f, d);
    RecordRecords(r, f, Passed(r), d);
    var r' := Decide(r, f, d).value.0;
    TotalAfterOneMore(r.steps, r'.steps, Passed(r));
    DecisionKeepsGood(r, f, d);
    GoodFits(r', f);
  }

  // --------------------------------------------------------------- history

  predicate IsDecisionEntry(e: Entry) {
    e.action == ApproveAction || e.action == RejectAction || e.action == AdvanceAction
  }

  function DecisionEntries(tl: seq<Entry>): nat {
    if tl == [] then 0 else DecisionEntries(tl[..|tl|-1]) + (if IsDecisionEntry(tl[|tl|-1]) then 1 else 0)
  }

  lemma {:induction false} DecisionEntriesConcat(a: seq<Entry>, b: seq<Entry>)
    ensures DecisionEntries(a + b) == DecisionEntries(a) + DecisionEntries(b)
  {
    if b == [] {
      assert a + b == a;
    } else {
      assert (a + b)[..|a + b|-1] == a + b[..|b|-1];
      DecisionEntriesConcat(a, b[..|b|-1]);
    }
  }

  lemma DecisionEntriesAppend(tl: seq<Entry>, e: Entry)
    ensures DecisionEntries(AppendEntry(tl, e)) == DecisionEntries(tl) + (if IsDecisionEntry(e) then 1 else 0)
  {
    var k := Slot(tl, e.timestamp);
    DecisionEntriesConcat(tl[..k] + [e], tl[k..]);
    DecisionEntriesConcat(tl[..k], [e]);
    DecisionEntriesConcat(tl[..k], tl[k..]);
    assert tl[..k] + tl[k..] == tl;
    assert [e][..0] == [];
  }

  /** The timeline is in time order and holds one decision entry for each decision. */
  ghost predicate HistoryMatches(e: Eng, id: string) {
    && id in e.requests && id in e.histories
    && InTimeOrder(e.histories[id])
    && DecisionEntries(e.histories[id]) == TotalDecisions(e.requests[id].steps)
  }

  lemma {:induction false} NoDecisions(steps: seq<RequestStep>)
    requires forall i | 0 <= i < |steps| :: steps[i].decisions == []
    ensures TotalDecisions(steps) == 0
  {
    if steps != [] { NoDecisions(steps[..|steps|-1]); }
  }

  lemma LogMatches(e: Eng, id: string, r: Request, entry: Entry)
    requires HistoryMatches(e, id)
    requires TotalDecisions(r.steps) == TotalDecisions(e.requests[id].steps) + (if IsDecisionEntry(entry) then 1 else 0)
    ensures HistoryMatches(e.(requests := e.requests[id := r], histories := Log(e.histories, id, entry)), id)
  {
    DecisionEntriesAppend(e.histories[id], entry);
    AppendKeepsTimeOrder(e.histories[id], entry);
  }

  lemma RecordMatches(r: Request, f: Flow, d: Decision)
    requires Decide(r, f, d).Ok?
    ensures TotalDecisions(Decide(r, f, d).value.0.steps) == TotalDecisions(r.steps) + 1
    ensures IsDecisionEntry(Decide(r, f, d).value.1)
  {
    var (i, j) := ValidateDecision(r, f, d.userID, d.timestamp).value;
    var r' := Record(r, f, i, j, d).0;
    assert r'.steps[j].decisions == r.steps[j].decisions + [d];
    TotalAfterOneMore(r.steps, r'.steps, j);
  }

  /** Whatever is done to the engine, flow changes included, the history of every request
      stays in time order and numbers its decisions. */
  lemma StepKeepsHistory(e: Eng, op: Op, now: Time, id: string)
    requires HistoryMatches(e, id)
    ensures HistoryMatches(Step(e, op, now).0, id)
  {
    var r := e.requests[id];
    match op {
      case Take(rid, user, approve, comment) =>
        if rid == id && Step(e, op, now).1.Ok? {
          var f, d := e.flows[r.flowID], Decision(user, approve, comment, now);
          RecordMatches(r, f, d);
          LogMatches(e, id, Decide(r, f, d).value.0, Decide(r, f, d).value.1);
        }
      case Cancel(rid, user) =>
        if rid == id && r.status == Pending {
          LogMatches(e, id, r.(status := Cancelled, updatedAt := now),
                     Entry(now, CancelAction, user, "", "cancel approval request"));
        }
      case CheckTimeout(rid) =>
        if rid == id && r.status == Pending {
          if IsExpired(r, now) {
            LogMatches(e, id, r.(status := TimedOut, updatedAt := now), TimeoutEntry("", now));
          } else if r.flowID in e.flows {
            var f := e.flows[r.flowID];
            var (late, i, j) := TimedOutStep(r, f, now);
            if late {
              SameTotal(r.steps, RejectStep(r, j, now).steps);
              LogMatches(e, id, RejectStep(r, j, now), TimeoutEntry(f.steps[i].id, now));
            }
          }
        }
      case CreateFlow(_) =>
      case UpdateFlow(_) =>
      case DeleteFlow(_) =>
      case Submit(_) =>
    }
  }

  lemma SubmitStartsHistory(e: Eng, r: Request, now: Time)
    requires Step(e, Submit(r), now).1.Ok?
    ensures HistoryMatches(Step(e, Submit(r), now).0, r.id)
  {
    NoDecisions(Submitted(r, e.flows[r.flowID], now).steps);
    assert [SubmitEntry(r, now)][..0] == [];
  }

  lemma {:induction false} HistoryNumbersDecisions(calls: seq<Call>, states: seq<Eng>, n: nat, id: string)
    requires IsRun(calls, states) && n <= |calls| && id in states[n].requests
    ensures HistoryMatches(states[n], id)
  {
    if n > 0 {
      assert Moves(calls, states, n - 1);
      var e, op, now := states[n-1], calls[n-1].op, calls[n-1].now;
      if id in e.requests {
        HistoryNumbersDecisions(calls, states, n - 1, id);
        StepKeepsHistory(e, op, now, id);
      } else {
        assert op.Submit? && op.request.id == id;
        SubmitStartsHistory(e, op.request, now);
      }
    }
  }

  /** No run has more accepted decisions on a request than its flow has approvers: neither
      are more recorded nor does the history tell of more. */
  lemma DecisionsAreBounded(calls: seq<Call>, states: seq<Eng>, m: nat, n: nat, r: Request, f: Flow)
    requires IsRun(calls, states) && m < n <= |calls| && SubmittedAt(calls, states, m, r, f)
    requires forall k | m < k < n :: !TouchesFlow(calls[k].op, f.id)
    ensures r.id in states[n].requests && r.id in states[n].histories
    ensures DecisionEntries(states[n].histories[r.id]) == TotalDecisions(states[n].requests[r.id].steps)
              <= TotalApprovers(f.steps)
  {
    RunTracks(calls, states, m, n, r, f);
    GoodFits(states[n].requests[r.id], f);
    HistoryNumbersDecisions(calls, states, n, r.id);
  }
}
