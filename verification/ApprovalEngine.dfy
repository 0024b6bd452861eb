/** The approval engine of internal/approval/engine.go: each operation as a method that
    changes the engine, specified by `Step` on the engine's value. */
module ApprovalEngine {
  import opened ApprovalModel

  datatype Eng = Eng(flows: map<string, Flow>, requests: map<string, Request>, histories: map<string, seq<Entry>>)

  datatype Op =
    | CreateFlow(flow: Flow)
    | UpdateFlow(flow: Flow)
    | DeleteFlow(flowID: string)
    | Submit(request: Request)
    | Take(requestID: string, user: string, approve: bool, comment: string)
    | Cancel(requestID: string, user: string)
    | CheckTimeout(requestID: string)

  function Log(histories: map<string, seq<Entry>>, id: string, e: Entry): map<string, seq<Entry>> {
    if id in histories then histories[id := AppendEntry(histories[id], e)] else histories
  }

  function Stamped(f: Flow, now: Time): Flow {
    f.(createdAt := if f.createdAt == ZERO then now else f.createdAt,
       updatedAt := if f.updatedAt == ZERO then now else f.updatedAt)
  }

  function SubmitEntry(r: Request, now: Time): Entry {
    Entry(now, SubmitAction, r.operator, "", "submit approval request")
  }

  function TimeoutEntry(stepID: string, now: Time): Entry {
    Entry(now, TimeoutAction, "", stepID,
          if stepID == "" then "request expired" else "step " + stepID + " timed out")
  }

  /** A poll of a pending, unexpired request: when its current step has timed out, the
      position of that step in the flow and in the request. */
  function TimedOutStep(r: Request, f: Flow, now: Time): (v: (bool, nat, nat))
    ensures v.0 ==> v.1 == FindStep(f.steps, r.currentStep) < |f.steps|
    ensures v.0 ==> v.2 == FindRequestStep(r.steps, r.currentStep) < |r.steps|
  {
    var i, j := FindStep(f.steps, r.currentStep), FindRequestStep(r.steps, r.currentStep);
    (i < |f.steps| && j < |r.steps| && StepExpired(f.steps[i], r.steps[j], now), i, j)
  }

  function RejectStep(r: Request, j: nat, now: Time): Request
    requires j < |r.steps|
  {
    r.(status := Rejected, updatedAt := now, steps := r.steps[j := r.steps[j].(status := Rejected)])
  }

  /** One operation: the new engine and what the caller gets back. The flag is used by
      CheckTimeout only. */
  ghost function Step(e: Eng, op: Op, now: Time): (Eng, Result<bool>) {
    match op
    case CreateFlow(f) =>
      if !ValidFlow(f) then (e, Err(FlowInvalid))
      else if f.id in e.flows then (e, Err(FlowExists))
      else (e.(flows := e.flows[f.id := Stamped(f, now)]), Ok(true))
    case UpdateFlow(f) =>
      if !ValidFlow(f) then (e, Err(FlowInvalid))
      else if f.id !in e.flows then (e, Err(FlowNotFound))
      else (e.(flows := e.flows[f.id := f.(createdAt := e.flows[f.id].createdAt, updatedAt := now)]), Ok(true))
    case DeleteFlow(id) =>
      if id !in e.flows then (e, Err(FlowNotFound)) else (e.(flows := e.flows - {id}), Ok(true))
    case Submit(r) =>
      if !ValidRequest(r) then (e, Err(RequestInvalid))
      else if r.id in e.requests then (e, Err(RequestExists))
      else if r.flowID !in e.flows then (e, Err(FlowNotFound))
      else if !e.flows[r.flowID].enabled then (e, Err(FlowDisabled))
      else (e.(requests := e.requests[r.id := Submitted(r, e.flows[r.flowID], now)],
               histories := e.histories[r.id := [SubmitEntry(r, now)]]), Ok(true))
    case Take(id, user, approve, comment) =>
      if id !in e.requests then (e, Err(RequestNotFound))
      else
        var r := e.requests[id];
        if r.status != Pending then (e, Err(NotPending))
        else if r.flowID !in e.flows then (e, Err(FlowNotFound))
        else
          var d := Decide(r, e.flows[r.flowID], Decision(user, approve, comment, now));
          if d.Err? then (e, Err(d.error))
          else (e.(requests := e.requests[id := d.value.0], histories := Log(e.histories, id, d.value.1)), Ok(true))
    case Cancel(id, user) =>
      if id !in e.requests then (e, Err(RequestNotFound))
      else if e.requests[id].status != Pending then (e, Err(InvalidTransition))
      else (e.(requests := e.requests[id := e.requests[id].(status := Cancelled, updatedAt := now)],
               histories := Log(e.histories, id, Entry(now, CancelAction, user, "", "cancel approval request"))), Ok(true))
    case CheckTimeout(id) =>
      if id !in e.requests then (e, Err(RequestNotFound))
      else
        var r := e.requests[id];
        if r.status != Pending then (e, Ok(false))
        else if IsExpired(r, now) then
          (e.(requests := e.requests[id := r.(status := TimedOut, updatedAt := now)],
              histories := Log(e.histories, id, TimeoutEntry("", now))), Ok(true))
        else if r.flowID !in e.flows then (e, Err(FlowNotFound))
        else
          var f := e.flows[r.flowID];
          var (late, i, j) := TimedOutStep(r, f, now);
          if !late then (e, Ok(false))
          else (e.(requests := e.requests[id := RejectStep(r, j, now)],
                   histories := Log(e.histories, id, TimeoutEntry(f.steps[i].id, now))), Ok(true))
  }

  /** The pending work of a user: the rule of `ListPendingApprovals` for one request. */
  predicate AwaitsDecision(flows: map<string, Flow>, r: Request, user: string) {
    && r.status == Pending && r.flowID in flows
    && var f := flows[r.flowID];
       var i, j := FindStep(f.steps, r.currentStep), FindRequestStep(r.steps, r.currentStep);
       && i < |f.steps| && user in f.steps[i].approvers
       && j < |r.steps| && !HasDecided(r.steps[j].decisions, user)
       && (f.steps[i].mode == Sequential ==>
             var next := NextSequentialApprover(f.steps[i], r.steps[j].decisions);
             next == "" || next == user)
  }

  class Engine {
    var flows: map<string, Flow>
    var requests: map<string, Request>
    var histories: map<string, seq<Entry>>

    function Value(): Eng
      reads this
    {
      Eng(flows, requests, histories)
    }

    constructor ()
      ensures Value() == Eng(map[], map[], map[])
    {
      flows, requests, histories := map[], map[], map[];
    }

    method AddFlow(flow: Flow, now: Time) returns (res: Result<bool>)
      modifies this
      ensures (Value(), res) == Step(old(Value()), CreateFlow(flow), now)
    {
      var ok := Validate(flow);
      if !ok { return Err(FlowInvalid); }
      var cp := flow;
      if cp.createdAt == ZERO { cp := cp.(createdAt := now); }
      if cp.updatedAt == ZERO { cp := cp.(updatedAt := now); }
      if cp.id in flows { return Err(FlowExists); }
      flows := flows[cp.id := cp];
      return Ok(true);
    }

    method ReplaceFlow(flow: Flow, now: Time) returns (res: Result<bool>)
      modifies this
      ensures (Value(), res) == Step(old(Value()), UpdateFlow(flow), now)
    {
      var ok := Validate(flow);
      if !ok { return Err(FlowInvalid); }
      var cp := flow.(updatedAt := now);
      if cp.id !in flows { return Err(FlowNotFound); }
      cp := cp.(createdAt := flows[cp.id].createdAt);
      flows := flows[cp.id := cp];
      return Ok(true);
    }

    method RemoveFlow(id: string, now: Time) returns (res: Result<bool>)
      modifies this
      ensures (Value(), res) == Step(old(Value()), DeleteFlow(id), now)
    {
      if id !in flows { return Err(FlowNotFound); }
      flows := flows - {id};
      return Ok(true);
    }

    method SubmitRequest(req: Request, now: Time) returns (res: Result<bool>)
      modifies this
      ensures (Value(), res) == Step(old(Value()), Submit(req), now)
    {
      if !ValidRequest(req) { return Err(RequestInvalid); }
      if req.id in requests { return Err(RequestExists); }
      if req.flowID !in flows { return Err(FlowNotFound); }
      var flow := flows[req.flowID];
      if !flow.enabled { return Err(FlowDisabled); }
      var steps: seq<RequestStep> := [];
      for i := 0 to |flow.steps|
        invariant steps == Submitted(req, flow, now).steps[..i]
      {
        var s := RequestStep(flow.steps[i].id, flow.steps[i].order, Pending, [], ZERO);
        if s.order == 1 { s := s.(startedAt := now); }
        steps := steps + [s];
      }
      var cp := req.(status := Pending, currentStep := 1, steps := steps);
      if cp.createdAt == ZERO { cp := cp.(createdAt := now); }
      cp := cp.(updatedAt := now);
      requests := requests[cp.id := cp];
      assert steps == Submitted(req, flow, now).steps;
      assert AppendEntry([], SubmitEntry(req, now)) == [SubmitEntry(req, now)];
      histories := histories[cp.id := AppendEntry([], SubmitEntry(req, now))];
      return Ok(true);
    }

    /** Approve and reject. */
    method ApplyDecision(requestID: string, user: string, comment: string, approve: bool, now: Time)
      returns (res: Result<bool>)
      modifies this
      ensures (Value(), res) == Step(old(Value()), Take(requestID, user, approve, comment), now)
    {
      if requestID !in requests { return Err(RequestNotFound); }
      var req := requests[requestID];
      if req.status != Pending { return Err(NotPending); }
      if req.flowID !in flows { return Err(FlowNotFound); }
      var flow := flows[req.flowID];
      var valid := ValidateDecision(req, flow, user, now);
      if valid.Err? { return Err(valid.error); }
      var (i, j) := valid.value;
      var step, rs := flow.steps[i], req.steps[j];

      rs := rs.(decisions := rs.decisions + [Decision(user, approve, comment, now)]);
      req := req.(updatedAt := now);
      var entry := Entry(now, if approve then ApproveAction else RejectAction, user, step.id, comment);
      var (done, passed) := EvaluateStep(step, rs.decisions);
      if done {
        if passed {
          rs := rs.(status := Approved);
          req := req.(steps := req.steps[j := rs]);
          if step.order >= LastOrder(flow) {
            req := req.(status := Approved, currentStep := step.order + 1);
          } else {
            req := req.(currentStep := step.order + 1);
            var k := FindRequestStep(req.steps, req.currentStep);
            if k < |req.steps| {
              req := req.(steps := req.steps[k := req.steps[k].(startedAt := now)]);
            }
            entry := entry.(action := AdvanceAction,
                            comment := "step " + step.id + " approved, advance to next step");
          }
        } else {
          rs := rs.(status := Rejected);
          req := req.(status := Rejected, steps := req.steps[j := rs]);
        }
      } else {
        req := req.(steps := req.steps[j := rs]);
      }
      requests := requests[requestID := req];
      if requestID in histories {
        histories := histories[requestID := AppendEntry(histories[requestID], entry)];
      }
      return Ok(true);
    }

    method CancelRequest(requestID: string, user: string, now: Time) returns (res: Result<bool>)
      modifies this
      ensures (Value(), res) == Step(old(Value()), Cancel(requestID, user), now)
    {
      if requestID !in requests { return Err(RequestNotFound); }
      var req := requests[requestID];
      if req.status != Pending { return Err(InvalidTransition); }
      requests := requests[requestID := req.(status := Cancelled, updatedAt := now)];
      histories := Log(histories, requestID, Entry(now, CancelAction, user, "", "cancel approval request"));
      return Ok(true);
    }

    method PollTimeout(requestID: string, now: Time) returns (res: Result<bool>)
      modifies this
      ensures (Value(), res) == Step(old(Value()), CheckTimeout(requestID), now)
    {
      if requestID !in requests { return Err(RequestNotFound); }
      var req := requests[requestID];
      if req.status != Pending { return Ok(false); }
      if IsExpired(req, now) {
        requests := requests[requestID := req.(status := TimedOut, updatedAt := now)];
        histories := Log(histories, requestID, TimeoutEntry("", now));
        return Ok(true);
      }
      if req.flowID !in flows { return Err(FlowNotFound); }
      var flow := flows[req.flowID];
      var i := FindStep(flow.steps, req.currentStep);
      if i == |flow.steps| { return Ok(false); }
      var j := FindRequestStep(req.steps, req.currentStep);
      if j == |req.steps| { return Ok(false); }
      if !StepExpired(flow.steps[i], req.steps[j], now) { return Ok(false); }
      var rs := req.steps[j].(status := Rejected);
      requests := requests[requestID := req.(status := Rejected, updatedAt := now, steps := req.steps[j := rs])];
      histories := Log(histories, requestID, TimeoutEntry(flow.steps[i].id, now));
      return Ok(true);
    }

    /** The ids of the requests waiting for `user`, each once, oldest request first. */
    method ListPendingApprovals(user: string) returns (ids: seq<string>)
      ensures forall id :: id in ids <==> id in requests && AwaitsDecision(flows, requests[id], user)
      ensures OldestFirst(CreationTimes(requests), ids) && |ids| == |WaitingIDs(flows, requests, user)|
    {
      ids := ListByCreation(CreationTimes(requests), WaitingIDs(flows, requests, user));
    }
  }

  function WaitingIDs(flows: map<string, Flow>, requests: map<string, Request>, user: string): set<string> {
    set id | id in requests && AwaitsDecision(flows, requests[id], user)
  }

  function CreationTimes(requests: map<string, Request>): map<string, Time> {
    map id | id in requests :: requests[id].createdAt
  }

  predicate OldestFirst(created: map<string, Time>, ids: seq<string>) {
    (forall id | id in ids :: id in created) && Ascends(TimesOf(created, ids))
  }

  method ListByCreation(created: map<string, Time>, waiting: set<string>) returns (ids: seq<string>)
    requires waiting <= created.Keys
    ensures OldestFirst(created, ids) && |ids| == |waiting|
    ensures forall id :: id in ids <==> id in waiting
  {
    ids := [];
    var todo := waiting;
    while todo != {}
      invariant todo <= waiting
      invariant OldestFirst(created, ids) && |ids| == |waiting - todo|
      invariant forall id :: id in ids <==> id in waiting - todo
      decreases todo
    {
      var id :| id in todo;
      assert waiting - (todo - {id}) == waiting - todo + {id};
      todo := todo - {id};
      ids := InsertByCreation(created, ids, id);
    }
    assert waiting - {} == waiting;
  }

  method InsertByCreation(created: map<string, Time>, ids: seq<string>, id: string) returns (more: seq<string>)
    requires OldestFirst(created, ids) && id in created
    ensures OldestFirst(created, more) && |more| == |ids| + 1
    ensures forall x :: x in more <==> x in ids || x == id
  {
    var k := |ids|;
    while k > 0 && created[ids[k-1]] > created[id]
      invariant 0 <= k <= |ids|
      invariant k < |ids| ==> created[ids[k]] > created[id]
    {
      k := k - 1;
    }
    InsertedElements(ids, k, id);
    InsertedInOrder(created, ids, k, id);
    more := ids[..k] + [id] + ids[k..];
  }

  lemma InsertedElements(ids: seq<string>, k: nat, id: string)
    requires k <= |ids|
    ensures forall x :: x in ids[..k] + [id] + ids[k..] <==> x in ids || x == id
  {
    assert ids == ids[..k] + ids[k..];
  }

  predicate Ascends(ts: seq<Time>) {
    forall i, j | 0 <= i < j < |ts| :: ts[i] <= ts[j]
  }

  lemma InsertedTimes(ts: seq<Time>, k: nat, t: Time)
    requires Ascends(ts) && k <= |ts|
    requires k > 0 ==> ts[k-1] <= t
    requires k < |ts| ==> ts[k] > t
    ensures Ascends(ts[..k] + [t] + ts[k..])
  {
  }

  function TimesOf(created: map<string, Time>, ids: seq<string>): seq<Time>
    requires forall id | id in ids :: id in created
  {
    seq(|ids|, i requires 0 <= i < |ids| => created[ids[i]])
  }

  lemma InsertedInOrder(created: map<string, Time>, ids: seq<string>, k: nat, id: string)
    requires OldestFirst(created, ids) && id in created && k <= |ids|
    requires k > 0 ==> created[ids[k-1]] <= created[id]
    requires k < |ids| ==> created[ids[k]] > created[id]
    ensures OldestFirst(created, ids[..k] + [id] + ids[k..])
  {
    var more := ids[..k] + [id] + ids[k..];
    InsertedElements(ids, k, id);
    var ts := TimesOf(created, ids);
    InsertedTimes(ts, k, created[id]);
    assert TimesOf(created, more) == ts[..k] + [created[id]] + ts[k..];
  }
}
