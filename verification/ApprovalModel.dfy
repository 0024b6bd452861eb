/** The data and the pure state machine of internal/approval: flow.go, request.go,
    history.go and state_machine.go. */
module ApprovalModel {

  /** Instants and durations are integers; 0 is Go's zero time. */
  type Time = int
  const ZERO: Time := 0

  datatype StepMode = Sequential | Countersign | AnyOf | OtherMode(name: string)
  datatype FlowStep = FlowStep(id: string, name: string, order: int, mode: StepMode,
                               approvers: seq<string>, timeout: int)
  datatype Flow = Flow(id: string, name: string, tenantID: string, triggerType: string,
                       steps: seq<FlowStep>, enabled: bool, createdAt: Time, updatedAt: Time)

  datatype Status = Pending | Approved | Rejected | TimedOut | Cancelled | OtherStatus(name: string)
  datatype Decision = Decision(userID: string, approve: bool, comment: string, timestamp: Time)
  datatype RequestStep = RequestStep(stepID: string, order: int, status: Status,
                                     decisions: seq<Decision>, startedAt: Time)
  datatype Request = Request(id: string, flowID: string, tenantID: string, triggerType: string,
                             operator: string, target: string, detail: string, risk: string,
                             status: Status, currentStep: int, steps: seq<RequestStep>,
                             createdAt: Time, updatedAt: Time, expireAt: Time)

  datatype Action = SubmitAction | ApproveAction | RejectAction | CancelAction | TimeoutAction | AdvanceAction
  datatype Entry = Entry(timestamp: Time, action: Action, userID: string, stepID: string, comment: string)

  datatype Error =
    | FlowNotFound | FlowExists | FlowDisabled | FlowInvalid
    | RequestNotFound | RequestExists | RequestInvalid
    | InvalidTransition | NotPending | RequestExpired | StepNotActive
    | NotApprover | StepAlreadyDecided | OutOfOrder

  datatype Result<+T> = Ok(value: T) | Err(error: Error)

  // ------------------------------------------------------------------ flows

  /** Ascending orders, as the code checks them: the documentation says "contiguous
      from 1", which is not checked (see `Contiguous`). */
  ghost predicate ValidSteps(steps: seq<FlowStep>) {
    && (forall i | 0 <= i < |steps| ::
          && steps[i].id != "" && steps[i].order >= 1
          && !steps[i].mode.OtherMode? && steps[i].approvers != [])
    && (forall i, j | 0 <= i < j < |steps| :: steps[i].order < steps[j].order)
    && (forall i, j | 0 <= i < j < |steps| :: steps[i].id != steps[j].id)
  }

  ghost predicate ValidFlow(f: Flow) {
    && f.id != "" && f.name != "" && f.tenantID != "" && f.triggerType != ""
    && f.steps != [] && ValidSteps(f.steps)
  }

  method Validate(f: Flow) returns (ok: bool)
    ensures ok <==> ValidFlow(f)
  {
    if f.id == "" || f.name == "" || f.tenantID == "" || f.triggerType == "" || |f.steps| == 0 {
      return false;
    }
    var seenOrder: set<int> := {};
    var seenID: set<string> := {};
    for i := 0 to |f.steps|
      invariant ValidSteps(f.steps[..i])
      invariant forall o :: o in seenOrder <==> exists k :: 0 <= k < i && f.steps[k].order == o
      invariant forall d :: d in seenID <==> exists k :: 0 <= k < i && f.steps[k].id == d
    {
      var s := f.steps[i];
      if s.id == "" || s.id in seenID {
        return false;
      }
      seenID := seenID + {s.id};
      if s.order <= 0 || s.order in seenOrder {
        return false;
      }
      seenOrder := seenOrder + {s.order};
      if s.mode.OtherMode? || |s.approvers| == 0 {
        return false;
      }
      if i > 0 && f.steps[i-1].order >= s.order {
        return false;
      }
    }
    assert f.steps[..|f.steps|] == f.steps;
    return true;
  }

  /** The position of the step with the given order, or |steps| when there is none. */
  function FindStep(steps: seq<FlowStep>, order: int): (k: nat)
    ensures k <= |steps|
    ensures k < |steps| ==> steps[k].order == order
    ensures forall i | 0 <= i < k :: steps[i].order != order
  {
    if steps == [] then 0
    else if steps[0].order == order then 0
    else
      var k := FindStep(steps[1..], order);
      assert forall i | 1 <= i < k + 1 :: steps[i] == steps[1..][i-1];
      k + 1
  }

  /** The same for a request's steps: the source looks each kind up in its own file. */
  function FindRequestStep(steps: seq<RequestStep>, order: int): (k: nat)
    ensures k <= |steps|
    ensures k < |steps| ==> steps[k].order == order
    ensures forall i | 0 <= i < k :: steps[i].order != order
  {
    if steps == [] then 0
    else if steps[0].order == order then 0
    else
      var k := FindRequestStep(steps[1..], order);
      assert forall i | 1 <= i < k + 1 :: steps[i] == steps[1..][i-1];
      k + 1
  }

  function LastOrder(f: Flow): int {
    if f.steps == [] then 0 else f.steps[|f.steps|-1].order
  }

  // --------------------------------------------------------- state machine

  predicate IsTerminal(s: Status) {
    s.Approved? || s.Rejected? || s.TimedOut? || s.Cancelled?
  }

  predicate CanTransition(from: Status, to: Status) {
    from != to && from == Pending && IsTerminal(to)
  }

  function Deciders(ds: seq<Decision>): seq<string> {
    seq(|ds|, i requires 0 <= i < |ds| => ds[i].userID)
  }

  predicate HasDecided(ds: seq<Decision>, user: string) {
    exists i :: 0 <= i < |ds| && ds[i].userID == user
  }

  /** The approver whose turn it is, "" when all have had theirs. */
  function NextSequentialApprover(step: FlowStep, ds: seq<Decision>): string {
    if |ds| >= |step.approvers| then "" else step.approvers[|ds|]
  }

  predicate HasReject(ds: seq<Decision>) {
    exists i :: 0 <= i < |ds| && !ds[i].approve
  }

  /** (done, passed) */
  function EvaluateStep(step: FlowStep, ds: seq<Decision>): (bool, bool) {
    match step.mode
    case Sequential | Countersign =>
      if HasReject(ds) then (true, false)
      else if |ds| >= |step.approvers| then (true, true)
      else (false, false)
    case AnyOf =>
      if ds == [] then (false, false) else (true, ds[0].approve)
    case OtherMode(_) => (false, false)
  }

  predicate StepExpired(step: FlowStep, rs: RequestStep, now: Time) {
    step.timeout > 0 && rs.startedAt != ZERO && now - rs.startedAt > step.timeout
  }

  predicate IsExpired(r: Request, now: Time) {
    r.expireAt != ZERO && now > r.expireAt
  }

  /** Whether a decision by `user` may be taken now, and the positions of the current step
      in the flow and in the request. */
  function ValidateDecision(r: Request, f: Flow, user: string, now: Time): (v: Result<(nat, nat)>)
    ensures v.Ok? ==> v.value.0 == FindStep(f.steps, r.currentStep) < |f.steps|
    ensures v.Ok? ==> v.value.1 == FindRequestStep(r.steps, r.currentStep) < |r.steps|
  {
    if r.status != Pending then Err(NotPending)
    else if IsExpired(r, now) then Err(RequestExpired)
    else
      var i, j := FindStep(f.steps, r.currentStep), FindRequestStep(r.steps, r.currentStep);
      if i == |f.steps| || j == |r.steps| then Err(StepNotActive)
      else
        var step, ds := f.steps[i], r.steps[j].decisions;
        if user !in step.approvers then Err(NotApprover)
        else if HasDecided(ds, user) then Err(StepAlreadyDecided)
        else if step.mode == Sequential && NextSequentialApprover(step, ds) != ""
                && NextSequentialApprover(step, ds) != user then Err(OutOfOrder)
        else Ok((i, j))
  }

  /** A valid decision recorded: the new request and its history entry. */
  function Record(r: Request, f: Flow, i: nat, j: nat, d: Decision): (Request, Entry)
    requires i < |f.steps| && j < |r.steps|
  {
    var step := f.steps[i];
    var rs := r.steps[j].(decisions := r.steps[j].decisions + [d]);
    var touched := r.(updatedAt := d.timestamp);
    var entry := Entry(d.timestamp, if d.approve then ApproveAction else RejectAction, d.userID, step.id, d.comment);
    var (done, passed) := EvaluateStep(step, rs.decisions);
    if !done then (touched.(steps := r.steps[j := rs]), entry)
    else if !passed then
      (touched.(status := Rejected, steps := r.steps[j := rs.(status := Rejected)]), entry)
    else
      var steps := r.steps[j := rs.(status := Approved)];
      var next := step.order + 1;
      if step.order >= LastOrder(f) then
        (touched.(status := Approved, currentStep := next, steps := steps), entry)
      else
        (touched.(currentStep := next, steps := StartStep(steps, next, d.timestamp)),
         entry.(action := AdvanceAction, comment := "step " + step.id + " approved, advance to next step"))
  }

  function StartStep(steps: seq<RequestStep>, order: int, now: Time): (r: seq<RequestStep>)
    ensures |r| == |steps|
    ensures forall k | 0 <= k < |r| :: r[k].(startedAt := steps[k].startedAt) == steps[k]
  {
    var k := FindRequestStep(steps, order);
    if k < |steps| then steps[k := steps[k].(startedAt := now)] else steps
  }

  function Decide(r: Request, f: Flow, d: Decision): Result<(Request, Entry)> {
    match ValidateDecision(r, f, d.userID, d.timestamp)
    case Err(e) => Err(e)
    case Ok((i, j)) => Ok(Record(r, f, i, j, d))
  }

  /** The request as `Submit` stores it. */
  function Submitted(r: Request, f: Flow, now: Time): Request {
    r.(status := Pending, currentStep := 1,
       steps := seq(|f.steps|, i requires 0 <= i < |f.steps| =>
                  RequestStep(f.steps[i].id, f.steps[i].order, Pending, [],
                              if f.steps[i].order == 1 then now else ZERO)),
       createdAt := if r.createdAt == ZERO then now else r.createdAt,
       updatedAt := now)
  }

  predicate ValidRequest(r: Request) {
    && r.id != "" && r.flowID != "" && r.tenantID != "" && r.triggerType != "" && r.operator != ""
    && (r.status == OtherStatus("") || !r.status.OtherStatus?)
  }

  // ---------------------------------------------------------------- history

  ghost predicate InTimeOrder(tl: seq<Entry>) {
    forall i, j | 0 <= i < j < |tl| :: tl[i].timestamp <= tl[j].timestamp
  }

  /** How many entries stay in front of a new one with time `t`. */
  function Slot(tl: seq<Entry>, t: Time): (k: nat)
    ensures k <= |tl|
    ensures k > 0 ==> tl[k-1].timestamp <= t
    ensures forall i | k <= i < |tl| :: tl[i].timestamp > t
  {
    if tl == [] || tl[|tl|-1].timestamp <= t then |tl| else Slot(tl[..|tl|-1], t)
  }

  /** Appending and then sorting stably by time, on a timeline that is in order already. */
  function AppendEntry(tl: seq<Entry>, e: Entry): seq<Entry> {
    var k := Slot(tl, e.timestamp);
    tl[..k] + [e] + tl[k..]
  }

  lemma InsertKeepsTimeOrder(tl: seq<Entry>, k: nat, e: Entry)
    requires InTimeOrder(tl) && k <= |tl|
    requires k > 0 ==> tl[k-1].timestamp <= e.timestamp
    requires k < |tl| ==> tl[k].timestamp > e.timestamp
    ensures InTimeOrder(tl[..k] + [e] + tl[k..])
    ensures forall i | 0 <= i < |tl| :: i < k <==> tl[i].timestamp <= e.timestamp
  {
    var r := tl[..k] + [e] + tl[k..];
    forall i, j | 0 <= i < j < |r| ensures r[i].timestamp <= r[j].timestamp {
      assert i < k ==> r[i] == tl[i];
      assert i > k ==> r[i] == tl[i-1];
      assert j < k ==> r[j] == tl[j];
      assert j > k ==> r[j] == tl[j-1];
    }
  }

  /** The timeline stays in time order, and the new entry sits behind every entry of the
      same time. */
  lemma AppendKeepsTimeOrder(tl: seq<Entry>, e: Entry)
    requires InTimeOrder(tl)
    ensures InTimeOrder(AppendEntry(tl, e))
    ensures forall i | 0 <= i < |tl| :: i < Slot(tl, e.timestamp) <==> tl[i].timestamp <= e.timestamp
  {
    InsertKeepsTimeOrder(tl, Slot(tl, e.timestamp), e);
  }

  lemma InsertKeepsEntries(tl: seq<Entry>, k: nat, e: Entry)
    requires k <= |tl|
    ensures var r := tl[..k] + [e] + tl[k..];
            multiset(r) == multiset(tl) + multiset{e} && r[..k] + r[k+1..] == tl && r[k] == e
  {
    var r := tl[..k] + [e] + tl[k..];
    assert tl == tl[..k] + tl[k..];
    assert r[..k] == tl[..k] && r[k+1..] == tl[k..];
  }

  /** Nothing is lost and the older entries keep their order. */
  lemma AppendKeepsEntries(tl: seq<Entry>, e: Entry)
    ensures var r, k := AppendEntry(tl, e), Slot(tl, e.timestamp);
            && multiset(r) == multiset(tl) + multiset{e}
            && r[..k] + r[k+1..] == tl && r[k] == e
  {
    InsertKeepsEntries(tl, Slot(tl, e.timestamp), e);
  }
}
