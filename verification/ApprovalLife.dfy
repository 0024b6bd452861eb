/** What a change of a flow means for a request in progress: the request and its history
    over the rest of its life, under the old flow and under the new one. */
module ApprovalLife {
  import opened Basics
  import opened ApprovalModel
  import opened ApprovalEngine
  import opened ApprovalSafety
  import opened ApprovalProgress
  import opened ApprovalReach
  import opened ApprovalFlows
  import opened ApprovalTurns

  // ------------------------------------------------------- a request's life

  /** A request with its history. */
  datatype Case = Case(r: Request, log: seq<Entry>)

  datatype Act = Decides(d: Decision) | Polls(now: Time) | Cancels(user: string, now: Time)

  function TimeOf(a: Act): Time {
    match a case Decides(d) => d.timestamp case Polls(t) => t case Cancels(_, t) => t
  }

  /** What an act does when `f` is the live flow. */
  function ActOn(c: Case, f: Flow, a: Act): Case {
    match a
    case Decides(d) =>
      (match Decide(c.r, f, d)
       case Err(_) => c
       case Ok((r, entry)) => Case(r, AppendEntry(c.log, entry)))
    case Polls(now) =>
      if c.r.status != Pending then c
      else if IsExpired(c.r, now) then
        Case(c.r.(status := TimedOut, updatedAt := now), AppendEntry(c.log, TimeoutEntry("", now)))
      else
        var (late, i, j) := TimedOutStep(c.r, f, now);
        if late then Case(RejectStep(c.r, j, now), AppendEntry(c.log, TimeoutEntry(f.steps[i].id, now))) else c
    case Cancels(user, now) =>
      if c.r.status != Pending then c
      else Case(c.r.(status := Cancelled, updatedAt := now),
                AppendEntry(c.log, Entry(now, CancelAction, user, "", "cancel approval request")))
  }

  function Life(c: Case, f: Flow, acts: seq<Act>): Case
    decreases |acts|
  {
    if acts == [] then c else Life(ActOn(c, f, acts[0]), f, acts[1..])
  }

  /** The acts happen in this order, none before `now`. */
  predicate InOrder(acts: seq<Act>, now: Time) {
    acts == [] || (TimeOf(acts[0]) >= now && InOrder(acts[1..], TimeOf(acts[0])))
  }

  /** From now on nobody will see a difference between the two flows. */
  ghost predicate SameLife(c: Case, f: Flow, g: Flow, now: Time) {
    forall acts | InOrder(acts, now) :: Life(c, f, acts) == Life(c, g, acts)
  }

  // ---------------------------------------------------------- the condition

  function SlotFor(step: FlowStep, i: nat): Seat
    requires i < |step.approvers|
  {
    if step.mode == Sequential && step.approvers[i] != "" then Only(step.approvers[i]) else Anyone
  }

  /** The decisions a step still needs when `us` have approved. */
  function StepPlan(step: FlowStep, us: seq<string>): Plan {
    var n, k := |step.approvers|, |us|;
    Plan(Elements(step.approvers) - Elements(us),
         if step.mode == AnyOf || k >= n then [Anyone]
         else seq(n - k, i requires 0 <= i < n - k => SlotFor(step, k + i)))
  }

  /** The same for the step with order `k`, if the request, whose steps have these orders,
      knows it as well as the flow. */
  function PlanAt(orders: set<int>, steps: seq<FlowStep>, k: int, us: seq<string>): Plan {
    var i := FindStep(steps, k);
    if i < |steps| && k in orders then StepPlan(steps[i], us) else Plan({}, [])
  }

  function LastOf(steps: seq<FlowStep>): int {
    if steps == [] then 0 else steps[|steps|-1].order
  }

  function IdAt(steps: seq<FlowStep>, k: int): string {
    var i := FindStep(steps, k);
    if i < |steps| then steps[i].id else ""
  }

  /** An any-of step that already has decisions: the next one passes it, even a rejection. */
  predicate Lenient(steps: seq<FlowStep>, k: int, us: seq<string>) {
    var i := FindStep(steps, k);
    i < |steps| && steps[i].mode == AnyOf && us != []
  }

  datatype Deadline = Never | At(time: Time)

  /** The first moment, not before `now`, at which a poll finds the step too late, unless the
      request expires first. */
  function LateFrom(orders: set<int>, steps: seq<FlowStep>, k: int, started: Time, now: Time, expireAt: Time): Deadline {
    var i := FindStep(steps, k);
    if i == |steps| || k !in orders || steps[i].timeout <= 0 || started == ZERO then Never
    else
      var t := started + steps[i].timeout + 1;
      var late := if t < now then now else t;
      if expireAt != ZERO && late > expireAt then Never else At(late)
  }

  /** The two flows have the step with order `k` in common as far as anyone can tell. */
  ghost predicate SameAt(orders: set<int>, f: seq<FlowStep>, g: seq<FlowStep>, k: int, us: seq<string>,
                         started: Time, now: Time, expireAt: Time) {
    var p, q := PlanAt(orders, f, k, us), PlanAt(orders, g, k, us);
    var late := LateFrom(orders, f, k, started, now, expireAt);
    && CourseOf(p) == CourseOf(q)
    && late == LateFrom(orders, g, k, started, now, expireAt)
    && (Turn(p) != {} || late != Never ==> IdAt(f, k) == IdAt(g, k))
    && (Turn(p) != {} ==> Lenient(f, k, us) == Lenient(g, k, us))
  }

  /** And so for all steps that can be reached: if this one can be passed, it is or is not
      the last one in both, and then the next one must agree as well. */
  ghost predicate SameFrom(orders: set<int>, f: seq<FlowStep>, g: seq<FlowStep>, k: int, us: seq<string>,
                           started: Time, now: Time, expireAt: Time)
    decreases LastOf(f) - k
  {
    && SameAt(orders, f, g, k, us, started, now, expireAt)
    && (CourseOf(PlanAt(orders, f, k, us)).done ==>
          && (k >= LastOf(f) <==> k >= LastOf(g))
          && (k < LastOf(f) ==> SameFrom(orders, f, g, k + 1, [], now, now, expireAt)))
  }

  function Orders(r: Request): set<int> {
    set i | 0 <= i < |r.steps| :: r.steps[i].order
  }

  function UsersAt(r: Request): seq<string> {
    var j := FindRequestStep(r.steps, r.currentStep);
    if j < |r.steps| then Deciders(r.steps[j].decisions) else []
  }

  function StartedAt(r: Request): Time {
    var j := FindRequestStep(r.steps, r.currentStep);
    if j < |r.steps| then r.steps[j].startedAt else ZERO
  }

  /** The condition on a request: it is over or expired, or the steps ahead of it agree. */
  ghost predicate SameFuture(r: Request, f: seq<FlowStep>, g: seq<FlowStep>, now: Time) {
    r.status != Pending || IsExpired(r, now)
    || SameFrom(Orders(r), f, g, r.currentStep, UsersAt(r), StartedAt(r), now, r.expireAt)
  }

  function PlanOf(r: Request, f: Flow): Plan {
    PlanAt(Orders(r), f.steps, r.currentStep, UsersAt(r))
  }

  // -------------------------------------------------- decisions and polls

  lemma KnownIffFound(r: Request, k: int)
    ensures k in Orders(r) <==> FindRequestStep(r.steps, k) < |r.steps|
  {
  }

  lemma HasDecidedIff(ds: seq<Decision>, u: string)
    ensures HasDecided(ds, u) <==> u in Elements(Deciders(ds))
  {
    if HasDecided(ds, u) {
      var i :| 0 <= i < |ds| && ds[i].userID == u;
      assert Deciders(ds)[i] == u;
    }
  }

  lemma FirstSlot(step: FlowStep, us: seq<string>)
    ensures var p := StepPlan(step, us);
            p.slots != [] && p.slots[0] ==
              if step.mode != Sequential || |us| >= |step.approvers| || step.approvers[|us|] == ""
              then Anyone else Only(step.approvers[|us|])
  {
    if step.mode != AnyOf && |us| < |step.approvers| {
      assert StepPlan(step, us).slots[0] == SlotFor(step, |us| + 0);
    }
  }

  /** The plan has the turn of those who may decide. */
  lemma TurnIsEntitled(r: Request, f: Flow, u: string)
    requires r.status == Pending
    ensures u in Turn(PlanOf(r, f)) <==> Entitled(r, f, u)
  {
    var i, j := FindStep(f.steps, r.currentStep), FindRequestStep(r.steps, r.currentStep);
    KnownIffFound(r, r.currentStep);
    if i < |f.steps| && j < |r.steps| {
      var step, ds := f.steps[i], r.steps[j].decisions;
      HasDecidedIff(ds, u);
      assert UsersAt(r) == Deciders(ds) && |Deciders(ds)| == |ds|;
      FirstSlot(step, Deciders(ds));
      assert u in Elements(step.approvers) <==> u in step.approvers;
    }
  }

  /** How a step stands after one more decision, when all so far were approvals. */
  lemma VerdictIs(step: FlowStep, ds: seq<Decision>, d: Decision)
    requires !step.mode.OtherMode? && forall i | 0 <= i < |ds| :: ds[i].approve
    ensures EvaluateStep(step, ds + [d]) ==
              if step.mode == AnyOf && ds != [] then (true, true)
              else if !d.approve then (true, false)
              else (|StepPlan(step, Deciders(ds)).slots| == 1, |StepPlan(step, Deciders(ds)).slots| == 1)
  {
    var more := ds + [d];
    assert more[|ds|] == d;
    assert forall i | 0 <= i < |ds| :: more[i] == ds[i];
    if step.mode == AnyOf && ds != [] { assert more[0] == ds[0]; }
  }

  /** One more approval leaves the rest of the plan. */
  lemma PlanGoesOn(step: FlowStep, us: seq<string>, u: string)
    requires |StepPlan(step, us).slots| > 1
    ensures StepPlan(step, us + [u]) == After(StepPlan(step, us), u)
    ensures step.mode != AnyOf
  {
    assert Elements(us + [u]) == Elements(us) + {u};
    var p, q := StepPlan(step, us), StepPlan(step, us + [u]);
    assert q.people == p.people - {u};
    assert q.slots == p.slots[1..];
  }

  lemma LastAgrees(f: Flow)
    ensures LastOrder(f) == LastOf(f.steps)
  {
  }

  /** The step whose turn it is in a good request: found in both places, open, all approvals
      so far, and not lenient. */
  lemma CurrentStep(r: Request, f: Flow, u: string)
    requires Good(r, f) && Entitled(r, f, u)
    ensures Active(r, f) && FindStep(f.steps, r.currentStep) == FindRequestStep(r.steps, r.currentStep) == Passed(r)
    ensures var step, ds := f.steps[Passed(r)], r.steps[Passed(r)].decisions;
            && !step.mode.OtherMode? && SoFar(step, ds) && (step.mode == AnyOf ==> ds == [])
            && UsersAt(r) == Deciders(ds) && PlanOf(r, f) == StepPlan(step, UsersAt(r))
            && !Lenient(f.steps, r.currentStep, UsersAt(r))
  {
    FindCurrent(r, f);
    KnownIffFound(r, r.currentStep);
  }

  lemma VerdictOfPlan(r: Request, f: Flow, j: nat, approve: bool)
    requires FindStep(f.steps, r.currentStep) < |f.steps| && ValidSteps(f.steps)
    requires j == FindRequestStep(r.steps, r.currentStep) < |r.steps|
    requires forall i | 0 <= i < |r.steps[j].decisions| :: r.steps[j].decisions[i].approve
    ensures Verdict(r, f, approve) ==
              if Lenient(f.steps, r.currentStep, UsersAt(r)) then (true, true)
              else if !approve then (true, false)
              else (|PlanOf(r, f).slots| == 1, |PlanOf(r, f).slots| == 1)
  {
    KnownIffFound(r, r.currentStep);
    VerdictIs(f.steps[FindStep(f.steps, r.currentStep)], r.steps[j].decisions, Decision("", approve, "", ZERO));
  }

  lemma SingleSlotIsDone(p: Plan)
    requires |p.slots| == 1 && Turn(p) != {}
    ensures CourseOf(p).done
  {
    assert Reach(p) == 1;
  }

  lemma SameSlots(p: Plan, q: Plan)
    requires CourseOf(p) == CourseOf(q)
    ensures Turn(p) == Turn(q)
    ensures Turn(p) != {} ==> (|p.slots| == 1 <==> |q.slots| == 1)
  {
    AlikeIffSameCourse(p, q);
  }

  /** A decision is refused under both flows, or recorded alike. */
  lemma DecisionUnnoticed(r: Request, f: Flow, g: Flow, now: Time, d: Decision)
    requires Good(r, f) && ValidSteps(g.steps) && SameFuture(r, f.steps, g.steps, now) && d.timestamp >= now
    ensures SameOutcome(r, f, g, d)
  {
    AcceptedIffEntitled(r, f, d);
    AcceptedIffEntitled(r, g, d);
    if r.status == Pending && !IsExpired(r, d.timestamp) {
      var p, q := PlanOf(r, f), PlanOf(r, g);
      SameSlots(p, q);
      TurnIsEntitled(r, f, d.userID);
      TurnIsEntitled(r, g, d.userID);
      if Entitled(r, f, d.userID) {
        CurrentStep(r, f, d.userID);
        var j := FindRequestStep(r.steps, r.currentStep);
        VerdictOfPlan(r, f, j, d.approve);
        VerdictOfPlan(r, g, j, d.approve);
        if |p.slots| == 1 { SingleSlotIsDone(p); }
        LastAgrees(f);
        LastAgrees(g);
        RecordDependsOnTurn(r, f, g, d);
      }
    }
  }

  lemma LateIff(r: Request, f: Flow, now: Time, t: Time)
    requires t >= now && !IsExpired(r, t)
    ensures var late := LateFrom(Orders(r), f.steps, r.currentStep, StartedAt(r), now, r.expireAt);
            TimedOutStep(r, f, t).0 <==> late.At? && late.time <= t
  {
    KnownIffFound(r, r.currentStep);
  }

  lemma PollUnnoticed(c: Case, f: Flow, g: Flow, now: Time, t: Time)
    requires SameFuture(c.r, f.steps, g.steps, now) && t >= now
    ensures ActOn(c, f, Polls(t)) == ActOn(c, g, Polls(t))
  {
    if c.r.status == Pending && !IsExpired(c.r, t) {
      LateIff(c.r, f, now, t);
      LateIff(c.r, g, now, t);
    }
  }

  lemma ActUnnoticed(c: Case, f: Flow, g: Flow, now: Time, a: Act)
    requires Good(c.r, f) && ValidSteps(g.steps) && SameFuture(c.r, f.steps, g.steps, now) && TimeOf(a) >= now
    ensures ActOn(c, f, a) == ActOn(c, g, a)
  {
    match a {
      case Decides(d) => DecisionUnnoticed(c.r, f, g, now, d);
      case Polls(t) => PollUnnoticed(c, f, g, now, t);
      case Cancels(_, _) =>
    }
  }

  // --------------------------------------------- the condition lives on

  lemma LateLater(orders: set<int>, f: seq<FlowStep>, g: seq<FlowStep>, k: int, started: Time, now: Time,
                  restarted: Time, t: Time, expireAt: Time)
    requires t >= now > ZERO && (restarted == started || (started == now && restarted == t))
    requires LateFrom(orders, f, k, started, now, expireAt) == LateFrom(orders, g, k, started, now, expireAt)
    ensures LateFrom(orders, f, k, restarted, t, expireAt) == LateFrom(orders, g, k, restarted, t, expireAt)
    ensures LateFrom(orders, f, k, restarted, t, expireAt).At? ==> LateFrom(orders, f, k, started, now, expireAt).At?
  {
  }

  /** Time passes, and a step starts later than now. */
  lemma {:induction false} SameFromLater(orders: set<int>, f: seq<FlowStep>, g: seq<FlowStep>, k: int, us: seq<string>,
                                         started: Time, now: Time, restarted: Time, t: Time, expireAt: Time)
    requires t >= now > ZERO && (restarted == started || (started == now && restarted == t))
    requires SameFrom(orders, f, g, k, us, started, now, expireAt)
    ensures SameFrom(orders, f, g, k, us, restarted, t, expireAt)
    decreases LastOf(f) - k
  {
    LateLater(orders, f, g, k, started, now, restarted, t, expireAt);
    if CourseOf(PlanAt(orders, f, k, us)).done && k < LastOf(f) {
      SameFromLater(orders, f, g, k + 1, [], now, now, t, t, expireAt);
    }
  }

  lemma FindSame(a: seq<RequestStep>, b: seq<RequestStep>, k: int)
    requires |a| == |b| && forall i | 0 <= i < |a| :: a[i].order == b[i].order
    ensures FindRequestStep(a, k) == FindRequestStep(b, k)
    ensures (set i | 0 <= i < |a| :: a[i].order) == (set i | 0 <= i < |b| :: b[i].order)
  {
    assert forall i | 0 <= i < |a| :: a[i].order == b[i].order;
  }

  /** After an approval that leaves the step open. */
  lemma RecordStays(r: Request, f: Flow, i: nat, j: nat, d: Decision)
    requires i < |f.steps| && j == FindRequestStep(r.steps, r.currentStep) < |r.steps|
    requires EvaluateStep(f.steps[i], r.steps[j].decisions + [d]) == (false, false)
    ensures var r' := Record(r, f, i, j, d).0;
            && r'.status == r.status && r'.currentStep == r.currentStep && r'.expireAt == r.expireAt
            && Orders(r') == Orders(r) && UsersAt(r') == UsersAt(r) + [d.userID] && StartedAt(r') == StartedAt(r)
  {
    var r' := Record(r, f, i, j, d).0;
    FindSame(r.steps, r'.steps, r.currentStep);
    assert Deciders(r.steps[j].decisions + [d]) == Deciders(r.steps[j].decisions) + [d.userID];
  }

  /** After an approval that passes a step which is not the last one. */
  lemma RecordAdvances(r: Request, f: Flow, j: nat, d: Decision)
    requires Good(r, f) && r.status == Pending && Active(r, f) && j == Passed(r)
    requires EvaluateStep(f.steps[j], r.steps[j].decisions + [d]) == (true, true) && r.currentStep < LastOrder(f)
    ensures var r' := Record(r, f, j, j, d).0;
            && r'.status == Pending && r'.currentStep == r.currentStep + 1 && r'.expireAt == r.expireAt
            && Orders(r') == Orders(r) && UsersAt(r') == []
            && (r.currentStep + 1 in Orders(r) ==> StartedAt(r') == d.timestamp)
  {
    var r' := Record(r, f, j, j, d).0;
    var steps := r.steps[j := r.steps[j].(decisions := r.steps[j].decisions + [d], status := Approved)];
    assert r'.steps == StartStep(steps, r.currentStep + 1, d.timestamp);
    FindSame(steps, r.steps, r.currentStep + 1);
    FindSame(steps, r'.steps, r.currentStep + 1);
    KnownIffFound(r, r.currentStep + 1);
    var k := FindRequestStep(steps, r.currentStep + 1);
    if k < |steps| {
      NextIsUntouched(r, f, k);
      assert k != j && steps[k] == r.steps[k];
    }
  }

  lemma NextIsUntouched(r: Request, f: Flow, k: nat)
    requires Good(r, f) && Active(r, f) && k < |r.steps| && r.steps[k].order == r.currentStep + 1
    ensures k > Passed(r) && r.steps[k].decisions == []
  {
    assert f.steps[k].order == r.currentStep + 1;
  }

  lemma PlanAfter(r: Request, f: Flow, u: string)
    requires r.status == Pending && |PlanOf(r, f).slots| > 1
    ensures PlanAt(Orders(r), f.steps, r.currentStep, UsersAt(r) + [u]) == After(PlanOf(r, f), u)
    ensures !Lenient(f.steps, r.currentStep, UsersAt(r) + [u])
  {
    var i := FindStep(f.steps, r.currentStep);
    PlanGoesOn(f.steps[i], UsersAt(r), u);
  }

  lemma StartDoesNotMatter(orders: set<int>, f: seq<FlowStep>, g: seq<FlowStep>, k: int, us: seq<string>,
                           started: Time, other: Time, now: Time, expireAt: Time)
    requires k in orders ==> other == started
    requires SameFrom(orders, f, g, k, us, started, now, expireAt)
    ensures SameFrom(orders, f, g, k, us, other, now, expireAt)
  {
  }

  lemma SameAfter(p: Plan, q: Plan, u: string)
    requires CourseOf(p) == CourseOf(q) && u in Turn(p) && |p.slots| > 1
    ensures |q.slots| > 1 && CourseOf(After(p, u)) == CourseOf(After(q, u))
    ensures CourseOf(After(p, u)).done ==> CourseOf(p).done
  {
    SameSlots(p, q);
    CourseGoesOn(p, u);
    CourseGoesOn(q, u);
  }

  lemma SameAtStays(r: Request, f: Flow, g: Flow, now: Time, u: string, t: Time)
    requires r.status == Pending && t >= now > ZERO && |PlanOf(r, f).slots| > 1 && u in Turn(PlanOf(r, f))
    requires SameAt(Orders(r), f.steps, g.steps, r.currentStep, UsersAt(r), StartedAt(r), now, r.expireAt)
    ensures SameAt(Orders(r), f.steps, g.steps, r.currentStep, UsersAt(r) + [u], StartedAt(r), t, r.expireAt)
    ensures CourseOf(PlanAt(Orders(r), f.steps, r.currentStep, UsersAt(r) + [u])).done ==> CourseOf(PlanOf(r, f)).done
  {
    var started := StartedAt(r);
    SameAfter(PlanOf(r, f), PlanOf(r, g), u);
    PlanAfter(r, f, u);
    PlanAfter(r, g, u);
    LateLater(Orders(r), f.steps, g.steps, r.currentStep, started, now, started, t, r.expireAt);
  }

  /** One more approval on an open step leaves what the condition says about later steps. */
  lemma ConditionStays(r: Request, f: Flow, g: Flow, now: Time, u: string, t: Time)
    requires r.status == Pending && t >= now > ZERO && |PlanOf(r, f).slots| > 1 && u in Turn(PlanOf(r, f))
    requires SameFrom(Orders(r), f.steps, g.steps, r.currentStep, UsersAt(r), StartedAt(r), now, r.expireAt)
    ensures SameFrom(Orders(r), f.steps, g.steps, r.currentStep, UsersAt(r) + [u], StartedAt(r), t, r.expireAt)
  {
    SameAtStays(r, f, g, now, u, t);
    OtherPeople(Orders(r), f.steps, g.steps, r.currentStep, UsersAt(r), UsersAt(r) + [u], StartedAt(r), now, t, r.expireAt);
  }

  /** The condition on later steps does not depend on who has approved this one. */
  lemma OtherPeople(orders: set<int>, f: seq<FlowStep>, g: seq<FlowStep>, k: int, us: seq<string>, more: seq<string>,
                    started: Time, now: Time, t: Time, expireAt: Time)
    requires SameFrom(orders, f, g, k, us, started, now, expireAt) && t >= now > ZERO
    requires SameAt(orders, f, g, k, more, started, t, expireAt)
    requires CourseOf(PlanAt(orders, f, k, more)).done ==> CourseOf(PlanAt(orders, f, k, us)).done
    ensures SameFrom(orders, f, g, k, more, started, t, expireAt)
  {
    if CourseOf(PlanAt(orders, f, k, us)).done && k < LastOf(f) {
      TailLater(orders, f, g, k, us, started, now, t, expireAt);
    }
  }

  lemma TailLater(orders: set<int>, f: seq<FlowStep>, g: seq<FlowStep>, k: int, us: seq<string>,
                  started: Time, now: Time, t: Time, expireAt: Time)
    requires SameFrom(orders, f, g, k, us, started, now, expireAt) && t >= now > ZERO
    requires CourseOf(PlanAt(orders, f, k, us)).done && k < LastOf(f)
    ensures SameFrom(orders, f, g, k + 1, [], t, t, expireAt)
  {
    SameFromLater(orders, f, g, k + 1, [], now, now, t, t, expireAt);
  }

  lemma AdvanceKeepsFuture(r: Request, f: Flow, g: Flow, now: Time, d: Decision)
    requires Good(r, f) && Entitled(r, f, d.userID) && !IsExpired(r, d.timestamp) && d.timestamp >= now > ZERO
    requires SameFuture(r, f.steps, g.steps, now) && |PlanOf(r, f).slots| == 1 && d.approve && r.currentStep < LastOf(f.steps)
    ensures Decide(r, f, d).Ok? && SameFuture(Decide(r, f, d).value.0, f.steps, g.steps, d.timestamp)
  {
    AcceptedIffEntitled(r, f, d);
    CurrentStep(r, f, d.userID);
    TurnIsEntitled(r, f, d.userID);
    LastAgrees(f);
    var c, k, t := Passed(r), r.currentStep, d.timestamp;
    VerdictIs(f.steps[c], r.steps[c].decisions, d);
    SingleSlotIsDone(PlanOf(r, f));
    RecordAdvances(r, f, c, d);
    TailLater(Orders(r), f.steps, g.steps, k, UsersAt(r), StartedAt(r), now, t, r.expireAt);
    StartDoesNotMatter(Orders(r), f.steps, g.steps, k + 1, [], t, StartedAt(Decide(r, f, d).value.0), t, r.expireAt);
  }

  lemma StayKeepsFuture(r: Request, f: Flow, g: Flow, now: Time, d: Decision)
    requires Good(r, f) && Entitled(r, f, d.userID) && !IsExpired(r, d.timestamp) && d.timestamp >= now > ZERO
    requires SameFuture(r, f.steps, g.steps, now) && |PlanOf(r, f).slots| > 1 && d.approve
    ensures Decide(r, f, d).Ok? && SameFuture(Decide(r, f, d).value.0, f.steps, g.steps, d.timestamp)
  {
    AcceptedIffEntitled(r, f, d);
    CurrentStep(r, f, d.userID);
    TurnIsEntitled(r, f, d.userID);
    var c := Passed(r);
    VerdictIs(f.steps[c], r.steps[c].decisions, d);
    RecordStays(r, f, c, c, d);
    ConditionStays(r, f, g, now, d.userID, d.timestamp);
  }

  lemma DecisionKeepsFuture(r: Request, f: Flow, g: Flow, now: Time, d: Decision)
    requires Good(r, f) && SameFuture(r, f.steps, g.steps, now) && d.timestamp >= now > ZERO
    requires Decide(r, f, d).Ok?
    ensures SameFuture(Decide(r, f, d).value.0, f.steps, g.steps, d.timestamp)
  {
    AcceptedIffEntitled(r, f, d);
    CurrentStep(r, f, d.userID);
    VerdictIs(f.steps[Passed(r)], r.steps[Passed(r)].decisions, d);
    RecordedStep(r, f, Passed(r), Passed(r), d);
    LastAgrees(f);
    FirstSlot(f.steps[Passed(r)], UsersAt(r));
    if Decide(r, f, d).value.0.status == Pending {
      if |PlanOf(r, f).slots| == 1 { AdvanceKeepsFuture(r, f, g, now, d); } else { StayKeepsFuture(r, f, g, now, d); }
    }
  }

  lemma ActKeepsFuture(c: Case, f: Flow, g: Flow, now: Time, a: Act)
    requires Good(c.r, f) && SameFuture(c.r, f.steps, g.steps, now) && TimeOf(a) >= now > ZERO
    ensures var c' := ActOn(c, f, a);
            Good(c'.r, f) && SameFuture(c'.r, f.steps, g.steps, TimeOf(a))
  {
    var r, t := c.r, TimeOf(a);
    if r.status == Pending && !IsExpired(r, now) {
      SameFromLater(Orders(r), f.steps, g.steps, r.currentStep, UsersAt(r), StartedAt(r), now, StartedAt(r), t, r.expireAt);
    }
    match a {
      case Decides(d) =>
        if Decide(r, f, d).Ok? {
          DecisionKeepsGood(r, f, d);
          DecisionKeepsFuture(r, f, g, now, d);
        }
      case Polls(_) =>
        if r.status == Pending {
          if IsExpired(r, t) { ClosingKeepsGood(r, f, TimedOut, t); }
          else if TimedOutStep(r, f, t).0 { StepTimeoutKeepsGood(r, f, t); }
        }
      case Cancels(_, _) =>
        if r.status == Pending { ClosingKeepsGood(r, f, Cancelled, t); }
    }
  }

  /** If the condition holds, no sequence of decisions, polls and cancellations shows a
      difference. */
  lemma {:induction false} LifeUnnoticed(c: Case, f: Flow, g: Flow, now: Time, acts: seq<Act>)
    requires Good(c.r, f) && ValidSteps(g.steps) && now > ZERO
    requires SameFuture(c.r, f.steps, g.steps, now) && InOrder(acts, now)
    ensures Life(c, f, acts) == Life(c, g, acts)
    decreases |acts|
  {
    if acts != [] {
      ActUnnoticed(c, f, g, now, acts[0]);
      ActKeepsFuture(c, f, g, now, acts[0]);
      LifeUnnoticed(ActOn(c, f, acts[0]), f, g, TimeOf(acts[0]), acts[1..]);
    }
  }

  // ------------------------------------------- the condition is needed

  lemma OneAct(c: Case, f: Flow, g: Flow, now: Time, a: Act)
    requires SameLife(c, f, g, now) && TimeOf(a) >= now
    ensures ActOn(c, f, a) == ActOn(c, g, a)
    ensures SameLife(ActOn(c, f, a), f, g, TimeOf(a))
  {
    assert [a][1..] == [];
    assert InOrder([a], now);
    assert Life(c, f, [a]) == ActOn(c, f, a) && Life(c, g, [a]) == ActOn(c, g, a);
    forall acts | InOrder(acts, TimeOf(a))
      ensures Life(ActOn(c, f, a), f, acts) == Life(ActOn(c, f, a), g, acts)
    {
      var all := [a] + acts;
      assert all[1..] == acts;
      assert InOrder(all, now);
      assert Life(c, f, all) == Life(c, g, all);
    }
  }

  lemma EntryShows(log: seq<Entry>, x: Entry, y: Entry)
    requires AppendEntry(log, x) == AppendEntry(log, y) && x.timestamp == y.timestamp
    ensures x == y
  {
    var k := Slot(log, x.timestamp);
    assert AppendEntry(log, x)[k] == x && AppendEntry(log, y)[k] == y;
  }

  lemma DecisionShows(c: Case, f: Flow, g: Flow, d: Decision)
    requires ActOn(c, f, Decides(d)) == ActOn(c, g, Decides(d))
    ensures SameOutcome(c.r, f, g, d)
  {
    var x, y := Decide(c.r, f, d), Decide(c.r, g, d);
    if x.Ok? {
      assert |AppendEntry(c.log, x.value.1)| == |c.log| + 1;
    }
    if y.Ok? {
      assert |AppendEntry(c.log, y.value.1)| == |c.log| + 1;
    }
    if x.Ok? && y.Ok? {
      EntryShows(c.log, x.value.1, y.value.1);
    }
  }

  lemma PollShows(c: Case, f: Flow, g: Flow, t: Time)
    requires c.r.status == Pending && !IsExpired(c.r, t) && ActOn(c, f, Polls(t)) == ActOn(c, g, Polls(t))
    ensures TimedOutStep(c.r, f, t).0 == TimedOutStep(c.r, g, t).0
    ensures TimedOutStep(c.r, f, t).0 ==> IdAt(f.steps, c.r.currentStep) == IdAt(g.steps, c.r.currentStep)
  {
    var x, y := TimedOutStep(c.r, f, t), TimedOutStep(c.r, g, t);
    if x.0 && y.0 {
      EntryShows(c.log, TimeoutEntry(f.steps[x.1].id, t), TimeoutEntry(g.steps[y.1].id, t));
      SameComment(f.steps[x.1].id, g.steps[y.1].id, t);
    }
  }

  lemma SameComment(a: string, b: string, t: Time)
    requires TimeoutEntry(a, t) == TimeoutEntry(b, t)
    ensures a == b
  {
  }

  lemma LateNeeded(c: Case, f: Flow, g: Flow, now: Time)
    requires c.r.status == Pending && !IsExpired(c.r, now) && SameLife(c, f, g, now)
    ensures var o, k, s := Orders(c.r), c.r.currentStep, StartedAt(c.r);
            var late := LateFrom(o, f.steps, k, s, now, c.r.expireAt);
            && late == LateFrom(o, g.steps, k, s, now, c.r.expireAt)
            && (late.At? ==> IdAt(f.steps, k) == IdAt(g.steps, k))
  {
    var o, k, s := Orders(c.r), c.r.currentStep, StartedAt(c.r);
    var x, y := LateFrom(o, f.steps, k, s, now, c.r.expireAt), LateFrom(o, g.steps, k, s, now, c.r.expireAt);
    if x.At? { PollAt(c, f, g, now, x.time); }
    if y.At? { PollAt(c, f, g, now, y.time); }
  }

  lemma PollAt(c: Case, f: Flow, g: Flow, now: Time, t: Time)
    requires c.r.status == Pending && t >= now && !IsExpired(c.r, t) && SameLife(c, f, g, now)
    ensures var o, k, s := Orders(c.r), c.r.currentStep, StartedAt(c.r);
            var x, y := LateFrom(o, f.steps, k, s, now, c.r.expireAt), LateFrom(o, g.steps, k, s, now, c.r.expireAt);
            && (x.At? && x.time <= t <==> y.At? && y.time <= t)
            && (x.At? && x.time <= t ==> IdAt(f.steps, k) == IdAt(g.steps, k))
  {
    OneAct(c, f, g, now, Polls(t));
    PollShows(c, f, g, t);
    LateIff(c.r, f, now, t);
    LateIff(c.r, g, now, t);
  }

  lemma OutcomesSame(c: Case, f: Flow, g: Flow, now: Time, u: string, approve: bool)
    requires SameLife(c, f, g, now)
    ensures SameOutcome(c.r, f, g, Decision(u, approve, "", now))
  {
    var d := Decision(u, approve, "", now);
    OneAct(c, f, g, now, Decides(d));
    DecisionShows(c, f, g, d);
  }

  /** Whose turn it is, and what a decision leads to. */
  lemma TurnNeeded(c: Case, f: Flow, g: Flow, now: Time, u: string)
    requires Good(c.r, f) && ValidSteps(g.steps) && c.r.status == Pending && !IsExpired(c.r, now) && SameLife(c, f, g, now)
    ensures var k, p, q := c.r.currentStep, PlanOf(c.r, f), PlanOf(c.r, g);
            && (u in Turn(p) <==> u in Turn(q))
            && (u in Turn(p) ==>
                  && IdAt(f.steps, k) == IdAt(g.steps, k)
                  && Lenient(f.steps, k, UsersAt(c.r)) == Lenient(g.steps, k, UsersAt(c.r))
                  && (|p.slots| == 1 <==> |q.slots| == 1)
                  && (|p.slots| == 1 ==> (k >= LastOf(f.steps) <==> k >= LastOf(g.steps))))
  {
    var r := c.r;
    var yes, no := Decision(u, true, "", now), Decision(u, false, "", now);
    OutcomesSame(c, f, g, now, u, true);
    OutcomesSame(c, f, g, now, u, false);
    AcceptedIffEntitled(r, f, yes);
    AcceptedIffEntitled(r, g, yes);
    TurnIsEntitled(r, f, u);
    TurnIsEntitled(r, g, u);
    if Entitled(r, f, u) {
      CurrentStep(r, f, u);
      var j := FindRequestStep(r.steps, r.currentStep);
      RecordDependsOnTurn(r, f, g, yes);
      RecordDependsOnTurn(r, f, g, no);
      VerdictOfPlan(r, f, j, true);
      VerdictOfPlan(r, g, j, true);
      VerdictOfPlan(r, f, j, false);
      VerdictOfPlan(r, g, j, false);
      LastAgrees(f);
      LastAgrees(g);
    }
  }

  /** A step that can be completed can still be completed after the right approval. */
  lemma DoneGoesOn(p: Plan) returns (u: string)
    requires CourseOf(p).done && |p.slots| > 1
    ensures u in Turn(p) && CourseOf(After(p, u)).done
  {
    var c := CourseOf(p);
    CourseHasTurn(p);
    CourseIsCourse(p);
    if c.slots[0].Only? {
      u := c.slots[0].name;
      ReservedRest(c, u);
    } else {
      assert c.slots[0] in c.slots;
      u := Harmless(c.people, c.slots);
      WholeRest(c, u);
      FirstForIff(c.slots[1..], u);
    }
    CourseGoesOn(p, u);
  }

  function Approved1(c: Case, f: Flow, u: string, now: Time): Case {
    ActOn(c, f, Decides(Decision(u, true, "", now)))
  }

  /** The case after an approval by somebody whose turn it is. */
  lemma Successor(c: Case, f: Flow, g: Flow, now: Time, u: string)
    requires Good(c.r, f) && c.r.status == Pending && !IsExpired(c.r, now) && SameLife(c, f, g, now)
    requires u in Turn(PlanOf(c.r, f))
    ensures var r, r' := c.r, Approved1(c, f, u, now).r;
            && Good(r', f) && SameLife(Approved1(c, f, u, now), f, g, now)
            && 0 <= Remaining(r', f) < Remaining(r, f)
            && r'.expireAt == r.expireAt && Orders(r') == Orders(r)
            && (|PlanOf(r, f).slots| > 1 ==>
                  && r'.status == Pending && r'.currentStep == r.currentStep
                  && UsersAt(r') == UsersAt(r) + [u] && StartedAt(r') == StartedAt(r))
            && (|PlanOf(r, f).slots| == 1 && r.currentStep < LastOf(f.steps) ==>
                  && r'.status == Pending && r'.currentStep == r.currentStep + 1
                  && UsersAt(r') == [] && (r.currentStep + 1 in Orders(r) ==> StartedAt(r') == now))
  {
    var r, d := c.r, Decision(u, true, "", now);
    TurnIsEntitled(r, f, u);
    AcceptedIffEntitled(r, f, d);
    CurrentStep(r, f, u);
    OneAct(c, f, g, now, Decides(d));
    DecisionKeepsGood(r, f, d);
    DecisionLowersRemaining(r, f, d);
    var j := Passed(r);
    VerdictIs(f.steps[j], r.steps[j].decisions, d);
    LastAgrees(f);
    var r' := Decide(r, f, d).value.0;
    assert r' == Record(r, f, j, j, d).0;
    RecordOrders(r, f, j, d);
    if |PlanOf(r, f).slots| > 1 {
      RecordStays(r, f, j, j, d);
    } else if r.currentStep < LastOf(f.steps) {
      RecordAdvances(r, f, j, d);
    }
  }

  lemma RecordOrders(r: Request, f: Flow, j: nat, d: Decision)
    requires j < |f.steps| && j < |r.steps|
    ensures Orders(Record(r, f, j, j, d).0) == Orders(r) && Record(r, f, j, j, d).0.expireAt == r.expireAt
  {
    FindSame(r.steps, Record(r, f, j, j, d).0.steps, 0);
  }

  /** If nobody ever sees a difference, the condition holds. */
  lemma {:induction false} ConditionNeeded(c: Case, f: Flow, g: Flow, now: Time)
    requires Good(c.r, f) && ValidSteps(g.steps) && now > ZERO
    requires c.r.status == Pending && !IsExpired(c.r, now) && SameLife(c, f, g, now)
    ensures SameFrom(Orders(c.r), f.steps, g.steps, c.r.currentStep, UsersAt(c.r), StartedAt(c.r), now, c.r.expireAt)
    decreases Remaining(c.r, f), 2
  {
    var r := c.r;
    var p, q := PlanOf(r, f), PlanOf(r, g);
    LateNeeded(c, f, g, now);
    forall u ensures u in Turn(p) <==> u in Turn(q) { TurnNeeded(c, f, g, now, u); }
    if u :| u in Turn(p) {
      TurnNeeded(c, f, g, now, u);
      if |p.slots| == 1 {
        SingleSlot(p, q);
        if r.currentStep < LastOf(f.steps) { NextNeeded(c, f, g, now, u); }
      } else {
        OpenStepNeeded(c, f, g, now);
      }
    } else {
      NobodysTurn(p);
      NobodysTurn(q);
    }
  }

  lemma {:induction false} NextNeeded(c: Case, f: Flow, g: Flow, now: Time, u: string)
    requires Good(c.r, f) && ValidSteps(g.steps) && now > ZERO
    requires c.r.status == Pending && !IsExpired(c.r, now) && SameLife(c, f, g, now)
    requires u in Turn(PlanOf(c.r, f)) && |PlanOf(c.r, f).slots| == 1 && c.r.currentStep < LastOf(f.steps)
    ensures SameFrom(Orders(c.r), f.steps, g.steps, c.r.currentStep + 1, [], now, now, c.r.expireAt)
    decreases Remaining(c.r, f), 0
  {
    var c' := Approved1(c, f, u, now);
    Successor(c, f, g, now, u);
    ConditionNeeded(c', f, g, now);
    StartDoesNotMatter(Orders(c.r), f.steps, g.steps, c.r.currentStep + 1, [], StartedAt(c'.r), now, now, c.r.expireAt);
  }

  lemma {:induction false} OpenStepNeeded(c: Case, f: Flow, g: Flow, now: Time)
    requires Good(c.r, f) && ValidSteps(g.steps) && now > ZERO
    requires c.r.status == Pending && !IsExpired(c.r, now) && SameLife(c, f, g, now)
    requires |PlanOf(c.r, f).slots| > 1 && Turn(PlanOf(c.r, f)) == Turn(PlanOf(c.r, g)) != {}
    ensures CourseOf(PlanOf(c.r, f)) == CourseOf(PlanOf(c.r, g))
    ensures CourseOf(PlanOf(c.r, f)).done ==>
              && (c.r.currentStep >= LastOf(f.steps) <==> c.r.currentStep >= LastOf(g.steps))
              && (c.r.currentStep < LastOf(f.steps) ==>
                    SameFrom(Orders(c.r), f.steps, g.steps, c.r.currentStep + 1, [], now, now, c.r.expireAt))
    decreases Remaining(c.r, f), 1
  {
    var p, q := PlanOf(c.r, f), PlanOf(c.r, g);
    forall u | u in Turn(p) ensures |q.slots| > 1 && Alike(After(p, u), After(q, u)) {
      AfterNeeded(c, f, g, now, u);
      AlikeIffSameCourse(After(p, u), After(q, u));
    }
    AlikeIffSameCourse(p, q);
    if CourseOf(p).done {
      var u := DoneGoesOn(p);
      AfterNeeded(c, f, g, now, u);
    }
  }

  /** What the condition after one more approval says. */
  lemma {:induction false} AfterNeeded(c: Case, f: Flow, g: Flow, now: Time, u: string)
    requires Good(c.r, f) && ValidSteps(g.steps) && now > ZERO
    requires c.r.status == Pending && !IsExpired(c.r, now) && SameLife(c, f, g, now)
    requires |PlanOf(c.r, f).slots| > 1 && u in Turn(PlanOf(c.r, f))
    ensures var p, q := PlanOf(c.r, f), PlanOf(c.r, g);
            && |q.slots| > 1 && CourseOf(After(p, u)) == CourseOf(After(q, u))
            && (CourseOf(After(p, u)).done ==>
                  && (c.r.currentStep >= LastOf(f.steps) <==> c.r.currentStep >= LastOf(g.steps))
                  && (c.r.currentStep < LastOf(f.steps) ==>
                        SameFrom(Orders(c.r), f.steps, g.steps, c.r.currentStep + 1, [], now, now, c.r.expireAt)))
    decreases Remaining(c.r, f), 0
  {
    TurnNeeded(c, f, g, now, u);
    Successor(c, f, g, now, u);
    ConditionNeeded(Approved1(c, f, u, now), f, g, now);
    PlanAfter(c.r, f, u);
    SecondPlan(c.r, g, u);
    PlanAfter(c.r, g, u);
  }

  lemma SecondPlan(r: Request, g: Flow, u: string)
    requires u in Turn(PlanOf(r, g)) && |PlanOf(r, g).slots| != 1
    ensures |PlanOf(r, g).slots| > 1
  {
  }

  /** An update of a flow goes unnoticed by a request, over every sequence of decisions,
      polls and cancellations that can still happen, exactly when the request is over or
      expired or the two flows agree, step by step from the current one on, in whose turn it
      is in every order, in deadlines and ids where they show, and in which step is last. */
  lemma SameLifeIffSameFuture(c: Case, f: Flow, g: Flow, now: Time)
    requires Good(c.r, f) && ValidSteps(g.steps) && now > ZERO
    ensures SameLife(c, f, g, now) <==> SameFuture(c.r, f.steps, g.steps, now)
  {
    if SameFuture(c.r, f.steps, g.steps, now) {
      forall acts | InOrder(acts, now) ensures Life(c, f, acts) == Life(c, g, acts) {
        LifeUnnoticed(c, f, g, now, acts);
      }
    } else if SameLife(c, f, g, now) {
      ConditionNeeded(c, f, g, now);
    }
  }

  // ---------------------------------------------------------- plain steps

  /** Two or more approvers, nobody twice, nobody nameless. */
  ghost predicate PlainStep(step: FlowStep) {
    && !step.mode.OtherMode? && |step.approvers| >= 2
    && Distinct(step.approvers) && "" !in step.approvers
  }

  lemma PlainSlots(step: FlowStep)
    requires PlainStep(step)
    ensures var p, a := StepPlan(step, []), step.approvers;
            && p.people == Elements(a) && |p.people| == |a|
            && |p.slots| == (if step.mode == AnyOf then 1 else |a|)
            && (forall i | 0 <= i < |p.slots| :: p.slots[i] == if step.mode == Sequential then Only(a[i]) else Anyone)
            && Reach(p) == |p.slots| && p.slots[..Reach(p)] == p.slots
  {
    var p, a := StepPlan(step, []), step.approvers;
    DistinctCount(a);
    assert Elements([]) == {};
    assert p.people == Elements(a);
    forall i | 0 <= i < |p.slots| ensures p.slots[i] == if step.mode == Sequential then Only(a[i]) else Anyone {
      if step.mode != AnyOf {
        assert p.slots[i] == SlotFor(step, 0 + i);
        assert a[i] in a;
      }
    }
    assert Fits(p.people, p.slots);
    FitAll(p.people, |p.people|, p.slots);
  }

  /** The course of such a step names its approvers one by one, or leaves all slots free. */
  lemma PlainCourse(step: FlowStep)
    requires PlainStep(step)
    ensures var a, c := step.approvers, CourseOf(StepPlan(step, []));
            && c.done && |c.slots| == (if step.mode == AnyOf then 1 else |a|)
            && c.people == (if step.mode == Sequential then {} else Elements(a))
            && forall i | 0 <= i < |c.slots| :: c.slots[i] == if step.mode == Sequential then Only(a[i]) else Anyone
  {
    var p := StepPlan(step, []);
    PlainSlots(step);
    assert p.slots[0] in p.slots;
    if step.mode == Countersign {
      FreeStays(p.people, p.slots);
    }
  }

  /** For steps with two or more different approvers the condition on turns reads: the same
      mode, and the same people -- in the same order if they sign in order. */
  lemma PlainStepsAgreeIff(s: FlowStep, t: FlowStep)
    requires PlainStep(s) && PlainStep(t)
    ensures CourseOf(StepPlan(s, [])) == CourseOf(StepPlan(t, [])) <==>
            s.mode == t.mode && (if s.mode == Sequential then s.approvers == t.approvers
                                 else Elements(s.approvers) == Elements(t.approvers))
  {
    PlainCourse(s);
    PlainCourse(t);
    if s.mode == t.mode {
      PlainSameMode(s, t);
    } else {
      PlainOtherMode(s, t);
    }
  }

  lemma PlainOtherMode(s: FlowStep, t: FlowStep)
    requires PlainStep(s) && PlainStep(t) && s.mode != t.mode
    ensures CourseOf(StepPlan(s, [])) != CourseOf(StepPlan(t, []))
  {
    PlainCourse(s);
    PlainCourse(t);
    var c, d := CourseOf(StepPlan(s, [])).slots, CourseOf(StepPlan(t, [])).slots;
    assert c[0].Only? <==> s.mode == Sequential;
    assert d[0].Only? <==> t.mode == Sequential;
    assert |c| == 1 <==> s.mode == AnyOf;
    assert |d| == 1 <==> t.mode == AnyOf;
  }

  lemma PlainSameMode(s: FlowStep, t: FlowStep)
    requires PlainStep(s) && PlainStep(t) && s.mode == t.mode
    ensures CourseOf(StepPlan(s, [])) == CourseOf(StepPlan(t, [])) <==>
            if s.mode == Sequential then s.approvers == t.approvers else Elements(s.approvers) == Elements(t.approvers)
  {
    PlainCourse(s);
    PlainCourse(t);
    DistinctCount(s.approvers);
    DistinctCount(t.approvers);
    PlainCourses(s, t, CourseOf(StepPlan(s, [])), CourseOf(StepPlan(t, [])));
  }

  lemma PlainCourses(s: FlowStep, t: FlowStep, c: Course, d: Course)
    requires s.mode == t.mode && c.done && d.done
    requires |c.slots| == (if s.mode == AnyOf then 1 else |s.approvers|)
    requires |d.slots| == (if s.mode == AnyOf then 1 else |t.approvers|)
    requires c.people == (if s.mode == Sequential then {} else Elements(s.approvers))
    requires d.people == (if s.mode == Sequential then {} else Elements(t.approvers))
    requires |Elements(s.approvers)| == |s.approvers| && |Elements(t.approvers)| == |t.approvers|
    requires forall i | 0 <= i < |c.slots| :: c.slots[i] == if s.mode == Sequential then Only(s.approvers[i]) else Anyone
    requires forall i | 0 <= i < |d.slots| :: d.slots[i] == if s.mode == Sequential then Only(t.approvers[i]) else Anyone
    ensures c == d <==>
            if s.mode == Sequential then s.approvers == t.approvers else Elements(s.approvers) == Elements(t.approvers)
  {
    if s.mode == Sequential {
      SameNames(s.approvers, t.approvers, c.slots, d.slots);
    } else if c.people == d.people {
      AllFree(c.slots, d.slots);
    }
  }

  lemma AllFree(x: seq<Seat>, y: seq<Seat>)
    requires |x| == |y| && (forall i | 0 <= i < |x| :: x[i] == Anyone) && (forall i | 0 <= i < |y| :: y[i] == Anyone)
    ensures x == y
  {
  }

  lemma SameNames(a: seq<string>, b: seq<string>, x: seq<Seat>, y: seq<Seat>)
    requires |x| == |a| && |y| == |b|
    requires forall i | 0 <= i < |x| :: x[i] == Only(a[i])
    requires forall i | 0 <= i < |y| :: y[i] == Only(b[i])
    ensures x == y <==> a == b
  {
    if x == y {
      forall i | 0 <= i < |a| ensures a[i] == b[i] {
        assert x[i] == Only(a[i]) && y[i] == Only(b[i]);
      }
    }
  }

  // ------------------------------------------------------------ the engine

  /** What stands for a deleted flow: nobody's turn, no deadline. */
  const NoFlow := Flow("", "", "", "", [], false, ZERO, ZERO)

  function LiveFlow(e: Eng, id: string): Flow {
    if id in e.flows then e.flows[id] else NoFlow
  }

  ghost predicate Logged(e: Eng, id: string) {
    id in e.requests && id in e.histories
  }

  function CaseOf(e: Eng, id: string): Case
    requires id in e.requests && id in e.histories
  {
    Case(e.requests[id], e.histories[id])
  }

  /** The calls that are about request `id`, as acts. */
  function ActsOf(call: Call, id: string): seq<Act> {
    match call.op
    case Take(rid, user, approve, comment) =>
      if rid == id then [Decides(Decision(user, approve, comment, call.now))] else []
    case CheckTimeout(rid) => if rid == id then [Polls(call.now)] else []
    case Cancel(rid, user) => if rid == id then [Cancels(user, call.now)] else []
    case _ => []
  }

  function AllActs(calls: seq<Call>, id: string): seq<Act> {
    if calls == [] then [] else ActsOf(calls[0], id) + AllActs(calls[1..], id)
  }

  ghost function RunFrom(e: Eng, calls: seq<Call>): Eng
    decreases |calls|
  {
    if calls == [] then e else RunFrom(Step(e, calls[0].op, calls[0].now).0, calls[1..])
  }

  /** Calls from `now` on that do not define the flow anew. */
  predicate Later(calls: seq<Call>, flowID: string, now: Time)
    decreases |calls|
  {
    calls == [] ||
    (calls[0].now >= now && !TouchesFlow(calls[0].op, flowID)
     && !(calls[0].op.CreateFlow? && calls[0].op.flow.id == flowID)
     && Later(calls[1..], flowID, calls[0].now))
  }

  /** Whatever is called from now on, request `id` and its history are the same in both. */
  ghost predicate Unnoticed(e: Eng, e': Eng, id: string, now: Time)
    requires Logged(e, id) && Logged(e', id)
  {
    forall calls | Later(calls, e.requests[id].flowID, now) ::
      && Logged(RunFrom(e, calls), id) && Logged(RunFrom(e', calls), id)
      && CaseOf(RunFrom(e, calls), id) == CaseOf(RunFrom(e', calls), id)
  }

  lemma OneActLife(c: Case, f: Flow, a: Act)
    ensures Life(c, f, [a]) == ActOn(c, f, a)
  {
    assert [a][1..] == [];
  }

  /** A call about the request is an act under the live flow. */
  lemma ActIsCall(e: Eng, id: string, a: Act)
    requires Logged(e, id)
    ensures var e', f := Step(e, CallOf(a, id).op, CallOf(a, id).now).0, LiveFlow(e, e.requests[id].flowID);
            && Logged(e', id) && CaseOf(e', id) == ActOn(CaseOf(e, id), f, a)
            && e'.requests[id].flowID == e.requests[id].flowID
  {
  }

  lemma OtherCall(e: Eng, call: Call, id: string)
    requires Logged(e, id) && ActsOf(call, id) == []
    ensures var e' := Step(e, call.op, call.now).0; Logged(e', id) && CaseOf(e', id) == CaseOf(e, id)
  {
  }

  lemma CallIsAct(e: Eng, call: Call, id: string)
    requires Logged(e, id)
    ensures var e', f := Step(e, call.op, call.now).0, LiveFlow(e, e.requests[id].flowID);
            && Logged(e', id) && CaseOf(e', id) == Life(CaseOf(e, id), f, ActsOf(call, id))
            && e'.requests[id].flowID == e.requests[id].flowID
  {
    if ActsOf(call, id) == [] {
      OtherCall(e, call, id);
    } else {
      var a := ActsOf(call, id)[0];
      assert CallOf(a, id) == call;
      ActIsCall(e, id, a);
      OneActLife(CaseOf(e, id), LiveFlow(e, e.requests[id].flowID), a);
    }
  }

  lemma LifeOneMore(c: Case, f: Flow, first: seq<Act>, rest: seq<Act>)
    requires |first| <= 1
    ensures Life(c, f, first + rest) == Life(Life(c, f, first), f, rest)
  {
    if first == [] {
      assert first + rest == rest;
    } else {
      var c' := ActOn(c, f, first[0]);
      assert first[1..] == [] && (first + rest)[1..] == rest && (first + rest)[0] == first[0];
      assert Life(c, f, first) == Life(c', f, []) == c';
    }
  }

  lemma FlowStays(e: Eng, call: Call, flowID: string)
    requires !TouchesFlow(call.op, flowID) && !(call.op.CreateFlow? && call.op.flow.id == flowID)
    ensures LiveFlow(Step(e, call.op, call.now).0, flowID) == LiveFlow(e, flowID)
  {
  }

  lemma {:induction false} RunIsLife(e: Eng, calls: seq<Call>, id: string, now: Time)
    requires Logged(e, id) && Later(calls, e.requests[id].flowID, now)
    ensures Logged(RunFrom(e, calls), id)
    ensures CaseOf(RunFrom(e, calls), id) == Life(CaseOf(e, id), LiveFlow(e, e.requests[id].flowID), AllActs(calls, id))
    decreases |calls|
  {
    if calls != [] {
      var e' := Step(e, calls[0].op, calls[0].now).0;
      var f := LiveFlow(e, e.requests[id].flowID);
      CallIsAct(e, calls[0], id);
      FlowStays(e, calls[0], e.requests[id].flowID);
      RunIsLife(e', calls[1..], id, calls[0].now);
      LifeOneMore(CaseOf(e, id), f, ActsOf(calls[0], id), AllActs(calls[1..], id));
    }
  }

  lemma {:induction false} InOrderEarlier(acts: seq<Act>, now: Time, t: Time)
    requires InOrder(acts, t) && t >= now
    ensures InOrder(acts, now)
  {
  }

  lemma {:induction false} ActsInOrder(calls: seq<Call>, id: string, flowID: string, now: Time)
    requires Later(calls, flowID, now)
    ensures InOrder(AllActs(calls, id), now)
    decreases |calls|
  {
    if calls != [] {
      ActsInOrder(calls[1..], id, flowID, calls[0].now);
      var first, rest := ActsOf(calls[0], id), AllActs(calls[1..], id);
      if first == [] {
        assert first + rest == rest;
        InOrderEarlier(rest, now, calls[0].now);
      } else {
        assert (first + rest)[1..] == rest;
      }
    }
  }

  /** The call by which an act comes about. */
  function CallOf(a: Act, id: string): Call {
    match a
    case Decides(d) => Call(Take(id, d.userID, d.approve, d.comment), d.timestamp)
    case Polls(t) => Call(CheckTimeout(id), t)
    case Cancels(user, t) => Call(Cancel(id, user), t)
  }

  function CallsOf(acts: seq<Act>, id: string): seq<Call> {
    if acts == [] then [] else [CallOf(acts[0], id)] + CallsOf(acts[1..], id)
  }

  lemma {:induction false} CallsAreActs(acts: seq<Act>, id: string, flowID: string, now: Time)
    requires InOrder(acts, now)
    ensures AllActs(CallsOf(acts, id), id) == acts && Later(CallsOf(acts, id), flowID, now)
    decreases |acts|
  {
    if acts != [] {
      CallsAreActs(acts[1..], id, flowID, TimeOf(acts[0]));
      var calls := CallsOf(acts, id);
      assert calls[0] == CallOf(acts[0], id) && calls[1..] == CallsOf(acts[1..], id);
      assert ActsOf(calls[0], id) == [acts[0]];
      assert [acts[0]] + acts[1..] == acts;
    }
  }

  /** Two engines that differ in the request's flow only. */
  lemma UnnoticedIffSameLife(e: Eng, e': Eng, id: string, now: Time)
    requires Logged(e, id) && Logged(e', id) && CaseOf(e, id) == CaseOf(e', id)
    ensures var flowID := e.requests[id].flowID;
            Unnoticed(e, e', id, now) <==> SameLife(CaseOf(e, id), LiveFlow(e, flowID), LiveFlow(e', flowID), now)
  {
    var flowID, c := e.requests[id].flowID, CaseOf(e, id);
    var f, g := LiveFlow(e, flowID), LiveFlow(e', flowID);
    if Unnoticed(e, e', id, now) {
      forall acts | InOrder(acts, now) ensures Life(c, f, acts) == Life(c, g, acts) {
        var calls := CallsOf(acts, id);
        CallsAreActs(acts, id, flowID, now);
        RunIsLife(e, calls, id, now);
        RunIsLife(e', calls, id, now);
      }
    }
    if SameLife(c, f, g, now) {
      forall calls | Later(calls, flowID, now)
        ensures Logged(RunFrom(e, calls), id) && Logged(RunFrom(e', calls), id)
        ensures CaseOf(RunFrom(e, calls), id) == CaseOf(RunFrom(e', calls), id)
      {
        ActsInOrder(calls, id, flowID, now);
        RunIsLife(e, calls, id, now);
        RunIsLife(e', calls, id, now);
      }
    }
  }

  /** An update of a flow does not affect a request in progress, whatever is done from then
      on, exactly when the condition holds between the old steps and the new ones. */
  lemma UpdateNeverNoticedIff(e: Eng, id: string, f: Flow, g: Flow, now: Time)
    requires Tracked(e, id, f) && id in e.histories && now > ZERO
    requires g.id == f.id && Step(e, UpdateFlow(g), now).1.Ok?
    ensures var e' := Step(e, UpdateFlow(g), now).0;
            Logged(e', id) && (Unnoticed(e, e', id, now) <==> SameFuture(e.requests[id], f.steps, g.steps, now))
  {
    var e' := Step(e, UpdateFlow(g), now).0;
    UnnoticedIffSameLife(e, e', id, now);
    SameLifeIffSameFuture(CaseOf(e, id), f, e'.flows[f.id], now);
  }

  /** Deleting the flow does not affect the request exactly when it is over or expired, or
      nobody may decide its step any more and the step will not be late. */
  lemma DeleteNeverNoticedIff(e: Eng, id: string, f: Flow, now: Time)
    requires Tracked(e, id, f) && id in e.histories && now > ZERO
    ensures var e', r := Step(e, DeleteFlow(f.id), now).0, e.requests[id];
            Logged(e', id) &&
            (Unnoticed(e, e', id, now) <==>
               || r.status != Pending || IsExpired(r, now)
               || ((forall u :: !Entitled(r, f, u))
                   && LateFrom(Orders(r), f.steps, r.currentStep, StartedAt(r), now, r.expireAt) == Never))
  {
    var e', r := Step(e, DeleteFlow(f.id), now).0, e.requests[id];
    UnnoticedIffSameLife(e, e', id, now);
    SameLifeIffSameFuture(CaseOf(e, id), f, NoFlow, now);
    if r.status == Pending {
      var p, q := PlanOf(r, f), PlanOf(r, NoFlow);
      assert Turn(q) == {};
      NobodysTurn(q);
      forall u ensures u in Turn(p) <==> Entitled(r, f, u) { TurnIsEntitled(r, f, u); }
      if Turn(p) == {} { NobodysTurn(p); } else { CourseHasTurn(p); }
    }
  }
}
