/** Human approvals, and the gate of the engine that spends them. */
module Approvals {
  import opened Common

  datatype Status = Pending | Approved | Rejected | Consumed

  datatype Request = Request(org: string, resource: string, requester: string, reason: string, status: Status,
    decidedBy: Option<string>)

  function Count(m: map<string, nat>, id: string): nat {
    if id in m then m[id] else 0
  }

  function Bumped(m: map<string, nat>, id: string): map<string, nat> {
    m[id := Count(m, id) + 1]
  }

  class LocalApprovalService {
    var requests: map<string, Request>
    /** How often each id was approved, and how often an approval of it was spent. */
    ghost var granted: map<string, nat>
    ghost var spent: map<string, nat>

    /** An id's spent approvals, and the one that may still be open, never exceed the approve decisions on it. */
    ghost predicate Valid()
      reads this
    {
      forall id :: Count(spent, id) +
        (if id in requests && requests[id].status == Approved then 1 else 0) <= Count(granted, id)
    }

    constructor ()
      ensures Valid() && requests == map[] && granted == map[] && spent == map[]
    {
      requests, granted, spent := map[], map[], map[];
    }

    method RequestApproval(id: string, org: string, resource: string, requester: string, reason: string)
      requires Valid()
      modifies this`requests
      ensures Valid()
      ensures requests == old(requests)[id := Request(org, resource, requester, reason, Pending, None)]
    {
      requests := requests[id := Request(org, resource, requester, reason, Pending, None)];
    }

    method Decide(id: string, decision: string, actor: string) returns (res: Result<()>)
      requires Valid()
      modifies this`requests, this`granted
      ensures Valid()
      ensures res == if id !in old(requests) then Err(NotFound)
                     else if decision !in {"approved", "rejected"} then Err(Validation) else Ok(())
      ensures res.Err? ==> requests == old(requests) && granted == old(granted)
      ensures res.Ok? ==> requests == old(requests)[id := old(requests)[id].(
                            status := if decision == "approved" then Approved else Rejected, decidedBy := Some(actor))]
      ensures res.Ok? ==> granted == if decision == "approved" then Bumped(old(granted), id) else old(granted)
    {
      if id !in requests {
        return Err(NotFound);
      }
      if decision !in {"approved", "rejected"} {
        return Err(Validation);
      }
      requests := requests[id := requests[id].(status := if decision == "approved" then Approved
        else Rejected, decidedBy := Some(actor))];
      if decision == "approved" {
        granted := Bumped(granted, id);
      }
      res := Ok(());
    }

    method StatusOf(id: string) returns (res: Result<Status>)
      ensures res == if id in requests then Ok(requests[id].status) else Err(NotFound)
    {
      res := if id in requests then Ok(requests[id].status) else Err(NotFound);
    }

    method Consume(id: string) returns (res: Result<()>)
      requires Valid()
      modifies this`requests, this`spent
      ensures Valid()
      ensures res == if id in old(requests) then Ok(()) else Err(NotFound)
      ensures var open := id in old(requests) && old(requests)[id].status == Approved;
              && requests == (if open then old(requests)[id := old(requests)[id].(status := Consumed)]
                else old(requests))
              && spent == if open then Bumped(old(spent), id) else old(spent)
    {
      if id !in requests {
        return Err(NotFound);
      }
      if requests[id].status == Approved {
        requests := requests[id := requests[id].(status := Consumed)];
        spent := Bumped(spent, id);
      }
      res := Ok(());
    }
  }

  /** The combined decision of the guardrails. */
  datatype Decision = Allow | Filter | RequireApproval | Deny | RateLimit

  /** What execution comes to: the plan reaches the provider, or the error raised before it. */
  datatype Outcome = Reached | Refused(code: ErrorCode, approvalId: Option<string>)

  class Engine {
    const approvals: LocalApprovalService?
    /** Gated executions that reached the provider, by the approval id they carried. */
    ghost var reached: map<string, nat>

    ghost predicate Valid()
      reads this, approvals
    {
      if approvals == null then reached == map[]
      else approvals.Valid() && forall id :: Count(reached, id) <= Count(approvals.spent, id)
    }

    constructor (approvals: LocalApprovalService?)
      requires approvals != null ==> approvals.Valid()
      ensures Valid() && this.approvals == approvals && reached == map[]
    {
      this.approvals := approvals;
      reached := map[];
    }

    /** Decision and approval gate of `execute`, up to the provider call. */
    method Execute(decision: Decision, approvalId: Option<string>, org: string, resource: string, user: string,
                   reason: string, newId: string)
      returns (outcome: Outcome)
      requires Valid()
      modifies this`reached, if approvals == null then {} else {approvals}
      ensures Valid()
      ensures decision in {Allow, Filter} ==> outcome == Reached && reached == old(reached)
      ensures decision == Deny ==> outcome == Refused(QueryDenied, None) && reached == old(reached)
      ensures decision == RateLimit ==> outcome == Refused(RateLimited, None) && reached == old(reached)
      ensures decision != RequireApproval && approvals != null ==> unchanged(approvals)
      // A gated plan reaches the provider exactly with an approved id, and spends that approval.
      ensures decision == RequireApproval ==>
                (outcome == Reached <==>
                  && approvals != null && approvalId.Some? && approvalId.value in old(approvals.requests)
                  && old(approvals.requests)[approvalId.value].status == Approved)
      ensures decision == RequireApproval && outcome == Reached ==>
                && reached == Bumped(old(reached), approvalId.value)
                && approvals.spent == Bumped(old(approvals.spent), approvalId.value)
                && approvals.granted == old(approvals.granted)
                && var id := approvalId.value;
                  approvals.requests == old(approvals.requests)[id := old(approvals.requests)[id].(status := Consumed)]
      ensures decision == RequireApproval && outcome != Reached ==>
                && reached == old(reached)
                && (approvals != null ==>
                     approvals.spent == old(approvals.spent) && approvals.granted == old(approvals.granted))
      // Otherwise a rejected or unknown id is refused as such; anything else opens a new request.
      ensures decision == RequireApproval && approvals == null ==> outcome == Refused(ApprovalRequired, None)
      ensures decision == RequireApproval && approvals != null && approvalId.Some?
              && approvalId.value !in old(approvals.requests) ==>
                outcome == Refused(NotFound, None) && unchanged(approvals)
      ensures decision == RequireApproval && approvals != null && approvalId.Some?
              && approvalId.value in old(approvals.requests)
              && old(approvals.requests)[approvalId.value].status == Rejected ==>
                outcome == Refused(QueryDenied, approvalId) && unchanged(approvals)
      ensures decision == RequireApproval && approvals != null
              && (approvalId.None? || (approvalId.value in old(approvals.requests)
                && old(approvals.requests)[approvalId.value].status in {Pending, Consumed})) ==>
                && outcome == Refused(ApprovalRequired, Some(newId))
                && approvals.requests == old(approvals.requests)[newId := Request(org, resource, user, reason, Pending,
                  None)]
    {
      var approved := false;
      if decision == RequireApproval {
        if approvals != null && approvalId.Some? {
          var status := approvals.StatusOf(approvalId.value);
          if status.Err? {
            return Refused(NotFound, None);
          }
          if status.value == Approved {
            var _ := approvals.Consume(approvalId.value);
            approved := true;
          } else if status.value == Rejected {
            return Refused(QueryDenied, approvalId);
          }
        }
        if !approved {
          if approvals == null {
            return Refused(ApprovalRequired, None);
          }
          approvals.RequestApproval(newId, org, resource, user, reason);
          return Refused(ApprovalRequired, Some(newId));
        }
      }
      if decision !in {Allow, Filter} && !approved {
        return Refused(if decision == RateLimit then RateLimited else QueryDenied, None);
      }
      if approved {
        reached := Bumped(reached, approvalId.value);
      }
      outcome := Reached;
    }
  }

  // ---- Runs ----

  /** What may happen in a run: a request, a decision on it, a spending from elsewhere, an execution. */
  datatype Action =
    | Ask(id: string, org: string, resource: string, requester: string, reason: string)
    | Rule(id: string, decision: string, actor: string)
    | Spend(id: string)
    | Run(guard: Decision, approvalId: Option<string>, org: string, resource: string, user: string, reason: string,
      newId: string)

  /** The gated executions with an id that reached the provider. */
  function GatedReached(actions: seq<Action>, outcomes: seq<Option<Outcome>>, id: string): nat
    requires |actions| == |outcomes|
  {
    if |actions| == 0 then 0 else
      var k := |actions| - 1;
      GatedReached(actions[..k], outcomes[..k], id) + if Passed(actions[k], outcomes[k], id) then 1 else 0
  }

  predicate Passed(a: Action, outcome: Option<Outcome>, id: string) {
    a.Run? && a.guard == RequireApproval && a.approvalId == Some(id) && outcome == Some(Reached)
  }

  predicate Approves(a: Action, id: string) {
    a.Rule? && a.id == id && a.decision == "approved"
  }

  /** The approve decisions made on an id. */
  function ApproveDecisions(actions: seq<Action>, id: string): nat {
    if |actions| == 0 then 0 else
      var a := actions[|actions| - 1];
      ApproveDecisions(actions[..|actions| - 1], id) + if Approves(a, id) then 1 else 0
  }

  /** How one action moves the counts. */
  ghost predicate Moved(reached0: map<string, nat>, granted0: map<string, nat>, reached: map<string, nat>,
                        granted: map<string, nat>, a: Action, outcome: Option<Outcome>) {
    && (forall id :: Count(reached, id) == Count(reached0, id) + if Passed(a, outcome, id) then 1 else 0)
    && (forall id :: Count(granted, id) <= Count(granted0, id) + if Approves(a, id) then 1 else 0)
  }

  /** Only an execution has an outcome, and a gated one reaches the provider only with an id. */
  predicate WithId(a: Action, outcome: Option<Outcome>) {
    outcome == Some(Reached) ==> a.Run? && (a.guard == RequireApproval ==> a.approvalId.Some?)
  }

  /** One action, and the outcome of an execution. */
  method Perform(engine: Engine, a: Action) returns (outcome: Option<Outcome>)
    requires engine.Valid() && engine.approvals != null
    modifies engine, engine.approvals
    ensures engine.Valid() && WithId(a, outcome)
    ensures Moved(old(engine.reached), old(engine.approvals.granted), engine.reached, engine.approvals.granted, a,
            outcome)
  {
    outcome := None;
    match a {
      case Ask(id, org, resource, requester, reason) =>
        engine.approvals.RequestApproval(id, org, resource, requester, reason);
      case Rule(id, decision, actor) =>
        var _ := engine.approvals.Decide(id, decision, actor);
      case Spend(id) =>
        var _ := engine.approvals.Consume(id);
      case Run(guard, approvalId, org, resource, user, reason, newId) =>
        var reached := engine.Execute(guard, approvalId, org, resource, user, reason, newId);
        outcome := Some(reached);
    }
  }

  /** The counts after a run. */
  ghost predicate Tallied(reached: map<string, nat>, granted: map<string, nat>, actions: seq<Action>,
                          outcomes: seq<Option<Outcome>>) {
    && |actions| == |outcomes|
    && (forall id :: Count(reached, id) == GatedReached(actions, outcomes, id))
    && (forall id :: Count(granted, id) <= ApproveDecisions(actions, id))
    && forall i | 0 <= i < |actions| :: WithId(actions[i], outcomes[i])
  }

  lemma TalliedStep(reached0: map<string, nat>, granted0: map<string, nat>, reached: map<string, nat>,
                    granted: map<string, nat>, actions: seq<Action>, outcomes: seq<Option<Outcome>>, a: Action,
                    outcome: Option<Outcome>)
    requires Tallied(reached0, granted0, actions, outcomes) && Moved(reached0, granted0, reached, granted, a, outcome)
             && WithId(a, outcome)
    ensures Tallied(reached, granted, actions + [a], outcomes + [outcome])
  {
    assert (actions + [a])[..|actions|] == actions && (outcomes + [outcome])[..|outcomes|] == outcomes;
    hide Count, Passed, Approves, WithId;
  }

  lemma TalliedBound(engine: Engine, actions: seq<Action>, outcomes: seq<Option<Outcome>>, id: string)
    requires engine.Valid() && engine.approvals != null
             && Tallied(engine.reached, engine.approvals.granted, actions, outcomes)
    ensures GatedReached(actions, outcomes, id) <= ApproveDecisions(actions, id)
  {
    assert Count(engine.reached, id) <= Count(engine.approvals.spent, id) <= Count(engine.approvals.granted, id);
  }

  /**
   Over every run from the start, the gated executions that reach the provider with an id never exceed the approve
   decisions made on that id, and no gated execution reaches it without an id.
  */
  method ApprovalsConserved(actions: seq<Action>) returns (outcomes: seq<Option<Outcome>>)
    ensures |outcomes| == |actions|
    ensures forall id :: GatedReached(actions, outcomes, id) <= ApproveDecisions(actions, id)
    ensures forall i | 0 <= i < |actions| :: WithId(actions[i], outcomes[i])
  {
    var service := new LocalApprovalService();
    var engine := new Engine(service);
    outcomes := [];
    assert Tallied(engine.reached, service.granted, [], []);
    for i := 0 to |actions|
      invariant engine.Valid() && engine.approvals == service
                && Tallied(engine.reached, service.granted, actions[..i], outcomes)
    {
      hide Tallied, Moved, WithId;
      ghost var reached, granted := engine.reached, service.granted;
      var outcome := Perform(engine, actions[i]);
      TalliedStep(reached, granted, engine.reached, service.granted, actions[..i], outcomes, actions[i], outcome);
      outcomes := outcomes + [outcome];
      assert actions[..i + 1] == actions[..i] + [actions[i]];
    }
    assert actions[..|actions|] == actions;
    forall id ensures GatedReached(actions, outcomes, id) <= ApproveDecisions(actions, id) {
      TalliedBound(engine, actions, outcomes, id);
    }
  }
}
