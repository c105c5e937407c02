/**
 * `flows.updateFlow`: check the id and the payload, check the flow exists,
 * then replace its payload; `$onUpdate` refreshes its `updatedAt`.
 */
module UpdateFlowRpc {
  import opened Wrappers
  import opened JsonValues
  import opened Schema
  import opened Database
  import opened ListFlowsRpc

  datatype UpdateFlowParams = UpdateFlowParams(flowId: string, flow: Json)

  datatype UpdateFlowResponse = UpdateFlowResponse(success: bool, message: string, flowId: Option<string>)

  const MissingFlowIdMessage := "Missing required field: flowId is required"
  const FlowDataRequiredMessage := "Flow data is required"
  const FlowNotFoundMessage := "Flow not found"
  const UpdatedMessage := "Flow updated successfully"
  const DuplicateFlowMessage := "A flow with this data already exists"
  const UpdateFailedMessage := "Flow update failed. Please try again."

  /** Failures carry no `flowId`. */
  function Refused(message: string): UpdateFlowResponse
  {
    UpdateFlowResponse(false, message, None)
  }

  /** The handler; `now` is the clock reading `$onUpdate` stores in `updatedAt`. */
  method UpdateFlow(db: Db, params: UpdateFlowParams, now: int) returns (r: UpdateFlowResponse)
    requires db.Valid()
    modifies db
    ensures db.Valid() && db.users == old(db.users)
    ensures !r.success ==> r.flowId.None? && db.flows == old(db.flows)
    ensures params.flowId == "" ==> r == Refused(MissingFlowIdMessage)
    ensures params.flowId != "" && !Truthy(params.flow) ==> r == Refused(FlowDataRequiredMessage)
    ensures params.flowId != "" && Truthy(params.flow) && FlowWithId(old(db.flows), params.flowId).None? ==>
              r == Refused(FlowNotFoundMessage)
    ensures r.success <==>
              params.flowId != "" && Truthy(params.flow) && FlowWithId(old(db.flows), params.flowId).Some?
    ensures r.success ==>
              && r == UpdateFlowResponse(true, UpdatedMessage, Some(params.flowId))
              && db.flows == UpdateFlowsById(old(db.flows), params.flowId, params.flow, now)
  {
    if params.flowId == "" {
      return Refused(MissingFlowIdMessage);
    }

    if !Truthy(params.flow) {
      return Refused(FlowDataRequiredMessage);
    }

    var existingFlow := FlowWithId(db.flows, params.flowId);
    if existingFlow.None? {
      return Refused(FlowNotFoundMessage);
    }

    var err := db.UpdateFlows(params.flowId, params.flow, now);
    if err == Some(UniqueViolation) {
      return Refused(DuplicateFlowMessage);
    } else if err.Some? {
      return Refused(UpdateFailedMessage);
    }
    r := UpdateFlowResponse(true, UpdatedMessage, Some(params.flowId));
  }

  /**
   * With unique flow ids an update rewrites one row: the target keeps its
   * id, owner, name and creation time, takes the new payload and the clock
   * as `updatedAt`; every other flow is unchanged.
   */
  lemma UpdateTouchesOnlyTarget(flows: seq<Flow>, users: seq<User>, k: nat, payload: Json, now: int)
    requires FlowsValid(flows, users) && k < |flows|
    ensures var after := UpdateFlowsById(flows, flows[k].id, payload, now);
            && |after| == |flows|
            && after[k].id == flows[k].id && after[k].userId == flows[k].userId
            && after[k].flowName == flows[k].flowName && after[k].createdAt == flows[k].createdAt
            && after[k].flow == payload && after[k].updatedAt == now
            && forall j :: 0 <= j < |flows| && j != k ==> after[j] == flows[j]
  {
    forall j | 0 <= j < |flows| && j != k
      ensures flows[j].id != flows[k].id
    {
      if j < k { assert flows[j].id != flows[k].id; } else { assert flows[k].id != flows[j].id; }
    }
  }

  /**
   * With a clock that has moved past every stored `updatedAt`, the flow just
   * updated heads its owner's next listing.
   */
  lemma UpdatedFlowListedFirst(users: seq<User>, flows: seq<Flow>, k: nat, payload: Json, now: int)
    requires FlowsValid(flows, users) && k < |flows| && flows[k].userId != ""
    requires forall i :: 0 <= i < |flows| ==> flows[i].updatedAt < now
    ensures var after := UpdateFlowsById(flows, flows[k].id, payload, now);
            var listing := ListFlows(users, after, ListFlowsParams(flows[k].userId));
            && listing.success
            && |listing.flows| > 0
            && listing.flows[0] == ItemOf(flows[k]).(updatedAt := now)
  {
    var owner := flows[k].userId;
    var after := UpdateFlowsById(flows, flows[k].id, payload, now);
    UpdateTouchesOnlyTarget(flows, users, k, payload, now);
    assert HasUserId(users, owner);
    forall i | 0 <= i < |after| && i != k
      ensures after[i].updatedAt < now
    {
      assert after[i] == flows[i];
    }
    FreshestListedFirst(users, after, k);
    assert ItemOf(after[k]) == ItemOf(flows[k]).(updatedAt := now);
  }
}
