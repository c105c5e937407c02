/**
 * `flows.createFlow`: check the required fields, the name length and that
 * the owner exists, then insert one flow under a fresh UUID.
 */
module CreateFlowRpc {
  import opened Wrappers
  import opened JsonValues
  import opened Schema
  import opened Database

  datatype CreateFlowParams = CreateFlowParams(userId: string, flowName: string, flow: Json)

  datatype CreateFlowResponse = CreateFlowResponse(success: bool, message: string, flowId: Option<string>)

  const MissingFieldsMessage := "Missing required fields: userId, flowName, and flow are required"
  const NameTooLongMessage := "Flow name must be 255 characters or less"
  const UserNotFoundMessage := "User not found"
  const CreatedMessage := "Flow created successfully"
  const DuplicateFlowMessage := "A flow with this data already exists"
  const CreationFailedMessage := "Flow creation failed. Please try again."

  /** Failures carry no `flowId`. */
  function Refused(message: string): CreateFlowResponse
  {
    CreateFlowResponse(false, message, None)
  }

  /** `!params.userId || !params.flowName || !params.flow` */
  function MissingFields(params: CreateFlowParams): (missing: bool)
    ensures missing <==> params.userId == "" || params.flowName == "" || params.flow in FalsyJson
  {
    params.userId == "" || params.flowName == "" || !Truthy(params.flow)
  }

  /** Every guard before the insert passes. */
  predicate GuardsPass(users: seq<User>, params: CreateFlowParams)
  {
    !MissingFields(params) && |params.flowName| <= FlowNameWidth && UserWithId(users, params.userId).Some?
  }

  /**
   * The handler. `flowId` is the 36-character text `uuid()` returned and
   * `now` the clock reading both timestamp defaults take.
   */
  method CreateFlow(db: Db, params: CreateFlowParams, flowId: string, now: int) returns (r: CreateFlowResponse)
    requires db.Valid() && |flowId| == 36
    modifies db
    ensures db.Valid() && db.users == old(db.users)
    ensures !r.success ==> r.flowId.None? && db.flows == old(db.flows)
    ensures MissingFields(params) ==> r == Refused(MissingFieldsMessage)
    ensures !MissingFields(params) && |params.flowName| > FlowNameWidth ==> r == Refused(NameTooLongMessage)
    ensures !MissingFields(params) && |params.flowName| <= FlowNameWidth
            && UserWithId(old(db.users), params.userId).None? ==>
              r == Refused(UserNotFoundMessage)
    ensures GuardsPass(old(db.users), params) && FlowWithId(old(db.flows), flowId).Some? ==>
              r == Refused(DuplicateFlowMessage)
    ensures r.success <==> GuardsPass(old(db.users), params) && FlowWithId(old(db.flows), flowId).None?
    ensures r.success ==>
              && r == CreateFlowResponse(true, CreatedMessage, Some(flowId))
              && db.flows == old(db.flows) + [Flow(flowId, params.userId, params.flowName, params.flow, now, now)]
  {
    if params.userId == "" || params.flowName == "" || !Truthy(params.flow) {
      return Refused(MissingFieldsMessage);
    }

    if |params.flowName| > 255 {
      return Refused(NameTooLongMessage);
    }

    var existingUser := UserWithId(db.users, params.userId);
    if existingUser.None? {
      return Refused(UserNotFoundMessage);
    }

    ghost var owner := db.users[existingUser.value];
    assert UserFits(owner);
    var err := db.InsertFlow(Flow(flowId, params.userId, params.flowName, params.flow, now, now));
    if err == Some(UniqueViolation) {
      return Refused(DuplicateFlowMessage);
    } else if err.Some? {
      return Refused(CreationFailedMessage);
    }
    r := CreateFlowResponse(true, CreatedMessage, Some(flowId));
  }

  /**
   * Once the guards pass, the insert can fail only on a clash with an
   * existing flow id: the name fits, the payload is not null and the owner
   * exists, so the generic failure message is never produced.
   */
  lemma CreateInsertFailsOnlyOnDuplicateId(flows: seq<Flow>, users: seq<User>, params: CreateFlowParams,
                                           flowId: string, now: int)
    requires UsersValid(users) && FlowsValid(flows, users) && |flowId| == 36
    requires GuardsPass(users, params)
    ensures var err := FlowInsertError(flows, users, Flow(flowId, params.userId, params.flowName, params.flow, now, now));
            && (err.None? <==> FlowWithId(flows, flowId).None?)
            && (err.Some? ==> err == Some(UniqueViolation))
  {
    var k := UserWithId(users, params.userId).value;
    assert UserFits(users[k]);
    assert HasUserId(users, params.userId);
  }
}
