/**
 * `flows.getFlow`: a read-only lookup of one flow by id, answering with its
 * payload and name.
 */
module GetFlowRpc {
  import opened Wrappers
  import opened JsonValues
  import opened Schema

  datatype GetFlowParams = GetFlowParams(flowId: string)

  datatype GetFlowResponse = GetFlowResponse(
    success: bool, message: string, flow: Option<Json>, flowName: Option<string>)

  const MissingFlowIdMessage := "Missing required field: flowId is required"
  const FlowNotFoundMessage := "Flow not found"
  const RetrievedMessage := "Flow retrieved successfully"

  /** Failures carry neither `flow` nor `flowName`. */
  function Refused(message: string): GetFlowResponse
  {
    GetFlowResponse(false, message, None, None)
  }

  /**
   * The handler, as a function of the `flows` table: it reads and never
   * writes.
   */
  function GetFlow(flows: seq<Flow>, params: GetFlowParams): (r: GetFlowResponse)
    ensures params.flowId == "" ==> r == Refused(MissingFlowIdMessage)
    ensures params.flowId != "" && (forall i :: 0 <= i < |flows| ==> flows[i].id != params.flowId) ==>
              r == Refused(FlowNotFoundMessage)
    ensures r.success <==> params.flowId != "" && exists i :: 0 <= i < |flows| && flows[i].id == params.flowId
    ensures r.success ==>
              && r.message == RetrievedMessage
              && exists i :: 0 <= i < |flows| && flows[i].id == params.flowId
                             && r.flow == Some(flows[i].flow) && r.flowName == Some(flows[i].flowName)
  {
    if params.flowId == "" then
      Refused(MissingFlowIdMessage)
    else
      match FlowWithId(flows, params.flowId)
      case None => Refused(FlowNotFoundMessage)
      case Some(k) => GetFlowResponse(true, RetrievedMessage, Some(flows[k].flow), Some(flows[k].flowName))
  }

  /** With unique flow ids the answer is the payload and name of the one row with that id. */
  lemma GetFlowReturnsStoredRow(flows: seq<Flow>, users: seq<User>, k: nat)
    requires FlowsValid(flows, users) && k < |flows| && flows[k].id != ""
    ensures GetFlow(flows, GetFlowParams(flows[k].id))
            == GetFlowResponse(true, RetrievedMessage, Some(flows[k].flow), Some(flows[k].flowName))
  {
    assert FlowWithId(flows, flows[k].id).Some?;
  }

  /** A flow just appended under a fresh, non-empty id can be read back: its payload and name, unchanged. */
  lemma CreatedFlowIsRetrievable(flows: seq<Flow>, f: Flow)
    requires f.id != "" && forall i :: 0 <= i < |flows| ==> flows[i].id != f.id
    ensures GetFlow(flows + [f], GetFlowParams(f.id))
            == GetFlowResponse(true, RetrievedMessage, Some(f.flow), Some(f.flowName))
  {
    var grown := flows + [f];
    assert grown[|flows|] == f;
    assert forall i :: 0 <= i < |flows| ==> grown[i].id != f.id;
  }
}
