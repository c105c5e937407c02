/**
 * `flows.listFlows`: after checking that the owner exists, every flow of
 * that owner, most recently updated first, projected to its id, name and
 * timestamps.
 */
module ListFlowsRpc {
  import opened Wrappers
  import opened Schema

  datatype ListFlowsParams = ListFlowsParams(userId: string)

  /** What the listing shows of a flow: never its payload. */
  datatype FlowItem = FlowItem(id: string, flowName: string, createdAt: int, updatedAt: int)

  datatype ListFlowsResponse = ListFlowsResponse(success: bool, message: string, flows: seq<FlowItem>)

  const MissingUserIdMessage := "Missing required field: userId is required"
  const UserNotFoundMessage := "User not found"
  const RetrievedMessage := "Flows retrieved successfully"

  /** Failures carry an empty list. */
  function Refused(message: string): ListFlowsResponse
  {
    ListFlowsResponse(false, message, [])
  }

  /** The `select({ id, flowName, createdAt, updatedAt })` projection. */
  function ItemOf(f: Flow): FlowItem
  {
    FlowItem(f.id, f.flowName, f.createdAt, f.updatedAt)
  }

  /** Two flows show the same item exactly when they agree on id, name and both timestamps: the payload and owner never show. */
  lemma ItemOfHidesPayload(f: Flow, g: Flow)
    ensures ItemOf(f) == ItemOf(g) <==>
              f.id == g.id && f.flowName == g.flowName && f.createdAt == g.createdAt && f.updatedAt == g.updatedAt
  {
  }

  /** `where eq(Flows.userId, userId)`, projected, in table order. */
  function OwnedItems(flows: seq<Flow>, userId: string): (items: seq<FlowItem>)
    ensures |items| <= |flows|
  {
    if flows == [] then []
    else (if flows[0].userId == userId then [ItemOf(flows[0])] else []) + OwnedItems(flows[1..], userId)
  }

  /** `orderBy(desc(updatedAt))`: no item is more recent than the one before it. */
  predicate SortedByUpdatedDesc(items: seq<FlowItem>)
  {
    forall i, j :: 0 <= i < j < |items| ==> items[i].updatedAt >= items[j].updatedAt
  }

  /** Places `x` before the first item it is at least as recent as. */
  function InsertByUpdated(x: FlowItem, items: seq<FlowItem>): (r: seq<FlowItem>)
    requires SortedByUpdatedDesc(items)
    ensures multiset(r) == multiset(items) + multiset{x}
    ensures SortedByUpdatedDesc(r)
  {
    if items == [] then [x]
    else if x.updatedAt >= items[0].updatedAt then [x] + items
    else
      var rest := InsertByUpdated(x, items[1..]);
      InsertBehindHead(x, items, rest);
      [items[0]] + rest
  }

  /** When `x` is older than the head, inserting it into the tail and keeping the head in front is correct. */
  lemma InsertBehindHead(x: FlowItem, items: seq<FlowItem>, rest: seq<FlowItem>)
    requires items != [] && SortedByUpdatedDesc(items) && x.updatedAt < items[0].updatedAt
    requires multiset(rest) == multiset(items[1..]) + multiset{x} && SortedByUpdatedDesc(rest)
    ensures multiset([items[0]] + rest) == multiset(items) + multiset{x}
    ensures SortedByUpdatedDesc([items[0]] + rest)
  {
    assert items == [items[0]] + items[1..];
    forall y | y in multiset(rest)
      ensures items[0].updatedAt >= y.updatedAt
    {
      if y != x {
        assert y in multiset(items[1..]);
        var k :| 0 <= k < |items[1..]| && items[1..][k] == y;
        assert items[k + 1] == y;
      }
    }
    RecentHeadFirst(items[0], rest);
  }

  /** Prepending an item at least as recent as every item keeps the order. */
  lemma RecentHeadFirst(head: FlowItem, rest: seq<FlowItem>)
    requires SortedByUpdatedDesc(rest)
    requires forall y :: y in multiset(rest) ==> head.updatedAt >= y.updatedAt
    ensures SortedByUpdatedDesc([head] + rest)
  {
    forall j | 0 <= j < |rest|
      ensures head.updatedAt >= rest[j].updatedAt
    {
      assert rest[j] in multiset(rest);
    }
  }

  /** The order the database returns the rows in. */
  function SortByUpdatedDesc(items: seq<FlowItem>): (r: seq<FlowItem>)
    ensures multiset(r) == multiset(items)
    ensures SortedByUpdatedDesc(r)
  {
    if items == [] then []
    else
      assert items == [items[0]] + items[1..];
      InsertByUpdated(items[0], SortByUpdatedDesc(items[1..]))
  }

  /** The handler, as a function of the two tables: it reads and never writes. */
  function ListFlows(users: seq<User>, flows: seq<Flow>, params: ListFlowsParams): (r: ListFlowsResponse)
    ensures params.userId == "" ==> r == Refused(MissingUserIdMessage)
    ensures params.userId != "" && !HasUserId(users, params.userId) ==> r == Refused(UserNotFoundMessage)
    ensures r.success <==> params.userId != "" && HasUserId(users, params.userId)
    ensures r.success ==>
              && r.message == RetrievedMessage
              && multiset(r.flows) == multiset(OwnedItems(flows, params.userId))
              && SortedByUpdatedDesc(r.flows)
  {
    if params.userId == "" then
      Refused(MissingUserIdMessage)
    else if UserWithId(users, params.userId).None? then
      Refused(UserNotFoundMessage)
    else
      ListFlowsResponse(true, RetrievedMessage, SortByUpdatedDesc(OwnedItems(flows, params.userId)))
  }

  // ---------------------------------------------------------------- what is listed

  /** The owner's items are exactly the projections of the flows that owner owns. */
  lemma {:induction false} OwnedItemsMembership(flows: seq<Flow>, userId: string, x: FlowItem)
    ensures x in OwnedItems(flows, userId) <==>
              exists i :: 0 <= i < |flows| && flows[i].userId == userId && ItemOf(flows[i]) == x
  {
    if flows != [] {
      OwnedItemsMembership(flows[1..], userId, x);
      if x in OwnedItems(flows[1..], userId) {
        var i :| 0 <= i < |flows[1..]| && flows[1..][i].userId == userId && ItemOf(flows[1..][i]) == x;
        assert flows[i + 1] == flows[1..][i];
      }
      if exists i :: 0 <= i < |flows| && flows[i].userId == userId && ItemOf(flows[i]) == x {
        var i :| 0 <= i < |flows| && flows[i].userId == userId && ItemOf(flows[i]) == x;
        if i > 0 {
          assert flows[1..][i - 1] == flows[i];
        }
      }
    }
  }

  /** A flow no row shares an id with is not among the items. */
  lemma {:induction false} OwnedItemsAbsent(flows: seq<Flow>, userId: string, x: FlowItem)
    requires forall i :: 0 <= i < |flows| ==> flows[i].id != x.id
    ensures multiset(OwnedItems(flows, userId))[x] == 0
  {
    if flows != [] {
      OwnedItemsAbsent(flows[1..], userId, x);
      assert ItemOf(flows[0]) != x;
    }
  }

  /** With unique flow ids, each flow of the owner is listed exactly once. */
  lemma {:induction false} OwnedItemsOnce(flows: seq<Flow>, userId: string, k: nat)
    requires forall i, j :: 0 <= i < j < |flows| ==> flows[i].id != flows[j].id
    requires k < |flows| && flows[k].userId == userId
    ensures multiset(OwnedItems(flows, userId))[ItemOf(flows[k])] == 1
  {
    var x := ItemOf(flows[k]);
    if k == 0 {
      OwnedItemsAbsent(flows[1..], userId, x);
    } else {
      assert flows[1..][k - 1] == flows[k];
      OwnedItemsOnce(flows[1..], userId, k - 1);
      assert flows[0].id != flows[k].id;
    }
  }

  /**
   * A successful listing holds every flow of the owner exactly once and
   * nothing else: every item is the projection of one of the owner's flows.
   */
  lemma ListedExactlyOnce(users: seq<User>, flows: seq<Flow>, params: ListFlowsParams)
    requires FlowsValid(flows, users)
    requires ListFlows(users, flows, params).success
    ensures var listed := ListFlows(users, flows, params).flows;
            && (forall k :: 0 <= k < |flows| && flows[k].userId == params.userId ==>
                  multiset(listed)[ItemOf(flows[k])] == 1)
            && (forall x :: x in listed ==>
                  exists k :: 0 <= k < |flows| && flows[k].userId == params.userId && ItemOf(flows[k]) == x)
  {
    var listed := ListFlows(users, flows, params).flows;
    forall k | 0 <= k < |flows| && flows[k].userId == params.userId
      ensures multiset(listed)[ItemOf(flows[k])] == 1
    {
      OwnedItemsOnce(flows, params.userId, k);
    }
    forall x | x in listed
      ensures exists k :: 0 <= k < |flows| && flows[k].userId == params.userId && ItemOf(flows[k]) == x
    {
      assert x in multiset(listed);
      OwnedItemsMembership(flows, params.userId, x);
    }
  }

  /** An existing user who owns no flow gets a successful, empty listing. */
  lemma NoFlowsListsEmpty(users: seq<User>, flows: seq<Flow>, params: ListFlowsParams)
    requires params.userId != "" && HasUserId(users, params.userId)
    requires forall i :: 0 <= i < |flows| ==> flows[i].userId != params.userId
    ensures ListFlows(users, flows, params) == ListFlowsResponse(true, RetrievedMessage, [])
  {
    var owned := OwnedItems(flows, params.userId);
    if owned != [] {
      OwnedItemsMembership(flows, params.userId, owned[0]);
    }
    assert multiset(ListFlows(users, flows, params).flows) == multiset{};
  }

  // ---------------------------------------------------------------- what is listed first

  /** The owner's flow updated strictly later than every other flow heads that owner's listing. */
  lemma FreshestListedFirst(users: seq<User>, flows: seq<Flow>, k: nat)
    requires k < |flows| && flows[k].userId != "" && HasUserId(users, flows[k].userId)
    requires forall i :: 0 <= i < |flows| && i != k ==> flows[i].updatedAt < flows[k].updatedAt
    ensures var listing := ListFlows(users, flows, ListFlowsParams(flows[k].userId));
            && listing.success
            && |listing.flows| > 0
            && listing.flows[0] == ItemOf(flows[k])
  {
    var owner := flows[k].userId;
    var listing := ListFlows(users, flows, ListFlowsParams(owner)).flows;
    var target := ItemOf(flows[k]);
    OwnedItemsMembership(flows, owner, target);
    assert target in multiset(listing);
    MostRecentFirst(listing, target);
    var head := listing[0];
    assert head in multiset(OwnedItems(flows, owner)) by {
      assert head in multiset(listing);
    }
    OwnedItemsMembership(flows, owner, head);
    var i :| 0 <= i < |flows| && flows[i].userId == owner && ItemOf(flows[i]) == head;
    assert i == k;
  }

  /** In a list ordered by `updatedAt`, the head is at least as recent as any item. */
  lemma MostRecentFirst(items: seq<FlowItem>, x: FlowItem)
    requires SortedByUpdatedDesc(items) && x in multiset(items)
    ensures |items| > 0 && items[0].updatedAt >= x.updatedAt
  {
    var j :| 0 <= j < |items| && items[j] == x;
  }
}
