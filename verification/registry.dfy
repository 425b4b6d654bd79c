/** The node directory (src/registry/registry.ts): a process-wide list of
    registered nodes and the `/registerNode` handler that validates a request,
    rejects a duplicate node id and otherwise appends the node.

    The handler's reply is a `Result`: `Success` with the stored node for the
    200 reply, `Failure` with the reason for each 400 reply. */
module Registry {
  import opened Wrappers

  /** A registered node: its numeric id and its public key text. */
  datatype Node = Node(nodeId: int, pubKey: string)

  /** The two fields read from the request's JSON body; `None` when absent. */
  datatype RegisterNodeBody = RegisterNodeBody(nodeId: Option<int>, pubKey: Option<string>)

  /** The two 400 replies of the handler. */
  datatype RegisterError =
    | MissingFields                     // "Node ID and public key are required."
    | AlreadyRegistered(nodeId: int)    // "Node <id> is already registered."

  /** JavaScript truthiness of the id field: absent and 0 are falsy. */
  predicate TruthyId(nodeId: Option<int>)
  {
    nodeId.Some? && nodeId.value != 0
  }

  /** JavaScript truthiness of the key field: absent and the empty string are falsy. */
  predicate TruthyKey(pubKey: Option<string>)
  {
    pubKey.Some? && pubKey.value != ""
  }

  /** Some stored entry has this id, compared with strict equality. */
  predicate HasNode(nodes: seq<Node>, nodeId: int)
  {
    exists i | 0 <= i < |nodes| :: nodes[i].nodeId == nodeId
  }

  /** No two stored entries share a node id. */
  ghost predicate DistinctIds(nodes: seq<Node>)
  {
    forall i, j | 0 <= i < j < |nodes| :: nodes[i].nodeId != nodes[j].nodeId
  }

  /** Every stored entry passed the handler's truthiness check. */
  ghost predicate WellFormed(nodes: seq<Node>)
  {
    forall i | 0 <= i < |nodes| :: nodes[i].nodeId != 0 && nodes[i].pubKey != ""
  }

  /** The registry invariant. */
  ghost predicate Consistent(nodes: seq<Node>)
  {
    DistinctIds(nodes) && WellFormed(nodes)
  }

  /** One request to `/registerNode` against the list `nodes`: the reply and the
      list afterwards. The request is accepted exactly when both fields are truthy
      and the id is not yet registered; the missing-field check comes first, so a
      request with a falsy field is `MissingFields` even when its id is taken. An
      accepted request appends exactly its node; a rejected one changes nothing. */
  ghost function Register(nodes: seq<Node>, body: RegisterNodeBody): (out: (Result<Node, RegisterError>, seq<Node>))
    ensures out.0.Success? <==>
              TruthyId(body.nodeId) && TruthyKey(body.pubKey) && !HasNode(nodes, body.nodeId.value)
    ensures !(TruthyId(body.nodeId) && TruthyKey(body.pubKey)) ==> out.0 == Failure(MissingFields)
    ensures TruthyId(body.nodeId) && TruthyKey(body.pubKey) && HasNode(nodes, body.nodeId.value) ==>
              out.0 == Failure(AlreadyRegistered(body.nodeId.value))
    ensures out.0.Success? ==>
              out.0.value == Node(body.nodeId.value, body.pubKey.value) && out.1 == nodes + [out.0.value]
    ensures out.0.Failure? ==> out.1 == nodes
    ensures |out.1| == |nodes| + (if out.0.Success? then 1 else 0)
  {
    if !TruthyId(body.nodeId) || !TruthyKey(body.pubKey) then
      (Failure(MissingFields), nodes)
    else if HasNode(nodes, body.nodeId.value) then
      (Failure(AlreadyRegistered(body.nodeId.value)), nodes)
    else
      var node := Node(body.nodeId.value, body.pubKey.value);
      (Success(node), nodes + [node])
  }

  /** Every registration keeps the registry invariant. */
  lemma RegisterPreservesConsistency(nodes: seq<Node>, body: RegisterNodeBody)
    requires Consistent(nodes)
    ensures Consistent(Register(nodes, body).1)
  {
  }

  /** Once an id is registered, any later well-formed request for the same id is
      turned away as a duplicate, whatever public key it carries. */
  lemma ReRegistrationRejected(nodes: seq<Node>, first: RegisterNodeBody, again: RegisterNodeBody)
    requires Register(nodes, first).0.Success?
    requires TruthyId(again.nodeId) && TruthyKey(again.pubKey) && again.nodeId == first.nodeId
    ensures Register(Register(nodes, first).1, again).0 == Failure(AlreadyRegistered(first.nodeId.value))
  {
    var nodes' := Register(nodes, first).1;
    assert nodes'[|nodes|].nodeId == first.nodeId.value;
  }

  /** The list after the server has handled `requests` in order, starting from `nodes`. */
  ghost function Replay(nodes: seq<Node>, requests: seq<RegisterNodeBody>): seq<Node>
    decreases |requests|
  {
    if requests == [] then nodes
    else Replay(Register(nodes, requests[0]).1, requests[1..])
  }

  /** However many requests the server handles, the registry stays consistent. */
  lemma {:induction false} ReplayPreservesConsistency(nodes: seq<Node>, requests: seq<RegisterNodeBody>)
    requires Consistent(nodes)
    ensures Consistent(Replay(nodes, requests))
    decreases |requests|
  {
    if requests != [] {
      RegisterPreservesConsistency(nodes, requests[0]);
      ReplayPreservesConsistency(Register(nodes, requests[0]).1, requests[1..]);
    }
  }

  /** Registrations only ever append: earlier entries keep their values and order. */
  lemma {:induction false} ReplayOnlyAppends(nodes: seq<Node>, requests: seq<RegisterNodeBody>)
    ensures |nodes| <= |Replay(nodes, requests)| <= |nodes| + |requests|
    ensures Replay(nodes, requests)[..|nodes|] == nodes
    decreases |requests|
  {
    if requests != [] {
      var next := Register(nodes, requests[0]).1;
      ReplayOnlyAppends(next, requests[1..]);
      assert next[..|nodes|] == nodes;
    }
  }

  /** The module-level `registeredNodes` list and the handler that updates it. */
  class NodeRegistry {
    var registeredNodes: seq<Node>

    ghost predicate Valid()
      reads this
    {
      Consistent(registeredNodes)
    }

    /** The module-level list starts empty. */
    constructor ()
      ensures Valid() && registeredNodes == []
    {
      registeredNodes := [];
    }

    /** The `some` scan: is a node with this id registered? Stops at the first match. */
    method IsRegistered(nodeId: int) returns (found: bool)
      ensures found <==> HasNode(registeredNodes, nodeId)
    {
      found := false;
      var i := 0;
      while i < |registeredNodes| && !found
        invariant 0 <= i <= |registeredNodes|
        invariant found <==> exists k | 0 <= k < i :: registeredNodes[k].nodeId == nodeId
      {
        found := registeredNodes[i].nodeId == nodeId;
        i := i + 1;
      }
    }

    /** The body of the `/registerNode` handler. */
    method RegisterNode(body: RegisterNodeBody) returns (reply: Result<Node, RegisterError>)
      requires Valid()
      modifies this
      ensures Valid()
      ensures (reply, registeredNodes) == Register(old(registeredNodes), body)
      ensures reply.Success? ==> registeredNodes == old(registeredNodes) + [reply.value]
      ensures reply.Failure? ==> registeredNodes == old(registeredNodes)
    {
      if !TruthyId(body.nodeId) || !TruthyKey(body.pubKey) {
        return Failure(MissingFields);
      }
      var nodeId, pubKey := body.nodeId.value, body.pubKey.value;
      var taken := IsRegistered(nodeId);
      if taken {
        return Failure(AlreadyRegistered(nodeId));
      }
      registeredNodes := registeredNodes + [Node(nodeId, pubKey)];
      reply := Success(Node(nodeId, pubKey));
      RegisterPreservesConsistency(old(registeredNodes), body);
    }
  }
}
