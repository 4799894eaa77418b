/** From an accepted plan to a committed DAG. */
module Planning {
  import opened DagTypes
  import opened Graph
  import opened Validator
  import opened Text
  import opened Mutations
  import opened WalFormat
  import opened Recovery
  import opened DagManager

  datatype Domain = Domain(domainID: string, assignedPaths: seq<string>)

  datatype TaskNode = TaskNode(id: string, domainID: string, taskSpec: string, targetFiles: seq<string>, priority: int)

  datatype TaskEdge = TaskEdge(fromNode: string, toNode: string)

  datatype PlanResponse = PlanResponse(domains: seq<Domain>, nodes: seq<TaskNode>, edges: seq<TaskEdge>)

  datatype PlanError =
    | NoPlan
    | NoDomains
    | NoNodes
    | BadDomainID(id: string)
    | BadPath(path: string)
    | BadNodeID(id: string)
    | UnknownDomain(id: string)
    | BadEdge(edge: TaskEdge)
    | BadGraph(cause: ValidationError)

  /** A name that survives trimming and is not the placeholder of the prompt. */
  predicate UsableName(id: string) {
    TrimSpace(id) != "" && TrimSpace(id) != "..."
  }

  function PlannedNode(n: TaskNode): DagNode {
    DagNode(n.id, n.domainID, n.taskSpec, STATUS_PENDING, "", n.targetFiles, n.priority, 0, 0, 0, 0, 0, 0)
  }

  function PlannedEdge(e: TaskEdge): DagEdge {
    DagEdge(e.fromNode, e.toNode, Dependency, "")
  }

  function PlannedNodes(plan: PlanResponse): (r: seq<DagNode>)
    ensures |r| == |plan.nodes| && forall i :: 0 <= i < |r| ==> r[i] == PlannedNode(plan.nodes[i])
  {
    seq(|plan.nodes|, i requires 0 <= i < |plan.nodes| => PlannedNode(plan.nodes[i]))
  }

  function PlannedEdges(plan: PlanResponse): (r: seq<DagEdge>)
    ensures |r| == |plan.edges| && forall i :: 0 <= i < |r| ==> r[i] == PlannedEdge(plan.edges[i])
  {
    seq(|plan.edges|, i requires 0 <= i < |plan.edges| => PlannedEdge(plan.edges[i]))
  }

  ghost predicate ValidDomains(domains: seq<Domain>, excluded: string -> bool) {
    && (forall i :: 0 <= i < |domains| ==> UsableName(domains[i].domainID))
    && (forall i, j :: 0 <= i < j < |domains| ==> TrimSpace(domains[i].domainID) != TrimSpace(domains[j].domainID))
    && (forall i, p :: 0 <= i < |domains| && p in domains[i].assignedPaths ==> !excluded(p) && TrimSpace(p) != ".")
  }

  ghost predicate NamesDomain(domains: seq<Domain>, id: string) {
    exists i :: 0 <= i < |domains| && TrimSpace(domains[i].domainID) == TrimSpace(id)
  }

  ghost predicate ValidNodes(domains: seq<Domain>, nodes: seq<TaskNode>, excluded: string -> bool) {
    && (forall i :: 0 <= i < |nodes| ==> UsableName(nodes[i].id) && NamesDomain(domains, nodes[i].domainID))
    && (forall i, j :: 0 <= i < j < |nodes| ==> TrimSpace(nodes[i].id) != TrimSpace(nodes[j].id))
    && (forall i, p :: 0 <= i < |nodes| && p in nodes[i].targetFiles ==> !excluded(p))
  }

  /** The endpoint is a trimmed node name. */
  ghost predicate NamesNode(nodes: seq<TaskNode>, id: string) {
    exists i :: 0 <= i < |nodes| && TrimSpace(nodes[i].id) == id
  }

  ghost predicate ValidEdges(nodes: seq<TaskNode>, edges: seq<TaskEdge>) {
    forall k :: 0 <= k < |edges| ==>
      && edges[k].fromNode != "" && edges[k].toNode != "" && edges[k].fromNode != edges[k].toNode
      && NamesNode(nodes, edges[k].fromNode) && NamesNode(nodes, edges[k].toNode)
  }

  ghost predicate ValidPlan(plan: PlanResponse, excluded: string -> bool) {
    && plan.domains != [] && plan.nodes != []
    && ValidDomains(plan.domains, excluded)
    && ValidNodes(plan.domains, plan.nodes, excluded)
    && ValidEdges(plan.nodes, plan.edges)
    && Acyclic(Ids(PlannedNodes(plan)), PlannedEdges(plan))
    && OneOwnerPerFile(PlannedNodes(plan))
  }

  method CheckDomains(domains: seq<Domain>, excluded: string -> bool)
    returns (r: Outcome<PlanError>, domainIDs: set<string>)
    ensures r.Pass? <==> ValidDomains(domains, excluded)
    ensures r.Pass? ==> forall id :: TrimSpace(id) in domainIDs <==> NamesDomain(domains, id)
  {
    hide TrimSpace;
    domainIDs := {};
    for i := 0 to |domains|
      invariant ValidDomains(domains[..i], excluded)
      invariant forall x :: x in domainIDs <==> exists k :: 0 <= k < i && TrimSpace(domains[k].domainID) == x
    {
      var domain := domains[i];
      var id := TrimSpace(domain.domainID);
      if id == "" || id == "..." {
        assert !UsableName(domains[i].domainID);
        return Fail(BadDomainID(id)), domainIDs;
      }
      if id in domainIDs {
        return Fail(BadDomainID(id)), domainIDs;
      }
      domainIDs := domainIDs + {id};
      for j := 0 to |domain.assignedPaths|
        invariant forall p :: p in domain.assignedPaths[..j] ==> !excluded(p) && TrimSpace(p) != "."
      {
        var path := domain.assignedPaths[j];
        if excluded(path) || TrimSpace(path) == "." {
          assert path in domains[i].assignedPaths;
          return Fail(BadPath(path)), domainIDs;
        }
      }
      assert domains[..i + 1] == domains[..i] + [domain];
      assert domain.assignedPaths[..|domain.assignedPaths|] == domain.assignedPaths;
      DomainsSnoc(domains, i, excluded);
    }
    assert domains[..|domains|] == domains;
    return Pass, domainIDs;
  }

  lemma DomainsSnoc(domains: seq<Domain>, i: nat, excluded: string -> bool)
    requires i < |domains| && ValidDomains(domains[..i], excluded) && UsableName(domains[i].domainID)
    requires forall k :: 0 <= k < i ==> TrimSpace(domains[k].domainID) != TrimSpace(domains[i].domainID)
    requires forall p :: p in domains[i].assignedPaths ==> !excluded(p) && TrimSpace(p) != "."
    ensures ValidDomains(domains[..i + 1], excluded)
  {
    hide TrimSpace;
    var r := domains[..i + 1];
    assert forall k :: 0 <= k < i ==> r[k] == domains[..i][k];
  }

  method CheckNodes(domains: seq<Domain>, domainIDs: set<string>, nodes: seq<TaskNode>, excluded: string -> bool)
    returns (r: Outcome<PlanError>, nodeIDs: set<string>)
    requires forall id :: TrimSpace(id) in domainIDs <==> NamesDomain(domains, id)
    ensures r.Pass? <==> ValidNodes(domains, nodes, excluded)
    ensures r.Pass? ==> forall id :: id in nodeIDs <==> NamesNode(nodes, id)
  {
    hide TrimSpace, NamesDomain;
    nodeIDs := {};
    for i := 0 to |nodes|
      invariant ValidNodes(domains, nodes[..i], excluded)
      invariant forall x :: x in nodeIDs <==> exists k :: 0 <= k < i && TrimSpace(nodes[k].id) == x
    {
      var node := nodes[i];
      var id := TrimSpace(node.id);
      if id == "" || id == "..." {
        assert !UsableName(nodes[i].id);
        return Fail(BadNodeID(id)), nodeIDs;
      }
      if id in nodeIDs {
        return Fail(BadNodeID(id)), nodeIDs;
      }
      if TrimSpace(node.domainID) !in domainIDs {
        assert !NamesDomain(domains, nodes[i].domainID);
        return Fail(UnknownDomain(node.domainID)), nodeIDs;
      }
      for j := 0 to |node.targetFiles|
        invariant forall p :: p in node.targetFiles[..j] ==> !excluded(p)
      {
        var path := node.targetFiles[j];
        if excluded(path) {
          assert path in nodes[i].targetFiles;
          return Fail(BadPath(path)), nodeIDs;
        }
      }
      nodeIDs := nodeIDs + {id};
      assert node.targetFiles[..|node.targetFiles|] == node.targetFiles;
      NodesSnoc(domains, nodes, i, excluded);
    }
    assert nodes[..|nodes|] == nodes;
    return Pass, nodeIDs;
  }

  lemma NodesSnoc(domains: seq<Domain>, nodes: seq<TaskNode>, i: nat, excluded: string -> bool)
    requires i < |nodes| && ValidNodes(domains, nodes[..i], excluded)
    requires UsableName(nodes[i].id) && NamesDomain(domains, nodes[i].domainID)
    requires forall k :: 0 <= k < i ==> TrimSpace(nodes[k].id) != TrimSpace(nodes[i].id)
    requires forall p :: p in nodes[i].targetFiles ==> !excluded(p)
    ensures ValidNodes(domains, nodes[..i + 1], excluded)
  {
    hide TrimSpace, NamesDomain;
    var r := nodes[..i + 1];
    assert forall k :: 0 <= k < i ==> r[k] == nodes[..i][k];
  }

  method CheckEdges(nodes: seq<TaskNode>, nodeIDs: set<string>, edges: seq<TaskEdge>) returns (r: Outcome<PlanError>)
    requires forall id :: id in nodeIDs <==> NamesNode(nodes, id)
    ensures r.Pass? <==> ValidEdges(nodes, edges)
  {
    hide NamesNode;
    for k := 0 to |edges|
      invariant ValidEdges(nodes, edges[..k])
    {
      var e := edges[k];
      if e.fromNode == "" || e.toNode == "" || e.fromNode == e.toNode || e.fromNode !in nodeIDs
          || e.toNode !in nodeIDs {
        assert edges[k] == e;
        return Fail(BadEdge(e));
      }
    }
    assert edges[..|edges|] == edges;
    return Pass;
  }

  /** The plan validator: accepts exactly the valid plans. */
  method ValidatePlanResponse(plan: Option<PlanResponse>, excluded: string -> bool) returns (r: Outcome<PlanError>)
    ensures r.Pass? <==> plan.Some? && ValidPlan(plan.value, excluded)
  {
    hide ValidDomains, ValidNodes, ValidEdges, NamesNode, NamesDomain, TrimSpace, Acyclic, OneOwnerPerFile;
    if plan.None? {
      return Fail(NoPlan);
    }
    var p := plan.value;
    if |p.domains| == 0 {
      return Fail(NoDomains);
    }
    if |p.nodes| == 0 {
      return Fail(NoNodes);
    }
    var domainIDs, nodeIDs;
    r, domainIDs := CheckDomains(p.domains, excluded);
    if r.Fail? {
      return;
    }
    r, nodeIDs := CheckNodes(p.domains, domainIDs, p.nodes, excluded);
    if r.Fail? {
      return;
    }
    r := CheckEdges(p.nodes, nodeIDs, p.edges);
    if r.Fail? {
      return;
    }
    r := CheckGraph(p);
  }

  /** Runs the DAG's own checks on bare copies of the planned nodes and edges. */
  method CheckGraph(plan: PlanResponse) returns (r: Outcome<PlanError>)
    ensures r.Pass? <==> Acyclic(Ids(PlannedNodes(plan)), PlannedEdges(plan)) && OneOwnerPerFile(PlannedNodes(plan))
  {
    hide Acyclic;
    var dagNodes: seq<DagNode> := [];
    for i := 0 to |plan.nodes|
      invariant |dagNodes| == i
      invariant forall k :: 0 <= k < i ==> Bare(dagNodes[k], plan.nodes[k])
    {
      var n := plan.nodes[i];
      dagNodes := dagNodes + [DagNode(n.id, n.domainID, "", STATUS_PENDING, "", n.targetFiles, 0, 0, 0, 0, 0, 0, 0)];
    }
    var dagEdges: seq<DagEdge> := [];
    for i := 0 to |plan.edges|
      invariant dagEdges == PlannedEdges(plan)[..i]
    {
      dagEdges := dagEdges + [DagEdge(plan.edges[i].fromNode, plan.edges[i].toNode, Dependency, "")];
    }
    assert dagEdges == PlannedEdges(plan);
    BareNodesSuffice(dagNodes, plan);
    var checked := ValidateCycles(dagNodes, dagEdges);
    if checked.Pass? {
      checked := ValidateAssignments(dagNodes);
    }
    return if checked.Pass? then Pass else Fail(BadGraph(checked.error));
  }

  predicate Bare(d: DagNode, n: TaskNode) {
    d.id == n.id && d.domainID == n.domainID && d.targetFiles == n.targetFiles
  }

  lemma BareNodesSuffice(bare: seq<DagNode>, plan: PlanResponse)
    requires |bare| == |plan.nodes| && forall k :: 0 <= k < |bare| ==> Bare(bare[k], plan.nodes[k])
    ensures Ids(bare) == Ids(PlannedNodes(plan))
    ensures OneOwnerPerFile(bare) <==> OneOwnerPerFile(PlannedNodes(plan))
  {
    var full := PlannedNodes(plan);
    forall k | 0 <= k < |bare|
      ensures full[k].id == bare[k].id && full[k].domainID == bare[k].domainID
          && full[k].targetFiles == bare[k].targetFiles
    {
      assert Bare(bare[k], plan.nodes[k]);
    }
  }

  // ---------- committing ----------

  /** The DAG after the first n planned nodes and e planned edges. */
  function Committed(dag: DagData, plan: PlanResponse, n: nat, e: nat, clock: nat -> Times): DagData
    requires n <= |plan.nodes| && e <= |plan.edges|
    decreases n + e
  {
    if e > 0 then
      LiveEffect(Committed(dag, plan, n, e - 1, clock), AddEdge(PlannedEdge(plan.edges[e - 1])), 0,
          clock(|plan.nodes| + e - 1))
    else if n > 0 then
      LiveEffect(Committed(dag, plan, n - 1, 0, clock), AddNode(PlannedNode(plan.nodes[n - 1])), 0, clock(n - 1))
    else dag
  }

  /** What commitPlan records about its progress. */
  class BuildSpecAttempt {
    var createdNodeIDs: seq<string>
    var createdEdgeIDs: seq<string>

    constructor ()
      ensures createdNodeIDs == [] && createdEdgeIDs == []
    {
      createdNodeIDs, createdEdgeIDs := [], [];
    }
  }

  function EdgeID(e: DagEdge): string {
    e.fromNode + "->" + e.toNode
  }

  ghost predicate PlanEncodable(codec: Codec, plan: PlanResponse, clock: nat -> Times, ceiling: nat) {
    && (forall k :: 0 <= k < |plan.nodes| ==>
        Encodable(codec, LogEntry(AddNode(PlannedNode(plan.nodes[k])), ceiling, clock(k))))
    && (forall k :: 0 <= k < |plan.edges|
          ==> Encodable(codec, LogEntry(AddEdge(PlannedEdge(plan.edges[k])), ceiling, clock(|plan.nodes| + k))))
  }

  /** The commit stopped after n nodes and e edges: these were accepted, and what would have come next, if anything, is
      rejected. */
  ghost predicate StopsAt(dag: DagData, plan: PlanResponse, n: nat, e: nat, clock: nat -> Times) {
    && n <= |plan.nodes| && e <= |plan.edges| && (e > 0 ==> n == |plan.nodes|)
    && (forall k: nat :: k < n && k < |plan.nodes| ==> NodeAccepted(dag, plan, k, clock))
    && (forall k: nat :: k < e && k < |plan.edges| ==> EdgeAccepted(dag, plan, k, clock))
    && (n < |plan.nodes| ==> !NodeAccepted(dag, plan, n, clock))
    && (n == |plan.nodes| && e < |plan.edges| ==> !EdgeAccepted(dag, plan, e, clock))
  }

  /** The k-th planned node is accepted after those before it. */
  ghost predicate NodeAccepted(dag: DagData, plan: PlanResponse, k: nat, clock: nat -> Times)
    requires k < |plan.nodes|
  {
    Accepts(Committed(dag, plan, k, 0, clock), AddNode(PlannedNode(plan.nodes[k])))
  }

  /** The k-th planned edge is accepted after all nodes and the edges before it. */
  ghost predicate EdgeAccepted(dag: DagData, plan: PlanResponse, k: nat, clock: nat -> Times)
    requires k < |plan.edges|
  {
    Accepts(Committed(dag, plan, |plan.nodes|, k, clock), AddEdge(PlannedEdge(plan.edges[k])))
  }

  lemma CommitOneNode(dag: DagData, plan: PlanResponse, n: nat, clock: nat -> Times, ceiling: nat)
    requires n < |plan.nodes|
    ensures Committed(dag, plan, n + 1, 0, clock)
         == LiveEffect(Committed(dag, plan, n, 0, clock), AddNode(PlannedNode(plan.nodes[n])), ceiling, clock(n))
  {}

  lemma CommitOneEdge(dag: DagData, plan: PlanResponse, e: nat, clock: nat -> Times, ceiling: nat)
    requires e < |plan.edges|
    ensures Committed(dag, plan, |plan.nodes|, e + 1, clock)
         == LiveEffect(Committed(dag, plan, |plan.nodes|, e, clock), AddEdge(PlannedEdge(plan.edges[e])), ceiling,
             clock(|plan.nodes| + e))
  {}

  function NodeNames(plan: PlanResponse, n: nat): (r: seq<string>)
    requires n <= |plan.nodes|
    ensures |r| == n && forall k :: 0 <= k < n ==> r[k] == plan.nodes[k].id
  {
    seq(n, k requires 0 <= k < n => plan.nodes[k].id)
  }

  function EdgeNames(plan: PlanResponse, e: nat): (r: seq<string>)
    requires e <= |plan.edges|
    ensures |r| == e && forall k :: 0 <= k < e ==> r[k] == plan.edges[k].fromNode + "->" + plan.edges[k].toNode
  {
    seq(e, k requires 0 <= k < e => EdgeID(PlannedEdge(plan.edges[k])))
  }

  method CommitNodes(manager: Manager, plan: PlanResponse, attempt: BuildSpecAttempt, clock: nat -> Times)
    returns (r: Outcome<ManagerError>, n: nat)
    requires manager.Valid() && !manager.wal.closed && PlanEncodable(manager.wal.codec, plan, clock, manager.ceiling)
    modifies manager`dag, manager.wal, attempt
    ensures manager.Valid() && !manager.wal.closed && n <= |plan.nodes|
    ensures manager.dag == Committed(old(manager.dag), plan, n, 0, clock)
    ensures r.Pass? <==> n == |plan.nodes|
    ensures n < |plan.nodes| ==> !NodeAccepted(old(manager.dag), plan, n, clock)
    ensures forall k: nat :: k < n ==> NodeAccepted(old(manager.dag), plan, k, clock)
    ensures attempt.createdNodeIDs == old(attempt.createdNodeIDs) + NodeNames(plan, n)
    ensures attempt.createdEdgeIDs == old(attempt.createdEdgeIDs)
  {
    hide Accepts, Encodable, NodeNames, LiveEffect, LogEntry, Next, EncodeLog, AllEncodable;
    assert Committed(manager.dag, plan, 0, 0, clock) == manager.dag;
    hide Committed;
    n, r := 0, Pass;
    while n < |plan.nodes|
      invariant manager.Valid() && !manager.wal.closed && n <= |plan.nodes| && r.Pass?
      invariant manager.dag == Committed(old(manager.dag), plan, n, 0, clock)
      invariant forall k: nat :: k < n ==> NodeAccepted(old(manager.dag), plan, k, clock)
      invariant attempt.createdNodeIDs == old(attempt.createdNodeIDs) + NodeNames(plan, n)
      invariant attempt.createdEdgeIDs == old(attempt.createdEdgeIDs)
    {
      var node := PlannedNode(plan.nodes[n]);
      CommitOneNode(old(manager.dag), plan, n, clock, manager.ceiling);
      r := manager.AddNode(node, clock(n));
      if r.Fail? {
        return;
      }
      attempt.createdNodeIDs := attempt.createdNodeIDs + [node.id];
      assert NodeNames(plan, n + 1) == NodeNames(plan, n) + [node.id];
      n := n + 1;
    }
  }

  method CommitEdges(manager: Manager, plan: PlanResponse, attempt: BuildSpecAttempt, clock: nat -> Times,
                     ghost dag: DagData)
    returns (r: Outcome<ManagerError>, e: nat)
    requires manager.Valid() && !manager.wal.closed && PlanEncodable(manager.wal.codec, plan, clock, manager.ceiling)
    requires manager.dag == Committed(dag, plan, |plan.nodes|, 0, clock)
    modifies manager`dag, manager.wal, attempt
    ensures manager.Valid() && !manager.wal.closed && e <= |plan.edges|
    ensures manager.dag == Committed(dag, plan, |plan.nodes|, e, clock)
    ensures r.Pass? <==> e == |plan.edges|
    ensures e < |plan.edges| ==> !EdgeAccepted(dag, plan, e, clock)
    ensures forall k: nat :: k < e ==> EdgeAccepted(dag, plan, k, clock)
    ensures attempt.createdNodeIDs == old(attempt.createdNodeIDs)
    ensures attempt.createdEdgeIDs == old(attempt.createdEdgeIDs) + EdgeNames(plan, e)
  {
    hide Accepts, Encodable, EdgeNames, LiveEffect, LogEntry, Committed, Next, EncodeLog, AllEncodable;
    e, r := 0, Pass;
    while e < |plan.edges|
      invariant manager.Valid() && !manager.wal.closed && e <= |plan.edges| && r.Pass?
      invariant manager.dag == Committed(dag, plan, |plan.nodes|, e, clock)
      invariant forall k: nat :: k < e ==> EdgeAccepted(dag, plan, k, clock)
      invariant attempt.createdNodeIDs == old(attempt.createdNodeIDs)
      invariant attempt.createdEdgeIDs == old(attempt.createdEdgeIDs) + EdgeNames(plan, e)
    {
      var edge := PlannedEdge(plan.edges[e]);
      CommitOneEdge(dag, plan, e, clock, manager.ceiling);
      r := manager.AddEdge(edge, clock(|plan.nodes| + e));
      if r.Fail? {
        return;
      }
      attempt.createdEdgeIDs := attempt.createdEdgeIDs + [EdgeID(edge)];
      assert EdgeNames(plan, e + 1) == EdgeNames(plan, e) + [EdgeID(edge)];
      e := e + 1;
    }
  }

  /** Adds the planned nodes, then the planned edges, and stops at the first that is rejected; n and e count what was
      added. */
  method CommitPlan(manager: Manager, plan: PlanResponse, attempt: BuildSpecAttempt, clock: nat -> Times)
    returns (r: Outcome<ManagerError>, n: nat, e: nat)
    requires manager.Valid() && !manager.wal.closed && PlanEncodable(manager.wal.codec, plan, clock, manager.ceiling)
    modifies manager`dag, manager.wal, attempt
    ensures manager.Valid() && !manager.wal.closed
    ensures StopsAt(old(manager.dag), plan, n, e, clock)
    ensures manager.dag == Committed(old(manager.dag), plan, n, e, clock)
    ensures r.Pass? <==> n == |plan.nodes| && e == |plan.edges|
    ensures attempt.createdNodeIDs == old(attempt.createdNodeIDs) + NodeNames(plan, n)
    ensures attempt.createdEdgeIDs == old(attempt.createdEdgeIDs) + EdgeNames(plan, e)
  {
    hide Accepts, Encodable, Committed, NodeAccepted, EdgeAccepted;
    r, n := CommitNodes(manager, plan, attempt, clock);
    e := 0;
    if r.Pass? {
      r, e := CommitEdges(manager, plan, attempt, clock, old(manager.dag));
    }
  }

  /** The nodes as stored, stamped with the time of their own call. */
  function StoredNodes(plan: PlanResponse, n: nat, clock: nat -> Times): (r: seq<DagNode>)
    requires n <= |plan.nodes|
    ensures |r| == n && forall i :: 0 <= i < n ==> r[i] == Stamped(PlannedNode(plan.nodes[i]), clock(i).now)
  {
    seq(n, i requires 0 <= i < n => Stamped(PlannedNode(plan.nodes[i]), clock(i).now))
  }

  lemma NodeCommitted(dag: DagData, node: DagNode, t: Times)
    ensures var d := LiveEffect(dag, AddNode(node), 0, t);
      d.nodes == dag.nodes + [Stamped(node, t.now)] && d.edges == dag.edges && d.header.maxNodes == dag.header.maxNodes
  {
    hide CountActive, Stamped;
  }

  lemma EdgeCommitted(dag: DagData, edge: DagEdge, t: Times)
    ensures var d := LiveEffect(dag, AddEdge(edge), 0, t);
      d.nodes == dag.nodes && d.edges == dag.edges + [edge] && d.header.maxNodes == dag.header.maxNodes
  {}

  lemma {:induction false} CommittedNodes(dag: DagData, plan: PlanResponse, n: nat, clock: nat -> Times)
    requires dag.nodes == [] && dag.edges == [] && n <= |plan.nodes|
    ensures var d := Committed(dag, plan, n, 0, clock);
      d.nodes == StoredNodes(plan, n, clock) && d.edges == [] && d.header.maxNodes == dag.header.maxNodes
    decreases n
  {
    hide LiveEffect, Stamped, PlannedNode, StoredNodes;
    if n == 0 {
      assert Committed(dag, plan, 0, 0, clock) == dag;
    } else {
      var node := PlannedNode(plan.nodes[n - 1]);
      hide Committed;
      CommittedNodes(dag, plan, n - 1, clock);
      CommitOneNode(dag, plan, n - 1, clock, 0);
      NodeCommitted(Committed(dag, plan, n - 1, 0, clock), node, clock(n - 1));
      assert StoredNodes(plan, n, clock) == StoredNodes(plan, n - 1, clock) + [Stamped(node, clock(n - 1).now)];
    }
  }

  lemma {:induction false} CommittedEdges(dag: DagData, plan: PlanResponse, e: nat, clock: nat -> Times)
    requires dag.nodes == [] && dag.edges == [] && e <= |plan.edges|
    ensures var d := Committed(dag, plan, |plan.nodes|, e, clock);
      && d.nodes == StoredNodes(plan, |plan.nodes|, clock) && d.edges == PlannedEdges(plan)[..e]
      && d.header.maxNodes == dag.header.maxNodes
    decreases e
  {
    hide LiveEffect, PlannedEdge, StoredNodes, PlannedEdges, Committed;
    if e == 0 {
      CommittedNodes(dag, plan, |plan.nodes|, clock);
    } else {
      var edge := PlannedEdge(plan.edges[e - 1]);
      CommittedEdges(dag, plan, e - 1, clock);
      CommitOneEdge(dag, plan, e - 1, clock, 0);
      EdgeCommitted(Committed(dag, plan, |plan.nodes|, e - 1, clock), edge, clock(|plan.nodes| + e - 1));
      assert PlannedEdges(plan)[..e] == PlannedEdges(plan)[..e - 1] + [edge];
    }
  }

  lemma {:induction false} AllActive(nodes: seq<DagNode>)
    requires forall i :: 0 <= i < |nodes| ==> nodes[i].status == STATUS_PENDING
    ensures CountActive(nodes) == |nodes|
  {
    if nodes != [] {
      AllActive(nodes[..|nodes| - 1]);
    }
  }

  lemma FewerOwners(all: seq<DagNode>, some: seq<DagNode>)
    requires OneOwnerPerFile(all) && |some| <= |all|
    requires forall i :: 0 <= i < |some| ==>
        some[i].domainID == all[i].domainID && some[i].targetFiles == all[i].targetFiles
    ensures OneOwnerPerFile(some)
  {}

  /** On an empty DAG the next planned node is accepted exactly while the ceiling is not reached. */
  lemma NodeAcceptedIffRoom(dag: DagData, plan: PlanResponse, excluded: string -> bool, n: nat, clock: nat -> Times)
    requires dag.nodes == [] && dag.edges == [] && ValidPlan(plan, excluded) && n < |plan.nodes|
    ensures NodeAccepted(dag, plan, n, clock) <==> n < dag.header.maxNodes
  {
    hide ValidDomains, ValidNodes, ValidEdges, Acyclic, StoredNodes, PlannedNodes, Committed;
    CommittedNodes(dag, plan, n, clock);
    var all, test := PlannedNodes(plan), StoredNodes(plan, n, clock) + [PlannedNode(plan.nodes[n])];
    AllActive(test);
    FewerOwners(all, test);
  }

  /** After the nodes, every planned edge is accepted. */
  lemma NextEdgeAccepted(dag: DagData, plan: PlanResponse, excluded: string -> bool, e: nat, clock: nat -> Times)
    requires dag.nodes == [] && dag.edges == [] && ValidPlan(plan, excluded) && e < |plan.edges|
    ensures EdgeAccepted(dag, plan, e, clock)
  {
    hide ValidDomains, ValidNodes, ValidEdges, Acyclic;
    CommittedEdges(dag, plan, e, clock);
    var d := Committed(dag, plan, |plan.nodes|, e, clock);
    var edges := d.edges + [PlannedEdge(plan.edges[e])];
    assert edges == PlannedEdges(plan)[..e + 1];
    StoredIds(plan, clock);
    forall u, v | HasEdge(edges, u, v) ensures HasEdge(PlannedEdges(plan), u, v) {
      var k :| 0 <= k < |edges| && edges[k].fromNode == u && edges[k].toNode == v;
      assert PlannedEdges(plan)[k] == edges[k];
    }
    AcyclicAntitone(Ids(PlannedNodes(plan)), PlannedEdges(plan), Ids(d.nodes), edges);
  }

  lemma StoredIds(plan: PlanResponse, clock: nat -> Times)
    ensures Ids(StoredNodes(plan, |plan.nodes|, clock)) == Ids(PlannedNodes(plan))
  {
    var a, b := StoredNodes(plan, |plan.nodes|, clock), PlannedNodes(plan);
    assert forall i :: 0 <= i < |a| ==> a[i].id == b[i].id;
  }

  /** A valid plan within the ceiling is committed whole to an empty DAG; a larger one stops at the ceiling, without an
      edge. */
  lemma ValidPlanCommits(dag: DagData, plan: PlanResponse, excluded: string -> bool, n: nat, e: nat,
                         clock: nat -> Times)
    requires dag.nodes == [] && dag.edges == [] && ValidPlan(plan, excluded)
    requires StopsAt(dag, plan, n, e, clock)
    ensures n == |plan.nodes| && e == |plan.edges| <==> |plan.nodes| <= dag.header.maxNodes
    ensures |plan.nodes| > dag.header.maxNodes ==> n == dag.header.maxNodes && e == 0
    ensures var d := Committed(dag, plan, n, e, clock);
      d.nodes == StoredNodes(plan, n, clock) && d.edges == PlannedEdges(plan)[..e]
  {
    hide ValidPlan, Accepts, NodeAccepted, EdgeAccepted;
    if n < |plan.nodes| {
      NodeAcceptedIffRoom(dag, plan, excluded, n, clock);
      CommittedNodes(dag, plan, n, clock);
    } else {
      if e < |plan.edges| {
        NextEdgeAccepted(dag, plan, excluded, e, clock);
      }
      CommittedEdges(dag, plan, e, clock);
    }
    if n > 0 {
      NodeAcceptedIffRoom(dag, plan, excluded, n - 1, clock);
    }
  }
}
