/** Every command and every log entry in words: which field of which node ends up with which value, and what is
    asked first. */
module Effects {
  import opened DagTypes
  import opened Graph
  import opened Validator
  import opened Text
  import opened Mutations
  import opened Idempotence

  /** Node i is the first of this name. */
  predicate IsFirst(nodes: seq<DagNode>, id: string, i: nat) {
    && i < |nodes| && nodes[i].id == id
    && forall j :: 0 <= j < i ==> nodes[j].id != id
  }

  lemma FirstOfName(nodes: seq<DagNode>, id: string)
    ensures forall i: nat :: IsFirst(nodes, id, i) <==> i == FirstIndex(nodes, id) < |nodes|
  {}

  /** The nodes with node i replaced. */
  predicate OneReplaced(before: seq<DagNode>, after: seq<DagNode>, i: nat, n: DagNode) {
    && |after| == |before| && i < |after| && after[i] == n
    && forall j :: 0 <= j < |after| && j != i ==> after[j] == before[j]
  }

  // ---------- counting ----------

  /** The positions of the nodes that are neither Done (2) nor Failed (3). */
  function ActivePositions(nodes: seq<DagNode>): set<nat> {
    set i: nat | i < |nodes| && nodes[i].status != 2 && nodes[i].status != 3
  }

  lemma {:induction false} CountActiveMeaning(nodes: seq<DagNode>)
    ensures CountActive(nodes) == |ActivePositions(nodes)|
  {
    if nodes != [] {
      var last := |nodes| - 1;
      CountActiveMeaning(nodes[..last]);
      var before, after := ActivePositions(nodes[..last]), ActivePositions(nodes);
      if nodes[last].status != 2 && nodes[last].status != 3 {
        assert after == before + {last};
      } else {
        assert after == before;
      }
    }
  }

  // ---------- an update ----------

  /** The node after an update: a Done node (2) gives up its task, metrics replace all four figures or none. */
  function UpdatedNode(n: DagNode, status: NodeStatus, metrics: Option<NodeMetrics>, time: int): DagNode {
    match metrics
    case None =>
      DagNode(n.id, n.domainID, if status == 2 then "" else n.taskSpec, status, n.assignedAgent, n.targetFiles,
              n.priority, n.createdAt, time, n.startedAt, n.completedAt, n.promptTokens, n.completionTokens)
    case Some(NodeMetrics(started, completed, prompt, completion)) =>
      DagNode(n.id, n.domainID, if status == 2 then "" else n.taskSpec, status, n.assignedAgent, n.targetFiles,
              n.priority, n.createdAt, time, started, completed, prompt, completion)
  }

  lemma UpdateEffect(dag: DagData, id: string, agentID: string, status: NodeStatus, metrics: Option<NodeMetrics>,
                     enforceOwner: bool, ceiling: nat, t: Times, i: nat)
    requires IsFirst(dag.nodes, id, i)
    ensures var after := LiveEffect(dag, UpdateNode(id, agentID, status, metrics, enforceOwner), ceiling, t);
      && OneReplaced(dag.nodes, after.nodes, i, UpdatedNode(dag.nodes[i], status, metrics, t.now))
      && after.edges == dag.edges
      && after.header == DagHeader(dag.header.schemaVersion, |ActivePositions(after.nodes)|, dag.header.maxNodes, t.now)
  {
    FirstOfName(dag.nodes, id);
    CountActiveMeaning(LiveEffect(dag, UpdateNode(id, agentID, status, metrics, enforceOwner), ceiling, t).nodes);
    hide CountActive, ActivePositions, FirstIndex;
  }

  /** The four figures of an update, one by one. */
  lemma MetricsEffect(dag: DagData, id: string, agentID: string, status: NodeStatus, m: NodeMetrics,
                      enforceOwner: bool, ceiling: nat, t: Times, i: nat)
    requires IsFirst(dag.nodes, id, i)
    ensures var after := LiveEffect(dag, UpdateNode(id, agentID, status, Some(m), enforceOwner), ceiling, t);
      && i < |after.nodes|
      && after.nodes[i].startedAt == m.startedAt
      && after.nodes[i].completedAt == m.completedAt
      && after.nodes[i].promptTokens == m.promptTokens
      && after.nodes[i].completionTokens == m.completionTokens
  {
    UpdateEffect(dag, id, agentID, status, Some(m), enforceOwner, ceiling, t, i);
    hide LiveEffect;
  }

  lemma ReplayedUpdate(dag: DagData, id: string, status: NodeStatus, metrics: Option<NodeMetrics>, time: int, i: nat)
    requires IsFirst(dag.nodes, id, i)
    ensures var after := ApplyMutation(dag, WalEntry(MutUpdateNode(id, status, metrics), time));
      && OneReplaced(dag.nodes, after.nodes, i, UpdatedNode(dag.nodes[i], status, metrics, time))
      && after.edges == dag.edges
      && after.header == DagHeader(dag.header.schemaVersion, |ActivePositions(after.nodes)|, dag.header.maxNodes, time)
  {
    FirstOfName(dag.nodes, id);
    CountActiveMeaning(ApplyMutation(dag, WalEntry(MutUpdateNode(id, status, metrics), time)).nodes);
    hide CountActive, ActivePositions, FirstIndex;
  }

  // ---------- an assignment ----------

  /** The node bound to an agent, with a new update time. */
  function BoundNode(n: DagNode, agentID: string, time: int): DagNode {
    DagNode(n.id, n.domainID, n.taskSpec, n.status, agentID, n.targetFiles, n.priority, n.createdAt, time, n.startedAt,
            n.completedAt, n.promptTokens, n.completionTokens)
  }

  lemma AssignEffect(dag: DagData, id: string, agentID: string, ceiling: nat, t: Times, i: nat)
    requires IsFirst(dag.nodes, id, i)
    ensures var after := LiveEffect(dag, AssignNode(id, agentID), ceiling, t);
      && OneReplaced(dag.nodes, after.nodes, i, BoundNode(dag.nodes[i], agentID, t.now))
      && after.edges == dag.edges
      && after.header
          == DagHeader(dag.header.schemaVersion, dag.header.activeNodeCount, dag.header.maxNodes, t.now)
  {
    FirstOfName(dag.nodes, id);
    hide FirstIndex;
  }

  /** On replay the update time stays. */
  lemma ReplayedAssign(dag: DagData, id: string, agentID: string, time: int, i: nat)
    requires IsFirst(dag.nodes, id, i)
    ensures var after := ApplyMutation(dag, WalEntry(MutAssignNode(id, agentID), time));
      && OneReplaced(dag.nodes, after.nodes, i, BoundNode(dag.nodes[i], agentID, dag.nodes[i].updatedAt))
      && after.edges == dag.edges
      && after.header == DagHeader(dag.header.schemaVersion, dag.header.activeNodeCount, dag.header.maxNodes, time)
  {
    FirstOfName(dag.nodes, id);
    hide FirstIndex;
  }

  // ---------- new nodes ----------

  /** A node with these creation and update times, and otherwise as it came. */
  function Dated(n: DagNode, created: int, updated: int): DagNode {
    DagNode(n.id, n.domainID, n.taskSpec, n.status, n.assignedAgent, n.targetFiles, n.priority, created, updated,
            n.startedAt, n.completedAt, n.promptTokens, n.completionTokens)
  }

  /** A creation time of zero is none. */
  function CreationTime(n: DagNode, now: int): int {
    if n.createdAt == 0 then now else n.createdAt
  }

  /** An added node counts as updated when it was created. */
  lemma AddEffect(dag: DagData, n: DagNode, ceiling: nat, t: Times)
    ensures var after := LiveEffect(dag, AddNode(n), ceiling, t); var created := CreationTime(n, t.now);
      && after.nodes == dag.nodes + [Dated(n, created, created)]
      && after.edges == dag.edges
      && after.header
          == DagHeader(dag.header.schemaVersion, |ActivePositions(after.nodes)|, dag.header.maxNodes, t.later)
  {
    CountActiveMeaning(LiveEffect(dag, AddNode(n), ceiling, t).nodes);
    hide CountActive, ActivePositions;
  }

  lemma ReplayedAdd(dag: DagData, n: DagNode, time: int)
    ensures var after := ApplyMutation(dag, WalEntry(MutAddNode(n), time));
      && after.nodes == dag.nodes + [n] && after.edges == dag.edges
      && after.header == DagHeader(dag.header.schemaVersion, |ActivePositions(after.nodes)|, dag.header.maxNodes, time)
  {
    CountActiveMeaning(ApplyMutation(dag, WalEntry(MutAddNode(n), time)).nodes);
    hide CountActive, ActivePositions;
  }

  /** The finished parent: Done (2), without its task. */
  function FinishedNodeOf(n: DagNode): DagNode {
    DagNode(n.id, n.domainID, "", 2, n.assignedAgent, n.targetFiles, n.priority, n.createdAt, n.updatedAt, n.startedAt,
            n.completedAt, n.promptTokens, n.completionTokens)
  }

  /** A split finishes the first parent and appends the sub-nodes, updated now. */
  lemma SplitEffect(dag: DagData, parentID: string, subs: seq<DagNode>, ceiling: nat, t: Times, i: nat)
    requires IsFirst(dag.nodes, parentID, i)
    ensures var after := LiveEffect(dag, SplitNode(parentID, subs), ceiling, t); var n := |dag.nodes|;
      && |after.nodes| == n + |subs|
      && OneReplaced(dag.nodes, after.nodes[..n], i, FinishedNodeOf(dag.nodes[i]))
      && (forall k :: 0 <= k < |subs| ==> after.nodes[n + k] == Dated(subs[k], CreationTime(subs[k], t.now), t.now))
      && after.edges == dag.edges
      && after.header == DagHeader(dag.header.schemaVersion, |ActivePositions(after.nodes)|, dag.header.maxNodes, t.now)
  {
    FirstOfName(dag.nodes, parentID);
    CountActiveMeaning(LiveEffect(dag, SplitNode(parentID, subs), ceiling, t).nodes);
    hide CountActive, ActivePositions, FirstIndex, StampedSubs;
  }

  lemma ReplayedSplit(dag: DagData, parentID: string, subs: seq<DagNode>, time: int, i: nat)
    requires IsFirst(dag.nodes, parentID, i)
    ensures var after := ApplyMutation(dag, WalEntry(MutSplitNode(parentID, subs), time)); var n := |dag.nodes|;
      && |after.nodes| == n + |subs| && after.nodes[n..] == subs
      && OneReplaced(dag.nodes, after.nodes[..n], i, FinishedNodeOf(dag.nodes[i]))
      && after.edges == dag.edges
      && after.header == DagHeader(dag.header.schemaVersion, |ActivePositions(after.nodes)|, dag.header.maxNodes, time)
  {
    FirstOfName(dag.nodes, parentID);
    CountActiveMeaning(ApplyMutation(dag, WalEntry(MutSplitNode(parentID, subs), time)).nodes);
    hide CountActive, ActivePositions, FirstIndex;
  }

  // ---------- entries that find nothing ----------

  /** Replay passes over names it does not find and over entries of a kind it does not know; both set the time. */
  lemma ReplayedMisses(dag: DagData, id: string, agentID: string, status: NodeStatus, metrics: Option<NodeMetrics>,
                       subs: seq<DagNode>, code: nat, time: int)
    ensures ApplyMutation(dag, WalEntry(MutUnknown(code), time))
         == dag.(header := dag.header.(lastModified := time))
    ensures id !in Ids(dag.nodes) ==>
      && ApplyMutation(dag, WalEntry(MutUpdateNode(id, status, metrics), time)).nodes == dag.nodes
      && ApplyMutation(dag, WalEntry(MutAssignNode(id, agentID), time)).nodes == dag.nodes
      && ApplyMutation(dag, WalEntry(MutSplitNode(id, subs), time)).nodes == dag.nodes + subs
  {
    hide CountActive;
    if id !in Ids(dag.nodes) {
      assert FirstIndex(dag.nodes, id) == |dag.nodes|;
    }
  }

  // ---------- edges and whole documents ----------

  lemma EdgeEffects(dag: DagData, e: DagEdge, ceiling: nat, t: Times, time: int)
    ensures var after := LiveEffect(dag, AddEdge(e), ceiling, t);
      && after.edges == dag.edges + [e] && after.nodes == dag.nodes
      && after.header
          == DagHeader(dag.header.schemaVersion, dag.header.activeNodeCount, dag.header.maxNodes, t.later)
    ensures var after := ApplyMutation(dag, WalEntry(MutAddEdge(e), time));
      && after.edges == dag.edges + [e] && after.nodes == dag.nodes
      && after.header == DagHeader(dag.header.schemaVersion, dag.header.activeNodeCount, dag.header.maxNodes, time)
    ensures var after := ApplyMutation(dag, WalEntry(MutRemoveEdge(e.fromNode, e.toNode), time));
      && (forall x :: x in after.edges <==> x in dag.edges && (x.fromNode != e.fromNode || x.toNode != e.toNode))
      && after.nodes == dag.nodes
      && after.header == DagHeader(dag.header.schemaVersion, dag.header.activeNodeCount, dag.header.maxNodes, time)
  {
    hide FilterEdges;
    forall x ensures x in FilterEdges(dag.edges, e.fromNode, e.toNode)
                <==> x in dag.edges && (x.fromNode != e.fromNode || x.toNode != e.toNode) {
      FilterMembers(dag.edges, e.fromNode, e.toNode, x);
    }
  }

  /** A loaded document keeps nodes and edges and gets the first schema version, its true count, the manager's ceiling
      and the time. Its log entry carries the caller's count. */
  lemma BulkLoadEffect(dag: DagData, loaded: DagData, ceiling: nat, t: Times)
    ensures LiveEffect(dag, BulkLoad(loaded), ceiling, t)
         == DagData(DagHeader(1, |ActivePositions(loaded.nodes)|, ceiling, t.now), loaded.nodes, loaded.edges)
    ensures ApplyMutation(dag, LogEntry(BulkLoad(loaded), ceiling, t))
         == DagData(DagHeader(1, loaded.header.activeNodeCount, ceiling, t.logged), loaded.nodes, loaded.edges)
  {
    CountActiveMeaning(loaded.nodes);
    hide CountActive, ActivePositions;
  }

  /** What each command writes to the log, with the time of the log write. */
  lemma EntriesLogged(ceiling: nat, t: Times, n: DagNode, id: string, agentID: string, status: NodeStatus,
                      metrics: Option<NodeMetrics>, enforceOwner: bool, e: DagEdge, subs: seq<DagNode>)
    ensures var created := CreationTime(n, t.now);
      LogEntry(AddNode(n), ceiling, t) == WalEntry(MutAddNode(Dated(n, created, created)), t.logged)
    ensures LogEntry(UpdateNode(id, agentID, status, metrics, enforceOwner), ceiling, t)
         == WalEntry(MutUpdateNode(id, status, metrics), t.logged)
    ensures LogEntry(AssignNode(id, agentID), ceiling, t) == WalEntry(MutAssignNode(id, agentID), t.logged)
    ensures LogEntry(AddEdge(e), ceiling, t) == WalEntry(MutAddEdge(e), t.logged)
    ensures var dated := seq(|subs|, k requires 0 <= k < |subs| => Dated(subs[k], CreationTime(subs[k], t.now), t.now));
      LogEntry(SplitNode(id, subs), ceiling, t) == WalEntry(MutSplitNode(id, dated), t.logged)
  {
    hide StampedSubs;
    var dated := seq(|subs|, k requires 0 <= k < |subs| => Dated(subs[k], CreationTime(subs[k], t.now), t.now));
    assert StampedSubs(subs, t.now) == dated;
  }

  // ---------- what is asked first ----------

  /** A report is accepted from the assigned agent only, blanks around the names aside, and never on a node without
      one. */
  lemma OnlyTheOwnerReports(dag: DagData, id: string, agentID: string, status: NodeStatus, metrics: Option<NodeMetrics>,
                            i: nat)
    requires IsFirst(dag.nodes, id, i)
    ensures Accepts(dag, UpdateNode(id, agentID, status, metrics, true)) <==>
        TrimSpace(dag.nodes[i].assignedAgent) == TrimSpace(agentID) != ""
    ensures Accepts(dag, UpdateNode(id, agentID, status, metrics, false))
  {
    FirstOfName(dag.nodes, id);
    hide TrimSpace;
  }

  /** Unknown names are refused. */
  lemma UnknownNameRefused(dag: DagData, id: string, agentID: string, status: NodeStatus, metrics: Option<NodeMetrics>,
                           enforceOwner: bool, subs: seq<DagNode>)
    requires id !in Ids(dag.nodes)
    ensures !Accepts(dag, UpdateNode(id, agentID, status, metrics, enforceOwner))
    ensures !Accepts(dag, AssignNode(id, agentID)) && !Accepts(dag, SplitNode(id, subs))
  {
    assert FirstIndex(dag.nodes, id) == |dag.nodes|;
  }

  /** A node is added exactly while there is room for it, every file has one owner, and nobody else owns one of the
      node's files. */
  lemma AddAccepted(dag: DagData, n: DagNode)
    ensures Accepts(dag, AddNode(n)) <==>
      && OneOwnerPerFile(dag.nodes)
      && |ActivePositions(dag.nodes)| + (if n.status == 2 || n.status == 3 then 0 else 1) <= dag.header.maxNodes
      && forall k, f :: 0 <= k < |dag.nodes| && f in dag.nodes[k].targetFiles && f in n.targetFiles ==>
           dag.nodes[k].domainID == n.domainID
  {
    CountActiveMeaning(dag.nodes);
    CountActiveConcat(dag.nodes, [n]);
    assert CountActive([n]) == if n.status == 2 || n.status == 3 then 0 else 1 by {
      assert [n][..0] == [];
    }
    var all := dag.nodes + [n];
    assert forall k :: 0 <= k < |dag.nodes| ==> all[k] == dag.nodes[k];
    assert all[|dag.nodes|] == n;
    hide CountActive, ActivePositions;
  }

  /** The unfinished nodes not called id. */
  function ActiveOthers(nodes: seq<DagNode>, id: string): set<nat> {
    set i: nat | i < |nodes| && nodes[i].status != 2 && nodes[i].status != 3 && nodes[i].id != id
  }

  /** A split is accepted exactly when the parent exists and the other unfinished nodes leave room for the sub-nodes. */
  lemma SplitAccepted(dag: DagData, parentID: string, subs: seq<DagNode>)
    ensures Accepts(dag, SplitNode(parentID, subs)) <==>
      && parentID in Ids(dag.nodes)
      && |ActiveOthers(dag.nodes, parentID)| + |ActivePositions(subs)| <= dag.header.maxNodes
  {
    var marked := MarkAllDone(dag.nodes, parentID);
    CountActiveMeaning(marked);
    CountActiveMeaning(subs);
    CountActiveConcat(marked, subs);
    OthersStayActive(dag.nodes, parentID);
    KnownName(dag.nodes, parentID);
    hide CountActive, ActivePositions, ActiveOthers, MarkAllDone, FirstIndex, Ids;
  }

  lemma OthersStayActive(nodes: seq<DagNode>, id: string)
    ensures ActivePositions(MarkAllDone(nodes, id)) == ActiveOthers(nodes, id)
  {
    hide MarkAllDone;
  }

  lemma KnownName(nodes: seq<DagNode>, id: string)
    ensures FirstIndex(nodes, id) < |nodes| <==> id in Ids(nodes)
  {}

  /** A document is loaded exactly when it has no cycle, one domain per file, room by its own limit, and real endpoints
      for its stub edges; its dependency edges may dangle. */
  lemma BulkLoadAccepted(dag: DagData, loaded: DagData)
    ensures Accepts(dag, BulkLoad(loaded)) <==>
      && Acyclic(Ids(loaded.nodes), loaded.edges)
      && OneOwnerPerFile(loaded.nodes)
      && |ActivePositions(loaded.nodes)| <= loaded.header.maxNodes
      && forall e :: e in loaded.edges && e.edgeType.StubContract? ==>
           e.fromNode in Ids(loaded.nodes) && e.toNode in Ids(loaded.nodes)
  {
    CountActiveMeaning(loaded.nodes);
    hide CountActive, ActivePositions, Acyclic, OneOwnerPerFile, Ids;
    assert forall k :: 0 <= k < |loaded.edges| ==> loaded.edges[k] in loaded.edges;
  }
}
